/** The form a term is written in: a header with the names of its atoms and variables, and then its
    cells, whose addresses count from the start of the buffer. */
module SerialForm {
  import opened Cells
  import opened CopyGraph
  import opened RationalTrees
  import opened StringChunks

  /** Atoms from here on have their names in their cells. */
  const DIRECT: nat := 0x8000_0000_0000

  predicate IsDirect(f: Functor) {
    f.atom >= DIRECT
  }

  const VERSION: Cell := Con(Functor(DIRECT, 0))
  const REMAP: Cell := Con(Functor(DIRECT + 1, 0))
  const PAMER: Cell := Con(Functor(DIRECT + 2, 0))
  const EMPTY_LIST: Cell := Con(Functor(DIRECT + 3, 0))

  /** What stands for an atom in an index: its cell without the low five bits of the arity. */
  function ToAtom(f: Functor): Cell {
    Con(Functor(f.atom, f.arity / 32 * 32))
  }

  /** Two functors have one index entry exactly if they have one atom and their arities differ in the low five bits
      only; and the four constants of the format are different ones, with their names in their cells. */
  lemma {:induction false} IndexKeys(f: Functor, g: Functor)
    ensures ToAtom(f) == ToAtom(g) <==> f.atom == g.atom && f.arity - f.arity % 32 == g.arity - g.arity % 32
    ensures IsDirect(f) <==> f.atom >= 0x8000_0000_0000
    ensures |{VERSION, REMAP, PAMER, EMPTY_LIST}| == 4
    ensures forall c :: c in {VERSION, REMAP, PAMER, EMPTY_LIST} ==>
              c.Con? && IsDirect(c.functor) && c.functor.arity == 0
  {
    assert VERSION != REMAP && VERSION != PAMER && VERSION != EMPTY_LIST;
    assert REMAP != PAMER && REMAP != EMPTY_LIST && PAMER != EMPTY_LIST;
    assert {VERSION, REMAP, PAMER, EMPTY_LIST} - {EMPTY_LIST} == {VERSION, REMAP, PAMER};
    assert {VERSION, REMAP, PAMER} - {PAMER} == {VERSION, REMAP};
  }

  /** The names of indirect atoms, and of those variables that have one. */
  datatype Naming = Naming(atoms: seq<Text>, vars: map<Cell, Text>)

  // ----- the header -----

  /** An atom or a variable with its name. */
  datatype Entry = Entry(key: Cell, arity: nat, name: Text)

  /** The first word of an entry at `p`: its own place stands for the atom or the variable. */
  function HeadWord(e: Entry, p: nat): Cell {
    if e.key.Con? then Con(Functor(p, e.arity)) else Ref(p)
  }

  function TextWords(s: Text): seq<Cell> {
    seq(|Encoded(s)|, k requires 0 <= k < |Encoded(s)| => Int(Encoded(s)[k]))
  }

  function EntryWords(e: Entry, p: nat): seq<Cell> {
    [HeadWord(e, p)] + TextWords(e.name)
  }

  /** The header but for its last word. */
  function HeaderWords(es: seq<Entry>): (h: seq<Cell>)
    ensures |h| >= 2 && h[0] == VERSION && h[1] == REMAP
  {
    if es == [] then [VERSION, REMAP] else
      var n := |es| - 1;
      var h := HeaderWords(es[..n]);
      h + EntryWords(es[n], |h|)
  }

  function HeaderIndex(es: seq<Entry>): map<Cell, nat> {
    if es == [] then map[] else
      var n := |es| - 1;
      HeaderIndex(es[..n])[es[n].key := |HeaderWords(es[..n])|]
  }

  /** The place of the `i`-th entry. */
  function EntryAt(es: seq<Entry>, i: nat): nat
    requires i <= |es|
  {
    |HeaderWords(es[..i])|
  }

  ghost predicate EntryOk(s: Source, nm: Naming, e: Entry) {
    match e.key
    case Con(f) => f.atom < |nm.atoms| && f.atom < DIRECT && f.arity == e.arity / 32 * 32 && e.name == nm.atoms[f.atom]
    case Ref(i) =>
      && e.key in nm.vars && e.name == nm.vars[e.key]
      && IsTerm(s.kind, e.key) && i < |s.heap| && s.heap[i] == e.key
    case _ => false
  }

  ghost predicate HeaderOk(s: Source, nm: Naming, es: seq<Entry>) {
    && (forall i: nat :: i < |es| ==> EntryOk(s, nm, es[i]))
    && (forall i: nat, j: nat :: i < j < |es| ==> es[i].key != es[j].key)
  }

  /** The index has the place of every entry, and nothing else. */
  lemma {:induction false} HeaderIndexAt(es: seq<Entry>, i: nat)
    requires (forall i: nat, j: nat :: i < j < |es| ==> es[i].key != es[j].key) && i < |es|
    ensures es[i].key in HeaderIndex(es) && HeaderIndex(es)[es[i].key] == EntryAt(es, i)
  {
    var n := |es| - 1;
    if i < n {
      HeaderIndexAt(es[..n], i);
      assert es[..n][..i] == es[..i];
    }
  }

  lemma {:induction false} HeaderIndexOnly(es: seq<Entry>, c: Cell) returns (i: nat)
    requires c in HeaderIndex(es)
    ensures i < |es| && es[i].key == c && HeaderIndex(es)[c] == EntryAt(es, i) < |HeaderWords(es)|
  {
    var n := |es| - 1;
    if c == es[n].key {
      i := n;
    } else {
      i := HeaderIndexOnly(es[..n], c);
      assert es[..n][..i] == es[..i];
    }
  }

  // ----- the body -----

  /** The buffer, with the index of what is in it, the places of terms with the terms they are for,
      the structures and bignums in it in their order, and the places of functors and payload. */
  datatype Form = Form(buf: seq<Cell>, es: seq<Entry>, m: map<Cell, nat>, slots: map<nat, Cell>, gs: seq<Cell>,
                       fixed: set<nat>)

  function BodyAt(es: seq<Entry>): nat {
    |HeaderWords(es)| + 1
  }

  function At(m: map<Cell, nat>, c: Cell): nat {
    if c in m then m[c] else 0
  }

  ghost predicate IndexGrows(m: map<Cell, nat>, m': map<Cell, nat>) {
    forall c :: c in m ==> c in m' && m'[c] == m[c]
  }

  /** The word for a dereferenced term. */
  function Word(m: map<Cell, nat>, a: Cell): Cell {
    match a
    case Ref(_) => Ref(At(m, a))
    case Str(_) => Str(At(m, a))
    case Big(_) => Big(At(m, a))
    case Con(f) => if IsDirect(f) then a else Con(Functor(At(m, ToAtom(f)), f.arity))
    case _ => a
  }

  predicate Known(m: map<Cell, nat>, a: Cell) {
    && (a.Ref? || a.Str? || a.Big? ==> a in m)
    && (a.Con? && !IsDirect(a.functor) ==> ToAtom(a.functor) in m)
  }

  ghost function GroupSize(s: Source, g: Cell): nat
    requires Good(s)
  {
    if !IsTerm(s.kind, g) then 0 else
    match g
    case Str(_) => 1 + |Kids(s, g)|
    case Big(i) => |BigData(s.heap, i)|
    case _ => 0
  }

  /** Where the `i`-th structure or bignum is. */
  ghost function GroupStart(s: Source, body: nat, gs: seq<Cell>, i: nat): nat
    requires Good(s) && i <= |gs|
  {
    if i == 0 then body + 1 else GroupStart(s, body, gs, i - 1) + GroupSize(s, gs[i - 1])
  }

  ghost predicate SlotIs(t: Form, q: nat, a: Cell) {
    q in t.slots && t.slots[q] == a
  }

  ghost predicate StrAt(s: Source, t: Form, g: Cell, p: nat)
    requires Good(s) && IsTerm(s.kind, g) && g.Str?
  {
    && p + |Kids(s, g)| < |t.buf| && p in t.fixed
    && Known(t.m, s.heap[g.index]) && t.buf[p] == Word(t.m, s.heap[g.index])
    && forall k: nat :: k < |Kids(s, g)| ==> SlotIs(t, p + 1 + k, Kids(s, g)[k])
  }

  ghost predicate BigAt(s: Source, t: Form, g: Cell, p: nat)
    requires g.Big?
  {
    var d := BigData(s.heap, g.index);
    && d != [] && p + |d| <= |t.buf| && t.buf[p..p + |d|] == d
    && forall q: nat :: p <= q < p + |d| ==> q in t.fixed
  }

  ghost predicate GroupAt(s: Source, t: Form, g: Cell, p: nat)
    requires Good(s)
  {
    && IsTerm(s.kind, g) && g in t.m && t.m[g] == p
    && match g
       case Str(_) => StrAt(s, t, g, p)
       case Big(_) => BigAt(s, t, g, p)
       case _ => false
  }

  ghost predicate Grouped(s: Source, t: Form)
    requires Good(s)
  {
    && |t.buf| == GroupStart(s, BodyAt(t.es), t.gs, |t.gs|)
    && forall i: nat :: i < |t.gs| ==> GroupAt(s, t, t.gs[i], GroupStart(s, BodyAt(t.es), t.gs, i))
  }

  /** A dereferenced term of the source, no functor. */
  ghost predicate SlotTerm(s: Source, a: Cell) {
    IsTerm(s.kind, a) && (a.Ref? ==> a.index < |s.heap| && s.heap[a.index] == a) && (a.Con? ==> a.functor.arity == 0)
  }

  ghost predicate SlotOk(s: Source, t: Form, q: nat) {
    q in t.slots ==> BodyAt(t.es) <= q < |t.buf| && q !in t.fixed && SlotTerm(s, t.slots[q])
  }

  ghost predicate SlotDone(t: Form, q: nat)
    requires q in t.slots
  {
    q < |t.buf| && Known(t.m, t.slots[q]) && t.buf[q] == Word(t.m, t.slots[q])
  }

  ghost predicate Indexed(s: Source, nm: Naming, t: Form, c: Cell)
    requires c in t.m
  {
    var hi := HeaderIndex(t.es);
    match c
    case Con(_) => c in hi && t.m[c] == hi[c]
    case Ref(i) =>
      && i < |s.heap| && s.heap[i] == c && (c in nm.vars ==> c in hi)
      && if c in hi then t.m[c] == hi[c] else SlotIs(t, t.m[c], c) && SlotDone(t, t.m[c])
    case Str(_) => c in t.gs
    case Big(_) => c in t.gs
    case _ => false
  }

  ghost predicate IndexOk(s: Source, nm: Naming, t: Form) {
    && (forall c :: c in t.m ==> Indexed(s, nm, t, c))
    && (forall c :: c in HeaderIndex(t.es) ==> c in t.m && t.m[c] == HeaderIndex(t.es)[c])
  }

  /** What is written so far makes sense. */
  ghost predicate Formed(s: Source, nm: Naming, t: Form)
    requires Good(s)
  {
    && HeaderOk(s, nm, t.es) && HeaderWords(t.es) + [PAMER] <= t.buf
    && Grouped(s, t) && IndexOk(s, nm, t) && SlotIs(t, BodyAt(t.es), s.root)
    && (forall q :: q in t.slots ==> SlotOk(s, t, q))
    && forall q :: q in t.fixed ==> q < |t.buf|
  }

  /** The whole term is written. */
  ghost predicate Serial(s: Source, nm: Naming, t: Form)
    requires Good(s)
  {
    Formed(s, nm, t) && forall q :: q in t.slots ==> SlotDone(t, q)
  }

  // ----- nothing but the term is written -----

  /** `r` has the root and the arguments of all that is in it. */
  ghost predicate Spanning(s: Source, r: set<Cell>)
    requires Good(s)
  {
    s.root in r && forall c, k: nat :: c in r && IsTerm(s.kind, c) && k < |Kids(s, c)| ==> Kids(s, c)[k] in r
  }

  /** `c` is part of the term: it is reached from the root. */
  ghost predicate PartOf(s: Source, c: Cell)
    requires Good(s)
  {
    forall r: set<Cell> :: Spanning(s, r) ==> c in r
  }

  /** The name of `key` is asked for by `a`: its own, that of its atom or that of its functor's atom. */
  predicate AsksFor(h: seq<Cell>, a: Cell, key: Cell) {
    match a
    case Ref(_) => key == a
    case Con(f) => key == ToAtom(f)
    case Str(i) => i < |h| && h[i].Con? && key == ToAtom(h[i].functor)
    case _ => false
  }

  ghost predicate Wanted(s: Source, key: Cell)
    requires Good(s)
  {
    exists a :: PartOf(s, a) && AsksFor(s.heap, a, key)
  }

  ghost predicate EntriesWanted(s: Source, es: seq<Entry>)
    requires Good(s)
  {
    forall i: nat :: i < |es| ==> Wanted(s, es[i].key)
  }

  /** Every name in the header is asked for by a term that is reached from the root, and so is reached
      every term in a place and every structure, variable and bignum of the index. */
  ghost predicate Lean(s: Source, t: Form)
    requires Good(s)
  {
    && EntriesWanted(s, t.es)
    && (forall q :: q in t.slots ==> PartOf(s, t.slots[q]))
    && forall c :: c in t.m && !c.Con? ==> PartOf(s, c)
  }

  lemma {:induction false} KidPart(s: Source, c: Cell, k: nat)
    requires Good(s) && PartOf(s, c) && IsTerm(s.kind, c) && k < |Kids(s, c)|
    ensures PartOf(s, Kids(s, c)[k])
  {
    forall r: set<Cell> | Spanning(s, r) ensures Kids(s, c)[k] in r { assert c in r; }
  }

  /** Structures, variables and bignums of the term. */
  function NodesOf(t: Form): set<Cell> {
    set c | c in t.m && !c.Con?
  }

  lemma {:induction false} StrPlaced(s: Source, nm: Naming, t: Form, c: Cell)
    requires Good(s) && Formed(s, nm, t) && c in t.m && c.Str?
    ensures IsTerm(s.kind, c) && StrAt(s, t, c, t.m[c])
  {
    assert Indexed(s, nm, t, c);
    var i: nat :| i < |t.gs| && t.gs[i] == c;
    assert GroupAt(s, t, t.gs[i], GroupStart(s, BodyAt(t.es), t.gs, i));
  }

  /** A bignum is written with all its bits. */
  lemma {:induction false} NumberPlaced(s: Source, nm: Naming, t: Form, c: Cell)
    requires Good(s) && Formed(s, nm, t) && c in t.m && c.Big?
    ensures SameNumber(s.heap, c.index, t.buf, t.m[c])
  {
    assert Indexed(s, nm, t, c);
    var i: nat :| i < |t.gs| && t.gs[i] == c;
    assert GroupAt(s, t, t.gs[i], GroupStart(s, BodyAt(t.es), t.gs, i));
    NumberAt(s, t, c, t.m[c]);
  }

  lemma {:induction false} NumberAt(s: Source, t: Form, g: Cell, p: nat)
    requires g.Big? && BigAt(s, t, g, p)
    ensures SameNumber(s.heap, g.index, t.buf, p)
  {
    var d := BigData(s.heap, g.index);
    BigDataIs(s.heap, g.index, 0);
    assert t.buf[p] == t.buf[p..p + |d|][0] == d[0];
    forall m: nat | 32 + 64 * m < s.heap[g.index].bits
      ensures g.index + 1 + m < |s.heap| && p + 1 + m < |t.buf| && t.buf[p + 1 + m] == s.heap[g.index + 1 + m]
    {
      BigDataIs(s.heap, g.index, m);
      assert t.buf[p + 1 + m] == t.buf[p..p + |d|][m + 1];
    }
  }

  /** A term's place makes it known, and its arguments have places too. */
  lemma {:induction false} PlacesSpan(s: Source, nm: Naming, t: Form, q: nat, k: nat)
    requires Good(s) && Serial(s, nm, t) && q in t.slots && IsTerm(s.kind, t.slots[q]) && k < |Kids(s, t.slots[q])|
    ensures Kids(s, t.slots[q])[k] in t.slots.Values
  {
    var c := t.slots[q];
    assert SlotDone(t, q);
    StrPlaced(s, nm, t, c);
    assert SlotIs(t, t.m[c] + 1 + k, Kids(s, c)[k]);
  }

  /** The nodes of a finished form are the structures, variables and bignums reached from the root: all
      of them, and no others. */
  lemma {:induction false} NodesAreParts(s: Source, nm: Naming, t: Form, c: Cell)
    requires Good(s) && Serial(s, nm, t) && Lean(s, t)
    ensures c in NodesOf(t) <==> (c.Str? || c.Ref? || c.Big?) && PartOf(s, c)
  {
    if c in NodesOf(t) { assert Indexed(s, nm, t, c); }
    if (c.Str? || c.Ref? || c.Big?) && PartOf(s, c) {
      PlacesSpanning(s, nm, t);
      var q :| q in t.slots && t.slots[q] == c;
      assert SlotDone(t, q);
    }
  }

  lemma {:induction false} PlacesSpanning(s: Source, nm: Naming, t: Form)
    requires Good(s) && Serial(s, nm, t)
    ensures Spanning(s, t.slots.Values)
  {
    var r := t.slots.Values;
    assert SlotIs(t, BodyAt(t.es), s.root);
    forall d, k: nat | d in r && IsTerm(s.kind, d) && k < |Kids(s, d)| ensures Kids(s, d)[k] in r {
      var q :| q in t.slots && t.slots[q] == d;
      PlacesSpan(s, nm, t, q, k);
    }
  }

  // ----- what is asked of the source -----

  /** Constants have no arguments. */
  ghost predicate Plain(s: Source) {
    && (s.root.Con? ==> s.root.functor.arity == 0)
    && forall i: nat :: i < |s.heap| && i < |s.kind| && s.kind[i] == Data && s.heap[i].Con? ==>
      s.heap[i].functor.arity == 0
  }

  predicate Named(nm: Naming, f: Functor) {
    IsDirect(f) || f.atom < |nm.atoms|
  }

  /** Every indirect atom of the source has a name. */
  ghost predicate AllNamed(s: Source, nm: Naming) {
    && (s.root.Con? ==> Named(nm, s.root.functor))
    && forall i: nat ::
      i < |s.heap| && i < |s.kind| && (s.kind[i] == Data || s.kind[i] == FunctorKind) && s.heap[i].Con? ==>
         Named(nm, s.heap[i].functor)
  }
}
