/** Writing a term into a buffer, sharing and cycles and all. */
module TermWriter {
  import opened Cells
  import opened CopyGraph
  import opened RationalTrees
  import opened SerialForm
  import opened StringChunks
  import opened TermEnvironment

  // ----- growing a form -----

  /** `t'` has all that `t` has, but for what is in unfinished places. */
  ghost predicate Extended(t: Form, t': Form) {
    && t'.es == t.es && IndexGrows(t.m, t'.m) && t.gs <= t'.gs && t.fixed <= t'.fixed && |t.buf| <= |t'.buf|
    && (forall q :: q in t.slots ==> q in t'.slots && t'.slots[q] == t.slots[q])
    && (forall q: nat :: q < |t.buf| && (q < BodyAt(t.es) || q in t.fixed) ==> t'.buf[q] == t.buf[q])
    && (forall q :: q in t.slots && SlotDone(t, q) ==> SlotDone(t', q))
  }

  lemma {:induction false} WordStays(m: map<Cell, nat>, m': map<Cell, nat>, a: Cell)
    requires IndexGrows(m, m') && Known(m, a)
    ensures Known(m', a) && Word(m', a) == Word(m, a)
  {
  }

  lemma {:induction false} StartPrefix(s: Source, body: nat, gs: seq<Cell>, gs': seq<Cell>, i: nat)
    requires Good(s) && gs <= gs' && i <= |gs|
    ensures GroupStart(s, body, gs', i) == GroupStart(s, body, gs, i)
  {
    if i > 0 { StartPrefix(s, body, gs, gs', i - 1); }
  }

  lemma {:induction false} GroupStays(s: Source, t: Form, t': Form, g: Cell, p: nat)
    requires Good(s) && GroupAt(s, t, g, p) && Extended(t, t')
    ensures GroupAt(s, t', g, p)
  {
    if g.Str? {
      assert CellOk(s.heap, s.kind, g.index);
      WordStays(t.m, t'.m, s.heap[g.index]);
      forall k: nat | k < |Kids(s, g)| ensures SlotIs(t', p + 1 + k, Kids(s, g)[k]) {
        assert SlotIs(t, p + 1 + k, Kids(s, g)[k]);
      }
    } else {
      var d := BigData(s.heap, g.index);
      assert t.buf[p..p + |d|] == t'.buf[p..p + |d|];
    }
  }

  lemma {:induction false} IndexedStays(s: Source, nm: Naming, t: Form, t': Form, c: Cell)
    requires c in t.m && Indexed(s, nm, t, c) && Extended(t, t')
    ensures c in t'.m && Indexed(s, nm, t', c)
  {
  }

  lemma {:induction false} IndexStays(s: Source, nm: Naming, t: Form, t': Form)
    requires IndexOk(s, nm, t) && Extended(t, t') && forall c :: c in t'.m && c !in t.m ==> Indexed(s, nm, t', c)
    ensures IndexOk(s, nm, t')
  {
    forall c | c in t'.m ensures Indexed(s, nm, t', c) {
      if c in t.m { IndexedStays(s, nm, t, t', c); }
    }
  }

  lemma {:induction false} HeaderStays(t: Form, t': Form)
    requires HeaderWords(t.es) + [PAMER] <= t.buf && Extended(t, t')
    ensures HeaderWords(t'.es) + [PAMER] <= t'.buf
  {
    var head := HeaderWords(t.es) + [PAMER];
    forall q: nat | q < |head| ensures t'.buf[q] == head[q] { assert t.buf[q] == head[q]; }
  }

  /** The `i`-th group stays where it is. */
  lemma {:induction false} OldGroup(s: Source, t: Form, t': Form, i: nat)
    requires Good(s) && Grouped(s, t) && Extended(t, t') && i < |t.gs|
    ensures GroupAt(s, t', t'.gs[i], GroupStart(s, BodyAt(t'.es), t'.gs, i))
  {
    StartPrefix(s, BodyAt(t.es), t.gs, t'.gs, i);
    GroupStays(s, t, t', t.gs[i], GroupStart(s, BodyAt(t.es), t.gs, i));
  }

  lemma {:induction false} GroupedStays(s: Source, t: Form, t': Form)
    requires Good(s) && Grouped(s, t) && Extended(t, t') && t'.gs == t.gs && |t'.buf| == |t.buf|
    ensures Grouped(s, t')
  {
    forall i: nat | i < |t'.gs| ensures GroupAt(s, t', t'.gs[i], GroupStart(s, BodyAt(t'.es), t'.gs, i)) {
      OldGroup(s, t, t', i);
    }
  }

  lemma {:induction false} StartMore(s: Source, body: nat, gs: seq<Cell>, gs': seq<Cell>, g: Cell)
    requires Good(s) && gs' == gs + [g]
    ensures GroupStart(s, body, gs', |gs|) == GroupStart(s, body, gs, |gs|)
    ensures GroupStart(s, body, gs', |gs'|) == GroupStart(s, body, gs, |gs|) + GroupSize(s, g)
  {
    StartPrefix(s, body, gs, gs', |gs|);
    assert gs'[|gs'| - 1] == g && |gs'| - 1 == |gs|;
  }

  lemma {:induction false} GroupedMore(s: Source, t: Form, t': Form, g: Cell)
    requires Good(s) && Grouped(s, t) && Extended(t, t') && t'.gs == t.gs + [g]
    requires GroupAt(s, t', g, |t.buf|) && |t'.buf| == |t.buf| + GroupSize(s, g)
    ensures Grouped(s, t')
  {
    var n := |t.gs|;
    StartMore(s, BodyAt(t.es), t.gs, t'.gs, g);
    LastGroup(s, t', BodyAt(t.es), t.gs, g, |t.buf|);
    forall i: nat | i < |t'.gs| ensures GroupAt(s, t', t'.gs[i], GroupStart(s, BodyAt(t'.es), t'.gs, i)) {
      if i != n { OldGroup(s, t, t', i); }
    }
  }

  lemma {:induction false} LastGroup(s: Source, t': Form, body: nat, gs: seq<Cell>, g: Cell, p: nat)
    requires Good(s) && p == GroupStart(s, body, gs, |gs|) && body == BodyAt(t'.es) && t'.gs == gs + [g]
    requires GroupAt(s, t', g, p)
    ensures GroupAt(s, t', t'.gs[|gs|], GroupStart(s, BodyAt(t'.es), t'.gs, |gs|))
  {
    StartPrefix(s, body, gs, t'.gs, |gs|);
  }

  /** Filling in a place: what was there before stays. */
  lemma {:induction false} FormedStays(s: Source, nm: Naming, t: Form, t': Form)
    requires Good(s) && Formed(s, nm, t) && Extended(t, t') && t'.gs == t.gs && |t'.buf| == |t.buf|
    requires t'.fixed == t.fixed && forall q :: q in t'.slots ==> SlotOk(s, t', q)
    requires forall c :: c in t'.m && c !in t.m ==> Indexed(s, nm, t', c)
    ensures Formed(s, nm, t')
  {
    GroupedStays(s, t, t');
    IndexStays(s, nm, t, t');
    HeaderStays(t, t');
  }

  /** The same for a new group. */
  lemma {:induction false} FormedMore(s: Source, nm: Naming, t: Form, t': Form, g: Cell)
    requires Good(s) && Formed(s, nm, t) && Extended(t, t')
    requires t'.gs == t.gs + [g] && t'.m == t.m[g := |t.buf|] && (g.Str? || g.Big?)
    requires GroupAt(s, t', g, |t.buf|) && |t'.buf| == |t.buf| + GroupSize(s, g)
    requires (forall q :: q in t'.slots ==> SlotOk(s, t', q)) && forall q :: q in t'.fixed ==> q < |t'.buf|
    ensures Formed(s, nm, t')
  {
    GroupedMore(s, t, t', g);
    NewIndexed(s, nm, t, t', g);
    IndexStays(s, nm, t, t');
    HeaderStays(t, t');
  }

  lemma {:induction false} NewIndexed(s: Source, nm: Naming, t: Form, t': Form, g: Cell)
    requires t'.gs == t.gs + [g] && t'.m == t.m[g := |t.buf|] && (g.Str? || g.Big?)
    ensures forall c :: c in t'.m && c !in t.m ==> Indexed(s, nm, t', c)
  {
    assert t'.gs[|t.gs|] == g;
  }

  /** The form with the word for its term in a place. */
  function Put(t: Form, q: nat, a: Cell): Form
    requires q < |t.buf|
  {
    t.(buf := t.buf[q := Word(t.m, a)])
  }

  /** A place whose term is known is filled. */
  lemma {:induction false} PutStep(s: Source, nm: Naming, t: Form, q: nat, a: Cell)
    requires Good(s) && Formed(s, nm, t) && SlotIs(t, q, a) && Known(t.m, a) && q < |t.buf|
    ensures Formed(s, nm, Put(t, q, a)) && Extended(t, Put(t, q, a)) && SlotDone(Put(t, q, a), q)
  {
    var t' := Put(t, q, a);
    assert SlotOk(s, t, q);
    forall x | x in t.slots && SlotDone(t, x) ensures SlotDone(t', x) { }
    forall x | x in t'.slots ensures SlotOk(s, t', x) { assert SlotOk(s, t, x); }
    FormedStays(s, nm, t, t');
  }

  /** A variable without a name is met first in this place. */
  lemma {:induction false} PutVariable(s: Source, nm: Naming, t: Form, q: nat, a: Cell, t': Form)
    requires Good(s) && Formed(s, nm, t) && SlotIs(t, q, a) && q < |t.buf|
    requires a.Ref? && a !in t.m && a !in nm.vars && t' == t.(m := t.m[a := q], buf := t.buf[q := Ref(q)])
    ensures Formed(s, nm, t') && Extended(t, t') && SlotDone(t', q)
  {
    assert SlotOk(s, t, q);
    forall x | x in t.slots && SlotDone(t, x) ensures SlotDone(t', x) { WordStays(t.m, t'.m, t.slots[x]); }
    forall x | x in t'.slots ensures SlotOk(s, t', x) { assert SlotOk(s, t, x); }
    forall c | c in t'.m && c !in t.m ensures Indexed(s, nm, t', c) { assert c !in HeaderIndex(t.es); }
    FormedStays(s, nm, t, t');
  }

  /** The places of the arguments of a structure at `p`. */
  ghost function ArgSlots(s: Source, g: Cell, p: nat): (r: map<nat, Cell>)
    requires Good(s) && IsTerm(s.kind, g)
    ensures forall k: nat {:trigger Kids(s, g)[k]} :: k < |Kids(s, g)| ==>
            p + 1 + k in r && r[p + 1 + k] == Kids(s, g)[k]
    ensures forall q :: q in r ==> p < q <= p + |Kids(s, g)| && r[q] == Kids(s, g)[q - p - 1]
  {
    var places := FromTo(p + 1, p + 1 + |Kids(s, g)|);
    map q | q in places :: Kids(s, g)[q - p - 1]
  }

  lemma {:induction false} KidSlot(s: Source, c: Cell, k: nat)
    requires Good(s) && Plain(s) && IsTerm(s.kind, c) && c.Str? && k < |Kids(s, c)|
    ensures SlotTerm(s, Kids(s, c)[k])
  {
    var a := Arg(s.heap, c.index, k);
    ArgIsTerm(s.heap, s.kind, c.index, k);
    ValuePlain(s, a);
    assert Kids(s, c)[k] == Value(s.heap, s.kind, a);
  }

  lemma {:induction false} ValuePlain(s: Source, a: Cell)
    requires Good(s) && Plain(s) && IsTerm(s.kind, a) && (a.Con? ==> a.functor.arity == 0)
    ensures SlotTerm(s, Value(s.heap, s.kind, a))
  {
    TermEnds(s.heap, s.kind, a);
    var n: nat :| Ends(s.heap, a, n);
    ChainPlain(s, a, n);
  }

  lemma {:induction false} ChainPlain(s: Source, a: Cell, n: nat)
    requires Good(s) && Plain(s) && IsTerm(s.kind, a) && (a.Con? ==> a.functor.arity == 0) && Ends(s.heap, a, n)
    ensures SlotTerm(s, Value(s.heap, s.kind, a))
    decreases n
  {
    DerefStep(s.heap, s.kind, a);
    if a.Ref? && s.heap[a.index] != a {
      assert CellOk(s.heap, s.kind, a.index);
      ChainPlain(s, s.heap[a.index], n - 1);
    }
  }

  /** The form with a new structure behind it, its arguments unfinished. */
  ghost function WithStr(s: Source, t: Form, g: Cell): Form
    requires Good(s) && IsTerm(s.kind, g) && g.Str?
  {
    var p := |t.buf|;
    Form(t.buf + [Word(t.m, s.heap[g.index])] + seq(|Kids(s, g)|, _ => Ref(0)), t.es, t.m[g := p],
         t.slots + ArgSlots(s, g, p), t.gs + [g], t.fixed + {p})
  }

  lemma {:induction false} StrExtended(s: Source, nm: Naming, t: Form, g: Cell)
    requires Good(s) && Formed(s, nm, t) && IsTerm(s.kind, g) && g.Str? && g !in t.m
    ensures Extended(t, WithStr(s, t, g))
  {
    var t', p := WithStr(s, t, g), |t.buf|;
    forall q | q in t.slots ensures q in t'.slots && t'.slots[q] == t.slots[q] && (SlotDone(t, q) ==> SlotDone(t', q)) {
      assert SlotOk(s, t, q);
      if SlotDone(t, q) { WordStays(t.m, t'.m, t.slots[q]); }
    }
  }

  lemma {:induction false} StrSlots(s: Source, nm: Naming, t: Form, g: Cell)
    requires Good(s) && Plain(s) && Formed(s, nm, t) && IsTerm(s.kind, g) && g.Str?
    ensures forall q :: q in WithStr(s, t, g).slots ==> SlotOk(s, WithStr(s, t, g), q)
  {
    var t', p := WithStr(s, t, g), |t.buf|;
    HeaderBelow(s, nm, t);
    forall q | q in t'.slots ensures SlotOk(s, t', q) {
      if q in ArgSlots(s, g, p) { KidSlot(s, g, q - p - 1); } else { assert SlotOk(s, t, q); }
    }
  }

  lemma {:induction false} HeaderBelow(s: Source, nm: Naming, t: Form)
    requires Good(s) && Formed(s, nm, t)
    ensures BodyAt(t.es) <= |t.buf|
  {
  }

  lemma {:induction false} StrGroup(s: Source, t: Form, g: Cell)
    requires Good(s) && IsTerm(s.kind, g) && g.Str? && g !in t.m && Known(t.m, s.heap[g.index])
    ensures GroupAt(s, WithStr(s, t, g), g, |t.buf|)
  {
    var t', p := WithStr(s, t, g), |t.buf|;
    NewFunctor(s, t, g);
    forall k: nat | k < |Kids(s, g)| ensures SlotIs(t', p + 1 + k, Kids(s, g)[k]) { NewSlot(s, t, g, k); }
    assert StrAt(s, t', g, p);
  }

  lemma {:induction false} NewFunctor(s: Source, t: Form, g: Cell)
    requires Good(s) && IsTerm(s.kind, g) && g.Str? && g !in t.m && Known(t.m, s.heap[g.index])
    ensures var t', p := WithStr(s, t, g), |t.buf|;
            && p + |Kids(s, g)| < |t'.buf| && p in t'.fixed && g in t'.m && t'.m[g] == p
            && Known(t'.m, s.heap[g.index]) && t'.buf[p] == Word(t'.m, s.heap[g.index])
  {
    WordStays(t.m, WithStr(s, t, g).m, s.heap[g.index]);
  }

  lemma {:induction false} NewSlot(s: Source, t: Form, g: Cell, k: nat)
    requires Good(s) && IsTerm(s.kind, g) && g.Str? && k < |Kids(s, g)|
    ensures SlotIs(WithStr(s, t, g), |t.buf| + 1 + k, Kids(s, g)[k])
  {
    var r := ArgSlots(s, g, |t.buf|);
    assert |t.buf| + 1 + k in r && r[|t.buf| + 1 + k] == Kids(s, g)[k];
  }

  lemma {:induction false} StrStep(s: Source, nm: Naming, t: Form, g: Cell)
    requires Good(s) && Plain(s) && Formed(s, nm, t) && IsTerm(s.kind, g) && g.Str? && g !in t.m
    requires Known(t.m, s.heap[g.index])
    ensures Formed(s, nm, WithStr(s, t, g)) && Extended(t, WithStr(s, t, g))
  {
    var t' := WithStr(s, t, g);
    StrExtended(s, nm, t, g);
    StrSlots(s, nm, t, g);
    StrGroup(s, t, g);
    FormedMore(s, nm, t, t', g);
  }

  /** The form with a new bignum behind it. */
  ghost function WithBig(s: Source, t: Form, g: Cell): Form
    requires g.Big?
  {
    var p, d := |t.buf|, BigData(s.heap, g.index);
    Form(t.buf + d, t.es, t.m[g := p], t.slots, t.gs + [g], t.fixed + FromTo(p, p + |d|))
  }

  ghost function FromTo(p: nat, e: nat): (r: set<nat>)
    ensures forall q :: q in r <==> p <= q < e
    decreases e
  {
    if e <= p then {} else FromTo(p, e - 1) + {e - 1}
  }

  lemma {:induction false} BigExtended(s: Source, nm: Naming, t: Form, g: Cell)
    requires Good(s) && Formed(s, nm, t) && g.Big? && g !in t.m
    ensures Extended(t, WithBig(s, t, g))
  {
    var t' := WithBig(s, t, g);
    forall q | q in t.slots && SlotDone(t, q) ensures SlotDone(t', q) { WordStays(t.m, t'.m, t.slots[q]); }
  }

  lemma {:induction false} BigStep(s: Source, nm: Naming, t: Form, g: Cell)
    requires Good(s) && Formed(s, nm, t) && IsTerm(s.kind, g) && g.Big? && g !in t.m
    ensures Formed(s, nm, WithBig(s, t, g)) && Extended(t, WithBig(s, t, g))
  {
    var t', p := WithBig(s, t, g), |t.buf|;
    assert CellOk(s.heap, s.kind, g.index);
    BigExtended(s, nm, t, g);
    forall q | q in t'.slots ensures SlotOk(s, t', q) { assert SlotOk(s, t, q); }
    assert BigAt(s, t', g, p);
    FormedMore(s, nm, t, t', g);
  }

  /** The new bignum has all the bits of the old one. */
  lemma {:induction false} NewNumber(s: Source, t: Form, q: nat, g: Cell)
    requires Good(s) && IsTerm(s.kind, g) && g.Big? && q < |t.buf|
    ensures SameNumber(s.heap, g.index, Put(WithBig(s, t, g), q, g).buf, |t.buf|)
  {
    assert CellOk(s.heap, s.kind, g.index);
    NumCellsLeast(s.heap[g.index].bits, 1);
    var t', d := Put(WithBig(s, t, g), q, g), BigData(s.heap, g.index);
    assert t'.buf[|t.buf|..|t.buf| + |d|] == d;
    assert BigAt(s, t', g, |t.buf|);
    NumberAt(s, t', g, |t.buf|);
  }

  // ----- what the header prepares -----

  /** The name of `a`, if it needs one, is in the header; a structure has been looked at. */
  ghost predicate Handled(s: Source, nm: Naming, hi: map<Cell, nat>, seen: set<Cell>, a: Cell) {
    match a
    case Con(f) => IsDirect(f) || ToAtom(f) in hi
    case Ref(_) => a in nm.vars ==> a in hi
    case Str(_) => a in seen
    case _ => true
  }

  ghost predicate LookedAt(s: Source, nm: Naming, hi: map<Cell, nat>, seen: set<Cell>, c: Cell)
    requires Good(s)
  {
    c.Str? ==>
      && IsTerm(s.kind, c) && Known(hi, s.heap[c.index])
      && forall k: nat :: k < |Kids(s, c)| ==> Handled(s, nm, hi, seen, Kids(s, c)[k])
  }

  ghost predicate Prepared(s: Source, nm: Naming, hi: map<Cell, nat>, seen: set<Cell>)
    requires Good(s)
  {
    Handled(s, nm, hi, seen, s.root) && forall c :: c in seen ==> LookedAt(s, nm, hi, seen, c)
  }

  // ----- writing the body -----

  type Places = seq<(nat, Cell)>

  ghost predicate Waiting(stack: Places, q: nat) {
    exists j: nat :: j < |stack| && stack[j].0 == q
  }

  ghost predicate PendingAt(s: Source, t: Form, x: (nat, Cell))
    requires Good(s)
  {
    IsTerm(s.kind, x.1) && SlotIs(t, x.0, Value(s.heap, s.kind, x.1))
  }

  /** All places are filled but those on the stack, whose terms are on the stack with them. */
  ghost predicate Writing(s: Source, nm: Naming, seen: set<Cell>, t: Form, stack: Places)
    requires Good(s)
  {
    && Formed(s, nm, t) && Prepared(s, nm, HeaderIndex(t.es), seen)
    && (forall q :: q in t.slots ==> Handled(s, nm, HeaderIndex(t.es), seen, t.slots[q]))
    && (forall j: nat :: j < |stack| ==> PendingAt(s, t, stack[j]))
    && forall q :: q in t.slots ==> SlotDone(t, q) || Waiting(stack, q)
  }

  /** Places of `t'` that `t` does not have are waiting. */
  ghost predicate NewWait(s: Source, nm: Naming, seen: set<Cell>, t: Form, t': Form, more: Places)
    requires Good(s)
  {
    && (forall q :: q in t'.slots && q !in t.slots ==>
      Waiting(more, q) && Handled(s, nm, HeaderIndex(t.es), seen, t'.slots[q]))
    && forall j: nat :: j < |more| ==> PendingAt(s, t', more[j])
  }

  lemma {:induction false} WaitingMore(stack: Places, more: Places, q: nat)
    ensures Waiting(stack, q) || Waiting(more, q) ==> Waiting(stack + more, q)
  {
    if Waiting(stack, q) {
      var j: nat :| j < |stack| && stack[j].0 == q;
      assert (stack + more)[j].0 == q;
    } else if Waiting(more, q) {
      var j: nat :| j < |more| && more[j].0 == q;
      assert (stack + more)[|stack| + j].0 == q;
    }
  }

  lemma {:induction false} WaitingPop(stack: Places, x: (nat, Cell), q: nat)
    requires Waiting(stack + [x], q) && q != x.0
    ensures Waiting(stack, q)
  {
    var j: nat :| j < |stack + [x]| && (stack + [x])[j].0 == q;
    assert stack[j].0 == q;
  }

  /** One place is filled, and what is new is on the stack. */
  lemma {:induction false} WritingStep(s: Source, nm: Naming, seen: set<Cell>, t: Form, t': Form, rest: Places,
                                       x: (nat, Cell),
                                       more: Places)
    requires Good(s) && Writing(s, nm, seen, t, rest + [x]) && Formed(s, nm, t') && Extended(t, t')
    requires PendingAt(s, t, x) && SlotDone(t', x.0) && NewWait(s, nm, seen, t, t', more)
    ensures Writing(s, nm, seen, t', rest + more)
  {
    var stack, stack' := rest + [x], rest + more;
    forall q | q in t'.slots ensures SlotDone(t', q) || Waiting(stack', q) {
      WaitingMore(rest, more, q);
      if q in t.slots && q != x.0 && !SlotDone(t, q) { WaitingPop(rest, x, q); }
    }
    forall q | q in t'.slots ensures Handled(s, nm, HeaderIndex(t'.es), seen, t'.slots[q]) { }
    forall j: nat | j < |stack'| ensures PendingAt(s, t', stack'[j]) {
      if j < |rest| { assert stack[j] == rest[j] && PendingAt(s, t, stack[j]); }
    }
  }

  lemma {:induction false} TopPending(s: Source, nm: Naming, seen: set<Cell>, t: Form, rest: Places, x: (nat, Cell))
    requires Good(s) && Writing(s, nm, seen, t, rest + [x])
    ensures PendingAt(s, t, x) && x.0 < |t.buf|
    ensures Handled(s, nm, HeaderIndex(t.es), seen, Value(s.heap, s.kind, x.1)) &&
            SlotTerm(s, Value(s.heap, s.kind, x.1))
  {
    assert (rest + [x])[|rest|] == x;
    assert SlotOk(s, t, x.0);
  }

  /** The place of a term that is known, or of a constant. */
  lemma {:induction false} StepPut(s: Source, nm: Naming, seen: set<Cell>, t: Form, rest: Places, x: (nat, Cell),
                                   a: Cell)
    requires Good(s) && Writing(s, nm, seen, t, rest + [x]) && PendingAt(s, t, x) && x.0 < |t.buf|
    requires a == Value(s.heap, s.kind, x.1) && Known(t.m, a)
    ensures Writing(s, nm, seen, Put(t, x.0, a), rest)
  {
    PutStep(s, nm, t, x.0, a);
    WritingStep(s, nm, seen, t, Put(t, x.0, a), rest, x, []);
    assert rest + [] == rest;
  }

  lemma {:induction false} StepVariable(s: Source, nm: Naming, seen: set<Cell>, t: Form, rest: Places, x: (nat, Cell),
                                        a: Cell,
                                        t': Form)
    requires Good(s) && Writing(s, nm, seen, t, rest + [x]) && PendingAt(s, t, x) && x.0 < |t.buf|
    requires a == Value(s.heap, s.kind, x.1) && a.Ref? && a !in t.m
    requires Handled(s, nm, HeaderIndex(t.es), seen, a)
    requires t' == t.(m := t.m[a := x.0], buf := t.buf[x.0 := Ref(x.0)])
    ensures Writing(s, nm, seen, t', rest)
  {
    assert a !in nm.vars by { assert a in HeaderIndex(t.es) ==> a in t.m; }
    PutVariable(s, nm, t, x.0, a, t');
    WritingStep(s, nm, seen, t, t', rest, x, []);
    assert rest + [] == rest;
  }

  /** The arguments of a structure at `p` as they are put on the stack, the first on top. */
  ghost function PushedArgs(s: Source, g: Cell, p: nat): (r: Places)
    requires Good(s) && IsTerm(s.kind, g)
    ensures |r| == |Kids(s, g)|
  {
    var n := |Kids(s, g)|;
    seq(n, j requires 0 <= j < n => (p + n - j, Kids(s, g)[n - 1 - j]))
  }

  lemma {:induction false} ValueAgain(s: Source, a: Cell)
    requires Good(s) && IsTerm(s.kind, a) && (a.Ref? ==> s.heap[a.index] == a)
    ensures Value(s.heap, s.kind, a) == a
  {
    DerefStep(s.heap, s.kind, a);
  }

  lemma {:induction false} SlotWaits(s: Source, g: Cell, p: nat, q: nat)
    requires Good(s) && IsTerm(s.kind, g) && q in ArgSlots(s, g, p)
    ensures Waiting(PushedArgs(s, g, p), q)
  {
    var more, j := PushedArgs(s, g, p), p + |Kids(s, g)| - q;
    assert more[j].0 == q;
  }

  lemma {:induction false} PushedPending(s: Source, t': Form, g: Cell, p: nat, j: nat)
    requires Good(s) && IsTerm(s.kind, g) && j < |Kids(s, g)|
    requires forall q :: q in ArgSlots(s, g, p) ==> SlotIs(t', q, ArgSlots(s, g, p)[q])
    ensures PendingAt(s, t', PushedArgs(s, g, p)[j])
  {
    var k := |Kids(s, g)| - 1 - j;
    var q, a := p + 1 + k, Kids(s, g)[k];
    ValueAgain(s, a);
    assert q in ArgSlots(s, g, p) && SlotIs(t', q, a);
    assert PushedArgs(s, g, p)[j] == (q, a);
  }

  lemma {:induction false} ArgHandled(s: Source, nm: Naming, hi: map<Cell, nat>, seen: set<Cell>, g: Cell, p: nat,
                                      q: nat)
    requires Good(s) && IsTerm(s.kind, g) && g.Str? && LookedAt(s, nm, hi, seen, g) && q in ArgSlots(s, g, p)
    ensures Waiting(PushedArgs(s, g, p), q) && Handled(s, nm, hi, seen, ArgSlots(s, g, p)[q])
  {
    SlotWaits(s, g, p, q);
    assert ArgSlots(s, g, p)[q] == Kids(s, g)[q - p - 1];
  }

  lemma {:induction false} StrWaits(s: Source, nm: Naming, seen: set<Cell>, t: Form, g: Cell)
    requires Good(s) && IsTerm(s.kind, g) && g.Str? && LookedAt(s, nm, HeaderIndex(t.es), seen, g)
    ensures NewWait(s, nm, seen, t, WithStr(s, t, g), PushedArgs(s, g, |t.buf|))
  {
    var t', p := WithStr(s, t, g), |t.buf|;
    forall q | q in t'.slots && q !in t.slots
      ensures Waiting(PushedArgs(s, g, p), q) && Handled(s, nm, HeaderIndex(t.es), seen, t'.slots[q])
    {
      ArgHandled(s, nm, HeaderIndex(t.es), seen, g, p, q);
    }
    forall j: nat | j < |PushedArgs(s, g, p)| ensures PendingAt(s, t', PushedArgs(s, g, p)[j]) {
      PushedPending(s, t', g, p, j);
    }
  }

  /** The form after a structure was met first in place `q`. */
  ghost function PutStr(s: Source, t: Form, q: nat, g: Cell): Form
    requires Good(s) && IsTerm(s.kind, g) && g.Str? && q < |t.buf|
  {
    Put(WithStr(s, t, g), q, g)
  }

  lemma {:induction false} WaitStays(s: Source, nm: Naming, seen: set<Cell>, t: Form, t1: Form, t2: Form, more: Places)
    requires Good(s) && NewWait(s, nm, seen, t, t1, more) && t2.slots == t1.slots
    ensures NewWait(s, nm, seen, t, t2, more)
  {
    forall j: nat | j < |more| ensures PendingAt(s, t2, more[j]) { assert PendingAt(s, t1, more[j]); }
  }

  lemma {:induction false} ExtendedTwice(t: Form, t1: Form, t2: Form)
    requires Extended(t, t1) && Extended(t1, t2)
    ensures Extended(t, t2)
  {
  }

  lemma {:induction false} StepStr(s: Source, nm: Naming, seen: set<Cell>, t: Form, rest: Places, x: (nat, Cell),
                                   g: Cell)
    requires Good(s) && Plain(s) && Writing(s, nm, seen, t, rest + [x]) && PendingAt(s, t, x) && x.0 < |t.buf|
    requires g == Value(s.heap, s.kind, x.1) && g.Str? && g !in t.m && g in seen
    ensures Writing(s, nm, seen, PutStr(s, t, x.0, g), rest + PushedArgs(s, g, |t.buf|))
  {
    var t1, t2, more := WithStr(s, t, g), PutStr(s, t, x.0, g), PushedArgs(s, g, |t.buf|);
    assert LookedAt(s, nm, HeaderIndex(t.es), seen, g);
    HeaderKnown(s, nm, t, s.heap[g.index]);
    StrStep(s, nm, t, g);
    PutStep(s, nm, t1, x.0, g);
    ExtendedTwice(t, t1, t2);
    StrWaits(s, nm, seen, t, g);
    WaitStays(s, nm, seen, t, t1, t2, more);
    WritingStep(s, nm, seen, t, t2, rest, x, more);
  }

  lemma {:induction false} HeaderKnown(s: Source, nm: Naming, t: Form, a: Cell)
    requires IndexOk(s, nm, t) && Known(HeaderIndex(t.es), a)
    ensures Known(t.m, a)
  {
  }

  lemma {:induction false} StepBig(s: Source, nm: Naming, seen: set<Cell>, t: Form, rest: Places, x: (nat, Cell),
                                   g: Cell)
    requires Good(s) && Writing(s, nm, seen, t, rest + [x]) && PendingAt(s, t, x) && x.0 < |t.buf|
    requires g == Value(s.heap, s.kind, x.1) && g.Big? && g !in t.m
    ensures Writing(s, nm, seen, Put(WithBig(s, t, g), x.0, g), rest)
  {
    var t1 := WithBig(s, t, g);
    var t2 := Put(t1, x.0, g);
    BigStep(s, nm, t, g);
    PutStep(s, nm, t1, x.0, g);
    ExtendedTwice(t, t1, t2);
    WritingStep(s, nm, seen, t, t2, rest, x, []);
    assert rest + [] == rest;
  }

  /** When nothing waits, all is written. */
  lemma {:induction false} AllWritten(s: Source, nm: Naming, seen: set<Cell>, t: Form)
    requires Good(s) && Writing(s, nm, seen, t, [])
    ensures Serial(s, nm, t)
  {
    forall q | q in t.slots ensures SlotDone(t, q) { assert !Waiting([], q); }
  }

  // ----- only what is reached is written -----

  lemma {:induction false} LeanPut(s: Source, t: Form, q: nat, a: Cell)
    requires Good(s) && Lean(s, t) && q < |t.buf|
    ensures Lean(s, Put(t, q, a))
  {
  }

  lemma {:induction false} LeanStr(s: Source, t: Form, g: Cell)
    requires Good(s) && Lean(s, t) && IsTerm(s.kind, g) && g.Str? && PartOf(s, g)
    ensures Lean(s, WithStr(s, t, g))
  {
    var t' := WithStr(s, t, g);
    forall q | q in t'.slots ensures PartOf(s, t'.slots[q]) {
      if q in ArgSlots(s, g, |t.buf|) { KidPart(s, g, q - |t.buf| - 1); }
    }
  }

  lemma {:induction false} LeanBig(s: Source, t: Form, g: Cell)
    requires Good(s) && Lean(s, t) && g.Big? && PartOf(s, g)
    ensures Lean(s, WithBig(s, t, g))
  {
  }

  lemma {:induction false} LeanTop(s: Source, t: Form, x: (nat, Cell))
    requires Good(s) && Lean(s, t) && PendingAt(s, t, x)
    ensures PartOf(s, Value(s.heap, s.kind, x.1))
  {
  }

  /** Before the root is written. */
  lemma {:induction false} LeanRoot(s: Source, nm: Naming, t: Form)
    requires Good(s) && HeaderOk(s, nm, t.es) && EntriesWanted(s, t.es)
    requires t.m == HeaderIndex(t.es) && t.slots == map[BodyAt(t.es) := s.root]
    ensures Lean(s, t)
  {
    RootPart(s);
    forall c | c in t.m && !c.Con? ensures PartOf(s, c) {
      var i := HeaderIndexOnly(t.es, c);
      assert EntryOk(s, nm, t.es[i]) && Wanted(s, t.es[i].key);
      var a :| PartOf(s, a) && AsksFor(s.heap, a, c);
    }
  }

  /** The form with nothing but the header and the root. */
  lemma {:induction false} RootForm(s: Source, nm: Naming, seen: set<Cell>, es: seq<Entry>, t: Cell)
    returns (form: Form)
    requires Good(s) && Plain(s) && IsTerm(s.kind, t) && s.root == Value(s.heap, s.kind, t)
    requires HeaderOk(s, nm, es) && Prepared(s, nm, HeaderIndex(es), seen) && EntriesWanted(s, es)
    ensures form.buf == HeaderWords(es) + [PAMER] + [t] && form.m == HeaderIndex(es)
    ensures Writing(s, nm, seen, form, [(BodyAt(es), t)]) && Lean(s, form)
  {
    form := Form(HeaderWords(es) + [PAMER, t], es, HeaderIndex(es), map[BodyAt(es) := s.root], [], {});
    BodyStarts(s, nm, seen, form, t);
    LeanRoot(s, nm, form);
  }

  lemma {:induction false} RootPart(s: Source)
    requires Good(s)
    ensures PartOf(s, s.root)
  {
    forall r: set<Cell> | Spanning(s, r) ensures s.root in r { }
  }

  /** What waits for the header is reached. */
  ghost predicate TempParts(s: Source, temp: seq<Cell>)
    requires Good(s)
  {
    forall j: nat :: j < |temp| ==> IsTerm(s.kind, temp[j]) && PartOf(s, Value(s.heap, s.kind, temp[j]))
  }

  lemma {:induction false} TempTurned(s: Source, rest: seq<Cell>, c: Cell)
    requires Good(s) && TempParts(s, rest) && IsTerm(s.kind, c) && PartOf(s, c)
    ensures TempParts(s, rest + Turned(Kids(s, c)))
  {
    var temp := rest + Turned(Kids(s, c));
    forall j: nat | j < |temp| ensures IsTerm(s.kind, temp[j]) && PartOf(s, Value(s.heap, s.kind, temp[j])) {
      if j >= |rest| {
        var k := |Kids(s, c)| - 1 - (j - |rest|);
        assert temp[j] == Kids(s, c)[k];
        ValueAgain(s, Kids(s, c)[k]);
        KidPart(s, c, k);
      } else {
        assert temp[j] == rest[j];
      }
    }
  }

  lemma {:induction false} TempPopped(s: Source, rest: seq<Cell>, x: Cell)
    requires Good(s) && TempParts(s, rest + [x])
    ensures TempParts(s, rest) && IsTerm(s.kind, x) && PartOf(s, Value(s.heap, s.kind, x))
  {
    assert (rest + [x])[|rest|] == x;
    forall j: nat | j < |rest| ensures IsTerm(s.kind, rest[j]) && PartOf(s, Value(s.heap, s.kind, rest[j])) {
      assert (rest + [x])[j] == rest[j];
    }
  }

  lemma {:induction false} EntriesMore(s: Source, es: seq<Entry>, e: Entry, a: Cell)
    requires Good(s) && EntriesWanted(s, es) && PartOf(s, a) && AsksFor(s.heap, a, e.key)
    ensures EntriesWanted(s, es + [e])
  {
    assert Wanted(s, e.key);
  }

  /** Structures not written yet. */
  ghost function Unwritten(s: Source, m: map<Cell, nat>): set<nat> {
    set i: nat | i < |s.kind| && s.kind[i] == FunctorKind && Str(i) !in m :: i
  }

  lemma {:induction false} OneMoreWritten(s: Source, m: map<Cell, nat>, g: Cell, p: nat)
    requires g.Str? && IsTerm(s.kind, g) && g !in m
    ensures |Unwritten(s, m[g := p])| < |Unwritten(s, m)|
  {
    assert Unwritten(s, m) == Unwritten(s, m[g := p]) + {g.index};
    assert g.index !in Unwritten(s, m[g := p]);
  }

  // ----- writing the header -----

  ghost predicate InTemp(s: Source, temp: seq<Cell>, a: Cell)
    requires Good(s)
  {
    exists j: nat :: j < |temp| && IsTerm(s.kind, temp[j]) && Value(s.heap, s.kind, temp[j]) == a
  }

  ghost predicate TempOk(s: Source, nm: Naming, x: Cell) {
    IsTerm(s.kind, x) && (x.Con? ==> Named(nm, x.functor))
  }

  ghost predicate Coming(s: Source, nm: Naming, hi: map<Cell, nat>, seen: set<Cell>, temp: seq<Cell>, a: Cell)
    requires Good(s)
  {
    Handled(s, nm, hi, seen, a) || InTemp(s, temp, a)
  }

  ghost predicate KidsComing(s: Source, nm: Naming, hi: map<Cell, nat>, seen: set<Cell>, temp: seq<Cell>, c: Cell)
    requires Good(s)
  {
    c.Str? ==>
      && IsTerm(s.kind, c) && Known(hi, s.heap[c.index])
      && forall k: nat :: k < |Kids(s, c)| ==> Coming(s, nm, hi, seen, temp, Kids(s, c)[k])
  }

  /** Everything that needs a name has been handled or is still to come. */
  ghost predicate Preparing(s: Source, nm: Naming, es: seq<Entry>, seen: set<Cell>, temp: seq<Cell>)
    requires Good(s)
  {
    && HeaderOk(s, nm, es) && (forall j: nat :: j < |temp| ==> TempOk(s, nm, temp[j]))
    && Coming(s, nm, HeaderIndex(es), seen, temp, s.root)
    && forall c :: c in seen ==> KidsComing(s, nm, HeaderIndex(es), seen, temp, c)
  }

  lemma {:induction false} HandledMore(s: Source, nm: Naming, hi: map<Cell, nat>, hi': map<Cell, nat>, seen: set<Cell>,
                                       seen': set<Cell>, a: Cell)
    requires Handled(s, nm, hi, seen, a) && IndexGrows(hi, hi') && seen <= seen'
    ensures Handled(s, nm, hi', seen', a)
  {
  }

  lemma {:induction false} ComingMore(s: Source, nm: Naming, hi: map<Cell, nat>, hi': map<Cell, nat>, seen: set<Cell>,
                                      seen': set<Cell>, rest: seq<Cell>, x: Cell, more: seq<Cell>, a: Cell)
    requires Good(s) && Coming(s, nm, hi, seen, rest + [x], a) && IndexGrows(hi, hi') && seen <= seen'
    requires IsTerm(s.kind, x) && Handled(s, nm, hi', seen', Value(s.heap, s.kind, x))
    ensures Coming(s, nm, hi', seen', rest + more, a)
  {
    if Handled(s, nm, hi, seen, a) {
      HandledMore(s, nm, hi, hi', seen, seen', a);
    } else {
      var j: nat :| j < |rest + [x]| && IsTerm(s.kind, (rest + [x])[j]) && Value(s.heap, s.kind, (rest + [x])[j]) == a;
      if j < |rest| { assert (rest + more)[j] == rest[j]; }
    }
  }

  /** `x` has been handled, and what it leads to is to come. */
  lemma {:induction false} PreparingStep(s: Source, nm: Naming, es: seq<Entry>, es': seq<Entry>, seen: set<Cell>,
                                         seen': set<Cell>, rest: seq<Cell>, x: Cell, more: seq<Cell>)
    requires Good(s) && Preparing(s, nm, es, seen, rest + [x]) && HeaderOk(s, nm, es')
    requires IndexGrows(HeaderIndex(es), HeaderIndex(es')) && seen <= seen' && IsTerm(s.kind, x)
    requires Handled(s, nm, HeaderIndex(es'), seen', Value(s.heap, s.kind, x))
    requires forall c :: c in seen' && c !in seen ==> KidsComing(s, nm, HeaderIndex(es'), seen', rest + more, c)
    requires forall j: nat :: j < |more| ==> TempOk(s, nm, more[j])
    ensures Preparing(s, nm, es', seen', rest + more)
  {
    var hi, hi' := HeaderIndex(es), HeaderIndex(es');
    forall j: nat | j < |rest + more| ensures TempOk(s, nm, (rest + more)[j]) {
      if j < |rest| { assert (rest + [x])[j] == rest[j]; }
    }
    ComingMore(s, nm, hi, hi', seen, seen', rest, x, more, s.root);
    forall c | c in seen' ensures KidsComing(s, nm, hi', seen', rest + more, c) {
      if c in seen && c.Str? {
        assert KidsComing(s, nm, hi, seen, rest + [x], c);
        forall k: nat | k < |Kids(s, c)| ensures Coming(s, nm, hi', seen', rest + more, Kids(s, c)[k]) {
          ComingMore(s, nm, hi, hi', seen, seen', rest, x, more, Kids(s, c)[k]);
        }
      }
    }
  }

  lemma {:induction false} TempTop(s: Source, nm: Naming, es: seq<Entry>, seen: set<Cell>, rest: seq<Cell>, x: Cell)
    requires Good(s) && Preparing(s, nm, es, seen, rest + [x])
    ensures TempOk(s, nm, x)
  {
    assert (rest + [x])[|rest|] == x;
  }

  lemma {:induction false} AllPrepared(s: Source, nm: Naming, es: seq<Entry>, seen: set<Cell>)
    requires Good(s) && Preparing(s, nm, es, seen, [])
    ensures Prepared(s, nm, HeaderIndex(es), seen)
  {
    forall c | c in seen ensures LookedAt(s, nm, HeaderIndex(es), seen, c) {
      assert KidsComing(s, nm, HeaderIndex(es), seen, [], c);
    }
  }

  /** One more entry. */
  lemma {:induction false} AddEntry(s: Source, nm: Naming, es: seq<Entry>, e: Entry)
    requires HeaderOk(s, nm, es) && EntryOk(s, nm, e) && e.key !in HeaderIndex(es)
    ensures HeaderOk(s, nm, es + [e])
    ensures HeaderWords(es + [e]) == HeaderWords(es) + EntryWords(e, |HeaderWords(es)|)
    ensures HeaderIndex(es + [e]) == HeaderIndex(es)[e.key := |HeaderWords(es)|]
  {
    var es', n := es + [e], |es|;
    assert es'[..n] == es && es'[n] == e;
    forall i: nat, j: nat | i < j < |es'| ensures es'[i].key != es'[j].key {
      if j == n { HeaderIndexAt(es, i); }
    }
  }

  /** The structures not looked at yet. */
  ghost function Unseen(s: Source, seen: set<Cell>): set<nat> {
    set i: nat | i < |s.kind| && s.kind[i] == FunctorKind && Str(i) !in seen :: i
  }

  lemma {:induction false} OneMoreSeen(s: Source, seen: set<Cell>, a: Cell)
    ensures a.Str? && IsTerm(s.kind, a) && a !in seen ==> |Unseen(s, seen + {a})| < |Unseen(s, seen)|
    ensures !a.Str? ==> Unseen(s, seen + {a}) == Unseen(s, seen)
  {
    if a.Str? && IsTerm(s.kind, a) && a !in seen {
      assert Unseen(s, seen) == Unseen(s, seen + {a}) + {a.index};
      assert a.index !in Unseen(s, seen + {a});
    }
  }

  /** The arguments pushed for the header, the first on top. */
  ghost function Turned(a: seq<Cell>): (r: seq<Cell>)
    ensures |r| == |a|
  {
    seq(|a|, j requires 0 <= j < |a| => a[|a| - 1 - j])
  }

  lemma {:induction false} TurnedHas(s: Source, rest: seq<Cell>, c: Cell, k: nat)
    requires Good(s) && IsTerm(s.kind, c) && k < |Kids(s, c)|
    ensures InTemp(s, rest + Turned(Kids(s, c)), Kids(s, c)[k])
  {
    var n, temp := |Kids(s, c)|, rest + Turned(Kids(s, c));
    ValueAgain(s, Kids(s, c)[k]);
    assert temp[|rest| + (n - 1 - k)] == Kids(s, c)[k];
  }

  lemma {:induction false} KidsAreComing(s: Source, nm: Naming, hi: map<Cell, nat>, seen: set<Cell>, rest: seq<Cell>,
                                         c: Cell)
    requires Good(s) && AllNamed(s, nm) && IsTerm(s.kind, c) && c.Str? && Known(hi, s.heap[c.index])
    ensures KidsComing(s, nm, hi, seen, rest + Turned(Kids(s, c)), c)
    ensures forall j: nat :: j < |Turned(Kids(s, c))| ==> TempOk(s, nm, Turned(Kids(s, c))[j])
  {
    forall j: nat | j < |Turned(Kids(s, c))| ensures TempOk(s, nm, Turned(Kids(s, c))[j]) {
      var k: nat := |Kids(s, c)| - 1 - j;
      ArgIsTerm(s.heap, s.kind, c.index, k);
      FunctorNamed(s, nm, Arg(s.heap, c.index, k));
      assert Kids(s, c)[k] == Value(s.heap, s.kind, Arg(s.heap, c.index, k));
    }
    forall k: nat | k < |Kids(s, c)| ensures Coming(s, nm, hi, seen, rest + Turned(Kids(s, c)), Kids(s, c)[k]) {
      TurnedHas(s, rest, c, k);
    }
  }

  // ----- one more term -----

  /** The form when the term `a` has been written into place `q`. */
  ghost function After(s: Source, t: Form, q: nat, a: Cell): Form
    requires Good(s) && q < |t.buf| && IsTerm(s.kind, a)
  {
    if a in t.m || a.Con? || a.Int? then Put(t, q, a) else
    match a
    case Str(_) => PutStr(s, t, q, a)
    case Big(_) => Put(WithBig(s, t, a), q, a)
    case _ => t.(m := t.m[a := q], buf := t.buf[q := Ref(q)])
  }

  /** The places that wait when `a` has been written: the arguments of a structure met first. */
  ghost function Waits(s: Source, t: Form, a: Cell): Places
    requires Good(s) && IsTerm(s.kind, a)
  {
    if a.Str? && a !in t.m then PushedArgs(s, a, |t.buf|) else []
  }

  /** A term that can be written into a place that waits for it. */
  ghost predicate Turn(s: Source, nm: Naming, seen: set<Cell>, t: Form, rest: Places, x: (nat, Cell), a: Cell)
    requires Good(s)
  {
    && Writing(s, nm, seen, t, rest + [x]) && PendingAt(s, t, x) && x.0 < |t.buf|
    && IsTerm(s.kind, a) && a == Value(s.heap, s.kind, x.1) && !a.Dat? && !a.Fwd?
    && Handled(s, nm, HeaderIndex(t.es), seen, a)
  }

  lemma {:induction false} AfterKnown(s: Source, nm: Naming, seen: set<Cell>, t: Form, rest: Places, x: (nat, Cell),
                                      a: Cell)
    requires Good(s) && Turn(s, nm, seen, t, rest, x, a) && (a in t.m || a.Con? || a.Int?)
    ensures Known(t.m, a) && Writing(s, nm, seen, Put(t, x.0, a), rest)
  {
    if a.Con? { HeaderKnown(s, nm, t, a); }
    StepPut(s, nm, seen, t, rest, x, a);
  }

  lemma {:induction false} AfterStr(s: Source, nm: Naming, seen: set<Cell>, t: Form, rest: Places, x: (nat, Cell),
                                    a: Cell)
    requires Good(s) && Plain(s) && Turn(s, nm, seen, t, rest, x, a) && a.Str? && a !in t.m
    ensures Writing(s, nm, seen, PutStr(s, t, x.0, a), rest + PushedArgs(s, a, |t.buf|))
    ensures s.heap[a.index].Con? && Known(t.m, s.heap[a.index])
  {
    StepStr(s, nm, seen, t, rest, x, a);
    FunctorIndexed(s, nm, seen, t, a);
  }

  lemma {:induction false} AfterWriting(s: Source, nm: Naming, seen: set<Cell>, t: Form, rest: Places, x: (nat, Cell),
                                        a: Cell)
    requires Good(s) && Plain(s) && Turn(s, nm, seen, t, rest, x, a)
    ensures Writing(s, nm, seen, After(s, t, x.0, a), rest + Waits(s, t, a))
  {
    assert rest + [] == rest;
    if a in t.m || a.Con? || a.Int? {
      AfterKnown(s, nm, seen, t, rest, x, a);
      assert After(s, t, x.0, a) == Put(t, x.0, a) && Waits(s, t, a) == [];
    } else if a.Str? {
      AfterStr(s, nm, seen, t, rest, x, a);
    } else if a.Big? {
      StepBig(s, nm, seen, t, rest, x, a);
    } else {
      StepVariable(s, nm, seen, t, rest, x, a, After(s, t, x.0, a));
    }
  }

  lemma {:induction false} AfterLean(s: Source, t: Form, q: nat, a: Cell)
    requires Good(s) && Lean(s, t) && q < |t.buf| && IsTerm(s.kind, a) && PartOf(s, a)
    ensures Lean(s, After(s, t, q, a))
  {
    if a in t.m || a.Con? || a.Int? {
      LeanPut(s, t, q, a);
    } else if a.Str? {
      LeanStr(s, t, a);
      LeanPut(s, WithStr(s, t, a), q, a);
    } else if a.Big? {
      LeanBig(s, t, a);
      LeanPut(s, WithBig(s, t, a), q, a);
    }
  }

  /** There is a structure less to write, or as many and a place less waiting. */
  lemma {:induction false} AfterLess(s: Source, t: Form, q: nat, a: Cell)
    requires Good(s) && q < |t.buf| && IsTerm(s.kind, a)
    ensures |Unwritten(s, After(s, t, q, a).m)| < |Unwritten(s, t.m)|
         || (Unwritten(s, After(s, t, q, a).m) == Unwritten(s, t.m) && Waits(s, t, a) == [])
  {
    if a.Str? && a !in t.m { OneMoreWritten(s, t.m, a, |t.buf|); }
  }

  /** What is needed of a term to write it. */
  ghost predicate Writable(s: Source, t: Form, a: Cell)
    requires Good(s)
  {
    && IsTerm(s.kind, a) && !a.Dat? && !a.Fwd? && (a.Con? || a.Int? ==> Known(t.m, a))
    && (a.Str? ==> s.heap[a.index].Con? && Known(t.m, s.heap[a.index]))
  }

  /** What the next round does. */
  lemma {:induction false} NextTurn(s: Source, nm: Naming, seen: set<Cell>, t: Form, rest: Places, x: (nat, Cell))
    returns (a: Cell)
    requires Good(s) && Plain(s) && Writing(s, nm, seen, t, rest + [x]) && Lean(s, t)
    ensures IsTerm(s.kind, x.1) && x.0 < |t.buf| && a == Value(s.heap, s.kind, x.1) && Writable(s, t, a)
    ensures Writing(s, nm, seen, After(s, t, x.0, a), rest + Waits(s, t, a)) && Lean(s, After(s, t, x.0, a))
    ensures |Unwritten(s, After(s, t, x.0, a).m)| < |Unwritten(s, t.m)|
         || (Unwritten(s, After(s, t, x.0, a).m) == Unwritten(s, t.m) && rest + Waits(s, t, a) == rest)
  {
    TopPending(s, nm, seen, t, rest, x);
    a := Value(s.heap, s.kind, x.1);
    AfterWriting(s, nm, seen, t, rest, x, a);
    LeanTop(s, t, x);
    AfterLean(s, t, x.0, a);
    AfterLess(s, t, x.0, a);
    if a.Con? { HeaderKnown(s, nm, t, a); }
    if a.Str? { FunctorIndexed(s, nm, seen, t, a); }
  }

  // ----- the writer -----

  class Writer {
    const env: TermEnv
    const atoms: seq<Text>
    const vars: map<Cell, Text>
    var bytes: seq<Cell>
    var index: map<Cell, nat>
    var stack: Places
    var tempStack: seq<Cell>
    var tempSet: set<Cell>

    constructor (env: TermEnv, atoms: seq<Text>, vars: map<Cell, Text>)
      ensures this.env == env && this.atoms == atoms && this.vars == vars && fresh(this)
    {
      this.env, this.atoms, this.vars := env, atoms, vars;
      bytes, index, stack, tempStack, tempSet := [], map[], [], [], {};
    }

    ghost predicate Reads(s: Source)
      reads env
    {
      env.Valid() && Good(s) && Plain(s) && AllNamed(s, Names()) && s.heap == env.heap && s.kind == env.kind
    }

    ghost function Names(): Naming {
      Naming(atoms, vars)
    }

    method WriteCell(offset: nat, c: Cell)
      requires offset <= |bytes|
      modifies `bytes
      ensures bytes == if offset == |old(bytes)| then old(bytes) + [c] else old(bytes)[offset := c]
    {
      bytes := if offset == |bytes| then bytes + [c] else bytes[offset := c];
    }

    /** The place a term stands at in the index, `cellIndex` if it is new there. */
    method IndexTerm(c: Cell, cellIndex: nat) returns (i: nat)
      modifies `index
      ensures index == if c in old(index) then old(index) else old(index)[c := cellIndex]
      ensures c in index && i == index[c]
    {
      if c !in index {
        index := index[c := cellIndex];
      }
      i := index[c];
    }

    method WriteConCell(offset: nat, f: Functor)
      requires offset <= |bytes|
      modifies `bytes, `index
      ensures index == if IsDirect(f) || ToAtom(f) in old(index) then old(index) else old(index)[ToAtom(f) := offset]
      ensures bytes ==
              if offset == |old(bytes)| then old(bytes) + [Word(index, Con(f))]
                else old(bytes)[offset := Word(index, Con(f))]
    {
      if IsDirect(f) {
        WriteCell(offset, Con(f));
      } else {
        var i := IndexTerm(ToAtom(f), offset);
        WriteCell(offset, Con(Functor(i, f.arity)));
      }
    }

    method WriteEncodedString(str: Text)
      modifies `bytes
      ensures bytes == old(bytes) + TextWords(str)
    {
      var n := |str|;
      var i := 0;
      assert str[0..] == str;
      while i < n
        invariant i <= n + CHUNK && bytes + TextWords(if i < n then str[i..] else []) == old(bytes) + TextWords(str)
      {
        var v := EncodeStr(str, i, i + CHUNK, i + CHUNK < n);
        TextWordsStep(str[i..]);
        ghost var before := bytes;
        bytes := bytes + [Int(v)];
        if i + CHUNK < n {
          assert str[i..][..CHUNK] == str[i..i + CHUNK] && str[i..][CHUNK..] == str[i + CHUNK..];
        } else {
          assert str[i..n] == str[i..];
        }
        i := i + CHUNK;
      }
    }

    /** The entry of an atom or a variable. */
    method WriteName(ghost s: Source, ghost es: seq<Entry>, e: Entry) returns (ghost es': seq<Entry>)
      requires HeaderOk(s, Names(), es) && EntryOk(s, Names(), e) && e.key !in HeaderIndex(es)
      requires index == HeaderIndex(es)[e.key := |HeaderWords(es)|]
      requires bytes == HeaderWords(es) + [HeadWord(e, |HeaderWords(es)|)]
      modifies `bytes
      ensures es' == es + [e] && HeaderOk(s, Names(), es') && bytes == HeaderWords(es') && index == HeaderIndex(es')
      ensures IndexGrows(HeaderIndex(es), HeaderIndex(es'))
    {
      WriteEncodedString(e.name);
      es' := es + [e];
      AddEntry(s, Names(), es, e);
    }

    /** A variable met while the header is written. */
    method NameVariable(ghost s: Source, v: Cell, ghost es: seq<Entry>) returns (ghost es': seq<Entry>)
      requires v.Ref? && IsTerm(s.kind, v) && v.index < |s.heap| && s.heap[v.index] == v && HeaderOk(s, Names(), es) &&
               bytes == HeaderWords(es) && index == HeaderIndex(es)
      requires Good(s) && EntriesWanted(s, es) && PartOf(s, v)
      modifies `bytes, `index
      ensures HeaderOk(s, Names(), es') && bytes == HeaderWords(es') && index == HeaderIndex(es')
      ensures EntriesWanted(s, es')
      ensures IndexGrows(HeaderIndex(es), HeaderIndex(es')) && (v in vars ==> v in HeaderIndex(es'))
    {
      es' := es;
      if v !in index && v in vars {
        var i := IndexTerm(v, |bytes|);
        WriteCell(|bytes|, Ref(i));
        es' := WriteName(s, es, Entry(v, 0, vars[v]));
        EntriesMore(s, es, Entry(v, 0, vars[v]), v);
      }
    }

    method NameAtom(ghost s: Source, f: Functor, ghost a: Cell, ghost es: seq<Entry>) returns (ghost es': seq<Entry>)
      requires Named(Names(), f) && HeaderOk(s, Names(), es) && bytes == HeaderWords(es) && index == HeaderIndex(es)
      requires Good(s) && EntriesWanted(s, es) && PartOf(s, a) && AsksFor(s.heap, a, ToAtom(f))
      modifies `bytes, `index
      ensures HeaderOk(s, Names(), es') && bytes == HeaderWords(es') && index == HeaderIndex(es')
      ensures EntriesWanted(s, es')
      ensures IndexGrows(HeaderIndex(es), HeaderIndex(es')) && Known(HeaderIndex(es'), Con(f))
    {
      es' := es;
      if !IsDirect(f) && ToAtom(f) !in index {
        WriteConCell(|bytes|, f);
        es' := WriteName(s, es, Entry(ToAtom(f), f.arity, atoms[f.atom]));
        EntriesMore(s, es, Entry(ToAtom(f), f.arity, atoms[f.atom]), a);
      }
    }

    /** The functor of a constant or a structure, and all but the header work for its arguments. */
    method PushHeaderArgs(ghost s: Source, c: Cell)
      requires Reads(s) && c.Str? && IsTerm(s.kind, c)
      modifies `tempStack
      ensures tempStack == old(tempStack) + Turned(Kids(s, c))
    {
      assert CellOk(s.heap, s.kind, c.index);
      var numArgs := env.heap[c.index].functor.arity;
      ghost var kids := Kids(s, c);
      for i := 0 to numArgs
        invariant |kids| == numArgs && tempStack == old(tempStack) + Turned(kids)[..i]
      {
        var a := env.GetArg(c, numArgs - i - 1, env.heap);
        assert a == kids[numArgs - i - 1];
        tempStack := tempStack + [a];
      }
    }

    /** One round of writing the header. */
    method HeaderNext(ghost s: Source, ghost es: seq<Entry>) returns (ghost es': seq<Entry>)
      requires Reads(s) && tempStack != [] && Preparing(s, Names(), es, tempSet, tempStack)
      requires bytes == HeaderWords(es) && index == HeaderIndex(es)
      requires EntriesWanted(s, es) && TempParts(s, tempStack)
      modifies `bytes, `index, `tempStack, `tempSet
      ensures EntriesWanted(s, es') && TempParts(s, tempStack)
      ensures Preparing(s, Names(), es', tempSet, tempStack) && bytes == HeaderWords(es') && index == HeaderIndex(es')
      ensures |Unseen(s, tempSet)| < |Unseen(s, old(tempSet))|
           || (Unseen(s, tempSet) == Unseen(s, old(tempSet)) && |tempStack| < |old(tempStack)|)
    {
      var n := |tempStack| - 1;
      var x := tempStack[n];
      ghost var rest, seen := tempStack[..n], tempSet;
      assert tempStack == rest + [x];
      TempTop(s, Names(), es, tempSet, rest, x);
      TempPopped(s, rest, x);
      var a := env.Deref(x, env.heap);
      tempStack := tempStack[..n];
      if a.Ref? {
        es' := NameVariable(s, a, es);
      } else if a.Con? {
        FunctorNamed(s, Names(), x);
        es' := NameAtom(s, a.functor, a, es);
        OneMoreSeen(s, tempSet, a);
        tempSet := tempSet + {a};
      } else if a.Str? {
        FunctorNamed(s, Names(), x);
        es' := NameAtom(s, env.heap[a.index].functor, a, es);
        if a !in tempSet {
          OneMoreSeen(s, tempSet, a);
          tempSet := tempSet + {a};
          PushHeaderArgs(s, a);
          TempTurned(s, rest, a);
          KidsAreComing(s, Names(), index, tempSet, rest, a);
          PreparingStep(s, Names(), es, es', seen, tempSet, rest, x, Turned(Kids(s, a)));
          return;
        }
      } else {
        es' := es;
      }
      PreparingStep(s, Names(), es, es', seen, tempSet, rest, x, []);
      assert rest + [] == rest;
    }

    method WriteAllHeader(ghost s: Source, t: Cell) returns (ghost es: seq<Entry>)
      requires Reads(s) && IsTerm(s.kind, t) && s.root == Value(s.heap, s.kind, t) && bytes == [] && index == map[]
      modifies `bytes, `index, `tempStack, `tempSet
      ensures HeaderOk(s, Names(), es) && Prepared(s, Names(), HeaderIndex(es), tempSet) && EntriesWanted(s, es)
      ensures bytes == HeaderWords(es) + [PAMER] && index == HeaderIndex(es)
    {
      WriteCell(|bytes|, VERSION);
      WriteCell(|bytes|, REMAP);
      tempSet := {};
      tempStack := [t];
      es := [];
      assert InTemp(s, tempStack, s.root) by { assert tempStack[0] == t; }
      RootPart(s);
      while |tempStack| > 0
        invariant Preparing(s, Names(), es, tempSet, tempStack) && bytes == HeaderWords(es) && index == HeaderIndex(es)
        invariant EntriesWanted(s, es) && TempParts(s, tempStack)
        decreases |Unseen(s, tempSet)|, |tempStack|
      {
        es := HeaderNext(s, es);
      }
      AllPrepared(s, Names(), es, tempSet);
      WriteCell(|bytes|, PAMER);
    }

    // ----- the body -----

    ghost predicate At(t: Form)
      reads this
    {
      t.buf == bytes && t.m == index
    }

    /** Puts the arguments of a structure on the stack, with their places. */
    method PushPlaces(ghost s: Source, c: Cell, newOffset: nat)
      requires Reads(s) && c.Str? && IsTerm(s.kind, c) && newOffset > 0
      modifies `stack
      ensures stack == old(stack) + PushedArgs(s, c, newOffset - 1)
    {
      assert CellOk(s.heap, s.kind, c.index);
      var arity := env.heap[c.index].functor.arity;
      ghost var kids := Kids(s, c);
      for i := 0 to arity
        invariant |kids| == arity && stack == old(stack) + PushedArgs(s, c, newOffset - 1)[..i]
      {
        var a := env.GetArg(c, arity - i - 1, env.heap);
        assert a == kids[arity - i - 1];
        stack := stack + [(newOffset + arity - i - 1, a)];
      }
    }

    /** A functor behind what is there, its atom known. */
    method WriteFunctor(f: Functor)
      requires Known(index, Con(f))
      modifies `bytes, `index
      ensures index == old(index) && bytes == old(bytes) + [Word(index, Con(f))]
    {
      WriteConCell(|bytes|, f);
    }

    /** A structure met for the first time: its pointer, its functor and room for its arguments. */
    method WriteNewStr(offset: nat, c: Cell, ghost s: Source, ghost t: Form)
      requires Reads(s) && At(t) && offset < |t.buf| && c.Str? && IsTerm(s.kind, c) && c !in index
      requires s.heap[c.index].Con? && Known(t.m, s.heap[c.index])
      modifies `bytes, `index, `stack
      ensures At(PutStr(s, t, offset, c)) && stack == old(stack) + PushedArgs(s, c, |t.buf|)
    {
      StrRoom(s, t, offset, c);
      var f := env.heap[c.index].functor;
      var i := IndexTerm(c, |bytes|);
      WriteCell(offset, Str(i));
      WriteFunctor(f);
      var newOffset := |bytes|;
      bytes := bytes + seq(f.arity, _ => Ref(0));
      PushPlaces(s, c, newOffset);
    }

    /** A structure: if it was met before, a pointer to where it is. */
    method WriteStrCell(offset: nat, c: Cell, ghost s: Source, ghost t: Form)
      requires Reads(s) && At(t) && offset < |t.buf| && c.Str? && IsTerm(s.kind, c)
      requires s.heap[c.index].Con? && Known(t.m, s.heap[c.index])
      modifies `bytes, `index, `stack
      ensures At(After(s, t, offset, c)) && stack == old(stack) + Waits(s, t, c)
    {
      if c in index {
        WriteCell(offset, Str(index[c]));
      } else {
        WriteNewStr(offset, c, s, t);
      }
    }

    /** Header and payload of a bignum, behind what is there. */
    method WriteData(c: Cell, ghost s: Source)
      requires Reads(s) && c.Big? && IsTerm(s.kind, c)
      modifies `bytes
      ensures bytes == old(bytes) + BigData(s.heap, c.index)
    {
      assert CellOk(s.heap, s.kind, c.index);
      var n := NumCells(env.heap[c.index].bits);
      ghost var before := bytes;
      for k := 0 to n
        invariant bytes == before + s.heap[c.index..c.index + k]
      {
        WriteCell(|bytes|, env.heap[c.index + k]);
      }
    }

    /** A bignum met for the first time: its pointer, and header and payload. */
    method WriteNewBig(offset: nat, c: Cell, ghost s: Source, ghost t: Form)
      requires Reads(s) && At(t) && offset < |t.buf| && c.Big? && IsTerm(s.kind, c) && c !in index
      modifies `bytes, `index
      ensures At(Put(WithBig(s, t, c), offset, c))
    {
      var i := IndexTerm(c, |bytes|);
      WriteCell(offset, Big(i));
      WriteData(c, s);
    }

    method WriteBigCell(offset: nat, c: Cell, ghost s: Source, ghost t: Form)
      requires Reads(s) && At(t) && offset < |t.buf| && c.Big? && IsTerm(s.kind, c)
      modifies `bytes, `index
      ensures At(After(s, t, offset, c))
      ensures c !in old(index) ==> SameNumber(s.heap, c.index, bytes, |old(bytes)|)
    {
      if c in index {
        WriteCell(offset, Big(index[c]));
      } else {
        NewNumber(s, t, offset, c);
        WriteNewBig(offset, c, s, t);
      }
    }

    /** A variable: if it was not met before, this is its place. */
    method WriteRefCell(offset: nat, c: Cell, ghost s: Source, ghost t: Form)
      requires Good(s) && At(t) && offset < |t.buf| && c.Ref? && IsTerm(s.kind, c)
      modifies `bytes, `index
      ensures At(After(s, t, offset, c))
    {
      var i := IndexTerm(c, offset);
      WriteCell(offset, Ref(i));
    }

    method WriteConstant(offset: nat, c: Cell, ghost s: Source, ghost t: Form)
      requires Good(s) && At(t) && offset < |t.buf| && (c.Con? || c.Int?) && IsTerm(s.kind, c) && Known(t.m, c)
      modifies `bytes, `index
      ensures At(After(s, t, offset, c))
    {
      if c.Con? {
        WriteConCell(offset, c.functor);
      } else {
        WriteCell(offset, c);
      }
    }

    /** One round of writing the body. */
    method WriteNext(ghost s: Source, ghost t: Form) returns (ghost t': Form)
      requires Reads(s) && At(t) && stack != [] && Writing(s, Names(), tempSet, t, stack) && Lean(s, t)
      modifies `bytes, `index, `stack
      ensures At(t') && Writing(s, Names(), tempSet, t', stack) && Lean(s, t')
      ensures |Unwritten(s, index)| < |Unwritten(s, old(index))|
           || (Unwritten(s, index) == Unwritten(s, old(index)) && |stack| < |old(stack)|)
    {
      var n := |stack| - 1;
      var x := stack[n];
      ghost var rest := stack[..n];
      assert stack == rest + [x];
      stack := stack[..n];
      t' := WriteTop(x, s, t, rest);
    }

    /** Writes what was on top of the stack. */
    method WriteTop(x: (nat, Cell), ghost s: Source, ghost t: Form, ghost rest: Places) returns (ghost t': Form)
      requires Reads(s) && At(t) && stack == rest && Writing(s, Names(), tempSet, t, rest + [x]) && Lean(s, t)
      modifies `bytes, `index, `stack
      ensures At(t') && Writing(s, Names(), tempSet, t', stack) && Lean(s, t')
      ensures |Unwritten(s, index)| < |Unwritten(s, old(index))|
           || (Unwritten(s, index) == Unwritten(s, old(index)) && stack == rest)
    {
      ghost var a := NextTurn(s, Names(), tempSet, t, rest, x);
      t' := After(s, t, x.0, a);
      var c := env.Deref(x.1, env.heap);
      WriteTerm(x.0, c, s, t);
    }

    /** Writes a term into its place. */
    method WriteTerm(offset: nat, a: Cell, ghost s: Source, ghost t: Form)
      requires Reads(s) && At(t) && offset < |t.buf| && Writable(s, t, a)
      modifies `bytes, `index, `stack
      ensures At(After(s, t, offset, a)) && stack == old(stack) + Waits(s, t, a)
    {
      if a.Str? {
        WriteStrCell(offset, a, s, t);
      } else if a.Big? {
        WriteBigCell(offset, a, s, t);
      } else if a.Ref? {
        WriteRefCell(offset, a, s, t);
      } else {
        WriteConstant(offset, a, s, t);
      }
    }

    method WriteBody(ghost s: Source, ghost t: Form) returns (ghost t': Form)
      requires Reads(s) && At(t) && Writing(s, Names(), tempSet, t, stack) && Lean(s, t)
      modifies `bytes, `index, `stack
      ensures At(t') && Serial(s, Names(), t') && Lean(s, t')
    {
      t' := t;
      while |stack| > 0
        invariant At(t') && Writing(s, Names(), tempSet, t', stack) && Lean(s, t')
        decreases |Unwritten(s, index)|, |stack|
      {
        t' := WriteNext(s, t');
      }
      AllWritten(s, Names(), tempSet, t');
    }

    /** The root, to begin with. */
    method WriteRoot(ghost s: Source, t: Cell, ghost es: seq<Entry>) returns (ghost form: Form)
      requires Reads(s) && IsTerm(s.kind, t) && s.root == Value(s.heap, s.kind, t) && stack == []
      requires HeaderOk(s, Names(), es) && Prepared(s, Names(), HeaderIndex(es), tempSet) && EntriesWanted(s, es)
      requires bytes == HeaderWords(es) + [PAMER] && index == HeaderIndex(es)
      modifies `bytes, `stack
      ensures At(form) && Writing(s, Names(), tempSet, form, stack) && Lean(s, form)
    {
      var offset := |bytes|;
      WriteCell(offset, t);
      stack := stack + [(offset, t)];
      assert stack == [(BodyAt(es), t)];
      form := RootForm(s, Names(), tempSet, es, t);
    }

    /** Writes a term, and nothing that is not part of it: see `Serial` and `Lean`. */
    method Write(ghost s: Source, t: Cell) returns (ghost form: Form)
      requires Reads(s) && IsTerm(s.kind, t) && s.root == Value(s.heap, s.kind, t)
      modifies this
      ensures Serial(s, Names(), form) && Lean(s, form) && form.buf == bytes
    {
      index, bytes, stack := map[], [], [];
      ghost var es := WriteAllHeader(s, t);
      form := WriteRoot(s, t, es);
      form := WriteBody(s, form);
    }
  }

  /** What a form looks like when a structure has been met first in place `q`. */
  lemma {:induction false} StrRoom(s: Source, t: Form, q: nat, g: Cell)
    requires Good(s) && IsTerm(s.kind, g) && g.Str? && q < |t.buf| && g !in t.m
    requires s.heap[g.index].Con? && Known(t.m, s.heap[g.index])
    ensures var w, n := Word(t.m[g := |t.buf|], s.heap[g.index]), s.heap[g.index].functor.arity;
            && PutStr(s, t, q, g).buf == t.buf[q := Str(|t.buf|)] + [w] + seq(n, _ => Ref(0))
            && Known(t.m[g := |t.buf|], s.heap[g.index])
    ensures PutStr(s, t, q, g).m == t.m[g := |t.buf|]
  {
    WordStays(t.m, t.m[g := |t.buf|], s.heap[g.index]);
    var u := t.buf + [Word(t.m, s.heap[g.index])] + seq(|Kids(s, g)|, _ => Ref(0));
    assert u[q := Str(|t.buf|)] ==
           t.buf[q := Str(|t.buf|)] + [Word(t.m, s.heap[g.index])] + seq(s.heap[g.index].functor.arity, _ => Ref(0));
  }

  /** Before the root is written. */
  lemma {:induction false} BodyStarts(s: Source, nm: Naming, seen: set<Cell>, t: Form, root: Cell)
    requires Good(s) && Plain(s) && HeaderOk(s, nm, t.es) && Prepared(s, nm, HeaderIndex(t.es), seen)
    requires IsTerm(s.kind, root) && s.root == Value(s.heap, s.kind, root)
    requires t == Form(HeaderWords(t.es) + [PAMER, root], t.es, HeaderIndex(t.es), map[BodyAt(t.es) := s.root], [], {})
    ensures Writing(s, nm, seen, t, [(BodyAt(t.es), root)])
  {
    var stack: Places := [(BodyAt(t.es), root)];
    forall c | c in t.m ensures Indexed(s, nm, t, c) {
      var i := HeaderIndexOnly(t.es, c);
      assert EntryOk(s, nm, t.es[i]);
    }
    assert t.buf == HeaderWords(t.es) + [PAMER] + [root];
    assert stack[0].0 == BodyAt(t.es);
    assert Waiting(stack, BodyAt(t.es));
  }

  lemma {:induction false} TextWordsStep(s: Text)
    requires s != []
    ensures TextWords(s) == if |s| <= CHUNK then [Int(Chunk(s, false))]
                            else [Int(Chunk(s[..CHUNK], true))] + TextWords(s[CHUNK..])
  {
  }

  lemma {:induction false} FunctorNamed(s: Source, nm: Naming, x: Cell)
    requires Good(s) && AllNamed(s, nm) && TempOk(s, nm, x)
    ensures TempOk(s, nm, Value(s.heap, s.kind, x))
    ensures var a := Value(s.heap, s.kind, x); a.Str? ==> s.heap[a.index].Con? && Named(nm, s.heap[a.index].functor)
  {
    TermEnds(s.heap, s.kind, x);
    var n: nat :| Ends(s.heap, x, n);
    ChainNamed(s, nm, x, n);
    var a := Value(s.heap, s.kind, x);
    if a.Str? { assert CellOk(s.heap, s.kind, a.index); }
  }

  lemma {:induction false} ChainNamed(s: Source, nm: Naming, x: Cell, n: nat)
    requires Good(s) && AllNamed(s, nm) && TempOk(s, nm, x) && Ends(s.heap, x, n)
    ensures TempOk(s, nm, Value(s.heap, s.kind, x))
    decreases n
  {
    DerefStep(s.heap, s.kind, x);
    if x.Ref? && s.heap[x.index] != x {
      assert CellOk(s.heap, s.kind, x.index);
      ChainNamed(s, nm, s.heap[x.index], n - 1);
    }
  }

  lemma {:induction false} FunctorIndexed(s: Source, nm: Naming, seen: set<Cell>, t: Form, c: Cell)
    requires Good(s) && IndexOk(s, nm, t) && Prepared(s, nm, HeaderIndex(t.es), seen) && c.Str? && c in seen
    ensures IsTerm(s.kind, c) && s.heap[c.index].Con? && Known(t.m, s.heap[c.index])
  {
    assert LookedAt(s, nm, HeaderIndex(t.es), seen, c);
    assert CellOk(s.heap, s.kind, c.index);
    HeaderKnown(s, nm, t, s.heap[c.index]);
  }
}
