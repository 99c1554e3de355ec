/** Reading a term from a buffer that may hold anything. */
module TermReader {
  import opened Cells
  import opened IntegrityCheck
  import opened Options
  import opened SerialForm
  import opened StringChunks

  datatype ReadError =
    | Malformed
    | UnsupportedVersion
    | MissingIndex
    | DatTooSmall
    | DatTooBig
    | IllegalTag
    | NothingThere
    | Unsound(fault: Fault)

  datatype Result<+T> = Ok(value: T) | Err(error: ReadError)

  // ----- the header -----

  function Ints(b: seq<Cell>): (vs: seq<Option<int>>)
    ensures |vs| == |b| && forall k: nat :: k < |b| ==> vs[k] == if b[k].Int? then Some(b[k].value) else None
  {
    seq(|b|, k requires 0 <= k < |b| => if b[k].Int? then Some(b[k].value) else None)
  }

  /** The entries from `at` on, each with its first word, and where the header ends. */
  function ParseHeader(b: seq<Cell>, at: nat): (r: Result<(seq<(Cell, Text)>, nat)>)
    requires at <= |b|
    ensures r.Ok? ==> at < r.value.1 <= |b|
    decreases |b| - at
  {
    if at == |b| then Err(Malformed)
    else if b[at] == PAMER then Ok(([], at + 1))
    else if !b[at].Ref? && !b[at].Con? then Err(Malformed)
    else match ReadText(Ints(b), at + 1)
      case None => Err(Malformed)
      case Some(name) =>
        match ParseHeader(b, name.1)
        case Err(e) => Err(e)
        case Ok(rest) => Ok(([(b[at], name.0)] + rest.0, rest.1))
  }

  /** What a header changes. */
  datatype State = State(heap: seq<Cell>, atoms: seq<Text>, vars: map<Cell, Text>, index: map<Cell, nat>)

  /** The place of a name in the table, or the end of the table. */
  function NamePlace(atoms: seq<Text>, name: Text): (i: nat)
    ensures i <= |atoms| && (i < |atoms| ==> atoms[i] == name) && (i == |atoms| ==> name !in atoms)
  {
    if atoms == [] || atoms[0] == name then 0 else 1 + NamePlace(atoms[1..], name)
  }

  function Resolved(atoms: seq<Text>, name: Text): seq<Text> {
    if NamePlace(atoms, name) < |atoms| then atoms else atoms + [name]
  }

  function IndexNew(m: map<Cell, nat>, c: Cell, i: nat): map<Cell, nat> {
    if c in m then m else m[c := i]
  }

  /** An atom gets its index here, a variable becomes a new one with that name. */
  function LoadEntry(s: State, x: (Cell, Text)): State {
    match x.0
    case Con(f) =>
      s.(atoms := Resolved(s.atoms, x.1), index := IndexNew(s.index, ToAtom(f), NamePlace(s.atoms, x.1)))
    case _ =>
      var v := Ref(|s.heap|);
      s.(heap := s.heap + [v], vars := s.vars[v := x.1], index := IndexNew(s.index, x.0, |s.heap|))
  }

  function LoadAll(s: State, es: seq<(Cell, Text)>): State
    decreases |es|
  {
    if es == [] then s else LoadAll(LoadEntry(s, es[0]), es[1..])
  }

  // ----- the body -----

  /** Where the next cell goes if nothing else is asked for, and how many payload words come first. */
  datatype Cursor = Cursor(at: nat, dat: nat)

  /** Where a word goes: a functor needs room for its arguments in the same block. */
  function PlaceFor(c: Cursor, w: Cell): (p: nat)
    ensures p >= c.at
  {
    if c.dat == 0 && w.Con? then AllocateAt(c.at, 1 + w.functor.arity) else c.at
  }

  function Next(c: Cursor, w: Cell): Cursor {
    Cursor(PlaceFor(c, w) + 1, if c.dat > 0 then c.dat - 1 else if w.Dat? then NumCells(w.bits) - 1 else 0)
  }

  function Scan(b: seq<Cell>, hdr: nat, base: nat, k: nat): Cursor
    requires hdr <= k <= |b|
    decreases k
  {
    if k == hdr then Cursor(base, 0) else Next(Scan(b, hdr, base, k - 1), b[k - 1])
  }

  function PlaceOf(b: seq<Cell>, hdr: nat, base: nat, k: nat): nat
    requires hdr <= k < |b|
  {
    PlaceFor(Scan(b, hdr, base, k), b[k])
  }

  /** Word `k` is a cell, not payload. */
  predicate Tagged(b: seq<Cell>, hdr: nat, base: nat, k: nat)
    requires hdr <= k <= |b|
  {
    Scan(b, hdr, base, k).dat == 0
  }

  predicate IsPointer(c: Cell) {
    c.Ref? || c.Str? || c.Big?
  }

  function WithIndex(c: Cell, i: nat): Cell {
    match c
    case Ref(_) => Ref(i)
    case Str(_) => Str(i)
    case Big(_) => Big(i)
    case _ => c
  }

  /** What is wrong with a word taken for a cell. */
  function WordError(b: seq<Cell>, hdr: nat, rd: map<Cell, nat>, k: nat): Option<ReadError>
    requires k < |b|
  {
    var c := b[k];
    if c.Con? && !IsDirect(c.functor) && ToAtom(c.functor) !in rd then Some(MissingIndex)
    else if IsPointer(c) && c.index < hdr && c !in rd then Some(MissingIndex)
    else if c.Dat? && c.bits < 1 then Some(DatTooSmall)
    else if c.Dat? && k + NumCells(c.bits) > |b| then Some(DatTooBig)
    else if c.Fwd? then Some(IllegalTag)
    else None
  }

  /** Which words are refused and why: atoms and variables without an entry in the header, bignums without bits or
      with more than there are words for, and forwarded cells. */
  lemma {:induction false} RefusedExactly(b: seq<Cell>, hdr: nat, rd: map<Cell, nat>, k: nat)
    requires k < |b|
    ensures WordError(b, hdr, rd, k) == Some(DatTooSmall) <==> b[k].Dat? && b[k].bits == 0
    ensures WordError(b, hdr, rd, k) == Some(DatTooBig) <==>
            b[k].Dat? && b[k].bits > 0 && b[k].bits > 32 + 64 * (|b| - k - 1)
    ensures WordError(b, hdr, rd, k) == Some(MissingIndex) <==>
              || (b[k].Con? && b[k].functor.atom < 0x8000_0000_0000
                  && Con(Functor(b[k].functor.atom, b[k].functor.arity - b[k].functor.arity % 32)) !in rd)
              || ((b[k].Ref? || b[k].Str? || b[k].Big?) && b[k].index < hdr && b[k] !in rd)
    ensures WordError(b, hdr, rd, k) == Some(IllegalTag) <==> b[k].Fwd?
    ensures var e := WordError(b, hdr, rd, k);
            e.Some? ==> e.value in {DatTooSmall, DatTooBig, MissingIndex, IllegalTag}
  {
    if b[k].Dat? { NumCellsLeast(b[k].bits, |b| - k); }
  }

  /** The cell for a word before addresses are put right. */
  function Unpatched(hdr: nat, rd: map<Cell, nat>, c: Cell): Cell {
    if c.Con? && !IsDirect(c.functor) then Con(Functor(At(rd, ToAtom(c.functor)), c.functor.arity))
    else if IsPointer(c) then WithIndex(c, if c.index < hdr then At(rd, c) else c.index - hdr)
    else c
  }

  /** Where a pointer to word `i` leads: to where that word has gone, if it is a cell. */
  function NewAddress(b: seq<Cell>, hdr: nat, base: nat, i: nat): nat {
    if hdr <= i < |b| && Tagged(b, hdr, base, i) then PlaceOf(b, hdr, base, i) else i
  }

  /** The cell for a word taken for a cell. */
  function Renewed(b: seq<Cell>, hdr: nat, base: nat, rd: map<Cell, nat>, w: Cell): Cell {
    if IsPointer(w) && w.index >= hdr then WithIndex(w, NewAddress(b, hdr, base, w.index)) else Unpatched(hdr, rd, w)
  }

  /** The cell for word `k`. */
  function NewCell(b: seq<Cell>, hdr: nat, base: nat, rd: map<Cell, nat>, k: nat): Cell
    requires hdr <= k < |b|
  {
    if Tagged(b, hdr, base, k) then Renewed(b, hdr, base, rd, b[k]) else b[k]
  }

  /** The first words have gone where they go; `f` says what they have become. */
  ghost predicate Stored(b: seq<Cell>, hdr: nat, base: nat, k: nat, h: seq<Cell>, f: nat -> Cell)
    requires hdr <= k <= |b|
  {
    forall j: nat {:trigger f(j)} {:trigger PlaceOf(b, hdr, base, j)} :: hdr <= j < k ==>
      PlaceOf(b, hdr, base, j) < |h| && h[PlaceOf(b, hdr, base, j)] == f(j)
  }

  ghost function Raw(b: seq<Cell>, hdr: nat, base: nat, rd: map<Cell, nat>): nat -> Cell {
    k => if hdr <= k < |b| then if Tagged(b, hdr, base, k) then Unpatched(hdr, rd, b[k]) else b[k] else Int(0)
  }

  ghost function Final(b: seq<Cell>, hdr: nat, base: nat, rd: map<Cell, nat>): nat -> Cell {
    k => if hdr <= k < |b| then NewCell(b, hdr, base, rd, k) else Int(0)
  }

  lemma {:induction false} ScanGrows(b: seq<Cell>, hdr: nat, base: nat, j: nat, k: nat)
    requires hdr <= j <= k <= |b|
    ensures Scan(b, hdr, base, j).at <= Scan(b, hdr, base, k).at
    decreases k
  {
    if j < k { ScanGrows(b, hdr, base, j, k - 1); }
  }

  /** Words keep their order. */
  lemma {:induction false} PlacesInOrder(b: seq<Cell>, hdr: nat, base: nat, j: nat, k: nat)
    requires hdr <= j < k < |b|
    ensures base <= PlaceOf(b, hdr, base, j) < PlaceOf(b, hdr, base, k)
  {
    ScanGrows(b, hdr, base, hdr, j);
    ScanGrows(b, hdr, base, j + 1, k);
  }

  /** Where payload goes. */
  lemma {:induction false} PayloadFollows(b: seq<Cell>, hdr: nat, base: nat, k: nat, j: nat)
    requires hdr <= k && k + j < |b| && Tagged(b, hdr, base, k) && b[k].Dat? && j < NumCells(b[k].bits)
    ensures PlaceOf(b, hdr, base, k + j) == PlaceOf(b, hdr, base, k) + j
    ensures j > 0 ==> !Tagged(b, hdr, base, k + j)
    ensures Scan(b, hdr, base, k + j).dat == if j == 0 then 0 else NumCells(b[k].bits) - j
  {
    if j > 0 { PayloadFollows(b, hdr, base, k, j - 1); }
  }

  // ----- the state of reading the body -----

  /** What is kept of the words read: where each cell word went, the places of cells, and the places
      of pointers to be put right. */
  datatype Progress = Progress(newIndex: map<nat, nat>, used: set<nat>, ptrs: seq<nat>)

  predicate NeedsPatch(b: seq<Cell>, hdr: nat, base: nat, k: nat) {
    hdr <= k < |b| && Tagged(b, hdr, base, k) && IsPointer(b[k]) && b[k].index >= hdr
  }

  ghost predicate IndexUpTo(b: seq<Cell>, hdr: nat, base: nat, k: nat, newIndex: map<nat, nat>)
    requires hdr <= k <= |b|
  {
    && (forall i: nat {:trigger i in newIndex} :: i in newIndex <==> hdr + i < k && Tagged(b, hdr, base, hdr + i))
    && forall i: nat {:trigger newIndex[i]} :: i in newIndex ==> newIndex[i] == PlaceOf(b, hdr, base, hdr + i)
  }

  ghost predicate TaggedAt(b: seq<Cell>, hdr: nat, base: nat, k: nat, p: nat)
    requires hdr <= k <= |b|
  {
    exists j: nat {:trigger PlaceOf(b, hdr, base, j)} ::
      hdr <= j < k && Tagged(b, hdr, base, j) && PlaceOf(b, hdr, base, j) == p
  }

  ghost predicate UsedUpTo(b: seq<Cell>, hdr: nat, base: nat, k: nat, used: set<nat>)
    requires hdr <= k <= |b|
  {
    forall p: nat :: p in used <==> TaggedAt(b, hdr, base, k, p)
  }

  /** `ks` are the words to be put right, and `ptrs` where they are. */
  ghost predicate PtrsUpTo(b: seq<Cell>, hdr: nat, base: nat, k: nat, ptrs: seq<nat>, ks: seq<nat>)
    requires hdr <= k <= |b|
  {
    && |ptrs| == |ks|
    && (forall i: nat :: i < |ks| ==> PtrAt(b, hdr, base, k, ptrs[i], ks[i]))
    && (forall i: nat, j: nat :: i < j < |ks| ==> ks[i] < ks[j])
    && forall j: nat {:trigger NeedsPatch(b, hdr, base, j)} :: NeedsPatch(b, hdr, base, j) && j < k ==> j in ks
  }

  ghost predicate PtrAt(b: seq<Cell>, hdr: nat, base: nat, k: nat, p: nat, j: nat) {
    NeedsPatch(b, hdr, base, j) && j < k && p == PlaceOf(b, hdr, base, j)
  }

  ghost predicate Loading(b: seq<Cell>, hdr: nat, base: nat, rd: map<Cell, nat>, k: nat, h: seq<Cell>, x: Progress,
                          ks: seq<nat>)
    requires hdr <= k <= |b|
  {
    && |h| == Scan(b, hdr, base, k).at && Stored(b, hdr, base, k, h, Raw(b, hdr, base, rd))
    && IndexUpTo(b, hdr, base, k, x.newIndex) && UsedUpTo(b, hdr, base, k, x.used) &&
      PtrsUpTo(b, hdr, base, k, x.ptrs, ks)
  }

  /** Word `k` has been stored at `p`. */
  function Recorded(x: Progress, hdr: nat, k: nat, p: nat, patch: bool): Progress
    requires hdr <= k
  {
    Progress(x.newIndex[k - hdr := p], x.used + {p}, if patch then x.ptrs + [p] else x.ptrs)
  }

  lemma {:induction false} StoredMore(b: seq<Cell>, hdr: nat, base: nat, k: nat, h: seq<Cell>, h': seq<Cell>,
                                      f: nat -> Cell)
    requires hdr <= k < |b| && Stored(b, hdr, base, k, h, f) && h <= h'
    requires PlaceOf(b, hdr, base, k) < |h'| && h'[PlaceOf(b, hdr, base, k)] == f(k)
    ensures Stored(b, hdr, base, k + 1, h', f)
  {
  }

  lemma {:induction false} UsedMore(b: seq<Cell>, hdr: nat, base: nat, k: nat, used: set<nat>)
    requires hdr <= k < |b| && UsedUpTo(b, hdr, base, k, used)
    ensures UsedUpTo(b, hdr, base, k + 1, if Tagged(b, hdr, base, k) then used + {PlaceOf(b, hdr, base, k)} else used)
  {
    var used' := if Tagged(b, hdr, base, k) then used + {PlaceOf(b, hdr, base, k)} else used;
    forall p: nat ensures p in used' <==> TaggedAt(b, hdr, base, k + 1, p) {
      if TaggedAt(b, hdr, base, k, p) {
        var j: nat :| hdr <= j < k && Tagged(b, hdr, base, j) && PlaceOf(b, hdr, base, j) == p;
      }
      if TaggedAt(b, hdr, base, k + 1, p) {
        var j: nat :| hdr <= j < k + 1 && Tagged(b, hdr, base, j) && PlaceOf(b, hdr, base, j) == p;
        if j < k { assert TaggedAt(b, hdr, base, k, p); }
      }
    }
  }

  lemma {:induction false} PtrsSame(b: seq<Cell>, hdr: nat, base: nat, k: nat, ptrs: seq<nat>, ks: seq<nat>)
    requires hdr <= k < |b| && PtrsUpTo(b, hdr, base, k, ptrs, ks) && !NeedsPatch(b, hdr, base, k)
    ensures PtrsUpTo(b, hdr, base, k + 1, ptrs, ks)
  {
    forall i: nat | i < |ks| ensures PtrAt(b, hdr, base, k +
      1, ptrs[i], ks[i]) { assert PtrAt(b, hdr, base, k, ptrs[i], ks[i]); }
  }

  lemma {:induction false} PtrsAdded(b: seq<Cell>, hdr: nat, base: nat, k: nat, ptrs: seq<nat>, ks: seq<nat>)
    requires hdr <= k < |b| && PtrsUpTo(b, hdr, base, k, ptrs, ks) && NeedsPatch(b, hdr, base, k)
    ensures PtrsUpTo(b, hdr, base, k + 1, ptrs + [PlaceOf(b, hdr, base, k)], ks + [k])
  {
    var ptrs', ks' := ptrs + [PlaceOf(b, hdr, base, k)], ks + [k];
    forall i: nat | i < |ks'| ensures PtrAt(b, hdr, base, k + 1, ptrs'[i], ks'[i]) {
      if i < |ks| { assert PtrAt(b, hdr, base, k, ptrs[i], ks[i]); }
    }
    forall i: nat, j: nat | i < j < |ks'| ensures ks'[i] < ks'[j] {
      if j == |ks| { assert PtrAt(b, hdr, base, k, ptrs[i], ks[i]); }
    }
    forall j: nat | NeedsPatch(b, hdr, base, j) && j < k + 1 ensures j in ks' {
      if j == k { assert ks'[|ks|] == k; } else { assert j in ks; }
    }
  }

  lemma {:induction false} IndexMore(b: seq<Cell>, hdr: nat, base: nat, k: nat, newIndex: map<nat, nat>)
    requires hdr <= k < |b| && IndexUpTo(b, hdr, base, k, newIndex)
    ensures IndexUpTo(b, hdr, base, k + 1,
                      if Tagged(b, hdr, base, k) then newIndex[k - hdr := PlaceOf(b, hdr, base, k)] else newIndex)
  {
    var newIndex' := if Tagged(b, hdr, base, k) then newIndex[k - hdr := PlaceOf(b, hdr, base, k)] else newIndex;
    forall i: nat ensures i in newIndex' <==> hdr + i < k + 1 && Tagged(b, hdr, base, hdr + i) {
      if hdr + i == k { assert i == k - hdr; }
    }
  }

  /** A payload word is stored as it is. */
  lemma {:induction false} PayloadStep(b: seq<Cell>, hdr: nat, base: nat, rd: map<Cell, nat>, k: nat, h: seq<Cell>,
                                       x: Progress,
                                       ks: seq<nat>)
    requires hdr <= k < |b| && Loading(b, hdr, base, rd, k, h, x, ks) && !Tagged(b, hdr, base, k)
    ensures Loading(b, hdr, base, rd, k + 1, h + [b[k]], x, ks)
  {
    var h' := h + [b[k]];
    StoredMore(b, hdr, base, k, h, h', Raw(b, hdr, base, rd));
    UsedMore(b, hdr, base, k, x.used);
    IndexMore(b, hdr, base, k, x.newIndex);
    PtrsSame(b, hdr, base, k, x.ptrs, ks);
  }

  /** A cell word is stored where it goes. */
  lemma {:induction false} CellStep(b: seq<Cell>, hdr: nat, base: nat, rd: map<Cell, nat>, k: nat, h: seq<Cell>,
                                    x: Progress,
                                    ks: seq<nat>, h': seq<Cell>, x': Progress) returns (ks': seq<nat>)
    requires hdr <= k < |b| && Loading(b, hdr, base, rd, k, h, x, ks) && Tagged(b, hdr, base, k)
    requires h <= h' && |h'| == PlaceOf(b, hdr, base, k) + 1
    requires h'[PlaceOf(b, hdr, base, k)] == Unpatched(hdr, rd, b[k])
    requires x' == Recorded(x, hdr, k, PlaceOf(b, hdr, base, k), NeedsPatch(b, hdr, base, k))
    ensures Loading(b, hdr, base, rd, k + 1, h', x', ks')
  {
    StoredMore(b, hdr, base, k, h, h', Raw(b, hdr, base, rd));
    UsedMore(b, hdr, base, k, x.used);
    IndexMore(b, hdr, base, k, x.newIndex);
    if NeedsPatch(b, hdr, base, k) {
      ks' := ks + [k];
      PtrsAdded(b, hdr, base, k, x.ptrs, ks);
    } else {
      ks' := ks;
      PtrsSame(b, hdr, base, k, x.ptrs, ks);
    }
  }

  // ----- putting addresses right -----

  /** The first `n` of the pointers have been put right; `h1` is the heap before. */
  ghost predicate PatchedUpTo(f: nat -> Cell, h1: seq<Cell>, h: seq<Cell>, ptrs: seq<nat>, ks: seq<nat>, n: nat) {
    && |h| == |h1| && n <= |ptrs| == |ks|
    && (forall i: nat :: i < n ==> ptrs[i] < |h| && h[ptrs[i]] == f(ks[i]))
    && forall p: nat :: p < |h| && (forall i: nat :: i < n ==> ptrs[i] != p) ==> h[p] == h1[p]
  }

  lemma {:induction false} PtrsApart(b: seq<Cell>, hdr: nat, base: nat, ptrs: seq<nat>, ks: seq<nat>, i: nat, j: nat)
    requires hdr <= |b| && PtrsUpTo(b, hdr, base, |b|, ptrs, ks) && i < |ptrs| && j < |ptrs| && i != j
    ensures ptrs[i] != ptrs[j]
  {
    assert PtrAt(b, hdr, base, |b|, ptrs[i], ks[i]) && PtrAt(b, hdr, base, |b|, ptrs[j], ks[j]);
    if i < j { PlacesInOrder(b, hdr, base, ks[i], ks[j]); } else { PlacesInOrder(b, hdr, base, ks[j], ks[i]); }
  }

  /** What the next pointer to be put right is, and what it becomes. */
  lemma {:induction false} PatchStep(b: seq<Cell>, hdr: nat, base: nat, rd: map<Cell, nat>, h1: seq<Cell>, h: seq<Cell>,
                                     x: Progress, ks: seq<nat>, n: nat)
    requires hdr <= |b| && Loading(b, hdr, base, rd, |b|, h1, x, ks) && n < |ks|
    requires PatchedUpTo(Final(b, hdr, base, rd), h1, h, x.ptrs, ks, n)
    ensures NeedsPatch(b, hdr, base, ks[n]) && x.ptrs[n] < |h| &&
            h[x.ptrs[n]] == WithIndex(b[ks[n]], b[ks[n]].index - hdr)
    ensures PatchedUpTo(Final(b, hdr, base, rd), h1, h[x.ptrs[n] := NewCell(b, hdr, base, rd, ks[n])],
                        x.ptrs, ks, n + 1)
  {
    assert PtrAt(b, hdr, base, |b|, x.ptrs[n], ks[n]);
    assert Raw(b, hdr, base, rd)(ks[n]) == h1[x.ptrs[n]];
    forall i: nat | i < |ks| && i != n ensures x.ptrs[i] != x.ptrs[n] { PtrsApart(b, hdr, base, x.ptrs, ks, i, n); }
  }

  lemma {:induction false} RawIsFinal(b: seq<Cell>, hdr: nat, base: nat, rd: map<Cell, nat>, k: nat)
    requires hdr <= k < |b| && !NeedsPatch(b, hdr, base, k)
    ensures Raw(b, hdr, base, rd)(k) == Final(b, hdr, base, rd)(k)
  {
  }

  lemma {:induction false} NoPtrHere(b: seq<Cell>, hdr: nat, base: nat, ptrs: seq<nat>, ks: seq<nat>, k: nat, i: nat)
    requires hdr <= k < |b| && PtrsUpTo(b, hdr, base, |b|, ptrs, ks) && k !in ks && i < |ks|
    ensures ptrs[i] != PlaceOf(b, hdr, base, k)
  {
    assert PtrAt(b, hdr, base, |b|, ptrs[i], ks[i]);
    if ks[i] < k { PlacesInOrder(b, hdr, base, ks[i], k); } else { PlacesInOrder(b, hdr, base, k, ks[i]); }
  }

  /** In the end every word has become what it should. */
  lemma {:induction false} WordFinal(b: seq<Cell>, hdr: nat, base: nat, rd: map<Cell, nat>, h1: seq<Cell>, h: seq<Cell>,
                                     x: Progress, ks: seq<nat>, k: nat)
    requires hdr <= k < |b| && Loading(b, hdr, base, rd, |b|, h1, x, ks)
    requires PatchedUpTo(Final(b, hdr, base, rd), h1, h, x.ptrs, ks, |ks|)
    ensures PlaceOf(b, hdr, base, k) < |h| && h[PlaceOf(b, hdr, base, k)] == Final(b, hdr, base, rd)(k)
  {
    var p, f := PlaceOf(b, hdr, base, k), Raw(b, hdr, base, rd);
    assert f(k) == h1[p];
    if k in ks {
      var i: nat :| i < |ks| && ks[i] == k;
      assert PtrAt(b, hdr, base, |b|, x.ptrs[i], ks[i]);
    } else {
      assert !NeedsPatch(b, hdr, base, k);
      forall i: nat | i < |ks| ensures x.ptrs[i] != p { NoPtrHere(b, hdr, base, x.ptrs, ks, k, i); }
      RawIsFinal(b, hdr, base, rd, k);
    }
  }

  lemma {:induction false} AllFinal(b: seq<Cell>, hdr: nat, base: nat, rd: map<Cell, nat>, h1: seq<Cell>, h: seq<Cell>,
                                    x: Progress, ks: seq<nat>)
    requires hdr <= |b| && Loading(b, hdr, base, rd, |b|, h1, x, ks)
    requires PatchedUpTo(Final(b, hdr, base, rd), h1, h, x.ptrs, ks, |ks|)
    ensures Stored(b, hdr, base, |b|, h, Final(b, hdr, base, rd))
    ensures forall p: nat :: p < base && p < |h| ==> h[p] == h1[p]
  {
    forall k: nat | hdr <= k < |b|
      ensures PlaceOf(b, hdr, base, k) < |h| && h[PlaceOf(b, hdr, base, k)] == Final(b, hdr, base, rd)(k)
    {
      WordFinal(b, hdr, base, rd, h1, h, x, ks, k);
    }
    forall p: nat | p < base && p < |h| ensures h[p] == h1[p] {
      forall i: nat | i < |ks| ensures x.ptrs[i] != p {
        assert PtrAt(b, hdr, base, |b|, x.ptrs[i], ks[i]);
        ScanGrows(b, hdr, base, hdr, ks[i]);
      }
    }
  }

  // ----- the whole -----

  /** Where the header ends, or what is wrong with it. */
  function HeaderEnd(b: seq<Cell>): (r: Result<nat>)
    ensures r.Ok? ==> r.value <= |b|
  {
    if b == [] || !b[0].Con? then Err(Malformed)
    else if b[0] != VERSION then Err(UnsupportedVersion)
    else if |b| == 1 || b[1] != REMAP then Err(Malformed)
    else match ParseHeader(b, 2)
      case Err(e) => Err(e)
      case Ok(p) => Ok(p.1)
  }

  /** No word of the first ones is wrong. */
  ghost predicate WordsOk(b: seq<Cell>, hdr: nat, base: nat, rd: map<Cell, nat>, n: nat)
    requires hdr <= n <= |b|
  {
    forall k: nat {:trigger WordError(b, hdr, rd, k)} :: hdr <= k < n && Tagged(b, hdr, base, k) ==>
      WordError(b, hdr, rd, k) == None
  }

  lemma {:induction false} WordsOkMore(b: seq<Cell>, hdr: nat, base: nat, rd: map<Cell, nat>, n: nat)
    requires hdr <= n < |b| && WordsOk(b, hdr, base, rd, n)
    ensures (Tagged(b, hdr, base, n) ==> WordError(b, hdr, rd, n) == None) ==> WordsOk(b, hdr, base, rd, n + 1)
  {
  }

  ghost predicate Reading(b: seq<Cell>, hdr: nat, base: nat, rd: map<Cell, nat>, k: nat, h: seq<Cell>, x: Progress,
                          ks: seq<nat>,
                          numDat: nat)
    requires hdr <= k <= |b|
  {
    Loading(b, hdr, base, rd, k, h, x, ks) && WordsOk(b, hdr, base, rd, k) && numDat == Scan(b, hdr, base, k).dat
  }

  lemma {:induction false} NothingRead(b: seq<Cell>, hdr: nat, rd: map<Cell, nat>, h: seq<Cell>)
    requires hdr <= |b|
    ensures Reading(b, hdr, |h|, rd, hdr, h, Progress(map[], {}, []), [], 0)
  {
  }

  /** Word `k` is the first that is wrong. */
  ghost predicate FirstWrong(b: seq<Cell>, hdr: nat, base: nat, rd: map<Cell, nat>, e: ReadError) {
    hdr <= |b| && exists k: nat :: hdr <= k < |b| && WrongAt(b, hdr, base, rd, k, e)
  }

  ghost predicate WrongAt(b: seq<Cell>, hdr: nat, base: nat, rd: map<Cell, nat>, k: nat, e: ReadError)
    requires hdr <= k < |b|
  {
    WordsOk(b, hdr, base, rd, k) && Tagged(b, hdr, base, k) && WordError(b, hdr, rd, k) == Some(e)
  }

  /** The heap `h'` is `h` with what was read behind it; `rd` is the index from the header. */
  ghost predicate Loaded(b: seq<Cell>, hdr: nat, rd: map<Cell, nat>, h: seq<Cell>, h': seq<Cell>, used: set<nat>) {
    && hdr <= |b| && h <= h' && |h'| == Scan(b, hdr, |h|, |b|).at && WordsOk(b, hdr, |h|, rd, |b|)
    && Stored(b, hdr, |h|, |b|, h', Final(b, hdr, |h|, rd)) && UsedUpTo(b, hdr, |h|, |b|, used)
  }

  lemma {:induction false} PlaceTwice(b: seq<Cell>, hdr: nat, base: nat, j: nat, k: nat)
    requires hdr <= j < |b| && hdr <= k < |b| && PlaceOf(b, hdr, base, j) == PlaceOf(b, hdr, base, k)
    ensures j == k
  {
    if j < k { PlacesInOrder(b, hdr, base, j, k); }
    if k < j { PlacesInOrder(b, hdr, base, k, j); }
  }

  /** The word of a used cell. */
  lemma {:induction false} UsedWord(b: seq<Cell>, hdr: nat, rd: map<Cell, nat>, h: seq<Cell>, h': seq<Cell>,
                                    used: set<nat>,
                                    p: nat) returns (k: nat)
    requires Loaded(b, hdr, rd, h, h', used) && p in used
    ensures hdr <= k < |b| && Tagged(b, hdr, |h|, k) && PlaceOf(b, hdr, |h|, k) == p < |h'|
    ensures h'[p] == NewCell(b, hdr, |h|, rd, k) && WordError(b, hdr, rd, k) == None
  {
    assert TaggedAt(b, hdr, |h|, |b|, p);
    k :| hdr <= k < |b| && Tagged(b, hdr, |h|, k) && PlaceOf(b, hdr, |h|, k) == p;
    assert h'[p] == Final(b, hdr, |h|, rd)(k);
  }

  lemma {:induction false} UsedHeader(b: seq<Cell>, hdr: nat, rd: map<Cell, nat>, h: seq<Cell>, h': seq<Cell>,
                                      used: set<nat>, p: nat) returns (k: nat)
    requires Loaded(b, hdr, rd, h, h', used) && p in used && p < |h'| && h'[p].Dat?
    ensures hdr <= k < |b| && Tagged(b, hdr, |h|, k) && PlaceOf(b, hdr, |h|, k) == p
    ensures b[k] == h'[p] && b[k].bits > 0 && k + NumCells(b[k].bits) <= |b|
  {
    k := UsedWord(b, hdr, rd, h, h', used, p);
  }

  /** A bignum that was read is there with all its bits. */
  lemma {:induction false} NumberRead(b: seq<Cell>, hdr: nat, rd: map<Cell, nat>, h: seq<Cell>, h': seq<Cell>,
                                      used: set<nat>, p: nat) returns (k: nat)
    requires Loaded(b, hdr, rd, h, h', used) && p in used && p < |h'| && h'[p].Dat?
    ensures hdr <= k < |b| && h'[p].bits > 0 && SameNumber(b, k, h', p)
    ensures forall m: nat :: 32 + 64 * m < h'[p].bits ==> p + 1 + m !in used
  {
    k := UsedHeader(b, hdr, rd, h, h', used, p);
    forall m: nat | 32 + 64 * m < b[k].bits
      ensures k + 1 + m < |b| && p + 1 + m < |h'| && h'[p + 1 + m] == b[k + 1 + m] && p + 1 + m !in used
    {
      NumCellsLeast(b[k].bits, m + 1);
      PayloadRead(b, hdr, rd, h, h', used, p, k, m + 1);
      PayloadNotUsed(b, hdr, rd, h, h', used, p, p + 1 + m);
    }
  }

  lemma {:induction false} PayloadRead(b: seq<Cell>, hdr: nat, rd: map<Cell, nat>, h: seq<Cell>, h': seq<Cell>,
                                       used: set<nat>, p: nat, k: nat, j: nat)
    requires Loaded(b, hdr, rd, h, h', used) && hdr <= k < |b| && Tagged(b, hdr, |h|, k) && PlaceOf(b, hdr, |h|, k) == p
    requires b[k].Dat? && 0 < j < NumCells(b[k].bits) && k + NumCells(b[k].bits) <= |b|
    ensures p + j < |h'| && h'[p + j] == b[k + j]
  {
    PayloadFollows(b, hdr, |h|, k, j);
    assert h'[PlaceOf(b, hdr, |h|, k + j)] == Final(b, hdr, |h|, rd)(k + j);
  }

  /** Payload words are not taken for cells. */
  lemma {:induction false} PayloadNotUsed(b: seq<Cell>, hdr: nat, rd: map<Cell, nat>, h: seq<Cell>, h': seq<Cell>,
                                          used: set<nat>, i: nat, p: nat)
    requires Loaded(b, hdr, rd, h, h', used) && i in used && i < |h'| && h'[i].Dat? && i < p < i + NumCells(h'[i].bits)
    ensures p !in used
  {
    var k := UsedHeader(b, hdr, rd, h, h', used, i);
    var n: nat := p - i;
    PayloadFollows(b, hdr, |h|, k, n);
    if p in used {
      var j := UsedWord(b, hdr, rd, h, h', used, p);
      PlaceTwice(b, hdr, |h|, j, k + n);
    }
  }

  lemma {:induction false} LoadedPayload(b: seq<Cell>, hdr: nat, rd: map<Cell, nat>, h: seq<Cell>, h': seq<Cell>,
                                         used: set<nat>,
                                         lo: nat)
    requires Loaded(b, hdr, rd, h, h', used)
    ensures PayloadApart(Part(h', lo, used))
  {
    var q := Part(h', lo, used);
    forall i: nat, p: nat {:trigger q.heap[i], p in q.used} |
      InPart(q, i) && i in q.used && q.heap[i].Dat? && i < p < i + NumCells(q.heap[i].bits)
      ensures p !in q.used
    {
      PayloadNotUsed(b, hdr, rd, h, h', used, i, p);
    }
  }

  class Reader {
    var heap: seq<Cell>
    var atoms: seq<Text>
    var vars: map<Cell, Text>
    var index: map<Cell, nat>

    constructor (heap: seq<Cell>, atoms: seq<Text>, vars: map<Cell, Text>)
      ensures this.heap == heap && this.atoms == atoms && this.vars == vars
    {
      this.heap, this.atoms, this.vars, this.index := heap, atoms, vars, map[];
    }

    function Now(): State
      reads this
    {
      State(heap, atoms, vars, index)
    }

    method ResolveAtomIndex(name: Text) returns (i: nat)
      modifies `atoms
      ensures atoms == Resolved(old(atoms), name) && i == NamePlace(old(atoms), name)
    {
      i := NamePlace(atoms, name);
      if i == |atoms| {
        atoms := atoms + [name];
      }
    }

    method IndexTerm(c: Cell, id: nat)
      modifies `index
      ensures index == IndexNew(old(index), c, id)
    {
      if c !in index {
        index := index[c := id];
      }
    }

    method ReadEncodedString(b: seq<Cell>, at: nat) returns (r: Option<(Text, nat)>)
      requires at <= |b|
      ensures r == ReadText(Ints(b), at)
    {
      var str, i := [], at;
      assert forall x: Text :: [] + x == x;
      while i < |b|
        invariant at <= i <= |b|
        invariant ReadText(Ints(b), at) == match ReadText(Ints(b), i)
                                           case None => None
                                           case Some(x) => Some((str + x.0, x.1))
        decreases |b| - i
      {
        if !b[i].Int? {
          return None;
        }
        var isChunk := IsCharChunk(b[i].value);
        if !isChunk {
          return None;
        }
        var chars := AsCharChunk(b[i].value);
        ghost var before := str;
        str := str + chars;
        if LowFive(b[i].value) == 0 {
          return Some((str, i + 1));
        }
        assert forall x: Text :: before + (chars + x) == str + x;
        i := i + 1;
      }
      r := None;
    }

    method ReadIndex(c: Cell, name: Text)
      requires c.Ref? || c.Con?
      modifies this
      ensures Now() == LoadEntry(old(Now()), (c, name))
    {
      if c.Con? {
        var i := ResolveAtomIndex(name);
        IndexTerm(ToAtom(c.functor), i);
      } else {
        var v := |heap|;
        heap := heap + [Ref(v)];
        vars := vars[Ref(v) := name];
        IndexTerm(c, v);
      }
    }

    method ReadEntries(b: seq<Cell>) returns (r: Result<nat>)
      requires 2 <= |b|
      modifies this
      ensures r == match ParseHeader(b, 2) case Err(e) => Err(e) case Ok(p) => Ok(p.1)
      ensures r.Ok? ==> Now() == LoadAll(old(Now()), ParseHeader(b, 2).value.0)
      ensures old(heap) <= heap
    {
      var at := 2;
      ghost var all := ParseHeader(b, 2);
      while true
        invariant at <= |b| && old(heap) <= heap
        invariant match ParseHeader(b, at)
                  case Err(e) => all == Err(e)
                  case Ok(p) => all.Ok? && all.value.1 == p.1 && LoadAll(old(Now()), all.value.0) == LoadAll(Now(), p.0)
        decreases |b| - at
      {
        if at == |b| {
          return Err(Malformed);
        }
        var c := b[at];
        if c == PAMER {
          return Ok(at + 1);
        }
        if !c.Ref? && !c.Con? {
          return Err(Malformed);
        }
        var name := ReadEncodedString(b, at + 1);
        if name == None {
          return Err(Malformed);
        }
        ghost var before := ParseHeader(b, at);
        ReadIndex(c, name.value.0);
        at := name.value.1;
        assert before.Ok? ==> before.value.0[1..] == ParseHeader(b, at).value.0;
      }
    }

    method ReadAllHeader(b: seq<Cell>) returns (r: Result<nat>)
      modifies this
      ensures r == HeaderEnd(b)
      ensures r.Ok? ==> |b| >= 2 && ParseHeader(b, 2).Ok?
                        && Now() == LoadAll(old(Now()).(index := map[]), ParseHeader(b, 2).value.0)
      ensures old(heap) <= heap
    {
      index := map[];
      if |b| == 0 || !b[0].Con? {
        return Err(Malformed);
      }
      if b[0] != VERSION {
        return Err(UnsupportedVersion);
      }
      if |b| == 1 || b[1] != REMAP {
        return Err(Malformed);
      }
      r := ReadEntries(b);
    }

    /** One cell behind the others; a functor begins a new block if its arguments would not fit. */
    method NewCell0(c: Cell) returns (p: nat)
      modifies `heap
      ensures p == if c.Con? then AllocateAt(|old(heap)|, 1 + c.functor.arity) else |old(heap)|
      ensures c.Con? && c.functor.arity < 8192 ==> p / 8192 == (p + c.functor.arity) / 8192
      ensures old(heap) <= heap && |heap| == p + 1 && heap[p] == c
    {
      if c.Con? {
        var at := AllocateAt(|heap|, 1 + c.functor.arity);
        if c.functor.arity < 8192 { AllocateExact(|heap|, 1 + c.functor.arity); }
        heap := heap + seq(at - |heap|, _ => Int(0));
      }
      p := |heap|;
      heap := heap + [c];
    }

    /** Stores a word that stands for a cell. */
    method ReadCell(b: seq<Cell>, hdr: nat, k: nat, x: Progress, ghost base: nat, ghost ks: seq<nat>)
      returns (e: Option<ReadError>, x': Progress, ghost ks': seq<nat>)
      requires hdr <= k < |b| && Loading(b, hdr, base, index, k, heap, x, ks) && Tagged(b, hdr, base, k)
      modifies `heap
      ensures old(heap) <= heap && e == WordError(b, hdr, index, k)
      ensures e == None ==> Loading(b, hdr, base, index, k + 1, heap, x', ks')
    {
      ghost var h := heap;
      e := WordError(b, hdr, index, k);
      x', ks' := x, ks;
      if e == None {
        var c := Unpatched(hdr, index, b[k]);
        var p := NewCell0(c);
        x' := Recorded(x, hdr, k, p, IsPointer(b[k]) && b[k].index >= hdr);
        ks' := CellStep(b, hdr, base, index, k, h, x, ks, heap, x');
      }
    }

    method ReadWord(b: seq<Cell>, hdr: nat, k: nat, x: Progress, numDat: nat, ghost base: nat, ghost ks: seq<nat>)
      returns (e: Option<ReadError>, x': Progress, numDat': nat, ghost ks': seq<nat>)
      requires hdr <= k < |b| && Reading(b, hdr, base, index, k, heap, x, ks, numDat)
      modifies `heap
      ensures old(heap) <= heap && (e.Some? ==> FirstWrong(b, hdr, base, index, e.value))
      ensures e == None ==> Reading(b, hdr, base, index, k + 1, heap, x', ks', numDat')
    {
      WordsOkMore(b, hdr, base, index, k);
      e, x', numDat', ks' := None, x, numDat, ks;
      if numDat > 0 {
        PayloadStep(b, hdr, base, index, k, heap, x, ks);
        heap := heap + [b[k]];
        numDat' := numDat - 1;
      } else {
        e, x', ks' := ReadCell(b, hdr, k, x, base, ks);
        assert e.Some? ==> WrongAt(b, hdr, base, index, k, e.value);
        numDat' := if b[k].Dat? then NumCells(b[k].bits) - 1 else 0;
      }
    }

    method ReadWords(b: seq<Cell>, hdr: nat) returns (e: Option<ReadError>, x: Progress, ghost ks: seq<nat>)
      requires hdr <= |b|
      modifies `heap
      ensures old(heap) <= heap
      ensures e == None ==>
              Loading(b, hdr, |old(heap)|, index, |b|, heap, x, ks) && WordsOk(b, hdr, |old(heap)|, index, |b|)
      ensures e.Some? ==> FirstWrong(b, hdr, |old(heap)|, index, e.value)
    {
      ghost var base := |heap|;
      x, ks := Progress(map[], {}, []), [];
      var numDat, k := 0, hdr;
      NothingRead(b, hdr, index, heap);
      while k < |b|
        invariant hdr <= k <= |b| && old(heap) <= heap && Reading(b, hdr, base, index, k, heap, x, ks, numDat)
      {
        e, x, numDat, ks := ReadWord(b, hdr, k, x, numDat, base, ks);
        if e.Some? {
          return;
        }
        assert Reading(b, hdr, base, index, k + 1, heap, x, ks, numDat);
        k := k + 1;
      }
      e := None;
    }

    /** Puts one pointer right. */
    method PatchOne(b: seq<Cell>, hdr: nat, x: Progress, n: nat, ghost base: nat, ghost h1: seq<Cell>,
                    ghost ks: seq<nat>)
      requires hdr <= |b| && Loading(b, hdr, base, index, |b|, h1, x, ks) && n < |ks|
      requires PatchedUpTo(Final(b, hdr, base, index), h1, heap, x.ptrs, ks, n)
      modifies `heap
      ensures PatchedUpTo(Final(b, hdr, base, index), h1, heap, x.ptrs, ks, n + 1)
    {
      ghost var place, v := PatchNext(b, hdr, base, index, h1, heap, x, ks, n);
      var p := x.ptrs[n];
      var c := heap[p];
      heap := heap[p := WithIndex(c, Target(x.newIndex, hdr, c.index))];
    }

    method PatchPointers(b: seq<Cell>, hdr: nat, x: Progress, ghost base: nat, ghost ks: seq<nat>)
      requires hdr <= |b| && base <= |heap| && Loading(b, hdr, base, index, |b|, heap, x, ks)
      modifies `heap
      ensures Stored(b, hdr, base, |b|, heap, Final(b, hdr, base, index)) && |heap| == |old(heap)|
      ensures heap[..base] == old(heap)[..base]
    {
      ghost var h1 := heap;
      for n := 0 to |x.ptrs|
        invariant PatchedUpTo(Final(b, hdr, base, index), h1, heap, x.ptrs, ks, n)
      {
        PatchOne(b, hdr, x, n, base, h1, ks);
      }
      AllFinal(b, hdr, base, index, h1, heap, x, ks);
    }

    /** Reads a term: everything the header names is resolved, every word goes where `PlaceOf` says and
        becomes what `Final` says, and the result is what the first word has become, provided that
        the check accepts the new part of the heap. */
    method Read(b: seq<Cell>) returns (r: Result<Cell>, ghost mid: State, ghost used: set<nat>)
      modifies this
      ensures old(heap) <= heap
      ensures HeaderEnd(b).Err? ==> r == Err(HeaderEnd(b).error)
      ensures HeaderEnd(b).Ok? ==> mid == LoadAll(old(Now()).(index := map[]), ParseHeader(b, 2).value.0)
                                   && atoms == mid.atoms && vars == mid.vars
      ensures r.Ok? && !Single(b) ==>
                && HeaderEnd(b).value < |b| && Loaded(b, HeaderEnd(b).value, mid.index, mid.heap, heap, used)
                && r.value == Final(b, HeaderEnd(b).value, |mid.heap|, mid.index)(HeaderEnd(b).value)
                && forall i: nat :: InPart(Part(heap, |old(heap)|, used), i) && i in used ==>
                  Fine(Part(heap, |old(heap)|, used), i)
      ensures Single(b) ==> r == Ok(EMPTY_LIST) && heap == mid.heap
      ensures HeaderEnd(b).Ok? && !Single(b) && r.Err? ==>
                || (HeaderEnd(b).value == |b| && r.error == NothingThere)
                || FirstWrong(b, HeaderEnd(b).value, |mid.heap|, mid.index, r.error)
                || (Loaded(b, HeaderEnd(b).value, mid.index, mid.heap, heap, used) && r.error.Unsound?
                    && exists i: nat :: InPart(Part(heap, |old(heap)|, used), i) && i in used
                                        && !Fine(Part(heap, |old(heap)|, used), i))
    {
      used := {};
      var lo := |heap|;
      var end := ReadAllHeader(b);
      mid := Now();
      if end.Err? {
        return Err(end.error), mid, used;
      }
      var hdr := end.value;
      if hdr + 1 == |b| && b[hdr] == EMPTY_LIST {
        return Ok(EMPTY_LIST), mid, used;
      }
      if hdr == |b| {
        return Err(NothingThere), mid, used;
      }
      r, used := ReadBody(b, hdr, lo, mid);
    }

    /** Everything behind the header. */
    method ReadBody(b: seq<Cell>, hdr: nat, lo: nat, ghost mid: State) returns (r: Result<Cell>, ghost used: set<nat>)
      requires hdr < |b| && mid == Now()
      modifies `heap
      ensures old(heap) <= heap
      ensures r.Ok? ==>
                && Loaded(b, hdr, mid.index, mid.heap, heap, used) &&
                  r.value == Final(b, hdr, |mid.heap|, mid.index)(hdr)
                && forall i: nat :: InPart(Part(heap, lo, used), i) && i in used ==> Fine(Part(heap, lo, used), i)
      ensures r.Err? ==>
                || FirstWrong(b, hdr, |mid.heap|, mid.index, r.error)
                || (Loaded(b, hdr, mid.index, mid.heap, heap, used) && r.error.Unsound?
                    && exists i: nat :: InPart(Part(heap, lo, used), i) && i in used && !Fine(Part(heap, lo, used), i))
    {
      used := {};
      var e, x;
      ghost var ks;
      e, x, ks := ReadWords(b, hdr);
      if e.Some? {
        return Err(e.value), used;
      }
      ghost var h1 := heap;
      PatchPointers(b, hdr, x, |mid.heap|, ks);
      assert mid.heap <= heap by { assert mid.heap == h1[..|mid.heap|]; }
      used := x.used;
      FirstPlace(b, hdr, |mid.heap|, x.newIndex);
      r := CheckAll(b, hdr, lo, x, mid);
    }

    /** The check, and the result. */
    method CheckAll(b: seq<Cell>, hdr: nat, lo: nat, x: Progress, ghost mid: State) returns (r: Result<Cell>)
      requires hdr < |b| && Loaded(b, hdr, mid.index, mid.heap, heap, x.used) && 0 in x.newIndex
      requires x.newIndex[0] == PlaceOf(b, hdr, |mid.heap|, hdr)
      ensures r.Ok? <==> forall i: nat :: InPart(Part(heap, lo, x.used), i) && i in x.used ==>
              Fine(Part(heap, lo, x.used), i)
      ensures r.Ok? ==> r.value == Final(b, hdr, |mid.heap|, mid.index)(hdr)
      ensures r.Err? ==> r.error.Unsound?
    {
      LoadedPayload(b, hdr, mid.index, mid.heap, heap, x.used, lo);
      var checker := new Checker(heap, lo, x.used);
      var fault, at := checker.Check();
      if fault.Some? {
        return Err(Unsound(fault.value));
      }
      assert Final(b, hdr, |mid.heap|, mid.index)(hdr) == heap[PlaceOf(b, hdr, |mid.heap|, hdr)];
      r := Ok(heap[x.newIndex[0]]);
    }
  }

  /** Nothing but the empty list: it is not put on the heap. */
  predicate Single(b: seq<Cell>) {
    HeaderEnd(b).Ok? && HeaderEnd(b).value + 1 == |b| && b[HeaderEnd(b).value] == EMPTY_LIST
  }

  /** The next pointer, put right as the table says. */
  lemma {:induction false} PatchNext(b: seq<Cell>, hdr: nat, base: nat, rd: map<Cell, nat>, h1: seq<Cell>, h: seq<Cell>,
                                     x: Progress, ks: seq<nat>, n: nat) returns (p: nat, v: Cell)
    requires hdr <= |b| && Loading(b, hdr, base, rd, |b|, h1, x, ks) && n < |ks|
    requires PatchedUpTo(Final(b, hdr, base, rd), h1, h, x.ptrs, ks, n)
    ensures n < |x.ptrs| && p == x.ptrs[n] < |h| && IsPointer(h[p]) &&
            v == WithIndex(h[p], Target(x.newIndex, hdr, h[p].index))
    ensures PatchedUpTo(Final(b, hdr, base, rd), h1, h[p := v], x.ptrs, ks, n + 1)
  {
    var k := ks[n];
    p, v := x.ptrs[n], NewCell(b, hdr, base, rd, k);
    PatchStep(b, hdr, base, rd, h1, h, x, ks, n);
    PatchTarget(b, hdr, base, rd, x.newIndex, k);
    IndexTwice(b[k], b[k].index - hdr, Target(x.newIndex, hdr, b[k].index - hdr));
  }

  lemma {:induction false} IndexTwice(c: Cell, i: nat, j: nat)
    requires IsPointer(c)
    ensures IsPointer(WithIndex(c, i)) && WithIndex(c, i).index == i && WithIndex(WithIndex(c, i), j) == WithIndex(c, j)
  {
  }

  lemma {:induction false} FirstPlace(b: seq<Cell>, hdr: nat, base: nat, newIndex: map<nat, nat>)
    requires hdr < |b| && IndexUpTo(b, hdr, base, |b|, newIndex)
    ensures 0 in newIndex && newIndex[0] == PlaceOf(b, hdr, base, hdr)
  {
    assert hdr + 0 == hdr;
    assert 0 in newIndex <==> hdr + 0 < |b| && Tagged(b, hdr, base, hdr + 0);
  }

  /** Where a pointer leads that led to the `i`-th word of the body. */
  function Target(newIndex: map<nat, nat>, hdr: nat, i: nat): nat {
    if i in newIndex then newIndex[i] else i + hdr
  }

  lemma {:induction false} PatchTarget(b: seq<Cell>, hdr: nat, base: nat, rd: map<Cell, nat>, newIndex: map<nat, nat>,
                                       k: nat)
    requires hdr <= |b| && IndexUpTo(b, hdr, base, |b|, newIndex) && NeedsPatch(b, hdr, base, k)
    ensures NewCell(b, hdr, base, rd, k) == WithIndex(b[k], Target(newIndex, hdr, b[k].index - hdr))
  {
    var i: nat := b[k].index - hdr;
    assert hdr + i == b[k].index;
    assert i in newIndex <==> hdr + i < |b| && Tagged(b, hdr, base, hdr + i);
  }
}
