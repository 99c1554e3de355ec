/** Copying a possibly cyclic term within an environment: a depth-first walk with an explicit stack,
    in which a structure met again while it is being copied is put off and patched afterwards. */
module TermCopy {
  import opened Cells
  import opened CopyGraph
  import opened GraphWalk
  import opened RationalTrees
  import opened TermEnvironment

  /** Every structure of the source fits into a block. */
  ghost predicate Fits(s: Source) {
    forall i: nat :: i < |s.heap| && i < |s.kind| && s.kind[i] == FunctorKind && s.heap[i].Con? ==>
      2 + s.heap[i].functor.arity <= BLOCK_SIZE
  }

  /** Fewer structures are left, or just as many and the same stack. */
  ghost predicate Nearer(s: Source, m: map<Cell, Cell>, w: Trail<Cell>, stack: Frames<Cell>,
                         m': map<Cell, Cell>, w': Trail<Cell>, stack': Frames<Cell>) {
    |Fresh(s, m', w')| < |Fresh(s, m, w)| || (Fresh(s, m', w') == Fresh(s, m, w) && stack' == stack)
  }

  /** The structures on the current path are those being copied. */
  ghost predicate OnPath(path: set<Cell>, w: Trail<Cell>) {
    forall c: Cell :: c.Str? ==> (c in path <==> Open(w, c))
  }

  ghost predicate AllTerms(k: seq<Kind>, temp: Frames<Cell>) {
    forall i: nat :: i < |temp| ==> IsTerm(k, temp[i].0)
  }

  lemma {:induction false} FreshIn(s: Source, m: map<Cell, Cell>, w: Trail<Cell>, c: Cell)
    requires c.Str? && IsTerm(s.kind, c) && c !in m && !Open(w, c)
    ensures |Fresh(s, m, In(w, c, 0))| < |Fresh(s, m, w)|
  {
    var f, f' := Fresh(s, m, w), Fresh(s, m, In(w, c, 0));
    assert c.index in f && c.index !in f';
    assert f == f' + {c.index};
  }

  lemma FreshOn(s: Source, m: map<Cell, Cell>, m': map<Cell, Cell>, w: Trail<Cell>, a: Cell, v: Cell)
    requires m' == m || (a.Ref? && m' == m[a := v])
    ensures Fresh(s, m', Advanced(w)) == Fresh(s, m, w)
  {
    forall d ensures Open(Advanced(w), d) <==> Open(w, d) { AdvancedOpen(w, d); }
  }

  lemma FreshOut(s: Source, m: map<Cell, Cell>, w: Trail<Cell>, v: Cell)
    requires w.In?
    ensures Fresh(s, m[w.node := v], Advanced(w.outer)) == Fresh(s, m, w)
  {
    forall d ensures Open(Advanced(w.outer), d) <==> Open(w.outer, d) { AdvancedOpen(w.outer, d); }
  }

  lemma PathOn(path: set<Cell>, w: Trail<Cell>)
    requires OnPath(path, w)
    ensures OnPath(path, Advanced(w))
  {
    forall d ensures Open(Advanced(w), d) <==> Open(w, d) { AdvancedOpen(w, d); }
  }

  lemma PathOut(path: set<Cell>, w: Trail<Cell>)
    requires OnPath(path, w) && w.In? && !Open(w.outer, w.node)
    ensures OnPath(path - {w.node}, Advanced(w.outer))
  {
    forall d ensures Open(Advanced(w.outer), d) <==> Open(w.outer, d) { AdvancedOpen(w.outer, d); }
  }

  // ----- filling in a new structure -----

  /** The arguments of the new structure at `i` from `lo` on are set, the others still unbound. */
  ghost predicate SlotsSet(h1: seq<Cell>, h: seq<Cell>, i: nat, rs: Frames<Cell>, lo: nat) {
    && |h| == |h1| && i + |rs| < |h1|
    && (forall a: nat {:trigger h[a]} :: a < |h1| && !(i < a <= i + |rs|) ==> h[a] == h1[a])
    && (forall j: nat :: j < |rs| ==> SlotIs(h, i, rs, lo, j))
  }

  ghost predicate SlotIs(h: seq<Cell>, i: nat, rs: Frames<Cell>, lo: nat, j: nat)
    requires j < |rs| && i + |rs| < |h|
  {
    h[i + j + 1] == if j >= lo then rs[j].0 else Ref(i + j + 1)
  }

  /** The results are terms; variables among them are unbound and older than the structure. */
  ghost predicate Fitting(h: seq<Cell>, k: seq<Kind>, i: nat, rs: Frames<Cell>) {
    forall j: nat :: j < |rs| ==> FittingOne(h, k, i, rs[j].0)
  }

  ghost predicate FittingOne(h: seq<Cell>, k: seq<Kind>, i: nat, v: Cell) {
    IsTerm(k, v) && (v.Ref? ==> v.index < i && v.index < |h| && h[v.index] == v)
  }

  lemma SetStep(h1: seq<Cell>, h: seq<Cell>, k: seq<Kind>, i: nat, rs: Frames<Cell>, lo: nat)
    requires SlotsSet(h1, h, i, rs, lo) && 0 < lo <= |rs| && WellFormed(h, k) && Fitting(h1, k, i, rs)
    requires IsTerm(k, Str(i)) && i < |h| && h[i].Con? && h[i].functor.arity == |rs|
    ensures i + lo < |h| && SlotsSet(h1, h[i + lo := rs[lo - 1].0], i, rs, lo - 1) &&
            WellFormed(h[i + lo := rs[lo - 1].0], k)
  {
    var v := rs[lo - 1].0;
    assert FittingOne(h1, k, i, v);
    ArgIsTerm(h, k, i, lo - 1);
    assert SlotIs(h, i, rs, lo, lo - 1);
    BindWellFormed(h, k, i + lo, v);
    var h' := h[i + lo := v];
    var below: nat := lo - 1;
    forall j: nat | j < |rs| ensures SlotIs(h', i, rs, below, j) {
      assert SlotIs(h, i, rs, lo, j);
    }
  }

  /** As `Adds`, for the results from `lo` on. */
  ghost predicate AddsFrom(cyc: seq<(Cell, nat)>, cyc': seq<(Cell, nat)>, v: Cell, rs: Frames<Cell>, lo: nat) {
    && cyc <= cyc'
    && (forall p: nat :: |cyc| <= p < |cyc'| ==> cyc'[p].0 == v && lo <= cyc'[p].1 < |rs| && rs[cyc'[p].1].1)
    && (forall j: nat :: lo <= j < |rs| && rs[j].1 ==> (v, j) in cyc')
    && (forall p: nat, q: nat :: |cyc| <= p < q < |cyc'| ==> cyc'[p] != cyc'[q])
  }

  lemma AddsStep(cyc: seq<(Cell, nat)>, cyc': seq<(Cell, nat)>, v: Cell, rs: Frames<Cell>, lo: nat)
    requires AddsFrom(cyc, cyc', v, rs, lo) && 0 < lo <= |rs|
    ensures AddsFrom(cyc, if rs[lo - 1].1 then cyc' + [(v, lo - 1)] else cyc', v, rs, lo - 1)
  {
  }

  lemma ResultsFit(s: Source, h: seq<Cell>, k: seq<Kind>, m: map<Cell, Cell>, share: bool, h1: seq<Cell>, k1: seq<Kind>,
                   i: nat, kids: seq<Cell>, rs: Frames<Cell>)
    requires Good(s) && s.heap <= h <= h1 && s.kind <= k <= k1 && |h| == |k| && |h| <= i && Mapped(s, h, k, m) &&
             AllTerms(k, rs)
    requires |rs| == |kids| && forall j: nat :: j < |rs| ==> Result(s, h, m, share, kids[j], rs[j])
    ensures Fitting(h1, k1, i, rs)
  {
    forall j: nat | j < |rs| ensures FittingOne(h1, k1, i, rs[j].0) {
      assert Result(s, h, m, share, kids[j], rs[j]);
      if kids[j].Ref? { assert MappedOne(s, h, k, kids[j], m[kids[j]]); }
      if kids[j].Str? && !rs[j].1 { assert MappedOne(s, h, k, kids[j], m[kids[j]]); }
    }
  }

  /** A filled structure behind the old heap. */
  lemma Filled(h: seq<Cell>, h1: seq<Cell>, h2: seq<Cell>, i: nat, rs: Frames<Cell>)
    requires h <= h1 && |h| <= i && SlotsSet(h1, h2, i, rs, 0)
    ensures h <= h2 && h2[i] == h1[i] && forall j: nat :: j < |rs| ==> Arg(h2, i, j) == rs[j].0
  {
    forall j: nat | j < |rs| ensures Arg(h2, i, j) == rs[j].0 {
      assert SlotIs(h2, i, rs, 0, j);
    }
  }

  // ----- the state of a copy, and its steps -----

  datatype CopyState = CopyState(heap: seq<Cell>, kind: seq<Kind>, temp: Frames<Cell>, m: map<Cell, Cell>,
                                 path: set<Cell>, cyc: seq<(Cell, nat)>)

  /** The copy so far, with the structures of `w` being copied; only the stack is left to say. */
  ghost predicate Copying(s: Source, share: bool, t: CopyState, w: Trail<Cell>) {
    && Good(s) && Fits(s) && Building(s, t.heap, t.kind, t.m, share, t.cyc)
    && Walking(s, t.heap, t.m, share, w, t.temp) && OnPath(t.path, w) && AllTerms(t.kind, t.temp)
  }

  ghost predicate Stacked(s: Source, w: Trail<Cell>, stack: Frames<Cell>) {
    Good(s) && Nested(GraphOf(s), w) && stack == Flatten(GraphOf(s), w)
  }

  /** `c` is next, and has been taken off the stack. */
  ghost predicate NextUp(s: Source, w: Trail<Cell>, stack: Frames<Cell>, c: Cell) {
    Good(s) && Nested(GraphOf(s), w) && Next(GraphOf(s), w, c) && stack == Below(GraphOf(s), w)
  }

  /** The structure `c` has all its arguments done, and has been taken off the stack. */
  ghost predicate DoneUp(s: Source, w: Trail<Cell>, stack: Frames<Cell>, c: Cell) {
    && Good(s) && Nested(GraphOf(s), w) && w.In? && w.node == c && w.k == |Todo(GraphOf(s), w)|
    && stack == Below(GraphOf(s), w.outer)
  }

  lemma MoreTerms(k: seq<Kind>, k': seq<Kind>, temp: Frames<Cell>, r: (Cell, bool))
    requires k <= k' && AllTerms(k, temp) && IsTerm(k', r.0)
    ensures AllTerms(k', temp + [r])
  {
  }

  /** An argument is done without a copy of its own, or with a new bignum. */
  lemma {:induction false} StepSame(s: Source, share: bool, t: CopyState, t': CopyState, w: Trail<Cell>,
                                    stack: Frames<Cell>, a: Cell,
                                    r: (Cell, bool))
    requires Copying(s, share, t, w) && NextUp(s, w, stack, a)
    requires t.heap <= t'.heap && t.kind <= t'.kind && WellFormed(t'.heap, t'.kind)
    requires t'.temp == t.temp + [r] && t'.m == t.m && t'.cyc == t.cyc && OnPath(t'.path, w)
    requires Result(s, t'.heap, t.m, share, a, r) && (r.1 ==> Open(w, a)) && IsTerm(t'.kind, r.0)
    ensures Copying(s, share, t', Advanced(w)) && Stacked(s, Advanced(w), stack)
    ensures Fresh(s, t'.m, Advanced(w)) == Fresh(s, t.m, w)
  {
    BuildingGrows(s, t.heap, t.kind, t'.heap, t'.kind, t.m, share, t.cyc);
    WalkOn(s, t.heap, t'.heap, t.m, t.m, share, w, t.temp, a, r);
    FreshOn(s, t.m, t.m, w, a, r.0);
    PathOn(t'.path, w);
    MoreTerms(t.kind, t'.kind, t.temp, r);
  }

  /** A variable has a new one. */
  lemma StepVariable(s: Source, share: bool, t: CopyState, t': CopyState, w: Trail<Cell>, stack: Frames<Cell>, c: Cell,
                     v: Cell)
    requires Copying(s, share, t, w) && NextUp(s, w, stack, c) && c.Ref? && c !in t.m
    requires t.heap <= t'.heap && t.kind <= t'.kind && WellFormed(t'.heap, t'.kind)
    requires v.Ref? && |t.heap| <= v.index < |t'.heap| && t'.heap[v.index] == v && IsTerm(t'.kind, v)
    requires t'.temp == t.temp + [(v, false)] && t'.m == t.m[c := v] && t'.cyc == t.cyc && t'.path == t.path
    ensures Copying(s, share, t', Advanced(w)) && Stacked(s, Advanced(w), stack)
    ensures Fresh(s, t'.m, Advanced(w)) == Fresh(s, t.m, w)
  {
    NextIn(s, t.m, w, c);
    BuildingVariable(s, t.heap, t.kind, t'.heap, t'.kind, t.m, share, t.cyc, c, v);
    WalkOn(s, t.heap, t'.heap, t.m, t'.m, share, w, t.temp, c, (v, false));
    FreshOn(s, t.m, t'.m, w, c, v);
    PathOn(t'.path, w);
    MoreTerms(t.kind, t'.kind, t.temp, (v, false));
  }

  /** A structure is entered: it and its arguments are on the stack. */
  lemma StepEnter(s: Source, share: bool, t: CopyState, t': CopyState, w: Trail<Cell>, stack: Frames<Cell>, c: Cell)
    requires Copying(s, share, t, w) && NextUp(s, w, stack, c)
    requires c.Str? && c !in t.m && c !in t.path && t' == t.(path := t.path + {c})
    ensures IsTerm(s.kind, c)
    ensures Copying(s, share, t', In(w, c, 0)) && Stacked(s, In(w, c, 0), stack + [(c, true)] + Pending(Kids(s, c), 0))
    ensures |Fresh(s, t'.m, In(w, c, 0))| < |Fresh(s, t.m, w)|
  {
    WalkIn(s, t.heap, t.m, share, w, t.temp, c);
    FreshIn(s, t.m, w, c);
    assert OnPath(t'.path, In(w, c, 0));
  }

  /** A structure is left: it has a new one, filled with the results of its arguments. */
  /** The results that the structure about to be left is made of. */
  lemma {:induction false} BeforeLeaving(s: Source, share: bool, t: CopyState, w: Trail<Cell>, stack: Frames<Cell>,
                                         c: Cell) returns (rest: Frames<Cell>, rs: Frames<Cell>)
    requires Copying(s, share, t, w) && DoneUp(s, w, stack, c)
    ensures w.In? && w.node == c && OutOf(s, t.heap, t.m, share, c, t.temp) && c.Str? && IsTerm(s.kind, c)
    ensures t.temp == rest + rs && |rs| == w.k == |Kids(s, c)| && AllTerms(t.kind, rs)
    ensures forall j: nat :: j < |rs| ==> Result(s, t.heap, t.m, share, Kids(s, c)[j], rs[j])
  {
    Leaving(s, t.heap, t.m, share, w, t.temp);
    rest, rs := LastOf(t.kind, t.temp, w.k);
    LastResults(s, t.heap, t.m, share, Kids(s, c), rest, rs);
  }

  lemma {:induction false} LastOf(k: seq<Kind>, temp: Frames<Cell>, n: nat)
    returns (rest: Frames<Cell>, rs: Frames<Cell>)
    requires n <= |temp| && AllTerms(k, temp)
    ensures temp == rest + rs && |rs| == n && AllTerms(k, rs)
  {
    rest, rs := temp[..|temp| - n], temp[|temp| - n..];
    forall j: nat | j < n ensures IsTerm(k, rs[j].0) { assert rs[j] == temp[|rest| + j]; }
  }

  lemma StepLeave(s: Source, share: bool, t: CopyState, t': CopyState, w: Trail<Cell>, stack: Frames<Cell>, v: Cell,
                  rest: Frames<Cell>, rs: Frames<Cell>)
    requires Copying(s, share, t, w) && w.In? && DoneUp(s, w, stack, w.node)
    requires OutOf(s, t.heap, t.m, share, w.node, t.temp) && t.temp == rest + rs && |rs| == w.k == |Kids(s, w.node)|
    requires t.heap <= t'.heap && t.kind <= t'.kind && WellFormed(t'.heap, t'.kind)
    requires v.Str? && MappedOne(s, t'.heap, t'.kind, w.node, v) && |t.heap| <= v.index
    requires Adds(t.cyc, t'.cyc, v, rs) && forall i: nat :: i < |rs| ==> Arg(t'.heap, v.index, i) == rs[i].0
    requires t'.temp == rest + [(v, false)] && t'.m == t.m[w.node := v] && t'.path == t.path - {w.node}
    ensures Copying(s, share, t', Advanced(w.outer)) && Stacked(s, Advanced(w.outer), stack)
    ensures Fresh(s, t'.m, Advanced(w.outer)) == Fresh(s, t.m, w)
  {
    LeaveBuilt(s, share, t, t', w.node, v, rest, rs);
    LeaveWalked(s, share, t, t'.heap, w, stack, v, rest, rs);
    LeaveOpen(s, t.m, t.path, w, v);
    assert AllTerms(t.kind, rest) by { assert forall i: nat :: i < |rest| ==> rest[i] == t.temp[i]; }
    MoreTerms(t.kind, t'.kind, rest, (v, false));
  }

  lemma {:induction false} LeaveOpen(s: Source, m: map<Cell, Cell>, path: set<Cell>, w: Trail<Cell>, v: Cell)
    requires Good(s) && Nested(GraphOf(s), w) && w.In? && OnPath(path, w)
    ensures OnPath(path - {w.node}, Advanced(w.outer)) && Fresh(s, m[w.node := v], Advanced(w.outer)) == Fresh(s, m, w)
  {
    FreshOut(s, m, w, v);
    PathOut(path, w);
  }

  lemma LeaveWalked(s: Source, share: bool, t: CopyState, h': seq<Cell>, w: Trail<Cell>, stack: Frames<Cell>, v: Cell,
                    rest: Frames<Cell>, rs: Frames<Cell>)
    requires Good(s) && Walking(s, t.heap, t.m, share, w, t.temp) && t.heap <= h'
    requires w.In? && DoneUp(s, w, stack, w.node) && t.temp == rest + rs && |rs| == w.k
    ensures Walking(s, h', t.m[w.node := v], share, Advanced(w.outer), rest + [(v, false)])
    ensures Stacked(s, Advanced(w.outer), stack)
  {
    assert t.temp[..|t.temp| - w.k] == rest;
    WalkOut(s, t.heap, h', t.m, share, w, t.temp, v);
  }

  lemma LeaveBuilt(s: Source, share: bool, t: CopyState, t': CopyState, c: Cell, v: Cell, rest: Frames<Cell>,
                   rs: Frames<Cell>)
    requires Good(s) && Building(s, t.heap, t.kind, t.m, share, t.cyc)
    requires OutOf(s, t.heap, t.m, share, c, t.temp) && t.temp == rest + rs && |rs| == |Kids(s, c)|
    requires t.heap <= t'.heap && t.kind <= t'.kind && WellFormed(t'.heap, t'.kind)
    requires v.Str? && MappedOne(s, t'.heap, t'.kind, c, v) && |t.heap| <= v.index
    requires Adds(t.cyc, t'.cyc, v, rs) && forall i: nat :: i < |rs| ==> Arg(t'.heap, v.index, i) == rs[i].0
    ensures Building(s, t'.heap, t'.kind, t.m[c := v], share, t'.cyc)
  {
    LastResults(s, t.heap, t.m, share, Kids(s, c), rest, rs);
    BuildingStructure(s, t.heap, t.kind, t'.heap, t'.kind, t.m, share, t.cyc, t'.cyc, c, v, rs);
  }

  lemma LastResults(s: Source, h: seq<Cell>, m: map<Cell, Cell>, share: bool, kids: seq<Cell>, rest: Frames<Cell>,
                    rs: Frames<Cell>)
    requires ResultsOf(s, h, m, share, kids, rest + rs) && |rs| == |kids|
    ensures forall i: nat :: i < |rs| ==> Result(s, h, m, share, kids[i], rs[i])
  {
    var temp := rest + rs;
    forall i: nat | i < |rs| ensures Result(s, h, m, share, kids[i], rs[i]) {
      assert rs[i] == temp[|temp| - |kids| + i];
    }
  }

  class Copier {
    const env: TermEnv
    const dontCopyBig: bool
    var stack: Frames<Cell>
    var temp: Frames<Cell>
    var termMap: map<Cell, Cell>
    var path: set<Cell>
    var cyclicArgs: seq<(Cell, nat)>

    constructor (env: TermEnv, dontCopyBig: bool)
      ensures this.env == env && this.dontCopyBig == dontCopyBig
    {
      this.env, this.dontCopyBig := env, dontCopyBig;
      stack, temp, termMap, path, cyclicArgs := [], [], map[], {}, [];
    }

    ghost function State(): CopyState
      reads this, env
    {
      CopyState(env.heap, env.kind, temp, termMap, path, cyclicArgs)
    }

    /** An argument that needs no copy of its own: a constant, a structure or variable copied before,
        or a structure being copied. */
    method CopySame(a: Cell, r: (Cell, bool), ghost s: Source, ghost w: Trail<Cell>)
      requires env.Valid() && Copying(s, dontCopyBig, State(), w) && NextUp(s, w, stack, a)
      requires Result(s, env.heap, termMap, dontCopyBig, a, r) && (r.1 ==> Open(w, a)) && IsTerm(env.kind, r.0)
      modifies `temp
      ensures env.Valid() && Copying(s, dontCopyBig, State(), Advanced(w)) && Stacked(s, Advanced(w), stack)
      ensures Fresh(s, termMap, Advanced(w)) == Fresh(s, old(termMap), w)
    {
      ghost var t := State();
      temp := temp + [r];
      StepSame(s, dontCopyBig, t, State(), w, stack, a, r);
    }

    method CopyVariable(c: Cell, ghost s: Source, ghost w: Trail<Cell>)
      requires env.Valid() && Copying(s, dontCopyBig, State(), w) && NextUp(s, w, stack, c)
      requires c.Ref? && c !in termMap
      modifies `temp, `termMap, env`heap, env`kind
      ensures env.Valid() && Copying(s, dontCopyBig, State(), Advanced(w)) && Stacked(s, Advanced(w), stack)
      ensures Fresh(s, termMap, Advanced(w)) == Fresh(s, old(termMap), w)
    {
      ghost var t := State();
      var v := env.NewRef();
      termMap := termMap[c := v];
      temp := temp + [(v, false)];
      StepVariable(s, dontCopyBig, t, State(), w, stack, c, v);
    }

    method CopyBig(c: Cell, ghost s: Source, ghost w: Trail<Cell>)
      requires env.Valid() && Copying(s, dontCopyBig, State(), w) && NextUp(s, w, stack, c) && c.Big?
      requires IsTerm(s.kind, c)
      modifies `temp, `path, env`heap, env`kind
      ensures env.Valid() && Copying(s, dontCopyBig, State(), Advanced(w)) && Stacked(s, Advanced(w), stack)
      ensures Fresh(s, termMap, Advanced(w)) == Fresh(s, old(termMap), w)
    {
      ghost var t := State();
      path := path + {c};
      var newBig := c;
      if !dontCopyBig {
        newBig := NewBigLike(c);
        BigCopied(s, t.heap, env.heap, t.kind, termMap, c, newBig);
      }
      temp := temp + [(newBig, false)];
      StepSame(s, dontCopyBig, t, State(), w, stack, c, (newBig, false));
    }

    /** A new bignum with the cells of the one at `c`. */
    method NewBigLike(c: Cell) returns (newBig: Cell)
      requires env.Valid() && c.Big? && IsTerm(env.kind, c)
      modifies env`heap, env`kind
      ensures env.Valid() && old(env.heap) <= env.heap && old(env.kind) <= env.kind
      ensures newBig == Big(|old(env.heap)|) && IsTerm(env.kind, newBig)
      ensures BigData(env.heap, newBig.index) == BigData(old(env.heap), c.index) != []
      ensures SameNumber(old(env.heap), c.index, env.heap, newBig.index)
    {
      ghost var h, k := env.heap, env.kind;
      assert CellOk(h, k, c.index);
      var index := c.index;
      var n := NumCells(env.heap[index].bits);
      newBig := Big(|env.heap|);
      env.heap := env.heap + env.heap[index..index + n];
      env.kind := env.kind + [Header] + seq(n - 1, _ => Payload);
      assert env.heap[newBig.index] == h[index];
      GrowWellFormed(h, k, env.heap, env.kind);
      assert n > 0 && env.heap[newBig.index..newBig.index + n] == h[index..index + n];
      assert BigData(env.heap, newBig.index) == h[index..index + n];
      BigDataSame(h, c.index, env.heap, newBig.index);
    }

    /** Puts a structure and its arguments on the stack, the first argument on top. */
    method EnterStructure(c: Cell, ghost s: Source, ghost w: Trail<Cell>) returns (ghost w': Trail<Cell>)
      requires env.Valid() && Copying(s, dontCopyBig, State(), w) && NextUp(s, w, stack, c)
      requires c.Str? && c !in termMap && c !in path
      modifies `stack, `path
      ensures env.Valid() && Copying(s, dontCopyBig, State(), w') && Stacked(s, w', stack)
      ensures |Fresh(s, termMap, w')| < |Fresh(s, termMap, w)|
    {
      ghost var t := State();
      path := path + {c};
      StepEnter(s, dontCopyBig, t, State(), w, stack, c);
      w' := In(w, c, 0);
      PushStructure(c, s);
    }

    method PushStructure(c: Cell, ghost s: Source)
      requires Good(s) && env.Valid() && s.heap <= env.heap && s.kind <= env.kind && c.Str? && IsTerm(s.kind, c)
      modifies `stack
      ensures stack == old(stack) + [(c, true)] + Pending(Kids(s, c), 0)
    {
      stack := stack + [(c, true)];
      PushArgs(c, s);
    }

    method PushArgs(c: Cell, ghost s: Source)
      requires Good(s) && env.Valid() && s.heap <= env.heap && s.kind <= env.kind && c.Str? && IsTerm(s.kind, c)
      modifies `stack
      ensures stack == old(stack) + Pending(Kids(s, c), 0)
    {
      ghost var kids := Kids(s, c);
      var numArgs := env.heap[c.index].functor.arity;
      for i := 0 to numArgs
        invariant |kids| == numArgs
        invariant stack == old(stack) + Pending(kids, 0)[..i]
      {
        KidInGrown(s, env.heap, env.kind, c, numArgs - i - 1);
        var a := env.GetArg(c, numArgs - i - 1, env.heap);
        assert a == kids[numArgs - i - 1];
        stack := stack + [(a, false)];
      }
    }

    /** Sets the `j`-th argument of a new structure to the last result. */
    method SetNext(newStr: Cell, j: nat, ghost h1: seq<Cell>, ghost cyc: seq<(Cell, nat)>, ghost rest: Frames<Cell>,
                   ghost rs: Frames<Cell>)
      requires env.Valid() && newStr.Str? && IsTerm(env.kind, newStr) && j < |rs| && temp == rest + rs[..j + 1]
      requires env.heap[newStr.index].Con? && env.heap[newStr.index].functor.arity == |rs|
      requires SlotsSet(h1, env.heap, newStr.index, rs, j + 1) && Fitting(h1, env.kind, newStr.index, rs)
      requires AddsFrom(cyc, cyclicArgs, newStr, rs, j + 1)
      modifies `temp, `cyclicArgs, env`heap
      ensures env.Valid() && temp == rest + rs[..j]
      ensures SlotsSet(h1, env.heap, newStr.index, rs, j) && AddsFrom(cyc, cyclicArgs, newStr, rs, j)
    {
      var n := |temp| - 1;
      var (newArg, cyclic) := temp[n];
      assert temp[n] == rs[j] && temp[..n] == rest + rs[..j];
      temp := temp[..n];
      AddsStep(cyc, cyclicArgs, newStr, rs, j + 1);
      SetStep(h1, env.heap, env.kind, newStr.index, rs, j + 1);
      if cyclic {
        cyclicArgs := cyclicArgs + [(newStr, j)];
      }
      env.heap := env.heap[newStr.index + j + 1 := newArg];
    }

    /** Takes the arguments of a new structure off the results, the last one first. */
    method SetArgs(newStr: Cell, numArgs: nat, ghost rest: Frames<Cell>, ghost rs: Frames<Cell>)
      requires env.Valid() && newStr.Str? && IsTerm(env.kind, newStr) && numArgs == |rs| && temp == rest + rs
      requires env.heap[newStr.index].Con? && env.heap[newStr.index].functor.arity == |rs|
      requires SlotsSet(env.heap, env.heap, newStr.index, rs, |rs|) && Fitting(env.heap, env.kind, newStr.index, rs)
      modifies `temp, `cyclicArgs, env`heap
      ensures env.Valid() && temp == rest && SlotsSet(old(env.heap), env.heap, newStr.index, rs, 0)
      ensures AddsFrom(old(cyclicArgs), cyclicArgs, newStr, rs, 0)
    {
      ghost var h1, cyc := env.heap, cyclicArgs;
      assert rs[..numArgs] == rs;
      for i := 0 to numArgs
        invariant env.Valid() && temp == rest + rs[..numArgs - i]
        invariant env.heap[newStr.index] == h1[newStr.index]
        invariant SlotsSet(h1, env.heap, newStr.index, rs, numArgs - i)
        invariant AddsFrom(cyc, cyclicArgs, newStr, rs, numArgs - i)
      {
        SetNext(newStr, numArgs - i - 1, h1, cyc, rest, rs);
      }
    }

    /** A new structure for `c`, with the results of its arguments. */
    method FillStructure(c: Cell, ghost s: Source, ghost rest: Frames<Cell>, ghost rs: Frames<Cell>)
      returns (newStr: Cell)
      requires Good(s) && Fits(s) && env.Valid() && Building(s, env.heap, env.kind, termMap, dontCopyBig, cyclicArgs)
      requires c.Str? && IsTerm(s.kind, c) && temp == rest + rs && |rs| == |Kids(s, c)| && AllTerms(env.kind, rs)
      requires forall j: nat :: j < |rs| ==> Result(s, env.heap, termMap, dontCopyBig, Kids(s, c)[j], rs[j])
      modifies `temp, `cyclicArgs, env`heap, env`kind
      ensures env.Valid() && old(env.heap) <= env.heap && old(env.kind) <= env.kind && temp == rest
      ensures newStr.Str? && |old(env.heap)| <= newStr.index && MappedOne(s, env.heap, env.kind, c, newStr)
      ensures Adds(old(cyclicArgs), cyclicArgs, newStr, rs)
      ensures forall j: nat :: j < |rs| ==> Arg(env.heap, newStr.index, j) == rs[j].0
    {
      ghost var h, k := env.heap, env.kind;
      assert CellOk(s.heap, s.kind, c.index);
      var f := env.heap[c.index].functor;
      newStr := env.NewStr(f);
      ghost var h1 := env.heap;
      assert CellOk(h1, env.kind, newStr.index);
      forall j: nat | j < |rs| ensures SlotIs(h1, newStr.index, rs, |rs|, j) {
        assert Arg(h1, newStr.index, j) == Ref(newStr.index + j + 1);
      }
      ResultsFit(s, h, k, termMap, dontCopyBig, h1, env.kind, newStr.index, Kids(s, c), rs);
      SetArgs(newStr, f.arity, rest, rs);
      Filled(h, h1, env.heap, newStr.index, rs);
    }

    /** The arguments of a structure are done: it is copied, and takes their place. */
    method LeaveStructure(c: Cell, ghost s: Source, ghost w: Trail<Cell>)
      requires env.Valid() && Copying(s, dontCopyBig, State(), w) && DoneUp(s, w, stack, c)
      modifies `temp, `cyclicArgs, `termMap, `path, env`heap, env`kind
      ensures env.Valid() && Copying(s, dontCopyBig, State(), Advanced(w.outer)) && Stacked(s, Advanced(w.outer), stack)
      ensures Fresh(s, termMap, Advanced(w.outer)) == Fresh(s, old(termMap), w)
    {
      ghost var t := State();
      ghost var rest, rs := BeforeLeaving(s, dontCopyBig, t, w, stack, c);
      var newStr := FillStructure(c, s, rest, rs);
      termMap := termMap[c := newStr];
      temp := temp + [(newStr, false)];
      path := path - {c};
      StepLeave(s, dontCopyBig, t, State(), w, stack, newStr, rest, rs);
    }

    /** One round of the walk. */
    method CopyNext(ghost s: Source, ghost w: Trail<Cell>) returns (ghost w': Trail<Cell>)
      requires env.Valid() && Copying(s, dontCopyBig, State(), w) && Stacked(s, w, stack) && stack != []
      modifies this, env`heap, env`kind
      ensures env.Valid() && Copying(s, dontCopyBig, State(), w') && Stacked(s, w', stack)
      ensures |Fresh(s, termMap, w')| < |Fresh(s, old(termMap), w)|
           || (Fresh(s, termMap, w') == Fresh(s, old(termMap), w) && |stack| < |old(stack)|)
    {
      var n := |stack| - 1;
      var (c, processed) := stack[n];
      ghost var t := State();
      TopIs(s, dontCopyBig, t, w, stack);
      stack := stack[..n];
      assert State() == t;
      if processed {
        LeaveStructure(c, s, w);
        w' := Advanced(w.outer);
      } else {
        w' := CopyTop(c, s, w);
      }
    }

    /** An argument taken off the stack.  (A structure with its arguments done, above, was not copied
        before, and is not an argument met again: the tests for these come to nothing for it.) */
    method CopyTop(c: Cell, ghost s: Source, ghost w: Trail<Cell>) returns (ghost w': Trail<Cell>)
      requires env.Valid() && Copying(s, dontCopyBig, State(), w) && NextUp(s, w, stack, c)
      modifies this, env`heap, env`kind
      ensures env.Valid() && Copying(s, dontCopyBig, State(), w') && Stacked(s, w', stack)
      ensures Nearer(s, old(termMap), w, old(stack), termMap, w', stack)
    {
      NextIn(s, termMap, w, c);
      w' := Advanced(w);
      if c in termMap {
        MappedImage(s, env.heap, env.kind, termMap, dontCopyBig, c);
        CopySame(c, (termMap[c], false), s, w);
      } else if c.Str? && c in path {
        CopySame(c, (c, true), s, w);
      } else if c.Ref? {
        CopyVariable(c, s, w);
      } else if c.Con? || c.Int? {
        CopySame(c, (c, false), s, w);
      } else if c.Big? {
        CopyBig(c, s, w);
      } else {
        w' := EnterStructure(c, s, w);
      }
    }

    /** Replaces one argument that was put off. */
    method PatchOne(j: nat, ghost s: Source, ghost h: seq<Cell>)
      requires env.Valid() && Places(h, env.kind, termMap, cyclicArgs) && j < |cyclicArgs|
      requires Patched(s, h, env.heap, termMap, cyclicArgs, j)
      modifies env`heap
      ensures env.Valid() && Patched(s, h, env.heap, termMap, cyclicArgs, j + 1)
    {
      var (str, argIndex) := cyclicArgs[j];
      ghost var place, v := PatchStep(s, h, env.heap, env.kind, termMap, cyclicArgs, j);
      assert place == str.index + argIndex + 1;
      var oldArg := env.heap[str.index + argIndex + 1];
      var newArg := termMap[oldArg];
      env.heap := env.heap[str.index + argIndex + 1 := newArg];
    }

    /** Replaces the arguments that were put off. */
    method PatchCyclic(ghost s: Source)
      requires env.Valid() && Places(env.heap, env.kind, termMap, cyclicArgs)
      modifies env`heap
      ensures env.Valid() && Patched(s, old(env.heap), env.heap, termMap, cyclicArgs, |cyclicArgs|)
    {
      ghost var h := env.heap;
      for j := 0 to |cyclicArgs|
        invariant env.Valid() && Patched(s, h, env.heap, termMap, cyclicArgs, j)
      {
        PatchOne(j, s, h);
      }
    }

    method WalkAll(ghost s: Source, ghost w0: Trail<Cell>) returns (ghost w: Trail<Cell>)
      requires env.Valid() && Copying(s, dontCopyBig, State(), w0) && Stacked(s, w0, stack)
      modifies this, env`heap, env`kind
      ensures env.Valid() && Copying(s, dontCopyBig, State(), w) && Stacked(s, w, stack) && stack == []
    {
      w := w0;
      while |stack| > 0
        invariant env.Valid() && Copying(s, dontCopyBig, State(), w) && Stacked(s, w, stack)
        decreases |Fresh(s, termMap, w)|, |stack|
      {
        w := CopyNext(s, w);
      }
    }

    /** The walk from a dereferenced root. */
    method Walk(root: Cell, ghost s: Source)
      requires env.Valid() && Good(s) && Fits(s) && s == Source(env.heap, env.kind, root)
      modifies this, env`heap, env`kind
      ensures env.Valid() && Ended(s, dontCopyBig, State())
    {
      temp, termMap, path, cyclicArgs := [], map[], {}, [];
      stack := [(root, false)];
      ghost var w := StartCopy(s, dontCopyBig, State(), stack);
      w := WalkAll(s, w);
      EndCopy(s, dontCopyBig, State(), w, stack);
    }

    /** What the walk leaves is patched, and the one result taken off. */
    method Complete(ghost s: Source) returns (result: Cell)
      requires env.Valid() && Ended(s, dontCopyBig, State())
      modifies `temp, env`heap
      ensures env.Valid() && Copied(s, env.heap, env.kind, termMap, dontCopyBig, result) && IsTerm(env.kind, result)
    {
      ghost var t := State();
      EndedPlaces(s, dontCopyBig, t);
      PatchCyclic(s);
      result := temp[|temp| - 1].0;
      EndedCopy(s, dontCopyBig, t, env.heap, result);
      temp := temp[..|temp| - 1];
    }

    /** Copies a term: see `Copied`.  The environment only grows. */
    method Copy(c: Cell, ghost s: Source) returns (result: Cell)
      requires env.Valid() && IsTerm(env.kind, c)
      requires s == Source(env.heap, env.kind, Value(env.heap, env.kind, c)) && Good(s) && Fits(s)
      modifies this, env`heap, env`kind
      ensures env.Valid() && Copied(s, env.heap, env.kind, termMap, dontCopyBig, result) && IsTerm(env.kind, result)
      ensures Step(old(env.Snap()), env.Snap())
    {
      var root := env.Deref(c, env.heap);
      Walk(root, s);
      result := Complete(s);
    }
  }

  /** What the top of the stack is: a structure with its arguments done, or an argument. */
  lemma TopIs(s: Source, share: bool, t: CopyState, w: Trail<Cell>, stack: Frames<Cell>)
    requires Copying(s, share, t, w) && Stacked(s, w, stack) && stack != []
    ensures var n := |stack| - 1;
            if stack[n].1 then DoneUp(s, w, stack[..n], stack[n].0) else NextUp(s, w, stack[..n], stack[n].0)
  {
    PopOf(GraphOf(s), w, stack);
  }

  lemma MappedImage(s: Source, h: seq<Cell>, k: seq<Kind>, m: map<Cell, Cell>, share: bool, c: Cell)
    requires Good(s) && Mapped(s, h, k, m) && c in m
    ensures Image(s, h, m, share, c, m[c]) && IsTerm(k, m[c])
  {
    assert MappedOne(s, h, k, c, m[c]);
  }

  lemma StartCopy(s: Source, share: bool, t: CopyState, stack: Frames<Cell>) returns (w: Trail<Cell>)
    requires Good(s) && Fits(s) && t == CopyState(s.heap, s.kind, [], map[], {}, []) && stack == [(s.root, false)]
    ensures Copying(s, share, t, w) && Stacked(s, w, stack)
  {
    w := Top(0);
    assert Building(s, t.heap, t.kind, t.m, share, t.cyc);
    assert Followed(s, t.m, w, t.temp) && Reached(s, t.m, w);
    assert Pending([s.root], 0) == [(s.root, false)];
  }

  /** All is copied but for what was put off. */
  ghost predicate Ended(s: Source, share: bool, t: CopyState) {
    && Good(s) && Building(s, t.heap, t.kind, t.m, share, t.cyc) && Ready(s, t.m) && Reached(s, t.m, Top(1))
    && t.temp != [] && IsTerm(t.kind, t.temp[|t.temp| - 1].0)
    && Image(s, t.heap, t.m, share, s.root, t.temp[|t.temp| - 1].0)
  }

  /** When the stack is empty that is so. */
  lemma EndCopy(s: Source, share: bool, t: CopyState, w: Trail<Cell>, stack: Frames<Cell>)
    requires Copying(s, share, t, w) && Stacked(s, w, stack) && stack == []
    ensures Ended(s, share, t)
  {
    Finished(GraphOf(s), Results(s, t.heap, t.m, share), w, t.temp);
    assert Result(s, t.heap, t.m, share, s.root, t.temp[0]);
  }

  lemma EndedPlaces(s: Source, share: bool, t: CopyState)
    requires Ended(s, share, t)
    ensures Places(t.heap, t.kind, t.m, t.cyc)
  {
    PutOffPlaces(s, t.heap, t.kind, t.m, share, t.cyc);
  }

  lemma EndedCopy(s: Source, share: bool, t: CopyState, h': seq<Cell>, result: Cell)
    requires Ended(s, share, t) && WellFormed(h', t.kind) && result == t.temp[|t.temp| - 1].0
    requires Places(t.heap, t.kind, t.m, t.cyc) && Patched(s, t.heap, h', t.m, t.cyc, |t.cyc|)
    ensures Copied(s, h', t.kind, t.m, share, result) && IsTerm(t.kind, result)
  {
    CopyDone(s, t.heap, h', t.kind, t.m, share, t.cyc, result);
  }

  /** Dereferencing an old term is not affected by what is new. */
  /** An argument in the grown heap. */
  lemma {:induction false} KidInGrown(s: Source, h: seq<Cell>, k: seq<Kind>, c: Cell, i: nat)
    requires Good(s) && WellFormed(h, k) && s.heap <= h && s.kind <= k && c.Str? && IsTerm(s.kind, c)
    requires i < |Kids(s, c)|
    ensures IsTerm(k, c) && h[c.index] == s.heap[c.index] && IsTerm(k, Arg(h, c.index, i))
    ensures Value(h, k, Arg(h, c.index, i)) == Kids(s, c)[i]
  {
    ArgIsTerm(s.heap, s.kind, c.index, i);
    ValueInGrown(s, h, k, Arg(s.heap, c.index, i));
  }

  lemma ValueInGrown(s: Source, h: seq<Cell>, k: seq<Kind>, c: Cell)
    requires Good(s) && WellFormed(h, k) && s.heap <= h && s.kind <= k && IsTerm(s.kind, c)
    ensures Value(h, k, c) == Value(s.heap, s.kind, c)
  {
    TermEnds(s.heap, s.kind, c);
    var n: nat :| Ends(s.heap, c, n);
    DerefInGrown(s.heap, h, c, n);
    GrowEnds(s.heap, h, c, n);
    DerefValue(s.heap, c, n);
    DerefValue(h, c, n);
  }

  lemma {:induction false} DerefInGrown(h: seq<Cell>, h': seq<Cell>, c: Cell, n: nat)
    requires h <= h' && Ends(h, c, n)
    ensures Ends(h', c, n) && DerefWithin(h', c, n) == DerefWithin(h, c, n)
    decreases n
  {
    GrowEnds(h, h', c, n);
    if c.Ref? && h[c.index] != c {
      DerefInGrown(h, h', h[c.index], n - 1);
    }
  }

  lemma BigCopied(s: Source, h: seq<Cell>, h': seq<Cell>, k: seq<Kind>, m: map<Cell, Cell>, c: Cell, v: Cell)
    requires Good(s) && s.heap <= h && s.kind <= k && |h| == |k| && c.Big? && IsTerm(s.kind, c)
    requires v.Big? && v.index == |h| && BigData(h', v.index) == BigData(h, c.index) != []
    ensures Image(s, h', m, false, c, v)
  {
    SharedBig(s, h, k, c);
  }
}
