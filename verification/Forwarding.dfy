/** The state of a unification in progress, and why each of its steps is right.

    While two terms are being unified, some functor cells are overwritten by FWD
    cells that lead to the functor cell of another structure; following FWD cells
    finds the representative of a class of structures.  The trail of overwritten
    addresses is in the order of writing: a FWD cell leads to a functor cell that
    was not forwarded yet, which makes the classes trees and lets the cells be
    restored last first. */
module Forwarding {
  import opened Cells
  import opened RationalTrees

  /** `bound`: the heap with the bindings made so far but with no FWD cell;
      `heap`: the heap as it is; `fwds`: the overwritten functor cells, oldest first;
      `todo`: the pairs still to be unified, the next one last. */
  datatype State = State(bound: seq<Cell>, heap: seq<Cell>, fwds: seq<nat>, todo: seq<(Cell, Cell)>)

  ghost predicate FwdOk(g: seq<Cell>, h: seq<Cell>, k: seq<Kind>, fwds: seq<nat>, p: nat)
    requires p < |fwds| && |g| == |h| == |k|
  {
    var i := fwds[p];
    && i < |g| && k[i] == FunctorKind && h[i].Fwd?
    && h[i].index < |g| && k[h[i].index] == FunctorKind && g[h[i].index] == g[i]
    && h[i].index !in fwds[..p + 1] && i !in fwds[..p]
  }

  /** `h` is `g` with the functor cells in `fwds` forwarded. */
  ghost predicate Overlay(g: seq<Cell>, h: seq<Cell>, k: seq<Kind>, fwds: seq<nat>) {
    && |g| == |h| == |k|
    && (forall i: nat :: i < |g| && i !in fwds ==> h[i] == g[i])
    && (forall p: nat :: p < |fwds| ==> FwdOk(g, h, k, fwds, p))
  }

  lemma ForwardedIffFwd(g: seq<Cell>, h: seq<Cell>, k: seq<Kind>, fwds: seq<nat>, i: nat)
    requires Shaped(g, k) && Overlay(g, h, k, fwds) && IsTerm(k, Str(i))
    ensures i in fwds <==> h[i].Fwd?
    ensures i !in fwds ==> h[i] == g[i] && h[i].Con?
  {
    assert CellOk(g, k, i);
    forall p: nat | p < |fwds| ensures fwds[p] < |h| && h[fwds[p]].Fwd? {
      assert FwdOk(g, h, k, fwds, p);
    }
  }

  // ----- what a relation on cells may contain -----

  ghost predicate EdgesIn(h: seq<Cell>, fwds: seq<nat>, q: Rel) {
    forall i: nat :: i in fwds && i < |h| && h[i].Fwd? ==> (Str(i), Str(h[i].index)) in q
  }

  ghost predicate EdgeArgsIn(g: seq<Cell>, h: seq<Cell>, fwds: seq<nat>, q: Rel) {
    forall i: nat :: i in fwds && i < |h| && i < |g| && h[i].Fwd? && g[i].Con? ==>
      ArgsIn(g, q, i, h[i].index, g[i].functor.arity)
  }

  ghost predicate PairsIn(todo: seq<(Cell, Cell)>, q: Rel) {
    forall p :: p in todo ==> p in q
  }

  ghost predicate NumbersIn(g: seq<Cell>, k: seq<Kind>, q: Rel) {
    forall i: nat, j: nat :: IsTerm(k, Big(i)) && IsTerm(k, Big(j)) && BigData(g, i) == BigData(g, j) ==>
      (Big(i), Big(j)) in q
  }

  /** `q` contains all that is already decided, and all that is still to be done. */
  ghost predicate Covers(k: seq<Kind>, s: State, q: Rel) {
    && Equivalence(q)
    && FollowsRefs(s.bound, k, q)
    && NumbersIn(s.bound, k, q)
    && EdgesIn(s.heap, s.fwds, q)
    && PairsIn(s.todo, q)
  }

  /** Nothing is lost: the equation and the arguments of forwarded structures follow
      from what is decided and what is still to be done. */
  ghost predicate Sound(k: seq<Kind>, a: Cell, b: Cell, s: State) {
    forall q: Rel :: Covers(k, s, q) ==> (a, b) in q && EdgeArgsIn(s.bound, s.heap, s.fwds, q)
  }

  /** Nothing is invented: every solution of the equation on the initial heap contains
      all that is decided and all that is still to be done. */
  ghost predicate General(h0: seq<Cell>, k: seq<Kind>, a: Cell, b: Cell, s: State) {
    forall r: Rel :: Congruence(h0, k, r) && (a, b) in r ==>
      FollowsRefs(s.bound, k, r) && EdgesIn(s.heap, s.fwds, r) && PairsIn(s.todo, r)
  }

  ghost predicate TodoOk(k: seq<Kind>, todo: seq<(Cell, Cell)>) {
    forall p :: p in todo ==> IsTerm(k, p.0) && IsTerm(k, p.1)
  }

  ghost predicate Inv(h0: seq<Cell>, k: seq<Kind>, a: Cell, b: Cell, s: State) {
    && WellFormed(h0, k) && IsTerm(k, a) && IsTerm(k, b)
    && WellFormed(s.bound, k)
    && Binds(h0, s.bound, k)
    && Overlay(s.bound, s.heap, k, s.fwds)
    && TodoOk(k, s.todo)
    && Sound(k, a, b, s)
    && General(h0, k, a, b, s)
  }

  // ----- following FWD cells -----

  /** What an equivalence that contains every FWD edge says of a class of structures. */
  ghost predicate Linked(s: State, i: nat, j: nat) {
    && i < |s.bound| && j < |s.bound| && s.bound[i].Con? && s.bound[i] == s.bound[j]
    && (forall q: Rel :: Equivalence(q) && EdgesIn(s.heap, s.fwds, q) ==> (Str(i), Str(j)) in q)
    && (forall q: Rel :: Equivalence(q) && EdgeArgsIn(s.bound, s.heap, s.fwds, q) ==>
          ArgsIn(s.bound, q, i, j, s.bound[i].functor.arity))
  }

  lemma LinkedRefl(k: seq<Kind>, s: State, i: nat)
    requires Shaped(s.bound, k) && IsTerm(k, Str(i))
    ensures Linked(s, i, i)
  {
    assert CellOk(s.bound, k, i);
  }

  lemma LinkedStep(k: seq<Kind>, s: State, i: nat, j: nat)
    requires Shaped(s.bound, k) && Overlay(s.bound, s.heap, k, s.fwds)
    requires Linked(s, i, j) && j in s.fwds
    ensures s.heap[j].Fwd?
    ensures Linked(s, i, s.heap[j].index)
  {
    var p: nat :| p < |s.fwds| && s.fwds[p] == j;
    assert FwdOk(s.bound, s.heap, k, s.fwds, p);
    var n := s.heap[j].index;
    forall q: Rel | Equivalence(q) && EdgesIn(s.heap, s.fwds, q) ensures (Str(i), Str(n)) in q {
      assert (Str(j), Str(n)) in q;
    }
    forall q: Rel | Equivalence(q) && EdgeArgsIn(s.bound, s.heap, s.fwds, q)
      ensures ArgsIn(s.bound, q, i, n, s.bound[i].functor.arity)
    {
      assert ArgsIn(s.bound, q, j, n, s.bound[i].functor.arity);
      ArgsTransitive(s.bound, q, i, j, n, s.bound[i].functor.arity);
    }
  }

  lemma ArgsTransitive(g: seq<Cell>, q: Rel, i: nat, j: nat, l: nat, arity: nat)
    requires Equivalence(q) && ArgsIn(g, q, i, j, arity) && ArgsIn(g, q, j, l, arity)
    ensures ArgsIn(g, q, i, l, arity)
  {
    forall m: nat | m < arity ensures (Arg(g, i, m), Arg(g, l, m)) in q {
      assert (Arg(g, i, m), Arg(g, j, m)) in q && (Arg(g, j, m), Arg(g, l, m)) in q;
    }
  }

  // ----- the steps -----

  /** The next pair, dereferenced. */
  ghost function Next(k: seq<Kind>, s: State): (p: (Cell, Cell))
    requires WellFormed(s.bound, k) && TodoOk(k, s.todo) && s.todo != []
    ensures IsTerm(k, p.0) && IsTerm(k, p.1)
  {
    var t := s.todo[|s.todo| - 1];
    assert t in s.todo;
    (Value(s.bound, k, t.0), Value(s.bound, k, t.1))
  }

  ghost function Rest(s: State): State
    requires s.todo != []
  {
    s.(todo := s.todo[..|s.todo| - 1])
  }

  /** A relation that follows bound variables contains a pair when it contains its
      dereference, and conversely. */
  lemma PairIffNext(k: seq<Kind>, s: State, q: Rel)
    requires WellFormed(s.bound, k) && TodoOk(k, s.todo) && s.todo != []
    requires Equivalence(q) && FollowsRefs(s.bound, k, q)
    ensures s.todo[|s.todo| - 1] in q <==> Next(k, s) in q
  {
    var t := s.todo[|s.todo| - 1];
    assert t in s.todo;
    RelatesDeref(s.bound, k, q, t.0);
    RelatesDeref(s.bound, k, q, t.1);
    var p := Next(k, s);
    assert (t.0, p.0) in q && (t.1, p.1) in q;
    assert t == (t.0, t.1) && p == (p.0, p.1);
  }

  lemma RestTodo(s: State, q: Rel)
    requires s.todo != [] && PairsIn(Rest(s).todo, q) && s.todo[|s.todo| - 1] in q
    ensures PairsIn(s.todo, q)
  {
    var n := |s.todo| - 1;
    assert s.todo == s.todo[..n] + [s.todo[n]];
  }

  /** A pair that every covering relation contains may be dropped. */
  lemma DropStep(h0: seq<Cell>, k: seq<Kind>, a: Cell, b: Cell, s: State)
    requires Inv(h0, k, a, b, s) && s.todo != []
    requires var p := Next(k, s);
             p.0 == p.1 || (p.0.Big? && p.1.Big? && BigData(s.bound, p.0.index) == BigData(s.bound, p.1.index))
    ensures Inv(h0, k, a, b, Rest(s))
  {
    forall q: Rel | Covers(k, Rest(s), q) ensures Covers(k, s, q) {
      PairIffNext(k, s, q);
      RestTodo(s, q);
    }
  }

  ghost function Bound(s: State, v: nat, t: Cell): State
    requires s.todo != [] && v < |s.bound| && v < |s.heap|
  {
    Rest(s).(bound := s.bound[v := t], heap := s.heap[v := t])
  }

  lemma DataNotForwarded(k: seq<Kind>, s: State, v: nat)
    requires Overlay(s.bound, s.heap, k, s.fwds) && v < |k| && k[v] != FunctorKind
    ensures v !in s.fwds
  {
    forall p: nat | p < |s.fwds| ensures s.fwds[p] != v {
      assert FwdOk(s.bound, s.heap, k, s.fwds, p);
    }
  }

  lemma BindStep(h0: seq<Cell>, k: seq<Kind>, a: Cell, b: Cell, s: State, v: nat, t: Cell)
    requires Inv(h0, k, a, b, s) && s.todo != []
    requires Next(k, s) == (Ref(v), t) || Next(k, s) == (t, Ref(v))
    requires t != Ref(v) && (t.Ref? ==> t.index < v)
    ensures v < |s.bound| && k[v] == Data && s.bound[v] == Ref(v) && s.heap[v] == Ref(v)
    ensures Inv(h0, k, a, b, Bound(s, v, t))
  {
    DataNotForwarded(k, s, v);
    var s' := Bound(s, v, t);
    BindWellFormed(s.bound, k, v, t);
    BindBinds(h0, k, s.bound, v, t);
    assert Overlay(s'.bound, s'.heap, k, s'.fwds) by { BindOverlay(k, s, v, t); }
    forall q: Rel | Covers(k, s', q) ensures (a, b) in q && EdgeArgsIn(s'.bound, s'.heap, s'.fwds, q) {
      BindCovers(k, s, v, t, q);
      BindEdgeArgs(k, s, v, t, q);
    }
    forall r: Rel | Congruence(h0, k, r) && (a, b) in r
      ensures FollowsRefs(s'.bound, k, r) && EdgesIn(s'.heap, s'.fwds, r) && PairsIn(s'.todo, r)
    {
      assert s.todo[|s.todo| - 1] in s.todo;
      PairIffNext(k, s, r);
      assert (Ref(v), t) in r;
    }
  }

  lemma BindBinds(h0: seq<Cell>, k: seq<Kind>, g: seq<Cell>, v: nat, t: Cell)
    requires Shaped(h0, k) && Binds(h0, g, k) && v < |g| && k[v] == Data && g[v] == Ref(v)
    requires IsTerm(k, t) && (t.Ref? ==> t.index < v)
    ensures Binds(h0, g[v := t], k)
  {
    assert h0[v] == Ref(v) by { assert h0[v] == g[v] || h0[v] == Ref(v); }
  }

  lemma BindOverlay(k: seq<Kind>, s: State, v: nat, t: Cell)
    requires Overlay(s.bound, s.heap, k, s.fwds) && v < |k| && k[v] == Data && v !in s.fwds
    ensures Overlay(s.bound[v := t], s.heap[v := t], k, s.fwds)
  {
    var g', h' := s.bound[v := t], s.heap[v := t];
    forall p: nat | p < |s.fwds| ensures FwdOk(g', h', k, s.fwds, p) {
      assert FwdOk(s.bound, s.heap, k, s.fwds, p);
    }
  }

  lemma BindCovers(k: seq<Kind>, s: State, v: nat, t: Cell, q: Rel)
    requires WellFormed(s.bound, k) && Overlay(s.bound, s.heap, k, s.fwds) && TodoOk(k, s.todo) && s.todo != []
    requires Next(k, s) == (Ref(v), t) || Next(k, s) == (t, Ref(v))
    requires t.Ref? ==> t.index < v
    requires v !in s.fwds && v < |k| && k[v] == Data && s.bound[v] == Ref(v)
    requires Covers(k, Bound(s, v, t), q)
    ensures Covers(k, s, q)
  {
    var s' := Bound(s, v, t);
    forall i: nat | i < |s.bound| && k[i] == Data ensures (Ref(i), s.bound[i]) in q {
      assert (Ref(i), s'.bound[i]) in q;
    }
    forall i: nat, j: nat | IsTerm(k, Big(i)) && IsTerm(k, Big(j)) && BigData(s.bound, i) == BigData(s.bound, j)
      ensures (Big(i), Big(j)) in q
    {
      BindBinds(s.bound, k, s.bound, v, t);
      BindsKeepsBigData(s.bound, s'.bound, k, i);
      BindsKeepsBigData(s.bound, s'.bound, k, j);
    }
    assert s'.bound[v] == t;
    assert (Ref(v), t) in q;
    PairIffNext(k, s, q);
    RestTodo(s, q);
  }

  lemma BindEdgeArgs(k: seq<Kind>, s: State, v: nat, t: Cell, q: Rel)
    requires Overlay(s.bound, s.heap, k, s.fwds) && s.todo != []
    requires v !in s.fwds && v < |k| && k[v] == Data && s.bound[v] == Ref(v)
    requires Covers(k, Bound(s, v, t), q) && EdgeArgsIn(s.bound, s.heap, s.fwds, q)
    ensures EdgeArgsIn(s.bound[v := t], s.heap[v := t], s.fwds, q)
  {
    var g, g' := s.bound, s.bound[v := t];
    assert (Ref(v), g'[v]) in q;
    forall i: nat | i in s.fwds && i < |g| && s.heap[i].Fwd? && g'[i].Con?
      ensures ArgsIn(g', q, i, s.heap[i].index, g'[i].functor.arity)
    {
      var j := s.heap[i].index;
      assert ArgsIn(g, q, i, j, g[i].functor.arity);
      forall m: nat | m < g[i].functor.arity ensures (Arg(g', i, m), Arg(g', j, m)) in q {
        assert (Arg(g, i, m), Arg(g, j, m)) in q;
        assert (Arg(g, i, m), Arg(g', i, m)) in q;
        assert (Arg(g, j, m), Arg(g', j, m)) in q;
      }
    }
  }

  // Two structures of the same functor, in different classes.

  ghost function ArgPair(k: seq<Kind>, g: seq<Cell>, i: nat, j: nat, m: nat): (p: (Cell, Cell))
    requires WellFormed(g, k) && IsTerm(k, Str(i)) && IsTerm(k, Str(j)) && g[i] == g[j]
    requires g[i].Con? && m < g[i].functor.arity
    ensures IsTerm(k, p.0) && IsTerm(k, p.1)
  {
    ArgIsTerm(g, k, i, m);
    ArgIsTerm(g, k, j, m);
    (Value(g, k, Arg(g, i, m)), Value(g, k, Arg(g, j, m)))
  }

  /** The pairs of arguments of two structures, the first pair last. */
  ghost function ArgPairs(k: seq<Kind>, g: seq<Cell>, i: nat, j: nat): (ps: seq<(Cell, Cell)>)
    requires WellFormed(g, k) && IsTerm(k, Str(i)) && IsTerm(k, Str(j)) && g[i] == g[j]
    ensures g[i].Con? && |ps| == g[i].functor.arity && TodoOk(k, ps)
  {
    assert CellOk(g, k, i);
    var n := g[i].functor.arity;
    seq(n, x requires 0 <= x < n => ArgPair(k, g, i, j, n - x - 1))
  }

  lemma ArgPairAt(k: seq<Kind>, g: seq<Cell>, i: nat, j: nat, x: nat)
    requires WellFormed(g, k) && IsTerm(k, Str(i)) && IsTerm(k, Str(j)) && g[i] == g[j]
    requires g[i].Con? && x < g[i].functor.arity
    ensures var ps, m := ArgPairs(k, g, i, j), g[i].functor.arity - x - 1;
            && IsTerm(k, Arg(g, i, m)) && IsTerm(k, Arg(g, j, m))
            && ps[x] == ArgPair(k, g, i, j, m)
            && ps[x] == (Value(g, k, Arg(g, i, m)), Value(g, k, Arg(g, j, m)))
            && ps[..x + 1] == ps[..x] + [ps[x]]
  {
    ArgsAreTerms(g, k, i);
    ArgsAreTerms(g, k, j);
  }

  lemma ArgPairsIff(k: seq<Kind>, g: seq<Cell>, i: nat, j: nat, q: Rel)
    requires WellFormed(g, k) && IsTerm(k, Str(i)) && IsTerm(k, Str(j)) && g[i] == g[j]
    requires Equivalence(q) && FollowsRefs(g, k, q)
    ensures g[i].Con?
    ensures PairsIn(ArgPairs(k, g, i, j), q) <==> ArgsIn(g, q, i, j, g[i].functor.arity)
  {
    var ps := ArgPairs(k, g, i, j);
    var n := |ps|;
    forall x: nat | x < n
      ensures ps[x] in q <==> (Arg(g, i, n - x - 1), Arg(g, j, n - x - 1)) in q
    {
      ArgPairAt(k, g, i, j, x);
      RelatesDeref(g, k, q, Arg(g, i, n - x - 1));
      RelatesDeref(g, k, q, Arg(g, j, n - x - 1));
    }
    if PairsIn(ps, q) {
      forall m: nat | m < n ensures (Arg(g, i, m), Arg(g, j, m)) in q {
        assert ps[n - m - 1] in ps;
      }
    }
    if ArgsIn(g, q, i, j, n) {
      forall p | p in ps ensures p in q {
        var x: nat :| x < n && ps[x] == p;
        assert (Arg(g, i, n - x - 1), Arg(g, j, n - x - 1)) in q;
      }
    }
  }

  /** The state after the class of `ri` is forwarded to `rj` and the arguments of the
      structures at `i` and `j` are pushed. */
  ghost function Forwarded(k: seq<Kind>, s: State, i: nat, j: nat, ri: nat, rj: nat): State
    requires WellFormed(s.bound, k) && IsTerm(k, Str(i)) && IsTerm(k, Str(j)) && s.bound[i] == s.bound[j]
    requires s.todo != [] && ri < |s.heap|
  {
    State(s.bound, s.heap[ri := Fwd(rj)], s.fwds + [ri], Rest(s).todo + ArgPairs(k, s.bound, i, j))
  }

  ghost predicate Joinable(k: seq<Kind>, s: State, i: nat, j: nat, ri: nat, rj: nat)
    requires WellFormed(s.bound, k) && TodoOk(k, s.todo) && s.todo != []
  {
    && Next(k, s) == (Str(i), Str(j))
    && Linked(s, i, ri) && Linked(s, j, rj)
    && IsTerm(k, Str(ri)) && IsTerm(k, Str(rj))
    && ri !in s.fwds && rj !in s.fwds
  }

  lemma ForwardStep(h0: seq<Cell>, k: seq<Kind>, a: Cell, b: Cell, s: State, i: nat, j: nat, ri: nat, rj: nat)
    requires Inv(h0, k, a, b, s) && s.todo != [] && Joinable(k, s, i, j, ri, rj)
    requires ri != rj && s.bound[ri] == s.bound[rj]
    ensures Inv(h0, k, a, b, Forwarded(k, s, i, j, ri, rj))
  {
    var s' := Forwarded(k, s, i, j, ri, rj);
    ForwardOverlay(k, s, ri, rj);
    forall q: Rel | Covers(k, s', q) ensures (a, b) in q && EdgeArgsIn(s'.bound, s'.heap, s'.fwds, q) {
      ForwardCovers(k, s, i, j, ri, rj, q);
      ForwardEdgeArgs(k, s, i, j, ri, rj, q);
    }
    forall r: Rel | Congruence(h0, k, r) && (a, b) in r
      ensures EdgesIn(s'.heap, s'.fwds, r) && PairsIn(s'.todo, r)
    {
      ForwardGeneral(h0, k, a, b, s, i, j, ri, rj, r);
    }
    assert TodoOk(k, s'.todo);
  }

  lemma ForwardOverlay(k: seq<Kind>, s: State, ri: nat, rj: nat)
    requires Overlay(s.bound, s.heap, k, s.fwds)
    requires IsTerm(k, Str(ri)) && IsTerm(k, Str(rj)) && ri != rj && s.bound[ri] == s.bound[rj]
    requires ri !in s.fwds && rj !in s.fwds
    ensures Overlay(s.bound, s.heap[ri := Fwd(rj)], k, s.fwds + [ri])
  {
    var h', f' := s.heap[ri := Fwd(rj)], s.fwds + [ri];
    forall p: nat | p < |f'| ensures FwdOk(s.bound, h', k, f', p) {
      if p < |s.fwds| {
        assert FwdOk(s.bound, s.heap, k, s.fwds, p);
        assert f'[..p + 1] == s.fwds[..p + 1] && f'[..p] == s.fwds[..p];
      } else {
        assert f'[..p + 1] == f' && f'[..p] == s.fwds;
      }
    }
  }

  lemma ForwardCovers(k: seq<Kind>, s: State, i: nat, j: nat, ri: nat, rj: nat, q: Rel)
    requires WellFormed(s.bound, k) && TodoOk(k, s.todo) && s.todo != [] && Joinable(k, s, i, j, ri, rj)
    requires |s.heap| == |s.bound| && s.bound[ri] == s.bound[rj]
    requires Covers(k, Forwarded(k, s, i, j, ri, rj), q)
    ensures Covers(k, s, q)
  {
    var s' := Forwarded(k, s, i, j, ri, rj);
    forall x: nat | x in s.fwds && x < |s.heap| && s.heap[x].Fwd? ensures (Str(x), Str(s.heap[x].index)) in q {
      assert x in s'.fwds && s'.heap[x] == s.heap[x];
    }
    assert ri in s'.fwds && s'.heap[ri] == Fwd(rj);
    assert (Str(i), Str(ri)) in q && (Str(ri), Str(rj)) in q && (Str(j), Str(rj)) in q;
    assert (Str(i), Str(j)) in q;
    PairIffNext(k, s, q);
    assert PairsIn(Rest(s).todo, q);
    RestTodo(s, q);
  }

  lemma ForwardEdgeArgs(k: seq<Kind>, s: State, i: nat, j: nat, ri: nat, rj: nat, q: Rel)
    requires WellFormed(s.bound, k) && TodoOk(k, s.todo) && s.todo != [] && Joinable(k, s, i, j, ri, rj)
    requires |s.heap| == |s.bound| && s.bound[ri] == s.bound[rj]
    requires Covers(k, Forwarded(k, s, i, j, ri, rj), q)
    requires EdgeArgsIn(s.bound, s.heap, s.fwds, q)
    ensures EdgeArgsIn(s.bound, s.heap[ri := Fwd(rj)], s.fwds + [ri], q)
  {
    var s' := Forwarded(k, s, i, j, ri, rj);
    var n := s.bound[i].functor.arity;
    assert PairsIn(ArgPairs(k, s.bound, i, j), q);
    ArgPairsIff(k, s.bound, i, j, q);
    ArgsSymmetric(s.bound, q, i, ri, n);
    ArgsTransitive(s.bound, q, ri, i, j, n);
    ArgsTransitive(s.bound, q, ri, j, rj, n);
  }

  lemma ArgsSymmetric(g: seq<Cell>, q: Rel, i: nat, j: nat, arity: nat)
    requires Equivalence(q) && ArgsIn(g, q, i, j, arity)
    ensures ArgsIn(g, q, j, i, arity)
  {
    forall m: nat | m < arity ensures (Arg(g, j, m), Arg(g, i, m)) in q {
      assert (Arg(g, i, m), Arg(g, j, m)) in q;
    }
  }

  /** A solution of the initial equation is a solution of the heap with the bindings made so far. */
  lemma SolvesBound(h0: seq<Cell>, k: seq<Kind>, g: seq<Cell>, r: Rel)
    requires WellFormed(h0, k) && WellFormed(g, k) && Binds(h0, g, k)
    requires Congruence(h0, k, r) && FollowsRefs(g, k, r)
    ensures Congruence(g, k, r)
  {
    forall x: Cell, y: Cell | (x, y) in r && IsTerm(k, x) && IsTerm(k, y) && !x.Ref? && !y.Ref?
      ensures Compatible(g, r, x, y)
    {
      BindsKeepsCompatible(h0, g, k, r, x, y);
    }
  }

  /** A solution equates the representatives of the two structures of the next pair. */
  lemma RootsEquated(h0: seq<Cell>, k: seq<Kind>, a: Cell, b: Cell, s: State, i: nat, j: nat, ri: nat, rj: nat, r: Rel)
    requires Inv(h0, k, a, b, s) && s.todo != [] && Joinable(k, s, i, j, ri, rj)
    requires Congruence(h0, k, r) && (a, b) in r
    ensures (Str(i), Str(j)) in r && (Str(ri), Str(rj)) in r
    ensures Congruence(s.bound, k, r)
  {
    SolvesBound(h0, k, s.bound, r);
    assert s.todo[|s.todo| - 1] in s.todo;
    PairIffNext(k, s, r);
    assert (Str(i), Str(ri)) in r && (Str(j), Str(rj)) in r;
  }

  lemma ForwardGeneral(h0: seq<Cell>, k: seq<Kind>, a: Cell, b: Cell, s: State, i: nat, j: nat, ri: nat, rj: nat,
                       r: Rel)
    requires Inv(h0, k, a, b, s) && s.todo != [] && Joinable(k, s, i, j, ri, rj) && s.bound[ri] == s.bound[rj]
    requires Congruence(h0, k, r) && (a, b) in r
    ensures var s' := Forwarded(k, s, i, j, ri, rj);
            EdgesIn(s'.heap, s'.fwds, r) && PairsIn(s'.todo, r)
  {
    RootsEquated(h0, k, a, b, s, i, j, ri, rj, r);
    assert Compatible(s.bound, r, Str(i), Str(j));
    assert ArgsIn(s.bound, r, i, j, s.bound[i].functor.arity);
    ArgPairsIff(k, s.bound, i, j, r);
  }

  // ----- failure and success -----

  /** A pair of different constants, numbers or kinds of term: the equation has no solution. */
  lemma ClashStep(h0: seq<Cell>, k: seq<Kind>, a: Cell, b: Cell, s: State)
    requires Inv(h0, k, a, b, s) && s.todo != []
    requires var p := Next(k, s);
             && !p.0.Ref? && !p.1.Ref? && p.0 != p.1
             && !(p.0.Str? && p.1.Str?)
             && (p.0.Big? && p.1.Big? ==> BigData(s.bound, p.0.index) != BigData(s.bound, p.1.index))
    ensures !Unifiable(h0, k, a, b)
  {
    forall r: Rel | Congruence(h0, k, r) && (a, b) in r ensures false {
      SolvesBound(h0, k, s.bound, r);
      assert s.todo[|s.todo| - 1] in s.todo;
      PairIffNext(k, s, r);
    }
  }

  lemma FunctorClashStep(h0: seq<Cell>, k: seq<Kind>, a: Cell, b: Cell, s: State, i: nat, j: nat, ri: nat, rj: nat)
    requires Inv(h0, k, a, b, s) && s.todo != [] && Joinable(k, s, i, j, ri, rj)
    requires s.bound[ri] != s.bound[rj]
    ensures !Unifiable(h0, k, a, b)
  {
    forall r: Rel | Congruence(h0, k, r) && (a, b) in r ensures false {
      assert !Compatible(s.bound, r, Str(ri), Str(rj));
      RootsEquated(h0, k, a, b, s, i, j, ri, rj, r);
    }
  }

  /** Structures already in one class need no further work. */
  lemma SameClassStep(h0: seq<Cell>, k: seq<Kind>, a: Cell, b: Cell, s: State, i: nat, j: nat, root: nat)
    requires Inv(h0, k, a, b, s) && s.todo != [] && Joinable(k, s, i, j, root, root)
    ensures Inv(h0, k, a, b, Rest(s))
  {
    forall q: Rel | Covers(k, Rest(s), q) ensures Covers(k, s, q) {
      assert EdgesIn(s.heap, s.fwds, q);
      assert (Str(i), Str(root)) in q && (Str(j), Str(root)) in q;
      PairIffNext(k, s, q);
      RestTodo(s, q);
    }
  }

  /** Where `i` was forwarded. */
  ghost function Position(fwds: seq<nat>, i: nat): (p: nat)
    requires i in fwds
    ensures p < |fwds| && fwds[p] == i
    ensures forall lo: nat :: lo <= |fwds| && i !in fwds[..lo] ==> lo <= p
  {
    var p: nat :| p < |fwds| && fwds[p] == i;
    assert forall lo: nat :: p < lo <= |fwds| ==> fwds[..lo][p] == i;
    p
  }

  /** The representative of the class of the structure at `i`, which is not among the
      first `lo` forwarded structures. */
  ghost function Root(k: seq<Kind>, s: State, i: nat, lo: nat): (r: nat)
    requires Overlay(s.bound, s.heap, k, s.fwds)
    requires lo <= |s.fwds| && i !in s.fwds[..lo]
    decreases |s.fwds| - lo
  {
    if i !in s.fwds then i else
    var p := Position(s.fwds, i);
    assert FwdOk(s.bound, s.heap, k, s.fwds, p);
    Root(k, s, s.heap[i].index, p + 1)
  }

  lemma {:induction false} RootUnique(k: seq<Kind>, s: State, i: nat, lo: nat, lo': nat)
    requires Overlay(s.bound, s.heap, k, s.fwds)
    requires lo <= |s.fwds| && i !in s.fwds[..lo]
    requires lo' <= |s.fwds| && i !in s.fwds[..lo']
    ensures Root(k, s, i, lo) == Root(k, s, i, lo')
  {
  }

  lemma {:induction false} RootLinked(k: seq<Kind>, s: State, i: nat, lo: nat)
    requires Shaped(s.bound, k) && Overlay(s.bound, s.heap, k, s.fwds)
    requires lo <= |s.fwds| && i !in s.fwds[..lo] && IsTerm(k, Str(i))
    ensures Linked(s, i, Root(k, s, i, lo))
    decreases |s.fwds| - lo
  {
    LinkedRefl(k, s, i);
    if i in s.fwds {
      var p := Position(s.fwds, i);
      assert FwdOk(s.bound, s.heap, k, s.fwds, p);
      LinkedStep(k, s, i, i);
      RootLinked(k, s, s.heap[i].index, p + 1);
      LinkedTransitive(s, i, s.heap[i].index, Root(k, s, i, lo));
    }
  }

  lemma LinkedTransitive(s: State, i: nat, j: nat, l: nat)
    requires Linked(s, i, j) && Linked(s, j, l)
    ensures Linked(s, i, l)
  {
    forall q: Rel | Equivalence(q) && EdgesIn(s.heap, s.fwds, q) ensures (Str(i), Str(l)) in q {
      assert (Str(i), Str(j)) in q && (Str(j), Str(l)) in q;
    }
    forall q: Rel | Equivalence(q) && EdgeArgsIn(s.bound, s.heap, s.fwds, q)
      ensures ArgsIn(s.bound, q, i, l, s.bound[i].functor.arity)
    {
      ArgsTransitive(s.bound, q, i, j, l, s.bound[i].functor.arity);
    }
  }

  // The relation that is decided once nothing is left to do.

  datatype Class = CellClass(c: Cell) | NumberClass(data: seq<Cell>) | StructClass(root: nat)

  ghost function ClassOf(k: seq<Kind>, s: State, c: Cell): Class
    requires WellFormed(s.bound, k) && Overlay(s.bound, s.heap, k, s.fwds)
  {
    if !IsTerm(k, c) then CellClass(c) else
    match Value(s.bound, k, c)
    case Str(i) => StructClass(Root(k, s, i, 0))
    case Big(i) => NumberClass(BigData(s.bound, i))
    case d => CellClass(d)
  }

  ghost function Decided(k: seq<Kind>, s: State): Rel
    requires WellFormed(s.bound, k) && Overlay(s.bound, s.heap, k, s.fwds)
  {
    iset x: Cell, y: Cell | ClassOf(k, s, x) == ClassOf(k, s, y) :: (x, y)
  }

  lemma DecidedCovers(k: seq<Kind>, s: State)
    requires WellFormed(s.bound, k) && Overlay(s.bound, s.heap, k, s.fwds) && s.todo == []
    ensures Covers(k, s, Decided(k, s))
  {
    var q := Decided(k, s);
    forall i: nat | i < |s.bound| && k[i] == Data ensures (Ref(i), s.bound[i]) in q {
      assert CellOk(s.bound, k, i);
      DerefStep(s.bound, k, Ref(i));
    }
    forall i: nat, j: nat | IsTerm(k, Big(i)) && IsTerm(k, Big(j)) && BigData(s.bound, i) == BigData(s.bound, j)
      ensures (Big(i), Big(j)) in q
    {
      DerefStep(s.bound, k, Big(i));
      DerefStep(s.bound, k, Big(j));
    }
    forall i: nat | i in s.fwds && i < |s.heap| && s.heap[i].Fwd? ensures (Str(i), Str(s.heap[i].index)) in q {
      var p := Position(s.fwds, i);
      assert FwdOk(s.bound, s.heap, k, s.fwds, p);
      RootUnique(k, s, s.heap[i].index, p + 1, 0);
      DerefStep(s.bound, k, Str(i));
      DerefStep(s.bound, k, Str(s.heap[i].index));
    }
  }

  lemma DecidedIsBisimulation(k: seq<Kind>, s: State)
    requires WellFormed(s.bound, k) && Overlay(s.bound, s.heap, k, s.fwds)
    requires Equivalence(Decided(k, s)) && EdgeArgsIn(s.bound, s.heap, s.fwds, Decided(k, s))
    ensures Bisimulation(s.bound, k, Decided(k, s))
  {
    var q := Decided(k, s);
    forall x: Cell, y: Cell | (x, y) in q && IsTerm(k, x) && IsTerm(k, y)
      ensures Compatible(s.bound, q, Value(s.bound, k, x), Value(s.bound, k, y))
    {
      var d, e := Value(s.bound, k, x), Value(s.bound, k, y);
      if d.Str? {
        var root := Root(k, s, d.index, 0);
        RootLinked(k, s, d.index, 0);
        RootLinked(k, s, e.index, 0);
        var n := s.bound[root].functor.arity;
        ArgsSymmetric(s.bound, q, e.index, root, n);
        ArgsTransitive(s.bound, q, d.index, root, e.index, n);
      }
    }
  }

  /** When nothing is left to do, the two terms denote the same tree. */
  lemma Done(h0: seq<Cell>, k: seq<Kind>, a: Cell, b: Cell, s: State)
    requires Inv(h0, k, a, b, s) && s.todo == []
    ensures SameTree(s.bound, k, a, b)
    ensures forall r: Rel :: Congruence(h0, k, r) && (a, b) in r ==> Congruence(s.bound, k, r)
  {
    DecidedCovers(k, s);
    DecidedIsBisimulation(k, s);
    BisimilarSameTree(s.bound, k, Decided(k, s), a, b);
    forall r: Rel | Congruence(h0, k, r) && (a, b) in r ensures Congruence(s.bound, k, r) {
      SolvesBound(h0, k, s.bound, r);
    }
  }

  // ----- the measure -----

  ghost function Unbound(g: seq<Cell>): set<nat> {
    set i: nat | i < |g| && g[i] == Ref(i)
  }

  ghost function NotForwarded(k: seq<Kind>, fwds: seq<nat>): set<nat> {
    set i: nat | i < |k| && k[i] == FunctorKind && i !in fwds
  }

  /** Variables still unbound and structures not yet forwarded. */
  ghost function Measure(k: seq<Kind>, s: State): nat {
    |Unbound(s.bound)| + |NotForwarded(k, s.fwds)|
  }

  lemma BindShrinks(g: seq<Cell>, v: nat, t: Cell)
    requires v < |g| && g[v] == Ref(v) && t != Ref(v)
    ensures |Unbound(g[v := t])| < |Unbound(g)|
  {
    assert Unbound(g) == Unbound(g[v := t]) + {v};
    assert v !in Unbound(g[v := t]);
  }

  lemma ForwardShrinks(k: seq<Kind>, fwds: seq<nat>, i: nat)
    requires i < |k| && k[i] == FunctorKind && i !in fwds
    ensures |NotForwarded(k, fwds + [i])| < |NotForwarded(k, fwds)|
  {
    assert NotForwarded(k, fwds) == NotForwarded(k, fwds + [i]) + {i};
    assert i !in NotForwarded(k, fwds + [i]);
  }
}
