/** What the terms of a heap mean, and what it means to solve an equation between them.

    A term of a possibly cyclic heap denotes a rational tree.  Two terms denote the
    same tree when they look the same to every finite depth.  A solution of an
    equation on a heap is a congruence: an equivalence on cells that follows bound
    variables, descends into arguments and never equates different functors. */
module RationalTrees {
  import opened Cells

  type Rel = iset<(Cell, Cell)>

  /** The `m`-th argument (from 0) of the structure whose functor is at `i`. */
  ghost function Arg(h: seq<Cell>, i: nat, m: nat): Cell {
    if i + m + 1 < |h| then h[i + m + 1] else Int(0)
  }

  /** Header and payload of the bignum at `i`. */
  ghost function BigData(h: seq<Cell>, i: nat): seq<Cell> {
    if i < |h| && h[i].Dat? && i + NumCells(h[i].bits) <= |h| then h[i..i + NumCells(h[i].bits)] else []
  }

  /** The cells of a bignum are its header and those that have bits of it. */
  lemma {:induction false} BigDataIs(h: seq<Cell>, i: nat, m: nat)
    requires BigData(h, i) != []
    ensures i < |h| && h[i].Dat? && BigData(h, i)[0] == h[i]
    ensures m + 1 < |BigData(h, i)| <==> 32 + 64 * m < h[i].bits
    ensures m + 1 < |BigData(h, i)| ==> i + 1 + m < |h| && BigData(h, i)[m + 1] == h[i + 1 + m]
  {
    NumCellsLeast(h[i].bits, m + 1);
  }

  /** Equal data means equal numbers. */
  lemma {:induction false} BigDataSame(h: seq<Cell>, i: nat, h': seq<Cell>, j: nat)
    requires BigData(h, i) != [] && BigData(h', j) != []
    ensures BigData(h, i) == BigData(h', j) <==> SameNumber(h, i, h', j)
  {
    var a, b := BigData(h, i), BigData(h', j);
    BigDataIs(h, i, 0);
    BigDataIs(h', j, 0);
    if a == b {
      forall m: nat | 32 + 64 * m < h[i].bits
        ensures i + 1 + m < |h| && j + 1 + m < |h'| && h'[j + 1 + m] == h[i + 1 + m]
      {
        BigDataIs(h, i, m);
        BigDataIs(h', j, m);
      }
    }
    if SameNumber(h, i, h', j) {
      forall q: nat | q < |a| ensures a[q] == b[q] {
        if q > 0 {
          BigDataIs(h, i, q - 1);
          BigDataIs(h', j, q - 1);
        }
      }
      assert a == b;
    }
  }

  lemma ArgIsTerm(h: seq<Cell>, k: seq<Kind>, i: nat, m: nat)
    requires Shaped(h, k) && IsTerm(k, Str(i)) && h[i].Con? && m < h[i].functor.arity
    ensures i + m + 1 < |h| && k[i + m + 1] == Data && IsTerm(k, Arg(h, i, m))
  {
    assert CellOk(h, k, i);
    assert CellOk(h, k, i + m + 1);
  }

  lemma ArgsAreTerms(h: seq<Cell>, k: seq<Kind>, i: nat)
    requires Shaped(h, k) && IsTerm(k, Str(i))
    ensures h[i].Con?
    ensures forall m: nat :: m < h[i].functor.arity ==>
            i + m + 1 < |h| && k[i + m + 1] == Data && IsTerm(k, Arg(h, i, m))
  {
    assert CellOk(h, k, i);
    forall m: nat | m < h[i].functor.arity ensures i + m + 1 < |h| && k[i + m + 1] == Data && IsTerm(k, Arg(h, i, m)) {
      ArgIsTerm(h, k, i, m);
    }
  }

  // ----- trees -----

  /** A tree cut off at some depth. */
  datatype Tree = Cut | Var(address: nat) | Leaf(c: Cell) | Number(data: seq<Cell>) | Node(f: Functor, args: seq<Tree>)

  ghost function Unfold(h: seq<Cell>, k: seq<Kind>, c: Cell, n: nat): Tree
    requires WellFormed(h, k) && IsTerm(k, c)
    decreases n, 0
  {
    if n == 0 then Cut else
    var d := Value(h, k, c);
    match d
    case Ref(i) => Var(i)
    case Big(i) => Number(BigData(h, i))
    case Str(i) => assert CellOk(h, k, i); Node(h[i].functor, UnfoldArgs(h, k, i, n - 1))
    case _ => Leaf(d)
  }

  ghost function UnfoldArgs(h: seq<Cell>, k: seq<Kind>, i: nat, n: nat): (ts: seq<Tree>)
    requires WellFormed(h, k) && IsTerm(k, Str(i))
    ensures h[i].Con? && |ts| == h[i].functor.arity
    ensures forall m: nat :: m < |ts| ==> IsTerm(k, Arg(h, i, m)) && ts[m] == Unfold(h, k, Arg(h, i, m), n)
    decreases n, 1
  {
    ArgsAreTerms(h, k, i);
    seq(h[i].functor.arity, m requires 0 <= m < h[i].functor.arity => Unfold(h, k, Arg(h, i, m), n))
  }

  lemma {:induction false} DerefTerm(h: seq<Cell>, k: seq<Kind>, c: Cell)
    requires WellFormed(h, k) && IsTerm(k, c)
    ensures exists n: nat :: Ends(h, c, n)
    ensures IsTerm(k, Deref(h, c))
    ensures !Deref(h, c).Ref? || h[Deref(h, c).index] == Deref(h, c)
  {
    TermEnds(h, k, c);
    var n: nat :| Ends(h, c, n);
    DerefValue(h, c, n);
    DerefIsTerm(h, k, c, n);
  }

  /** The dereference of a term: an unbound variable, a constant, a number or a structure. */
  ghost function Value(h: seq<Cell>, k: seq<Kind>, c: Cell): (d: Cell)
    requires WellFormed(h, k) && IsTerm(k, c)
    ensures IsTerm(k, d)
    ensures !d.Ref? || h[d.index] == d
  {
    DerefTerm(h, k, c);
    Deref(h, c)
  }

  /** `a` and `b` denote the same rational tree. */
  ghost predicate SameTree(h: seq<Cell>, k: seq<Kind>, a: Cell, b: Cell)
    requires WellFormed(h, k) && IsTerm(k, a) && IsTerm(k, b)
  {
    forall n: nat :: Unfold(h, k, a, n) == Unfold(h, k, b, n)
  }

  // ----- relations -----

  ghost predicate Equivalence(r: Rel) {
    && (forall x: Cell :: (x, x) in r)
    && (forall x: Cell, y: Cell :: (x, y) in r ==> (y, x) in r)
    && (forall x: Cell, y: Cell, z: Cell :: (x, y) in r && (y, z) in r ==> (x, z) in r)
  }

  /** `r` relates every variable to what it is bound to. */
  ghost predicate FollowsRefs(h: seq<Cell>, k: seq<Kind>, r: Rel) {
    forall i: nat :: i < |h| && i < |k| && k[i] == Data ==> (Ref(i), h[i]) in r
  }

  ghost predicate ArgsIn(h: seq<Cell>, r: Rel, i: nat, j: nat, arity: nat) {
    forall m: nat :: m < arity ==> (Arg(h, i, m), Arg(h, j, m)) in r
  }

  /** `x` and `y`, neither of them a REF, may be equated: same constant, same number,
      or the same functor with related arguments. */
  ghost predicate Compatible(h: seq<Cell>, r: Rel, x: Cell, y: Cell) {
    || x == y
    || (x.Big? && y.Big? && BigData(h, x.index) == BigData(h, y.index))
    || (&& x.Str? && y.Str? && x.index < |h| && y.index < |h|
        && h[x.index].Con? && h[x.index] == h[y.index]
        && ArgsIn(h, r, x.index, y.index, h[x.index].functor.arity))
  }

  ghost predicate ClashFree(h: seq<Cell>, k: seq<Kind>, r: Rel) {
    forall x: Cell, y: Cell :: (x, y) in r && IsTerm(k, x) && IsTerm(k, y) && !x.Ref? && !y.Ref? ==>
      Compatible(h, r, x, y)
  }

  /** A solution: every variable may be replaced by any member of its class. */
  ghost predicate Congruence(h: seq<Cell>, k: seq<Kind>, r: Rel) {
    Equivalence(r) && FollowsRefs(h, k, r) && ClashFree(h, k, r)
  }

  /** The equation `a = b` has a solution over rational trees. */
  ghost predicate Unifiable(h: seq<Cell>, k: seq<Kind>, a: Cell, b: Cell) {
    exists r: Rel :: Congruence(h, k, r) && (a, b) in r
  }

  /** An equivalence that follows bound variables relates a term to its dereference. */
  lemma {:induction false} RelatesDerefWithin(h: seq<Cell>, k: seq<Kind>, r: Rel, c: Cell, n: nat)
    requires Shaped(h, k) && IsTerm(k, c) && Ends(h, c, n)
    requires Equivalence(r) && FollowsRefs(h, k, r)
    ensures (c, DerefWithin(h, c, n)) in r
    decreases n
  {
    if c.Ref? && h[c.index] != c {
      assert CellOk(h, k, c.index);
      assert (Ref(c.index), h[c.index]) in r;
      RelatesDerefWithin(h, k, r, h[c.index], n - 1);
    }
  }

  lemma RelatesDeref(h: seq<Cell>, k: seq<Kind>, r: Rel, c: Cell)
    requires WellFormed(h, k) && IsTerm(k, c)
    requires Equivalence(r) && FollowsRefs(h, k, r)
    ensures (c, Value(h, k, c)) in r
  {
    TermEnds(h, k, c);
    var n: nat :| Ends(h, c, n);
    DerefValue(h, c, n);
    RelatesDerefWithin(h, k, r, c, n);
  }

  // ----- bisimulation: how sameness of trees is proved -----

  /** Related terms dereference to the same variable or to compatible cells. */
  ghost predicate Bisimulation(h: seq<Cell>, k: seq<Kind>, r: Rel)
    requires WellFormed(h, k)
  {
    forall x: Cell, y: Cell :: (x, y) in r && IsTerm(k, x) && IsTerm(k, y) ==>
      Compatible(h, r, Value(h, k, x), Value(h, k, y))
  }

  /** Compatible structures have related arguments. */
  lemma {:induction false} ArgsBisimilar(h: seq<Cell>, k: seq<Kind>, r: Rel, x: Cell, y: Cell, m: nat)
    requires Shaped(h, k) && IsTerm(k, x) && IsTerm(k, y) && x.Str? && y.Str? && x != y && Compatible(h, r, x, y)
    requires m < h[x.index].functor.arity
    ensures IsTerm(k, Arg(h, x.index, m)) && IsTerm(k, Arg(h, y.index, m))
    ensures (Arg(h, x.index, m), Arg(h, y.index, m)) in r
  {
    ArgIsTerm(h, k, x.index, m);
    ArgIsTerm(h, k, y.index, m);
  }

  /** Structures with one functor whose arguments unfold alike unfold alike. */
  lemma {:induction false} SameUnfold(h: seq<Cell>, k: seq<Kind>, x: Cell, y: Cell, n: nat)
    requires WellFormed(h, k) && IsTerm(k, x) && IsTerm(k, y) && x.Str? && y.Str? && n > 0
    requires h[x.index].Con? && h[x.index] == h[y.index]
    requires forall m: nat :: m < h[x.index].functor.arity ==>
               && IsTerm(k, Arg(h, x.index, m)) && IsTerm(k, Arg(h, y.index, m))
               && Unfold(h, k, Arg(h, x.index, m), n - 1) == Unfold(h, k, Arg(h, y.index, m), n - 1)
    ensures UnfoldArgs(h, k, x.index, n - 1) == UnfoldArgs(h, k, y.index, n - 1)
  {
    var us, vs := UnfoldArgs(h, k, x.index, n - 1), UnfoldArgs(h, k, y.index, n - 1);
    forall m: nat | m < |us| ensures us[m] == vs[m] { }
  }

  lemma {:induction false} BisimilarUnfold(h: seq<Cell>, k: seq<Kind>, r: Rel, a: Cell, b: Cell, n: nat)
    requires WellFormed(h, k) && IsTerm(k, a) && IsTerm(k, b)
    requires Bisimulation(h, k, r) && (a, b) in r
    ensures Unfold(h, k, a, n) == Unfold(h, k, b, n)
    decreases n
  {
    if n > 0 {
      var x, y := Value(h, k, a), Value(h, k, b);
      assert Compatible(h, r, x, y);
      if x != y && x.Str? {
        forall m: nat | m < h[x.index].functor.arity
          ensures IsTerm(k, Arg(h, x.index, m)) && IsTerm(k, Arg(h, y.index, m))
          ensures Unfold(h, k, Arg(h, x.index, m), n - 1) == Unfold(h, k, Arg(h, y.index, m), n - 1)
        {
          ArgsBisimilar(h, k, r, x, y, m);
          BisimilarUnfold(h, k, r, Arg(h, x.index, m), Arg(h, y.index, m), n - 1);
        }
        SameUnfold(h, k, x, y, n);
      }
    }
  }

  lemma BisimilarSameTree(h: seq<Cell>, k: seq<Kind>, r: Rel, a: Cell, b: Cell)
    requires WellFormed(h, k) && IsTerm(k, a) && IsTerm(k, b)
    requires Bisimulation(h, k, r) && (a, b) in r
    ensures SameTree(h, k, a, b)
  {
    forall n: nat ensures Unfold(h, k, a, n) == Unfold(h, k, b, n) {
      BisimilarUnfold(h, k, r, a, b, n);
    }
  }

  /** Denoting the same tree, as a relation on cells. */
  ghost function TreeRel(h: seq<Cell>, k: seq<Kind>): Rel
    requires WellFormed(h, k)
  {
    iset x: Cell, y: Cell | x == y || (IsTerm(k, x) && IsTerm(k, y) && SameTree(h, k, x, y)) :: (x, y)
  }

  lemma SameTreeDeref(h: seq<Cell>, k: seq<Kind>, c: Cell)
    requires WellFormed(h, k) && IsTerm(k, c) && c.Ref?
    ensures IsTerm(k, h[c.index]) && SameTree(h, k, c, h[c.index])
  {
    assert CellOk(h, k, c.index);
    DerefStep(h, k, c);
  }

  lemma SameTreeArgs(h: seq<Cell>, k: seq<Kind>, i: nat, j: nat)
    requires WellFormed(h, k) && IsTerm(k, Str(i)) && IsTerm(k, Str(j)) && SameTree(h, k, Str(i), Str(j))
    ensures h[i].Con? && h[i] == h[j] && ArgsIn(h, TreeRel(h, k), i, j, h[i].functor.arity)
  {
    assert CellOk(h, k, i) && CellOk(h, k, j);
    DerefStep(h, k, Str(i));
    DerefStep(h, k, Str(j));
    assert Unfold(h, k, Str(i), 1) == Unfold(h, k, Str(j), 1);
    forall m: nat | m < h[i].functor.arity ensures (Arg(h, i, m), Arg(h, j, m)) in TreeRel(h, k) {
      ArgIsTerm(h, k, i, m);
      ArgIsTerm(h, k, j, m);
      forall n: nat ensures Unfold(h, k, Arg(h, i, m), n) == Unfold(h, k, Arg(h, j, m), n) {
        assert Unfold(h, k, Str(i), n + 1) == Unfold(h, k, Str(j), n + 1);
        assert UnfoldArgs(h, k, i, n)[m] == UnfoldArgs(h, k, j, n)[m];
      }
    }
  }

  /** Sameness of trees is itself a solution of the heap it is read from. */
  lemma TreeRelIsCongruence(h: seq<Cell>, k: seq<Kind>)
    requires WellFormed(h, k)
    ensures Congruence(h, k, TreeRel(h, k))
  {
    var r := TreeRel(h, k);
    forall i: nat | i < |h| && k[i] == Data ensures (Ref(i), h[i]) in r {
      SameTreeDeref(h, k, Ref(i));
    }
    forall x: Cell, y: Cell | (x, y) in r && IsTerm(k, x) && IsTerm(k, y) && !x.Ref? && !y.Ref?
      ensures Compatible(h, r, x, y)
    {
      if x != y {
        DerefStep(h, k, x);
        DerefStep(h, k, y);
        assert Unfold(h, k, x, 1) == Unfold(h, k, y, 1);
        if x.Str? {
          SameTreeArgs(h, k, x.index, y.index);
        }
      }
    }
  }

  /** Bignums can be equated exactly if they are equal. */
  lemma {:induction false} NumbersUnifiable(h: seq<Cell>, k: seq<Kind>, i: nat, j: nat)
    requires WellFormed(h, k) && IsTerm(k, Big(i)) && IsTerm(k, Big(j))
    ensures Unifiable(h, k, Big(i), Big(j)) <==> SameNumber(h, i, h, j)
  {
    assert CellOk(h, k, i) && CellOk(h, k, j);
    NumCellsLeast(h[i].bits, 1);
    NumCellsLeast(h[j].bits, 1);
    BigDataSame(h, i, h, j);
    if SameNumber(h, i, h, j) {
      DerefStep(h, k, Big(i));
      DerefStep(h, k, Big(j));
      TreeRelIsCongruence(h, k);
      forall n: nat ensures Unfold(h, k, Big(i), n) == Unfold(h, k, Big(j), n) { }
      assert (Big(i), Big(j)) in TreeRel(h, k);
    }
    if Unifiable(h, k, Big(i), Big(j)) {
      var r: Rel :| Congruence(h, k, r) && (Big(i), Big(j)) in r;
      assert Compatible(h, r, Big(i), Big(j));
    }
  }

  // ----- binding variables -----

  /** `h'` is `h` with some unbound variables bound, a variable only ever to a variable
      at a lower address. */
  ghost predicate Binds(h: seq<Cell>, h': seq<Cell>, k: seq<Kind>) {
    && |h| == |h'| == |k|
    && forall i: nat {:trigger h[i]} {:trigger h'[i]} :: i < |h| && h'[i] != h[i] ==>
         && k[i] == Data && h[i] == Ref(i) && IsTerm(k, h'[i])
         && (h'[i].Ref? ==> h'[i].index < i)
  }

  /** `h'` may bind any unbound variables of `h`, and may have more cells. */
  ghost predicate Instance(h: seq<Cell>, k: seq<Kind>, h': seq<Cell>, k': seq<Kind>) {
    && |h| == |k| && |h'| == |k'| && k <= k'
    && forall i: nat {:trigger h[i]} {:trigger h'[i]} :: i < |h| && h'[i] != h[i] ==> k[i] == Data && h[i] == Ref(i)
  }

  /** The trees of an instance of `h` are a solution of `h`. */
  lemma InstanceSolves(h: seq<Cell>, k: seq<Kind>, h': seq<Cell>, k': seq<Kind>)
    requires WellFormed(h, k) && WellFormed(h', k') && Instance(h, k, h', k')
    ensures Congruence(h, k, TreeRel(h', k'))
  {
    var r := TreeRel(h', k');
    TreeRelIsCongruence(h', k');
    forall i: nat | i < |h| && k[i] == Data ensures (Ref(i), h[i]) in r {
      assert k'[i] == Data;
      assert h'[i] == h[i] || h[i] == Ref(i);
    }
    forall x: Cell, y: Cell | (x, y) in r && IsTerm(k, x) && IsTerm(k, y) && !x.Ref? && !y.Ref?
      ensures Compatible(h, r, x, y)
    {
      assert Compatible(h', r, x, y);
      InstanceCompatible(h, k, h', k', r, x, y);
    }
  }

  lemma InstanceCompatible(h: seq<Cell>, k: seq<Kind>, h': seq<Cell>, k': seq<Kind>, r: Rel, x: Cell, y: Cell)
    requires Shaped(h, k) && Shaped(h', k') && Instance(h, k, h', k')
    requires Equivalence(r) && FollowsRefs(h', k', r)
    requires IsTerm(k, x) && IsTerm(k, y) && Compatible(h', r, x, y)
    ensures Compatible(h, r, x, y)
  {
    if x == y {
    } else if x.Big? && y.Big? {
      InstanceBigData(h, k, h', k', x.index);
      InstanceBigData(h, k, h', k', y.index);
    } else if x.Str? && y.Str? {
      assert CellOk(h, k, x.index) && CellOk(h, k, y.index);
      assert h[x.index] == h'[x.index] && h[y.index] == h'[y.index];
      forall m: nat | m < h[x.index].functor.arity ensures (Arg(h, x.index, m), Arg(h, y.index, m)) in r {
        ArgIsTerm(h, k, x.index, m);
        ArgIsTerm(h, k, y.index, m);
        assert (Arg(h', x.index, m), Arg(h', y.index, m)) in r;
        assert (Arg(h, x.index, m), Arg(h', x.index, m)) in r;
        assert (Arg(h, y.index, m), Arg(h', y.index, m)) in r;
      }
    }
  }

  lemma InstanceBigData(h: seq<Cell>, k: seq<Kind>, h': seq<Cell>, k': seq<Kind>, i: nat)
    requires Shaped(h, k) && Shaped(h', k') && Instance(h, k, h', k') && IsTerm(k, Big(i))
    ensures BigData(h, i) == BigData(h', i)
  {
    assert CellOk(h, k, i);
    var n := NumCells(h[i].bits);
    assert h[i] == h'[i];
    assert forall j :: i <= j < i + n ==> h[j] == h'[j];
    assert h[i..i + n] == h'[i..i + n];
  }

  lemma BindsKeepsCompatible(h: seq<Cell>, h': seq<Cell>, k: seq<Kind>, r: Rel, x: Cell, y: Cell)
    requires Shaped(h, k) && Shaped(h', k) && Binds(h, h', k)
    requires Equivalence(r) && FollowsRefs(h', k, r)
    requires IsTerm(k, x) && IsTerm(k, y)
    ensures Compatible(h, r, x, y) <==> Compatible(h', r, x, y)
  {
    if x == y {
    } else if x.Big? && y.Big? {
      BindsKeepsBigData(h, h', k, x.index);
      BindsKeepsBigData(h, h', k, y.index);
    } else if x.Str? && y.Str? {
      assert CellOk(h, k, x.index) && CellOk(h, k, y.index);
      forall m: nat | m < h[x.index].functor.arity && h[x.index] == h[y.index]
        ensures (Arg(h, x.index, m), Arg(h', x.index, m)) in r
        ensures (Arg(h, y.index, m), Arg(h', y.index, m)) in r
      {
        ArgIsTerm(h, k, x.index, m);
        ArgIsTerm(h, k, y.index, m);
      }
    }
  }

  lemma BindsKeepsBigData(h: seq<Cell>, h': seq<Cell>, k: seq<Kind>, i: nat)
    requires Shaped(h, k) && Binds(h, h', k) && IsTerm(k, Big(i))
    ensures BigData(h, i) == BigData(h', i)
  {
    assert CellOk(h, k, i);
    var n := NumCells(h[i].bits);
    assert forall j :: i <= j < i + n ==> h[j] == h'[j];
    assert h[i..i + n] == h'[i..i + n];
  }
}
