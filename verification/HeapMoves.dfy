/** What a collection of whole heap blocks ought to do, on flat memories: which cells are
    reachable, where a cell moves when dead blocks are squeezed out, and why the moved heap
    is the same graph. */
module HeapMoves {
  import opened Cells

  const B: nat := BLOCK_SIZE

  /** The addresses a cell at `a` leads to. */
  ghost predicate Leads(mem: seq<Cell>, a: nat, b: nat)
    requires a < |mem|
  {
    match mem[a]
    case Ref(i) => b == i
    case Str(i) => b == i
    case Big(i) => b == i
    case Con(f) => a < b <= a + f.arity
    case _ => false
  }

  ghost predicate Closed(mem: seq<Cell>, s: set<nat>) {
    forall a: nat, b: nat :: a in s && a < |mem| && Leads(mem, a, b) ==> b in s
  }

  ghost predicate Contains(s: set<nat>, roots: seq<nat>) {
    forall r :: r in roots ==> r in s
  }

  /** `s` is exactly what can be reached from the roots. */
  ghost predicate Reachable(mem: seq<Cell>, roots: seq<nat>, s: set<nat>) {
    && Contains(s, roots) && Closed(mem, s)
    && forall t: set<nat> :: Contains(t, roots) && Closed(mem, t) ==> s <= t
  }

  /** Every address of `s` is in the heap; the cells of a bignum are, and are reached only
      through its header; the cell after a bignum is not beyond the last block. */
  ghost predicate InHeap(mem: seq<Cell>, s: set<nat>) {
    && (forall a :: a in s ==> a < |mem|)
    && (forall a :: a in s && mem[a].Dat? ==> DatOk(mem, s, a))
  }

  ghost predicate DatOk(mem: seq<Cell>, s: set<nat>, a: nat)
    requires a < |mem| && mem[a].Dat?
  {
    a + NumCells(mem[a].bits) < |mem| && forall x: nat :: a < x < a + NumCells(mem[a].bits) ==> x !in s
  }

  // ----- where blocks go -----

  /** Which blocks are kept. */
  type Kept = seq<bool>

  /** Number of blocks dropped below block `i`. */
  function Dropped(kept: Kept, i: nat): (n: nat)
    requires i <= |kept|
    ensures n <= i
  {
    if i == 0 then 0 else Dropped(kept, i - 1) + if kept[i - 1] then 0 else 1
  }

  /** Where the cell at `a` goes. */
  function Moved(kept: Kept, a: nat): (m: nat)
    requires a / B < |kept|
  {
    a - B * Dropped(kept, a / B)
  }

  lemma {:induction false} DroppedMonotone(kept: Kept, i: nat, j: nat)
    requires i <= j <= |kept|
    ensures Dropped(kept, i) <= Dropped(kept, j) <= Dropped(kept, i) + (j - i)
    ensures i < j && kept[i] ==> Dropped(kept, j) < Dropped(kept, i) + (j - i)
    ensures (forall l: nat :: i <= l < j ==> kept[l]) ==> Dropped(kept, j) == Dropped(kept, i)
    decreases j
  {
    if i < j {
      DroppedMonotone(kept, i, j - 1);
    }
  }

  /** A kept cell keeps its place in its block. */
  lemma {:induction false} MovedPlace(kept: Kept, a: nat)
    requires a / B < |kept|
    ensures Moved(kept, a) / B == a / B - Dropped(kept, a / B) && Moved(kept, a) % B == a % B
    ensures Moved(kept, a) == (a / B - Dropped(kept, a / B)) * B + a % B
  {
    var d := Dropped(kept, a / B);
    assert a == B * (a / B) + a % B;
    assert Moved(kept, a) == B * (a / B - d) + a % B;
  }

  /** Kept cells stay in order, and no two go to one place. */
  lemma MovedOrder(kept: Kept, a: nat, b: nat)
    requires a < b && b / B < |kept| && kept[a / B] && kept[b / B]
    ensures Moved(kept, a) < Moved(kept, b)
  {
    DroppedMonotone(kept, a / B, b / B);
    MovedPlace(kept, a);
    MovedPlace(kept, b);
    if a / B < b / B {
      assert Moved(kept, a) / B < Moved(kept, b) / B;
    }
  }

  lemma MovedInjective(kept: Kept, a: nat, b: nat)
    requires a / B < |kept| && b / B < |kept| && kept[a / B] && kept[b / B] && Moved(kept, a) == Moved(kept, b)
    ensures a == b
  {
    if a < b { MovedOrder(kept, a, b); }
    if b < a { MovedOrder(kept, b, a); }
  }

  /** Cells of adjacent kept blocks stay adjacent. */
  lemma MovedTogether(kept: Kept, a: nat, k: nat)
    requires (a + k) / B < |kept| && forall i: nat :: a / B <= i <= (a + k) / B ==> kept[i]
    ensures a / B < |kept| && Moved(kept, a + k) == Moved(kept, a) + k
  {
    DroppedMonotone(kept, a / B, (a + k) / B);
  }

  // ----- the moved heap is the same graph -----

  /** A cell with its address, if it has one, moved. */
  function Relocate(kept: Kept, c: Cell): Cell
    requires c.Ref? || c.Str? || c.Big? ==> c.index / B < |kept|
  {
    match c
    case Ref(i) => Ref(Moved(kept, i))
    case Str(i) => Str(Moved(kept, i))
    case Big(i) => Big(Moved(kept, i))
    case _ => c
  }

  /** The blocks of `s` are kept. */
  ghost predicate Keeps(kept: Kept, s: set<nat>) {
    forall a :: a in s ==> a / B < |kept| && kept[a / B]
  }

  ghost predicate PointersIn(mem: seq<Cell>, kept: Kept, s: set<nat>) {
    forall a :: a in s && a < |mem| && (mem[a].Ref? || mem[a].Str? || mem[a].Big?) ==> mem[a].index / B < |kept|
  }

  /** `mem'` has the cells of `s`, moved and relocated. */
  ghost predicate MovedTo(mem: seq<Cell>, mem': seq<Cell>, kept: Kept, s: set<nat>)
    requires Keeps(kept, s) && PointersIn(mem, kept, s)
  {
    forall a :: a in s ==> a < |mem| && Moved(kept, a) < |mem'| && mem'[Moved(kept, a)] == Relocate(kept, mem[a])
  }

  ghost function Image(kept: Kept, s: set<nat>): set<nat>
    requires Keeps(kept, s)
  {
    set a | a in s :: Moved(kept, a)
  }

  ghost function MovedRoots(kept: Kept, roots: seq<nat>): seq<nat>
    requires forall i: nat :: i < |roots| ==> roots[i] / B < |kept|
  {
    seq(|roots|, i requires 0 <= i < |roots| => Moved(kept, roots[i]))
  }

  /** The arguments of a reachable structure stay next to its functor. */
  lemma ArgsTogether(mem: seq<Cell>, kept: Kept, s: set<nat>, a: nat, k: nat)
    requires Closed(mem, s) && Keeps(kept, s) && a in s && a < |mem| && mem[a].Con? && k <= mem[a].functor.arity
    ensures a + k in s && Moved(kept, a + k) == Moved(kept, a) + k
  {
    assert k > 0 ==> Leads(mem, a, a + k);
    forall i: nat | a / B <= i <= (a + k) / B ensures i < |kept| && kept[i] {
      // Some cell between the functor and its k-th argument is in block i.
      var b := if i == a / B then a else i * B;
      assert a <= b <= a + k && b / B == i;
      assert b > a ==> Leads(mem, a, b);
    }
    MovedTogether(kept, a, k);
  }

  /** A moved cell leads exactly to where the cells it led to have moved. */
  lemma LeadsMoved(mem: seq<Cell>, mem': seq<Cell>, kept: Kept, s: set<nat>, a: nat, b: nat)
    requires Closed(mem, s) && Keeps(kept, s) && PointersIn(mem, kept, s) && MovedTo(mem, mem', kept, s) && a in s
    ensures b in s && Leads(mem, a, b) ==> Leads(mem', Moved(kept, a), Moved(kept, b))
  {
    if b in s && Leads(mem, a, b) && mem[a].Con? {
      ArgsTogether(mem, kept, s, a, b - a);
    }
  }

  lemma LeadsBack(mem: seq<Cell>, mem': seq<Cell>, kept: Kept, s: set<nat>, a: nat, b': nat) returns (b: nat)
    requires Closed(mem, s) && Keeps(kept, s) && PointersIn(mem, kept, s) && MovedTo(mem, mem', kept, s) && a in s
    requires Leads(mem', Moved(kept, a), b')
    ensures b in s && Leads(mem, a, b) && Moved(kept, b) == b'
  {
    if mem[a].Con? {
      b := a + (b' - Moved(kept, a));
      ArgsTogether(mem, kept, s, a, b - a);
    } else {
      b := mem[a].index;
    }
    assert Leads(mem, a, b);
  }

  /** From the moved roots exactly the moved cells are reachable: with `MovedTo` and
      `MovedInjective`, the two heaps are the same graph. */
  lemma ReachableMoved(mem: seq<Cell>, mem': seq<Cell>, kept: Kept, s: set<nat>, roots: seq<nat>)
    requires Reachable(mem, roots, s) && Keeps(kept, s) && PointersIn(mem, kept, s) && MovedTo(mem, mem', kept, s)
    ensures forall i: nat :: i < |roots| ==> roots[i] / B < |kept|
    ensures Reachable(mem', MovedRoots(kept, roots), Image(kept, s))
  {
    forall i: nat | i < |roots| ensures roots[i] / B < |kept| {
      assert roots[i] in roots && roots[i] in s;
    }
    var roots', s' := MovedRoots(kept, roots), Image(kept, s);
    forall r | r in roots' ensures r in s' {
      var i: nat :| i < |roots'| && roots'[i] == r;
      assert roots[i] in roots;
    }
    forall a': nat, b': nat | a' in s' && a' < |mem'| && Leads(mem', a', b') ensures b' in s' {
      var a :| a in s && Moved(kept, a) == a';
      var b := LeadsBack(mem, mem', kept, s, a, b');
    }
    forall t': set<nat> | Contains(t', roots') && Closed(mem', t') ensures s' <= t' {
      var t := set a | a in s && Moved(kept, a) in t';
      forall r | r in roots ensures r in t {
        var i: nat :| i < |roots| && roots[i] == r;
        assert roots'[i] in roots';
      }
      forall a: nat, b: nat | a in t && a < |mem| && Leads(mem, a, b) ensures b in t {
        LeadsMoved(mem, mem', kept, s, a, b);
      }
      assert s <= t;
    }
  }
}
