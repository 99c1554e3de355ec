/** The collector of whole heap blocks: marks reachable cells, rewrites the pointers among them
    and the roots, and squeezes out the blocks without any. */
module GarbageCollector {
  import opened Cells
  import opened HeapMoves
  import opened Options

  class HeapBlock {
    var index: nat
    var offset: nat
    var size: nat
    const cells: array<Cell>

    constructor (index: nat, cells: array<Cell>)
      ensures this.index == index && this.offset == index * B && this.size == 0 && this.cells == cells
    {
      this.index, this.offset, this.size, this.cells := index, index * B, 0, cells;
    }

    method SetIndex(newIndex: nat)
      modifies `index, `offset
      ensures index == newIndex && offset == newIndex * B
    {
      index, offset := newIndex, newIndex * B;
    }
  }

  /** A pointer cell outside the heap that the collector must keep up to date. */
  class Root {
    var index: nat

    constructor (index: nat)
      ensures this.index == index
    {
      this.index := index;
    }
  }

  ghost function Arrays(blocks: seq<HeapBlock>): set<array<Cell>> {
    set b | b in blocks :: b.cells
  }

  ghost predicate Apart(b: HeapBlock, c: HeapBlock) {
    b != c && b.cells != c.cells
  }

  ghost predicate Sized(blocks: seq<HeapBlock>) {
    forall i: nat :: i < |blocks| ==> blocks[i].cells.Length == B
  }

  ghost predicate Separate(blocks: seq<HeapBlock>) {
    forall i: nat, j: nat {:trigger Apart(blocks[i], blocks[j])} :: i < j < |blocks| ==> Apart(blocks[i], blocks[j])
  }

  lemma OthersApart(blocks: seq<HeapBlock>, i: nat)
    requires Separate(blocks) && i < |blocks|
    ensures forall p: nat :: p < |blocks| && p != i ==> blocks[p].cells != blocks[i].cells
  {
    forall p: nat | p < |blocks| && p != i ensures blocks[p].cells != blocks[i].cells {
      assert if p < i then Apart(blocks[p], blocks[i]) else Apart(blocks[i], blocks[p]);
    }
  }

  /** The blocks as one memory. */
  ghost function Flat(blocks: seq<HeapBlock>): (mem: seq<Cell>)
    requires Sized(blocks)
    reads Arrays(blocks)
    ensures |mem| == |blocks| * B
    ensures forall i: nat, j: nat {:trigger blocks[i].cells[j]} :: i < |blocks| && j < B ==>
            mem[i * B + j] == blocks[i].cells[j]
  {
    var mem := seq(|blocks| * B, a requires 0 <= a < |blocks| * B reads Arrays(blocks) =>
      PlaceInBlock(|blocks|, a); blocks[a / B].cells[a % B]);
    mem
  }

  ghost predicate Holds(blocks: seq<HeapBlock>, mem: seq<Cell>)
    reads Arrays(blocks)
  {
    Sized(blocks) && mem == Flat(blocks)
  }

  lemma PlaceInBlock(n: nat, a: nat)
    requires a < n * B
    ensures a / B < n && a % B < B && a == a / B * B + a % B
  {
  }

  lemma FlatAt(blocks: seq<HeapBlock>, i: nat, j: nat, a: nat)
    requires Sized(blocks) && i < |blocks| && j < B && a == i * B + j
    ensures a < |Flat(blocks)| && Flat(blocks)[a] == blocks[i].cells[j]
  {
    assert Flat(blocks)[i * B + j] == blocks[i].cells[j];
  }

  // ----- marking -----

  /** For each block, the marked cells in it, if it is kept at all. */
  type Live = seq<Option<set<nat>>>

  ghost function KeptBlocks(live: Live): Kept {
    seq(|live|, i requires 0 <= i < |live| => live[i].Some?)
  }

  predicate IsMarked(live: Live, a: nat) {
    a / B < |live| && live[a / B].Some? && a % B in live[a / B].value
  }

  /** The blocks a bignum of `n` cells at `a` lies in, and the one after its last cell. */
  ghost predicate SpanKept(live: Live, a: nat, n: nat) {
    forall i: nat :: a / B <= i <= (a + n) / B && i < |live| ==> live[i].Some?
  }

  ghost predicate SpansKept(mem: seq<Cell>, live: Live) {
    forall a: nat :: IsMarked(live, a) && a < |mem| && mem[a].Dat? ==> SpanKept(live, a, NumCells(mem[a].bits))
  }

  /** Something marked lies in block `i`. */
  ghost predicate Needed(mem: seq<Cell>, live: Live, i: nat) {
    exists a: nat :: IsMarked(live, a) && a < |mem| && Touches(mem, a, i)
  }

  ghost predicate Touches(mem: seq<Cell>, a: nat, i: nat)
    requires a < |mem|
  {
    a / B == i || (mem[a].Dat? && a / B <= i <= (a + NumCells(mem[a].bits)) / B)
  }

  /** No block is kept without need. */
  ghost predicate JustKept(mem: seq<Cell>, live: Live) {
    forall i: nat {:trigger Needed(mem, live, i)} :: i < |live| && live[i].Some? ==> Needed(mem, live, i)
  }

  /** `live'` keeps all that `live` keeps. */
  ghost predicate Grown(live: Live, live': Live) {
    |live'| == |live| && forall i: nat :: i < |live| && live[i].Some? ==> live'[i].Some?
  }

  /** Keeps block `i`. */
  function MarkBlock(live: Live, i: nat): (r: Live)
    requires i < |live|
    ensures Grown(live, r) && r[i].Some?
    ensures forall a: nat :: IsMarked(r, a) <==> IsMarked(live, a)
  {
    if live[i].Some? then live else live[i := Some({})]
  }

  function MarkCell(live: Live, a: nat): (r: Live)
    requires a / B < |live|
    ensures Grown(live, r)
    ensures forall x: nat :: IsMarked(r, x) <==> IsMarked(live, x) || x == a
  {
    var l := MarkBlock(live, a / B);
    var r := l[a / B := Some(l[a / B].value + {a % B})];
    assert forall x: nat :: IsMarked(r, x) ==> IsMarked(live, x) || (x / B == a / B && x % B == a % B);
    r
  }

  /** The cells `a` leads to, in the order they are pushed. */
  function Children(c: Cell, a: nat): seq<nat> {
    match c
    case Ref(i) => [i]
    case Str(i) => [i]
    case Big(i) => [i]
    case Con(f) => seq(f.arity, k requires 0 <= k < f.arity => a + k + 1)
    case _ => []
  }

  lemma ChildrenLead(mem: seq<Cell>, a: nat, b: nat)
    requires a < |mem|
    ensures b in Children(mem[a], a) <==> Leads(mem, a, b)
  {
    if mem[a].Con? && Leads(mem, a, b) {
      assert Children(mem[a], a)[b - a - 1] == b;
    }
  }

  /** Marked cells and waiting cells together are reachable, and nothing is missing. */
  ghost predicate Marking(mem: seq<Cell>, roots: seq<nat>, u: set<nat>, marked: set<nat>, worklist: seq<nat>) {
    && Contains(u, roots) && Closed(mem, u)
    && (forall a: nat :: a in marked || a in worklist ==> a in u)
    && (forall r :: r in roots ==> r in marked || r in worklist)
    && (forall a: nat, b: nat :: a in marked && a < |mem| && Leads(mem, a, b) ==> b in marked || b in worklist)
    && (forall t: set<nat>, a: nat :: Contains(t, roots) && Closed(mem, t) && (a in marked || a in worklist) ==> a in t)
  }

  lemma MarkSkip(mem: seq<Cell>, roots: seq<nat>, u: set<nat>, marked: set<nat>, worklist: seq<nat>, a: nat)
    requires Marking(mem, roots, u, marked, worklist + [a]) && a in marked
    ensures Marking(mem, roots, u, marked, worklist)
  {
    assert forall x: nat :: x in marked || x in worklist <==> x in marked || x in worklist + [a];
  }

  lemma MarkStep(mem: seq<Cell>, roots: seq<nat>, u: set<nat>, marked: set<nat>, worklist: seq<nat>, a: nat)
    requires Marking(mem, roots, u, marked, worklist + [a]) && a !in marked && a < |mem|
    ensures Marking(mem, roots, u, marked + {a}, worklist + Children(mem[a], a))
    ensures a in u && |u - (marked + {a})| < |u - marked|
  {
    var cs := Children(mem[a], a);
    var marked', worklist' := marked + {a}, worklist + cs;
    assert a in worklist + [a];
    forall b: nat ensures b in cs <==> Leads(mem, a, b) { ChildrenLead(mem, a, b); }
    assert forall x: nat :: x in worklist + [a] <==> x in worklist || x == a;
    assert forall x: nat :: x in worklist' <==> x in worklist || x in cs;
    forall x: nat, b: nat | x in marked' && x < |mem| && Leads(mem, x, b) ensures b in marked' || b in worklist' {
      if x != a { assert b in marked || b in worklist + [a]; }
    }
    forall t: set<nat>, x: nat | Contains(t, roots) && Closed(mem, t) && (x in marked' || x in worklist')
      ensures x in t
    {
      assert a in t;
    }
    assert u - marked == (u - marked') + {a};
  }

  lemma MarkDone(mem: seq<Cell>, roots: seq<nat>, u: set<nat>, marked: set<nat>, worklist: seq<nat>)
    requires Marking(mem, roots, u, marked, worklist) && |worklist| == 0
    ensures Reachable(mem, roots, marked) && marked <= u
  {
  }

  lemma NextInHeap(mem: seq<Cell>, roots: seq<nat>, u: set<nat>, marked: set<nat>, worklist: seq<nat>, a: nat)
    requires Marking(mem, roots, u, marked, worklist + [a]) && InHeap(mem, u)
    ensures a in u && a < |mem|
  {
    assert a in worklist + [a];
  }

  ghost predicate Marks(live: Live, marked: set<nat>) {
    forall a: nat :: IsMarked(live, a) <==> a in marked
  }

  // ----- rewriting -----

  predicate PointerKept(kept: Kept, c: Cell) {
    c.Ref? || c.Str? || c.Big? ==> c.index / B < |kept| && kept[c.index / B]
  }

  /** The delta of every kept block: how far its cells move down. */
  ghost predicate DeltasFor(deltas: map<nat, nat>, kept: Kept, n: nat)
    requires n <= |kept|
  {
    && (forall i: nat {:trigger i in deltas} :: i in deltas <==> i < n && kept[i])
    && (forall i: nat {:trigger deltas[i]} :: i < n && kept[i] ==> deltas[i] == B * Dropped(kept, i))
  }

  /** What becomes of a cell. */
  function NewCell(kept: Kept, marked: bool, c: Cell): Cell {
    if marked && PointerKept(kept, c) then Relocate(kept, c) else c
  }

  predicate MarkedIn(live: Live, i: nat, j: nat) {
    i < |live| && live[i].Some? && j in live[i].value
  }

  /** Block `i`, whose cells were those of `mem`, has been rewritten, or not yet. */
  ghost predicate BlockIs(cells: array<Cell>, mem: seq<Cell>, live: Live, i: nat, done: bool)
    reads cells
  {
    && cells.Length == B && (i + 1) * B <= |mem|
    && forall j: nat {:trigger cells[j]} :: j < B ==>
      cells[j] == NewCell(KeptBlocks(live), done && MarkedIn(live, i, j), mem[i * B + j])
  }

  ghost predicate MarkedKept(mem: seq<Cell>, live: Live) {
    forall a: nat :: IsMarked(live, a) && a < |mem| ==> PointerKept(KeptBlocks(live), mem[a])
  }

  ghost predicate Rewritten(mem: seq<Cell>, mem': seq<Cell>, live: Live)
    requires MarkedKept(mem, live)
  {
    && |mem'| == |mem|
    && forall a: nat :: a < |mem| ==>
         mem'[a] == if IsMarked(live, a) then Relocate(KeptBlocks(live), mem[a]) else mem[a]
  }

  lemma NoneRewritten(blocks: seq<HeapBlock>, mem: seq<Cell>, live: Live)
    requires Holds(blocks, mem)
    ensures forall p: nat :: p < |blocks| ==> BlockIs(blocks[p].cells, mem, live, p, false)
  {
    forall p: nat | p < |blocks| ensures BlockIs(blocks[p].cells, mem, live, p, false) {
      assert (p + 1) * B <= |mem|;
    }
  }

  /** A block with nothing marked is left as it is. */
  lemma DeadBlock(cells: array<Cell>, mem: seq<Cell>, live: Live, i: nat)
    requires BlockIs(cells, mem, live, i, false) && i < |live| && live[i] == None
    ensures BlockIs(cells, mem, live, i, true)
  {
  }

  lemma OneRewritten(cells: array<Cell>, mem: seq<Cell>, live: Live, a: nat)
    requires |mem| == |live| * B && a < |mem| && MarkedKept(mem, live)
    requires BlockIs(cells, mem, live, a / B, true)
    ensures cells[a % B] == if IsMarked(live, a) then Relocate(KeptBlocks(live), mem[a]) else mem[a]
  {
    PlaceInBlock(|live|, a);
    assert IsMarked(live, a) <==> MarkedIn(live, a / B, a % B);
  }

  lemma AllRewritten(blocks: seq<HeapBlock>, mem: seq<Cell>, live: Live)
    requires Sized(blocks) && |live| == |blocks| && |mem| == |blocks| * B && MarkedKept(mem, live)
    requires forall p: nat :: p < |blocks| ==> BlockIs(blocks[p].cells, mem, live, p, true)
    ensures Rewritten(mem, Flat(blocks), live)
  {
    var mem' := Flat(blocks);
    forall a: nat | a < |mem|
      ensures mem'[a] == if IsMarked(live, a) then Relocate(KeptBlocks(live), mem[a]) else mem[a]
    {
      PlaceInBlock(|blocks|, a);
      var cells := blocks[a / B].cells;
      OneRewritten(cells, mem, live, a);
      assert mem'[a] == cells[a % B];
    }
  }

  // ----- squeezing out -----

  /** The kept ones among the first `n` blocks. */
  ghost function KeptOnly(blocks: seq<HeapBlock>, kept: Kept, n: nat): (r: seq<HeapBlock>)
    requires n <= |blocks| == |kept|
    ensures |r| == n - Dropped(kept, n)
  {
    if n == 0 then [] else KeptOnly(blocks, kept, n - 1) + if kept[n - 1] then [blocks[n - 1]] else []
  }

  lemma {:induction false} KeptOnlyAt(blocks: seq<HeapBlock>, kept: Kept, n: nat, i: nat)
    requires i < n <= |blocks| == |kept| && kept[i]
    ensures i - Dropped(kept, i) < |KeptOnly(blocks, kept, n)|
    ensures KeptOnly(blocks, kept, n)[i - Dropped(kept, i)] == blocks[i]
  {
    if i < n - 1 {
      KeptOnlyAt(blocks, kept, n - 1, i);
    }
  }

  /** Every block after squeezing was kept. */
  lemma {:induction false} KeptOnlyFrom(blocks: seq<HeapBlock>, kept: Kept, n: nat, q: nat) returns (i: nat)
    requires n <= |blocks| == |kept| && q < |KeptOnly(blocks, kept, n)|
    ensures i < n && kept[i] && i - Dropped(kept, i) == q && KeptOnly(blocks, kept, n)[q] == blocks[i]
  {
    if q < |KeptOnly(blocks, kept, n - 1)| {
      i := KeptOnlyFrom(blocks, kept, n - 1, q);
    } else {
      i := n - 1;
    }
  }

  lemma {:induction false} KeptApart(blocks: seq<HeapBlock>, kept: Kept, p: nat, q: nat)
    requires |kept| == |blocks| && p < q < |KeptOnly(blocks, kept, |kept|)|
    requires Separate(blocks)
    ensures Apart(KeptOnly(blocks, kept, |kept|)[p], KeptOnly(blocks, kept, |kept|)[q])
  {
    var i := KeptOnlyFrom(blocks, kept, |kept|, p);
    var j := KeptOnlyFrom(blocks, kept, |kept|, q);
    if j < i { DroppedMonotone(kept, j, i); }
    assert Apart(blocks[i], blocks[j]);
  }

  /** Squeezed blocks are separate. */
  lemma {:induction false} KeptSeparate(blocks: seq<HeapBlock>, kept: Kept)
    requires Sized(blocks) && Separate(blocks) && |kept| == |blocks|
    ensures Sized(KeptOnly(blocks, kept, |kept|)) && Separate(KeptOnly(blocks, kept, |kept|))
  {
    var r := KeptOnly(blocks, kept, |kept|);
    forall q: nat | q < |r| ensures r[q].cells.Length == B {
      var i := KeptOnlyFrom(blocks, kept, |kept|, q);
    }
    forall p: nat, q: nat | p < q < |r| ensures Apart(r[p], r[q]) {
      KeptApart(blocks, kept, p, q);
    }
  }

  /** Squeezed blocks hold each kept cell where it should go. */
  lemma {:induction false} KeptFlat(blocks: seq<HeapBlock>, r: seq<HeapBlock>, kept: Kept, mem: seq<Cell>, a: nat)
    requires Holds(blocks, mem) && |kept| == |blocks| && r == KeptOnly(blocks, kept, |kept|) && Sized(r)
    requires a < |mem| && kept[a / B]
    ensures Moved(kept, a) < |Flat(r)| && Flat(r)[Moved(kept, a)] == mem[a]
  {
    PlaceInBlock(|blocks|, a);
    MovedPlace(kept, a);
    KeptOnlyAt(blocks, kept, |kept|, a / B);
    FlatAt(blocks, a / B, a % B, a);
    FlatAt(r, a / B - Dropped(kept, a / B), a % B, Moved(kept, a));
  }

  /** How many of the first `n` blocks lie before the last kept one, itself among them: 0 if none is kept. */
  ghost function UpToKept(kept: Kept, n: nat): (k: nat)
    requires n <= |kept|
    ensures k <= n && (k > 0 ==> kept[k - 1])
  {
    if n == 0 || kept[n - 1] then n else UpToKept(kept, n - 1)
  }

  /** There are no blocks, or one is kept and the last kept one is filled as far as the last of all. */
  ghost predicate SizeStays(sizes: seq<nat>, kept: Kept) {
    |sizes| == |kept| && (sizes == [] ||
      var k := UpToKept(kept, |kept|);
      k > 0 && sizes[|sizes| - 1] == sizes[k - 1])
  }

  lemma HeadKept(sizes: seq<nat>, live: Live)
    requires |sizes| == |live|
    ensures live == [] || live[|live| - 1].Some? ==> SizeStays(sizes, KeptBlocks(live))
  {
  }

  lemma {:induction false} LastKept(blocks: seq<HeapBlock>, kept: Kept, n: nat)
    requires n <= |blocks| == |kept|
    ensures var k, r := UpToKept(kept, n), KeptOnly(blocks, kept, n);
            if k == 0 then r == [] else r != [] && r[|r| - 1] == blocks[k - 1]
  {
    if n > 0 && !kept[n - 1] {
      LastKept(blocks, kept, n - 1);
    }
  }

  ghost function Sizes(blocks: seq<HeapBlock>): (r: seq<nat>)
    reads blocks
    ensures |r| == |blocks| && forall i: nat :: i < |blocks| ==> r[i] == blocks[i].size
  {
    seq(|blocks|, i requires 0 <= i < |blocks| reads blocks => blocks[i].size)
  }

  /** The first `n` blocks have been looked at. */
  ghost predicate Squeezing(all: seq<HeapBlock>, kept: Kept, n: nat, bs: seq<HeapBlock>)
    requires n <= |all| == |kept|
  {
    |bs| == |all| && bs[..n - Dropped(kept, n)] == KeptOnly(all, kept, n) && bs[n..] == all[n..]
  }

  /** One step of squeezing: the next block is new, and goes behind the kept ones. */
  lemma {:induction false} KeptStep(all: seq<HeapBlock>, kept: Kept, n: nat, bs: seq<HeapBlock>)
    requires Separate(all) && n < |all| == |kept| && Squeezing(all, kept, n, bs)
    ensures bs[n] == all[n] && bs[n] !in bs[..n - Dropped(kept, n)]
    ensures Squeezing(all, kept, n + 1, if kept[n] then bs[n - Dropped(kept, n) := bs[n]] else bs)
  {
    var q := n - Dropped(kept, n);
    assert bs[n] == bs[n..][0] && all[n] == all[n..][0];
    forall p: nat | p < q ensures bs[..q][p] != all[n] {
      var i := KeptOnlyFrom(all, kept, n, p);
      assert Apart(all[i], all[n]);
    }
    var bs' := if kept[n] then bs[q := bs[n]] else bs;
    assert bs'[n + 1..] == bs[n..][1..] && all[n + 1..] == all[n..][1..];
    if kept[n] { assert bs'[..q + 1] == bs[..q] + [bs[n]]; }
  }

  // ----- the whole collection -----

  /** The payload of every marked bignum stays together, unchanged. */
  ghost predicate PayloadsMoved(mem: seq<Cell>, mem': seq<Cell>, kept: Kept, s: set<nat>)
    requires Keeps(kept, s) && InHeap(mem, s)
  {
    forall a: nat, k: nat :: a in s && mem[a].Dat? && k < NumCells(mem[a].bits) ==>
      PayloadMoved(mem, mem', kept, a, k)
  }

  ghost predicate PayloadMoved(mem: seq<Cell>, mem': seq<Cell>, kept: Kept, a: nat, k: nat)
    requires a / B < |kept| && a + k < |mem|
  {
    && Moved(kept, a) + k < |mem'| && mem'[Moved(kept, a) + k] == mem[a + k]
  }

  /** `mem'` with `roots'` is the same graph as `mem` with `roots`, without the dropped blocks. */
  ghost predicate Compacted(mem: seq<Cell>, roots: seq<nat>, mem': seq<Cell>, roots': seq<nat>, kept: Kept,
                            s: set<nat>) {
    && Reachable(mem, roots, s) && Keeps(kept, s) && InHeap(mem, s) && PointersIn(mem, kept, s)
    && MovedTo(mem, mem', kept, s) && PayloadsMoved(mem, mem', kept, s)
    && (forall i: nat :: i < |roots| ==> roots[i] / B < |kept|) && roots' == MovedRoots(kept, roots)
    && Reachable(mem', roots', Image(kept, s))
  }

  /** The cell at `a` and what it leads to are found again through `nu`: a pointer points at the same, a functor
      has its arguments behind it, a bignum its bits, and every other cell is as it was. */
  ghost predicate CellAgain(mem: seq<Cell>, mem': seq<Cell>, nu: nat -> nat, s: set<nat>, a: nat) {
    && a < |mem| && nu(a) < |mem'|
    && match mem[a]
       case Ref(i) => i in s && mem'[nu(a)] == Ref(nu(i))
       case Str(i) => i in s && mem'[nu(a)] == Str(nu(i))
       case Big(i) => i in s && mem'[nu(a)] == Big(nu(i))
       case Con(f) =>
         mem'[nu(a)] == mem[a] && forall b: nat :: a < b <= a + f.arity ==> b in s && nu(b) == nu(a) + (b - a)
       case Dat(_, _) => SameNumber(mem, a, mem', nu(a))
       case _ => mem'[nu(a)] == mem[a]
  }

  /** From the roots one graph is seen before and after. */
  ghost predicate SameGraph(mem: seq<Cell>, roots: seq<nat>, mem': seq<Cell>, roots': seq<nat>, nu: nat -> nat,
                            s: set<nat>) {
    && |roots'| == |roots| && (forall i: nat :: i < |roots| ==> roots[i] in s && roots'[i] == nu(roots[i]))
    && (forall a :: a in s ==> CellAgain(mem, mem', nu, s, a))
    && forall a, b :: a in s && b in s && a != b ==> nu(a) != nu(b)
  }

  ghost function NewPlace(kept: Kept): nat -> nat {
    (a: nat) => if a / B < |kept| then Moved(kept, a) else a
  }

  lemma {:induction false} BitsAgain(mem: seq<Cell>, mem': seq<Cell>, kept: Kept, s: set<nat>, a: nat, m: nat)
    requires Keeps(kept, s) && InHeap(mem, s) && a in s && PayloadsMoved(mem, mem', kept, s)
    requires mem[a].Dat? && 32 + 64 * m < mem[a].bits
    ensures a / B < |kept| && a + 1 + m < |mem| && Moved(kept, a) + 1 + m < |mem'|
    ensures mem'[Moved(kept, a) + 1 + m] == mem[a + 1 + m]
  {
    NumCellsLeast(mem[a].bits, m + 1);
    assert DatOk(mem, s, a) && PayloadMoved(mem, mem', kept, a, m + 1);
  }

  lemma {:induction false} NumberAgain(mem: seq<Cell>, mem': seq<Cell>, kept: Kept, s: set<nat>, a: nat)
    requires Keeps(kept, s) && InHeap(mem, s) && a in s && PayloadsMoved(mem, mem', kept, s) && mem[a].Dat?
    ensures a / B < |kept| && Moved(kept, a) < |mem'| && SameNumber(mem, a, mem', Moved(kept, a))
  {
    NumCellsLeast(mem[a].bits, 1);
    assert DatOk(mem, s, a) && PayloadMoved(mem, mem', kept, a, 0);
    forall m: nat | 32 + 64 * m < mem[a].bits
      ensures a + 1 + m < |mem| && Moved(kept, a) + 1 + m < |mem'| && mem'[Moved(kept, a) + 1 + m] == mem[a + 1 + m]
    {
      BitsAgain(mem, mem', kept, s, a, m);
    }
  }

  lemma {:induction false} FoundAgain(mem: seq<Cell>, mem': seq<Cell>, kept: Kept, s: set<nat>, a: nat)
    requires Keeps(kept, s) && InHeap(mem, s) && PointersIn(mem, kept, s) && Closed(mem, s) && a in s
    requires MovedTo(mem, mem', kept, s) && PayloadsMoved(mem, mem', kept, s)
    ensures CellAgain(mem, mem', NewPlace(kept), s, a)
  {
    var nu := NewPlace(kept);
    match mem[a] {
      case Ref(i) => assert Leads(mem, a, i);
      case Str(i) => assert Leads(mem, a, i);
      case Big(i) => assert Leads(mem, a, i);
      case Con(f) =>
        forall b: nat | a < b <= a + f.arity ensures b in s && nu(b) == nu(a) + (b - a) {
          ArgsTogether(mem, kept, s, a, b - a);
        }
      case Dat(_, _) => NumberAgain(mem, mem', kept, s, a);
      case _ =>
    }
  }

  /** What a collection keeps is the same graph. */
  lemma {:induction false} CompactedSame(mem: seq<Cell>, roots: seq<nat>, mem': seq<Cell>, roots': seq<nat>,
                                         kept: Kept, s: set<nat>)
    requires Compacted(mem, roots, mem', roots', kept, s)
    ensures SameGraph(mem, roots, mem', roots', NewPlace(kept), s)
  {
    var nu := NewPlace(kept);
    forall i: nat | i < |roots| ensures roots[i] in s && roots'[i] == nu(roots[i]) { assert roots[i] in roots; }
    forall a | a in s ensures CellAgain(mem, mem', nu, s, a) { FoundAgain(mem, mem', kept, s, a); }
    forall a, b | a in s && b in s && a != b ensures nu(a) != nu(b) {
      if nu(a) == nu(b) { MovedInjective(kept, a, b); }
    }
  }

  /** Each kept cell is where it should go. */
  ghost predicate Squeezed(mid: seq<Cell>, mem': seq<Cell>, kept: Kept)
    requires |mid| == |kept| * B
  {
    forall a: nat :: a < |mid| && kept[a / B] ==> Moved(kept, a) < |mem'| && mem'[Moved(kept, a)] == mid[a]
  }

  lemma {:induction false} AllKeptFlat(blocks: seq<HeapBlock>, r: seq<HeapBlock>, kept: Kept, mid: seq<Cell>)
    requires Holds(blocks, mid) && |kept| == |blocks| && r == KeptOnly(blocks, kept, |kept|) && Sized(r)
    ensures Squeezed(mid, Flat(r), kept)
  {
    forall a: nat | a < |mid| && kept[a / B] ensures Moved(kept, a) < |Flat(r)| && Flat(r)[Moved(kept, a)] == mid[a] {
      KeptFlat(blocks, r, kept, mid, a);
    }
  }

  /** What marking gives: what is reached lies in kept blocks, bignums whole. */
  lemma MarkedKeeps(mem: seq<Cell>, roots: seq<nat>, live: Live, marked: set<nat>)
    requires |mem| == |live| * B && Reachable(mem, roots, marked) && InHeap(mem, marked)
    requires Marks(live, marked)
    ensures Keeps(KeptBlocks(live), marked) && MarkedKept(mem, live) && PointersIn(mem, KeptBlocks(live), marked)
    ensures forall i: nat :: i < |roots| ==> roots[i] / B < |live| && KeptBlocks(live)[roots[i] / B]
  {
    forall a | a in marked ensures a / B < |live| && live[a / B].Some? {
      assert IsMarked(live, a);
    }
    forall a: nat | IsMarked(live, a) && a < |mem| ensures PointerKept(KeptBlocks(live), mem[a]) {
      var c := mem[a];
      if c.Ref? || c.Str? || c.Big? {
        assert Leads(mem, a, c.index);
      }
    }
    forall i: nat | i < |roots| ensures roots[i] / B < |live| && live[roots[i] / B].Some? {
      assert roots[i] in roots;
      assert IsMarked(live, roots[i]);
    }
  }

  lemma PayloadFlat(mem: seq<Cell>, mid: seq<Cell>, mem': seq<Cell>, live: Live, marked: set<nat>, a: nat, k: nat)
    requires |mem| == |live| * B && InHeap(mem, marked)
    requires Marks(live, marked) && SpansKept(mem, live) && MarkedKept(mem, live) && Rewritten(mem, mid, live)
    requires Squeezed(mid, mem', KeptBlocks(live))
    requires a in marked && mem[a].Dat? && k < NumCells(mem[a].bits)
    ensures a / B < |live| && a + k < |mem| && PayloadMoved(mem, mem', KeptBlocks(live), a, k)
  {
    assert DatOk(mem, marked, a) && IsMarked(live, a) && SpanKept(live, a, NumCells(mem[a].bits));
    MovedTogether(KeptBlocks(live), a, k);
    if k > 0 {
      assert a + k !in marked;
      assert !IsMarked(live, a + k);
    }
    assert KeptBlocks(live)[(a + k) / B];
  }

  /** The collected heap, block by block, is the compacted one. */
  lemma CompactedFlat(mem: seq<Cell>, mid: seq<Cell>, mem': seq<Cell>, roots: seq<nat>, live: Live, marked: set<nat>)
    requires |mem| == |live| * B && Reachable(mem, roots, marked) && InHeap(mem, marked)
    requires Marks(live, marked) && SpansKept(mem, live) && MarkedKept(mem, live) && Rewritten(mem, mid, live)
    requires Squeezed(mid, mem', KeptBlocks(live))
    ensures forall i: nat :: i < |roots| ==> roots[i] / B < |live|
    ensures Compacted(mem, roots, mem', MovedRoots(KeptBlocks(live), roots), KeptBlocks(live), marked)
  {
    var kept := KeptBlocks(live);
    MarkedKeeps(mem, roots, live, marked);
    forall a | a in marked
      ensures a < |mem| && Moved(kept, a) < |mem'| && mem'[Moved(kept, a)] == Relocate(kept, mem[a])
    {
      assert IsMarked(live, a) && kept[a / B];
    }
    forall a: nat, k: nat | a in marked && mem[a].Dat? && k < NumCells(mem[a].bits)
      ensures PayloadMoved(mem, mem', kept, a, k)
    {
      PayloadFlat(mem, mid, mem', live, marked, a, k);
    }
    ReachableMoved(mem, mem', kept, marked, roots);
  }

  ghost function Indices(roots: seq<Root>): (r: seq<nat>)
    reads roots
    ensures |r| == |roots| && forall i: nat :: i < |roots| ==> r[i] == roots[i].index
  {
    seq(|roots|, i requires 0 <= i < |roots| reads roots => roots[i].index)
  }

  ghost predicate Distinct(roots: seq<Root>) {
    forall i: nat, j: nat :: i < j < |roots| ==> roots[i] != roots[j]
  }

  lemma MarkStart(mem: seq<Cell>, roots: seq<nat>, u: set<nat>, live: Live)
    requires Contains(u, roots) && Closed(mem, u)
    requires forall i: nat :: i < |live| ==> live[i] == None
    ensures Marking(mem, roots, u, {}, roots)
    ensures Marks(live, {}) && SpansKept(mem, live) && JustKept(mem, live)
  {
  }

  class Collector {
    var blocks: seq<HeapBlock>
    var head: HeapBlock?
    var size: int

    ghost predicate Valid()
      reads this, blocks
    {
      && Sized(blocks) && Separate(blocks)
      && (forall i: nat :: i < |blocks| ==>
            blocks[i].index == i && blocks[i].offset == i * B && 0 < blocks[i].size <= B)
      && (if blocks == [] then size == 0 && head == null else
            var last := blocks[|blocks| - 1];
            head == last && size == (|blocks| - 1) * B + last.size)
    }

    constructor ()
      ensures Valid() && blocks == []
    {
      blocks, head, size := [], null, 0;
    }

    /** A heap of blocks already there. */
    constructor Of(blocks: seq<HeapBlock>)
      requires Sized(blocks) && Separate(blocks) && blocks != []
      requires forall i: nat :: i < |blocks| ==>
                 blocks[i].index == i && blocks[i].offset == i * B && 0 < blocks[i].size <= B
      ensures Valid() && this.blocks == blocks && size == (|blocks| - 1) * B + blocks[|blocks| - 1].size
    {
      this.blocks, this.head := blocks, blocks[|blocks| - 1];
      this.size := (|blocks| - 1) * B + blocks[|blocks| - 1].size;
    }

    /** The number of blocks, computed from the number of cells. */
    function NumBlocks(): (n: int)
      requires Valid()
      reads this, blocks
      ensures n == |blocks|
    {
      (size + B - 1) / B
    }

    /** Marks the blocks that a bignum of `n` cells at `current` spans. */
    method MarkSpan(live: Live, current: nat, n: nat) returns (r: Live)
      requires current / B < |live| && (current + n) / B < |live| && live[current / B].Some?
      ensures Grown(live, r) && SpanKept(r, current, n)
      ensures forall i: nat :: i < |r| && r[i].Some? ==> live[i].Some? || current / B <= i <= (current + n) / B
      ensures forall a: nat :: IsMarked(r, a) <==> IsMarked(live, a)
    {
      r := live;
      var datIndex := current + B;
      var blockIndex := datIndex / B;
      ghost var k := 1;
      while datIndex < current + n
        invariant k >= 1 && datIndex == current + k * B && blockIndex == current / B + k
        invariant Grown(live, r) && forall a: nat :: IsMarked(r, a) <==> IsMarked(live, a)
        invariant forall i: nat :: current / B <= i < blockIndex && i < |live| ==> r[i].Some?
        invariant forall i: nat :: i < |r| && r[i].Some? ==> live[i].Some? || current / B <= i <= (current + n) / B
      {
        assert blockIndex <= (current + n) / B;
        r := MarkBlock(r, blockIndex);
        blockIndex := blockIndex + 1;
        datIndex := datIndex + B;
        k := k + 1;
      }
      r := MarkBlock(r, (current + n) / B);
      assert (current + n) / B <= blockIndex;
    }

    /** Marks all that is reachable from the roots.  `u` is any closed set of good addresses with
        the roots in it: it shows that the heap can be walked. */
    method Mark(roots: seq<nat>, live0: Live, ghost mem: seq<Cell>, ghost u: set<nat>)
      returns (live: Live, ghost marked: set<nat>)
      requires Holds(blocks, mem) && |live0| == |blocks|
      requires forall i: nat :: i < |live0| ==> live0[i] == None
      requires Contains(u, roots) && Closed(mem, u) && InHeap(mem, u)
      ensures |live| == |live0|
      ensures Reachable(mem, roots, marked) && marked <= u
      ensures Marks(live, marked) && SpansKept(mem, live) && JustKept(mem, live)
    {
      live := live0;
      marked := {};
      var worklist := roots;
      MarkStart(mem, roots, u, live);
      while |worklist| > 0
        invariant |live| == |live0| && Marks(live, marked) && SpansKept(mem, live) && JustKept(mem, live)
        invariant Marking(mem, roots, u, marked, worklist)
        decreases |u - marked|, |worklist|
      {
        live, worklist, marked := MarkNext(roots, live, worklist, mem, u, marked);
      }
      MarkDone(mem, roots, u, marked, worklist);
    }

    /** Takes one address off the worklist. */
    method MarkNext(roots: seq<nat>, live: Live, worklist: seq<nat>, ghost mem: seq<Cell>, ghost u: set<nat>,
                    ghost marked: set<nat>)
        returns (live': Live, worklist': seq<nat>, ghost marked': set<nat>)
      requires Holds(blocks, mem) && |live| == |blocks| && InHeap(mem, u) && |worklist| > 0
      requires Marks(live, marked) && SpansKept(mem, live) && JustKept(mem, live) &&
               Marking(mem, roots, u, marked, worklist)
      ensures |live'| == |live| && Marks(live', marked') && SpansKept(mem, live') && JustKept(mem, live') &&
              Marking(mem, roots, u, marked', worklist')
      ensures |u - marked'| < |u - marked| || (marked' == marked && |worklist'| < |worklist|)
    {
      var n := |worklist| - 1;
      var current := worklist[n];
      assert worklist == worklist[..n] + [current];
      live', worklist', marked' := live, worklist[..n], marked;
      NextInHeap(mem, roots, u, marked, worklist', current);
      if IsMarked(live, current) {
        MarkSkip(mem, roots, u, marked, worklist', current);
      } else {
        var c := CellAt(current, mem);
        live' := MarkWord(live, current, c, mem, u, marked);
        MarkStep(mem, roots, u, marked, worklist', current);
        marked', worklist' := marked + {current}, worklist' + Children(c, current);
      }
    }

    /** The cell at `a`. */
    method CellAt(a: nat, ghost mem: seq<Cell>) returns (c: Cell)
      requires Holds(blocks, mem) && a < |mem|
      ensures c == mem[a]
    {
      PlaceInBlock(|blocks|, a);
      c := blocks[a / B].cells[a % B];
    }

    /** Marks the cell `c` at `current`, and the other blocks it spans if it is a bignum. */
    method MarkWord(live: Live, current: nat, c: Cell, ghost mem: seq<Cell>, ghost u: set<nat>, ghost marked: set<nat>)
        returns (r: Live)
      requires |mem| == |live| * B && InHeap(mem, u) && current in u && mem[current] == c
      requires Marks(live, marked) && SpansKept(mem, live) && JustKept(mem, live)
      ensures |r| == |live| && Marks(r, marked + {current}) && SpansKept(mem, r) && JustKept(mem, r)
    {
      PlaceInBlock(|live|, current);
      r := MarkCell(live, current);
      if c.Dat? {
        assert DatOk(mem, u, current);
        PlaceInBlock(|live|, current + NumCells(c.bits));
        r := MarkSpan(r, current, NumCells(c.bits));
      }
      forall i: nat | i < |r| && r[i].Some? ensures Needed(mem, r, i) {
        if i < |live| && live[i].Some? {
          assert Needed(mem, live, i);
        } else {
          assert IsMarked(r, current) && Touches(mem, current, i);
        }
      }
      forall a: nat | IsMarked(r, a) && a < |mem| && mem[a].Dat? ensures SpanKept(r, a, NumCells(mem[a].bits)) {
        if a != current { assert SpanKept(live, a, NumCells(mem[a].bits)); }
      }
    }

    /** How far each kept block moves, and how many cells the dropped ones had. */
    method CalculateDeltas(live: Live) returns (deltas: map<nat, nat>, total: nat)
      ensures DeltasFor(deltas, KeptBlocks(live), |live|) && total == B * Dropped(KeptBlocks(live), |live|)
    {
      deltas, total := map[], 0;
      ghost var kept := KeptBlocks(live);
      for i := 0 to |live|
        invariant DeltasFor(deltas, kept, i) && total == B * Dropped(kept, i)
      {
        if live[i] == None {
          total := total + B;
        } else {
          deltas := deltas[i := total];
        }
      }
    }

    method NewIndex(deltas: map<nat, nat>, index: nat, ghost kept: Kept) returns (r: nat)
      requires DeltasFor(deltas, kept, |kept|) && index / B < |kept| && kept[index / B]
      ensures r == Moved(kept, index)
    {
      var block := index / B;
      r := index - if block in deltas then deltas[block] else 0;
    }

    method RewriteCell(cells: array<Cell>, j: nat, deltas: map<nat, nat>, ghost kept: Kept)
      requires j < cells.Length && DeltasFor(deltas, kept, |kept|) && PointerKept(kept, cells[j])
      modifies cells
      ensures cells[..] == old(cells[..])[j := Relocate(kept, old(cells[j]))]
    {
      match cells[j]
      case Big(i) =>
        var newIndex := NewIndex(deltas, i, kept);
        if newIndex != i { cells[j] := Big(newIndex); }
      case Ref(i) =>
        var newIndex := NewIndex(deltas, i, kept);
        if newIndex != i { cells[j] := Ref(newIndex); }
      case Str(i) =>
        var newIndex := NewIndex(deltas, i, kept);
        if newIndex != i { cells[j] := Str(newIndex); }
      case _ =>
    }

    method RewriteBlock(cells: array<Cell>, live: Live, i: nat, deltas: map<nat, nat>, ghost mem: seq<Cell>)
      requires BlockIs(cells, mem, live, i, false) && MarkedKept(mem, live) && |mem| == |live| * B
      requires DeltasFor(deltas, KeptBlocks(live), |live|) && i < |live| && live[i].Some?
      modifies cells
      ensures BlockIs(cells, mem, live, i, true)
    {
      ghost var kept := KeptBlocks(live);
      var marks := live[i].value;
      for j := 0 to B
        invariant forall k: nat :: k < B ==> cells[k] == NewCell(kept, k < j && k in marks, mem[i * B + k])
      {
        ghost var before := cells[..];
        if j in marks {
          assert (i * B + j) / B == i && (i * B + j) % B == j;
          assert IsMarked(live, i * B + j);
          RewriteCell(cells, j, deltas, kept);
        }
        assert forall k: nat :: k < B && k != j ==> cells[k] == before[k];
      }
    }

    method RewriteBlocks(deltas: map<nat, nat>, live: Live, ghost mem: seq<Cell>) returns (ghost mem': seq<Cell>)
      requires Separate(blocks) && Holds(blocks, mem) && |live| == |blocks| && MarkedKept(mem, live)
      requires DeltasFor(deltas, KeptBlocks(live), |live|)
      modifies Arrays(blocks)
      ensures Holds(blocks, mem') && Rewritten(mem, mem', live)
    {
      NoneRewritten(blocks, mem, live);
      for i := 0 to |live|
        invariant forall p: nat :: p < i ==> BlockIs(blocks[p].cells, mem, live, p, true)
        invariant forall p: nat :: i <= p < |blocks| ==> BlockIs(blocks[p].cells, mem, live, p, false)
      {
        OthersApart(blocks, i);
        if live[i].Some? {
          RewriteBlock(blocks[i].cells, live, i, deltas, mem);
        } else {
          DeadBlock(blocks[i].cells, mem, live, i);
        }
      }
      mem' := Flat(blocks);
      AllRewritten(blocks, mem, live);
    }

    method RewriteRoots(deltas: map<nat, nat>, roots: seq<Root>, ghost kept: Kept)
      requires DeltasFor(deltas, kept, |kept|) && Distinct(roots)
      requires forall i: nat :: i < |roots| ==> roots[i].index / B < |kept| && kept[roots[i].index / B]
      modifies roots
      ensures Indices(roots) == MovedRoots(kept, old(Indices(roots)))
    {
      for i := 0 to |roots|
        invariant forall k: nat :: k < |roots| ==>
          roots[k].index == if k < i then Moved(kept, old(roots[k].index)) else old(roots[k].index)
      {
        var newIndex := NewIndex(deltas, roots[i].index, kept);
        if roots[i].index != newIndex {
          roots[i].index := newIndex;
        }
      }
    }

    /** Rewrites the pointers among the marked cells, and the roots. */
    method RewriteAll(deltas: map<nat, nat>, live: Live, roots: seq<Root>, ghost mem: seq<Cell>)
      returns (ghost mid: seq<Cell>)
      requires Valid() && Distinct(roots) && Holds(blocks, mem) && |live| == |blocks| && MarkedKept(mem, live)
      requires DeltasFor(deltas, KeptBlocks(live), |live|)
      requires forall i: nat :: i < |roots| ==> roots[i].index / B < |live| && KeptBlocks(live)[roots[i].index / B]
      modifies Arrays(blocks), roots
      ensures Valid() && Holds(blocks, mid) && Rewritten(mem, mid, live)
      ensures Indices(roots) == MovedRoots(KeptBlocks(live), old(Indices(roots)))
    {
      mid := RewriteBlocks(deltas, live, mem);
      RewriteRoots(deltas, roots, KeptBlocks(live));
    }

    /** Squeezes the kept blocks together and drops the others. */
    method CleanupBlocks(live: Live)
      requires Separate(blocks) && |live| == |blocks|
      modifies this, blocks`index, blocks`offset
      ensures blocks == KeptOnly(old(blocks), KeptBlocks(live), |live|)
      ensures forall q: nat :: q < |blocks| ==> blocks[q].index == q && blocks[q].offset == q * B
      ensures size == old(size) - B * Dropped(KeptBlocks(live), |live|)
      ensures head == if blocks == [] then old(head) else blocks[|blocks| - 1]
    {
      ghost var kept, all := KeptBlocks(live), blocks;
      var n, newIndex := |live|, 0;
      for i := 0 to n
        invariant newIndex == i - Dropped(kept, i) && size == old(size) && Squeezing(all, kept, i, blocks)
        invariant InPlace(newIndex)
        invariant head == if newIndex == 0 then old(head) else blocks[newIndex - 1]
      {
        KeptStep(all, kept, i, blocks);
        if live[i].Some? {
          KeepBlock(blocks[i], newIndex);
          newIndex := newIndex + 1;
        }
      }
      size := size - (n - newIndex) * B;
      blocks := blocks[..newIndex];
    }

    /** The blocks are numbered in order, and the last one is the head. */
    ghost predicate Renumbered()
      reads this, blocks
    {
      && (forall q: nat :: q < |blocks| ==> blocks[q].index == q && blocks[q].offset == q * B)
      && (blocks != [] ==> head == blocks[|blocks| - 1])
    }

    ghost predicate InPlace(n: nat)
      reads this, blocks
    {
      n <= |blocks| && forall q: nat :: q < n ==> blocks[q].index == q && blocks[q].offset == q * B
    }

    /** Makes `block` the one at `newIndex`, and for now the head. */
    method KeepBlock(block: HeapBlock, newIndex: nat)
      requires newIndex < |blocks| && block !in blocks[..newIndex] && InPlace(newIndex)
      modifies `blocks, `head, block`index, block`offset
      ensures blocks == old(blocks)[newIndex := block] && head == block && InPlace(newIndex + 1)
    {
      assert forall q: nat :: q < newIndex ==> blocks[q] == blocks[..newIndex][q];
      block.SetIndex(newIndex);
      blocks := blocks[newIndex := block];
      head := block;
    }

    /** The fill of the last kept block decides whether the size is still right. */
    lemma {:induction false} SizeAfter(all: seq<HeapBlock>, kept: Kept, n: nat)
      requires |kept| == |all| == n && blocks == KeptOnly(all, kept, n) && Sized(blocks) && Separate(blocks)
      requires forall q: nat :: q < |blocks| ==> blocks[q].index == q && blocks[q].offset == q * B
      requires forall i: nat :: i < n ==> 0 < all[i].size <= B
      requires size == (if n == 0 then 0 else (n - 1) * B + all[n - 1].size) - B * Dropped(kept, n)
      requires if blocks != [] then head == blocks[|blocks| - 1] else head == null <==> all == []
      ensures Valid() <==> SizeStays(Sizes(all), kept)
    {
      forall q: nat | q < |blocks| ensures 0 < blocks[q].size <= B {
        var i := KeptOnlyFrom(all, kept, n, q);
      }
      LastKept(all, kept, n);
    }

    /** Drops blocks, once the pointers are rewritten. */
    method Squeeze(live: Live, ghost mid: seq<Cell>, ghost sizes: seq<nat>) returns (ghost mem': seq<Cell>)
      requires Valid() && Holds(blocks, mid) && |live| == |blocks| && sizes == Sizes(blocks)
      modifies this, blocks`index, blocks`offset
      ensures Separate(blocks) && Holds(blocks, mem') && Squeezed(mid, mem', KeptBlocks(live))
      ensures blocks == KeptOnly(old(blocks), KeptBlocks(live), |live|) && Renumbered()
      ensures size == old(size) - B * (|old(blocks)| - |blocks|) && (blocks == [] ==> head == old(head))
      ensures Valid() <==> SizeStays(sizes, KeptBlocks(live))
    {
      ghost var kept, all := KeptBlocks(live), blocks;
      KeptSeparate(blocks, kept);
      CleanupBlocks(live);
      assert Holds(all, mid) && Sizes(all) == sizes;
      mem' := Flat(blocks);
      AllKeptFlat(all, blocks, kept, mid);
      SizeAfter(all, kept, |live|);
    }

    /** Moves pointers, roots and blocks, once the marking is done. */
    method Collect(live: Live, roots: seq<Root>, ghost mem: seq<Cell>)
        returns (collected: nat, ghost mid: seq<Cell>, ghost mem': seq<Cell>)
      requires Valid() && Distinct(roots) && Holds(blocks, mem) && |live| == |blocks| && MarkedKept(mem, live)
      requires forall i: nat :: i < |roots| ==> roots[i].index / B < |live| && KeptBlocks(live)[roots[i].index / B]
      modifies this, blocks`index, blocks`offset, Arrays(blocks), roots
      ensures Separate(blocks) && Rewritten(mem, mid, live) && Holds(blocks, mem') &&
              Squeezed(mid, mem', KeptBlocks(live))
      ensures Indices(roots) == MovedRoots(KeptBlocks(live), old(Indices(roots)))
      ensures blocks == KeptOnly(old(blocks), KeptBlocks(live), |live|) && collected == |old(blocks)| - |blocks|
      ensures Renumbered() && size == old(size) - B * collected && (blocks == [] ==> head == old(head))
      ensures Valid() <==> SizeStays(old(Sizes(blocks)), KeptBlocks(live))
    {
      ghost var sizes, all, first := Sizes(blocks), blocks, head;
      var deltas, total := CalculateDeltas(live);
      collected := total / B;
      mid := RewriteAll(deltas, live, roots, mem);
      assert Sizes(blocks) == sizes && blocks == all && head == first;
      ghost var moved := Indices(roots);
      mem' := Squeeze(live, mid, sizes);
      assert Indices(roots) == moved;
    }

    /** Marks from the roots. */
    method MarkRoots(roots: seq<Root>, ghost mem: seq<Cell>, ghost u: set<nat>)
      returns (live: Live, ghost marked: set<nat>)
      requires Valid() && Holds(blocks, mem) && Contains(u, Indices(roots)) && Closed(mem, u) && InHeap(mem, u)
      ensures |live| == |blocks| && Reachable(mem, Indices(roots), marked) && InHeap(mem, marked)
      ensures Marks(live, marked) && SpansKept(mem, live) && JustKept(mem, live)
      ensures MarkedKept(mem, live)
      ensures forall i: nat :: i < |roots| ==> roots[i].index / B < |live| && KeptBlocks(live)[roots[i].index / B]
    {
      var live0: Live := seq(NumBlocks(), i => None);
      ghost var r0 := Indices(roots);
      var worklist: seq<nat> := seq(|roots|, i requires 0 <= i < |roots| reads roots => roots[i].index);
      assert worklist == r0;
      live, marked := Mark(worklist, live0, mem, u);
      MarkedKeeps(mem, r0, live, marked);
    }

    /** Collects: see `Compacted`.  `u` shows that the heap can be walked from the roots. */
    method DoCollection(roots: seq<Root>, ghost u: set<nat>)
      returns (collected: nat, ghost live: Live, ghost marked: set<nat>)
      requires Valid() && Distinct(roots)
      requires Contains(u, Indices(roots)) && Closed(Flat(blocks), u) && InHeap(Flat(blocks), u)
      modifies this, blocks`index, blocks`offset, Arrays(blocks), roots
      ensures Sized(blocks) && Separate(blocks) && |live| == |old(blocks)|
      ensures Compacted(old(Flat(blocks)), old(Indices(roots)), Flat(blocks), Indices(roots), KeptBlocks(live), marked)
      ensures SameGraph(old(Flat(blocks)), old(Indices(roots)), Flat(blocks), Indices(roots),
                        NewPlace(KeptBlocks(live)), marked)
      ensures Marks(live, marked) && SpansKept(old(Flat(blocks)), live) && JustKept(old(Flat(blocks)), live)
      ensures blocks == KeptOnly(old(blocks), KeptBlocks(live), |live|) && collected == |old(blocks)| - |blocks|
      ensures Renumbered() && size == old(size) - B * collected && (blocks == [] ==> head == old(head))
      ensures Valid() <==> SizeStays(old(Sizes(blocks)), KeptBlocks(live))
      ensures (live == [] || live[|live| - 1].Some?) ==> Valid()
    {
      ghost var mem, r0, sizes := Flat(blocks), Indices(roots), Sizes(blocks);
      var l;
      l, marked := MarkRoots(roots, mem, u);
      live := l;
      ghost var mid, mem';
      collected, mid, mem' := Collect(l, roots, mem);
      CompactedFlat(mem, mid, mem', r0, live, marked);
      CompactedSame(mem, r0, mem', Indices(roots), KeptBlocks(live), marked);
      HeadKept(sizes, live);
    }
  }

  /** A block with its first `n` cells in use, all of them 0. */
  method FilledBlock(index: nat, n: nat) returns (b: HeapBlock)
    ensures fresh(b) && fresh(b.cells) && b.cells.Length == B && forall j: nat :: j < B ==> b.cells[j] == Int(0)
    ensures b.index == index && b.offset == index * B && b.size == n
  {
    var cells := new Cell[B](_ => Int(0));
    b := new HeapBlock(index, cells);
    b.size := n;
  }

  /** A heap with two cells in use in its first block and one in its second. */
  method TwoBlocks() returns (c: Collector, ghost mem: seq<Cell>)
    ensures c.Valid() && fresh(c) && fresh(c.blocks) && fresh(Arrays(c.blocks))
    ensures Sizes(c.blocks) == [2, 1] && c.size == B + 1 && mem == Flat(c.blocks) && mem[0] == Int(0)
    ensures Contains({0}, [0]) && Closed(mem, {0}) && InHeap(mem, {0})
  {
    var block0 := FilledBlock(0, 2);
    var block1 := FilledBlock(1, 1);
    var blocks := [block0, block1];
    assert Apart(block0, block1) && Arrays(blocks) == {block0.cells, block1.cells};
    c := new Collector.Of(blocks);
    mem := Flat(blocks);
    FlatAt(blocks, 0, 0, 0);
    FirstAlone(mem);
  }

  lemma FirstAlone(mem: seq<Cell>)
    requires mem != [] && mem[0] == Int(0)
    ensures Contains({0}, [0]) && Closed(mem, {0}) && InHeap(mem, {0})
  {
  }

  lemma {:induction false} FirstKept(all: seq<HeapBlock>, mem: seq<Cell>, live: Live, marked: set<nat>)
    requires |all| == |live| == 2 && |mem| == 2 * B && mem[0] == Int(0)
    requires Reachable(mem, [0], marked) && Marks(live, marked) && JustKept(mem, live)
    ensures KeptOnly(all, KeptBlocks(live), 2) == [all[0]] && !SizeStays([2, 1], KeptBlocks(live))
  {
    var kept := KeptBlocks(live);
    assert 0 in [0];
    assert IsMarked(live, 0);
    FirstAlone(mem);
    forall a: nat | IsMarked(live, a) ensures a == 0 { }
    assert !Needed(mem, live, 1);
    assert KeptOnly(all, kept, 1) == [all[0]] && UpToKept(kept, 2) == UpToKept(kept, 1);
  }

  method CollectTwo(c: Collector, root: Root, ghost mem: seq<Cell>) returns (collected: nat)
    requires c.Valid() && Sizes(c.blocks) == [2, 1] && mem == Flat(c.blocks) && mem[0] == Int(0) && root.index == 0
    requires Contains({0}, [0]) && Closed(mem, {0}) && InHeap(mem, {0})
    modifies c, c.blocks`index, c.blocks`offset, Arrays(c.blocks), root
    ensures collected == 1 && c.blocks == [old(c.blocks[0])] && c.size == old(c.size) - B && !c.Valid()
  {
    ghost var all := c.blocks;
    assert Indices([root]) == [0];
    ghost var live, marked;
    collected, live, marked := c.DoCollection([root], {0});
    FirstKept(all, mem, live, marked);
  }

  /** A collection that drops a last block filled less far than the block before leaves a wrong size:
      the heap then ends before the second cell of the block that is left. */
  method SizeLost() returns (c: Collector, collected: nat)
    ensures collected == 1 && |c.blocks| == 1 && c.blocks[0].size == 2
    ensures c.size == 1 && !c.Valid()
  {
    ghost var mem;
    c, mem := TwoBlocks();
    var root := new Root(0);
    assert c.blocks[0].size == Sizes(c.blocks)[0];
    collected := CollectTwo(c, root, mem);
  }

  lemma {:induction false} NoneKept(all: seq<HeapBlock>, mem: seq<Cell>, live: Live, marked: set<nat>)
    requires |all| == |live| == 1 && Reachable(mem, [], marked) && Marks(live, marked) && JustKept(mem, live)
    ensures KeptOnly(all, KeptBlocks(live), 1) == [] && !SizeStays([B], KeptBlocks(live))
  {
    assert Contains({}, []) && Closed(mem, {});
    forall a: nat ensures !IsMarked(live, a) { }
    assert !Needed(mem, live, 0);
  }

  /** A collection that drops all blocks leaves the last of them, which is deleted, as the head, even if
      the size is right. */
  method HeadLost() returns (c: Collector, collected: nat)
    ensures collected == 1 && c.blocks == [] && c.size == 0
    ensures c.head != null && !c.Valid()
  {
    var block := FilledBlock(0, B);
    ghost var all := [block];
    c := new Collector.Of([block]);
    ghost var mem := Flat(all);
    assert Contains({}, []) && Closed(mem, {}) && InHeap(mem, {});
    assert Sizes(all) == [B];
    ghost var live, marked;
    var none: seq<Root> := [];
    assert Indices(none) == [];
    collected, live, marked := c.DoCollection(none, {});
    NoneKept(all, mem, live, marked);
  }
}
