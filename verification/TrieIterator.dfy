/** Iterators over a trie: a spine of cursors from the root down to a leaf. */
module TrieIterator {
  import opened Options
  import opened RadixTree
  import opened TrieLaws
  import opened Packing
  import opened MerkleTrie

  datatype Cursor = Cursor(node: Node, index: nat)

  // ----- order of keys -----

  /** Keys below a smaller slot are smaller. */
  lemma {:induction false} SlotOrder(x: nat, y: nat, height: nat)
    requires height > 0 && Prefix(x, height) == Prefix(y, height) && SubIndex(x, height) < SubIndex(y, height)
    ensures x < y
  {
    PrefixStep(x, height);
    PrefixStep(y, height);
    if y <= x { PrefixOrder(y, x, height - 1); }
  }

  /** `x` is stored below slot `i` of `t`. */
  ghost predicate StoredAt(t: Tree, height: nat, i: nat, x: nat)
    requires height > 0
  {
    Find(t, height, x).Some? && SubIndex(x, height) == i
  }

  lemma {:induction false} StoredBelow(t: Tree, height: nat, p: nat, i: nat, x: nat)
    requires Placed(t, height, p) && t.Branch? && i < FANOUT
    ensures StoredAt(t, height, i, x) <==> Find(t.kids[i], height - 1, x).Some?
    ensures StoredAt(t, height, i, x) ==> Prefix(x, height) == p && t.kids[i] != Nil
  {
    FindInKid(t, height, p, i, x);
    if Prefix(x, height) != p { FindOutside(t, height, p, x); }
  }

  /** `k` is the least key of `t`. */
  ghost predicate Least(t: Tree, height: nat, k: nat) {
    Find(t, height, k).Some? && forall x: nat :: Find(t, height, x).Some? ==> k <= x
  }

  /** The least key of a branch is the least key below its first slot in use. */
  lemma {:induction false} LeastOfBranch(t: Tree, height: nat, p: nat, s: nat, k: nat)
    requires Placed(t, height, p) && t.Branch? && s < FANOUT && forall j: nat :: j < s ==> t.kids[j] == Nil
    requires Least(t.kids[s], height - 1, k)
    ensures Least(t, height, k)
  {
    StoredBelow(t, height, p, s, k);
    forall x: nat | Find(t, height, x).Some? ensures k <= x {
      var i := SubIndex(x, height);
      StoredBelow(t, height, p, i, x);
      if i > s { SlotOrder(k, x, height); }
    }
  }

  // ----- spines -----

  /** The prefix of the keys below the `j`-th cursor. */
  ghost function SpinePrefix(spine: seq<Cursor>, j: nat): nat
    requires j <= |spine|
  {
    if j == 0 then 0 else 32 * SpinePrefix(spine, j - 1) + spine[j - 1].index
  }

  lemma {:induction false} SpinePrefixLocal(spine: seq<Cursor>, spine': seq<Cursor>, j: nat)
    requires j <= |spine| && j <= |spine'| && forall l: nat :: l < j ==> spine[l].index == spine'[l].index
    ensures SpinePrefix(spine, j) == SpinePrefix(spine', j)
  {
    if j > 0 { SpinePrefixLocal(spine, spine', j - 1); }
  }

  /** The keys already passed, before `T`, are those in the slots up to the cursor. */
  ghost predicate Divides(t: Tree, height: nat, index: nat, T: nat)
    requires height > 0
  {
    forall x: nat :: Find(t, height, x).Some? ==>
      (SubIndex(x, height) < index ==> x < T) && (SubIndex(x, height) > index ==> x >= T)
  }

  /** `k` is the least stored key from `T` on. */
  ghost predicate First(t: Tree, height: nat, T: nat, k: nat) {
    Find(t, height, k).Some? && k >= T && forall x: nat :: Find(t, height, x).Some? && x >= T ==> k <= x
  }

  ghost predicate NoneFrom(t: Tree, height: nat, T: nat) {
    forall x: nat :: Find(t, height, x).Some? ==> x < T
  }

  lemma {:induction false} FirstUp(t: Tree, height: nat, p: nat, i: nat, T: nat, k: nat)
    requires Placed(t, height, p) && t.Branch? && i < FANOUT && Divides(t, height, i, T)
    requires First(t.kids[i], height - 1, T, k)
    ensures First(t, height, T, k)
  {
    StoredBelow(t, height, p, i, k);
    forall x: nat | Find(t, height, x).Some? && x >= T ensures k <= x {
      var j := SubIndex(x, height);
      StoredBelow(t, height, p, j, x);
      if j > i { SlotOrder(k, x, height); }
    }
  }

  lemma {:induction false} NoneUp(t: Tree, height: nat, p: nat, i: nat, T: nat)
    requires Placed(t, height, p) && t.Branch? && i < FANOUT && Divides(t, height, i, T)
    requires NoneFrom(t.kids[i], height - 1, T) && forall j: nat :: i < j < FANOUT ==> t.kids[j] == Nil
    ensures NoneFrom(t, height, T)
  {
    forall x: nat | Find(t, height, x).Some? ensures x < T {
      StoredBelow(t, height, p, SubIndex(x, height), x);
    }
  }

  /** Going to the next slot in use, from one below which nothing is left. */
  lemma {:induction false} FirstAcross(t: Tree, height: nat, p: nat, i: nat, m: nat, T: nat, k: nat)
    requires Placed(t, height, p) && t.Branch? && i < m < FANOUT && Divides(t, height, i, T)
    requires NoneFrom(t.kids[i], height - 1, T) && forall j: nat :: i < j < m ==> t.kids[j] == Nil
    requires Least(t.kids[m], height - 1, k)
    ensures First(t, height, T, k)
  {
    StoredBelow(t, height, p, m, k);
    forall x: nat | Find(t, height, x).Some? && x >= T ensures k <= x {
      var j := SubIndex(x, height);
      StoredBelow(t, height, p, j, x);
      if j > m { SlotOrder(k, x, height); }
    }
  }

  /** A key divides every branch on its way, at the slot it goes through. */
  lemma {:induction false} KeyDivides(t: Tree, height: nat, p: nat, k: nat, T: nat)
    requires Placed(t, height, p) && t.Branch? && Prefix(k, height) == p && k <= T <= k + 1
    ensures Divides(t, height, SubIndex(k, height), T)
  {
    forall x: nat | Find(t, height, x).Some?
      ensures (SubIndex(x, height) < SubIndex(k, height) ==> x < T) &&
              (SubIndex(x, height) > SubIndex(k, height) ==> x >= T)
    {
      StoredBelow(t, height, p, SubIndex(x, height), x);
      if SubIndex(x, height) < SubIndex(k, height) { SlotOrder(x, k, height); }
      if SubIndex(x, height) > SubIndex(k, height) { SlotOrder(k, x, height); }
    }
  }

  // ----- the same, backwards -----

  /** `k` is the greatest key of `t`. */
  ghost predicate Greatest(t: Tree, height: nat, k: nat) {
    Find(t, height, k).Some? && forall x: nat :: Find(t, height, x).Some? ==> x <= k
  }

  /** `k` is the greatest stored key below `T`. */
  ghost predicate Last(t: Tree, height: nat, T: nat, k: nat) {
    Find(t, height, k).Some? && k < T && forall x: nat :: Find(t, height, x).Some? && x < T ==> x <= k
  }

  ghost predicate NoneBelow(t: Tree, height: nat, T: nat) {
    forall x: nat :: Find(t, height, x).Some? ==> x >= T
  }

  lemma {:induction false} GreatestOfBranch(t: Tree, height: nat, p: nat, s: nat, k: nat)
    requires Placed(t, height, p) && t.Branch? && s < FANOUT && forall j: nat :: s < j < FANOUT ==> t.kids[j] == Nil
    requires Greatest(t.kids[s], height - 1, k)
    ensures Greatest(t, height, k)
  {
    StoredBelow(t, height, p, s, k);
    forall x: nat | Find(t, height, x).Some? ensures x <= k {
      var i := SubIndex(x, height);
      StoredBelow(t, height, p, i, x);
      if i < s { SlotOrder(x, k, height); }
    }
  }

  lemma {:induction false} LastUp(t: Tree, height: nat, p: nat, i: nat, T: nat, k: nat)
    requires Placed(t, height, p) && t.Branch? && i < FANOUT && Divides(t, height, i, T)
    requires Last(t.kids[i], height - 1, T, k)
    ensures Last(t, height, T, k)
  {
    StoredBelow(t, height, p, i, k);
    forall x: nat | Find(t, height, x).Some? && x < T ensures x <= k {
      var j := SubIndex(x, height);
      StoredBelow(t, height, p, j, x);
      if j < i { SlotOrder(x, k, height); }
    }
  }

  lemma {:induction false} NoneBelowUp(t: Tree, height: nat, p: nat, i: nat, T: nat)
    requires Placed(t, height, p) && t.Branch? && i < FANOUT && Divides(t, height, i, T)
    requires NoneBelow(t.kids[i], height - 1, T) && forall j: nat :: j < i ==> t.kids[j] == Nil
    ensures NoneBelow(t, height, T)
  {
    forall x: nat | Find(t, height, x).Some? ensures x >= T {
      StoredBelow(t, height, p, SubIndex(x, height), x);
    }
  }

  /** Going to the last slot in use before one below which nothing is left. */
  lemma {:induction false} LastAcross(t: Tree, height: nat, p: nat, i: nat, m: nat, T: nat, k: nat)
    requires Placed(t, height, p) && t.Branch? && m < i < FANOUT && Divides(t, height, i, T)
    requires NoneBelow(t.kids[i], height - 1, T) && forall j: nat :: m < j < i ==> t.kids[j] == Nil
    requires Greatest(t.kids[m], height - 1, k)
    ensures Last(t, height, T, k)
  {
    StoredBelow(t, height, p, m, k);
    forall x: nat | Find(t, height, x).Some? && x < T ensures x <= k {
      var j := SubIndex(x, height);
      StoredBelow(t, height, p, j, x);
      if j < m { SlotOrder(x, k, height); }
    }
  }

  // ----- places in the trie -----

  /** `c` is a place in the trie with the given root: a node `depth` levels down whose keys have
      the given prefix. */
  ghost predicate Place(H: HashFunction, root: Node, height: nat, depth: nat, prefix: nat, n: Node)
    reads root, root.repr
  {
    && root in root.repr && n in root.repr && n.repr <= root.repr && n.Valid(H)
    && depth < height && Placed(n.AsTree(), height - depth, prefix) && DenseKids(n.kids)
  }

  lemma ChildPlace(H: HashFunction, root: Node, height: nat, depth: nat, prefix: nat, n: Node, i: nat)
    requires Place(H, root, height, depth, prefix, n) && i < FANOUT
    ensures i !in n.mask <==> n.kids[i] == Nil
    ensures i in n.mask ==>
              match At(n.mask, n.data, i)
              case Null => false
              case LeafChild(k, v) => i in n.leaf && n.kids[i] == Leaf(k, v)
              case NodeChild(b) =>
                && i !in n.leaf && n.kids[i] == b.AsTree() && b.mask != {}
                && Place(H, root, height, depth + 1, 32 * prefix + i, b)
  {
    assert n.SlotOk(H, i);
    assert Placed(n.kids[i], height - depth - 1, 32 * prefix + i) && Dense(n.kids[i]);
    if i in n.mask {
      match At(n.mask, n.data, i) {
        case LeafChild(k, v) =>
        case NodeChild(b) =>
          b.SlotUsed(H);
          NothingAtMostOneLeaf(b.kids);
      }
    }
  }

  lemma {:induction false} NoKids(H: HashFunction, n: Node, a: nat, b: nat)
    requires n.Valid(H) && b <= FANOUT && forall j: nat :: a <= j < b ==> j !in n.mask
    ensures forall j: nat :: a <= j < b ==> n.kids[j] == Nil
  {
    if a <= b { n.EmptySlots(H, a, b); }
  }

  /** The spine is a path from the root. */
  ghost predicate OnPath(H: HashFunction, root: Node, height: nat, spine: seq<Cursor>)
    reads root, root.repr
  {
    && (spine != [] ==> spine[0].node == root)
    && (forall j: nat :: j < |spine| ==> CursorOk(H, root, height, spine, j))
    && (forall j: nat :: j + 1 < |spine| ==> Linked(H, root, height, spine, j))
  }

  ghost predicate CursorOk(H: HashFunction, root: Node, height: nat, spine: seq<Cursor>, j: nat)
    requires j < |spine|
    reads root, root.repr
  {
    spine[j].index < FANOUT && Place(H, root, height, j, SpinePrefix(spine, j), spine[j].node)
  }

  /** Cursor `j + 1` is at the child that cursor `j` selects. */
  ghost predicate Linked(H: HashFunction, root: Node, height: nat, spine: seq<Cursor>, j: nat)
    requires j + 1 < |spine|
    reads root, root.repr
  {
    CursorOk(H, root, height, spine, j) &&
    var n := spine[j].node;
    spine[j].index in n.mask && At(n.mask, n.data, spine[j].index) == NodeChild(spine[j + 1].node)
  }

  /** The cursor on top is at a leaf with key `k`. */
  ghost predicate AtLeaf(H: HashFunction, root: Node, height: nat, spine: seq<Cursor>, k: nat)
    reads root, root.repr
  {
    && OnPath(H, root, height, spine) && spine != []
    && var c := spine[|spine| - 1];
    && CursorOk(H, root, height, spine, |spine| - 1)
    && c.index in c.node.mask && At(c.node.mask, c.node.data, c.index).LeafChild?
    && At(c.node.mask, c.node.data, c.index).key == k
  }

  lemma PathPrefix(H: HashFunction, root: Node, height: nat, spine: seq<Cursor>, n: nat)
    requires OnPath(H, root, height, spine) && n <= |spine|
    ensures OnPath(H, root, height, spine[..n])
  {
    var s := spine[..n];
    forall j: nat | j < n ensures CursorOk(H, root, height, s, j) {
      SpinePrefixLocal(spine, s, j);
      assert CursorOk(H, root, height, spine, j);
    }
    forall j: nat | j + 1 < n ensures Linked(H, root, height, s, j) {
      assert CursorOk(H, root, height, s, j) && Linked(H, root, height, spine, j);
    }
  }

  /** A path may go on at the child its last cursor selects. */
  lemma {:induction false} PathPush(H: HashFunction, root: Node, height: nat, spine: seq<Cursor>, c: Cursor)
    requires OnPath(H, root, height, spine) && c.index < FANOUT
    requires if spine == [] then c.node == root && Place(H, root, height, 0, 0, root)
             else Place(H, root, height, |spine|, SpinePrefix(spine, |spine|), c.node)
                  && var t := spine[|spine| - 1];
                     CursorOk(H, root, height, spine, |spine| - 1) && t.index in t.node.mask
                     && At(t.node.mask, t.node.data, t.index) == NodeChild(c.node)
    ensures OnPath(H, root, height, spine + [c])
  {
    var s := spine + [c];
    forall j: nat | j < |s| ensures CursorOk(H, root, height, s, j) {
      SpinePrefixLocal(spine, s, j);
      if j < |spine| { assert CursorOk(H, root, height, spine, j); }
    }
    forall j: nat | j + 1 < |s| ensures Linked(H, root, height, s, j) {
      assert CursorOk(H, root, height, s, j);
      if j + 1 < |spine| { assert Linked(H, root, height, spine, j); }
    }
  }

  /** The last cursor may be moved to another slot of its node. */
  lemma PathMove(H: HashFunction, root: Node, height: nat, spine: seq<Cursor>, m: nat)
    requires OnPath(H, root, height, spine) && spine != [] && m < FANOUT
    ensures var n := |spine| - 1; OnPath(H, root, height, spine[..n] + [Cursor(spine[n].node, m)])
  {
    var n := |spine| - 1;
    PathPrefix(H, root, height, spine, n);
    SpinePrefixLocal(spine, spine[..n], n);
    assert CursorOk(H, root, height, spine, n);
    if n > 0 { assert Linked(H, root, height, spine, n - 1); }
    if n > 0 {
      PathPrefix(H, root, height, spine, n);
      assert CursorOk(H, root, height, spine[..n], n - 1);
    }
    PathPush(H, root, height, spine[..n], Cursor(spine[n].node, m));
  }

  /** The first key from `T` on below a cursor is the first of the whole trie, when every cursor
      above divides the keys at `T`. */
  lemma {:induction false} FirstToRoot(H: HashFunction, root: Node, height: nat, spine: seq<Cursor>, j: nat, T: nat,
                                       k: nat)
    requires OnPath(H, root, height, spine) && j < |spine|
    requires forall l: nat :: l < j ==> l < height && Divides(spine[l].node.AsTree(), height - l, spine[l].index, T)
    requires j < height && First(spine[j].node.AsTree(), height - j, T, k)
    ensures First(root.AsTree(), height, T, k)
  {
    if j > 0 {
      assert Linked(H, root, height, spine, j - 1) && CursorOk(H, root, height, spine, j - 1);
      var c := spine[j - 1];
      ChildPlace(H, root, height, j - 1, SpinePrefix(spine, j - 1), c.node, c.index);
      FirstUp(c.node.AsTree(), height - (j - 1), SpinePrefix(spine, j - 1), c.index, T, k);
      FirstToRoot(H, root, height, spine, j - 1, T, k);
    }
  }

  lemma {:induction false} LastToRoot(H: HashFunction, root: Node, height: nat, spine: seq<Cursor>, j: nat, T: nat,
                                      k: nat)
    requires OnPath(H, root, height, spine) && j < |spine|
    requires forall l: nat :: l < j ==> l < height && Divides(spine[l].node.AsTree(), height - l, spine[l].index, T)
    requires j < height && Last(spine[j].node.AsTree(), height - j, T, k)
    ensures Last(root.AsTree(), height, T, k)
  {
    if j > 0 {
      assert Linked(H, root, height, spine, j - 1) && CursorOk(H, root, height, spine, j - 1);
      var c := spine[j - 1];
      ChildPlace(H, root, height, j - 1, SpinePrefix(spine, j - 1), c.node, c.index);
      LastUp(c.node.AsTree(), height - (j - 1), SpinePrefix(spine, j - 1), c.index, T, k);
      LastToRoot(H, root, height, spine, j - 1, T, k);
    }
  }

  /** A leaf's key has the bits of the path that leads to it. */
  lemma {:induction false} LeafPath(H: HashFunction, root: Node, height: nat, spine: seq<Cursor>, k: nat, j: nat)
    requires AtLeaf(H, root, height, spine, k) && j < |spine|
    ensures j < height && spine[j].index == SubIndex(k, height - j) && SpinePrefix(spine, j) == Prefix(k, height - j)
    decreases |spine| - j
  {
    assert CursorOk(H, root, height, spine, j);
    var c, p := spine[j], SpinePrefix(spine, j);
    if j + 1 == |spine| {
      ChildPlace(H, root, height, j, p, c.node, c.index);
      assert Placed(c.node.kids[c.index], height - j - 1, 32 * p + c.index);
      PrefixStep(k, height - j);
    } else {
      LeafPath(H, root, height, spine, k, j + 1);
      PrefixStep(k, height - j);
    }
  }

  /** Every cursor divides the keys at `T`. */
  ghost predicate AllDivide(height: nat, spine: seq<Cursor>, T: nat)
    reads set c | c in spine :: c.node
  {
    forall j: nat :: j < |spine| ==>
      j < height && Divides(spine[j].node.AsTree(), height - j, spine[j].index, T)
  }

  /** No key from `T` on is left below the cursor on top. */
  ghost predicate TopDone(height: nat, spine: seq<Cursor>, T: nat)
    reads set c | c in spine :: c.node
  {
    && spine != [] && |spine| <= height
    && spine[|spine| - 1].index < |spine[|spine| - 1].node.kids|
    && NoneFrom(spine[|spine| - 1].node.kids[spine[|spine| - 1].index], height - |spine|, T)
  }

  /** Moving the cursor on top to a slot in use. */
  lemma SlotMove(H: HashFunction, root: Node, height: nat, spine: seq<Cursor>, m: nat)
    requires OnPath(H, root, height, spine) && spine != [] && |spine| <= height
    requires CursorOk(H, root, height, spine, |spine| - 1) && m in spine[|spine| - 1].node.mask
    ensures var node, n := spine[|spine| - 1].node, |spine| - 1;
            var s := spine[..n] + [Cursor(node, m)];
            AtSlot(H, root, height, s) && m < |node.kids| && Below(H, root, height, s) == node.kids[m]
  {
    PathMove(H, root, height, spine, m);
    assert CursorOk(H, root, height, spine[..|spine| - 1] + [Cursor(spine[|spine| - 1].node, m)], |spine| - 1);
  }

  /** The least key of `t` is the least key of `u`. */
  ghost predicate LeastIs(t: Tree, height: nat, u: Tree, height': nat) {
    forall k: nat :: Least(t, height, k) ==> Least(u, height', k)
  }

  /** The spine is a path, and the slot it ends at is in use. */
  ghost predicate AtSlot(H: HashFunction, root: Node, height: nat, spine: seq<Cursor>)
    reads root, root.repr
  {
    && OnPath(H, root, height, spine) && spine != [] && |spine| <= height
    && var c := spine[|spine| - 1];
       CursorOk(H, root, height, spine, |spine| - 1) && c.index in c.node.mask && c.index < |c.node.kids|
  }

  /** The tree below the slot the spine ends at. */
  ghost function Below(H: HashFunction, root: Node, height: nat, spine: seq<Cursor>): Tree
    requires AtSlot(H, root, height, spine)
    reads root, root.repr
  {
    var c := spine[|spine| - 1];
    c.node.kids[c.index]
  }

  /** Descending into the first slot of a branch. */
  lemma DescendStep(H: HashFunction, root: Node, height: nat, spine: seq<Cursor>, top: Tree, h0: nat)
    requires AtSlot(H, root, height, spine)
    requires spine[|spine| - 1].index !in spine[|spine| - 1].node.leaf
    requires LeastIs(Below(H, root, height, spine), height - |spine|, top, h0)
    ensures var c := spine[|spine| - 1];
            && Packed(c.node.mask, c.node.data) && At(c.node.mask, c.node.data, c.index).NodeChild?
            && var b := At(c.node.mask, c.node.data, c.index).node;
               var spine' := spine + [Cursor(b, NextSlot(b.mask, 0))];
               AtSlot(H, root, height, spine') && LeastIs(Below(H, root, height, spine'), height - |spine'|, top, h0)
  {
    var d := |spine| - 1;
    var c := spine[d];
    ChildPlace(H, root, height, d, SpinePrefix(spine, d), c.node, c.index);
    var b := At(c.node.mask, c.node.data, c.index).node;
    var index := NextSlot(b.mask, 0);
    PathPush(H, root, height, spine, Cursor(b, index));
    NoKids(H, b, 0, index);
    var t, h := b.AsTree(), height - d - 1;
    var first := t.kids[index];
    forall k: nat | Least(first, h - 1, k) ensures Least(t, h, k) {
      LeastOfBranch(t, h, SpinePrefix(spine, d + 1), index, k);
    }
    assert CursorOk(H, root, height, spine + [Cursor(b, index)], |spine|);
  }

  /** All keys before `T` and none from `T` on have been passed: the cursors divide the keys there. */
  ghost predicate Passing(H: HashFunction, root: Node, height: nat, spine: seq<Cursor>, T: nat)
    reads root, root.repr, set c | c in spine :: c.node
  {
    && OnPath(H, root, height, spine) && AllDivide(height, spine, T)
    && if spine == [] then NoneFrom(root.AsTree(), height, T) else TopDone(height, spine, T)
  }

  /** Giving up a cursor that has no slot in use any more. */
  lemma PopStep(H: HashFunction, root: Node, height: nat, spine: seq<Cursor>, T: nat)
    requires Passing(H, root, height, spine, T) && spine != []
    requires var c := spine[|spine| - 1]; c.index < SLOTS && NextSlot(c.node.mask, c.index + 1) == SLOTS
    ensures Passing(H, root, height, spine[..|spine| - 1], T)
  {
    var d := |spine| - 1;
    var c := spine[d];
    assert CursorOk(H, root, height, spine, d);
    NoKids(H, c.node, c.index + 1, SLOTS);
    assert Divides(c.node.AsTree(), height - d, c.index, T);
    NoneUp(c.node.AsTree(), height - d, SpinePrefix(spine, d), c.index, T);
    PathPrefix(H, root, height, spine, d);
    if d > 0 {
      assert Linked(H, root, height, spine, d - 1) && CursorOk(H, root, height, spine, d - 1);
      ChildPlace(H, root, height, d - 1, SpinePrefix(spine, d - 1), spine[d - 1].node, spine[d - 1].index);
    }
  }

  /** The least key below the next slot in use is the first key from `T` on. */
  lemma CrossStep(H: HashFunction, root: Node, height: nat, spine: seq<Cursor>, T: nat, next: nat, k: nat)
    requires OnPath(H, root, height, spine) && AllDivide(height, spine, T) && TopDone(height, spine, T)
    requires var c := spine[|spine| - 1];
             && c.index < SLOTS && next == NextSlot(c.node.mask, c.index + 1) && next < SLOTS
             && next < |c.node.kids| && Least(c.node.kids[next], height - |spine|, k)
    ensures First(root.AsTree(), height, T, k)
  {
    var d := |spine| - 1;
    var c := spine[d];
    assert CursorOk(H, root, height, spine, d);
    NoKids(H, c.node, c.index + 1, next);
    assert Divides(c.node.AsTree(), height - d, c.index, T);
    FirstAcross(c.node.AsTree(), height - d, SpinePrefix(spine, d), c.index, next, T, k);
    FirstToRoot(H, root, height, spine, d, T, k);
  }

  // ----- the same, backwards -----

  /** No key below `T` is left below the cursor on top. */
  ghost predicate TopFirst(height: nat, spine: seq<Cursor>, T: nat)
    reads set c | c in spine :: c.node
  {
    && spine != [] && |spine| <= height
    && spine[|spine| - 1].index < |spine[|spine| - 1].node.kids|
    && NoneBelow(spine[|spine| - 1].node.kids[spine[|spine| - 1].index], height - |spine|, T)
  }

  /** The greatest key of `t` is the greatest key of `u`. */
  ghost predicate GreatestIs(t: Tree, height: nat, u: Tree, height': nat) {
    forall k: nat :: Greatest(t, height, k) ==> Greatest(u, height', k)
  }

  /** Descending into the last slot of a branch. */
  lemma DescendLastStep(H: HashFunction, root: Node, height: nat, spine: seq<Cursor>, top: Tree, h0: nat)
    requires AtSlot(H, root, height, spine)
    requires spine[|spine| - 1].index !in spine[|spine| - 1].node.leaf
    requires GreatestIs(Below(H, root, height, spine), height - |spine|, top, h0)
    ensures var c := spine[|spine| - 1];
            && Packed(c.node.mask, c.node.data) && At(c.node.mask, c.node.data, c.index).NodeChild?
            && var b := At(c.node.mask, c.node.data, c.index).node;
               var spine' := spine + [Cursor(b, PreviousSlot(b.mask, SLOTS))];
               AtSlot(H, root, height, spine') && GreatestIs(Below(H, root, height, spine'), height - |spine'|, top, h0)
  {
    var d := |spine| - 1;
    var c := spine[d];
    ChildPlace(H, root, height, d, SpinePrefix(spine, d), c.node, c.index);
    var b := At(c.node.mask, c.node.data, c.index).node;
    var index := PreviousSlot(b.mask, SLOTS);
    assert index < SLOTS by { var i :| i in b.mask; }
    PathPush(H, root, height, spine, Cursor(b, index));
    NoKids(H, b, index + 1, SLOTS);
    var t, h := b.AsTree(), height - d - 1;
    var last := t.kids[index];
    forall k: nat | Greatest(last, h - 1, k) ensures Greatest(t, h, k) {
      GreatestOfBranch(t, h, SpinePrefix(spine, d + 1), index, k);
    }
    assert CursorOk(H, root, height, spine + [Cursor(b, index)], |spine|);
  }

  /** As `Passing`, backwards. */
  ghost predicate PassingBack(H: HashFunction, root: Node, height: nat, spine: seq<Cursor>, T: nat)
    reads root, root.repr, set c | c in spine :: c.node
  {
    && OnPath(H, root, height, spine) && AllDivide(height, spine, T)
    && if spine == [] then NoneBelow(root.AsTree(), height, T) else TopFirst(height, spine, T)
  }

  /** Giving up a cursor that has no slot in use before it. */
  lemma PopBackStep(H: HashFunction, root: Node, height: nat, spine: seq<Cursor>, T: nat)
    requires PassingBack(H, root, height, spine, T) && spine != []
    requires var c := spine[|spine| - 1]; c.index < SLOTS && PreviousSlot(c.node.mask, c.index) == SLOTS
    ensures PassingBack(H, root, height, spine[..|spine| - 1], T)
  {
    var d := |spine| - 1;
    var c := spine[d];
    assert CursorOk(H, root, height, spine, d);
    NoKids(H, c.node, 0, c.index);
    assert Divides(c.node.AsTree(), height - d, c.index, T);
    NoneBelowUp(c.node.AsTree(), height - d, SpinePrefix(spine, d), c.index, T);
    PathPrefix(H, root, height, spine, d);
    if d > 0 {
      assert Linked(H, root, height, spine, d - 1) && CursorOk(H, root, height, spine, d - 1);
      ChildPlace(H, root, height, d - 1, SpinePrefix(spine, d - 1), spine[d - 1].node, spine[d - 1].index);
    }
  }

  /** The greatest key below the previous slot in use is the last key before `T`. */
  lemma CrossBackStep(H: HashFunction, root: Node, height: nat, spine: seq<Cursor>, T: nat, slot: nat, k: nat)
    requires OnPath(H, root, height, spine) && AllDivide(height, spine, T) && TopFirst(height, spine, T)
    requires var c := spine[|spine| - 1];
             && c.index < SLOTS && slot == PreviousSlot(c.node.mask, c.index) && slot < SLOTS
             && slot < |c.node.kids| && Greatest(c.node.kids[slot], height - |spine|, k)
    ensures Last(root.AsTree(), height, T, k)
  {
    var d := |spine| - 1;
    var c := spine[d];
    assert CursorOk(H, root, height, spine, d);
    NoKids(H, c.node, slot + 1, c.index);
    assert Divides(c.node.AsTree(), height - d, c.index, T);
    LastAcross(c.node.AsTree(), height - d, SpinePrefix(spine, d), c.index, slot, T, k);
    LastToRoot(H, root, height, spine, d, T, k);
  }

  /** A leaf where the spine ends is all that is below. */
  lemma {:induction false} LeafBelow(H: HashFunction, root: Node, height: nat, spine: seq<Cursor>) returns (k: nat)
    requires AtSlot(H, root, height, spine) && spine[|spine| - 1].index in spine[|spine| - 1].node.leaf
    ensures AtLeaf(H, root, height, spine, k)
    ensures Least(Below(H, root, height, spine), height - |spine|, k)
    ensures Greatest(Below(H, root, height, spine), height - |spine|, k)
  {
    var d := |spine| - 1;
    var c := spine[d];
    ChildPlace(H, root, height, d, SpinePrefix(spine, d), c.node, c.index);
    k := At(c.node.mask, c.node.data, c.index).key;
  }

  class Iterator {
    const trie: Trie
    var spine: seq<Cursor>

    constructor (trie: Trie)
      ensures this.trie == trie && spine == []
    {
      this.trie, spine := trie, [];
    }

    /** At the end, or at a leaf. */
    ghost predicate Valid()
      reads this, trie, trie.root, trie.root.repr
    {
      trie.Valid() && (spine != [] ==> exists k: nat :: AtLeaf(trie.H, trie.root, trie.height, spine, k))
    }

    /** At the least key from `T` on, or at the end if there is none. */
    ghost predicate AtFirst(T: nat)
      reads this, trie, trie.root, trie.root.repr
    {
      if spine == [] then NoneFrom(trie.root.AsTree(), trie.height, T)
      else exists k: nat ::
        AtLeaf(trie.H, trie.root, trie.height, spine, k) && First(trie.root.AsTree(), trie.height, T, k)
    }

    /** At the greatest key below `T`, or at the end if there is none. */
    ghost predicate AtLast(T: nat)
      reads this, trie, trie.root, trie.root.repr
    {
      if spine == [] then NoneBelow(trie.root.AsTree(), trie.height, T)
      else exists k: nat ::
        AtLeaf(trie.H, trie.root, trie.height, spine, k) && Last(trie.root.AsTree(), trie.height, T, k)
    }

    method Key() returns (k: nat)
      requires Valid() && spine != []
      ensures AtLeaf(trie.H, trie.root, trie.height, spine, k)
    {
      var c := spine[|spine| - 1];
      k := At(c.node.mask, c.node.data, c.index).key;
    }

    /** Descends to the least leaf below the cursor on top. */
    method Leftmost(ghost top: Tree) returns (ghost k: nat)
      requires AtSlot(trie.H, trie.root, trie.height, spine) && top == Below(trie.H, trie.root, trie.height, spine)
      modifies this`spine
      ensures old(spine) <= spine && AtLeaf(trie.H, trie.root, trie.height, spine, k)
      ensures Least(top, trie.height - |old(spine)|, k)
    {
      var H, root, height := trie.H, trie.root, trie.height;
      ghost var h0 := height - |spine|;
      while !(spine[|spine| - 1].index in spine[|spine| - 1].node.leaf)
        invariant old(spine) <= spine && AtSlot(H, root, height, spine)
        invariant LeastIs(Below(H, root, height, spine), height - |spine|, top, h0)
        decreases height - |spine|
      {
        DescendStep(H, root, height, spine, top, h0);
        var c := spine[|spine| - 1];
        var node := At(c.node.mask, c.node.data, c.index).node;
        spine := spine + [Cursor(node, NextSlot(node.mask, 0))];
      }
      k := LeafBelow(H, root, height, spine);
    }

    /** Gives up cursors until one has a slot in use to go on to; `SLOTS` if none has. */
    method PopExhausted(ghost T: nat) returns (next: nat)
      requires Passing(trie.H, trie.root, trie.height, spine, T)
      modifies this`spine
      ensures Passing(trie.H, trie.root, trie.height, spine, T)
      ensures spine != [] ==>
                && CursorOk(trie.H, trie.root, trie.height, spine, |spine| - 1)
                && next == NextSlot(spine[|spine| - 1].node.mask, spine[|spine| - 1].index + 1) && next < SLOTS
    {
      while spine != []
        invariant Passing(trie.H, trie.root, trie.height, spine, T)
        decreases |spine|
      {
        var c := spine[|spine| - 1];
        assert CursorOk(trie.H, trie.root, trie.height, spine, |spine| - 1);
        next := NextSlot(c.node.mask, c.index + 1);
        if next < SLOTS {
          return;
        }
        PopStep(trie.H, trie.root, trie.height, spine, T);
        spine := spine[..|spine| - 1];
      }
      next := SLOTS;
    }

    /** Moves the cursor on top to the slot `next` and descends from there. */
    method Cross(next: nat, ghost T: nat) returns (ghost k: nat)
      requires OnPath(trie.H, trie.root, trie.height, spine) && AllDivide(trie.height, spine, T)
      requires TopDone(trie.height, spine, T) && CursorOk(trie.H, trie.root, trie.height, spine, |spine| - 1)
      requires next == NextSlot(spine[|spine| - 1].node.mask, spine[|spine| - 1].index + 1) && next < SLOTS
      modifies this`spine
      ensures AtLeaf(trie.H, trie.root, trie.height, spine, k) && First(trie.root.AsTree(), trie.height, T, k)
    {
      ghost var s := spine;
      var c := spine[|spine| - 1];
      SlotMove(trie.H, trie.root, trie.height, spine, next);
      spine := spine[..|spine| - 1] + [Cursor(c.node, next)];
      k := Leftmost(c.node.kids[next]);
      CrossStep(trie.H, trie.root, trie.height, s, T, next, k);
    }

    /** Goes on to the first key from `T` on, when the keys before it are those up to the spine. */
    method Advance(ghost T: nat)
      requires trie.Valid() && OnPath(trie.H, trie.root, trie.height, spine)
      requires AllDivide(trie.height, spine, T) && TopDone(trie.height, spine, T)
      modifies this`spine
      ensures Valid() && AtFirst(T)
    {
      var next := PopExhausted(T);
      if spine != [] {
        ghost var k := Cross(next, T);
      }
    }

    /** The successor of the current key. */
    method Next(ghost k: nat)
      requires Valid() && spine != [] && AtLeaf(trie.H, trie.root, trie.height, spine, k)
      modifies this`spine
      ensures Valid() && AtFirst(k + 1)
    {
      forall j: nat | j < |spine|
        ensures j < trie.height && Divides(spine[j].node.AsTree(), trie.height - j, spine[j].index, k + 1)
      {
        assert CursorOk(trie.H, trie.root, trie.height, spine, j);
        LeafPath(trie.H, trie.root, trie.height, spine, k, j);
        KeyDivides(spine[j].node.AsTree(), trie.height - j, SpinePrefix(spine, j), k, k + 1);
      }
      ghost var d := |spine| - 1;
      assert CursorOk(trie.H, trie.root, trie.height, spine, d);
      ChildPlace(trie.H, trie.root, trie.height, d, SpinePrefix(spine, d), spine[d].node, spine[d].index);
      assert NoneFrom(spine[d].node.kids[spine[d].index], trie.height - |spine|, k + 1);
      Advance(k + 1);
    }

    /** Descends to the greatest leaf below the cursor on top. */
    method Rightmost(ghost top: Tree) returns (ghost k: nat)
      requires AtSlot(trie.H, trie.root, trie.height, spine) && top == Below(trie.H, trie.root, trie.height, spine)
      modifies this`spine
      ensures old(spine) <= spine && AtLeaf(trie.H, trie.root, trie.height, spine, k)
      ensures Greatest(top, trie.height - |old(spine)|, k)
    {
      var H, root, height := trie.H, trie.root, trie.height;
      ghost var h0 := height - |spine|;
      while !(spine[|spine| - 1].index in spine[|spine| - 1].node.leaf)
        invariant old(spine) <= spine && AtSlot(H, root, height, spine)
        invariant GreatestIs(Below(H, root, height, spine), height - |spine|, top, h0)
        decreases height - |spine|
      {
        DescendLastStep(H, root, height, spine, top, h0);
        var c := spine[|spine| - 1];
        var node := At(c.node.mask, c.node.data, c.index).node;
        spine := spine + [Cursor(node, PreviousSlot(node.mask, SLOTS))];
      }
      k := LeafBelow(H, root, height, spine);
    }

    /** Gives up cursors until one has a slot in use to go back to; `SLOTS` if none has. */
    method PopBack(ghost T: nat) returns (slot: nat)
      requires PassingBack(trie.H, trie.root, trie.height, spine, T)
      modifies this`spine
      ensures PassingBack(trie.H, trie.root, trie.height, spine, T)
      ensures spine != [] ==>
                && CursorOk(trie.H, trie.root, trie.height, spine, |spine| - 1)
                && slot == PreviousSlot(spine[|spine| - 1].node.mask, spine[|spine| - 1].index) && slot < SLOTS
    {
      while spine != []
        invariant PassingBack(trie.H, trie.root, trie.height, spine, T)
        decreases |spine|
      {
        var c := spine[|spine| - 1];
        assert CursorOk(trie.H, trie.root, trie.height, spine, |spine| - 1);
        slot := PreviousSlot(c.node.mask, c.index);
        if slot < SLOTS {
          return;
        }
        PopBackStep(trie.H, trie.root, trie.height, spine, T);
        spine := spine[..|spine| - 1];
      }
      slot := SLOTS;
    }

    /** Moves the cursor on top back to `slot` and descends from there. */
    method CrossBack(slot: nat, ghost T: nat) returns (ghost k: nat)
      requires OnPath(trie.H, trie.root, trie.height, spine) && AllDivide(trie.height, spine, T)
      requires TopFirst(trie.height, spine, T) && CursorOk(trie.H, trie.root, trie.height, spine, |spine| - 1)
      requires slot == PreviousSlot(spine[|spine| - 1].node.mask, spine[|spine| - 1].index) && slot < SLOTS
      modifies this`spine
      ensures AtLeaf(trie.H, trie.root, trie.height, spine, k) && Last(trie.root.AsTree(), trie.height, T, k)
    {
      ghost var s := spine;
      var c := spine[|spine| - 1];
      SlotMove(trie.H, trie.root, trie.height, spine, slot);
      spine := spine[..|spine| - 1] + [Cursor(c.node, slot)];
      k := Rightmost(c.node.kids[slot]);
      CrossBackStep(trie.H, trie.root, trie.height, s, T, slot, k);
    }

    /** At the greatest key below slot 0 of the root, which is the greatest of all if and only if no other
        slot is in use; or at the end of an empty trie. */
    ghost predicate AtLastOfFirst()
      reads this, trie, trie.root, trie.root.repr
    {
      if trie.root.mask == {} then spine == []
      else exists k: nat ::
        && AtLeaf(trie.H, trie.root, trie.height, spine, k)
        && (Greatest(trie.root.AsTree(), trie.height, k) <==> trie.root.mask == {0})
        && |trie.root.kids| == FANOUT && Greatest(trie.root.kids[0], trie.height - 1, k)
    }

    /** From the end: to the last leaf below slot 0 of the root, which must be in use unless the trie is
        empty, for the descent starts there whatever it holds. */
    method FromEnd()
      requires trie.Valid() && spine == [] && (trie.root.mask == {} || 0 in trie.root.mask)
      modifies this`spine
      ensures Valid() && AtLastOfFirst()
    {
      var root := trie.root;
      RootPlace(trie);
      if root.mask == {} {
        return;
      }
      spine := [Cursor(root, 0)];
      PathPush(trie.H, root, trie.height, [], Cursor(root, 0));
      assert CursorOk(trie.H, root, trie.height, spine, 0);
      ghost var k := Rightmost(root.kids[0]);
      FromFirstSlot(root.AsTree(), trie.height, k);
      OnlyFirstSlot(trie.H, root);
    }

    /** The predecessor of the current key, at which the iterator is unless it is at the end, or the end if
        there is none. */
    method Previous(ghost k: nat)
      requires Valid() && (spine != [] ==> AtLeaf(trie.H, trie.root, trie.height, spine, k))
      requires spine == [] ==> trie.root.mask == {} || 0 in trie.root.mask
      modifies this`spine
      ensures Valid() && if old(spine) == [] then AtLastOfFirst() else AtLast(k)
    {
      if spine == [] {
        FromEnd();
      } else {
        Back(k);
      }
    }

    method Back(ghost k: nat)
      requires Valid() && spine != [] && AtLeaf(trie.H, trie.root, trie.height, spine, k)
      modifies this`spine
      ensures Valid() && AtLast(k)
    {
      forall j: nat | j < |spine|
        ensures j < trie.height && Divides(spine[j].node.AsTree(), trie.height - j, spine[j].index, k)
      {
        assert CursorOk(trie.H, trie.root, trie.height, spine, j);
        LeafPath(trie.H, trie.root, trie.height, spine, k, j);
        KeyDivides(spine[j].node.AsTree(), trie.height - j, SpinePrefix(spine, j), k, k);
      }
      ghost var d := |spine| - 1;
      assert CursorOk(trie.H, trie.root, trie.height, spine, d);
      ChildPlace(trie.H, trie.root, trie.height, d, SpinePrefix(spine, d), spine[d].node, spine[d].index);
      assert NoneBelow(spine[d].node.kids[spine[d].index], trie.height - |spine|, k);
      var slot := PopBack(k);
      if spine != [] {
        ghost var last := CrossBack(slot, k);
      }
    }

    /** To the first leaf.  The slot of key 0 must be in use unless the trie is empty: the descent
        starts there whatever it holds. */
    method Begin()
      requires trie.Valid() && (trie.root.mask == {} || 0 in trie.root.mask)
      modifies this`spine
      ensures Valid() && AtFirst(0)
    {
      var root := trie.root;
      RootPlace(trie);
      spine := [Cursor(root, 0)];
      if root.mask == {} {
        spine := [];
        root.SlotUsed(trie.H);
        return;
      }
      PathPush(trie.H, root, trie.height, [], Cursor(root, 0));
      assert CursorOk(trie.H, root, trie.height, spine, 0);
      ghost var k := Leftmost(root.kids[0]);
      LeastOfBranch(root.AsTree(), trie.height, 0, 0, k);
    }

    /** To the first key that is not below `key`. */
    method StartFromKey(key: nat)
      requires trie.Valid() && spine == [] && Prefix(key, trie.height) == 0
      modifies this`spine
      ensures Valid() && AtFirst(key)
    {
      RootPlace(trie);
      var path, node, index := Descend(key);
      DescendingEnd(trie.H, trie.root, trie.height, path, node, |path|, key);
      if index in node.mask {
        LandOnLeaf(key, path, node, index);
      } else {
        LandOnEmpty(key, path, node, index);
      }
    }

    /** Follows the bits of `key` to a slot that is empty or holds a leaf. */
    method Descend(key: nat) returns (path: seq<Cursor>, node: Node, index: nat)
      requires trie.height > 0 && Prefix(key, trie.height) == 0
      requires Place(trie.H, trie.root, trie.height, 0, 0, trie.root)
      ensures Descending(trie.H, trie.root, trie.height, path, node, |path|, key)
      ensures index == SubIndex(key, trie.height - |path|) && (index in node.mask ==> index in node.leaf)
    {
      var H, root, height := trie.H, trie.root, trie.height;
      path, node, index := [], root, SubIndex(key, height);
      while index in node.mask && index !in node.leaf
        invariant Descending(H, root, height, path, node, |path|, key)
        invariant index == SubIndex(key, height - |path|)
        decreases height - |path|
      {
        DescendingStep(H, root, height, path, node, |path|, key);
        path := path + [Cursor(node, index)];
        node := At(node.mask, node.data, index).node;
        index := SubIndex(key, height - |path|);
      }
    }

    method LandOnLeaf(key: nat, path: seq<Cursor>, node: Node, index: nat)
      requires trie.Valid() && Packed(node.mask, node.data) && index in node.mask
      requires At(node.mask, node.data, index).LeafChild?
      requires var s, k := path + [Cursor(node, index)], At(node.mask, node.data, index).key;
               && AtLeaf(trie.H, trie.root, trie.height, s, k) && AllDivide(trie.height, s, key)
               && |s| <= trie.height && index < |node.kids| && node.kids[index].Leaf? && node.kids[index].key == k
      modifies this`spine
      ensures Valid() && AtFirst(key)
    {
      var leaf := At(node.mask, node.data, index).key;
      spine := path + [Cursor(node, index)];
      if leaf < key {
        // The leaf shares its slot with `key` but comes before it.
        assert NoneFrom(node.kids[index], trie.height - |spine|, key);
        Advance(key);
      } else {
        assert AtLeaf(trie.H, trie.root, trie.height, spine, leaf);
        assert First(node.kids[index], trie.height - |spine|, key, leaf);
        CursorFirst(trie.H, trie.root, trie.height, spine, key, leaf);
      }
    }

    method LandOnEmpty(key: nat, path: seq<Cursor>, node: Node, index: nat)
      requires trie.Valid() && index !in node.mask && index < SLOTS && (path == [] ==> node == trie.root)
      requires var s := path + [Cursor(node, index)];
               && OnPath(trie.H, trie.root, trie.height, s) && AllDivide(trie.height, s, key)
               && TopDone(trie.height, s, key) && CursorOk(trie.H, trie.root, trie.height, s, |path|)
      modifies this`spine
      ensures Valid() && AtFirst(key)
    {
      ghost var s := path + [Cursor(node, index)];
      assert s[..|s| - 1] == path;
      var next := NextSlot(node.mask, index + 1);
      if next < SLOTS {
        spine := path + [Cursor(node, index)];
        ghost var k := Cross(next, key);
      } else if path == [] {
        spine := [];
        PopStep(trie.H, trie.root, trie.height, s, key);
      } else {
        LastSlot(trie.H, trie.root, trie.height, path, node, index, key);
        spine := path + [Cursor(node, SLOTS - 1)];
        Advance(key);
      }
    }

    /** Removes the current key from the trie and goes to the key after it. */
    method Erase(k: nat)
      requires Valid() && spine != [] && AtLeaf(trie.H, trie.root, trie.height, spine, k)
      modifies this`spine, trie, trie.root.repr
      ensures Valid() && fresh(trie.root.repr - old(trie.root.repr))
      ensures trie.contents == old(trie.contents) - {k} && k in old(trie.contents)
      ensures AtFirst(k)
    {
      CurrentStored(trie, spine, k);
      trie.Remove(k);
      spine := [];
      StartFromKey(k);
    }
  }

  /** The greatest key below the first slot of a trie is the greatest of all exactly if the other slots are
      empty. */
  lemma {:induction false} FromFirstSlot(t: Tree, height: nat, k: nat)
    requires Canonical(t, height) && Greatest(t.kids[0], height - 1, k)
    ensures Greatest(t, height, k) <==> forall j: nat :: 0 < j < FANOUT ==> t.kids[j] == Nil
  {
    if j: nat :| 0 < j < FANOUT && t.kids[j] != Nil {
      var x := DenseKey(t.kids[j], height - 1, j);
      FindInKid(t, height, 0, j, x);
      FindInKid(t, height, 0, 0, k);
      SlotOrder(k, x, height);
    } else {
      GreatestOfBranch(t, height, 0, 0, k);
    }
  }

  lemma {:induction false} OnlyFirstSlot(H: HashFunction, n: Node)
    requires n.Valid(H) && 0 in n.mask
    ensures n.mask == {0} <==> forall j: nat :: 0 < j < FANOUT ==> n.kids[j] == Nil
  {
    forall j: nat | j < FANOUT ensures n.kids[j] == Nil <==> j !in n.mask { assert n.SlotOk(H, j); }
  }

  lemma RootPlace(trie: Trie)
    requires trie.Valid()
    ensures Place(trie.H, trie.root, trie.height, 0, 0, trie.root)
  {
  }

  lemma {:induction false} CurrentStored(trie: Trie, spine: seq<Cursor>, k: nat)
    requires trie.Valid() && AtLeaf(trie.H, trie.root, trie.height, spine, k)
    ensures k in trie.contents && Prefix(k, trie.height) == 0
  {
    var H, root, height := trie.H, trie.root, trie.height;
    var d := |spine| - 1;
    var c := spine[d];
    LeafPath(H, root, height, spine, k, d);
    LeafPath(H, root, height, spine, k, 0);
    ChildPlace(H, root, height, d, SpinePrefix(spine, d), c.node, c.index);
    assert First(c.node.kids[c.index], height - d - 1, k, k);
    forall j: nat | j < |spine| ensures j < height && Divides(spine[j].node.AsTree(), height - j, spine[j].index, k) {
      assert CursorOk(H, root, height, spine, j);
      LeafPath(H, root, height, spine, k, j);
      KeyDivides(spine[j].node.AsTree(), height - j, SpinePrefix(spine, j), k, k);
    }
    CursorFirst(H, root, height, spine, k, k);
  }

  /** The spine follows `key` down to `node`. */
  ghost predicate Descending(H: HashFunction, root: Node, height: nat, spine: seq<Cursor>, node: Node, depth: nat,
                             key: nat)
    reads root, root.repr, set c | c in spine :: c.node
  {
    && OnPath(H, root, height, spine) && AllDivide(height, spine, key) && depth == |spine| && depth < height
    && Place(H, root, height, depth, Prefix(key, height - depth), node)
    && SpinePrefix(spine, depth) == Prefix(key, height - depth)
    && if spine == [] then node == root else
         var c := spine[depth - 1];
         CursorOk(H, root, height, spine, depth - 1) && c.index in c.node.mask
         && At(c.node.mask, c.node.data, c.index) == NodeChild(node)
  }

  /** Where the descent ends, the slot of `key` may be added to the spine. */
  lemma DescendingEnd(H: HashFunction, root: Node, height: nat, spine: seq<Cursor>, node: Node, depth: nat, key: nat)
    requires depth < height && Descending(H, root, height, spine, node, depth, key)
    ensures var index := SubIndex(key, height - depth);
            var s := spine + [Cursor(node, index)];
            && OnPath(H, root, height, s) && AllDivide(height, s, key) && CursorOk(H, root, height, s, depth)
            && (index in node.mask ==> if index in node.leaf
                then At(node.mask, node.data, index).LeafChild?
                     && AtLeaf(H, root, height, s, At(node.mask, node.data, index).key)
                     && node.kids[index] == Leaf(At(node.mask, node.data, index).key,
                                                 At(node.mask, node.data, index).value)
                else At(node.mask, node.data, index).NodeChild?)
            && (index !in node.mask ==> TopDone(height, s, key))
  {
    var index := SubIndex(key, height - depth);
    var s := spine + [Cursor(node, index)];
    PathPush(H, root, height, spine, Cursor(node, index));
    assert CursorOk(H, root, height, s, depth);
    KeyDivides(node.AsTree(), height - depth, Prefix(key, height - depth), key, key);
    forall j: nat | j < |s| ensures j < height && Divides(s[j].node.AsTree(), height - j, s[j].index, key) {
    }
    ChildPlace(H, root, height, depth, Prefix(key, height - depth), node, index);
  }

  lemma DescendingStep(H: HashFunction, root: Node, height: nat, spine: seq<Cursor>, node: Node, depth: nat, key: nat)
    requires depth < height && Descending(H, root, height, spine, node, depth, key)
    requires SubIndex(key, height - depth) in node.mask && SubIndex(key, height - depth) !in node.leaf
    ensures var index := SubIndex(key, height - depth);
            && Packed(node.mask, node.data) && At(node.mask, node.data, index).NodeChild? && depth + 1 < height
            && Descending(H, root, height, spine + [Cursor(node, index)],
                          At(node.mask, node.data, index).node, depth + 1, key)
  {
    var index := SubIndex(key, height - depth);
    DescendingEnd(H, root, height, spine, node, depth, key);
    ChildPlace(H, root, height, depth, Prefix(key, height - depth), node, index);
    PrefixStep(key, height - depth);
    SpinePrefixLocal(spine, spine + [Cursor(node, index)], depth);
  }

  /** The first key from `T` on in the slot of the last cursor is the first of the trie. */
  lemma CursorFirst(H: HashFunction, root: Node, height: nat, spine: seq<Cursor>, T: nat, k: nat)
    requires OnPath(H, root, height, spine) && spine != [] && AllDivide(height, spine, T) && |spine| <= height
    requires CursorOk(H, root, height, spine, |spine| - 1)
    requires First(spine[|spine| - 1].node.kids[spine[|spine| - 1].index], height - |spine|, T, k)
    ensures First(root.AsTree(), height, T, k)
  {
    var d := |spine| - 1;
    var c := spine[d];
    FirstUp(c.node.AsTree(), height - d, SpinePrefix(spine, d), c.index, T, k);
    FirstToRoot(H, root, height, spine, d, T, k);
  }

  /** With nothing stored above the slot of `key`, the last slot of the node does as well. */
  lemma {:induction false} LastSlot(H: HashFunction, root: Node, height: nat, spine: seq<Cursor>, node: Node,
                                    index: nat, key: nat)
    requires var s := spine + [Cursor(node, index)];
             OnPath(H, root, height, s) && AllDivide(height, s, key) && CursorOk(H, root, height, s, |spine|)
    requires index !in node.mask && index < SLOTS && NextSlot(node.mask, index + 1) == SLOTS
    ensures var s' := spine + [Cursor(node, SLOTS - 1)];
            OnPath(H, root, height, s') && AllDivide(height, s', key) && TopDone(height, s', key)
  {
    var s, s', d := spine + [Cursor(node, index)], spine + [Cursor(node, SLOTS - 1)], |spine|;
    PathMove(H, root, height, s, SLOTS - 1);
    assert s[..d] == spine;
    NoKids(H, node, index, SLOTS);
    var t, h := node.AsTree(), height - d;
    forall x: nat | Find(t, h, x).Some? ensures SubIndex(x, h) < SLOTS - 1 && x < key {
      StoredBelow(t, h, SpinePrefix(s, d), SubIndex(x, h), x);
      assert Divides(s[d].node.AsTree(), height - d, s[d].index, key);
    }
    forall j: nat | j < |s'| ensures j < height && Divides(s'[j].node.AsTree(), height - j, s'[j].index, key) {
      assert j < d ==> s'[j] == s[j];
    }
  }

  /** Going from first to first visits exactly the stored keys from `T` on, each once, in order. */
  lemma {:induction false} Enumerates(t: Tree, height: nat, T: nat, ks: seq<nat>)
    requires ks != [] ==> First(t, height, T, ks[0])
    requires forall i: nat :: i + 1 < |ks| ==> First(t, height, ks[i] + 1, ks[i + 1])
    requires NoneFrom(t, height, if ks == [] then T else ks[|ks| - 1] + 1)
    ensures forall i: nat, j: nat :: i < j < |ks| ==> ks[i] < ks[j]
    ensures forall x: nat :: x in ks <==> Find(t, height, x).Some? && x >= T
    decreases |ks|
  {
    if ks != [] {
      var rest := ks[1..];
      forall i: nat | i + 1 < |rest| ensures First(t, height, rest[i] + 1, rest[i + 1]) {
        assert First(t, height, ks[i + 1] + 1, ks[i + 2]);
      }
      Enumerates(t, height, ks[0] + 1, rest);
      forall x: nat ensures x in ks <==> Find(t, height, x).Some? && x >= T {
        assert ks == [ks[0]] + rest;
      }
      forall i: nat, j: nat | i < j < |ks| ensures ks[i] < ks[j] {
        if i == 0 { assert rest[j - 1] in rest; } else { assert rest[i - 1] < rest[j - 1]; }
      }
    }
  }

  /** Going from last to last visits exactly the stored keys below `T`, each once, downwards. */
  lemma {:induction false} EnumeratesBackwards(t: Tree, height: nat, T: nat, ks: seq<nat>)
    requires ks != [] ==> Last(t, height, T, ks[0])
    requires forall i: nat :: i + 1 < |ks| ==> Last(t, height, ks[i], ks[i + 1])
    requires NoneBelow(t, height, if ks == [] then T else ks[|ks| - 1])
    ensures forall i: nat, j: nat :: i < j < |ks| ==> ks[i] > ks[j]
    ensures forall x: nat :: x in ks <==> Find(t, height, x).Some? && x < T
    decreases |ks|
  {
    if ks != [] {
      var rest := ks[1..];
      forall i: nat | i + 1 < |rest| ensures Last(t, height, rest[i], rest[i + 1]) {
        assert Last(t, height, ks[i + 1], ks[i + 2]);
      }
      EnumeratesBackwards(t, height, ks[0], rest);
      forall x: nat ensures x in ks <==> Find(t, height, x).Some? && x < T {
        assert ks == [ks[0]] + rest;
      }
      forall i: nat, j: nat | i < j < |ks| ensures ks[i] > ks[j] {
        if i == 0 { assert rest[j - 1] in rest; } else { assert rest[i - 1] > rest[j - 1]; }
      }
    }
  }
}
