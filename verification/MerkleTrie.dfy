/** The Merkle trie as it is stored: branch nodes that are updated in place or reallocated,
    with children packed by a bit mask and a cached hash. */
module MerkleTrie {
  import opened Options
  import opened RadixTree
  import opened TrieLaws
  import opened Packing

  /** What a packed slot points to.  `Null` stands in a slot that was just made. */
  datatype Child = Null | LeafChild(key: nat, value: nat) | NodeChild(node: Node)

  class Node {
    var mask: set<nat>
    var leaf: set<nat>
    var hash: nat
    var data: seq<Child>
    /** The subtrees this node stands for, one a slot. */
    ghost var kids: seq<Tree>
    ghost var repr: set<Node>
    /** Every cached hash from here down is as it ought to be. */
    ghost var hashed: bool

    /** Slot `i` holds what `kids[i]` says. */
    ghost predicate SlotOk(H: HashFunction, i: nat)
      requires Packed(mask, data) && |kids| == FANOUT && i < FANOUT
      reads this, repr
      decreases repr, 0
    {
      if i !in mask then kids[i] == Nil else
      match At(mask, data, i)
      case Null => false
      case LeafChild(key, value) => i in leaf && kids[i] == Leaf(key, value)
      case NodeChild(b) =>
        && i !in leaf && this in repr && b in repr && b.repr <= repr && this !in b.repr
        && b.Valid(H) && kids[i] == b.AsTree()
    }

    /** No node is shared between two slots. */
    ghost predicate Apart(i: nat, j: nat)
      requires Packed(mask, data)
      reads this, repr
    {
      i in mask && j in mask && i != j ==>
        var c, d := At(mask, data, i), At(mask, data, j);
        c.NodeChild? && d.NodeChild? && c.node in repr && d.node in repr ==> c.node.repr !! d.node.repr
    }

    ghost predicate KidHashed(i: nat)
      requires Packed(mask, data)
      reads this, repr
    {
      i in mask && At(mask, data, i).NodeChild? && At(mask, data, i).node in repr ==> At(mask, data, i).node.hashed
    }

    ghost predicate KidsHashed()
      requires Packed(mask, data)
      reads this, repr
    {
      forall i: nat :: i < FANOUT ==> KidHashed(i)
    }

    /** Consistent but for slot `x`. */
    ghost predicate ValidBut(H: HashFunction, x: nat)
      reads this, repr
      decreases repr, 1
    {
      && this in repr
      && Packed(mask, data) && leaf <= mask && |kids| == FANOUT
      && (forall i: nat :: i < FANOUT && i != x ==> SlotOk(H, i))
      && (forall i: nat, j: nat :: i < FANOUT && j < FANOUT && i != x && j != x ==> Apart(i, j))
    }

    ghost predicate Valid(H: HashFunction)
      reads this, repr
      ensures Valid(H) ==> ValidBut(H, FANOUT)
      ensures Valid(H) && hashed ==> hash == HashOf(H, AsTree()) && KidsHashed()
      decreases repr, 2
    {
      && ValidBut(H, FANOUT)
      && (hashed ==> hash == HashOf(H, Tree.Branch(kids)) && KidsHashed())
    }

    ghost function AsTree(): Tree
      reads this
    {
      Tree.Branch(kids)
    }

    /** The root of an empty trie. */
    constructor (ghost H: HashFunction)
      ensures Valid(H) && fresh(repr) && kids == Nothing() && hashed && hash == ZERO_HASH
    {
      mask, leaf, hash, data := {}, {}, ZERO_HASH, [];
      kids, repr, hashed := Nothing(), {this}, true;
      new;
      RankZero({}, SLOTS);
    }

    /** A node with the given contents and no hash yet. */
    constructor Raw(mask: set<nat>, leaf: set<nat>, data: seq<Child>, ghost kids: seq<Tree>, ghost below: set<Node>)
      ensures this.mask == mask && this.leaf == leaf && this.data == data
      ensures this.kids == kids && this.repr == {this} + below && !hashed && this !in below
    {
      this.mask, this.leaf, this.hash, this.data := mask, leaf, 0, data;
      this.kids, this.repr, this.hashed := kids, {this} + below, false;
    }

    /** The keys and values of leaves and the cached hashes of branches, lowest slot first. */
    method CollectInputs(H: HashFunction) returns (input: seq<HashInput>)
      requires ValidBut(H, FANOUT)
      ensures KidsHashed() ==> input == Inputs(H, kids)
    {
      input := [];
      var i := NextSlot(mask, 0);
      EmptySlots(H, 0, i);
      InputsSkip(H, kids, 0, i);
      assert kids[0..] == kids;
      while i < SLOTS
        invariant i <= SLOTS && (i < SLOTS ==> i in mask)
        invariant KidsHashed() ==> input + Inputs(H, kids[i..]) == Inputs(H, kids)
      {
        assert SlotOk(H, i);
        assert KidsHashed() ==> KidHashed(i);
        InputsStep(H, kids, i);
        ghost var before := input;
        match At(mask, data, i) {
          case LeafChild(key, value) => input := input + [KeyValue(key, value)];
          case NodeChild(b) => input := input + [Digest(b.hash)];
        }
        assert KidsHashed() ==> input == before + InputOf(H, kids[i]);
        Associates(before, InputOf(H, kids[i]), Inputs(H, kids[i + 1..]));
        var next := NextSlot(mask, i + 1);
        EmptySlots(H, i + 1, next);
        InputsSkip(H, kids, i + 1, next);
        i := next;
      }
      assert kids[SLOTS..] == [];
    }

    method Recompute(H: HashFunction)
      requires ValidBut(H, FANOUT) && mask != {}
      modifies this`hash, this`hashed
      ensures Valid(H) && (old(KidsHashed()) ==> hashed)
    {
      SlotUsed(H);
      var input := CollectInputs(H);
      ghost var all := KidsHashed();
      hash := H(input);
      hashed := all;
      TopOnly(H);
      if all {
        forall j: nat | j < FANOUT ensures KidHashed(j) { assert old(KidHashed(j)); }
      }
    }

    lemma {:induction false} EmptySlots(H: HashFunction, a: nat, b: nat)
      requires ValidBut(H, FANOUT) && a <= b <= FANOUT && forall j: nat :: a <= j < b ==> j !in mask
      ensures forall j: nat :: a <= j < b ==> kids[j] == Nil
    {
      forall j: nat | a <= j < b ensures kids[j] == Nil {
        assert SlotOk(H, j);
      }
    }

    lemma {:induction false} SlotUsed(H: HashFunction)
      requires ValidBut(H, FANOUT)
      ensures kids == Nothing() <==> mask == {}
    {
      if s :| s in mask {
        assert SlotOk(H, s);
        assert kids[s] != Nothing()[s];
      } else {
        EmptySlots(H, 0, FANOUT);
      }
    }

    lemma {:induction false} CountChildren(H: HashFunction)
      requires ValidBut(H, FANOUT)
      ensures Rank(mask, SLOTS) == 0 <==> mask == {}
    {
      RankZero(mask, SLOTS);
      if Rank(mask, SLOTS) == 0 { assert forall j :: j in mask ==> j < SLOTS; assert mask == {}; }
    }

    /** Writing the hash of a node leaves it consistent. */
    twostate lemma {:induction false} TopOnly(new H: HashFunction)
      requires old(ValidBut(H, FANOUT)) && unchanged(old(repr) - {this})
      requires mask == old(mask) && leaf == old(leaf) && data == old(data) && kids == old(kids) && repr == old(repr)
      ensures ValidBut(H, FANOUT)
      ensures forall j: nat :: j < FANOUT ==> (KidHashed(j) <==> old(KidHashed(j)))
    {
      forall j: nat | j < FANOUT ensures SlotOk(H, j) && (KidHashed(j) <==> old(KidHashed(j))) {
        assert old(SlotOk(H, j));
      }
      forall j: nat, l: nat | j < FANOUT && l < FANOUT ensures Apart(j, l) {
        assert old(Apart(j, l)) && old(SlotOk(H, j)) && old(SlotOk(H, l));
      }
    }

    /** Points slot `i` at the branch `child`. */
    method SetNode(ghost H: HashFunction, i: nat, child: Node)
      requires ValidBut(H, i) && i in mask
      requires child.Valid(H) && this !in child.repr && child in child.repr
      requires forall j: nat :: j < FANOUT && j != i && j in mask && At(mask, data, j).NodeChild? ==>
                 At(mask, data, j).node.repr !! child.repr
      modifies this
      ensures ValidBut(H, FANOUT) && !hashed && mask == old(mask)
      ensures kids == old(kids)[i := child.AsTree()] && repr == old(repr) + child.repr
      ensures child.hashed && (forall j: nat :: j < FANOUT && j != i ==> old(KidHashed(j))) ==> KidsHashed()
    {
      UpdateAt(mask, data, i, NodeChild(child));
      leaf := leaf - {i};
      data := data[Rank(mask, i) := NodeChild(child)];
      kids := kids[i := child.AsTree()];
      repr := repr + child.repr;
      hashed := false;
      forall j: nat | j < FANOUT ensures SlotOk(H, j) {
        if j != i { assert old(SlotOk(H, j)); }
      }
      forall j: nat, l: nat | j < FANOUT && l < FANOUT ensures Apart(j, l) {
        if j != i && l != i { assert old(Apart(j, l)); }
        if j != i { assert old(SlotOk(H, j)); }
        if l != i { assert old(SlotOk(H, l)); }
      }
      if child.hashed && forall j: nat :: j < FANOUT && j != i ==> old(KidHashed(j)) {
        forall j: nat | j < FANOUT ensures KidHashed(j) {
          if j != i { assert old(SlotOk(H, j)) && old(KidHashed(j)); }
        }
      }
    }

    /** Puts a leaf into slot `i`. */
    method SetLeaf(ghost H: HashFunction, i: nat, key: nat, value: nat)
      requires ValidBut(H, i) && i in mask
      modifies this
      ensures ValidBut(H, FANOUT) && !hashed && mask == old(mask)
      ensures kids == old(kids)[i := Leaf(key, value)] && repr == old(repr)
      ensures (forall j: nat :: j < FANOUT && j != i ==> old(KidHashed(j))) ==> KidsHashed()
    {
      UpdateAt(mask, data, i, LeafChild(key, value));
      leaf := leaf + {i};
      data := data[Rank(mask, i) := LeafChild(key, value)];
      kids := kids[i := Leaf(key, value)];
      hashed := false;
      forall j: nat | j < FANOUT ensures SlotOk(H, j) {
        if j != i { assert old(SlotOk(H, j)); }
      }
      forall j: nat, l: nat | j < FANOUT && l < FANOUT ensures Apart(j, l) {
        if j != i && l != i { assert old(Apart(j, l)); }
        if j != i { assert old(SlotOk(H, j)); }
        if l != i { assert old(SlotOk(H, l)); }
      }
      if forall j: nat :: j < FANOUT && j != i ==> old(KidHashed(j)) {
        forall j: nat | j < FANOUT ensures KidHashed(j) {
          if j != i { assert old(SlotOk(H, j)) && old(KidHashed(j)); }
        }
      }
    }
  }

  lemma {:induction false} InputsSkip(H: HashFunction, kids: seq<Tree>, a: nat, b: nat)
    requires a <= b <= |kids| && forall j: nat :: a <= j < b ==> kids[j] == Nil
    ensures Inputs(H, kids[a..]) == Inputs(H, kids[b..])
    decreases b - a
  {
    if a < b {
      assert kids[a..][0] == Nil && kids[a..][1..] == kids[a + 1..];
      InputsSkip(H, kids, a + 1, b);
    }
  }

  lemma InputsStep(H: HashFunction, kids: seq<Tree>, i: nat)
    requires i < |kids|
    ensures Inputs(H, kids[i..]) == InputOf(H, kids[i]) + Inputs(H, kids[i + 1..])
  {
    assert kids[i..][1..] == kids[i + 1..];
  }

  lemma Associates<T>(a: seq<T>, b: seq<T>, c: seq<T>)
    ensures a + b + c == a + (b + c)
  {
  }

  /** Changes below slot `i` leave the rest of a node consistent. */
  twostate lemma {:induction false} KeptBut(new H: HashFunction, parent: Node, new i: nat, new b: Node)
    requires old(allocated(b))
    requires old(parent.ValidBut(H, FANOUT)) && i < FANOUT && i in old(parent.mask)
    requires old(At(parent.mask, parent.data, i)) == NodeChild(b)
    requires unchanged(old(parent.repr) - old(b.repr))
    ensures unchanged(parent) && parent.ValidBut(H, i)
    ensures forall j: nat :: j < FANOUT && j != i && old(parent.KidHashed(j)) ==> parent.KidHashed(j)
    ensures forall j: nat :: j < FANOUT && j != i && j in parent.mask && At(parent.mask, parent.data, j).NodeChild? ==>
              At(parent.mask, parent.data, j).node.repr !! old(b.repr)
              && At(parent.mask, parent.data, j).node.repr <= old(parent.repr)
  {
    assert old(parent.SlotOk(H, i));
    forall j: nat | j < FANOUT && j != i
      ensures parent.SlotOk(H, j)
      ensures old(parent.KidHashed(j)) ==> parent.KidHashed(j)
      ensures j in parent.mask && At(parent.mask, parent.data, j).NodeChild? ==>
                At(parent.mask, parent.data, j).node.repr !! old(b.repr)
                && At(parent.mask, parent.data, j).node.repr <= old(parent.repr)
    {
      assert old(parent.SlotOk(H, j)) && old(parent.Apart(i, j));
    }
    forall j: nat, l: nat | j < FANOUT && l < FANOUT && j != i && l != i ensures parent.Apart(j, l) {
      assert old(parent.Apart(j, l)) && old(parent.SlotOk(H, j)) && old(parent.SlotOk(H, l));
      assert old(parent.Apart(i, j)) && old(parent.Apart(i, l));
    }
  }

  /** A copy of `parent` with one more packed child, for slot `i`. */
  method ReallocateInsert(ghost H: HashFunction, parent: Node, i: nat) returns (r: Node)
    requires parent.ValidBut(H, FANOUT) && i < FANOUT && i !in parent.mask
    ensures fresh(r) && r.ValidBut(H, i) && !r.hashed && r.repr == {r} + parent.repr
    ensures r.mask == parent.mask + {i} && r.kids == parent.kids
    ensures forall j: nat :: j < FANOUT && j != i && parent.KidHashed(j) ==> r.KidHashed(j)
  {
    InsertAt(parent.mask, parent.data, i, Null);
    var n := Rank(parent.mask, i);
    r := new Node.Raw(parent.mask + {i}, parent.leaf, parent.data[..n] + [Null] + parent.data[n..],
                        parent.kids, parent.repr);
    forall j: nat | j < FANOUT && j != i ensures r.SlotOk(H, j) {
      assert parent.SlotOk(H, j);
    }
    forall j: nat, l: nat | j < FANOUT && l < FANOUT && j != i && l != i ensures r.Apart(j, l) {
      assert parent.Apart(j, l) && parent.SlotOk(H, j) && parent.SlotOk(H, l);
    }
    forall j: nat | j < FANOUT && j != i && parent.KidHashed(j) ensures r.KidHashed(j) {
      assert parent.SlotOk(H, j);
    }
  }

  /** A copy of `parent` without the packed child of slot `i`. */
  method ReallocateRemove(ghost H: HashFunction, parent: Node, i: nat) returns (r: Node)
    requires parent.ValidBut(H, i) && i in parent.mask
    ensures fresh(r) && r.ValidBut(H, FANOUT) && !r.hashed && r.repr == {r} + parent.repr
    ensures r.mask == parent.mask - {i} && r.kids == parent.kids[i := Nil]
    ensures (forall j: nat :: j < FANOUT && j != i ==> parent.KidHashed(j)) ==> r.KidsHashed()
  {
    RemoveAt(parent.mask, parent.data, i);
    var n := Rank(parent.mask, i);
    r := new Node.Raw(parent.mask - {i}, parent.leaf - {i}, parent.data[..n] + parent.data[n + 1..],
                      parent.kids[i := Nil], parent.repr);
    forall j: nat | j < FANOUT ensures r.SlotOk(H, j) {
      if j != i { assert parent.SlotOk(H, j); }
    }
    forall j: nat, l: nat | j < FANOUT && l < FANOUT ensures r.Apart(j, l) {
      if j != i { assert parent.SlotOk(H, j); }
      if l != i { assert parent.SlotOk(H, l); }
      if j != i && l != i { assert parent.Apart(j, l); }
    }
    if forall j: nat :: j < FANOUT && j != i ==> parent.KidHashed(j) {
      forall j: nat | j < FANOUT ensures r.KidHashed(j) {
        if j != i { assert parent.SlotOk(H, j) && parent.KidHashed(j); }
      }
    }
  }

  method FindPart(ghost H: HashFunction, parent: Node, height: nat, key: nat, ghost p: nat) returns (r: Option<nat>)
    requires parent.Valid(H) && Placed(parent.AsTree(), height, p)
    ensures r == Find(parent.AsTree(), height, key)
    decreases height
  {
    var i := SubIndex(key, height);
    assert parent.SlotOk(H, i) && Placed(parent.kids[i], height - 1, 32 * p + i);
    if i !in parent.mask {
      return None;
    }
    match At(parent.mask, parent.data, i) {
      case LeafChild(k, v) => r := if k == key then Some(v) else None;
      case NodeChild(child) => r := FindPart(H, child, height - 1, key, 32 * p + i);
    }
  }

  /** Inserts below `parent`, which may be reallocated; `r` is where it is afterwards. */
  method InsertPart(H: HashFunction, parent: Node, height: nat, rehash: bool, key: nat, value: nat) returns (r: Node)
    requires parent.Valid(H) && Placed(parent.AsTree(), height, Prefix(key, height))
    modifies parent.repr
    ensures r.Valid(H) && fresh(r.repr - old(parent.repr))
    ensures r.AsTree() == Insert(old(parent.AsTree()), height, key, value)
    ensures r.mask != {} && (rehash && old(parent.KidsHashed()) ==> r.hashed)
    decreases height, 2
  {
    var i := SubIndex(key, height);
    PrefixStep(key, height);
    assert parent.SlotOk(H, i) && Placed(parent.kids[i], height - 1, 32 * Prefix(key, height) + i);
    if i !in parent.mask {
      r := ReallocateInsert(H, parent, i);
      r.SetLeaf(H, i, key, value);
    } else {
      match At(parent.mask, parent.data, i) {
        case LeafChild(k, v) =>
          if k == key {
            r := parent;
            if !rehash {
              return;
            }
          } else {
            InsertBeside(H, parent, i, height, rehash, key, value, k, v);
            r := parent;
          }
        case NodeChild(b) =>
          InsertBelow(H, parent, i, b, height, rehash, key, value);
          r := parent;
      }
    }
    if rehash {
      r.Recompute(H);
    }
  }

  /** Replaces the leaf at slot `i` of `parent` by a branch with it and the new key. */
  method InsertBeside(H: HashFunction, parent: Node, i: nat, height: nat, rehash: bool, key: nat, value: nat,
                      k: nat, v: nat)
    requires parent.ValidBut(H, FANOUT) && height > 0 && i == SubIndex(key, height)
    requires Placed(parent.AsTree(), height, Prefix(key, height))
    requires i in parent.mask && At(parent.mask, parent.data, i) == LeafChild(k, v) && k != key
    modifies parent
    ensures parent.ValidBut(H, FANOUT) && !parent.hashed && fresh(parent.repr - old(parent.repr))
    ensures parent.AsTree() == Insert(old(parent.AsTree()), height, key, value) && parent.mask == old(parent.mask)
    ensures rehash && old(parent.KidsHashed()) ==> parent.KidsHashed()
    decreases height, 1
  {
    PrefixStep(key, height);
    assert parent.SlotOk(H, i) && Placed(parent.kids[i], height - 1, 32 * Prefix(key, height) + i);
    var child := SplitLeaf(H, parent.kids[i], height, rehash, key, value, k, v);
    forall j: nat | j < FANOUT && j in parent.mask && At(parent.mask, parent.data, j).NodeChild?
      ensures At(parent.mask, parent.data, j).node.repr <= parent.repr
    {
      assert parent.SlotOk(H, j);
    }
    parent.SetNode(H, i, child);
  }

  /** Inserts into the branch `b` at slot `i` of `parent`. */
  method InsertBelow(H: HashFunction, parent: Node, i: nat, b: Node, height: nat, rehash: bool, key: nat, value: nat)
    requires parent.ValidBut(H, FANOUT) && height > 0 && i == SubIndex(key, height)
    requires Placed(parent.AsTree(), height, Prefix(key, height))
    requires i in parent.mask && At(parent.mask, parent.data, i) == NodeChild(b)
    modifies parent.repr
    ensures parent.ValidBut(H, FANOUT) && !parent.hashed && fresh(parent.repr - old(parent.repr))
    ensures parent.AsTree() == Insert(old(parent.AsTree()), height, key, value) && parent.mask == old(parent.mask)
    ensures rehash && old(parent.KidsHashed()) ==> parent.KidsHashed()
    decreases height, 0
  {
    PrefixStep(key, height);
    assert parent.SlotOk(H, i) && Placed(parent.kids[i], height - 1, 32 * Prefix(key, height) + i);
    ghost var all := parent.KidsHashed();
    if all { assert parent.KidHashed(i) && b.KidsHashed(); }
    var child := InsertPart(H, b, height - 1, rehash, key, value);
    KeptBut(H, parent, i, b);
    if all {
      forall j: nat | j < FANOUT && j != i ensures parent.KidHashed(j) { assert old(parent.KidHashed(j)); }
    }
    parent.SetNode(H, i, child);
  }

  /** A branch with the leaf `k` and the new `key`. */
  method SplitLeaf(H: HashFunction, ghost leaf: Tree, height: nat, rehash: bool, key: nat, value: nat, k: nat, v: nat)
    returns (r: Node)
    requires height > 0 && leaf == Leaf(k, v) && k != key && Prefix(k, height - 1) == Prefix(key, height - 1)
    ensures fresh(r.repr) && r.Valid(H) && height > 1
    ensures Placed(Split(leaf, height - 1), height - 1, Prefix(key, height - 1))
    ensures r.AsTree() == Insert(Split(leaf, height - 1), height - 1, key, value)
    ensures rehash ==> r.hashed
    decreases height, 0
  {
    SplitPlaced(leaf, height, key);
    var j := SubIndex(k, height - 1);
    RankRemove({j}, j, SLOTS);
    RankRemove({j}, j, j);
    RankZero({}, SLOTS);
    RankZero({}, j);
    assert {j} - {j} == {};
    var b := new Node.Raw({j}, {j}, [LeafChild(k, v)], Single(j, leaf), {});
    assert forall x: nat :: x < FANOUT ==> b.SlotOk(H, x) && b.KidHashed(x);
    r := InsertPart(H, b, height - 1, rehash, key, value);
    if rehash {
      r.Recompute(H);
    }
  }

  /** Whether `node` is a branch with a leaf as its only child. */
  lemma {:induction false} OnlyLeafCount(H: HashFunction, node: Node)
    requires node.ValidBut(H, FANOUT) && node.mask != {}
    ensures Rank(node.mask, SLOTS) == 1 && NextSlot(node.mask, 0) in node.leaf <==> OnlyLeaf(node.kids)
    ensures FirstKid(node.kids) == node.kids[NextSlot(node.mask, 0)]
  {
    var s, kids := NextSlot(node.mask, 0), node.kids;
    RankOne(node.mask);
    node.EmptySlots(H, 0, s);
    var x :| x in node.mask;
    assert node.SlotOk(H, s);
    FirstKidIs(kids, s);
    if Rank(node.mask, SLOTS) == 1 && s in node.leaf {
      forall j: nat | j < |kids| && j != s ensures kids[j] == Nil { assert node.SlotOk(H, j); }
      assert kids[s].Leaf?;
    }
    if OnlyLeaf(kids) {
      var i: nat :| i < |kids| && kids[i].Leaf? && forall j: nat :: j < |kids| && j != i ==> kids[j] == Nil;
      assert i == s;
      forall j | j in node.mask ensures j == s { assert node.SlotOk(H, j); }
      assert node.mask == {s};
    }
  }

  /** Removes below `parent`.  `r` is where the node is afterwards, `null` if no child is left. */
  method RemovePart(H: HashFunction, parent: Node, height: nat, rehash: bool, key: nat)
    returns (found: bool, r: Node?)
    requires parent.Valid(H) && Placed(parent.AsTree(), height, Prefix(key, height))
    modifies parent.repr
    ensures found <==> Find(old(parent.AsTree()), height, key).Some?
    ensures !found ==> unchanged(old(parent.repr))
    ensures found && r == null ==> Remove(old(parent.AsTree()), height, key).kids == Nothing()
    ensures found && r != null ==>
              && r.Valid(H) && fresh(r.repr - old(parent.repr)) && r.mask != {}
              && r.AsTree() == Remove(old(parent.AsTree()), height, key)
              && (rehash && old(parent.KidsHashed()) ==> r.hashed)
    decreases height, 1
  {
    var i := SubIndex(key, height);
    PrefixStep(key, height);
    assert parent.SlotOk(H, i) && Placed(parent.kids[i], height - 1, 32 * Prefix(key, height) + i);
    var node: Node;
    if i !in parent.mask {
      return false, null;
    }
    match At(parent.mask, parent.data, i) {
      case LeafChild(k, v) =>
        if k != key {
          return false, null;
        }
        node := ReallocateRemove(H, parent, i);
      case NodeChild(b) =>
        found, node := RemoveBelow(H, parent, i, b, height, rehash, key);
        if !found {
          return false, null;
        }
    }
    found := true;
    node.SlotUsed(H);
    node.CountChildren(H);
    if Rank(node.mask, SLOTS) == 0 {
      r := null;
    } else {
      if rehash {
        node.Recompute(H);
      }
      r := node;
    }
  }

  /** Removes from the branch `b` at slot `i` of `parent`, and replaces it by its only child if
      that is a leaf. */
  method RemoveBelow(H: HashFunction, parent: Node, i: nat, b: Node, height: nat, rehash: bool, key: nat)
    returns (found: bool, r: Node)
    requires parent.Valid(H) && height > 0 && i == SubIndex(key, height)
    requires Placed(parent.AsTree(), height, Prefix(key, height))
    requires i in parent.mask && At(parent.mask, parent.data, i) == NodeChild(b)
    modifies parent.repr
    ensures found <==> Find(old(parent.AsTree()), height, key).Some?
    ensures !found ==> unchanged(old(parent.repr))
    ensures found ==>
              && r.ValidBut(H, FANOUT) && !r.hashed && fresh(r.repr - old(parent.repr))
              && r.AsTree() == Remove(old(parent.AsTree()), height, key)
              && (rehash && old(parent.KidsHashed()) ==> r.KidsHashed())
    decreases height, 0
  {
    PrefixStep(key, height);
    assert parent.SlotOk(H, i) && Placed(parent.kids[i], height - 1, 32 * Prefix(key, height) + i);
    ghost var kid := parent.kids[i];
    ghost var all := parent.KidsHashed();
    if all { assert parent.KidHashed(i) && b.KidsHashed(); }
    var child: Node?;
    found, child := RemovePart(H, b, height - 1, rehash, key);
    if !found {
      return false, parent;
    }
    RemovePresent(kid, height - 1, key);
    KeptBut(H, parent, i, b);
    if all {
      forall j: nat | j < FANOUT && j != i ensures parent.KidHashed(j) { assert old(parent.KidHashed(j)); }
    }
    if child == null {
      r := ReallocateRemove(H, parent, i);
    } else {
      child.SlotUsed(H);
      OnlyLeafCount(H, child);
      var s := NextSlot(child.mask, 0);
      assert child.SlotOk(H, s);
      if Rank(child.mask, SLOTS) == 1 && s in child.leaf {
        var leaf := At(child.mask, child.data, s);
        parent.SetLeaf(H, i, leaf.key, leaf.value);
      } else {
        parent.SetNode(H, i, child);
      }
      r := parent;
    }
  }

  /** Recomputes every hash from `node` down, children first.  An empty root is left alone. */
  method RehashNode(H: HashFunction, node: Node, ghost height: nat, ghost p: nat)
    requires node.Valid(H) && Placed(node.AsTree(), height, p) && DenseKids(node.kids)
    modifies node.repr
    ensures node.Valid(H) && node.mask == old(node.mask) && node.kids == old(node.kids) && node.repr == old(node.repr)
    ensures node.mask != {} ==> node.hashed
    ensures node.mask == {} ==> node.hash == old(node.hash) && node.hashed == old(node.hashed)
    decreases height, 1
  {
    if node.mask == {} {
      return;
    }
    var i := NextSlot(node.mask, 0);
    EmptyHashed(H, node, 0, i);
    while i < SLOTS
      invariant i <= SLOTS && (i < SLOTS ==> i in node.mask)
      invariant node.ValidBut(H, FANOUT) && node.mask == old(node.mask)
      invariant node.kids == old(node.kids) && node.repr == old(node.repr)
      invariant forall j: nat :: j < i ==> node.KidHashed(j)
    {
      RehashSlot(H, node, i, height, p);
      var next := NextSlot(node.mask, i + 1);
      EmptyHashed(H, node, i + 1, next);
      i := next;
    }
    node.Recompute(H);
  }

  lemma {:induction false} EmptyHashed(H: HashFunction, node: Node, a: nat, b: nat)
    requires node.ValidBut(H, FANOUT) && forall j: nat :: a <= j < b ==> j !in node.mask
    ensures forall j: nat :: a <= j < b ==> node.KidHashed(j)
  {
  }

  method RehashSlot(H: HashFunction, node: Node, i: nat, ghost height: nat, ghost p: nat)
    requires node.ValidBut(H, FANOUT) && Placed(node.AsTree(), height, p) && DenseKids(node.kids)
    requires height > 0 && i in node.mask
    modifies node.repr - {node}
    ensures node.ValidBut(H, FANOUT) && node.KidHashed(i)
    ensures forall j: nat :: j < FANOUT && old(node.KidHashed(j)) ==> node.KidHashed(j)
    decreases height, 0
  {
    assert node.SlotOk(H, i) && Placed(node.kids[i], height - 1, 32 * p + i);
    match At(node.mask, node.data, i) {
      case LeafChild(_, _) =>
      case NodeChild(b) =>
        b.SlotUsed(H);
        assert Dense(node.kids[i]);
        NothingAtMostOneLeaf(b.kids);
        RehashNode(H, b, height - 1, 32 * p + i);
        KeptBut(H, node, i, b);
        assert node.SlotOk(H, i);
    }
  }

  /** A map from keys of `5 * height` bits to values, with a hash of all it holds. */
  class Trie {
    const H: HashFunction
    const height: nat
    var root: Node
    var dirty: bool
    var autoRehash: bool
    ghost var contents: map<nat, nat>

    ghost predicate Valid()
      reads this, root, root.repr
    {
      && height > 0 && root.Valid(H)
      && Canonical(root.AsTree(), height) && Holds(root.AsTree(), height, contents)
      && (root.mask == {} ==> root.hash == ZERO_HASH && root.hashed)
      && (!dirty ==> root.hashed)
    }

    constructor (H: HashFunction, height: nat)
      requires height > 0
      ensures Valid() && fresh(root.repr) && contents == map[] && !dirty && autoRehash
      ensures this.H == H && this.height == height
    {
      this.H, this.height := H, height;
      root := new Node(H);
      dirty, autoRehash, contents := false, true, map[];
      new;
      EmptyCanonical(height);
    }

    method SetAutoRehash(b: bool)
      requires Valid()
      modifies this`autoRehash
      ensures Valid() && autoRehash == b
    {
      autoRehash := b;
    }

    /** Insert-if-absent. */
    method Insert(key: nat, value: nat)
      requires Valid() && Prefix(key, height) == 0
      modifies this, root.repr
      ensures Valid() && fresh(root.repr - old(root.repr)) && autoRehash == old(autoRehash)
      ensures contents == ApplyMap(old(contents), InsertOp(key, value))
      ensures dirty <==> old(dirty) || !autoRehash
    {
      ghost var t := root.AsTree();
      ApplyRefines(t, height, contents, InsertOp(key, value));
      root := InsertPart(H, root, height, autoRehash, key, value);
      contents := ApplyMap(contents, InsertOp(key, value));
      if !autoRehash {
        dirty := true;
      }
    }

    method Find(key: nat) returns (r: Option<nat>)
      requires Valid()
      ensures r == Lookup(contents, key)
    {
      r := FindPart(H, root, height, key, 0);
    }

    method Remove(key: nat)
      requires Valid() && Prefix(key, height) == 0
      modifies this, root.repr
      ensures Valid() && fresh(root.repr - old(root.repr)) && autoRehash == old(autoRehash)
      ensures contents == ApplyMap(old(contents), RemoveOp(key))
      ensures dirty <==> old(dirty) || !autoRehash
    {
      ghost var t := root.AsTree();
      ApplyRefines(t, height, contents, RemoveOp(key));
      RemoveFromRoot(key);
      contents := ApplyMap(contents, RemoveOp(key));
      if !autoRehash {
        dirty := true;
      }
    }

    method RemoveFromRoot(key: nat)
      requires Valid() && Prefix(key, height) == 0
      modifies this`root, root.repr
      ensures root.Valid(H) && fresh(root.repr - old(root.repr))
      ensures root.AsTree() == ApplyTree(old(root.AsTree()), height, RemoveOp(key))
      ensures root.mask == {} ==> root.hash == ZERO_HASH && root.hashed
      ensures autoRehash && old(root.hashed) ==> root.hashed
    {
      var found, r := RemovePart(H, root, height, autoRehash, key);
      if !found {
        RemoveAbsent(root.AsTree(), height, key);
      } else if r == null {
        root := new Node(H);
      } else {
        root := r;
      }
    }

    method RehashAll()
      requires Valid()
      modifies this`dirty, root.repr
      ensures Valid() && !dirty && root.AsTree() == old(root.AsTree())
    {
      root.SlotUsed(H);
      RehashNode(H, root, height, 0);
      dirty := false;
    }

    /** The root hash is that of any trie with the same contents, however it came to be. */
    method Hash() returns (r: nat)
      requires Valid() && !dirty
      ensures r == HashOf(H, root.AsTree())
      ensures forall t: Tree :: Canonical(t, height) && Holds(t, height, contents) ==> r == HashOf(H, t)
    {
      r := root.hash;
      forall t: Tree | Canonical(t, height) && Holds(t, height, contents) ensures r == HashOf(H, t) {
        CanonicalUnique(t, root.AsTree(), height);
      }
    }
  }
}
