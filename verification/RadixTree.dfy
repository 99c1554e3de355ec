/** The abstract radix tree behind the Merkle trie: 32-way branches over keys read five
    bits at a time from the most significant end, as values. */
module RadixTree {
  import opened Options

  const FANOUT: nat := 32

  /** A leaf holds its whole key; an empty slot is `Nil`. */
  datatype Tree = Nil | Leaf(key: nat, value: nat) | Branch(kids: seq<Tree>)

  /** `x >> bits`. */
  function ShiftRight(x: nat, bits: nat): nat {
    if bits == 0 then x else ShiftRight(x / 2, bits - 1)
  }

  /** The bits of `key` above a branch `height` levels above the keys. */
  function Prefix(key: nat, height: nat): nat {
    if height == 0 then key else Prefix(key, height - 1) / 32
  }

  /** The five bits of `key` that select a child of a branch `height` levels above the keys. */
  function SubIndex(key: nat, height: nat): (i: nat)
    requires height > 0
    ensures i < FANOUT
  {
    Prefix(key, height - 1) % 32
  }

  /** The child index is read with a shift by five bits a level and a mask of five ones. */
  lemma {:induction false} SubIndexIsShift(key: nat, height: nat)
    requires height > 0
    ensures SubIndex(key, height) == ShiftRight(key, 5 * (height - 1)) % 32
  {
    PrefixIsShift(key, height - 1);
  }

  lemma {:induction false} PrefixIsShift(key: nat, height: nat)
    ensures Prefix(key, height) == ShiftRight(key, 5 * height)
  {
    if height > 0 {
      PrefixIsShift(key, height - 1);
      ShiftTwice(key, 5 * (height - 1), 5);
      var x := ShiftRight(key, 5 * (height - 1));
      assert ShiftRight(x, 5) == ShiftRight(x / 2, 4) == ShiftRight(x / 2 / 2, 3);
      assert ShiftRight(x / 2 / 2, 3) == ShiftRight(x / 2 / 2 / 2, 2) == ShiftRight(x / 2 / 2 / 2 / 2, 1);
    }
  }

  lemma {:induction false} ShiftTwice(x: nat, m: nat, n: nat)
    ensures ShiftRight(x, m + n) == ShiftRight(ShiftRight(x, m), n)
    decreases m
  {
    if m > 0 {
      ShiftTwice(x / 2, m - 1, n);
    }
  }

  lemma PrefixStep(key: nat, height: nat)
    requires height > 0
    ensures Prefix(key, height - 1) == 32 * Prefix(key, height) + SubIndex(key, height)
  {
  }

  /** Numeric order is the order of the five-bit groups. */
  lemma {:induction false} PrefixOrder(x: nat, y: nat, height: nat)
    requires x <= y
    ensures Prefix(x, height) <= Prefix(y, height)
  {
    if height > 0 {
      PrefixOrder(x, y, height - 1);
    }
  }

  // ----- the tree and its keys -----

  /** Every key of `t` has prefix `p`, and sits where its bits lead. */
  ghost predicate Placed(t: Tree, height: nat, p: nat) {
    match t
    case Nil => true
    case Leaf(key, _) => Prefix(key, height) == p
    case Branch(kids) =>
      && height > 0 && |kids| == FANOUT
      && forall i: nat :: i < FANOUT ==> Placed(kids[i], height - 1, 32 * p + i)
  }

  function Find(t: Tree, height: nat, key: nat): Option<nat>
    decreases height
  {
    match t
    case Nil => None
    case Leaf(k, v) => if k == key then Some(v) else None
    case Branch(kids) =>
      if height == 0 || |kids| != FANOUT then None
      else Find(kids[SubIndex(key, height)], height - 1, key)
  }

  lemma {:induction false} FindOutside(t: Tree, height: nat, p: nat, key: nat)
    requires Placed(t, height, p) && Prefix(key, height) != p
    ensures Find(t, height, key) == None
    decreases height
  {
    if t.Branch? {
      PrefixStep(key, height);
      var i := SubIndex(key, height);
      FindOutside(t.kids[i], height - 1, 32 * p + i, key);
    }
  }

  /** The keys of a subtree are those its branch sends there. */
  lemma {:induction false} FindInKid(t: Tree, height: nat, p: nat, i: nat, key: nat)
    requires Placed(t, height, p) && t.Branch? && i < FANOUT
    ensures Find(t.kids[i], height - 1, key) ==
            if SubIndex(key, height) == i && Prefix(key, height) == p then Find(t, height, key) else None
  {
    PrefixStep(key, height);
    if Prefix(key, height - 1) != 32 * p + i {
      FindOutside(t.kids[i], height - 1, 32 * p + i, key);
    }
  }

  // ----- canonical shape -----

  function Nothing(): (kids: seq<Tree>)
    ensures |kids| == FANOUT && forall i: nat :: i < FANOUT ==> kids[i] == Nil
  {
    seq(FANOUT, _ => Nil)
  }

  /** A branch with no child, or with a leaf as its only child. */
  ghost predicate AtMostOneLeaf(kids: seq<Tree>) {
    && (forall i: nat :: i < |kids| ==> !kids[i].Branch?)
    && (forall i: nat, j: nat :: i < |kids| && j < |kids| && kids[i] != Nil && kids[j] != Nil ==> i == j)
  }

  /** No branch could be replaced by a leaf or removed. */
  ghost predicate Dense(t: Tree) {
    t.Branch? ==> !AtMostOneLeaf(t.kids) && forall i: nat :: i < |t.kids| ==> Dense(t.kids[i])
  }

  ghost predicate DenseKids(kids: seq<Tree>) {
    forall i: nat :: i < |kids| ==> Dense(kids[i])
  }

  /** The same for a whole trie, whose root is a branch whatever it holds. */
  ghost predicate Canonical(t: Tree, height: nat) {
    && t.Branch? && Placed(t, height, 0)
    && DenseKids(t.kids)
  }

  /** A dense subtree that is not empty has a key; a dense branch has two. */
  lemma {:induction false} DenseKey(t: Tree, height: nat, p: nat) returns (key: nat)
    requires Placed(t, height, p) && Dense(t) && t != Nil
    ensures Find(t, height, key).Some? && Prefix(key, height) == p
    decreases height
  {
    if t.Leaf? {
      key := t.key;
    } else {
      var i: nat :| i < FANOUT && t.kids[i] != Nil;
      key := DenseKey(t.kids[i], height - 1, 32 * p + i);
      FindInKid(t, height, p, i, key);
      FindOutsideNone(t, height, p, key);
    }
  }

  lemma {:induction false} FindOutsideNone(t: Tree, height: nat, p: nat, key: nat)
    requires Placed(t, height, p) && Find(t, height, key).Some?
    ensures Prefix(key, height) == p
  {
    if Prefix(key, height) != p {
      FindOutside(t, height, p, key);
    }
  }

  lemma {:induction false} DenseKeys(t: Tree, height: nat, p: nat) returns (x: nat, y: nat)
    requires Placed(t, height, p) && Dense(t) && t.Branch?
    ensures x != y && Find(t, height, x).Some? && Find(t, height, y).Some?
    ensures Prefix(x, height) == p && Prefix(y, height) == p
    decreases height
  {
    if i: nat :| i < FANOUT && t.kids[i].Branch? {
      x, y := DenseKeys(t.kids[i], height - 1, 32 * p + i);
      FindInKid(t, height, p, i, x);
      FindInKid(t, height, p, i, y);
    } else {
      var i: nat, j: nat :| i < FANOUT && j < FANOUT && t.kids[i] != Nil && t.kids[j] != Nil && i != j;
      x := DenseKey(t.kids[i], height - 1, 32 * p + i);
      y := DenseKey(t.kids[j], height - 1, 32 * p + j);
      FindInKid(t, height, p, i, x);
      FindInKid(t, height, p, j, y);
    }
  }

  ghost predicate SameFinds(t: Tree, u: Tree, height: nat) {
    forall key: nat :: Find(t, height, key) == Find(u, height, key)
  }

  /** A dense tree is determined by the keys and values found in it. */
  lemma {:induction false} DenseUnique(t: Tree, u: Tree, height: nat, p: nat)
    requires Placed(t, height, p) && Placed(u, height, p) && Dense(t) && Dense(u)
    requires SameFinds(t, u, height)
    ensures t == u
    decreases height
  {
    if t.Leaf? { assert Find(u, height, t.key) == Find(t, height, t.key); }
    if u.Leaf? { assert Find(t, height, u.key) == Find(u, height, u.key); }
    if t.Branch? && u.Branch? {
      KidsUnique(t, u, height, p);
    } else if t.Branch? {
      var x, y := DenseKeys(t, height, p);
    } else if u.Branch? {
      var x, y := DenseKeys(u, height, p);
    }
  }

  lemma {:induction false} KidsUnique(t: Tree, u: Tree, height: nat, p: nat)
    requires Placed(t, height, p) && Placed(u, height, p) && t.Branch? && u.Branch?
    requires DenseKids(t.kids) && DenseKids(u.kids)
    requires SameFinds(t, u, height)
    ensures t == u
    decreases height, 0
  {
    forall i: nat | i < FANOUT ensures t.kids[i] == u.kids[i] {
      var x, y, h := t.kids[i], u.kids[i], height - 1;
      forall key: nat ensures Find(x, h, key) == Find(y, h, key) {
        FindInKid(t, height, p, i, key);
        FindInKid(u, height, p, i, key);
      }
      DenseUnique(t.kids[i], u.kids[i], height - 1, 32 * p + i);
    }
  }

  /** The shape of a trie depends only on the map it holds. */
  lemma CanonicalUnique(t: Tree, u: Tree, height: nat)
    requires Canonical(t, height) && Canonical(u, height) && SameFinds(t, u, height)
    ensures t == u
  {
    KidsUnique(t, u, height, 0);
  }

  // ----- insertion -----

  function Single(i: nat, t: Tree): seq<Tree>
    requires i < FANOUT
  {
    Nothing()[i := t]
  }

  /** Insertion into a branch; a key that is present keeps its value. */
  function Insert(t: Tree, height: nat, key: nat, value: nat): Tree
    requires t.Branch? && Placed(t, height, Prefix(key, height))
    decreases height
  {
    var i := SubIndex(key, height);
    PrefixStep(key, height);
    match t.kids[i]
    case Nil => Branch(t.kids[i := Leaf(key, value)])
    case Leaf(k, _) =>
      if k == key then t
      else
        assert Placed(t.kids[i], height - 1, 32 * Prefix(key, height) + i);
        SplitPlaced(t.kids[i], height, key);
        Branch(t.kids[i := Insert(Split(t.kids[i], height - 1), height - 1, key, value)])
    case Branch(_) => Branch(t.kids[i := Insert(t.kids[i], height - 1, key, value)])
  }

  /** A branch that takes the place of a leaf. */
  function Split(leaf: Tree, height: nat): Tree
    requires leaf.Leaf? && height > 0
  {
    Branch(Single(SubIndex(leaf.key, height), leaf))
  }

  /** Different keys below one slot differ in bits further down. */
  lemma SplitPlaced(leaf: Tree, height: nat, key: nat)
    requires height > 0 && leaf.Leaf? && leaf.key != key && Prefix(leaf.key, height - 1) == Prefix(key, height - 1)
    ensures height > 1 && Placed(Split(leaf, height - 1), height - 1, Prefix(key, height - 1))
  {
    if height > 1 {
      PrefixStep(leaf.key, height - 1);
    }
  }

  lemma {:induction false} InsertPlaced(t: Tree, height: nat, key: nat, value: nat)
    requires t.Branch? && Placed(t, height, Prefix(key, height))
    ensures Insert(t, height, key, value).Branch?
    ensures Placed(Insert(t, height, key, value), height, Prefix(key, height))
    decreases height
  {
    PrefixStep(key, height);
    var i := SubIndex(key, height);
    var kid := t.kids[i];
    assert Placed(kid, height - 1, 32 * Prefix(key, height) + i);
    if kid.Branch? {
      InsertPlaced(kid, height - 1, key, value);
    } else if kid.Leaf? && kid.key != key {
      SplitPlaced(kid, height, key);
      InsertPlaced(Split(kid, height - 1), height - 1, key, value);
    }
  }

  /** Insert-if-absent. */
  lemma {:induction false} InsertFind(t: Tree, height: nat, key: nat, value: nat, x: nat)
    requires t.Branch? && Placed(t, height, Prefix(key, height))
    ensures Find(Insert(t, height, key, value), height, x) ==
            if x == key && Find(t, height, key) == None then Some(value) else Find(t, height, x)
    decreases height
  {
    PrefixStep(key, height);
    var i := SubIndex(key, height);
    var kid := t.kids[i];
    assert Placed(kid, height - 1, 32 * Prefix(key, height) + i);
    if SubIndex(x, height) == i {
      if kid.Branch? {
        InsertFind(kid, height - 1, key, value, x);
      } else if kid.Leaf? && kid.key != key {
        SplitPlaced(kid, height, key);
        InsertFind(Split(kid, height - 1), height - 1, key, value, x);
      }
    }
  }

  lemma {:induction false} InsertDense(t: Tree, height: nat, key: nat, value: nat)
    requires t.Branch? && Placed(t, height, Prefix(key, height))
    requires DenseKids(t.kids)
    requires Find(t, height, key) == None
    ensures DenseKids(Insert(t, height, key, value).kids)
    ensures t.kids != Nothing() ==> !AtMostOneLeaf(Insert(t, height, key, value).kids)
    decreases height
  {
    PrefixStep(key, height);
    InsertPlaced(t, height, key, value);
    var i := SubIndex(key, height);
    var kid := t.kids[i];
    assert Placed(kid, height - 1, 32 * Prefix(key, height) + i);
    var kids := Insert(t, height, key, value).kids;
    if kid.Branch? {
      assert Dense(kid);
      NothingAtMostOneLeaf(kid.kids);
      InsertDense(kid, height - 1, key, value);
      assert kids[i] == Insert(kid, height - 1, key, value);
      BranchKid(kids, i);
    } else if kid.Leaf? {
      SplitPlaced(kid, height, key);
      var s := Split(kid, height - 1);
      assert s.kids[SubIndex(kid.key, height - 1)] != Nothing()[SubIndex(kid.key, height - 1)];
      InsertDense(s, height - 1, key, value);
      assert kids[i] == Insert(s, height - 1, key, value);
      BranchKid(kids, i);
    } else if t.kids != Nothing() {
      var j: nat :| j < FANOUT && t.kids[j] != Nothing()[j];
      TwoKids(kids, i, j);
    }
    forall j: nat | j < FANOUT ensures Dense(kids[j]) {
      assert j != i ==> kids[j] == t.kids[j];
    }
  }

  lemma TwoKids(kids: seq<Tree>, i: nat, j: nat)
    requires i < |kids| && j < |kids| && i != j && kids[i] != Nil && kids[j] != Nil
    ensures !AtMostOneLeaf(kids)
  {
  }

  lemma BranchKid(kids: seq<Tree>, i: nat)
    requires i < |kids| && kids[i].Branch?
    ensures !AtMostOneLeaf(kids)
  {
  }

  lemma NothingAtMostOneLeaf(kids: seq<Tree>)
    ensures kids == Nothing() ==> AtMostOneLeaf(kids)
  {
  }

  lemma {:induction false} InsertPresent(t: Tree, height: nat, key: nat, value: nat)
    requires t.Branch? && Placed(t, height, Prefix(key, height)) && Find(t, height, key).Some?
    ensures Insert(t, height, key, value) == t
    decreases height
  {
    PrefixStep(key, height);
    var i := SubIndex(key, height);
    if t.kids[i].Branch? {
      InsertPresent(t.kids[i], height - 1, key, value);
    }
    assert t.kids[i := t.kids[i]] == t.kids;
  }

  lemma {:induction false} InsertCanonical(t: Tree, height: nat, key: nat, value: nat)
    requires Canonical(t, height) && Prefix(key, height) == 0
    ensures Canonical(Insert(t, height, key, value), height)
  {
    InsertPlaced(t, height, key, value);
    if Find(t, height, key).Some? {
      InsertPresent(t, height, key, value);
    } else {
      InsertDense(t, height, key, value);
    }
  }

  // ----- removal -----

  /** What a parent keeps of a child branch after a removal below it: nothing of an empty
      one, just the leaf of one whose only child is a leaf. */
  function Collapse(t: Tree): Tree
    requires t.Branch?
  {
    if t.kids == Nothing() then Nil
    else if OnlyLeaf(t.kids) then FirstKid(t.kids)
    else t
  }

  predicate OnlyLeaf(kids: seq<Tree>) {
    exists i: nat :: i < |kids| && kids[i].Leaf? && forall j: nat :: j < |kids| && j != i ==> kids[j] == Nil
  }

  function FirstKid(kids: seq<Tree>): Tree {
    if kids == [] then Nil else if kids[0] != Nil then kids[0] else FirstKid(kids[1..])
  }

  lemma {:induction false} FirstKidIs(kids: seq<Tree>, i: nat)
    requires i < |kids| && kids[i] != Nil && forall j: nat :: j < i ==> kids[j] == Nil
    ensures FirstKid(kids) == kids[i]
  {
    if i > 0 {
      FirstKidIs(kids[1..], i - 1);
    }
  }

  function Remove(t: Tree, height: nat, key: nat): (r: Tree)
    requires t.Branch? && Placed(t, height, Prefix(key, height))
    ensures r.Branch?
    decreases height
  {
    var i := SubIndex(key, height);
    PrefixStep(key, height);
    match t.kids[i]
    case Nil => t
    case Leaf(k, _) => if k == key then Branch(t.kids[i := Nil]) else t
    case Branch(_) =>
      var kid := Remove(t.kids[i], height - 1, key);
      if kid == t.kids[i] then t else Branch(t.kids[i := Collapse(kid)])
  }

  lemma {:induction false} CollapseFind(t: Tree, height: nat, p: nat, x: nat)
    requires t.Branch? && Placed(t, height, p)
    ensures Placed(Collapse(t), height, p)
    ensures Find(Collapse(t), height, x) == Find(t, height, x)
  {
    if t.kids != Nothing() && OnlyLeaf(t.kids) {
      var i: nat :| i < |t.kids| && t.kids[i].Leaf? && forall j: nat :: j < |t.kids| && j != i ==> t.kids[j] == Nil;
      FirstKidIs(t.kids, i);
      PrefixStep(t.kids[i].key, height);
      assert Placed(t.kids[i], height - 1, 32 * p + i);
    }
  }

  lemma CollapseDense(t: Tree)
    requires t.Branch? && |t.kids| == FANOUT && DenseKids(t.kids)
    ensures Dense(Collapse(t))
  {
    var kids := t.kids;
    if AtMostOneLeaf(kids) && kids != Nothing() {
      var i: nat :| i < FANOUT && kids[i] != Nothing()[i];
      assert OnlyLeaf(kids);
    }
    if kids != Nothing() && OnlyLeaf(kids) {
      var i: nat :| i < |kids| && kids[i].Leaf? && forall j: nat :: j < |kids| && j != i ==> kids[j] == Nil;
      FirstKidIs(kids, i);
    }
  }

  lemma {:induction false} RemovePlaced(t: Tree, height: nat, key: nat)
    requires t.Branch? && Placed(t, height, Prefix(key, height))
    ensures Placed(Remove(t, height, key), height, Prefix(key, height))
    decreases height
  {
    PrefixStep(key, height);
    var i := SubIndex(key, height);
    var kid := t.kids[i];
    assert Placed(kid, height - 1, 32 * Prefix(key, height) + i);
    if kid.Branch? {
      RemovePlaced(kid, height - 1, key);
      CollapseFind(Remove(kid, height - 1, key), height - 1, Prefix(key, height - 1), key);
    }
  }

  lemma {:induction false} RemoveFind(t: Tree, height: nat, key: nat, x: nat)
    requires t.Branch? && Placed(t, height, Prefix(key, height))
    ensures Find(Remove(t, height, key), height, x) == if x == key then None else Find(t, height, x)
    decreases height
  {
    PrefixStep(key, height);
    var i := SubIndex(key, height);
    var kid := t.kids[i];
    assert Placed(kid, height - 1, 32 * Prefix(key, height) + i);
    if SubIndex(x, height) == i && kid.Branch? {
      RemoveFind(kid, height - 1, key, x);
      RemovePlaced(kid, height - 1, key);
      CollapseFind(Remove(kid, height - 1, key), height - 1, Prefix(key, height - 1), x);
    }
  }

  lemma {:induction false} RemoveDense(t: Tree, height: nat, key: nat)
    requires t.Branch? && Placed(t, height, Prefix(key, height))
    requires DenseKids(t.kids)
    ensures DenseKids(Remove(t, height, key).kids)
    decreases height
  {
    PrefixStep(key, height);
    var i := SubIndex(key, height);
    var kid := t.kids[i];
    assert Placed(kid, height - 1, 32 * Prefix(key, height) + i);
    if kid.Branch? {
      RemoveDense(kid, height - 1, key);
      RemovePlaced(kid, height - 1, key);
      CollapseDense(Remove(kid, height - 1, key));
      var r := Remove(t, height, key);
      forall j: nat | j < FANOUT ensures Dense(r.kids[j]) {
        assert j != i ==> r.kids[j] == t.kids[j];
      }
    }
  }

  lemma {:induction false} RemoveCanonical(t: Tree, height: nat, key: nat)
    requires Canonical(t, height) && Prefix(key, height) == 0
    ensures Canonical(Remove(t, height, key), height)
  {
    RemovePlaced(t, height, key);
    RemoveDense(t, height, key);
  }

  /** Removing a key that is absent changes nothing. */
  lemma {:induction false} RemoveAbsent(t: Tree, height: nat, key: nat)
    requires t.Branch? && Placed(t, height, Prefix(key, height)) && Find(t, height, key) == None
    ensures Remove(t, height, key) == t
    decreases height
  {
    PrefixStep(key, height);
    var i := SubIndex(key, height);
    if t.kids[i].Branch? {
      RemoveAbsent(t.kids[i], height - 1, key);
    }
  }

  lemma {:induction false} RemovePresent(t: Tree, height: nat, key: nat)
    requires t.Branch? && Placed(t, height, Prefix(key, height)) && Find(t, height, key).Some?
    ensures Remove(t, height, key) != t
  {
    RemoveFind(t, height, key, key);
  }
}
