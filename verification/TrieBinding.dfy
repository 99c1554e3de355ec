/** The root hash commits to what a trie holds: two tries with one hash hold the same keys and values, or
    a weakness of the hash function is at hand. */
module TrieBinding {
  import opened Options
  import opened RadixTree
  import opened TrieLaws
  import opened MerkleTrie

  /** Two inputs that show that the hash function is weak: they differ and have one hash, or the first
      of them is not empty and has the hash of the empty trie. */
  ghost predicate Weakness(H: HashFunction, x: seq<HashInput>, y: seq<HashInput>) {
    (x != y && H(x) == H(y)) || (x != [] && H(x) == ZERO_HASH)
  }

  // ----- the children of a branch, without the empty slots -----

  ghost function Full(kids: seq<Tree>): (f: seq<Tree>)
    ensures forall t :: t in f <==> t in kids && t != Nil
  {
    if kids == [] then [] else (if kids[0] == Nil then [] else [kids[0]]) + Full(kids[1..])
  }

  ghost function Item(H: HashFunction, t: Tree): HashInput {
    match t
    case Leaf(key, value) => KeyValue(key, value)
    case Branch(_) => Digest(HashOf(H, t))
    case Nil => Digest(0)
  }

  ghost function Items(H: HashFunction, f: seq<Tree>): (r: seq<HashInput>)
    ensures |r| == |f| && forall j: nat :: j < |f| ==> r[j] == Item(H, f[j])
  {
    seq(|f|, j requires 0 <= j < |f| => Item(H, f[j]))
  }

  lemma {:induction false} InputsAreItems(H: HashFunction, kids: seq<Tree>)
    ensures Inputs(H, kids) == Items(H, Full(kids))
  {
    if kids != [] {
      InputsAreItems(H, kids[1..]);
      if kids[0] != Nil { assert Full(kids) == [kids[0]] + Full(kids[1..]); }
    }
  }

  lemma {:induction false} FullNotEmpty(kids: seq<Tree>)
    requires |kids| == FANOUT && kids != Nothing()
    ensures Full(kids) != []
  {
    var i: nat :| i < FANOUT && kids[i] != Nothing()[i];
    assert kids[i] in kids && kids[i] in Full(kids);
  }

  // ----- equal hashes -----

  /** A subtree as it may be below a branch. */
  ghost predicate Subtree(t: Tree, height: nat) {
    t != Nil && Dense(t) && exists p: nat :: Placed(t, height, p)
  }

  /** A subtree is in one slot only. */
  lemma {:induction false} OneSlot(t: Tree, u: Tree, height: nat, p: nat, q: nat, i: nat, j: nat)
    requires Placed(t, height, p) && Placed(u, height, q) && t.Branch? && u.Branch? && i < FANOUT && j < FANOUT
    requires t.kids[i] == u.kids[j] != Nil && Dense(t.kids[i])
    ensures i == j
  {
    var key := DenseKey(t.kids[i], height - 1, 32 * p + i);
    FindOutsideNone(u.kids[j], height - 1, 32 * q + j, key);
    assert 32 * p + i == 32 * q + j;
  }

  /** The children without the empty slots determine the children. */
  lemma {:induction false} FullDetermines(t: Tree, u: Tree, height: nat, p: nat, q: nat)
    requires Placed(t, height, p) && Placed(u, height, q) && t.Branch? && u.Branch?
    requires DenseKids(t.kids) && DenseKids(u.kids) && Full(t.kids) == Full(u.kids)
    ensures t == u
  {
    forall i: nat | i < FANOUT ensures t.kids[i] == u.kids[i] {
      if t.kids[i] != Nil {
        assert t.kids[i] in Full(u.kids);
        var j: nat :| j < FANOUT && u.kids[j] == t.kids[i];
        OneSlot(t, u, height, p, q, i, j);
      } else if u.kids[i] != Nil {
        assert u.kids[i] in Full(t.kids);
        var j: nat :| j < FANOUT && t.kids[j] == u.kids[i];
        OneSlot(u, t, height, q, p, i, j);
      }
    }
    assert t.kids == u.kids;
  }

  /** Two branches with one hash are the same, or the hash function is weak. */
  lemma {:induction false} BranchesBound(H: HashFunction, t: Tree, u: Tree, height: nat, p: nat, q: nat)
    returns (x: seq<HashInput>, y: seq<HashInput>)
    requires Placed(t, height, p) && Placed(u, height, q) && t.Branch? && u.Branch?
    requires DenseKids(t.kids) && DenseKids(u.kids) && HashOf(H, t) == HashOf(H, u)
    ensures t == u || Weakness(H, x, y)
    decreases height, 1, 0
  {
    x, y := Inputs(H, t.kids), Inputs(H, u.kids);
    InputsAreItems(H, t.kids);
    InputsAreItems(H, u.kids);
    if t.kids == Nothing() {
      if u.kids != Nothing() {
        FullNotEmpty(u.kids);
        x, y := y, x;
      }
    } else if u.kids == Nothing() {
      FullNotEmpty(t.kids);
    } else if x == y {
      var a, b := Full(t.kids), Full(u.kids);
      assert |a| == |Items(H, a)| == |b|;
      KidsAreSubtrees(t, height, p);
      KidsAreSubtrees(u, height, q);
      x, y := ListsBound(H, a, b, height - 1);
      if a == b { FullDetermines(t, u, height, p, q); }
    }
  }

  lemma {:induction false} KidsAreSubtrees(t: Tree, height: nat, p: nat)
    requires Placed(t, height, p) && t.Branch? && DenseKids(t.kids)
    ensures forall k :: k in Full(t.kids) ==> Subtree(k, height - 1)
  {
    forall k | k in Full(t.kids) ensures Subtree(k, height - 1) {
      var i: nat :| i < |t.kids| && t.kids[i] == k;
      assert Placed(k, height - 1, 32 * p + i);
    }
  }

  lemma {:induction false} ListsBound(H: HashFunction, a: seq<Tree>, b: seq<Tree>, height: nat)
    returns (x: seq<HashInput>, y: seq<HashInput>)
    requires Items(H, a) == Items(H, b)
    requires forall t :: t in a || t in b ==> Subtree(t, height)
    ensures a == b || Weakness(H, x, y)
    decreases height, 2, |a|
  {
    assert |a| == |Items(H, a)| == |b|;
    x, y := [], [];
    if a != [] {
      assert Items(H, a)[0] == Items(H, b)[0];
      x, y := SubtreesBound(H, a[0], b[0], height);
      if a[0] == b[0] {
        forall j: nat | j < |a| - 1 ensures Items(H, a[1..])[j] == Items(H, b[1..])[j] {
          assert Items(H, a)[j + 1] == Items(H, b)[j + 1];
        }
        x, y := ListsBound(H, a[1..], b[1..], height);
        assert a == [a[0]] + a[1..] && b == [b[0]] + b[1..];
      }
    }
  }

  lemma {:induction false} SubtreesBound(H: HashFunction, t: Tree, u: Tree, height: nat)
    returns (x: seq<HashInput>, y: seq<HashInput>)
    requires Subtree(t, height) && Subtree(u, height) && Item(H, t) == Item(H, u)
    ensures t == u || Weakness(H, x, y)
    decreases height, 2, 0
  {
    x, y := [], [];
    var p: nat :| Placed(t, height, p);
    var q: nat :| Placed(u, height, q);
    if t.Branch? { x, y := BranchesBound(H, t, u, height, p, q); }
  }

  // ----- the binding law -----

  /** The hash of a canonical tree commits to the map it holds. */
  lemma {:induction false} HashBinds(H: HashFunction, t: Tree, u: Tree, height: nat, m: map<nat, nat>,
                                     m': map<nat, nat>) returns (x: seq<HashInput>, y: seq<HashInput>)
    requires Canonical(t, height) && Holds(t, height, m) && Canonical(u, height) && Holds(u, height, m')
    requires HashOf(H, t) == HashOf(H, u)
    ensures m == m' || (x != y && H(x) == H(y)) || (x != [] && H(x) == 0)
  {
    x, y := BranchesBound(H, t, u, height, 0, 0);
    if t == u {
      forall key: nat ensures Lookup(m, key) == Lookup(m', key) {
        assert Find(t, height, key) == Lookup(m, key) && Find(u, height, key) == Lookup(m', key);
      }
      forall key: nat ensures (key in m <==> key in m') && (key in m ==> m[key] == m'[key]) {
        assert Lookup(m, key) == Lookup(m', key);
      }
      assert m == m';
    }
  }

  /** Tries with one root hash, as `Trie.Hash` gives it, hold the same keys and values, or a weakness of the
      hash function is exhibited; tries that hold the same have one root hash. */
  lemma {:induction false} RootHashBinds(a: Trie, b: Trie) returns (x: seq<HashInput>, y: seq<HashInput>)
    requires a.Valid() && b.Valid() && !a.dirty && !b.dirty && a.H == b.H && a.height == b.height
    ensures a.root.hash == b.root.hash ==>
              a.contents == b.contents || (x != y && a.H(x) == a.H(y)) || (x != [] && a.H(x) == 0)
    ensures a.contents == b.contents ==> a.root.hash == b.root.hash
    ensures a.contents == map[] ==> a.root.hash == 0
  {
    EmptyCanonical(a.height);
    if a.contents == map[] { CanonicalUnique(a.root.AsTree(), Branch(Nothing()), a.height); }
    x, y := [], [];
    if a.root.hash == b.root.hash {
      x, y := HashBinds(a.H, a.root.AsTree(), b.root.AsTree(), a.height, a.contents, b.contents);
    }
    if a.contents == b.contents { CanonicalUnique(a.root.AsTree(), b.root.AsTree(), a.height); }
  }

  // ----- what is hashed -----

  lemma {:induction false} FullSkips(kids: seq<Tree>, n: nat)
    requires n <= |kids| && forall i: nat :: i < n ==> kids[i] == Nil
    ensures Full(kids) == Full(kids[n..])
    decreases n
  {
    if n == 0 {
      assert kids[0..] == kids;
    } else {
      FullSkips(kids[1..], n - 1);
      assert kids[1..][n - 1..] == kids[n..];
    }
  }

  /** Children come in the order of their slots, so their keys are in order. */
  lemma {:induction false} FullInOrder(t: Tree, height: nat, p: nat, from: nat, i: nat, j: nat, x: nat, y: nat)
    requires Placed(t, height, p) && t.Branch? && from <= FANOUT && i < j < |Full(t.kids[from..])|
    requires Find(Full(t.kids[from..])[i], height - 1, x).Some? && Find(Full(t.kids[from..])[j], height - 1, y).Some?
    ensures x < y
    decreases FANOUT - from
  {
    var rest := t.kids[from..];
    assert rest[1..] == t.kids[from + 1..] && rest[0] == t.kids[from];
    if t.kids[from] == Nil {
      FullInOrder(t, height, p, from + 1, i, j, x, y);
    } else if i > 0 {
      FullInOrder(t, height, p, from + 1, i - 1, j - 1, x, y);
    } else {
      assert Full(rest)[j] in Full(rest[1..]);
      var k: nat :| k < |rest[1..]| && rest[1..][k] == Full(rest)[j];
      assert t.kids[from + 1 + k] == Full(rest)[j];
      SlotsInOrder(t, height, p, from, from + 1 + k, x, y);
    }
  }

  lemma {:induction false} SlotsInOrder(t: Tree, height: nat, p: nat, i: nat, j: nat, x: nat, y: nat)
    requires Placed(t, height, p) && t.Branch? && i < j < FANOUT
    requires Find(t.kids[i], height - 1, x).Some? && Find(t.kids[j], height - 1, y).Some?
    ensures x < y
  {
    FindOutsideNone(t.kids[i], height - 1, 32 * p + i, x);
    FindOutsideNone(t.kids[j], height - 1, 32 * p + j, y);
    if y <= x { PrefixOrder(y, x, height - 1); }
  }

  /** What a branch that is not empty hashes: the key and value of each leaf and the hash of each branch among its
      children, in the order of their keys. */
  lemma {:induction false} HashedInOrder(H: HashFunction, t: Tree, height: nat, p: nat)
    returns (f: seq<Tree>, r: seq<HashInput>)
    requires Placed(t, height, p) && t.Branch? && t.kids != Nothing()
    ensures HashOf(H, t) == H(r) && |r| == |f| && forall k :: k in f <==> k in t.kids && k != Nil
    ensures forall j: nat :: j < |f| ==>
              match f[j]
              case Leaf(key, value) => r[j] == KeyValue(key, value)
              case Branch(_) => r[j] == Digest(HashOf(H, f[j]))
              case Nil => false
    ensures forall i: nat, j: nat :: i < j < |f| ==> KeysBefore(f[i], f[j], height - 1)
  {
    f, r := Full(t.kids), Inputs(H, t.kids);
    InputsAreItems(H, t.kids);
    assert t.kids[0..] == t.kids;
    forall j: nat | j < |f| ensures f[j] != Nil && r[j] == Item(H, f[j]) { assert f[j] in f; }
    forall i: nat, j: nat | i < j < |f| ensures KeysBefore(f[i], f[j], height - 1) {
      var a, b, h := f[i], f[j], height - 1;
      forall x: nat, y: nat | Find(a, h, x).Some? && Find(b, h, y).Some? ensures x < y {
        FullInOrder(t, height, p, 0, i, j, x, y);
      }
    }
  }

  ghost predicate KeysBefore(t: Tree, u: Tree, height: nat) {
    forall x: nat, y: nat :: Find(t, height, x).Some? && Find(u, height, y).Some? ==> x < y
  }

  /** A trie of one key hashes that key and its value. */
  lemma {:induction false} HashOfOne(H: HashFunction, t: Tree, height: nat, k: nat, v: nat)
    requires Canonical(t, height) && Holds(t, height, map[k := v]) && Prefix(k, height) == 0
    ensures HashOf(H, t) == H([KeyValue(k, v)])
  {
    var i := SubIndex(k, height);
    var u := Branch(Nothing()[i := Leaf(k, v)]);
    PrefixStep(k, height);
    forall x: nat ensures Find(u, height, x) == Lookup(map[k := v], x) { }
    CanonicalUnique(t, u, height);
    FullSkips(u.kids, i);
    FullSkips(u.kids[i + 1..], FANOUT - i - 1);
    assert u.kids[i..][0] == Leaf(k, v) && u.kids[i..][1..] == u.kids[i + 1..];
    assert u.kids[i + 1..][FANOUT - i - 1..] == [] && Full(u.kids) == [Leaf(k, v)];
    InputsAreItems(H, u.kids);
    assert Items(H, [Leaf(k, v)]) == [KeyValue(k, v)];
    assert u.kids[i] != Nothing()[i];
  }
}
