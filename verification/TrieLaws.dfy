/** What a trie promises over its whole life: it is a map, its shape and its root hash are
    functions of that map, and branches are exactly where keys part. */
module TrieLaws {
  import opened Options
  import opened RadixTree

  // ----- hashes -----

  /** What a branch feeds to the hash function for one child. */
  datatype HashInput = KeyValue(key: nat, value: nat) | Digest(hash: nat)

  type HashFunction = seq<HashInput> -> nat

  const ZERO_HASH: nat := 0

  /** The hash a branch ought to have.  Only an empty root is not hashed. */
  ghost function HashOf(H: HashFunction, t: Tree): nat
    requires t.Branch?
    decreases t, 0
  {
    if t.kids == Nothing() then ZERO_HASH else H(Inputs(H, t.kids))
  }

  /** The non-empty children, lowest slot first. */
  ghost function Inputs(H: HashFunction, kids: seq<Tree>): seq<HashInput>
    decreases kids, 1
  {
    if kids == [] then [] else InputOf(H, kids[0]) + Inputs(H, kids[1..])
  }

  ghost function InputOf(H: HashFunction, t: Tree): seq<HashInput>
    decreases t, 1
  {
    match t
    case Nil => []
    case Leaf(key, value) => [KeyValue(key, value)]
    case Branch(_) => [Digest(HashOf(H, t))]
  }

  // ----- histories -----

  datatype Op = InsertOp(key: nat, value: nat) | RemoveOp(key: nat)

  /** A key fits when it has no bits above the root. */
  ghost predicate Fits(op: Op, height: nat) {
    Prefix(op.key, height) == 0
  }

  ghost function ApplyTree(t: Tree, height: nat, op: Op): Tree
    requires Canonical(t, height) && Fits(op, height)
  {
    match op
    case InsertOp(key, value) => Insert(t, height, key, value)
    case RemoveOp(key) => Remove(t, height, key)
  }

  ghost function ApplyMap(m: map<nat, nat>, op: Op): map<nat, nat> {
    match op
    case InsertOp(key, value) => if key in m then m else m[key := value]
    case RemoveOp(key) => m - {key}
  }

  ghost function Lookup(m: map<nat, nat>, key: nat): Option<nat> {
    if key in m then Some(m[key]) else None
  }

  /** `t` holds exactly the keys and values of `m`. */
  ghost predicate Holds(t: Tree, height: nat, m: map<nat, nat>) {
    forall key: nat :: Find(t, height, key) == Lookup(m, key)
  }

  lemma EmptyCanonical(height: nat)
    requires height > 0
    ensures Canonical(Branch(Nothing()), height) && Holds(Branch(Nothing()), height, map[])
  {
  }

  /** Each operation does to the trie what it says it does to a map. */
  lemma ApplyRefines(t: Tree, height: nat, m: map<nat, nat>, op: Op)
    requires Canonical(t, height) && Fits(op, height) && Holds(t, height, m)
    ensures Canonical(ApplyTree(t, height, op), height)
    ensures Holds(ApplyTree(t, height, op), height, ApplyMap(m, op))
  {
    var t', m' := ApplyTree(t, height, op), ApplyMap(m, op);
    match op {
      case InsertOp(key, value) =>
        InsertCanonical(t, height, key, value);
        forall x: nat ensures Find(t', height, x) == Lookup(m', x) { InsertFind(t, height, key, value, x); }
      case RemoveOp(key) =>
        RemoveCanonical(t, height, key);
        forall x: nat ensures Find(t', height, x) == Lookup(m', x) { RemoveFind(t, height, key, x); }
    }
  }

  /** The trie after a history, from the empty trie. */
  ghost function RunTree(ops: seq<Op>, height: nat): (t: Tree)
    requires height > 0 && forall op :: op in ops ==> Fits(op, height)
    ensures Canonical(t, height) && Holds(t, height, RunMap(ops))
  {
    EmptyCanonical(height);
    if ops == [] then Branch(Nothing()) else
    var n := |ops| - 1;
    assert ops[n] in ops && forall op :: op in ops[..n] ==> op in ops;
    ApplyRefines(RunTree(ops[..n], height), height, RunMap(ops[..n]), ops[n]);
    ApplyTree(RunTree(ops[..n], height), height, ops[n])
  }

  ghost function RunMap(ops: seq<Op>): map<nat, nat> {
    if ops == [] then map[] else ApplyMap(RunMap(ops[..|ops| - 1]), ops[|ops| - 1])
  }

  /** The shape and the root hash depend only on the map that is left, not on its history. */
  lemma {:induction false} HistoryIndependence(H: HashFunction, ops: seq<Op>, ops': seq<Op>, height: nat)
    requires height > 0
    requires (forall op :: op in ops ==> Fits(op, height)) && (forall op :: op in ops' ==> Fits(op, height))
    requires RunMap(ops) == RunMap(ops')
    ensures RunTree(ops, height) == RunTree(ops', height)
    ensures HashOf(H, RunTree(ops, height)) == HashOf(H, RunTree(ops', height))
  {
    CanonicalUnique(RunTree(ops, height), RunTree(ops', height), height);
  }

  // ----- where the branches are -----

  /** The node `level` levels above the keys on the way to `key`. */
  ghost function NodeAt(t: Tree, height: nat, key: nat, level: nat): Tree
    requires level <= height
    decreases height
  {
    if level == height then t
    else if t.Branch? && |t.kids| == FANOUT then NodeAt(t.kids[SubIndex(key, height)], height - 1, key, level)
    else Nil
  }

  lemma {:induction false} PrefixDown(x: nat, y: nat, level: nat, height: nat)
    requires level <= height && Prefix(x, level) == Prefix(y, level)
    ensures Prefix(x, height) == Prefix(y, height)
    decreases height
  {
    if level < height {
      PrefixDown(x, y, level, height - 1);
    }
  }

  ghost predicate TwoKeysShare(t: Tree, height: nat, key: nat, level: nat) {
    exists x: nat, y: nat :: x != y && Find(t, height, x).Some? && Find(t, height, y).Some?
      && Prefix(x, level) == Prefix(key, level) && Prefix(y, level) == Prefix(key, level)
  }

  lemma {:induction false} FindNodeAt(t: Tree, height: nat, p: nat, key: nat, level: nat, x: nat)
    requires level <= height && Placed(t, height, p) && Dense(t) && Prefix(key, height) == p
    requires Prefix(x, level) == Prefix(key, level)
    requires NodeAt(t, height, key, level).Branch?
    ensures Placed(NodeAt(t, height, key, level), level, Prefix(key, level)) && Dense(NodeAt(t, height, key, level))
    ensures Find(NodeAt(t, height, key, level), level, x) == Find(t, height, x)
    decreases height
  {
    if level < height {
      PrefixStep(key, height);
      PrefixStep(x, height);
      PrefixDown(x, key, level, height - 1);
      var i := SubIndex(key, height);
      FindNodeAt(t.kids[i], height - 1, 32 * p + i, key, level, x);
    }
  }

  lemma {:induction false} KeysMakeBranch(t: Tree, height: nat, p: nat, key: nat, level: nat, x: nat, y: nat)
    requires level <= height && Placed(t, height, p) && Prefix(key, height) == p
    requires x != y && Find(t, height, x).Some? && Find(t, height, y).Some?
    requires Prefix(x, level) == Prefix(key, level) && Prefix(y, level) == Prefix(key, level)
    ensures NodeAt(t, height, key, level).Branch?
    decreases height
  {
    if level < height {
      PrefixStep(key, height);
      PrefixStep(x, height);
      PrefixStep(y, height);
      PrefixDown(x, key, level, height - 1);
      PrefixDown(y, key, level, height - 1);
      var i := SubIndex(key, height);
      KeysMakeBranch(t.kids[i], height - 1, 32 * p + i, key, level, x, y);
    }
  }

  /** Below the root there is a branch for a prefix exactly when two keys share the prefix. */
  lemma {:induction false} BranchIffShared(t: Tree, height: nat, key: nat, level: nat)
    requires Canonical(t, height) && Prefix(key, height) == 0 && level < height
    ensures NodeAt(t, height, key, level).Branch? <==> TwoKeysShare(t, height, key, level)
  {
    if TwoKeysShare(t, height, key, level) {
      var x: nat, y: nat :| x != y && Find(t, height, x).Some? && Find(t, height, y).Some?
        && Prefix(x, level) == Prefix(key, level) && Prefix(y, level) == Prefix(key, level);
      KeysMakeBranch(t, height, 0, key, level, x, y);
    }
    if NodeAt(t, height, key, level).Branch? {
      PrefixStep(key, height);
      var i := SubIndex(key, height);
      var kid := t.kids[i];
      FindNodeAt(kid, height - 1, i, key, level, key);
      var x, y := DenseKeys(NodeAt(kid, height - 1, key, level), level, Prefix(key, level));
      forall z: nat | z == x || z == y ensures Find(t, height, z).Some? {
        FindNodeAt(kid, height - 1, i, key, level, z);
        PrefixDown(z, key, level, height - 1);
        FindInKid(t, height, 0, i, z);
      }
    }
  }
}
