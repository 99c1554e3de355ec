/** Arrays of children packed by a bit mask: the child of slot `i` is at the index that
    counts the bits of the mask below `i`. */
module Packing {

  const SLOTS: nat := 32

  /** Number of members of `mask` below `i`. */
  function Rank(mask: set<nat>, i: nat): (r: nat)
    ensures r <= i
  {
    if i == 0 then 0 else Rank(mask, i - 1) + if i - 1 in mask then 1 else 0
  }

  /** The bit count that finds a child's place in the array. */
  lemma {:induction false} RankCounts(mask: set<nat>, i: nat)
    ensures Rank(mask, i) == |set j | j in mask && j < i|
  {
    var s := set j | j in mask && j < i;
    if i == 0 {
      assert s == {};
    } else {
      RankCounts(mask, i - 1);
      var t := set j | j in mask && j < i - 1;
      assert s == if i - 1 in mask then t + {i - 1} else t;
    }
  }

  predicate Packed<T>(mask: set<nat>, data: seq<T>) {
    (forall i :: i in mask ==> i < SLOTS) && |data| == Rank(mask, SLOTS)
  }

  lemma {:induction false} RankMonotone(mask: set<nat>, i: nat, j: nat)
    requires i <= j
    ensures Rank(mask, i) <= Rank(mask, j) <= Rank(mask, i) + (j - i)
    ensures i < j && i in mask ==> Rank(mask, i) < Rank(mask, j)
    decreases j
  {
    if i < j {
      RankMonotone(mask, i, j - 1);
    }
  }

  lemma {:induction false} RankInRange<T>(mask: set<nat>, data: seq<T>, i: nat)
    requires Packed(mask, data) && i < SLOTS
    ensures Rank(mask, i) <= |data|
    ensures i in mask ==> Rank(mask, i) < |data|
  {
    RankMonotone(mask, i, SLOTS);
  }

  /** The child of a slot that has one. */
  function At<T>(mask: set<nat>, data: seq<T>, i: nat): T
    requires Packed(mask, data) && i in mask
  {
    RankInRange(mask, data, i);
    data[Rank(mask, i)]
  }

  lemma {:induction false} RankAdd(mask: set<nat>, i: nat, j: nat)
    requires i !in mask
    ensures Rank(mask + {i}, j) == Rank(mask, j) + if i < j then 1 else 0
    decreases j
  {
    if j > 0 {
      RankAdd(mask, i, j - 1);
    }
  }

  lemma {:induction false} RankRemove(mask: set<nat>, i: nat, j: nat)
    requires i in mask
    ensures Rank(mask, j) == Rank(mask - {i}, j) + if i < j then 1 else 0
  {
    RankAdd(mask - {i}, i, j);
    assert mask - {i} + {i} == mask;
  }

  /** Different slots have different places, in the order of the slots. */
  lemma {:induction false} AtApart(mask: set<nat>, i: nat, j: nat)
    requires i in mask && j in mask
    ensures i < j <==> Rank(mask, i) < Rank(mask, j)
    ensures i == j <==> Rank(mask, i) == Rank(mask, j)
  {
    if i < j {
      RankMonotone(mask, i, j);
    } else if j < i {
      RankMonotone(mask, j, i);
    }
  }

  /** The packed children with one more in slot `i`. */
  function Inserted<T>(mask: set<nat>, data: seq<T>, i: nat, c: T): (data': seq<T>)
    requires Packed(mask, data) && i < SLOTS && i !in mask
    ensures Packed(mask + {i}, data')
  {
    RankInRange(mask, data, i);
    RankAdd(mask, i, SLOTS);
    data[..Rank(mask, i)] + [c] + data[Rank(mask, i)..]
  }

  lemma InsertedOther<T>(mask: set<nat>, data: seq<T>, i: nat, c: T, j: nat)
    requires Packed(mask, data) && i < SLOTS && i !in mask && j in mask
    ensures At(mask + {i}, Inserted(mask, data, i, c), j) == At(mask, data, j)
  {
    RankAdd(mask, i, j);
    RankInRange(mask, data, i);
    RankInRange(mask, data, j);
    if i < j {
      RankMonotone(mask, i, j);
    } else {
      RankMonotone(mask, j, i);
    }
  }

  /** Making room for a child in a new slot moves no other child to another slot. */
  lemma {:induction false} InsertAt<T>(mask: set<nat>, data: seq<T>, i: nat, c: T)
    requires Packed(mask, data) && i < SLOTS && i !in mask
    ensures Rank(mask, i) <= |data|
    ensures Inserted(mask, data, i, c) == data[..Rank(mask, i)] + [c] + data[Rank(mask, i)..]
    ensures At(mask + {i}, Inserted(mask, data, i, c), i) == c
    ensures forall j :: j in mask ==> At(mask + {i}, Inserted(mask, data, i, c), j) == At(mask, data, j)
  {
    RankInRange(mask, data, i);
    RankAdd(mask, i, i);
    forall j | j in mask ensures At(mask + {i}, Inserted(mask, data, i, c), j) == At(mask, data, j) {
      InsertedOther(mask, data, i, c, j);
    }
  }

  lemma {:induction false} RemoveAt<T>(mask: set<nat>, data: seq<T>, i: nat)
    requires Packed(mask, data) && i in mask
    ensures Rank(mask, i) < |data|
    ensures var n := Rank(mask, i); var data' := data[..n] + data[n + 1..];
            && Packed(mask - {i}, data')
            && forall j :: j in mask && j != i ==> At(mask - {i}, data', j) == At(mask, data, j)
  {
    RankInRange(mask, data, i);
    var n, mask' := Rank(mask, i), mask - {i};
    var data' := data[..n] + data[n + 1..];
    RankRemove(mask, i, SLOTS);
    forall j | j in mask && j != i ensures At(mask', data', j) == At(mask, data, j) {
      RankRemove(mask, i, j);
      RankInRange(mask, data, j);
      AtApart(mask, i, j);
    }
  }

  lemma {:induction false} UpdateAt<T>(mask: set<nat>, data: seq<T>, i: nat, c: T)
    requires Packed(mask, data) && i in mask
    ensures Rank(mask, i) < |data|
    ensures var data' := data[Rank(mask, i) := c];
            && Packed(mask, data') && At(mask, data', i) == c
            && forall j :: j in mask && j != i ==> At(mask, data', j) == At(mask, data, j)
  {
    RankInRange(mask, data, i);
    var data' := data[Rank(mask, i) := c];
    forall j | j in mask && j != i ensures At(mask, data', j) == At(mask, data, j) {
      AtApart(mask, i, j);
      RankInRange(mask, data, j);
    }
  }

  // ----- walking the slots -----

  /** The first slot from `i` on that is in use, or `SLOTS`. */
  function NextSlot(mask: set<nat>, i: nat): (s: nat)
    requires i <= SLOTS
    ensures i <= s <= SLOTS
    ensures s < SLOTS ==> s in mask
    ensures forall j: nat :: i <= j < s ==> j !in mask
    decreases SLOTS - i
  {
    if i == SLOTS || i in mask then i else NextSlot(mask, i + 1)
  }

  /** The last slot below `i` that is in use, or `SLOTS`. */
  function PreviousSlot(mask: set<nat>, i: nat): (s: nat)
    requires i <= SLOTS
    ensures s < SLOTS ==> s < i && s in mask && forall j: nat :: s < j < i ==> j !in mask
    ensures s >= SLOTS ==> s == SLOTS && forall j: nat :: j < i ==> j !in mask
    decreases i
  {
    if i == 0 then SLOTS else if i - 1 in mask then i - 1 else PreviousSlot(mask, i - 1)
  }

  lemma {:induction false} RankZero(mask: set<nat>, i: nat)
    ensures Rank(mask, i) == 0 <==> forall j: nat :: j < i ==> j !in mask
  {
    if i > 0 {
      RankZero(mask, i - 1);
    }
  }

  lemma {:induction false} RankOne(mask: set<nat>)
    requires forall i :: i in mask ==> i < SLOTS
    ensures Rank(mask, SLOTS) == 1 <==> NextSlot(mask, 0) < SLOTS && mask == {NextSlot(mask, 0)}
  {
    var s := NextSlot(mask, 0);
    if s < SLOTS {
      RankRemove(mask, s, SLOTS);
      RankZero(mask - {s}, SLOTS);
      if mask - {s} == {} { assert mask == {s}; }
      if Rank(mask - {s}, SLOTS) == 0 { assert mask - {s} == {}; }
    } else {
      RankZero(mask, SLOTS);
    }
  }
}
