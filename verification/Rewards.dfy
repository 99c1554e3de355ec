/** The block rewards and the money supply they add up to. */
module Rewards {

  const GENESIS: nat := 42445243724242
  const FIRST: nat := 21000000000
  const EPOCH: nat := 100000
  const SUPPLY: nat := 4242424242424242
  /** First block without a reward. */
  const LAST: nat := 35 * EPOCH
  /** From this height on the shift is as wide as the word, and its result undefined. */
  const BOUND: nat := 64 * EPOCH

  function Pow2(k: nat): (p: nat)
    ensures p > 0
  {
    if k == 0 then 1 else 2 * Pow2(k - 1)
  }

  /** `x >> k` for a non-negative 64-bit `x`: `k` shifts by one. */
  function ShiftRight(x: nat, k: nat): (r: nat)
    requires k < 64
    ensures r * Pow2(k) <= x < (r + 1) * Pow2(k)
  {
    if k == 0 then x else
      var q := ShiftRight(x, k - 1);
      Halved(x, q, Pow2(k - 1));
      q / 2
  }

  lemma Halved(x: nat, q: nat, p: nat)
    requires q * p <= x < (q + 1) * p
    ensures (q / 2) * (2 * p) <= x < (q / 2 + 1) * (2 * p)
  {
    var h := q / 2;
    if q == 2 * h {
      assert q * p == h * (2 * p) && (q + 1) * p + p == (h + 1) * (2 * p);
    } else {
      assert q == 2 * h + 1;
      assert (q + 1) * p == (h + 1) * (2 * p) && q * p == h * (2 * p) + p;
    }
  }

  /** The first reward is divided by two for each whole epoch, and rounded down once. */
  method Reward(height: nat) returns (reward: nat)
    requires height < BOUND
    ensures height == 0 ==> reward == GENESIS
    ensures height > 0 ==>
              reward * Pow2(height / EPOCH) <= FIRST < (reward + 1) * Pow2(height / EPOCH)
    ensures reward == RewardAt(height)
  {
    reward := 0;
    if height == 0 {
      reward := GENESIS;
    } else {
      reward := ShiftRight(FIRST, height / EPOCH);
    }
  }

  function RewardAt(height: nat): nat
    requires height < BOUND
  {
    if height == 0 then GENESIS else ShiftRight(FIRST, height / EPOCH)
  }

  /** All rewards up to `height`. */
  function Total(height: nat): nat
    requires height < BOUND
  {
    RewardAt(height) + if height == 0 then 0 else Total(height - 1)
  }

  // ----- epoch by epoch -----

  function AtEpoch(k: nat): nat
    requires k < 64
  {
    if k == 0 then GENESIS + (EPOCH - 1) * FIRST else AtEpoch(k - 1) + EPOCH * ShiftRight(FIRST, k)
  }

  lemma {:induction false} RewardInEpoch(k: nat, height: nat)
    requires k < 64 && 0 < height && k * EPOCH <= height < (k + 1) * EPOCH
    ensures height < BOUND && RewardAt(height) == ShiftRight(FIRST, k)
  {
    assert height / EPOCH == k;
  }

  /** An epoch later the reward is half as much. */
  lemma {:induction false} RewardHalves(height: nat)
    requires 0 < height && height + EPOCH < BOUND
    ensures RewardAt(height + EPOCH) == RewardAt(height) / 2
  {
    var k := height / EPOCH;
    RewardInEpoch(k, height);
    RewardInEpoch(k + 1, height + EPOCH);
  }

  /** Within an epoch the total grows evenly. */
  lemma {:induction false} WithinEpoch(k: nat, start: nat, n: nat)
    requires k < 64 && 0 < start && k * EPOCH <= start && start + n <= (k + 1) * EPOCH
    ensures Total(start + n - 1) == Total(start - 1) + n * ShiftRight(FIRST, k)
    decreases n
  {
    if n > 0 {
      WithinEpoch(k, start, n - 1);
      RewardInEpoch(k, start + n - 1);
      Distribute(n, ShiftRight(FIRST, k));
    }
  }

  lemma Distribute(n: nat, r: nat)
    requires n > 0
    ensures n * r == (n - 1) * r + r
  {
  }

  lemma {:induction false} EpochTotal(k: nat)
    requires k < 64
    ensures Total((k + 1) * EPOCH - 1) == AtEpoch(k)
  {
    if k == 0 {
      WithinEpoch(0, 1, EPOCH - 1);
      assert Total(0) == GENESIS;
      assert ShiftRight(FIRST, 0) == FIRST;
    } else {
      EpochTotal(k - 1);
      WithinEpoch(k, k * EPOCH, EPOCH);
    }
  }

  lemma {:induction false} Pow2Monotone(j: nat, k: nat)
    requires j <= k
    ensures Pow2(j) <= Pow2(k)
    decreases k
  {
    if j < k { Pow2Monotone(j, k - 1); }
  }

  lemma Pow2At34()
    ensures Pow2(34) == 17179869184 && Pow2(35) == 34359738368
  {
    assert Pow2(8) == 256;
    assert Pow2(16) == 65536;
    assert Pow2(24) == 16777216;
    assert Pow2(32) == 4294967296;
  }

  /** Rewards are positive below `LAST` and zero from there on. */
  lemma RewardEnds(height: nat)
    requires height < BOUND
    ensures RewardAt(height) > 0 <==> height < LAST
  {
    var k := height / EPOCH;
    Pow2At34();
    if height > 0 {
      if k <= 34 { Pow2Monotone(k, 34); } else { Pow2Monotone(35, k); }
    }
  }

  /** `k` epochs more, halving the reward `r` each time, from a total of `t`. */
  function Halving(k: nat, r: nat, t: nat): nat {
    if k == 0 then t else Halving(k - 1, r / 2, t + EPOCH * (r / 2))
  }

  lemma {:induction false} EpochHalving(k: nat, n: nat)
    requires k + n < 64
    ensures AtEpoch(k + n) == Halving(n, ShiftRight(FIRST, k), AtEpoch(k))
    decreases n
  {
    if n > 0 {
      assert ShiftRight(FIRST, k + 1) == ShiftRight(FIRST, k) / 2;
      EpochHalving(k + 1, n - 1);
    }
  }

  lemma HalvingSum()
    ensures Halving(34, 21000000000, 2142424243724242) == SUPPLY
  {
    assert Halving(34, 21000000000, 2142424243724242) == Halving(31, 2625000000, 3979924243724242);
    assert Halving(31, 2625000000, 3979924243724242) == Halving(28, 328125000, 4209611743724242);
    assert Halving(28, 328125000, 4209611743724242) == Halving(25, 41015625, 4238322681224242);
    assert Halving(25, 41015625, 4238322681224242) == Halving(22, 5126953, 4241911548324242);
    assert Halving(22, 5126953, 4241911548324242) == Halving(19, 640869, 4242360156624242);
    assert Halving(19, 640869, 4242360156624242) == Halving(16, 80108, 4242416232524242);
    assert Halving(16, 80108, 4242416232524242) == Halving(13, 10013, 4242423241924242);
    assert Halving(13, 10013, 4242423241924242) == Halving(10, 1251, 4242424117924242);
    assert Halving(10, 1251, 4242424117924242) == Halving(7, 156, 4242424227224242);
    assert Halving(7, 156, 4242424227224242) == Halving(4, 19, 4242424240824242);
    assert Halving(4, 19, 4242424240824242) == Halving(1, 2, 4242424242324242);
    assert Halving(1, 2, 4242424242324242) == SUPPLY;
  }

  lemma SupplyAtLast()
    ensures Total(LAST - 1) == SUPPLY
  {
    EpochTotal(34);
    EpochHalving(0, 34);
    assert ShiftRight(FIRST, 0) == FIRST;
    HalvingSum();
  }

  lemma {:induction false} TotalMonotone(n: nat, m: nat)
    requires n <= m < BOUND
    ensures Total(n) <= Total(m)
    ensures n < m && n + 1 < LAST ==> Total(n) < Total(m)
    ensures n >= LAST - 1 ==> Total(n) == Total(m)
    decreases m
  {
    if n < m {
      TotalMonotone(n, m - 1);
      RewardEnds(m);
    }
  }

  /** The supply is never exceeded, and reached exactly with the last reward. */
  lemma {:induction false} SupplyExact(height: nat)
    requires height < BOUND
    ensures Total(height) <= SUPPLY
    ensures Total(height) == SUPPLY <==> height >= LAST - 1
  {
    SupplyAtLast();
    if height <= LAST - 1 { TotalMonotone(height, LAST - 1); } else { TotalMonotone(LAST - 1, height); }
  }

  // ----- rewards of some heights -----

  /** The rewards of the heights in `s` below `n`. */
  ghost function Claimed(s: set<nat>, n: nat): nat
    requires n <= BOUND
  {
    if n == 0 then 0 else Claimed(s, n - 1) + if n - 1 in s then RewardAt(n - 1) else 0
  }

  lemma {:induction false} ClaimedMore(s: set<nat>, h: nat, n: nat)
    requires n <= BOUND && h !in s
    ensures Claimed(s + {h}, n) == Claimed(s, n) + if h < n then RewardAt(h) else 0
  {
    if n > 0 { ClaimedMore(s, h, n - 1); }
  }

  lemma {:induction false} ClaimedTotal(s: set<nat>, n: nat)
    requires 0 < n <= BOUND
    ensures Claimed(s, n) <= Total(n - 1)
  {
    if n > 1 { ClaimedTotal(s, n - 1); }
  }

  /** Whatever heights are claimed, once each, the supply is not exceeded. */
  lemma {:induction false} ClaimedSupply(s: set<nat>)
    ensures Claimed(s, BOUND) <= SUPPLY
  {
    ClaimedTotal(s, BOUND);
    SupplyExact(BOUND - 1);
  }
}
