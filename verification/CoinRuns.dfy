/** Runs of coin operations: where the money comes from, and that no coin is spent twice. */
module CoinRuns {
  import opened Coins
  import opened Rewards

  /** Each operation leads from one store to the next; those that do not succeed change nothing. */
  ghost predicate Run(states: seq<Store>, ops: seq<Op>) {
    && |states| == |ops| + 1
    && forall i: nat :: i < |ops| ==> Allowed(states[i], ops[i]) && states[i + 1] == After(states[i], ops[i])
  }

  /** What an operation mints of kind `f`. */
  ghost function Minted(s: Store, op: Op, f: Functor): (m: nat)
    requires Allowed(s, op)
  {
    if op.RewardOp? && OutcomeOf(s, op) == Success && f == NATIVE then RewardAt(op.height.n) else 0
  }

  /** Splitting a coin of a negative amount: nothing is given out for it. */
  ghost predicate SplitsDebt(s: Store, op: Op, f: Functor)
    requires Allowed(s, op)
  {
    op.SplitOp? && OutcomeOf(s, op) == Success && s[op.coin.id].functor == f && s[op.coin.id].first.n < 0
  }

  ghost function Gained(s: Store, op: Op, f: Functor): (g: nat)
    requires Allowed(s, op)
    ensures g > 0 <==> SplitsDebt(s, op, f)
  {
    if SplitsDebt(s, op, f) then -s[op.coin.id].first.n else 0
  }

  lemma {:induction false} UnspentOne(r: Record, f: Functor)
    ensures Unspent([r], f) == if r.functor == f && !r.bound then Amount(r) else 0
  {
    assert [r][..0] == [];
  }

  lemma SumOne(x: int)
    ensures Sum([x]) == x
  {
    assert [x][..0] == [];
  }

  lemma {:induction false} JoinAccount(s: Store, l: ListArg, f: Functor)
    requires Allowed(s, JoinOp(l)) && OutcomeOf(s, JoinOp(l)) == Success
    ensures Unspent(After(s, JoinOp(l)), f) == Unspent(s, f)
  {
    NoOffence(s, l.items, 0);
    var g, ids := s[l.items[0].id].functor, Ids(l.items);
    var sum := Sum(Amounts(s, ids));
    UnspentAppend(Spend(s, ids), Coined(g, [sum]), f);
    UnspentSpend(s, ids, g, f);
    UnspentCoined(g, [sum], f);
    SumOne(sum);
  }

  /** Spending one coin and making others of its kind. */
  lemma {:induction false} ExchangeAccount(s: Store, x: nat, made: Store, f: Functor)
    requires x < |s| && !s[x].bound
    ensures Unspent(Spend(s, [x]) + made, f)
         == Unspent(s, f) - (if s[x].functor == f then Amount(s[x]) else 0) + Unspent(made, f)
  {
    UnspentAppend(Spend(s, [x]), made, f);
    UnspentSpend(s, [x], s[x].functor, f);
    assert Amounts(s, [x]) == [Amount(s[x])];
    SumOne(Amount(s[x]));
  }

  lemma {:induction false} SplitAccount(s: Store, c: Term, l: ListArg, f: Functor)
    requires Allowed(s, SplitOp(c, l)) && OutcomeOf(s, SplitOp(c, l)) == Success
    ensures Unspent(After(s, SplitOp(c, l)), f) == Unspent(s, f) + Gained(s, SplitOp(c, l), f)
  {
    var r := s[c.id];
    var pieces := Pieces(r.first.n, Numbers(l.items));
    ExchangeAccount(s, c.id, Coined(r.functor, pieces), f);
    UnspentCoined(r.functor, pieces, f);
    PiecesSum(r.first.n, Numbers(l.items));
  }

  /** The account of one operation. */
  lemma {:induction false} CallAccount(s: Store, op: Op, f: Functor)
    requires Allowed(s, op)
    ensures Unspent(After(s, op), f) == Unspent(s, f) + Minted(s, op, f) + Gained(s, op, f)
  {
    if OutcomeOf(s, op) == Success {
      match op
      case RewardOp(h) =>
        assert Spend(s, []) == s;
        UnspentAppend(s, Coined(NATIVE, [RewardAt(h.n)]), f);
        UnspentCoined(NATIVE, [RewardAt(h.n)], f);
        SumOne(RewardAt(h.n));
      case JoinOp(l) => JoinAccount(s, l, f);
      case SplitOp(c, l) => SplitAccount(s, c, l, f);
      case MoveOp(c) =>
        ExchangeAccount(s, c.id, [s[c.id]], f);
        UnspentOne(s[c.id], f);
    }
  }

  ghost function MintedIn(states: seq<Store>, ops: seq<Op>, f: Functor, n: nat): nat
    requires Run(states, ops) && n <= |ops|
  {
    if n == 0 then 0 else MintedIn(states, ops, f, n - 1) + Minted(states[n - 1], ops[n - 1], f)
  }

  ghost function GainedIn(states: seq<Store>, ops: seq<Op>, f: Functor, n: nat): (g: nat)
    requires Run(states, ops) && n <= |ops|
    ensures g == 0 <==> forall i: nat :: i < n ==> !SplitsDebt(states[i], ops[i], f)
  {
    if n == 0 then 0 else GainedIn(states, ops, f, n - 1) + Gained(states[n - 1], ops[n - 1], f)
  }

  lemma {:induction false} RunAccount(states: seq<Store>, ops: seq<Op>, f: Functor, n: nat)
    requires Run(states, ops) && n <= |ops|
    ensures Unspent(states[n], f) == Unspent(states[0], f) + MintedIn(states, ops, f, n) + GainedIn(states, ops, f, n)
  {
    if n > 0 {
      RunAccount(states, ops, f, n - 1);
      CallAccount(states[n - 1], ops[n - 1], f);
    }
  }

  /** Money is conserved over a run exactly if no coin of a negative amount is split in it. */
  lemma {:induction false} ConservedExactly(states: seq<Store>, ops: seq<Op>, f: Functor, n: nat)
    requires Run(states, ops) && n <= |ops|
    ensures Unspent(states[n], f) == Unspent(states[0], f) + MintedIn(states, ops, f, n)
       <==> forall i: nat :: i < n ==> !SplitsDebt(states[i], ops[i], f)
  {
    RunAccount(states, ops, f, n);
  }

  // ----- splitting into amounts that are not negative -----

  ghost predicate NoDebt(s: Store) {
    forall i: nat :: i < |s| ==> Amount(s[i]) >= 0
  }

  ghost predicate Fair(op: Op) {
    op.SplitOp? && op.values.List? ==>
      forall i: nat :: i < |op.values.items| ==> op.values.items[i].Num? ==> op.values.items[i].n >= 0
  }

  lemma {:induction false} SumNonNegative(a: seq<int>)
    requires forall i: nat :: i < |a| ==> a[i] >= 0
    ensures Sum(a) >= 0
  {
    if a != [] { SumNonNegative(a[..|a| - 1]); }
  }

  lemma {:induction false} PiecesNonNegative(amount: int, values: seq<int>)
    requires forall i: nat :: i < |values| ==> values[i] >= 0
    ensures forall i: nat :: i < |Pieces(amount, values)| ==> Pieces(amount, values)[i] >= 0
    decreases |values|
  {
    if amount > 0 && values != [] {
      PiecesNonNegative(amount - values[0], values[1..]);
    }
  }

  lemma StaysWithoutDebt(s: Store, op: Op)
    requires Allowed(s, op) && NoDebt(s) && Fair(op)
    ensures NoDebt(After(s, op))
  {
    if OutcomeOf(s, op) == Success {
      match op
      case RewardOp(_) =>
      case JoinOp(l) =>
        NoOffence(s, l.items, 0);
        SumNonNegative(Amounts(s, Ids(l.items)));
      case SplitOp(c, l) =>
        PiecesNonNegative(s[c.id].first.n, Numbers(l.items));
      case MoveOp(_) =>
    }
  }

  lemma {:induction false} RunWithoutDebt(states: seq<Store>, ops: seq<Op>, n: nat)
    requires Run(states, ops) && n <= |ops| && NoDebt(states[0])
    requires forall i: nat :: i < |ops| ==> Fair(ops[i])
    ensures NoDebt(states[n])
  {
    if n > 0 {
      RunWithoutDebt(states, ops, n - 1);
      StaysWithoutDebt(states[n - 1], ops[n - 1]);
    }
  }

  /** What is unspent was minted, whatever is joined, split and moved in between. */
  lemma {:induction false} Conserved(states: seq<Store>, ops: seq<Op>, f: Functor, n: nat)
    requires Run(states, ops) && n <= |ops| && NoDebt(states[0])
    requires forall i: nat :: i < |ops| ==> Fair(ops[i])
    ensures Unspent(states[n], f) == Unspent(states[0], f) + MintedIn(states, ops, f, n)
  {
    forall i: nat | i < n ensures !SplitsDebt(states[i], ops[i], f) {
      RunWithoutDebt(states, ops, i);
    }
    ConservedExactly(states, ops, f, n);
  }

  /** Without fairness money can come from nothing: one coin of 1 becomes coins of -1 and 2, and
      splitting the first of them makes it vanish. */
  lemma DebtVanishes() returns (states: seq<Store>, ops: seq<Op>)
    ensures Run(states, ops) && |ops| == 2 && NoDebt(states[0])
    ensures MintedIn(states, ops, NATIVE, 2) == 0
    ensures Unspent(states[0], NATIVE) == 1 && Unspent(states[2], NATIVE) == 2
  {
    var s0: Store := [Record(NATIVE, Num(1), false)];
    var split := SplitOp(Structure(0), List([Num(-1), Num(2)]));
    var drop := SplitOp(Structure(1), List([]));
    DebtMade();
    assert OutcomeOf(s0, split) == Success;
    var s1 := After(s0, split);
    assert s1[1] == Record(NATIVE, Num(-1), false);
    assert OutcomeOf(s1, drop) == Success;
    states, ops := [s0, s1, After(s1, drop)], [split, drop];
    UnspentOne(s0[0], NATIVE);
    CallAccount(s0, split, NATIVE);
    CallAccount(s1, drop, NATIVE);
    assert MintedIn(states, ops, NATIVE, 1) == 0;
  }

  lemma DebtMade()
    ensures Numbers([Num(-1), Num(2)]) == [-1, 2] && Numbers([]) == []
    ensures Covered(1, [-1, 2]) && Pieces(1, [-1, 2]) == [-1, 2]
  {
    SumOne(-1);
    assert [-1, 2][..1] == [-1] && [-1, 2][..2] == [-1, 2] && Sum([-1, 2]) == 1;
    assert [-1, 2][1..] == [2] && [2][1..] == [];
    assert Pieces(2, [2]) == [2];
  }

  // ----- no coin is spent twice -----

  /** An operation spends coins that were unspent, each once, and they stay spent. */
  lemma SpendsOnce(s: Store, op: Op)
    requires Allowed(s, op)
    ensures |After(s, op)| >= |s|
    ensures forall x: nat :: x < |s| ==>
              (After(s, op)[x].bound <==> s[x].bound || (OutcomeOf(s, op) == Success && x in Spent(s, op)))
    ensures OutcomeOf(s, op) == Success ==>
              var ids := Spent(s, op);
              (forall k: nat :: k < |ids| ==> !s[ids[k]].bound) &&
              (forall j: nat, k: nat :: j < k < |ids| ==> ids[j] != ids[k])
  {
    if OutcomeOf(s, op) == Success && op.JoinOp? {
      NoOffence(s, op.coins.items, 0);
    }
  }

  lemma {:induction false} StaysSpent(states: seq<Store>, ops: seq<Op>, i: nat, j: nat, x: nat)
    requires Run(states, ops) && i <= j <= |ops| && x < |states[i]| && states[i][x].bound
    ensures x < |states[j]| && states[j][x].bound
    decreases j
  {
    if i < j {
      StaysSpent(states, ops, i, j - 1, x);
      SpendsOnce(states[j - 1], ops[j - 1]);
    }
  }

  /** No coin is spent by two operations of a run. */
  lemma NoDoubleSpend(states: seq<Store>, ops: seq<Op>, i: nat, j: nat, x: nat)
    requires Run(states, ops) && i < j < |ops|
    requires OutcomeOf(states[i], ops[i]) == Success && OutcomeOf(states[j], ops[j]) == Success
    ensures !(x in Spent(states[i], ops[i]) && x in Spent(states[j], ops[j]))
  {
    if x in Spent(states[i], ops[i]) {
      SpendsOnce(states[i], ops[i]);
      StaysSpent(states, ops, i + 1, j, x);
      SpendsOnce(states[j], ops[j]);
    }
  }

  // ----- the supply -----

  /** Every block is rewarded at most once. */
  ghost predicate HeightsOnce(ops: seq<Op>) {
    forall i: nat, j: nat :: i < j < |ops| && ops[i].RewardOp? && ops[j].RewardOp? && ops[i].height.Num? ==>
      ops[i].height != ops[j].height
  }

  ghost function Heights(ops: seq<Op>, n: nat): (s: set<nat>)
    requires n <= |ops|
    ensures forall h: nat :: h in s <==> exists i: nat :: i < n && ops[i] == RewardOp(Num(h))
  {
    if n == 0 then {} else
      var s := Heights(ops, n - 1);
      if ops[n - 1].RewardOp? && ops[n - 1].height.Num? && ops[n - 1].height.n >= 0
      then s + {ops[n - 1].height.n} else s
  }

  lemma {:induction false} MintedClaimed(states: seq<Store>, ops: seq<Op>, n: nat)
    requires Run(states, ops) && n <= |ops| && HeightsOnce(ops)
    ensures MintedIn(states, ops, NATIVE, n) == Claimed(Heights(ops, n), BOUND)
  {
    if n == 0 {
      ClaimedNone(BOUND);
    } else {
      MintedClaimed(states, ops, n - 1);
      var op := ops[n - 1];
      assert Allowed(states[n - 1], op);
      if op.RewardOp? && op.height.Num? {
        var h: nat := op.height.n;
        assert h !in Heights(ops, n - 1);
        ClaimedMore(Heights(ops, n - 1), h, BOUND);
      }
    }
  }

  lemma {:induction false} ClaimedNone(n: nat)
    requires n <= BOUND
    ensures Claimed({}, n) == 0
  {
    if n > 0 { ClaimedNone(n - 1); }
  }

  lemma {:induction false} CoinWithin(s: Store, i: nat, f: Functor)
    requires NoDebt(s) && i < |s| && s[i].functor == f && !s[i].bound
    ensures 0 <= Amount(s[i]) <= Unspent(s, f)
  {
    var rest := s[..|s| - 1];
    UnspentNonNegative(rest, f);
    if i < |s| - 1 {
      assert NoDebt(rest) && rest[i] == s[i];
      CoinWithin(rest, i, f);
    }
  }

  lemma {:induction false} UnspentNonNegative(s: Store, f: Functor)
    requires NoDebt(s)
    ensures Unspent(s, f) >= 0
  {
    if s != [] { UnspentNonNegative(s[..|s| - 1], f); }
  }

  /** From an empty store, with every block rewarded at most once, there is never more native money
      than the supply, nor a coin worth more: no amount comes near the width of an integer cell. */
  lemma SupplyKept(states: seq<Store>, ops: seq<Op>, n: nat)
    requires Run(states, ops) && n <= |ops| && states[0] == [] && HeightsOnce(ops)
    requires forall i: nat :: i < |ops| ==> Fair(ops[i])
    ensures 0 <= Unspent(states[n], NATIVE) <= SUPPLY
    ensures forall i: nat :: i < |states[n]| && states[n][i].functor == NATIVE && !states[n][i].bound ==>
              0 <= Amount(states[n][i]) <= SUPPLY
  {
    Conserved(states, ops, NATIVE, n);
    MintedClaimed(states, ops, n);
    ClaimedSupply(Heights(ops, n));
    RunWithoutDebt(states, ops, n);
    forall i: nat | i < |states[n]| && states[n][i].functor == NATIVE && !states[n][i].bound
      ensures 0 <= Amount(states[n][i]) <= SUPPLY
    {
      CoinWithin(states[n], i, NATIVE);
    }
  }
}
