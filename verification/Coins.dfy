/** The coin rules: coins are structures in the interpreter's store that are spent by binding
    their second argument.  What may be joined, split and moved, and what that does to the
    amount of money around. */
module Coins {
  import opened Rewards

  datatype Functor = Functor(name: string, arity: nat)

  /** A term as far as the rules look at it: an integer, a structure of the store, or neither. */
  datatype Term = Num(n: int) | Structure(id: nat) | Other

  datatype ListArg = NoList | List(items: seq<Term>)

  /** A structure: its functor, its first argument, and whether its second one is bound. */
  datatype Record = Record(functor: Functor, first: Term, bound: bool)

  type Store = seq<Record>

  datatype Outcome = Success | Failure | NotNumber | NotList | NotCoin | AlreadySpent | NotEnough

  const NATIVE: Functor := Functor("$coin", 2)

  predicate IsCoinFunctor(f: Functor) {
    f.arity >= 2 && f.name != "" && f.name[0] == '$'
  }

  predicate InStore(s: Store, t: Term) {
    t.Structure? ==> t.id < |s|
  }

  ghost predicate AllIn(s: Store, items: seq<Term>) {
    forall i: nat :: i < |items| ==> InStore(s, items[i])
  }

  predicate IsCoin(s: Store, t: Term) {
    t.Structure? && t.id < |s| && IsCoinFunctor(s[t.id].functor)
  }

  function Amount(r: Record): int {
    if r.first.Num? then r.first.n else 0
  }

  function Sum(a: seq<int>): int {
    if a == [] then 0 else Sum(a[..|a| - 1]) + a[|a| - 1]
  }

  lemma SumStep(a: seq<int>, k: nat)
    requires k < |a|
    ensures Sum(a[..k + 1]) == Sum(a[..k]) + a[k]
  {
    assert a[..k + 1][..k] == a[..k];
  }

  /** All unspent money of kind `f`. */
  function Unspent(s: Store, f: Functor): int {
    if s == [] then 0 else
      var r := s[|s| - 1];
      Unspent(s[..|s| - 1], f) + if r.functor == f && !r.bound then Amount(r) else 0
  }

  lemma {:induction false} UnspentAppend(s: Store, more: Store, f: Functor)
    ensures Unspent(s + more, f) == Unspent(s, f) + Unspent(more, f)
  {
    if more == [] {
      assert s + more == s;
    } else {
      assert (s + more)[..|s + more| - 1] == s + more[..|more| - 1];
      UnspentAppend(s, more[..|more| - 1], f);
    }
  }

  lemma {:induction false} UnspentBind(s: Store, i: nat, f: Functor)
    requires i < |s| && !s[i].bound
    ensures Unspent(s[i := s[i].(bound := true)], f) == Unspent(s, f) - if s[i].functor == f then Amount(s[i]) else 0
  {
    var s' := s[i := s[i].(bound := true)];
    if i < |s| - 1 {
      assert s'[..|s| - 1] == s[..|s| - 1][i := s[i].(bound := true)];
      UnspentBind(s[..|s| - 1], i, f);
    } else {
      assert s'[..|s| - 1] == s[..|s| - 1];
    }
  }

  // ----- joining -----

  /** What is wrong with the `i`-th coin of a list whose first is a structure. */
  function Offence(s: Store, items: seq<Term>, i: nat): Outcome
    requires i < |items|
  {
    if !IsCoin(s, items[i]) then NotCoin
    else if i > 0 && !(IsCoin(s, items[0]) && s[items[i].id].functor == s[items[0].id].functor) then NotCoin
    else if s[items[i].id].bound || items[i] in items[..i] then AlreadySpent
    else if !s[items[i].id].first.Num? then Failure
    else Success
  }

  /** The first `n` are coins of one kind, unspent, each once, with a number on them. */
  ghost predicate Joinable(s: Store, items: seq<Term>, n: nat)
    requires n <= |items|
  {
    && (forall i: nat :: i < n ==> IsCoin(s, items[i]) && !s[items[i].id].bound && s[items[i].id].first.Num?)
    && (forall i: nat :: i < n ==> IsCoin(s, items[0]) && s[items[i].id].functor == s[items[0].id].functor)
    && (forall i: nat, j: nat :: i < j < n ==> items[i] != items[j])
  }

  /** The list fails at its first offending coin. */
  ghost predicate FailsAt(s: Store, items: seq<Term>, i: nat, o: Outcome) {
    i < |items| && Joinable(s, items, i) && Offence(s, items, i) == o != Success
  }

  function Ids(items: seq<Term>): (ids: seq<nat>)
    requires forall i: nat :: i < |items| ==> items[i].Structure?
    ensures |ids| == |items| && forall i: nat :: i < |ids| ==> ids[i] == items[i].id
  {
    seq(|items|, i requires 0 <= i < |items| => items[i].id)
  }

  ghost predicate IdsIn(s: Store, ids: seq<nat>) {
    forall i: nat :: i < |ids| ==> ids[i] < |s|
  }

  /** The store with the given coins spent. */
  function Spend(s: Store, ids: seq<nat>): (r: Store)
    requires IdsIn(s, ids)
    ensures |r| == |s|
    ensures forall k: nat :: k < |s| ==> r[k] == s[k].(bound := s[k].bound || k in ids)
  {
    if ids == [] then s else
      var rest, i := ids[..|ids| - 1], ids[|ids| - 1];
      assert ids == rest + [i];
      var q := Spend(s, rest);
      q[i := q[i].(bound := true)]
  }

  function Amounts(s: Store, ids: seq<nat>): (a: seq<int>)
    requires IdsIn(s, ids)
    ensures |a| == |ids| && forall k: nat :: k < |a| ==> a[k] == Amount(s[ids[k]])
  {
    seq(|ids|, k requires 0 <= k < |ids| => Amount(s[ids[k]]))
  }

  /** Spending distinct unspent coins of one kind takes away what they are worth. */
  lemma {:induction false} UnspentSpend(s: Store, ids: seq<nat>, g: Functor, f: Functor)
    requires IdsIn(s, ids) && forall k: nat :: k < |ids| ==> !s[ids[k]].bound && s[ids[k]].functor == g
    requires forall i: nat, j: nat :: i < j < |ids| ==> ids[i] != ids[j]
    ensures Unspent(Spend(s, ids), f) == Unspent(s, f) - if f == g then Sum(Amounts(s, ids)) else 0
  {
    if ids != [] {
      var n := |ids| - 1;
      var rest := ids[..n];
      UnspentSpend(s, rest, g, f);
      assert ids[n] !in rest;
      UnspentBind(Spend(s, rest), ids[n], f);
      assert Amounts(s, ids)[..n] == Amounts(s, rest);
    }
  }

  // ----- splitting -----

  /** No sum of values from the front exceeds `amount`. */
  ghost predicate Covered(amount: int, values: seq<int>) {
    forall k: nat :: 0 < k <= |values| ==> Sum(values[..k]) <= amount
  }

  /** The values of the coins given out: values until nothing remains, and then the remainder. */
  function Pieces(rem: int, values: seq<int>): seq<int>
    decreases |values|
  {
    if rem <= 0 then []
    else if values == [] then [rem]
    else [values[0]] + Pieces(rem - values[0], values[1..])
  }

  lemma {:induction false} SumFront(x: int, a: seq<int>)
    ensures Sum([x] + a) == x + Sum(a)
  {
    if a == [] {
      assert [x] + a == [x] && [x][..0] == [];
    } else {
      assert ([x] + a)[..|a|] == [x] + a[..|a| - 1];
      SumFront(x, a[..|a| - 1]);
    }
  }

  lemma CoveredRest(amount: int, values: seq<int>)
    requires values != [] && Covered(amount, values)
    ensures amount - values[0] >= 0 && Covered(amount - values[0], values[1..])
  {
    SumStep(values, 0);
    assert values[..0] == [];
    forall k: nat | 0 < k <= |values[1..]| ensures Sum(values[1..][..k]) <= amount - values[0] {
      assert values[..k + 1] == [values[0]] + values[1..][..k];
      SumFront(values[0], values[1..][..k]);
    }
  }

  /** What is given out is worth exactly what was put in, if that was not negative, and nothing
      otherwise. */
  lemma {:induction false} PiecesSum(amount: int, values: seq<int>)
    requires Covered(amount, values)
    ensures Sum(Pieces(amount, values)) == if amount >= 0 then amount else 0
    decreases |values|
  {
    if amount > 0 {
      if values == [] {
        SumFront(amount, []);
        assert [amount] + [] == [amount];
      } else {
        CoveredRest(amount, values);
        PiecesSum(amount - values[0], values[1..]);
        SumFront(values[0], Pieces(amount - values[0], values[1..]));
      }
    }
  }

  /** Splitting preserves the amount exactly when it is not negative. */
  lemma {:induction false} SplitConserves(amount: int, values: seq<int>)
    requires Covered(amount, values)
    ensures Sum(Pieces(amount, values)) == amount <==> amount >= 0
  {
    PiecesSum(amount, values);
  }

  lemma {:induction false} SumSplit(values: seq<int>, k: nat)
    requires 0 < k <= |values|
    ensures Sum(values[..k]) == values[0] + Sum(values[1..][..k - 1])
  {
    assert values[..k] == [values[0]] + values[1..][..k - 1];
    SumFront(values[0], values[1..][..k - 1]);
  }

  /** The coins are the values up to the first place where their sum reaches the amount, and then nothing else; if
      it is never reached, all values and what remains. */
  lemma {:induction false} PiecesShape(amount: int, values: seq<int>) returns (n: nat)
    ensures n <= |values| && forall k: nat :: k < n ==> Sum(values[..k]) < amount
    ensures Sum(values[..n]) >= amount ==> Pieces(amount, values) == values[..n]
    ensures Sum(values[..n]) < amount ==>
              n == |values| && Pieces(amount, values) == values + [amount - Sum(values)]
    decreases |values|
  {
    n := 0;
    if amount > 0 && values == [] {
      assert values[..0] == [] == values && [] + [amount] == [amount];
    } else if amount > 0 {
      var rest := values[1..];
      n := PiecesShape(amount - values[0], rest);
      n := n + 1;
      forall k: nat | k < n ensures Sum(values[..k]) < amount { if k > 0 { SumSplit(values, k); } }
      SumSplit(values, n);
      SumSplit(values, |values|);
      assert rest[..|rest|] == rest && values[..|values|] == values;
      assert [values[0]] + rest[..n - 1] == values[..n];
      assert [values[0]] + (rest + [amount - Sum(values)]) == values + [amount - Sum(values)];
    }
  }

  function Coined(f: Functor, values: seq<int>): (r: Store)
    ensures |r| == |values| && forall i: nat :: i < |r| ==> r[i] == Record(f, Num(values[i]), false)
  {
    seq(|values|, i requires 0 <= i < |values| => Record(f, Num(values[i]), false))
  }

  lemma {:induction false} UnspentCoined(g: Functor, values: seq<int>, f: Functor)
    ensures Unspent(Coined(g, values), f) == if f == g then Sum(values) else 0
  {
    if values != [] {
      var n := |values| - 1;
      UnspentCoined(g, values[..n], f);
      assert Coined(g, values)[..n] == Coined(g, values[..n]);
    }
  }

  function Numbers(items: seq<Term>): (a: seq<int>)
    requires forall i: nat :: i < |items| ==> items[i].Num?
    ensures |a| == |items| && forall i: nat :: i < |a| ==> a[i] == items[i].n
  {
    seq(|items|, i requires 0 <= i < |items| => items[i].n)
  }

  // ----- one call -----

  datatype Op =
    | RewardOp(height: Term)
    | JoinOp(coins: ListArg)
    | SplitOp(coin: Term, values: ListArg)
    | MoveOp(coin: Term)

  /** What the code asks of its callers: a height the shift can take; a list of coins that is not
      empty, for the kind of the result is that of the first; and a number on a coin to split. */
  ghost predicate Allowed(s: Store, op: Op) {
    match op
    case RewardOp(h) => h.Num? ==> 0 <= h.n < BOUND
    case JoinOp(l) => l.List? ==> l.items != [] && AllIn(s, l.items)
    case SplitOp(c, l) => InStore(s, c) && (IsCoin(s, c) ==> s[c.id].first.Num?)
    case MoveOp(c) => InStore(s, c)
  }

  /** What is wrong with the first offending coin from the `i`-th on. */
  function FirstOffence(s: Store, items: seq<Term>, i: nat): Outcome
    requires i <= |items|
    decreases |items| - i
  {
    if i == |items| then Success
    else if Offence(s, items, i) != Success then Offence(s, items, i)
    else FirstOffence(s, items, i + 1)
  }

  /** A list has no offending coin exactly if it can be joined. */
  lemma {:induction false} NoOffence(s: Store, items: seq<Term>, i: nat)
    requires i <= |items| && Joinable(s, items, i)
    ensures FirstOffence(s, items, i) == Success <==> Joinable(s, items, |items|)
    ensures FirstOffence(s, items, i) != Success ==> exists j :: FailsAt(s, items, j, FirstOffence(s, items, i))
    decreases |items| - i
  {
    if i < |items| {
      OffenceExact(s, items, i);
      if Offence(s, items, i) == Success {
        NoOffence(s, items, i + 1);
      } else {
        assert FailsAt(s, items, i, Offence(s, items, i));
      }
    }
  }

  lemma OffenceExact(s: Store, items: seq<Term>, i: nat)
    requires i < |items| && Joinable(s, items, i)
    ensures Offence(s, items, i) == Success <==> Joinable(s, items, i + 1)
    ensures Offence(s, items, i) != Success ==> !Joinable(s, items, |items|)
  {
    if items[i] in items[..i] {
      var j: nat :| j < i && items[j] == items[i];
      assert !Joinable(s, items, i + 1);
    }
  }

  ghost function OutcomeOf(s: Store, op: Op): Outcome
    requires Allowed(s, op)
  {
    match op
    case RewardOp(h) => if h.Num? then Success else NotNumber
    case JoinOp(l) => if l.NoList? then NotList else FirstOffence(s, l.items, 0)
    case SplitOp(c, l) =>
      if !IsCoin(s, c) then NotCoin
      else if s[c.id].bound then AlreadySpent
      else if l.NoList? || exists i: nat :: i < |l.items| && !l.items[i].Num? then NotList
      else if !Covered(s[c.id].first.n, Numbers(l.items)) then NotEnough
      else Success
    case MoveOp(c) =>
      if !IsCoin(s, c) then NotCoin else if s[c.id].bound then AlreadySpent else Success
  }

  /** The coins an operation spends if it succeeds. */
  ghost function Spent(s: Store, op: Op): (ids: seq<nat>)
    requires Allowed(s, op) && OutcomeOf(s, op) == Success
    ensures IdsIn(s, ids)
  {
    match op
    case RewardOp(_) => []
    case JoinOp(l) => NoOffence(s, l.items, 0); Ids(l.items)
    case SplitOp(c, _) => [c.id]
    case MoveOp(c) => [c.id]
  }

  /** The coins it makes. */
  ghost function Made(s: Store, op: Op): Store
    requires Allowed(s, op) && OutcomeOf(s, op) == Success
  {
    match op
    case RewardOp(h) => Coined(NATIVE, [RewardAt(h.n)])
    case JoinOp(l) => NoOffence(s, l.items, 0); Coined(s[l.items[0].id].functor, [Sum(Amounts(s, Ids(l.items)))])
    case SplitOp(c, l) => Coined(s[c.id].functor, Pieces(s[c.id].first.n, Numbers(l.items)))
    case MoveOp(c) => [s[c.id]]
  }

  /** The store after an operation whose failures are rolled back. */
  ghost function After(s: Store, op: Op): Store
    requires Allowed(s, op)
  {
    if OutcomeOf(s, op) == Success then Spend(s, Spent(s, op)) + Made(s, op) else s
  }

  class Ledger {
    var store: Store

    constructor ()
      ensures store == []
    {
      store := [];
    }

    method NewCoin(functor: Functor, value: int) returns (coin: Term)
      modifies this
      ensures store == old(store) + Coined(functor, [value]) && coin == Structure(|old(store)|)
    {
      coin := Structure(|store|);
      store := store + [Record(functor, Num(value), false)];
    }

    method SpendCoin(coin: Term)
      requires IsCoin(store, coin) && !store[coin.id].bound
      modifies this
      ensures store == old(store)[coin.id := old(store)[coin.id].(bound := true)]
    {
      store := store[coin.id := store[coin.id].(bound := true)];
    }

    method Reward(height: Term) returns (o: Outcome, result: Term)
      requires Allowed(store, RewardOp(height))
      modifies this
      ensures o == OutcomeOf(old(store), RewardOp(height))
      ensures o == Success ==>
              store == old(store) + Made(old(store), RewardOp(height)) && result == Structure(|old(store)|)
      ensures o == Success ==>
                && |store| == |old(store)| + 1 && store[|old(store)|].functor == Functor("$coin", 2)
                && store[|old(store)|].first.Num? && !store[|old(store)|].bound
      ensures o != Success ==> store == old(store)
    {
      if !height.Num? { return NotNumber, Other; }
      var rew := Rewards.Reward(height.n);
      result := NewCoin(NATIVE, rew);
      o := Success;
    }

    /** Spends the coins of a list as it goes through it, and makes one coin of their sum.  When it
        does not succeed, what it has spent by then stays so: it is for the caller to undo. */
    method CJoin(coins: ListArg) returns (o: Outcome, result: Term)
      requires Allowed(store, JoinOp(coins))
      modifies this
      ensures o == OutcomeOf(old(store), JoinOp(coins))
      ensures o == Success ==> store == After(old(store), JoinOp(coins)) && result == Structure(|old(store)|)
    {
      if !coins.List? { return NotList, Other; }
      ghost var s0 := store;
      var items := coins.items;
      var sum, coinF, i := 0, NATIVE, 0;
      while i < |items|
        invariant Joining(s0, items, i, store, sum, coinF)
        invariant FirstOffence(s0, items, 0) == FirstOffence(s0, items, i)
      {
        var value;
        o, coinF, value := JoinNext(items, i, coinF, s0, sum);
        if o != Success { return o, Other; }
        sum := sum + value;
        i := i + 1;
      }
      JoiningDone(s0, items, store, sum, coinF);
      result := NewCoin(coinF, sum);
      o := Success;
    }

    /** Checks and spends the `i`-th coin of a list. */
    method JoinNext(items: seq<Term>, i: nat, coinF: Functor, ghost s0: Store, ghost sum: int)
        returns (o: Outcome, coinF': Functor, value: int)
      requires i < |items| && Joining(s0, items, i, store, sum, coinF)
      modifies this
      ensures o == Offence(s0, items, i)
      ensures o == Success ==> Joining(s0, items, i + 1, store, sum + value, coinF')
    {
      var coin := items[i];
      coinF', value := coinF, 0;
      JoiningOffence(s0, items, i, store, sum, coinF);
      if !IsCoin(store, coin) { return NotCoin, coinF', value; }
      if i == 0 {
        coinF' := store[coin.id].functor;
      } else if store[coin.id].functor != coinF {
        return NotCoin, coinF', value;
      }
      if store[coin.id].bound { return AlreadySpent, coinF', value; }
      ghost var before := store;
      SpendCoin(coin);
      var elem := store[coin.id].first;
      if !elem.Num? { return Failure, coinF', value; }
      value := elem.n;
      JoiningStep(s0, items, i, before, sum, coinF, coinF');
      return Success, coinF', value;
    }

    static method AreAllIntegers(items: seq<Term>) returns (all: bool)
      ensures all <==> forall i: nat :: i < |items| ==> items[i].Num?
    {
      for i := 0 to |items|
        invariant forall j: nat :: j < i ==> items[j].Num?
      {
        if !items[i].Num? { return false; }
      }
      return true;
    }

    /** Whether the values never add up to more than `amount`. */
    static method IsEnough(amount: int, items: seq<Term>) returns (enough: bool)
      requires forall i: nat :: i < |items| ==> items[i].Num?
      ensures enough <==> Covered(amount, Numbers(items))
    {
      var rem := amount;
      ghost var values := Numbers(items);
      assert values[..0] == [];
      for i := 0 to |items|
        invariant rem == amount - Sum(values[..i])
        invariant forall k: nat :: 0 < k <= i ==> Sum(values[..k]) <= amount
      {
        SumStep(values, i);
        rem := rem - items[i].n;
        if rem < 0 { return false; }
      }
      return true;
    }

    /** Makes the coins, and the one for the remainder. */
    method MakePieces(f: Functor, amount: int, items: seq<Term>) returns (results: seq<Term>)
      requires forall i: nat :: i < |items| ==> items[i].Num?
      modifies this
      ensures store == old(store) + Coined(f, Pieces(amount, Numbers(items)))
      ensures NewStructures(|old(store)|, results) && |results| == |Pieces(amount, Numbers(items))|
    {
      var rem, i := amount, 0;
      results := [];
      ghost var values, made := Numbers(items), [];
      ghost var pieces := Pieces(amount, values);
      assert values[0..] == values;
      while rem > 0 && i < |items|
        invariant i <= |items| && pieces == made + Pieces(rem, values[i..])
        invariant store == old(store) + Coined(f, made) && |results| == |made| && NewStructures(|old(store)|, results)
        decreases |items| - i
      {
        var val := items[i].n;
        PiecesStep(pieces, made, rem, values, i);
        CoinedMore(f, made, val);
        rem := rem - val;
        var newCoin := NewCoin(f, val);
        results, made, i := results + [newCoin], made + [val], i + 1;
      }
      assert values[|items|..] == [];
      if rem > 0 {
        CoinedMore(f, made, rem);
        var remCoin := NewCoin(f, rem);
        results, made := results + [remCoin], made + [rem];
      }
      assert pieces == made;
    }

    method CSplit(coin: Term, values: ListArg) returns (o: Outcome, results: seq<Term>)
      requires Allowed(store, SplitOp(coin, values))
      modifies this
      ensures o == OutcomeOf(old(store), SplitOp(coin, values))
      ensures o == Success ==> store == After(old(store), SplitOp(coin, values)) && |store| == |old(store)| + |results|
      ensures o == Success ==> NewStructures(|old(store)|, results)
      ensures o != Success ==> store == old(store)
    {
      if !IsCoin(store, coin) { return NotCoin, []; }
      if store[coin.id].bound { return AlreadySpent, []; }
      if !values.List? { return NotList, []; }
      var all := AreAllIntegers(values.items);
      if !all { return NotList, []; }
      var record := store[coin.id];
      var enough := IsEnough(record.first.n, values.items);
      if !enough { return NotEnough, []; }
      ghost var s0 := store;
      SpendCoin(coin);
      SpendOne(s0, coin.id);
      results := MakePieces(record.functor, record.first.n, values.items);
      o := Success;
    }

    method CMove(coin: Term) returns (o: Outcome, result: Term)
      requires Allowed(store, MoveOp(coin))
      modifies this
      ensures o == OutcomeOf(old(store), MoveOp(coin))
      ensures o != NotCoin <==>
              && coin.Structure? && old(store)[coin.id].functor.arity >= 2
              && old(store)[coin.id].functor.name != "" && old(store)[coin.id].functor.name[0] == '$'
      ensures o == Success ==> store == After(old(store), MoveOp(coin)) && result == Structure(|old(store)|)
      ensures o != Success ==> store == old(store)
    {
      if !IsCoin(store, coin) { return NotCoin, Other; }
      if store[coin.id].bound { return AlreadySpent, Other; }
      SpendOne(store, coin.id);
      var copy := store[coin.id];
      result := Structure(|store|);
      store := store + [copy];
      SpendCoin(coin);
      return Success, result;
    }

    /** One call of the interpreter: what a call that does not succeed has done is undone. */
    method Call(op: Op) returns (o: Outcome)
      requires Allowed(store, op)
      modifies this
      ensures o == OutcomeOf(old(store), op) && store == After(old(store), op)
    {
      var before := store;
      match op {
        case RewardOp(h) => var r; o, r := Reward(h); assert Spend(before, []) == before;
        case JoinOp(l) => var r; o, r := CJoin(l);
        case SplitOp(c, l) => var r; o, r := CSplit(c, l);
        case MoveOp(c) => var r; o, r := CMove(c);
      }
      if o != Success { store := before; }
    }
  }

  /** Structures that were not there when the store had `n` of them. */
  ghost predicate NewStructures(n: nat, results: seq<Term>) {
    forall i: nat :: i < |results| ==> results[i] == Structure(n + i)
  }

  lemma {:induction false} SpendOne(s: Store, x: nat)
    requires x < |s|
    ensures Spend(s, [x]) == s[x := s[x].(bound := true)]
  {
  }

  lemma {:induction false} PiecesStep(pieces: seq<int>, made: seq<int>, rem: int, values: seq<int>, i: nat)
    requires i < |values| && rem > 0 && pieces == made + Pieces(rem, values[i..])
    ensures pieces == made + [values[i]] + Pieces(rem - values[i], values[i + 1..])
  {
    assert values[i..][1..] == values[i + 1..];
  }

  lemma CoinedMore(f: Functor, made: seq<int>, v: int)
    ensures Coined(f, made + [v]) == Coined(f, made) + Coined(f, [v])
  {
  }

  /** The first `i` of the list are spent, `sum` is what they were worth, and `f` is their kind. */
  ghost predicate Joining(s0: Store, items: seq<Term>, i: nat, s: Store, sum: int, f: Functor) {
    && i <= |items| && Joinable(s0, items, i)
    && s == Spend(s0, Ids(items[..i])) && sum == Sum(Amounts(s0, Ids(items[..i])))
    && (i > 0 ==> f == s0[items[0].id].functor)
  }

  lemma {:induction false} JoiningDone(s0: Store, items: seq<Term>, s: Store, sum: int, f: Functor)
    requires items != [] && AllIn(s0, items) && Joining(s0, items, |items|, s, sum, f)
    ensures FirstOffence(s0, items, 0) == Success
    ensures s + Coined(f, [sum]) == After(s0, JoinOp(List(items)))
  {
    NoOffence(s0, items, 0);
    assert items[..|items|] == items;
  }

  /** What is wrong with the next coin shows in the store as it is now. */
  lemma JoiningOffence(s0: Store, items: seq<Term>, i: nat, s: Store, sum: int, f: Functor)
    requires Joining(s0, items, i, s, sum, f) && i < |items|
    ensures |s| == |s0| && (IsCoin(s, items[i]) <==> IsCoin(s0, items[i]))
    ensures IsCoin(s, items[i]) ==>
              var r, r0 := s[items[i].id], s0[items[i].id];
              r.functor == r0.functor && r.first == r0.first && (r.bound <==> r0.bound || items[i] in items[..i])
  {
    var ids := Ids(items[..i]);
    if items[i].Structure? {
      assert items[i].id in ids <==> items[i] in items[..i] by {
        if items[i] in items[..i] {
          var j: nat :| j < i && items[j] == items[i];
          assert ids[j] == items[i].id;
        }
      }
    }
  }

  lemma JoiningStep(s0: Store, items: seq<Term>, i: nat, s: Store, sum: int, f: Functor, f': Functor)
    requires Joining(s0, items, i, s, sum, f) && i < |items| && Offence(s0, items, i) == Success
    requires f' == if i == 0 then s0[items[0].id].functor else f
    ensures Joining(s0, items, i + 1, s[items[i].id := s[items[i].id].(bound := true)],
                    sum + s0[items[i].id].first.n, f')
  {
    assert Joinable(s0, items, i + 1) by { OffenceExact(s0, items, i); }
    IdsMore(items, i);
    SpendMore(s0, Ids(items[..i]), items[i].id);
  }

  lemma IdsMore(items: seq<Term>, i: nat)
    requires i < |items| && forall k: nat :: k <= i ==> items[k].Structure?
    ensures Ids(items[..i + 1]) == Ids(items[..i]) + [items[i].id]
  {
  }

  /** Spending one more coin, and its worth. */
  lemma {:induction false} SpendMore(s: Store, ids: seq<nat>, x: nat)
    requires IdsIn(s, ids) && x < |s|
    ensures var s' := Spend(s, ids); Spend(s, ids + [x]) == s'[x := s'[x].(bound := true)]
    ensures Sum(Amounts(s, ids + [x])) == Sum(Amounts(s, ids)) + Amount(s[x])
  {
    assert (ids + [x])[..|ids|] == ids;
    assert Amounts(s, ids + [x])[..|ids|] == Amounts(s, ids);
  }
}
