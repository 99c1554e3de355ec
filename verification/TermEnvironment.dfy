/** The term environment: a heap, a stack of terms, a trail and a choice point register,
    with unification and backtracking. */
module TermEnvironment {
  import opened Cells
  import opened RationalTrees
  import opened Forwarding

  datatype StateContext = StateContext(trail: nat, stack: nat, hb: nat)

  /** The pairs of terms above level `d` of the stack, each pushed second term first. */
  ghost predicate Encodes(stack: seq<Cell>, d: nat, todo: seq<(Cell, Cell)>) {
    && |stack| == d + 2 * |todo|
    && forall m: nat :: m < |todo| ==> stack[d + 2 * m] == todo[m].1 && stack[d + 2 * m + 1] == todo[m].0
  }

  ghost predicate NoRepeats(s: seq<nat>) {
    forall p: nat, q: nat :: p < q < |s| ==> s[p] != s[q]
  }

  /** `bs` lists, without repetition, the addresses below `limit` that `h'` binds. */
  ghost predicate Records(h: seq<Cell>, h': seq<Cell>, bs: seq<nat>, limit: nat) {
    && |h| == |h'|
    && NoRepeats(bs)
    && forall i: nat :: i in bs <==> i < |h| && i < limit && h'[i] != h[i]
  }

  ghost predicate AllBelow(s: seq<nat>, hb: nat) {
    forall x: nat :: x in s ==> x < hb
  }

  /** `s` has every entry of `all` that is below `hb`, as often as `all` has it. */
  ghost predicate KeepsBelow(all: seq<nat>, s: seq<nat>, hb: nat) {
    forall x: nat :: x < hb ==> Count(s, x) == Count(all, x)
  }

  /** How often `x` is in `s`. */
  ghost function Count(s: seq<nat>, x: nat): nat {
    if s == [] then 0 else Count(s[..|s| - 1], x) + if s[|s| - 1] == x then 1 else 0
  }

  lemma {:induction false} CountConcat(a: seq<nat>, b: seq<nat>, x: nat)
    ensures Count(a + b, x) == Count(a, x) + Count(b, x)
    decreases |b|
  {
    if b == [] {
      assert a + b == a;
    } else {
      var n := |b| - 1;
      assert (a + b)[..|a + b| - 1] == a + b[..n];
      CountConcat(a, b[..n], x);
    }
  }

  lemma {:induction false} CountIn(s: seq<nat>, x: nat)
    ensures x in s <==> Count(s, x) > 0
  {
    if s != [] {
      var n := |s| - 1;
      assert s == s[..n] + [s[n]];
      CountIn(s[..n], x);
    }
  }

  /** Moving the last entry over the `i`-th one removes the `i`-th one. */
  lemma {:induction false} MoveLastOver(s: seq<nat>, i: nat, x: nat)
    requires i < |s|
    ensures Count(s[i := s[|s| - 1]][..|s| - 1], x) + Count([s[i]], x) == Count(s, x)
  {
    var n := |s| - 1;
    var s' := s[i := s[n]][..n];
    if i < n {
      assert s == s[..i] + [s[i]] + s[i + 1..n] + [s[n]];
      assert s' == s[..i] + [s[n]] + s[i + 1..n];
      CountConcat(s[..i] + [s[i]] + s[i + 1..n], [s[n]], x);
      CountConcat(s[..i] + [s[i]], s[i + 1..n], x);
      CountConcat(s[..i], [s[i]], x);
      CountConcat(s[..i] + [s[n]], s[i + 1..n], x);
      CountConcat(s[..i], [s[n]], x);
    } else {
      assert s' == s[..n];
      assert s == s[..n] + [s[n]];
      CountConcat(s[..n], [s[n]], x);
    }
  }

  lemma DropKeepsBelow(all: seq<nat>, s: seq<nat>, i: nat, hb: nat)
    requires i < |s| && s[i] >= hb && KeepsBelow(all, s, hb)
    ensures KeepsBelow(all, s[i := s[|s| - 1]][..|s| - 1], hb)
  {
    var s': seq<nat> := s[i := s[|s| - 1]][..|s| - 1];
    forall x: nat | x < hb ensures Count(s', x) == Count(all, x) {
      MoveLastOver(s, i, x);
      assert Count(s, x) == Count(all, x);
      assert Count([s[i]], x) == 0;
    }
  }

  /** Part `from..i` of the trail is tidy; part `from..end` has all there is to keep. */
  ghost predicate Tidying(trail0: seq<nat>, trail: seq<nat>, from: nat, to: nat, i: nat, end: nat, hb: nat) {
    && from <= i <= end <= to <= |trail| && to <= |trail0|
    && trail[..from] == trail0[..from]
    && AllBelow(trail[from..i], hb)
    && KeepsBelow(trail0[from..to], trail[from..end], hb)
  }

  lemma TidyKeep(trail0: seq<nat>, trail: seq<nat>, from: nat, to: nat, i: nat, end: nat, hb: nat)
    requires Tidying(trail0, trail, from, to, i, end, hb) && i < end && trail[i] < hb
    ensures Tidying(trail0, trail, from, to, i + 1, end, hb)
  {
    assert trail[from..i + 1] == trail[from..i] + [trail[i]];
  }

  lemma TidyDrop(trail0: seq<nat>, trail: seq<nat>, from: nat, to: nat, i: nat, end: nat, hb: nat)
    requires Tidying(trail0, trail, from, to, i, end, hb) && i < end && trail[i] >= hb
    ensures Tidying(trail0, trail[i := trail[end - 1]], from, to, i, end - 1, hb)
  {
    var t', s := trail[i := trail[end - 1]], trail[from..end];
    DropKeepsBelow(trail0[from..to], s, i - from, hb);
    assert t'[from..end - 1] == s[i - from := s[|s| - 1]][..|s| - 1];
    assert t'[..from] == trail[..from] && t'[from..i] == trail[from..i];
  }

  lemma TidyDone(trail0: seq<nat>, trail: seq<nat>, from: nat, to: nat, end: nat, hb: nat)
    requires Tidying(trail0, trail, from, to, end, end, hb)
    ensures trail[..end][..from] == trail0[..from]
    ensures KeepsBelow(trail0[from..to], trail[..end][from..], hb) && AllBelow(trail[..end][from..], hb)
  {
    assert trail[..end][from..] == trail[from..end];
    assert trail[..end][..from] == trail[..from];
  }

  /** `h` with the variables in `ts` unbound. */
  ghost function Unwound(h: seq<Cell>, ts: seq<nat>): seq<Cell> {
    seq(|h|, i requires 0 <= i < |h| => if i in ts then Ref(i) else h[i])
  }

  /** The trail has places for terms only. */
  ghost predicate TrailOk(k: seq<Kind>, trail: seq<nat>) {
    forall x: nat :: x in trail ==> x < |k| && k[x] == Data
  }

  /** A run of bindings keeps the trail in order. */
  lemma RecordsTrailOk(h: seq<Cell>, h': seq<Cell>, k: seq<Kind>, trail: seq<nat>, trail': seq<nat>, limit: nat)
    requires TrailOk(k, trail) && trail <= trail' && Binds(h, h', k) && Records(h, h', trail'[|trail|..], limit) &&
             |h| == |k|
    ensures TrailOk(k, trail')
  {
    forall x: nat | x in trail' ensures x < |k| && k[x] == Data {
      assert trail' == trail + trail'[|trail|..];
      if x !in trail { assert x in trail'[|trail|..] && h'[x] != h[x]; }
    }
  }

  lemma {:induction false} ResetEnds(h: seq<Cell>, i: nat, c: Cell, n: nat)
    requires i < |h| && Ends(h, c, n)
    ensures Ends(h[i := Ref(i)], c, n)
    decreases n
  {
    if c.Ref? && c.index != i && h[c.index] != c {
      ResetEnds(h, i, h[c.index], n - 1);
    }
  }

  lemma ResetWellFormed(h: seq<Cell>, k: seq<Kind>, i: nat)
    requires WellFormed(h, k) && i < |k| && k[i] == Data
    ensures WellFormed(h[i := Ref(i)], k)
  {
    var h' := h[i := Ref(i)];
    forall j | 0 <= j < |h'| ensures CellOk(h', k, j) {
      assert CellOk(h, k, j);
    }
    var n: nat :| EndsWithin(h, k, n);
    forall c: Cell | IsTerm(k, c) ensures Ends(h', c, n) { ResetEnds(h, i, c, n); }
    assert EndsWithin(h', k, n);
  }

  /** Unbinding the variables of a trail keeps a heap well formed. */
  lemma {:induction false} UnwoundWellFormed(h: seq<Cell>, k: seq<Kind>, ts: seq<nat>)
    requires WellFormed(h, k) && TrailOk(k, ts)
    ensures WellFormed(Unwound(h, ts), k)
  {
    if ts == [] {
      assert Unwound(h, ts) == h;
    } else {
      var n := |ts| - 1;
      assert ts == ts[..n] + [ts[n]];
      assert ts[n] in ts && forall x: nat :: x in ts <==> x in ts[..n] || x == ts[n];
      UnwoundWellFormed(h, k, ts[..n]);
      ResetWellFormed(Unwound(h, ts[..n]), k, ts[n]);
      assert Unwound(h, ts) == Unwound(h, ts[..n])[ts[n] := Ref(ts[n])];
    }
  }

  /** What is allocated at once is in one block. */
  lemma {:induction false} OneBlock(size: nat, arity: nat)
    requires 2 + arity <= 8192
    ensures var at := AllocateAt(size, 2 + arity); at / 8192 == (at + 1) / 8192 == (at + 1 + arity) / 8192
  {
    AllocateExact(size, 2 + arity);
  }

  /** A structure with unbound arguments behind a heap, and what points at it. */
  lemma {:induction false} NewStrGrows(h: seq<Cell>, k: seq<Kind>, h': seq<Cell>, k': seq<Kind>, f: Functor)
    requires WellFormed(h, k) && h <= h' && k' == k + [Data, FunctorKind] + seq(f.arity, _ => Data)
    requires |h'| == |h| + 2 + f.arity && h'[|h|] == Str(|h| + 1) && h'[|h| + 1] == Con(f)
    requires forall m: nat :: |h| + 2 <= m < |h'| ==> h'[m] == Ref(m)
    ensures WellFormed(h', k') && IsTerm(k', Str(|h| + 1))
  {
    forall m | |h| <= m < |h'| ensures CellOk(h', k', m) && (k'[m] == Data && h'[m].Ref? ==> h'[m] == Ref(m)) { }
    GrowWellFormed(h, k, h', k');
  }

  class TermEnv {
    var heap: seq<Cell>
    var stack: seq<Cell>
    var trail: seq<nat>
    var tempTrail: seq<nat>
    var hb: nat
    ghost var kind: seq<Kind>

    ghost predicate Valid()
      reads this
    {
      WellFormed(heap, kind) && TrailOk(kind, trail) && tempTrail == []
    }

    constructor ()
      ensures Valid() && heap == [] && stack == [] && trail == [] && hb == 0
    {
      heap, stack, trail, tempTrail, hb, kind := [], [], [], [], 0, [];
      new;
      assert EndsWithin(heap, kind, 0);
    }

    // ----- stacks -----

    method Push(t: Cell)
      modifies this`stack
      ensures stack == old(stack) + [t]
    {
      stack := stack + [t];
    }

    method Pop() returns (t: Cell)
      requires stack != []
      modifies this`stack
      ensures old(stack) == stack + [t]
    {
      t := stack[|stack| - 1];
      stack := stack[..|stack| - 1];
    }

    /** Records a binding, unless the variable is younger than the latest choice point. */
    method Trail(index: nat)
      modifies this`trail
      ensures trail == if index < hb then old(trail) + [index] else old(trail)
    {
      if index < hb {
        trail := trail + [index];
      }
    }

    /** Drops the entries of `trail[from..to]` that are not older than the choice point,
        and all entries from `to`. */
    method TidyTrail(from: nat, to: nat)
      requires from <= to <= |trail|
      modifies this`trail
      ensures from <= |trail| <= to && trail[..from] == old(trail[..from])
      ensures KeepsBelow(old(trail[from..to]), trail[from..], hb) && AllBelow(trail[from..], hb)
    {
      var i: nat, end: nat := from, to;
      var t: seq<nat> := trail;
      while i < end
        invariant Tidying(old(trail), t, from, to, i, end, hb)
        decreases end - i
      {
        if t[i] < hb {
          TidyKeep(old(trail), t, from, to, i, end, hb);
          i := i + 1;
        } else {
          // Move an entry not visited yet to the place of the one that is dropped.
          TidyDrop(old(trail), t, from, to, i, end, hb);
          t := t[i := t[end - 1]];
          end := end - 1;
        }
      }
      TidyDone(old(trail), t, from, to, end, hb);
      trail := t[..end];
    }

    // ----- heap -----

    method Deref(c: Cell, ghost g: seq<Cell>) returns (r: Cell)
      requires WellFormed(g, kind) && IsTerm(kind, c)
      requires |heap| == |g| && forall i: nat :: i < |g| && kind[i] == Data ==> heap[i] == g[i]
      ensures r == Value(g, kind, c)
    {
      r := c;
      TermEnds(g, kind, c);
      ghost var n: nat :| Ends(g, c, n);
      while r.Ref?
        invariant IsTerm(kind, r) && Ends(g, r, n)
        invariant Value(g, kind, r) == Value(g, kind, c)
        decreases n
      {
        var referred := heap[r.index];
        DerefStep(g, kind, r);
        if referred == r {
          return;
        }
        r := referred;
        n := n - 1;
      }
      DerefStep(g, kind, r);
    }

    /** The `index`-th argument of a structure, dereferenced. */
    method GetArg(s: Cell, index: nat, ghost g: seq<Cell>) returns (r: Cell)
      requires WellFormed(g, kind) && s.Str? && IsTerm(kind, s)
      requires |heap| == |g| && forall i: nat :: i < |g| && kind[i] == Data ==> heap[i] == g[i]
      requires g[s.index].Con? && index < g[s.index].functor.arity
      ensures IsTerm(kind, Arg(g, s.index, index))
      ensures r == Value(g, kind, Arg(g, s.index, index))
    {
      ArgIsTerm(g, kind, s.index, index);
      r := Deref(heap[s.index + index + 1], g);
    }

    /** Follows FWD cells from a functor cell to the one that represents its class. */
    method Representative(i: nat, ghost s: State) returns (index: nat, dest: Cell)
      requires Shaped(s.bound, kind) && Overlay(s.bound, heap, kind, tempTrail) && IsTerm(kind, Str(i))
      requires s.heap == heap && s.fwds == tempTrail
      ensures IsTerm(kind, Str(index)) && index !in tempTrail
      ensures Linked(s, i, index) && dest == s.bound[index] && dest.Con?
    {
      index := i;
      dest := heap[index];
      ghost var lo := 0;
      LinkedRefl(kind, s, i);
      while dest.Fwd?
        invariant IsTerm(kind, Str(index)) && dest == heap[index]
        invariant Linked(s, i, index)
        invariant lo <= |tempTrail| && index !in tempTrail[..lo]
        decreases |tempTrail| - lo
      {
        assert CellOk(s.bound, kind, index);
        ghost var p := Position(tempTrail, index);
        assert FwdOk(s.bound, heap, kind, tempTrail, p);
        LinkedStep(kind, s, i, index);
        index := dest.index;
        dest := heap[index];
        lo := p + 1;
      }
      ForwardedIffFwd(s.bound, heap, kind, tempTrail, index);
    }

    method Bind(v: nat, t: Cell)
      requires v < |heap|
      modifies this`heap, this`trail
      ensures heap == old(heap)[v := t]
      ensures trail == if v < hb then old(trail) + [v] else old(trail)
    {
      heap := heap[v := t];
      Trail(v);
    }

    /** Makes the variables in `trail[from..to]` unbound again. */
    method UnwindTrail(from: nat, to: nat)
      requires from <= to <= |trail| && forall p: nat :: from <= p < to ==> trail[p] < |heap|
      modifies this`heap
      ensures heap == Unwound(old(heap), trail[from..to])
    {
      var p := from;
      while p < to
        invariant from <= p <= to && heap == Unwound(old(heap), trail[from..p])
      {
        assert trail[from..p + 1] == trail[from..p] + [trail[p]];
        heap := heap[trail[p] := Ref(trail[p])];
        p := p + 1;
      }
    }

    // ----- unification -----

    /** Puts the functors back, last overwritten first. */
    method RestoreCellsAfterUnify(ghost g: seq<Cell>)
      requires Overlay(g, heap, kind, tempTrail)
      modifies this`heap, this`tempTrail
      ensures heap == g && tempTrail == []
    {
      while |tempTrail| > 0
        invariant Overlay(g, heap, kind, tempTrail)
        decreases |tempTrail|
      {
        RestoreOne(g, heap, kind, tempTrail);
        var index := tempTrail[|tempTrail| - 1];
        tempTrail := tempTrail[..|tempTrail| - 1];
        var fwd := heap[index];
        heap := heap[index := heap[fwd.index]];
      }
      assert heap == g;
    }

    /** A unification of `a` and `b` on the heap `h0` is in progress, above `below` on the
        stack and above `trail0` on the trail; every binding is recorded. */
    ghost predicate Unifying(h0: seq<Cell>, a: Cell, b: Cell, below: seq<Cell>, trail0: seq<nat>, s: State)
      reads this
    {
      && Inv(h0, kind, a, b, s)
      && heap == s.heap && tempTrail == s.fwds && hb == |h0|
      && below <= stack && Encodes(stack, |below|, s.todo)
      && trail0 <= trail && Records(h0, s.bound, trail[|trail0|..], |h0|)
    }

    /** Pops the next pair of terms and dereferences both. */
    method PopPair(ghost below: seq<Cell>, ghost s: State) returns (a: Cell, b: Cell)
      requires WellFormed(s.bound, kind) && Overlay(s.bound, heap, kind, tempTrail) && TodoOk(kind, s.todo)
      requires below <= stack && Encodes(stack, |below|, s.todo) && |stack| > |below|
      modifies this`stack
      ensures s.todo != [] && (a, b) == Next(kind, s)
      ensures below <= stack && Encodes(stack, |below|, Rest(s).todo) && |stack| < |old(stack)|
    {
      var n := |s.todo| - 1;
      assert s.todo[n] in s.todo;
      OverlayData(s.bound, heap, kind, tempTrail);
      a := Pop();
      assert a == s.todo[n].0;
      a := Deref(a, s.bound);
      b := Pop();
      assert b == s.todo[n].1;
      b := Deref(b, s.bound);
    }

    /** Binds the variable `v` of the pair just popped to the other term. */
    method BindVariable(v: nat, t: Cell, ghost h0: seq<Cell>, ghost a0: Cell, ghost b0: Cell,
                        ghost below: seq<Cell>, ghost trail0: seq<nat>, ghost s: State)
      returns (ghost s': State)
      requires Inv(h0, kind, a0, b0, s) && s.todo != [] && heap == s.heap && tempTrail == s.fwds && hb == |h0|
      requires below <= stack && Encodes(stack, |below|, Rest(s).todo)
      requires trail0 <= trail && Records(h0, s.bound, trail[|trail0|..], |h0|)
      requires Next(kind, s) == (Ref(v), t) || Next(kind, s) == (t, Ref(v))
      requires t != Ref(v) && (t.Ref? ==> t.index < v)
      modifies this`heap, this`trail
      ensures Unifying(h0, a0, b0, below, trail0, s')
      ensures Measure(kind, s') < Measure(kind, s)
    {
      ghost var bs := trail[|trail0|..];
      BindStep(h0, kind, a0, b0, s, v, t);
      BindShrinks(s.bound, v, t);
      RecordsBind(h0, s.bound, kind, bs, v, t);
      s' := Bound(s, v, t);
      Bind(v, t);
      assert trail[|trail0|..] == bs + [v];
    }

    method BigEqual(a: Cell, b: Cell, ghost g: seq<Cell>) returns (equal: bool)
      requires Shaped(g, kind) && Overlay(g, heap, kind, tempTrail)
      requires IsTerm(kind, a) && IsTerm(kind, b) && a.Big? && b.Big?
      ensures equal <==> BigData(g, a.index) == BigData(g, b.index)
      ensures equal <==> SameNumber(heap, a.index, heap, b.index)
    {
      OverlayBigData(g, heap, kind, tempTrail, a.index);
      OverlayBigData(g, heap, kind, tempTrail, b.index);
      BigDataSame(heap, a.index, heap, b.index);
      var i, j := a.index, b.index;
      if heap[i].bits != heap[j].bits {
        return false;
      }
      var n := NumCells(heap[i].bits);
      equal := heap[i..i + n] == heap[j..j + n];
    }

    /** Unifies two structures: nothing to do if they are in the same class; a clash if
        their functors differ; otherwise forwards one class to the other and pushes the
        arguments pairwise. */
    method UnifyStructures(a: Cell, b: Cell, ghost h0: seq<Cell>, ghost a0: Cell, ghost b0: Cell,
                           ghost below: seq<Cell>, ghost trail0: seq<nat>, ghost s: State)
      returns (ok: bool, ghost s': State)
      requires Inv(h0, kind, a0, b0, s) && s.todo != [] && heap == s.heap && tempTrail == s.fwds && hb == |h0|
      requires below <= stack && Encodes(stack, |below|, Rest(s).todo)
      requires trail0 <= trail && Records(h0, s.bound, trail[|trail0|..], |h0|)
      requires Next(kind, s) == (a, b) && a.Str? && b.Str?
      modifies this`heap, this`stack, this`tempTrail
      ensures ok ==> Unifying(h0, a0, b0, below, trail0, s')
      ensures ok ==>
              Measure(kind, s') < Measure(kind, s) || (Measure(kind, s') == Measure(kind, s) && stack == old(stack))
      ensures !ok ==> !Unifiable(h0, kind, a0, b0)
      ensures !ok ==> s' == s && heap == old(heap) && tempTrail == old(tempTrail) && stack == old(stack)
    {
      var aindex, adest := Representative(a.index, s);
      var bindex, bdest := Representative(b.index, s);
      if aindex == bindex {
        SameClassStep(h0, kind, a0, b0, s, a.index, b.index, aindex);
        return true, Rest(s);
      }
      if adest != bdest {
        FunctorClashStep(h0, kind, a0, b0, s, a.index, b.index, aindex, bindex);
        return false, s;
      }
      s' := Forward(a, b, aindex, bindex, h0, a0, b0, below, trail0, s);
      ok := true;
    }

    /** Makes the class of the functor cell `aindex` part of the class of `bindex`. */
    method Forward(a: Cell, b: Cell, aindex: nat, bindex: nat, ghost h0: seq<Cell>, ghost a0: Cell, ghost b0: Cell,
                   ghost below: seq<Cell>, ghost trail0: seq<nat>, ghost s: State)
      returns (ghost s': State)
      requires Inv(h0, kind, a0, b0, s) && s.todo != [] && heap == s.heap && tempTrail == s.fwds && hb == |h0|
      requires below <= stack && Encodes(stack, |below|, Rest(s).todo)
      requires trail0 <= trail && Records(h0, s.bound, trail[|trail0|..], |h0|)
      requires a.Str? && b.Str? && Joinable(kind, s, a.index, b.index, aindex, bindex)
      requires aindex != bindex && s.bound[aindex] == s.bound[bindex]
      modifies this`heap, this`stack, this`tempTrail
      ensures Unifying(h0, a0, b0, below, trail0, s')
      ensures Measure(kind, s') < Measure(kind, s)
    {
      ForwardStep(h0, kind, a0, b0, s, a.index, b.index, aindex, bindex);
      ForwardShrinks(kind, tempTrail, aindex);
      s' := Forwarded(kind, s, a.index, b.index, aindex, bindex);
      // The functor is written again when unification is over, from the cell it leads to.
      var arity := heap[aindex].functor.arity;
      tempTrail := tempTrail + [aindex];
      heap := heap[aindex := Fwd(bindex)];
      PushArgs(a, b, arity, below, s', Rest(s).todo);
    }

    /** Pushes the arguments of two structures pairwise, so that the first pair is on top. */
    method PushArgs(a: Cell, b: Cell, arity: nat, ghost below: seq<Cell>, ghost s: State, ghost todo: seq<(Cell, Cell)>)
      requires WellFormed(s.bound, kind) && Overlay(s.bound, heap, kind, tempTrail)
      requires a.Str? && b.Str? && IsTerm(kind, a) && IsTerm(kind, b)
      requires s.bound[a.index] == s.bound[b.index]
      requires s.bound[a.index].Con? && s.bound[a.index].functor.arity == arity
      requires below <= stack && Encodes(stack, |below|, todo)
      modifies this`stack
      ensures below <= stack && Encodes(stack, |below|, todo + ArgPairs(kind, s.bound, a.index, b.index))
    {
      ghost var ps := ArgPairs(kind, s.bound, a.index, b.index);
      OverlayData(s.bound, heap, kind, tempTrail);
      var i := 0;
      ghost var done := todo;
      while i < arity
        invariant i <= arity && done == todo + ps[..i]
        invariant below <= stack && Encodes(stack, |below|, done)
      {
        var ai := GetArg(a, arity - i - 1, s.bound);
        var bi := GetArg(b, arity - i - 1, s.bound);
        ArgPairAt(kind, s.bound, a.index, b.index, i);
        EncodesPush(below, stack, done, ai, bi);
        Push(bi);
        Push(ai);
        done := done + [(ai, bi)];
        i := i + 1;
      }
      assert ps[..arity] == ps;
    }

    /** One turn of the loop of `UnifyHelper`: unifies the pair on top of the stack. */
    method UnifyNext(ghost h0: seq<Cell>, ghost a0: Cell, ghost b0: Cell,
                     ghost below: seq<Cell>, ghost trail0: seq<nat>, ghost s: State)
      returns (ok: bool, ghost s': State)
      requires Unifying(h0, a0, b0, below, trail0, s) && |stack| > |below|
      modifies this`heap, this`stack, this`trail, this`tempTrail
      ensures ok ==> Unifying(h0, a0, b0, below, trail0, s')
      ensures ok ==> Measure(kind, s') < Measure(kind, s)
                     || (Measure(kind, s') == Measure(kind, s) && |stack| < |old(stack)|)
      ensures !ok ==> !Unifiable(h0, kind, a0, b0)
      ensures !ok ==>
              s' == s && heap == old(heap) && tempTrail == old(tempTrail) && trail == old(trail) && below <= stack
    {
      var a, b := PopPair(below, s);
      ok, s' := true, Rest(s);
      if a == b {
        DropStep(h0, kind, a0, b0, s);
      } else if a.Ref? && (!b.Ref? || b.index < a.index) {
        // Higher addresses are bound to lower ones when there is a choice.
        s' := BindVariable(a.index, b, h0, a0, b0, below, trail0, s);
      } else if b.Ref? {
        s' := BindVariable(b.index, a, h0, a0, b0, below, trail0, s);
      } else if !SameTag(a, b) || a.Con? || a.Int? {
        // Different tags, or different constants.
        ClashStep(h0, kind, a0, b0, s);
        ok, s' := false, s;
      } else if a.Str? {
        ok, s' := UnifyStructures(a, b, h0, a0, b0, below, trail0, s);
      } else {
        ok := BigEqual(a, b, s.bound);
        if ok {
          DropStep(h0, kind, a0, b0, s);
        } else {
          ClashStep(h0, kind, a0, b0, s);
          s' := s;
        }
      }
    }

    method UnifyHelper(a0: Cell, b0: Cell) returns (ok: bool)
      requires Valid() && hb == |heap| && IsTerm(kind, a0) && IsTerm(kind, b0)
      modifies this`heap, this`stack, this`trail, this`tempTrail
      ensures Valid() && Binds(old(heap), heap, kind)
      ensures old(stack) <= stack && (ok ==> stack == old(stack))
      ensures old(trail) <= trail && Records(old(heap), heap, trail[|old(trail)|..], |heap|)
      ensures ok ==> SameTree(heap, kind, a0, b0)
      ensures ok ==> forall r: Rel :: Congruence(old(heap), kind, r) && (a0, b0) in r ==> Congruence(heap, kind, r)
      ensures !ok ==> !Unifiable(old(heap), kind, a0, b0)
    {
      ghost var h0, below, trail0 := heap, stack, trail;
      var d := |stack|;
      Push(b0);
      Push(a0);
      ghost var s := State(heap, heap, [], [(a0, b0)]);
      Start(h0, kind, a0, b0);
      while |stack| > d
        invariant d == |below| && Unifying(h0, a0, b0, below, trail0, s)
        decreases Measure(kind, s), |stack|
      {
        ok, s := UnifyNext(h0, a0, b0, below, trail0, s);
        if !ok {
          RestoreCellsAfterUnify(s.bound);
          RecordsTrailOk(h0, heap, kind, trail0, trail, |h0|);
          return;
        }
      }
      Done(h0, kind, a0, b0, s);
      RestoreCellsAfterUnify(s.bound);
      RecordsTrailOk(h0, heap, kind, trail0, trail, |h0|);
      ok := true;
    }

    ghost function Snap(): Snapshot
      reads this
    {
      Snapshot(heap, kind, trail, hb)
    }

    /** Unifies `a` and `b`.  It succeeds exactly when their equation has a solution over rational
        trees; then the bindings made are a most general unifier and the trail has those older
        than the choice point.  On failure the environment is as it was. */
    method Unify(a: Cell, b: Cell) returns (ok: bool)
      requires Valid() && IsTerm(kind, a) && IsTerm(kind, b)
      modifies this`heap, this`stack, this`trail, this`tempTrail, this`hb
      ensures Valid() && stack == old(stack) && hb == old(hb)
      ensures ok <==> Unifiable(old(heap), kind, a, b)
      ensures ok ==> Unifier(old(heap), heap, kind, a, b)
      ensures ok ==> old(trail) <= trail && Records(old(heap), heap, trail[|old(trail)|..], hb)
      ensures !ok ==> heap == old(heap) && trail == old(trail)
      ensures a.Big? && b.Big? ==> (ok <==> SameNumber(old(heap), a.index, old(heap), b.index))
      ensures Step(old(Snap()), Snap())
    {
      var startTrail, startStack, oldHb := |trail|, |stack|, hb;
      ghost var h0 := heap;
      if a.Big? && b.Big? { NumbersUnifiable(heap, kind, a.index, b.index); }
      // Record every binding, so that all can be undone if the unification fails.
      hb := |heap|;
      ok := UnifyHelper(a, b);
      ghost var bs := trail[startTrail..];
      if !ok {
        UndoUnify(startTrail, startStack, h0);
        assert trail == old(trail) && stack == old(stack) && heap == old(heap);
        hb := oldHb;
        return;
      }
      hb := oldHb;
      assert trail[startTrail..|trail|] == bs;
      TidyTrail(startTrail, |trail|);
      TidiedRecords(h0, heap, bs, trail[startTrail..], hb);
      assert old(trail) == trail[..startTrail];
      RecordsTrailOk(h0, heap, kind, old(trail), trail, hb);
      UnifierWitnessesSolution(h0, heap, kind, a, b);
    }

    /** Takes back what a unification that failed has bound since the heap was `h0`. */
    method UndoUnify(startTrail: nat, startStack: nat, ghost h0: seq<Cell>)
      requires Valid() && WellFormed(h0, kind) && startTrail <= |trail| && startStack <= |stack|
      requires Binds(h0, heap, kind) && Records(h0, heap, trail[startTrail..], |h0|)
      modifies this`heap, this`trail, this`stack
      ensures heap == h0 && trail == old(trail)[..startTrail] && stack == old(stack)[..startStack]
    {
      ghost var bs, bound := trail[startTrail..], heap;
      RecordsInRange(h0, heap, trail, startTrail);
      UnwindTrail(startTrail, |trail|);
      assert trail[startTrail..|trail|] == bs;
      UnwoundRestores(h0, bound, kind, bs);
      trail := trail[..startTrail];
      stack := stack[..startStack];
    }

    // ----- allocation -----

    /** Skips the rest of the last block if `n` cells do not fit there. */
    method EnsureAllocate(n: nat)
      requires Valid()
      modifies this`heap, this`kind
      ensures Valid() && old(heap) <= heap && old(kind) <= kind && |heap| == AllocateAt(|old(heap)|, n)
    {
      var at := AllocateAt(|heap|, n);
      ghost var h, k := heap, kind;
      kind := kind + seq(at - |heap|, _ => Payload);
      heap := heap + seq(at - |heap|, _ => Int(0));
      assert forall i :: |h| <= i < |heap| ==> CellOk(heap, kind, i);
      GrowWellFormed(h, k, heap, kind);
    }

    /** A new unbound variable. */
    method NewRef() returns (t: Cell)
      requires Valid()
      modifies this`heap, this`kind
      ensures Valid() && Step(old(Snap()), Snap()) && old(heap) <= heap && old(kind) <= kind
      ensures t.Ref? && |old(heap)| <= t.index < |heap| && heap[t.index] == t && IsTerm(kind, t)
    {
      EnsureAllocate(1);
      ghost var h, k := heap, kind;
      t := Ref(|heap|);
      kind := kind + [Data];
      heap := heap + [t];
      GrowWellFormed(h, k, heap, kind);
    }

    /** A new structure whose arguments are new unbound variables. */
    method NewStr(f: Functor) returns (t: Cell)
      requires Valid() && 2 + f.arity <= BLOCK_SIZE
      modifies this`heap, this`kind
      ensures Valid() && Step(old(Snap()), Snap()) && old(heap) <= heap && old(kind) <= kind
      ensures t.Str? && |old(heap)| < t.index && IsTerm(kind, t) && heap[t.index] == Con(f)
      ensures forall m: nat :: m < f.arity ==> Arg(heap, t.index, m) == Ref(t.index + m + 1)
      ensures heap[t.index - 1] == t && (t.index - 1) / 8192 == t.index / 8192 == (t.index + f.arity) / 8192
    {
      OneBlock(|heap|, f.arity);
      EnsureAllocate(2 + f.arity);
      ghost var h, k := heap, kind;
      var index := |heap|;
      t := Str(index + 1);
      heap := heap + [t, Con(f)];
      var i := 0;
      while i < f.arity
        invariant kind == k && i <= f.arity && |heap| == index + 2 + i && h + [t, Con(f)] <= heap
        invariant forall m: nat :: index + 2 <= m < |heap| ==> heap[m] == Ref(m)
      {
        heap := heap + [Ref(index + i + 2)];
        i := i + 1;
      }
      assert heap[index] == t && heap[index + 1] == Con(f);
      kind := kind + [Data, FunctorKind] + seq(f.arity, _ => Data);
      NewStrGrows(h, k, heap, kind, f);
    }

    // ----- choice points -----

    method SaveState() returns (context: StateContext)
      ensures context == StateContext(|trail|, |stack|, hb)
    {
      context := StateContext(|trail|, |stack|, hb);
    }

    method RestoreState(context: StateContext)
      requires Valid() && context.trail <= |trail| && context.stack <= |stack|
      modifies this`heap, this`trail, this`stack, this`hb
      ensures Valid() && heap == Unwound(old(heap), old(trail)[context.trail..])
      ensures trail == old(trail)[..context.trail] && stack == old(stack)[..context.stack] && hb == context.hb
    {
      assert forall p: nat :: context.trail <= p < |trail| ==> trail[p] in trail;
      assert forall x: nat :: x in trail[context.trail..] ==> x in trail;
      UnwoundWellFormed(heap, kind, trail[context.trail..]);
      UnwindTrail(context.trail, |trail|);
      assert trail[context.trail..|trail|] == trail[context.trail..];
      trail := trail[..context.trail];
      stack := stack[..context.stack];
      hb := context.hb;
    }
  }

  // ----- most general bindings -----

  /** What a successful unification of `a` and `b` does to the heap `h`: it binds variables so
      that `a` and `b` denote the same tree, and every solution keeps being one. */
  ghost predicate Unifier(h: seq<Cell>, h': seq<Cell>, k: seq<Kind>, a: Cell, b: Cell) {
    && WellFormed(h, k) && WellFormed(h', k) && Binds(h, h', k)
    && IsTerm(k, a) && IsTerm(k, b) && SameTree(h', k, a, b)
    && forall r: Rel :: Congruence(h, k, r) && (a, b) in r ==> Congruence(h', k, r)
  }

  /** A unifier is most general: whatever other bindings, to old or to new terms, make `a` and
      `b` the same tree, they make each variable the same tree as what the unifier binds it to. */
  lemma UnifierIsMostGeneral(h: seq<Cell>, h1: seq<Cell>, k: seq<Kind>, a: Cell, b: Cell,
                             h2: seq<Cell>, k2: seq<Kind>, i: nat)
    requires Unifier(h, h1, k, a, b)
    requires WellFormed(h2, k2) && Instance(h, k, h2, k2) && SameTree(h2, k2, a, b)
    requires i < |h| && k[i] == Data
    ensures IsTerm(k2, Ref(i)) && IsTerm(k2, h1[i]) && SameTree(h2, k2, Ref(i), h1[i])
  {
    var r := TreeRel(h2, k2);
    InstanceSolves(h, k, h2, k2);
    assert (a, b) in r;
    assert (Ref(i), h1[i]) in r;
    assert CellOk(h1, k, i);
  }

  /** Two terms can be made the same tree by binding variables exactly when their equation has
      a solution; a unifier is such a binding. */
  lemma UnifierWitnessesSolution(h: seq<Cell>, h': seq<Cell>, k: seq<Kind>, a: Cell, b: Cell)
    requires Unifier(h, h', k, a, b)
    ensures Unifiable(h, k, a, b)
  {
    InstanceSolves(h, k, h', k);
    assert (a, b) in TreeRel(h', k);
  }

  /** No bindings make the terms of an equation without solution the same tree. */
  lemma NotUnifiableNoInstance(h: seq<Cell>, k: seq<Kind>, a: Cell, b: Cell, h2: seq<Cell>, k2: seq<Kind>)
    requires WellFormed(h, k) && IsTerm(k, a) && IsTerm(k, b) && !Unifiable(h, k, a, b)
    requires WellFormed(h2, k2) && Instance(h, k, h2, k2)
    ensures IsTerm(k2, a) && IsTerm(k2, b) && !SameTree(h2, k2, a, b)
  {
    InstanceSolves(h, k, h2, k2);
    assert (a, b) in TreeRel(h2, k2) ==> Unifiable(h, k, a, b);
  }

  // ----- backtracking -----

  /** What backtracking restores, and what it needs for that. */
  datatype Snapshot = Snapshot(heap: seq<Cell>, kind: seq<Kind>, trail: seq<nat>, hb: nat)

  /** A unification, failed or not, or an allocation, under an unchanged choice point. */
  ghost predicate Step(s: Snapshot, s': Snapshot) {
    && s'.hb == s.hb
    && (|| s' == s
        || (&& s'.kind == s.kind && Binds(s.heap, s'.heap, s.kind) && s.trail <= s'.trail
            && Records(s.heap, s'.heap, s'.trail[|s.trail|..], s.hb))
        || (s.heap <= s'.heap && s.kind <= s'.kind && s'.trail == s.trail))
  }

  ghost predicate Run(ss: seq<Snapshot>) {
    ss != [] && forall p: nat :: p + 1 < |ss| ==> Step(ss[p], ss[p + 1])
  }

  /** Since `s`, exactly variables that were unbound in `s` were bound below the choice point,
      and the trail knows them all. */
  ghost predicate Trailed(s: Snapshot, s': Snapshot) {
    && s'.hb == s.hb && s.trail <= s'.trail && |s.heap| <= |s'.heap|
    && (forall i: nat {:trigger s'.heap[i]} {:trigger s.heap[i]} ::
          i < s.hb && i < |s.heap| && s'.heap[i] != s.heap[i] ==> i in s'.trail[|s.trail|..])
    && (forall i: nat :: i in s'.trail[|s.trail|..] ==>
      i < |s'.heap| && i < s.hb && (i < |s.heap| ==> s.heap[i] == Ref(i)))
  }

  lemma TrailedStep(s: Snapshot, s': Snapshot, s'': Snapshot)
    requires Trailed(s, s') && Step(s', s'')
    ensures Trailed(s, s'')
  {
    var n := |s.trail|;
    if s''.kind == s'.kind && Binds(s'.heap, s''.heap, s'.kind) && s'.trail <= s''.trail
       && Records(s'.heap, s''.heap, s''.trail[|s'.trail|..], s'.hb) {
      assert s''.trail[n..] == s'.trail[n..] + s''.trail[|s'.trail|..];
      forall i: nat | i in s''.trail[n..] ensures i < |s''.heap| && i < s.hb && (i < |s.heap| ==> s.heap[i] == Ref(i)) {
        if i !in s'.trail[n..] {
          assert s''.heap[i] != s'.heap[i];
        }
      }
    }
  }

  /** Over every run of unifications and allocations under one choice point, undoing the trail
      back to where it was gives every cell older than the choice point its value back. */
  lemma {:induction false} BacktrackingRestores(ss: seq<Snapshot>)
    requires Run(ss)
    ensures var s, s' := ss[0], ss[|ss| - 1];
            && s'.hb == s.hb && s.trail <= s'.trail && |s.heap| <= |s'.heap|
            && Trailed(s, s')
            && forall i: nat :: i < s.hb && i < |s.heap| ==> Unwound(s'.heap, s'.trail[|s.trail|..])[i] == s.heap[i]
  {
    var p := 0;
    while p + 1 < |ss|
      invariant p < |ss| && Trailed(ss[0], ss[p])
    {
      TrailedStep(ss[0], ss[p], ss[p + 1]);
      p := p + 1;
    }
  }

  // ----- lemmas about the trail -----

  lemma {:induction false} NoRepeatsCount(s: seq<nat>, x: nat)
    requires NoRepeats(s)
    ensures Count(s, x) <= 1
  {
    if s != [] {
      var n := |s| - 1;
      NoRepeatsCount(s[..n], x);
      CountIn(s[..n], x);
    }
  }

  lemma TidiedRecords(h: seq<Cell>, h': seq<Cell>, all: seq<nat>, s: seq<nat>, hb: nat)
    requires Records(h, h', all, |h|) && KeepsBelow(all, s, hb) && AllBelow(s, hb)
    ensures Records(h, h', s, hb)
  {
    forall x: nat ensures x in s <==> x in all && x < hb {
      CountIn(all, x);
      CountIn(s, x);
      if x < hb { assert Count(s, x) == Count(all, x); }
    }
    forall p: nat, q: nat | p < q < |s| ensures s[p] != s[q] {
      if s[p] == s[q] {
        assert s[p] in s && Count(s, s[p]) == Count(all, s[p]);
        NoRepeatsCount(all, s[p]);
        CountTwice(s, p, q);
      }
    }
  }

  lemma {:induction false} CountTwice(s: seq<nat>, p: nat, q: nat)
    requires p < q < |s| && s[p] == s[q]
    ensures Count(s, s[p]) >= 2
  {
    var x := s[p];
    assert s == s[..q] + [s[q]] + s[q + 1..];
    CountConcat(s[..q] + [s[q]], s[q + 1..], x);
    CountConcat(s[..q], [s[q]], x);
    assert s[..q][p] == x;
    CountIn(s[..q], x);
    CountIn([s[q]], x);
  }

  lemma RecordsInRange(h: seq<Cell>, h': seq<Cell>, trail: seq<nat>, from: nat)
    requires from <= |trail| && Records(h, h', trail[from..], |h|)
    ensures forall p: nat :: from <= p < |trail| ==> trail[p] < |h|
  {
    forall p: nat | from <= p < |trail| ensures trail[p] < |h| {
      assert trail[p] == trail[from..][p - from];
      assert trail[p] in trail[from..];
    }
  }

  lemma UnwoundRestores(h: seq<Cell>, h': seq<Cell>, k: seq<Kind>, bs: seq<nat>)
    requires Binds(h, h', k) && Records(h, h', bs, |h|)
    ensures Unwound(h', bs) == h
  {
    assert forall i: nat :: i < |h| && h'[i] != h[i] ==> h[i] == Ref(i);
  }

  /** The functor cell forwarded last leads to a functor cell that is not forwarded now. */
  lemma RestoreOne(g: seq<Cell>, h: seq<Cell>, k: seq<Kind>, fwds: seq<nat>)
    requires Overlay(g, h, k, fwds) && fwds != []
    ensures var i := fwds[|fwds| - 1];
            && i < |h| && h[i].Fwd? && h[i].index < |h|
            && Overlay(g, h[i := h[h[i].index]], k, fwds[..|fwds| - 1])
  {
    var n := |fwds| - 1;
    var i := fwds[n];
    assert FwdOk(g, h, k, fwds, n);
    assert fwds[..n + 1] == fwds && fwds == fwds[..n] + [i];
    var h', f' := h[i := h[h[i].index]], fwds[..n];
    assert h[h[i].index] == g[i];
    forall p: nat | p < n ensures FwdOk(g, h', k, f', p) {
      assert FwdOk(g, h, k, fwds, p);
      assert f'[..p + 1] == fwds[..p + 1] && f'[..p] == fwds[..p];
      assert fwds[p] in f' && i !in f';
    }
  }

  predicate SameTag(a: Cell, b: Cell) {
    || (a.Ref? && b.Ref?) || (a.Int? && b.Int?) || (a.Big? && b.Big?) || (a.Con? && b.Con?)
    || (a.Str? && b.Str?) || (a.Dat? && b.Dat?) || (a.Fwd? && b.Fwd?)
  }

  lemma Start(h: seq<Cell>, k: seq<Kind>, a: Cell, b: Cell)
    requires WellFormed(h, k) && IsTerm(k, a) && IsTerm(k, b)
    ensures Inv(h, k, a, b, State(h, h, [], [(a, b)]))
  {
    var s := State(h, h, [], [(a, b)]);
    forall q: Rel | Covers(k, s, q) ensures (a, b) in q {
      assert s.todo[0] in s.todo;
    }
  }

  lemma OverlayData(g: seq<Cell>, h: seq<Cell>, k: seq<Kind>, fwds: seq<nat>)
    requires Overlay(g, h, k, fwds)
    ensures forall i: nat :: i < |g| && k[i] != FunctorKind ==> h[i] == g[i]
  {
    forall i: nat | i < |g| && k[i] != FunctorKind ensures h[i] == g[i] {
      DataNotForwarded(k, State(g, h, fwds, []), i);
    }
  }

  lemma OverlayBigData(g: seq<Cell>, h: seq<Cell>, k: seq<Kind>, fwds: seq<nat>, i: nat)
    requires Shaped(g, k) && Overlay(g, h, k, fwds) && IsTerm(k, Big(i))
    ensures h[i].Dat? && h[i] == g[i] && i + NumCells(h[i].bits) <= |h|
    ensures BigData(g, i) == h[i..i + NumCells(h[i].bits)] == BigData(h, i) != []
  {
    assert CellOk(g, k, i);
    OverlayData(g, h, k, fwds);
    NumCellsLeast(h[i].bits, 1);
    assert forall j :: i <= j < i + NumCells(h[i].bits) ==> h[j] == g[j];
  }

  lemma RecordsBind(h0: seq<Cell>, g: seq<Cell>, k: seq<Kind>, bs: seq<nat>, v: nat, t: Cell)
    requires Binds(h0, g, k) && Records(h0, g, bs, |h0|)
    requires v < |g| && g[v] == Ref(v) && t != Ref(v)
    ensures Records(h0, g[v := t], bs + [v], |h0|)
  {
    assert v !in bs by { assert h0[v] == g[v]; }
  }

  lemma EncodesPush(below: seq<Cell>, stack: seq<Cell>, todo: seq<(Cell, Cell)>, a: Cell, b: Cell)
    requires below <= stack && Encodes(stack, |below|, todo)
    ensures below <= stack + [b] + [a] && Encodes(stack + [b] + [a], |below|, todo + [(a, b)])
  {
  }
}
