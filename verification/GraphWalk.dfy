/** A depth-first walk over a graph that may have cycles, with an explicit stack: what the stack and
    the list of results look like at any time. */
module GraphWalk {

  /** Arguments of the nodes, and where the walk starts. */
  datatype Graph<!T> = Graph(kids: T -> seq<T>, root: T)

  /** The nodes being visited, each an argument of the one around it, and for each which argument
      is next. */
  datatype Trail<T> = Top(k: nat) | In(outer: Trail<T>, node: T, k: nat)

  /** What is to be done for the innermost node. */
  function Todo<T>(g: Graph<T>, c: Trail<T>): seq<T> {
    if c.Top? then [g.root] else g.kids(c.node)
  }

  /** `a` is the next argument of the innermost node. */
  ghost predicate Next<T>(g: Graph<T>, c: Trail<T>, a: T) {
    c.k < |Todo(g, c)| && Todo(g, c)[c.k] == a
  }

  /** `d` is being visited. */
  ghost predicate Open<T>(c: Trail<T>, d: T) {
    c.In? && (c.node == d || Open(c.outer, d))
  }

  ghost predicate Nested<T>(g: Graph<T>, c: Trail<T>) {
    && c.k <= |Todo(g, c)|
    && (c.In? ==> Nested(g, c.outer) && Next(g, c.outer, c.node) && !Open(c.outer, c.node))
  }

  type Frames<T> = seq<(T, bool)>

  /** The arguments from the `from`-th on, the first on top. */
  function Pending<T>(a: seq<T>, from: nat): (f: Frames<T>)
    requires from <= |a|
    ensures |f| == |a| - from
  {
    seq(|a| - from, j requires 0 <= j < |a| - from => (a[|a| - 1 - j], false))
  }

  /** The stack below the innermost node, if that is the next argument of `c`: the argument itself
      is not on it. */
  ghost function Below<T>(g: Graph<T>, c: Trail<T>): Frames<T>
    requires Nested(g, c) && c.k < |Todo(g, c)|
  {
    match c
    case Top(k) => Pending([g.root], k + 1)
    case In(o, d, k) => Below(g, o) + [(d, true)] + Pending(g.kids(d), k + 1)
  }

  /** The stack: each node, to be come back to, and above it its arguments. */
  ghost function Flatten<T>(g: Graph<T>, c: Trail<T>): Frames<T>
    requires Nested(g, c)
  {
    match c
    case Top(k) => Pending([g.root], k)
    case In(o, d, k) => Below(g, o) + [(d, true)] + Pending(g.kids(d), k)
  }

  /** The last `k` results are those of the first `k` of `a`. */
  ghost predicate Segment<T>(res: (T, (T, bool)) -> bool, a: seq<T>, k: nat, temp: Frames<T>) {
    k <= |temp| && k <= |a| && forall i: nat :: i < k ==> res(a[i], temp[|temp| - k + i])
  }

  /** The results of the arguments done, node by node; `res` relates argument and result. */
  ghost predicate Matches<T>(g: Graph<T>, res: (T, (T, bool)) -> bool, c: Trail<T>, temp: Frames<T>) {
    && Segment(res, Todo(g, c), c.k, temp)
    && (if c.Top? then |temp| == c.k else Matches(g, res, c.outer, temp[..|temp| - c.k]))
  }

  // ----- steps -----

  lemma PendingTop<T>(a: seq<T>, from: nat)
    requires from < |a|
    ensures Pending(a, from) == Pending(a, from + 1) + [(a[from], false)]
  {
  }

  /** The stack without its top. */
  ghost predicate Popped<T>(g: Graph<T>, c: Trail<T>, stack: Frames<T>) {
    Nested(g, c) && if c.k < |Todo(g, c)| then stack == Below(g, c) else c.In? && stack == Below(g, c.outer)
  }

  /** What is on top: the next argument of the innermost node, or that node if there is none. */
  lemma {:induction false} TopOf<T>(g: Graph<T>, c: Trail<T>)
    requires Nested(g, c)
    ensures var f := Flatten(g, c);
            if c.k < |Todo(g, c)| then f == Below(g, c) + [(Todo(g, c)[c.k], false)]
            else if c.In? then f == Below(g, c.outer) + [(c.node, true)]
            else f == []
  {
    if c.k < |Todo(g, c)| {
      PendingTop(Todo(g, c), c.k);
    } else {
      assert Pending(Todo(g, c), c.k) == [];
    }
  }

  lemma {:induction false} PopOf<T>(g: Graph<T>, c: Trail<T>, stack: Frames<T>)
    requires Nested(g, c) && stack == Flatten(g, c) && stack != []
    ensures Popped(g, c, stack[..|stack| - 1])
    ensures var (d, processed) := stack[|stack| - 1];
            if processed then c.In? && c.node == d && c.k == |Todo(g, c)| else Next(g, c, d)
  {
    TopOf(g, c);
    var n := |stack| - 1;
    if c.k < |Todo(g, c)| {
      assert stack[..n] == Below(g, c);
    } else {
      assert stack[..n] == Below(g, c.outer);
    }
  }

  function Advanced<T>(c: Trail<T>): Trail<T> {
    c.(k := c.k + 1)
  }

  lemma {:induction false} AdvancedOpen<T>(c: Trail<T>, d: T)
    ensures Open(Advanced(c), d) <==> Open(c, d)
  {
  }

  lemma SegmentMore<T>(res: (T, (T, bool)) -> bool, a: seq<T>, k: nat, temp: Frames<T>, r: (T, bool))
    requires Segment(res, a, k, temp) && k < |a| && res(a[k], r)
    ensures Segment(res, a, k + 1, temp + [r])
    ensures (temp + [r])[..|temp + [r]| - (k + 1)] == temp[..|temp| - k]
  {
    var temp', n := temp + [r], |temp| - k;
    forall i: nat | i < k + 1 ensures res(a[i], temp'[n + i]) {
      if i < k { assert temp'[n + i] == temp[n + i]; }
    }
  }

  /** An argument is done: its result joins the results. */
  lemma {:induction false} Advance<T>(g: Graph<T>, res: (T, (T, bool)) -> bool, c: Trail<T>, temp: Frames<T>, a: T,
                                      r: (T, bool))
    requires Nested(g, c) && Matches(g, res, c, temp) && Next(g, c, a) && res(a, r)
    ensures Nested(g, Advanced(c)) && Matches(g, res, Advanced(c), temp + [r]) && Flatten(g, Advanced(c)) == Below(g, c)
  {
    SegmentMore(res, Todo(g, c), c.k, temp, r);
  }

  /** A node that is not open becomes the innermost one. */
  lemma {:induction false} Enter<T>(g: Graph<T>, res: (T, (T, bool)) -> bool, c: Trail<T>, temp: Frames<T>, d: T)
    requires Nested(g, c) && Matches(g, res, c, temp) && Next(g, c, d) && !Open(c, d)
    ensures Nested(g, In(c, d, 0)) && Matches(g, res, In(c, d, 0), temp)
    ensures Flatten(g, In(c, d, 0)) == Below(g, c) + [(d, true)] + Pending(g.kids(d), 0)
  {
    assert temp[..|temp|] == temp;
  }

  lemma {:induction false} MatchesStays<T(!new)>(g: Graph<T>, res: (T, (T, bool)) -> bool, res': (T, (T, bool)) -> bool,
                                                 c: Trail<T>, temp: Frames<T>)
    requires Matches(g, res, c, temp) && forall a, r :: res(a, r) ==> res'(a, r)
    ensures Matches(g, res', c, temp)
  {
    if c.In? {
      MatchesStays(g, res, res', c.outer, temp[..|temp| - c.k]);
    }
  }

  /** At the end the root's result is all there is. */
  lemma {:induction false} Finished<T>(g: Graph<T>, res: (T, (T, bool)) -> bool, c: Trail<T>, temp: Frames<T>)
    requires Nested(g, c) && Matches(g, res, c, temp) && Flatten(g, c) == []
    ensures c == Top(1) && |temp| == 1 && res(g.root, temp[0])
  {
    TopOf(g, c);
    assert Todo(g, c)[0] == g.root;
    assert res(Todo(g, c)[0], temp[|temp| - c.k + 0]);
  }
}
