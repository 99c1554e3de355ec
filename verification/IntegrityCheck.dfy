/** The check that a term just read from untrusted bytes makes sense: which heaps it accepts. */
module IntegrityCheck {
  import opened Cells
  import opened Options

  datatype Fault =
    | DanglingPointer
    | IllegalDat
    | IllegalFunctor
    | MissingArgument
    | ErroneousArgument
    | CyclicReference

  // ----- what the check is for -----

  /** The new part of the heap: from `lo` on, with the cells that were read as tagged cells. */
  datatype Part = Part(heap: seq<Cell>, lo: nat, used: set<nat>)

  ghost predicate InPart(p: Part, i: nat) {
    p.lo <= i < |p.heap|
  }

  /** The chain of REF cells from `i` leads, within `n` steps, to a pointer out of the new part. */
  ghost predicate Dangles(p: Part, i: nat, n: nat)
    decreases n
  {
    InPart(p, i) && p.heap[i].Ref? &&
    var j := p.heap[i].index;
    !InPart(p, j) || (n > 0 && j != i && Dangles(p, j, n - 1))
  }

  /** The chain of REF cells from `i` stays in the new part and ends within `n` steps. */
  ghost predicate Terminates(p: Part, i: nat, n: nat)
    decreases n
  {
    InPart(p, i) && (p.heap[i].Ref? ==>
      var j := p.heap[i].index;
      InPart(p, j) && (j == i || (n > 0 && Terminates(p, j, n - 1))))
  }

  ghost predicate EverDangles(p: Part, i: nat) {
    exists n: nat :: Dangles(p, i, n)
  }

  ghost predicate EverTerminates(p: Part, i: nat) {
    exists n: nat :: Terminates(p, i, n)
  }

  predicate ArgumentTag(c: Cell) {
    c.Ref? || c.Int? || c.Str? || c.Big? || (c.Con? && c.functor.arity == 0)
  }

  ghost predicate ArgumentsOk(p: Part, i: nat, arity: nat)
    requires i + arity < |p.heap|
  {
    forall k: nat :: i < k <= i + arity ==> ArgumentTag(p.heap[k])
  }

  /** `f` is what is wrong with the cell at `i`. */
  ghost predicate Faulty(p: Part, i: nat, f: Fault)
    requires InPart(p, i)
  {
    match p.heap[i]
    case Ref(_) =>
      if EverDangles(p, i) then f == DanglingPointer
      else f == CyclicReference && !EverTerminates(p, i)
    case Big(j) =>
      if !InPart(p, j) then f == DanglingPointer else f == IllegalDat && !p.heap[j].Dat?
    case Str(j) =>
      if !InPart(p, j) then f == DanglingPointer
      else if !p.heap[j].Con? then f == IllegalFunctor
      else if j + p.heap[j].functor.arity >= |p.heap| then f == MissingArgument
      else f == ErroneousArgument && !ArgumentsOk(p, j, p.heap[j].functor.arity)
    case _ => false
  }

  ghost predicate Fine(p: Part, i: nat)
    requires InPart(p, i)
  {
    forall f: Fault :: !Faulty(p, i, f)
  }

  ghost function Room(p: Part): (s: set<nat>)
    ensures forall k: nat :: InPart(p, k) <==> k in s
  {
    set k: nat | k < |p.heap| && InPart(p, k)
  }

  /** Payload cells of bignums are not used as cells of their own. */
  ghost predicate PayloadApart(p: Part) {
    forall i: nat, k: nat {:trigger p.heap[i], k in p.used} ::
      InPart(p, i) && i in p.used && p.heap[i].Dat? && i < k < i + NumCells(p.heap[i].bits) ==> k !in p.used
  }

  // ----- chains -----

  /** A chain that ends does not dangle. */
  lemma {:induction false} TerminatesNotDangles(p: Part, i: nat, m: nat, n: nat)
    requires Terminates(p, i, m)
    ensures !Dangles(p, i, n)
    decreases m
  {
    if p.heap[i].Ref? && p.heap[i].index != i && n > 0 {
      TerminatesNotDangles(p, p.heap[i].index, m - 1, n - 1);
    }
  }

  /** A fine REF cell starts a chain that ends inside. */
  lemma FineRef(p: Part, i: nat)
    requires InPart(p, i) && p.heap[i].Ref?
    ensures Fine(p, i) <==> EverTerminates(p, i)
  {
    if EverTerminates(p, i) {
      var n: nat :| Terminates(p, i, n);
      forall m: nat ensures !Dangles(p, i, m) { TerminatesNotDangles(p, i, n, m); }
    } else if EverDangles(p, i) {
      assert Faulty(p, i, DanglingPointer);
    } else {
      assert Faulty(p, i, CyclicReference);
    }
  }

  /** The path from `path[0]` to its last cell: each cell is a REF to the next. */
  ghost predicate Chain(p: Part, path: seq<nat>) {
    && path != [] && (forall k: nat :: k < |path| ==> InPart(p, path[k]))
    && forall k: nat {:trigger path[k]} :: k + 1 < |path| ==> StepsTo(p, path[k], path[k + 1])
  }

  ghost predicate StepsTo(p: Part, i: nat, j: nat) {
    InPart(p, i) && p.heap[i] == Ref(j) && j != i
  }

  /** What the end of a path has, the whole path has. */
  lemma {:induction false} ChainTerminates(p: Part, path: seq<nat>, k: nat, n: nat)
    requires Chain(p, path) && k < |path| && Terminates(p, path[|path| - 1], n)
    ensures Terminates(p, path[k], n + (|path| - 1 - k))
    decreases |path| - k
  {
    if k + 1 < |path| {
      ChainTerminates(p, path, k + 1, n);
      assert StepsTo(p, path[k], path[k + 1]);
    }
  }

  lemma {:induction false} ChainDangles(p: Part, path: seq<nat>, k: nat)
    requires Chain(p, path) && k < |path| && Dangles(p, path[|path| - 1], 0)
    ensures Dangles(p, path[k], |path| - 1 - k)
    decreases |path| - k
  {
    if k + 1 < |path| {
      ChainDangles(p, path, k + 1);
      assert StepsTo(p, path[k], path[k + 1]);
    }
  }

  /** `s` is a set of REF cells that lead to one another: no chain from it ends or dangles. */
  ghost predicate Loop(p: Part, s: set<nat>) {
    forall i :: i in s ==> InPart(p, i) && p.heap[i].Ref? && p.heap[i].index != i && p.heap[i].index in s
  }

  lemma {:induction false} LoopForever(p: Part, s: set<nat>, i: nat, n: nat)
    requires Loop(p, s) && i in s
    ensures !Terminates(p, i, n) && !Dangles(p, i, n)
    decreases n
  {
    if n > 0 { LoopForever(p, s, p.heap[i].index, n - 1); }
  }

  /** A path that leads back to one of its own cells is a loop. */
  lemma {:induction false} BackToPath(p: Part, path: seq<nat>, next: nat, k: nat)
    requires Chain(p, path) && k < |path|
    requires StepsTo(p, path[|path| - 1], next) && next in path
    ensures p.heap[path[k]].Ref? && p.heap[path[k]].index != path[k] && p.heap[path[k]].index in path
  {
    if k + 1 < |path| {
      assert StepsTo(p, path[k], path[k + 1]);
      assert path[k + 1] in path;
    }
  }

  /** Its first cell is cyclic. */
  lemma {:induction false} PathLoops(p: Part, path: seq<nat>, next: nat, s: set<nat>)
    requires Chain(p, path) && (forall x :: x in s <==> x in path)
    requires StepsTo(p, path[|path| - 1], next) && next in s
    ensures Faulty(p, path[0], CyclicReference)
  {
    forall i | i in s ensures InPart(p, i) && p.heap[i].Ref? && p.heap[i].index != i && p.heap[i].index in s {
      var k :| 0 <= k < |path| && path[k] == i;
      BackToPath(p, path, next, k);
    }
    assert path[0] in path && path[0] in s;
    forall n: nat ensures !Terminates(p, path[0], n) && !Dangles(p, path[0], n) { LoopForever(p, s, path[0], n); }
  }

  // ----- the check -----

  /** The cells checked already: REF cells whose chains end. */
  ghost predicate CheckedOk(p: Part, checked: set<nat>) {
    forall i :: i in checked ==> InPart(p, i) && p.heap[i].Ref? && EverTerminates(p, i)
  }

  /** All cells of a path are checked when its last one ends. */
  lemma {:induction false} PathChecked(p: Part, path: seq<nat>, checked: set<nat>, visited: set<nat>, n: nat)
    requires CheckedOk(p, checked) && Chain(p, path) && (forall x :: x in visited <==> x in path)
    requires Terminates(p, path[|path| - 1], n) && p.heap[path[|path| - 1]].Ref?
    ensures CheckedOk(p, checked + visited) && EverTerminates(p, path[0])
  {
    forall i | i in visited ensures InPart(p, i) && p.heap[i].Ref? && EverTerminates(p, i) {
      var k :| 0 <= k < |path| && path[k] == i;
      ChainTerminates(p, path, k, n);
      if k + 1 < |path| { assert StepsTo(p, path[k], path[k + 1]); }
    }
    ChainTerminates(p, path, 0, n);
  }

  /** The chain from `i` has been followed along `path` to `index`, and the cells before that visited. */
  ghost predicate Following(p: Part, path: seq<nat>, visited: set<nat>, i: nat, index: nat) {
    && Chain(p, path) && path[0] == i && path[|path| - 1] == index && index !in visited
    && forall x :: x in visited <==> x in path[..|path| - 1]
  }

  lemma {:induction false} FollowingAll(p: Part, path: seq<nat>, visited: set<nat>, i: nat, index: nat)
    requires Following(p, path, visited, i, index)
    ensures forall x :: x in visited + {index} <==> x in path
  {
    assert path == path[..|path| - 1] + [index];
  }

  lemma {:induction false} FollowStep(p: Part, path: seq<nat>, visited: set<nat>, i: nat, index: nat, next: nat)
    requires Following(p, path, visited, i, index) && StepsTo(p, index, next) && InPart(p, next) && next !in visited
    ensures Following(p, path + [next], visited + {index}, i, next)
  {
    FollowingAll(p, path, visited, i, index);
    assert (path + [next])[..|path|] == path;
  }

  lemma {:induction false} FollowedOut(p: Part, path: seq<nat>, visited: set<nat>, i: nat, index: nat)
    requires Following(p, path, visited, i, index) && p.heap[index].Ref? && !InPart(p, p.heap[index].index)
    ensures p.heap[i].Ref? && Faulty(p, i, DanglingPointer)
  {
    assert Dangles(p, index, 0);
    ChainDangles(p, path, 0);
  }

  /** The chain comes to a cell that was visited. */
  lemma {:induction false} FollowedRound(p: Part, path: seq<nat>, visited: set<nat>, i: nat, index: nat, next: nat)
    requires Following(p, path, visited, i, index) && StepsTo(p, index, next) && next in visited
    ensures Faulty(p, i, CyclicReference)
  {
    FollowingAll(p, path, visited, i, index);
    PathLoops(p, path, next, visited + {index});
  }

  /** It comes to a cell that was checked before, or leads to itself. */
  lemma {:induction false} FollowedGood(p: Part, path: seq<nat>, visited: set<nat>, i: nat, index: nat, next: nat,
                                        checked: set<nat>)
    requires Following(p, path, visited, i, index) && CheckedOk(p, checked)
    requires p.heap[index] == Ref(next) && InPart(p, next) && (index in checked || next == index)
    ensures CheckedOk(p, checked + (visited + {index})) && Fine(p, i)
  {
    FollowingAll(p, path, visited, i, index);
    var n: nat := 0;
    if index in checked { n :| Terminates(p, index, n); }
    PathChecked(p, path, checked, visited + {index}, n);
    assert path[0] in visited + {index};
    FineRef(p, i);
  }

  /** It comes to a cell of another kind. */
  lemma {:induction false} FollowedToEnd(p: Part, path: seq<nat>, visited: set<nat>, i: nat, index: nat)
    requires Following(p, path, visited, i, index) && p.heap[i].Ref? && !p.heap[index].Ref?
    ensures Fine(p, i)
  {
    ChainTerminates(p, path, 0, 0);
    FineRef(p, i);
  }

  lemma PayloadUnused(p: Part, i: nat)
    requires PayloadApart(p) && InPart(p, i) && i in p.used && p.heap[i].Dat?
    ensures Fine(p, i) && forall k: nat :: i < k < i + NumCells(p.heap[i].bits) ==> k !in p.used
  {
  }

  class Checker {
    const heap: seq<Cell>
    const lo: nat
    const used: set<nat>
    var checked: set<nat>

    constructor (heap: seq<Cell>, lo: nat, used: set<nat>)
      ensures this.heap == heap && this.lo == lo && this.used == used && checked == {}
    {
      this.heap, this.lo, this.used, this.checked := heap, lo, used, {};
    }

    ghost function P(): Part {
      Part(heap, lo, used)
    }

    predicate Inside(i: nat) {
      lo <= i < |heap|
    }

    /** Follows a chain of REF cells.  A chain that runs into one checked before is not followed further. */
    method CheckRefChain(i: nat) returns (fault: Option<Fault>)
      requires Inside(i) && heap[i].Ref? && CheckedOk(P(), checked)
      modifies `checked
      ensures CheckedOk(P(), checked) && old(checked) <= checked
      ensures if fault == None then Fine(P(), i) else Faulty(P(), i, fault.value)
    {
      ghost var path := [i];
      var index, visited := i, {};
      ghost var room := Room(P());
      while heap[index].Ref?
        invariant InPart(P(), index) && Following(P(), path, visited, i, index) && checked == old(checked)
        decreases room - visited
      {
        var next := heap[index].index;
        if !Inside(next) {
          FollowedOut(P(), path, visited, i, index);
          return Some(DanglingPointer);
        }
        ghost var before := visited;
        visited := visited + {index};
        if index in checked || next == index {
          FollowedGood(P(), path, before, i, index, next, checked);
          checked := checked + visited;
          return None;
        }
        if next in visited {
          FollowedRound(P(), path, before, i, index, next);
          return Some(CyclicReference);
        }
        FollowStep(P(), path, before, i, index, next);
        path := path + [next];
        index := next;
      }
      FollowedToEnd(P(), path, visited, i, index);
      fault := None;
    }

    method CheckFunctorArgs(j: nat) returns (fault: Option<Fault>)
      requires Inside(j) && heap[j].Con?
      ensures fault == if j + heap[j].functor.arity >= |heap| then Some(MissingArgument)
                       else if ArgumentsOk(P(), j, heap[j].functor.arity) then None else Some(ErroneousArgument)
    {
      var n := heap[j].functor.arity;
      if j + n >= |heap| {
        return Some(MissingArgument);
      }
      for k := 0 to n
        invariant forall l: nat :: j < l <= j + k ==> ArgumentTag(heap[l])
      {
        if !ArgumentTag(heap[j + 1 + k]) {
          return Some(ErroneousArgument);
        }
      }
      fault := None;
    }

    method CheckStr(i: nat) returns (fault: Option<Fault>)
      requires Inside(i) && heap[i].Str?
      ensures if fault == None then Fine(P(), i) else Faulty(P(), i, fault.value)
    {
      var j := heap[i].index;
      if !Inside(j) {
        return Some(DanglingPointer);
      }
      if !heap[j].Con? {
        return Some(IllegalFunctor);
      }
      fault := CheckFunctorArgs(j);
    }

    method CheckBig(i: nat) returns (fault: Option<Fault>)
      requires Inside(i) && heap[i].Big?
      ensures if fault == None then Fine(P(), i) else Faulty(P(), i, fault.value)
    {
      var j := heap[i].index;
      fault := if !Inside(j) then Some(DanglingPointer) else if !heap[j].Dat? then Some(IllegalDat) else None;
    }

    method CheckCell(i: nat) returns (fault: Option<Fault>)
      requires Inside(i) && CheckedOk(P(), checked)
      modifies `checked
      ensures CheckedOk(P(), checked) && old(checked) <= checked
      ensures if fault == None then Fine(P(), i) else Faulty(P(), i, fault.value)
    {
      match heap[i]
      case Big(_) => fault := CheckBig(i);
      case Str(_) => fault := CheckStr(i);
      case Ref(_) => fault := CheckRefChain(i);
      case _ => fault := None;
    }

    /** Accepts exactly the heaps in which every used cell is fine, and otherwise reports what is
        wrong with the first one that is not. */
    method Check() returns (fault: Option<Fault>, at: nat)
      requires PayloadApart(P()) && checked == {}
      modifies `checked
      ensures fault == None <==> forall i: nat :: InPart(P(), i) && i in used ==> Fine(P(), i)
      ensures fault.Some? ==> InPart(P(), at) && at in used && Faulty(P(), at, fault.value)
      ensures fault.Some? ==> forall i: nat :: lo <= i < at && i in used ==> Fine(P(), i)
    {
      var i := lo;
      at := lo;
      while i < |heap|
        invariant lo <= i && CheckedOk(P(), checked)
        invariant forall k: nat :: InPart(P(), k) && k < i && k in used ==> Fine(P(), k)
        decreases |heap| - i
      {
        if i in checked || i !in used {
          if i in checked { FineRef(P(), i); }
        } else if heap[i].Dat? {
          // Payload cells are skipped.
          PayloadUnused(P(), i);
          i := i + (NumCells(heap[i].bits) - 1);
        } else {
          fault := CheckCell(i);
          if fault.Some? {
            at := i;
            return;
          }
        }
        i := i + 1;
      }
      fault := None;
    }
  }

  /** A chain that ends, cell by cell: each a REF to the next in the new part, and the last one unbound or of
      another kind. */
  lemma {:induction false} ChainCells(p: Part, i: nat, n: nat) returns (path: seq<nat>)
    requires Terminates(p, i, n)
    ensures path != [] && path[0] == i && forall q: nat :: q < |path| ==> p.lo <= path[q] < |p.heap|
    ensures forall q: nat :: q < |path| - 1 ==> p.heap[path[q]] == Ref(path[q + 1])
    ensures var last := path[|path| - 1]; p.heap[last].Ref? ==> p.heap[last] == Ref(last)
    decreases n
  {
    path := [i];
    if p.heap[i].Ref? && p.heap[i].index != i {
      var rest := ChainCells(p, p.heap[i].index, n - 1);
      path := [i] + rest;
      forall q: nat | q < |path| - 1 ensures p.heap[path[q]] == Ref(path[q + 1]) {
        if q > 0 { assert path[q] == rest[q - 1] && path[q + 1] == rest[q]; }
      }
    }
  }

  /** In an accepted heap a chain of REF cells from a used cell stays in the new part and ends, a bignum
      leads to its header, and a structure to a functor with all its arguments behind it: none of them
      payload or forwarded, and no functor that has arguments itself. */
  lemma {:induction false} AcceptedSafe(p: Part, i: nat) returns (path: seq<nat>)
    requires InPart(p, i) && i in p.used && forall k: nat :: InPart(p, k) && k in p.used ==> Fine(p, k)
    ensures p.heap[i].Ref? ==>
              && path != [] && path[0] == i && (forall q: nat :: q < |path| ==> p.lo <= path[q] < |p.heap|)
              && (forall q: nat :: q < |path| - 1 ==> p.heap[path[q]] == Ref(path[q + 1]))
              && var last := path[|path| - 1]; p.heap[last].Ref? ==> p.heap[last] == Ref(last)
    ensures p.heap[i].Big? ==> p.lo <= p.heap[i].index < |p.heap| && p.heap[p.heap[i].index].Dat?
    ensures p.heap[i].Str? ==>
              var j := p.heap[i].index;
              && p.lo <= j < |p.heap| && p.heap[j].Con? && j + p.heap[j].functor.arity < |p.heap|
              && forall q: nat :: j < q <= j + p.heap[j].functor.arity ==>
                   !p.heap[q].Dat? && !p.heap[q].Fwd? && (p.heap[q].Con? ==> p.heap[q].functor.arity == 0)
  {
    path := [];
    if p.heap[i].Ref? {
      FineRef(p, i);
      var n: nat :| Terminates(p, i, n);
      path := ChainCells(p, i, n);
    }
    if p.heap[i].Big? { assert !Faulty(p, i, DanglingPointer) && !Faulty(p, i, IllegalDat); }
    if p.heap[i].Str? {
      assert !Faulty(p, i, DanglingPointer) && !Faulty(p, i, IllegalFunctor);
      assert !Faulty(p, i, MissingArgument) && !Faulty(p, i, ErroneousArgument);
    }
  }

  /** And nothing sound is refused: a pointer to a bignum's header, a structure whose functor and arguments are in
      the new part, all of them variables, numbers, structures, bignums and atoms, and a REF cell of a chain
      that ends in it. */
  lemma {:induction false} SoundAccepted(p: Part, i: nat, path: seq<nat>)
    requires InPart(p, i)
    requires match p.heap[i]
             case Big(j) => p.lo <= j < |p.heap| && p.heap[j].Dat?
             case Str(j) =>
               && p.lo <= j < |p.heap| && p.heap[j].Con? && j + p.heap[j].functor.arity < |p.heap|
               && forall q: nat :: j < q <= j + p.heap[j].functor.arity ==>
                    || p.heap[q].Ref? || p.heap[q].Int? || p.heap[q].Str? || p.heap[q].Big?
                    || (p.heap[q].Con? && p.heap[q].functor.arity == 0)
             case Ref(_) =>
               && path != [] && path[0] == i && (forall q: nat :: q < |path| ==> p.lo <= path[q] < |p.heap|)
               && (forall q: nat :: q < |path| - 1 ==> p.heap[path[q]] == Ref(path[q + 1]))
               && var last := path[|path| - 1]; p.heap[last].Ref? ==> p.heap[last] == Ref(last)
             case _ => true
    ensures Fine(p, i)
  {
    if p.heap[i].Ref? {
      PathTerminates(p, path, 0);
      FineRef(p, i);
    }
  }

  lemma {:induction false} PathTerminates(p: Part, path: seq<nat>, k: nat)
    requires k < |path| && forall q: nat :: q < |path| ==> p.lo <= path[q] < |p.heap|
    requires forall q: nat :: q < |path| - 1 ==> p.heap[path[q]] == Ref(path[q + 1])
    requires var last := path[|path| - 1]; p.heap[last].Ref? ==> p.heap[last] == Ref(last)
    ensures Terminates(p, path[k], |path| - 1 - k)
    decreases |path| - k
  {
    if k + 1 < |path| { PathTerminates(p, path, k + 1); }
  }
}
