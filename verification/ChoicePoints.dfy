/** Choice points within choice points: what backtracking restores over any run in which states
    are saved and restored, innermost first, between unifications and allocations. */
module ChoicePoints {
  import opened Cells
  import opened TermEnvironment

  /** The environment now, and as it was at each choice point still open, the innermost last. */
  datatype Machine = Machine(now: Snapshot, saved: seq<Snapshot>)

  /** What a choice point does to the environment: whatever is there is older than it. */
  function Marked(s: Snapshot): Snapshot {
    s.(hb := |s.heap|)
  }

  /** What restoring the state saved in `s` does. */
  ghost function Restored(now: Snapshot, s: Snapshot): Snapshot
    requires |s.trail| <= |now.trail|
  {
    Snapshot(Unwound(now.heap, now.trail[|s.trail|..]), now.kind, now.trail[..|s.trail|], s.hb)
  }

  ghost predicate Sound(s: Snapshot) {
    WellFormed(s.heap, s.kind) && TrailOk(s.kind, s.trail) && s.hb <= |s.heap|
  }

  datatype Move = Work | Open | Back

  ghost predicate Next(m: Machine, move: Move, m': Machine) {
    match move
    case Work => Step(m.now, m'.now) && Sound(m'.now) && m'.saved == m.saved
    case Open => m' == Machine(Marked(m.now), m.saved + [m.now])
    case Back =>
      m.saved != [] &&
      var s := m.saved[|m.saved| - 1];
      && |s.trail| <= |m.now.trail|
      && m' == Machine(Restored(m.now, s), m.saved[..|m.saved| - 1])
  }

  // ----- what all runs keep -----

  /** The environment as `s` has it, up to cells allocated since. */
  ghost predicate Grown(s: Snapshot, s': Snapshot) {
    s.heap <= s'.heap && s.kind <= s'.kind && s'.trail == s.trail && s'.hb == s.hb
  }

  /** Each choice point has on its trail what was bound since, up to the next one or up to now. */
  ghost predicate Kept(m: Machine) {
    && Sound(m.now)
    && (forall j: nat :: j < |m.saved| ==> Sound(m.saved[j]))
    && (forall j: nat {:trigger Since(m, j)} :: j < |m.saved| ==> Since(m, j))
  }

  /** What there was at choice point `j`, and what there was when the next one was opened. */
  ghost predicate Since(m: Machine, j: nat)
    requires j < |m.saved|
  {
    Traced(m.saved[j], if j == |m.saved| - 1 then m.now else m.saved[j + 1])
  }

  ghost predicate Traced(s: Snapshot, s': Snapshot) {
    Trailed(Marked(s), s') && s.kind <= s'.kind
  }

  lemma KindsGrow(s: Snapshot, s': Snapshot)
    requires Step(s, s')
    ensures s.kind <= s'.kind
  {
  }

  /** Restoring gives the environment back as it was, up to cells allocated since. */
  lemma BackRestores(s: Snapshot, now: Snapshot)
    requires Traced(s, now) && Sound(s) && Sound(now)
    ensures Grown(s, Restored(now, s)) && Sound(Restored(now, s))
  {
    var ts := now.trail[|s.trail|..];
    forall i: nat | i < |s.heap| ensures Unwound(now.heap, ts)[i] == s.heap[i] { }
    assert forall x: nat :: x in ts ==> x in now.trail;
    UnwoundWellFormed(now.heap, now.kind, ts);
  }

  /** An older choice point does not notice. */
  lemma TracedGrown(r: Snapshot, s: Snapshot, s': Snapshot)
    requires Traced(r, s) && Sound(s) && Grown(s, s')
    ensures Traced(r, s')
  {
  }

  lemma WorkKeeps(m: Machine, m': Machine)
    requires Kept(m) && Next(m, Work, m')
    ensures Kept(m')
  {
    forall j: nat | j < |m'.saved| ensures Since(m', j) {
      assert Since(m, j);
      if j == |m.saved| - 1 {
        TrailedStep(Marked(m.saved[j]), m.now, m'.now);
        KindsGrow(m.now, m'.now);
      }
    }
  }

  lemma OpenKeeps(m: Machine, m': Machine)
    requires Kept(m) && Next(m, Open, m')
    ensures Kept(m')
  {
    forall j: nat | j < |m'.saved| ensures Sound(m'.saved[j]) && Since(m', j) {
      if j < |m.saved| { assert Since(m, j); }
    }
  }

  lemma BackKeeps(m: Machine, m': Machine)
    requires Kept(m) && Next(m, Back, m')
    ensures Kept(m') && Grown(m.saved[|m.saved| - 1], m'.now)
  {
    var n := |m.saved| - 1;
    assert Since(m, n);
    BackRestores(m.saved[n], m.now);
    forall j: nat | j < |m'.saved| ensures Since(m', j) {
      assert Since(m, j);
      if j == n - 1 { TracedGrown(m.saved[j], m.saved[n], m'.now); }
    }
  }

  // ----- runs -----

  ghost predicate Run(ms: seq<Machine>, moves: seq<Move>) {
    && |ms| == |moves| + 1 && Sound(ms[0].now) && ms[0].saved == []
    && forall p: nat {:trigger moves[p]} :: p < |moves| ==> Next(ms[p], moves[p], ms[p + 1])
  }

  lemma {:induction false} RunKeeps(ms: seq<Machine>, moves: seq<Move>, p: nat)
    requires Run(ms, moves) && p < |ms|
    ensures Kept(ms[p])
  {
    if p > 0 {
      var q: nat := p - 1;
      RunKeeps(ms, moves, q);
      assert Next(ms[q], moves[q], ms[q + 1]);
      match moves[q] {
        case Work => WorkKeeps(ms[q], ms[q + 1]);
        case Open => OpenKeeps(ms[q], ms[q + 1]);
        case Back => BackKeeps(ms[q], ms[q + 1]);
      }
    }
  }

  /** In every run, however deeply choice points are nested, going back to one gives the
      environment back as it was when the choice point was opened, well formed, up to cells
      allocated since. */
  lemma NestedBacktracking(ms: seq<Machine>, moves: seq<Move>, p: nat)
    requires Run(ms, moves) && p < |moves| && moves[p] == Back
    ensures ms[p].saved != [] && Grown(ms[p].saved[|ms[p].saved| - 1], ms[p + 1].now) && Sound(ms[p + 1].now)
  {
    RunKeeps(ms, moves, p);
    assert Next(ms[p], moves[p], ms[p + 1]);
    BackKeeps(ms[p], ms[p + 1]);
  }

  /** In every run the trail is long enough to go back whenever a choice point is open. */
  lemma CanGoBack(ms: seq<Machine>, moves: seq<Move>, p: nat)
    requires Run(ms, moves) && p < |ms| && ms[p].saved != []
    ensures |ms[p].saved[|ms[p].saved| - 1].trail| <= |ms[p].now.trail|
  {
    RunKeeps(ms, moves, p);
    assert Since(ms[p], |ms[p].saved| - 1);
  }
}
