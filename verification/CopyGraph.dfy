/** What copying a possibly cyclic term means, and the state of the depth-first walk that does it. */
module CopyGraph {
  import opened Cells
  import opened GraphWalk
  import opened RationalTrees

  /** The term to copy and the heap it is in. */
  datatype Source = Source(heap: seq<Cell>, kind: seq<Kind>, root: Cell)

  ghost predicate Good(s: Source) {
    WellFormed(s.heap, s.kind) && IsTerm(s.kind, s.root) && Value(s.heap, s.kind, s.root) == s.root
  }

  /** The dereferenced arguments of a structure. */
  ghost function Kids(s: Source, c: Cell): (a: seq<Cell>)
    requires Good(s) && IsTerm(s.kind, c)
    ensures c.Str? ==> s.heap[c.index].Con? && |a| == s.heap[c.index].functor.arity
    ensures forall i: nat :: i < |a| ==> IsTerm(s.kind, a[i]) && (a[i].Ref? ==> s.heap[a[i].index] == a[i])
  {
    if c.Str? then
      ArgsAreTerms(s.heap, s.kind, c.index);
      seq(s.heap[c.index].functor.arity, i requires 0 <= i < s.heap[c.index].functor.arity =>
        Value(s.heap, s.kind, Arg(s.heap, c.index, i)))
    else []
  }

  // ----- the copy -----

  /** `v` stands for `a` in the copy: the new structure or variable `m` has for it, an equal
      constant, or a bignum with equal payload, shared if `share` says so. */
  ghost predicate Image(s: Source, h: seq<Cell>, m: map<Cell, Cell>, share: bool, a: Cell, v: Cell) {
    match a
    case Str(_) => a in m && v == m[a]
    case Ref(_) => a in m && v == m[a]
    case Big(i) => if share then v == a
                   else v.Big? && |s.heap| <= v.index && BigData(h, v.index) == BigData(s.heap, i) != []
    case _ => v == a
  }

  /** Number of cells a new structure or variable takes, from the address of its cell on. */
  ghost function Extent(h: seq<Cell>, v: Cell): nat {
    if v.Str? && v.index < |h| && h[v.index].Con? then 1 + h[v.index].functor.arity else 1
  }

  ghost predicate Before(h: seq<Cell>, u: Cell, v: Cell) {
    (u.Str? || u.Ref?) && (v.Str? || v.Ref?) && u.index + Extent(h, u) <= v.index
  }

  /** `m` gives each source structure a new one with the same functor, and each source variable a
      new one, all of them apart. */
  ghost predicate Mapped(s: Source, h: seq<Cell>, k: seq<Kind>, m: map<Cell, Cell>)
    requires Good(s)
  {
    && (forall c :: c in m ==> MappedOne(s, h, k, c, m[c]))
    && (forall c, d :: c in m && d in m && c != d ==> Before(h, m[c], m[d]) || Before(h, m[d], m[c]))
  }

  ghost predicate MappedOne(s: Source, h: seq<Cell>, k: seq<Kind>, c: Cell, v: Cell)
    requires Good(s)
  {
    && IsTerm(s.kind, c) && IsTerm(k, v)
    && ((c.Str? && v.Str?) || (c.Ref? && v.Ref?))
    && |s.heap| <= v.index && v.index + Extent(h, v) <= |h|
    && (c.Str? ==> h[v.index] == s.heap[c.index])
    && (c.Ref? ==> s.heap[c.index] == c && h[v.index] == v)
  }

  /** Every argument of every new structure stands for the source's. */
  ghost predicate ArgsCopied(s: Source, h: seq<Cell>, m: map<Cell, Cell>, share: bool)
    requires Good(s)
  {
    forall c, i: nat :: c in m && c.Str? && m[c].Str? && IsTerm(s.kind, c) && i < |Kids(s, c)| ==>
      Image(s, h, m, share, Kids(s, c)[i], Arg(h, m[c].index, i))
  }

  /** `t` is closed under arguments. */
  ghost predicate Closed(s: Source, t: set<Cell>)
    requires Good(s)
  {
    forall c, i: nat :: c in t && IsTerm(s.kind, c) && i < |Kids(s, c)| && IsNode(Kids(s, c)[i]) ==> Kids(s, c)[i] in t
  }

  predicate IsNode(c: Cell) {
    c.Str? || c.Ref?
  }

  /** The new heap with the result is a copy of the source: nothing old has changed, what is new is
      the same graph, and all of it is reached from the root. */
  ghost predicate Copied(s: Source, h: seq<Cell>, k: seq<Kind>, m: map<Cell, Cell>, share: bool, result: Cell)
    requires Good(s)
  {
    && s.heap <= h && s.kind <= k && WellFormed(h, k)
    && Mapped(s, h, k, m) && ArgsCopied(s, h, m, share) && Image(s, h, m, share, s.root, result)
    && (forall t: set<Cell> :: Closed(s, t) && (IsNode(s.root) ==> s.root in t) ==> m.Keys <= t)
  }

  // ----- the walk -----

  ghost function GraphOf(s: Source): Graph<Cell>
    requires Good(s)
  {
    Graph((c: Cell) => if IsTerm(s.kind, c) then Kids(s, c) else [], s.root)
  }

  /** An argument done: its image, or itself if it is a structure being copied further out. */
  ghost predicate Result(s: Source, h: seq<Cell>, m: map<Cell, Cell>, share: bool, a: Cell, r: (Cell, bool)) {
    if r.1 then a.Str? && r.0 == a else Image(s, h, m, share, a, r.0)
  }

  ghost function Results(s: Source, h: seq<Cell>, m: map<Cell, Cell>, share: bool): (Cell, (Cell, bool)) -> bool {
    (a, r) => Result(s, h, m, share, a, r)
  }

  /** Arguments of copied structures are copied or being copied, and so are results that are the
      source's own structures; the root is not one of these. */
  ghost predicate Followed(s: Source, m: map<Cell, Cell>, w: Trail<Cell>, temp: Frames<Cell>)
    requires Good(s)
  {
    && (forall c, i: nat :: c in m && IsTerm(s.kind, c) && i < |Kids(s, c)| && IsNode(Kids(s, c)[i]) ==>
          Kids(s, c)[i] in m || Open(w, Kids(s, c)[i]))
    && (forall r :: r in temp && r.1 ==> r.0 in m || Open(w, r.0))
    && (w == Top(1) ==> temp != [] && !temp[0].1)
  }

  /** Only what is reached from the root is copied. */
  ghost predicate Reached(s: Source, m: map<Cell, Cell>, w: Trail<Cell>)
    requires Good(s)
  {
    forall t: set<Cell>, c :: Rooted(s, t) && (c in m || Open(w, c)) ==> c in t
  }

  /** `t` has the root and is closed under arguments. */
  ghost predicate Rooted(s: Source, t: set<Cell>)
    requires Good(s)
  {
    Closed(s, t) && (IsNode(s.root) ==> s.root in t)
  }

  /** What is open: structures of the source, not copied yet. */
  ghost predicate Opened(s: Source, m: map<Cell, Cell>, w: Trail<Cell>) {
    forall c :: Open(w, c) ==> c.Str? && IsTerm(s.kind, c) && c !in m
  }

  ghost predicate Walking(s: Source, h: seq<Cell>, m: map<Cell, Cell>, share: bool, w: Trail<Cell>, temp: Frames<Cell>)
    requires Good(s)
  {
    && Nested(GraphOf(s), w) && Matches(GraphOf(s), Results(s, h, m, share), w, temp)
    && Followed(s, m, w, temp) && Reached(s, m, w) && Opened(s, m, w)
  }

  // ----- the new structures -----

  /** An argument of a new structure: right already, or put off. */
  ghost predicate Slot(s: Source, h: seq<Cell>, m: map<Cell, Cell>, share: bool, cyc: seq<(Cell, nat)>, a: Cell,
                       u: Cell, i: nat)
    requires u.Str?
  {
    if (u, i) in cyc then a.Str? && Arg(h, u.index, i) == a else Image(s, h, m, share, a, Arg(h, u.index, i))
  }

  ghost predicate SlotsOf(s: Source, h: seq<Cell>, m: map<Cell, Cell>, share: bool, cyc: seq<(Cell, nat)>, c: Cell,
                          u: Cell)
    requires Good(s) && IsTerm(s.kind, c) && u.Str?
  {
    forall i: nat :: i < |Kids(s, c)| ==> Slot(s, h, m, share, cyc, Kids(s, c)[i], u, i)
  }

  ghost predicate Built(s: Source, h: seq<Cell>, m: map<Cell, Cell>, share: bool, cyc: seq<(Cell, nat)>)
    requires Good(s)
  {
    forall c :: c in m && c.Str? && m[c].Str? && IsTerm(s.kind, c) ==> SlotsOf(s, h, m, share, cyc, c, m[c])
  }

  /** Each argument put off belongs to a new structure, once. */
  ghost predicate PutOff(s: Source, m: map<Cell, Cell>, cyc: seq<(Cell, nat)>)
    requires Good(s)
  {
    && (forall p: nat :: p < |cyc| ==> PutOffOne(s, m, cyc[p]))
    && (forall p: nat, q: nat :: p < q < |cyc| ==> cyc[p] != cyc[q])
  }

  ghost predicate PutOffOne(s: Source, m: map<Cell, Cell>, u: (Cell, nat))
    requires Good(s)
  {
    exists c :: c in m && c.Str? && IsTerm(s.kind, c) && m[c] == u.0 && u.1 < |Kids(s, c)|
  }

  ghost predicate Building(s: Source, h: seq<Cell>, k: seq<Kind>, m: map<Cell, Cell>, share: bool,
                           cyc: seq<(Cell, nat)>)
    requires Good(s)
  {
    && s.heap <= h && s.kind <= k && WellFormed(h, k)
    && Mapped(s, h, k, m) && Built(s, h, m, share, cyc) && PutOff(s, m, cyc)
  }

  // ----- growing -----

  ghost predicate Extends(m: map<Cell, Cell>, m': map<Cell, Cell>) {
    forall c :: c in m ==> c in m' && m'[c] == m[c]
  }

  lemma ImageStays(s: Source, h: seq<Cell>, h': seq<Cell>, m: map<Cell, Cell>, m': map<Cell, Cell>, share: bool,
                   a: Cell, v: Cell)
    requires h <= h' && Extends(m, m') && Image(s, h, m, share, a, v)
    ensures Image(s, h', m', share, a, v)
  {
    if a.Big? && !share {
      assert BigData(h', v.index) == BigData(h, v.index);
    }
  }

  lemma MappedOneStays(s: Source, h: seq<Cell>, k: seq<Kind>, h': seq<Cell>, k': seq<Kind>, c: Cell, v: Cell)
    requires Good(s) && MappedOne(s, h, k, c, v) && h <= h' && k <= k' && WellFormed(h', k')
    ensures MappedOne(s, h', k', c, v) && Extent(h', v) == Extent(h, v)
  {
  }

  /** The new structures stay as they are when the heap grows by something else. */
  lemma SlotsStay(s: Source, h: seq<Cell>, k: seq<Kind>, h': seq<Cell>, m: map<Cell, Cell>, m': map<Cell, Cell>,
                  share: bool, cyc: seq<(Cell, nat)>, cyc': seq<(Cell, nat)>, c: Cell)
    requires Good(s) && Mapped(s, h, k, m) && Built(s, h, m, share, cyc) && h <= h' && Extends(m, m')
    requires c in m && c.Str? && m[c].Str? && IsTerm(s.kind, c)
    requires forall i: nat :: (m[c], i) in cyc' <==> (m[c], i) in cyc
    ensures SlotsOf(s, h', m', share, cyc', c, m[c])
  {
    assert MappedOne(s, h, k, c, m[c]) && SlotsOf(s, h, m, share, cyc, c, m[c]);
    forall i: nat | i < |Kids(s, c)| ensures Slot(s, h', m', share, cyc', Kids(s, c)[i], m[c], i) {
      assert Slot(s, h, m, share, cyc, Kids(s, c)[i], m[c], i);
      assert Arg(h', m[c].index, i) == Arg(h, m[c].index, i);
      if (m[c], i) !in cyc { ImageStays(s, h, h', m, m', share, Kids(s, c)[i], Arg(h, m[c].index, i)); }
    }
  }

  lemma BuildingGrows(s: Source, h: seq<Cell>, k: seq<Kind>, h': seq<Cell>, k': seq<Kind>, m: map<Cell, Cell>,
                      share: bool, cyc: seq<(Cell, nat)>)
    requires Good(s) && Building(s, h, k, m, share, cyc) && h <= h' && k <= k' && WellFormed(h', k')
    ensures Building(s, h', k', m, share, cyc)
  {
    forall c | c in m ensures MappedOne(s, h', k', c, m[c]) && Extent(h', m[c]) == Extent(h, m[c]) {
      MappedOneStays(s, h, k, h', k', c, m[c]);
    }
    forall c | c in m && c.Str? && m[c].Str? && IsTerm(s.kind, c) ensures SlotsOf(s, h', m, share, cyc, c, m[c]) {
      SlotsStay(s, h, k, h', m, m, share, cyc, cyc, c);
    }
  }

  /** One more new structure or variable, behind all others. */
  lemma MappedMore(s: Source, h: seq<Cell>, k: seq<Kind>, h': seq<Cell>, k': seq<Kind>, m: map<Cell, Cell>, c: Cell,
                   v: Cell)
    requires Good(s) && Mapped(s, h, k, m) && h <= h' && k <= k' && WellFormed(h', k')
    requires c !in m && MappedOne(s, h', k', c, v) && |h| <= v.index
    ensures Mapped(s, h', k', m[c := v])
  {
    forall d | d in m
      ensures MappedOne(s, h', k', d, m[d]) && Extent(h', m[d]) == Extent(h, m[d]) && Before(h', m[d], v)
    {
      MappedOneStays(s, h, k, h', k', d, m[d]);
    }
    var m' := m[c := v];
    forall d, e | d in m' && e in m' && d != e ensures Before(h', m'[d], m'[e]) || Before(h', m'[e], m'[d]) {
      if d != c && e != c { assert Before(h, m[d], m[e]) || Before(h, m[e], m[d]); }
    }
  }

  lemma BuildingVariable(s: Source, h: seq<Cell>, k: seq<Kind>, h': seq<Cell>, k': seq<Kind>, m: map<Cell, Cell>,
                         share: bool, cyc: seq<(Cell, nat)>, c: Cell, v: Cell)
    requires Good(s) && Building(s, h, k, m, share, cyc) && h <= h' && k <= k' && WellFormed(h', k')
    requires c.Ref? && c !in m && MappedOne(s, h', k', c, v) && |h| <= v.index
    ensures Building(s, h', k', m[c := v], share, cyc)
  {
    var m' := m[c := v];
    MappedMore(s, h, k, h', k', m, c, v);
    forall d | d in m' && d.Str? && m'[d].Str? && IsTerm(s.kind, d) ensures SlotsOf(s, h', m', share, cyc, d, m'[d]) {
      SlotsStay(s, h, k, h', m, m', share, cyc, cyc, d);
    }
    PutOffStays(s, m, m', cyc);
  }

  lemma PutOffStays(s: Source, m: map<Cell, Cell>, m': map<Cell, Cell>, cyc: seq<(Cell, nat)>)
    requires Good(s) && PutOff(s, m, cyc) && Extends(m, m')
    ensures PutOff(s, m', cyc)
  {
    forall p: nat | p < |cyc| ensures PutOffOne(s, m', cyc[p]) {
      assert PutOffOne(s, m, cyc[p]);
      var c :| c in m && c.Str? && IsTerm(s.kind, c) && m[c] == cyc[p].0 && cyc[p].1 < |Kids(s, c)|;
    }
  }

  /** Which arguments of the structure at `v` are put off: those whose result is the source's. */
  ghost predicate Adds(cyc: seq<(Cell, nat)>, cyc': seq<(Cell, nat)>, v: Cell, rs: Frames<Cell>) {
    && cyc <= cyc'
    && (forall p: nat :: |cyc| <= p < |cyc'| ==> cyc'[p].0 == v && cyc'[p].1 < |rs| && rs[cyc'[p].1].1)
    && (forall i: nat :: i < |rs| && rs[i].1 ==> (v, i) in cyc')
    && (forall p: nat, q: nat :: |cyc| <= p < q < |cyc'| ==> cyc'[p] != cyc'[q])
  }

  lemma NewIsNew(s: Source, h: seq<Cell>, k: seq<Kind>, m: map<Cell, Cell>, cyc: seq<(Cell, nat)>, v: Cell, i: nat)
    requires Good(s) && Mapped(s, h, k, m) && PutOff(s, m, cyc) && v.Str? && |h| <= v.index
    ensures (v, i) !in cyc && forall c :: c in m ==> m[c] != v
  {
    forall c | c in m ensures m[c] != v {
      assert MappedOne(s, h, k, c, m[c]);
    }
    forall p: nat | p < |cyc| ensures cyc[p].0 != v {
      assert PutOffOne(s, m, cyc[p]);
    }
  }

  lemma PutOffMore(s: Source, h: seq<Cell>, k: seq<Kind>, m: map<Cell, Cell>, cyc: seq<(Cell, nat)>,
                   cyc': seq<(Cell, nat)>, c: Cell, v: Cell, rs: Frames<Cell>)
    requires Good(s) && Mapped(s, h, k, m) && PutOff(s, m, cyc) && v.Str? && |h| <= v.index
    requires c.Str? && c !in m && IsTerm(s.kind, c) && |rs| == |Kids(s, c)| && Adds(cyc, cyc', v, rs)
    ensures PutOff(s, m[c := v], cyc')
  {
    var m' := m[c := v];
    PutOffStays(s, m, m', cyc);
    forall p: nat | p < |cyc'| ensures PutOffOne(s, m', cyc'[p]) {
      if p < |cyc| { assert PutOffOne(s, m', cyc[p]); } else { assert m'[c] == v; }
    }
    forall p: nat, q: nat | p < q < |cyc'| ensures cyc'[p] != cyc'[q] {
      if q < |cyc| {
        assert cyc[p] != cyc[q];
      } else if p < |cyc| {
        NewIsNew(s, h, k, m, cyc, v, cyc'[q].1);
        assert cyc[p] in cyc;
      }
    }
  }

  lemma BuildingStructure(s: Source, h: seq<Cell>, k: seq<Kind>, h': seq<Cell>, k': seq<Kind>, m: map<Cell, Cell>,
                          share: bool, cyc: seq<(Cell, nat)>, cyc': seq<(Cell, nat)>, c: Cell, v: Cell,
                          rs: Frames<Cell>)
    requires Good(s) && Building(s, h, k, m, share, cyc) && h <= h' && k <= k' && WellFormed(h', k')
    requires c.Str? && c !in m && v.Str? && MappedOne(s, h', k', c, v) && |h| <= v.index
    requires |rs| == |Kids(s, c)| && Adds(cyc, cyc', v, rs)
    requires forall i: nat :: i < |rs| ==>
             Result(s, h, m, share, Kids(s, c)[i], rs[i]) && Arg(h', v.index, i) == rs[i].0
    ensures Building(s, h', k', m[c := v], share, cyc')
  {
    var m' := m[c := v];
    MappedMore(s, h, k, h', k', m, c, v);
    PutOffMore(s, h, k, m, cyc, cyc', c, v, rs);
    forall d | d in m' && d.Str? && m'[d].Str? && IsTerm(s.kind, d) ensures SlotsOf(s, h', m', share, cyc', d, m'[d]) {
      if d != c {
        NewIsNew(s, h, k, m, cyc, v, 0);
        forall i: nat ensures (m[d], i) in cyc' <==> (m[d], i) in cyc { }
        SlotsStay(s, h, k, h', m, m', share, cyc, cyc', d);
      } else {
        forall i: nat | i < |Kids(s, c)| ensures Slot(s, h', m', share, cyc', Kids(s, c)[i], v, i) {
          NewIsNew(s, h, k, m, cyc, v, i);
          assert Result(s, h, m, share, Kids(s, c)[i], rs[i]);
          if rs[i].1 {
            assert (v, i) in cyc';
          } else {
            assert (v, i) !in cyc';
            ImageStays(s, h, h', m, m', share, Kids(s, c)[i], rs[i].0);
          }
        }
      }
    }
  }

  // ----- steps of the walk -----

  /** What is next is a term, and in every set that has the root and is closed. */
  lemma NextIn(s: Source, m: map<Cell, Cell>, w: Trail<Cell>, a: Cell)
    requires Good(s) && Opened(s, m, w) && Reached(s, m, w) && Next(GraphOf(s), w, a)
    ensures IsTerm(s.kind, a) && (a.Ref? ==> s.heap[a.index] == a)
    ensures forall t: set<Cell> :: Rooted(s, t) && IsNode(a) ==> a in t
  {
    if w.In? { assert Open(w, w.node); }
  }

  lemma {:induction false} WalkingStays(s: Source, h: seq<Cell>, h': seq<Cell>, m: map<Cell, Cell>, m': map<Cell, Cell>,
                          share: bool, w: Trail<Cell>, temp: Frames<Cell>)
    requires Good(s) && Matches(GraphOf(s), Results(s, h, m, share), w, temp) && h <= h' && Extends(m, m')
    ensures Matches(GraphOf(s), Results(s, h', m', share), w, temp)
  {
    var res, res' := Results(s, h, m, share), Results(s, h', m', share);
    forall a, r | res(a, r) ensures res'(a, r) {
      if !r.1 { ImageStays(s, h, h', m, m', share, a, r.0); }
    }
    MatchesStays(GraphOf(s), res, res', w, temp);
  }

  /** The results after one more argument, in a heap that may have grown. */
  lemma {:induction false} AdvanceWith(s: Source, h: seq<Cell>, h': seq<Cell>, m: map<Cell, Cell>, m': map<Cell, Cell>,
                          share: bool, w: Trail<Cell>, temp: Frames<Cell>, a: Cell, r: (Cell, bool))
    requires Good(s) && Nested(GraphOf(s), w) && Matches(GraphOf(s), Results(s, h, m, share), w, temp)
    requires Next(GraphOf(s), w, a) && h <= h' && Extends(m, m') && Result(s, h', m', share, a, r)
    ensures Nested(GraphOf(s), Advanced(w)) && Matches(GraphOf(s), Results(s, h', m', share), Advanced(w), temp + [r])
    ensures Flatten(GraphOf(s), Advanced(w)) == Below(GraphOf(s), w)
  {
    WalkingStays(s, h, h', m, m', share, w, temp);
    Advance(GraphOf(s), Results(s, h', m', share), w, temp, a, r);
  }

  /** The next argument is done, without others of its own to do first. */
  lemma {:induction false} WalkOn(s: Source, h: seq<Cell>, h': seq<Cell>, m: map<Cell, Cell>, m': map<Cell, Cell>,
                          share: bool, w: Trail<Cell>, temp: Frames<Cell>, a: Cell, r: (Cell, bool))
    requires Good(s) && Walking(s, h, m, share, w, temp) && h <= h' && Next(GraphOf(s), w, a)
    requires (a.Ref? && a !in m && m' == m[a := r.0]) || m' == m
    requires Result(s, h', m', share, a, r) && (r.1 ==> Open(w, a))
    ensures Walking(s, h', m', share, Advanced(w), temp + [r])
    ensures Flatten(GraphOf(s), Advanced(w)) == Below(GraphOf(s), w)
  {
    AdvanceWith(s, h, h', m, m', share, w, temp, a, r);
    OnRest(s, m, m', w, temp, a, r);
  }

  lemma {:induction false} OnRest(s: Source, m: map<Cell, Cell>, m': map<Cell, Cell>, w: Trail<Cell>,
                                  temp: Frames<Cell>, a: Cell,
                                  r: (Cell, bool))
    requires Good(s) && Followed(s, m, w, temp) && Reached(s, m, w) && Opened(s, m, w) && Next(GraphOf(s), w, a)
    requires (a.Ref? && a !in m && m' == m[a := r.0]) || m' == m
    requires (r.1 ==> r.0 == a && Open(w, a)) && (w == Top(0) ==> temp == [])
    ensures Followed(s, m', Advanced(w), temp + [r]) && Reached(s, m', Advanced(w)) && Opened(s, m', Advanced(w))
  {
    NextIn(s, m, w, a);
    forall c ensures Open(Advanced(w), c) <==> Open(w, c) { AdvancedOpen(w, c); }
  }

  /** A structure not seen before: its arguments come first. */
  lemma {:induction false} WalkIn(s: Source, h: seq<Cell>, m: map<Cell, Cell>, share: bool, w: Trail<Cell>,
                                  temp: Frames<Cell>, c: Cell)
    requires Good(s) && Walking(s, h, m, share, w, temp) && Next(GraphOf(s), w, c)
    requires c.Str? && c !in m && !Open(w, c)
    ensures IsTerm(s.kind, c) && Walking(s, h, m, share, In(w, c, 0), temp)
    ensures Flatten(GraphOf(s), In(w, c, 0)) == Below(GraphOf(s), w) + [(c, true)] + Pending(Kids(s, c), 0)
  {
    NextIn(s, m, w, c);
    Enter(GraphOf(s), Results(s, h, m, share), w, temp, c);
  }

  /** The last results are those of `kids`. */
  ghost predicate ResultsOf(s: Source, h: seq<Cell>, m: map<Cell, Cell>, share: bool, kids: seq<Cell>,
                            temp: Frames<Cell>) {
    |kids| <= |temp| && forall i: nat :: i < |kids| ==> Result(s, h, m, share, kids[i], temp[|temp| - |kids| + i])
  }

  /** What is known of a structure whose arguments are done. */
  ghost predicate OutOf(s: Source, h: seq<Cell>, m: map<Cell, Cell>, share: bool, c: Cell, temp: Frames<Cell>)
    requires Good(s)
  {
    c.Str? && c !in m && IsTerm(s.kind, c) && ResultsOf(s, h, m, share, Kids(s, c), temp)
  }

  lemma SegmentResults(s: Source, h: seq<Cell>, m: map<Cell, Cell>, share: bool, kids: seq<Cell>, k: nat,
                       temp: Frames<Cell>)
    requires Segment(Results(s, h, m, share), kids, k, temp) && k == |kids|
    ensures ResultsOf(s, h, m, share, kids, temp)
  {
    forall i: nat | i < k ensures Result(s, h, m, share, kids[i], temp[|temp| - k + i]) {
      assert Results(s, h, m, share)(kids[i], temp[|temp| - k + i]);
    }
  }

  lemma TodoIsKids(s: Source, w: Trail<Cell>)
    requires Good(s) && w.In? && IsTerm(s.kind, w.node)
    ensures Todo(GraphOf(s), w) == Kids(s, w.node)
  {
  }

  lemma {:induction false} MatchesLast<T>(g: Graph<T>, res: (T, (T, bool)) -> bool, w: Trail<T>, temp: Frames<T>)
    requires Matches(g, res, w, temp)
    ensures Segment(res, Todo(g, w), w.k, temp)
  {
  }

  lemma {:induction false} Leaving(s: Source, h: seq<Cell>, m: map<Cell, Cell>, share: bool, w: Trail<Cell>,
                                   temp: Frames<Cell>)
    requires Good(s) && Matches(GraphOf(s), Results(s, h, m, share), w, temp) && Opened(s, m, w)
    requires w.In? && w.k == |Todo(GraphOf(s), w)|
    ensures OutOf(s, h, m, share, w.node, temp) && w.k == |Kids(s, w.node)|
  {
    assert Open(w, w.node);
    TodoIsKids(s, w);
    MatchesLast(GraphOf(s), Results(s, h, m, share), w, temp);
    SegmentResults(s, h, m, share, Kids(s, w.node), w.k, temp);
  }

  /** All arguments of the innermost structure are done, and it has its copy. */
  lemma WalkOut(s: Source, h: seq<Cell>, h': seq<Cell>, m: map<Cell, Cell>, share: bool, w: Trail<Cell>,
                temp: Frames<Cell>, v: Cell)
    requires Good(s) && Walking(s, h, m, share, w, temp) && w.In? && w.k == |Todo(GraphOf(s), w)| && h <= h'
    ensures OutOf(s, h, m, share, w.node, temp) && w.k == |Kids(s, w.node)|
    ensures Walking(s, h', m[w.node := v], share, Advanced(w.outer), temp[..|temp| - w.k] + [(v, false)])
    ensures Flatten(GraphOf(s), Advanced(w.outer)) == Below(GraphOf(s), w.outer)
  {
    Leaving(s, h, m, share, w, temp);
    OutAdvances(s, h, h', m, share, w, temp, v);
    OutFollowed(s, h, m, share, w, temp, v);
    OutReached(s, m, w, v);
  }

  lemma {:induction false} OutAdvances(s: Source, h: seq<Cell>, h': seq<Cell>, m: map<Cell, Cell>, share: bool,
                                       w: Trail<Cell>,
                                       temp: Frames<Cell>, v: Cell)
    requires Good(s) && Nested(GraphOf(s), w) && Matches(GraphOf(s), Results(s, h, m, share), w, temp)
    requires w.In? && w.node.Str? && w.node !in m && h <= h'
    ensures Nested(GraphOf(s), Advanced(w.outer)) && w.k <= |temp|
    ensures Matches(GraphOf(s), Results(s, h', m[w.node := v], share), Advanced(w.outer),
                    temp[..|temp| - w.k] + [(v, false)])
    ensures Flatten(GraphOf(s), Advanced(w.outer)) == Below(GraphOf(s), w.outer)
    ensures w.outer == Top(0) ==> temp[..|temp| - w.k] == []
  {
    AdvanceWith(s, h, h', m, m[w.node := v], share, w.outer, temp[..|temp| - w.k], w.node, (v, false));
  }

  lemma OutReached(s: Source, m: map<Cell, Cell>, w: Trail<Cell>, v: Cell)
    requires Good(s) && Reached(s, m, w) && Opened(s, m, w) && w.In? && !Open(w.outer, w.node)
    ensures Reached(s, m[w.node := v], Advanced(w.outer)) && Opened(s, m[w.node := v], Advanced(w.outer))
  {
    forall c ensures Open(Advanced(w.outer), c) <==> Open(w.outer, c) { AdvancedOpen(w.outer, c); }
  }

  lemma OutFollowed(s: Source, h: seq<Cell>, m: map<Cell, Cell>, share: bool, w: Trail<Cell>, temp: Frames<Cell>,
                    v: Cell)
    requires Good(s) && Followed(s, m, w, temp) && w.In? && OutOf(s, h, m, share, w.node, temp) &&
             w.k == |Kids(s, w.node)|
    requires w.outer == Top(0) ==> temp[..|temp| - w.k] == []
    ensures Followed(s, m[w.node := v], Advanced(w.outer), temp[..|temp| - w.k] + [(v, false)])
  {
    var m', temp' := m[w.node := v], temp[..|temp| - w.k] + [(v, false)];
    forall c ensures Open(Advanced(w.outer), c) <==> Open(w.outer, c) { AdvancedOpen(w.outer, c); }
    forall c, i: nat | c in m' && IsTerm(s.kind, c) && i < |Kids(s, c)| && IsNode(Kids(s, c)[i])
      ensures Kids(s, c)[i] in m' || Open(Advanced(w.outer), Kids(s, c)[i])
    {
      if c == w.node {
        var r := temp[|temp| - w.k + i];
        assert Result(s, h, m, share, Kids(s, w.node)[i], r);
        assert r in temp;
      }
    }
    forall r | r in temp' && r.1 ensures r.0 in m' || Open(Advanced(w.outer), r.0) {
      assert r in temp;
    }
  }

  // ----- termination -----

  /** Structures not yet copied nor being copied. */
  ghost function Fresh(s: Source, m: map<Cell, Cell>, w: Trail<Cell>): set<nat> {
    set i: nat | i < |s.kind| && s.kind[i] == FunctorKind && Str(i) !in m && !Open(w, Str(i)) :: i
  }

  // ----- patching -----

  function SlotAt(u: (Cell, nat)): nat
    requires u.0.Str?
  {
    u.0.index + u.1 + 1
  }

  /** The first `j` arguments put off have been replaced by what their structures were copied to. */
  ghost predicate Patched(s: Source, h: seq<Cell>, h': seq<Cell>, m: map<Cell, Cell>, cyc: seq<(Cell, nat)>, j: nat)
    requires forall p: nat :: p < |cyc| ==> cyc[p].0.Str?
  {
    && |h'| == |h| && j <= |cyc|
    && (forall p: nat :: p < j ==>
      SlotAt(cyc[p]) < |h| && h[SlotAt(cyc[p])] in m && h'[SlotAt(cyc[p])] == m[h[SlotAt(cyc[p])]])
    && (forall a: nat :: a < |h| && (forall p: nat :: p < j ==> SlotAt(cyc[p]) != a) ==> h'[a] == h[a])
  }

  /** Where an argument put off is, and what is there. */
  lemma PutOffAt(s: Source, h: seq<Cell>, k: seq<Kind>, m: map<Cell, Cell>, share: bool, cyc: seq<(Cell, nat)>, p: nat)
    returns (c: Cell)
    requires Good(s) && Building(s, h, k, m, share, cyc) && p < |cyc|
    ensures c in m && c.Str? && IsTerm(s.kind, c) && m[c] == cyc[p].0 && m[c].Str? && cyc[p].1 < |Kids(s, c)|
    ensures SlotAt(cyc[p]) < |h| && k[SlotAt(cyc[p])] == Data && |s.heap| <= SlotAt(cyc[p])
    ensures h[SlotAt(cyc[p])] == Kids(s, c)[cyc[p].1] && Kids(s, c)[cyc[p].1].Str?
  {
    assert PutOffOne(s, m, cyc[p]);
    c :| c in m && c.Str? && IsTerm(s.kind, c) && m[c] == cyc[p].0 && cyc[p].1 < |Kids(s, c)|;
    assert MappedOne(s, h, k, c, m[c]);
    assert cyc[p] in cyc && cyc[p] == (m[c], cyc[p].1);
    assert Slot(s, h, m, share, cyc, Kids(s, c)[cyc[p].1], m[c], cyc[p].1) by {
      assert SlotsOf(s, h, m, share, cyc, c, m[c]);
    }
    ArgIsTerm(h, k, m[c].index, cyc[p].1);
  }

  /** Different arguments of new structures are in different places. */
  lemma SlotsDiffer(s: Source, h: seq<Cell>, k: seq<Kind>, m: map<Cell, Cell>, c: Cell, i: nat, d: Cell, j: nat)
    requires Good(s) && Mapped(s, h, k, m)
    requires c in m && d in m && c.Str? && d.Str? && m[c].Str? && m[d].Str? && IsTerm(s.kind, c) && IsTerm(s.kind, d)
    requires i < |Kids(s, c)| && j < |Kids(s, d)| && SlotAt((m[c], i)) == SlotAt((m[d], j))
    ensures c == d && i == j
  {
    assert MappedOne(s, h, k, c, m[c]) && MappedOne(s, h, k, d, m[d]);
    assert c != d ==> Before(h, m[c], m[d]) || Before(h, m[d], m[c]);
  }

  lemma {:induction false} ReplaceEnds(h: seq<Cell>, v: nat, t: Cell, c: Cell, n: nat)
    requires v < |h| && !h[v].Ref? && !t.Ref? && Ends(h, c, n)
    ensures Ends(h[v := t], c, n)
    decreases n
  {
    if c.Ref? && c.index != v && h[c.index] != c {
      ReplaceEnds(h, v, t, h[c.index], n - 1);
    } else if c.Ref? && c.index == v {
      assert n > 0 && Ends(h[v := t], t, n - 1);
    }
  }

  /** A heap stays well formed when one argument that is not a REF is replaced by another. */
  lemma ReplaceWellFormed(h: seq<Cell>, k: seq<Kind>, v: nat, t: Cell)
    requires WellFormed(h, k) && v < |h| && k[v] == Data && !h[v].Ref? && !t.Ref? && IsTerm(k, t)
    ensures WellFormed(h[v := t], k)
  {
    var h' := h[v := t];
    forall i | 0 <= i < |h'| ensures CellOk(h', k, i) {
      assert CellOk(h, k, i);
    }
    var n: nat :| EndsWithin(h, k, n);
    forall c: Cell | IsTerm(k, c) ensures Ends(h', c, n) { ReplaceEnds(h, v, t, c, n); }
    assert EndsWithin(h', k, n);
  }

  /** Everything put off can be looked up by now. */
  ghost predicate Ready(s: Source, m: map<Cell, Cell>)
    requires Good(s)
  {
    forall c, i: nat :: c in m && IsTerm(s.kind, c) && i < |Kids(s, c)| && IsNode(Kids(s, c)[i]) ==> Kids(s, c)[i] in m
  }

  /** An argument that can be replaced by the copy of the structure it is. */
  ghost predicate Place(h: seq<Cell>, k: seq<Kind>, m: map<Cell, Cell>, u: (Cell, nat)) {
    && u.0.Str? && SlotAt(u) < |h| && SlotAt(u) < |k| && k[SlotAt(u)] == Data
    && h[SlotAt(u)].Str? && h[SlotAt(u)] in m && m[h[SlotAt(u)]].Str? && IsTerm(k, m[h[SlotAt(u)]])
  }

  /** Arguments that can be replaced, all in different places. */
  ghost predicate Places(h: seq<Cell>, k: seq<Kind>, m: map<Cell, Cell>, cyc: seq<(Cell, nat)>) {
    && (forall p: nat :: p < |cyc| ==> Place(h, k, m, cyc[p]))
    && (forall p: nat, q: nat :: p < |cyc| && q < |cyc| && p != q ==> SlotAt(cyc[p]) != SlotAt(cyc[q]))
  }

  lemma PutOffPlaces(s: Source, h: seq<Cell>, k: seq<Kind>, m: map<Cell, Cell>, share: bool, cyc: seq<(Cell, nat)>)
    requires Good(s) && Building(s, h, k, m, share, cyc) && Ready(s, m)
    ensures Places(h, k, m, cyc)
  {
    forall p: nat | p < |cyc| ensures Place(h, k, m, cyc[p]) {
      var c := PutOffAt(s, h, k, m, share, cyc, p);
      assert h[SlotAt(cyc[p])] in m;
      assert MappedOne(s, h, k, h[SlotAt(cyc[p])], m[h[SlotAt(cyc[p])]]);
    }
    forall p: nat, q: nat | p < |cyc| && q < |cyc| && p != q ensures SlotAt(cyc[p]) != SlotAt(cyc[q]) {
      var c := PutOffAt(s, h, k, m, share, cyc, p);
      var d := PutOffAt(s, h, k, m, share, cyc, q);
      if SlotAt(cyc[p]) == SlotAt(cyc[q]) { SlotsDiffer(s, h, k, m, c, cyc[p].1, d, cyc[q].1); }
    }
  }

  lemma PatchStep(s: Source, h: seq<Cell>, h': seq<Cell>, k: seq<Kind>, m: map<Cell, Cell>, cyc: seq<(Cell, nat)>,
                  j: nat)
    returns (a: nat, v: Cell)
    requires Places(h, k, m, cyc) && Patched(s, h, h', m, cyc, j) && WellFormed(h', k) && j < |cyc|
    ensures a == SlotAt(cyc[j]) < |h'| && h'[a] in m && v == m[h'[a]]
    ensures Patched(s, h, h'[a := v], m, cyc, j + 1) && WellFormed(h'[a := v], k)
  {
    a := SlotAt(cyc[j]);
    assert Place(h, k, m, cyc[j]) && h'[a] == h[a];
    v := m[h[a]];
    ReplaceWellFormed(h', k, a, v);
  }

  /** The place of an argument that is not put off is not patched. */
  lemma NotPatched(s: Source, h: seq<Cell>, h': seq<Cell>, k: seq<Kind>, m: map<Cell, Cell>, share: bool,
                   cyc: seq<(Cell, nat)>, c: Cell, i: nat)
    requires Good(s) && Building(s, h, k, m, share, cyc) && Patched(s, h, h', m, cyc, |cyc|)
    requires forall p: nat :: p < |cyc| ==> cyc[p].0.Str?
    requires c in m && c.Str? && m[c].Str? && IsTerm(s.kind, c) && i < |Kids(s, c)| && (m[c], i) !in cyc
    ensures Arg(h', m[c].index, i) == Arg(h, m[c].index, i)
  {
    assert MappedOne(s, h, k, c, m[c]);
    forall p: nat | p < |cyc| ensures SlotAt(cyc[p]) != SlotAt((m[c], i)) {
      var d := PutOffAt(s, h, k, m, share, cyc, p);
      assert cyc[p] in cyc;
      if SlotAt(cyc[p]) == SlotAt((m[c], i)) { SlotsDiffer(s, h, k, m, d, cyc[p].1, c, i); }
    }
  }

  /** Functors, variables and bignums are not patched. */
  lemma OnlySlotsPatched(s: Source, h: seq<Cell>, h': seq<Cell>, k: seq<Kind>, m: map<Cell, Cell>, share: bool,
                         cyc: seq<(Cell, nat)>)
    requires Good(s) && Building(s, h, k, m, share, cyc) && Patched(s, h, h', m, cyc, |cyc|)
    requires forall p: nat :: p < |cyc| ==> cyc[p].0.Str?
    ensures s.heap <= h' && forall a: nat :: a < |h| && (k[a] != Data || h[a].Ref?) ==> h'[a] == h[a]
  {
    forall p: nat | p < |cyc|
      ensures |s.heap| <= SlotAt(cyc[p]) < |h| && k[SlotAt(cyc[p])] == Data && h[SlotAt(cyc[p])].Str?
    {
      var c := PutOffAt(s, h, k, m, share, cyc, p);
    }
  }

  lemma ImagePatched(s: Source, h: seq<Cell>, h': seq<Cell>, k: seq<Kind>, m: map<Cell, Cell>, share: bool, a: Cell,
                     v: Cell)
    requires Shaped(h, k) && |h'| == |h| && IsTerm(k, v) && Image(s, h, m, share, a, v)
    requires forall x: nat :: x < |h| && k[x] != Data ==> h'[x] == h[x]
    ensures Image(s, h', m, share, a, v)
  {
    if v.Big? {
      assert CellOk(h, k, v.index);
      assert h'[v.index..v.index + NumCells(h[v.index].bits)] == h[v.index..v.index + NumCells(h[v.index].bits)];
    }
  }

  lemma SlotLookedUp(s: Source, h: seq<Cell>, h': seq<Cell>, m: map<Cell, Cell>, cyc: seq<(Cell, nat)>, a: Cell,
                     u: Cell, i: nat)
    requires (forall p: nat :: p < |cyc| ==> cyc[p].0.Str?) && Patched(s, h, h', m, cyc, |cyc|)
    requires u.Str? && (u, i) in cyc && Arg(h, u.index, i) == a
    ensures a in m && Arg(h', u.index, i) == m[a]
  {
    var p: nat :| p < |cyc| && cyc[p] == (u, i);
    assert h'[SlotAt(cyc[p])] == m[h[SlotAt(cyc[p])]];
  }

  lemma SlotPatched(s: Source, h: seq<Cell>, h': seq<Cell>, k: seq<Kind>, m: map<Cell, Cell>, share: bool,
                    cyc: seq<(Cell, nat)>, c: Cell, i: nat)
    requires Good(s) && Building(s, h, k, m, share, cyc) && Patched(s, h, h', m, cyc, |cyc|)
    requires forall p: nat :: p < |cyc| ==> cyc[p].0.Str?
    requires c in m && c.Str? && m[c].Str? && IsTerm(s.kind, c) && i < |Kids(s, c)|
    ensures Image(s, h', m, share, Kids(s, c)[i], Arg(h', m[c].index, i))
  {
    assert MappedOne(s, h, k, c, m[c]) && SlotsOf(s, h, m, share, cyc, c, m[c]);
    assert Slot(s, h, m, share, cyc, Kids(s, c)[i], m[c], i);
    ArgIsTerm(h, k, m[c].index, i);
    if (m[c], i) in cyc {
      SlotLookedUp(s, h, h', m, cyc, Kids(s, c)[i], m[c], i);
    } else {
      NotPatched(s, h, h', k, m, share, cyc, c, i);
      OnlySlotsPatched(s, h, h', k, m, share, cyc);
      ImagePatched(s, h, h', k, m, share, Kids(s, c)[i], Arg(h, m[c].index, i));
    }
  }

  /** When all is patched, the copy is there. */
  lemma CopyDone(s: Source, h: seq<Cell>, h': seq<Cell>, k: seq<Kind>, m: map<Cell, Cell>, share: bool,
                 cyc: seq<(Cell, nat)>, result: Cell)
    requires Good(s) && Building(s, h, k, m, share, cyc) && Patched(s, h, h', m, cyc, |cyc|) && WellFormed(h', k)
    requires forall p: nat :: p < |cyc| ==> cyc[p].0.Str?
    requires Reached(s, m, Top(1)) && IsTerm(k, result) && Image(s, h, m, share, s.root, result)
    ensures Copied(s, h', k, m, share, result)
  {
    OnlySlotsPatched(s, h, h', k, m, share, cyc);
    ImagePatched(s, h, h', k, m, share, s.root, result);
    forall c | c in m ensures MappedOne(s, h', k, c, m[c]) && Extent(h', m[c]) == Extent(h, m[c]) {
      assert MappedOne(s, h, k, c, m[c]);
      if m[c].Str? { assert CellOk(h, k, m[c].index); }
    }
    forall c, d | c in m && d in m && c != d ensures Before(h', m[c], m[d]) || Before(h', m[d], m[c]) {
      assert Before(h, m[c], m[d]) || Before(h, m[d], m[c]);
    }
    forall c, i: nat | c in m && c.Str? && m[c].Str? && IsTerm(s.kind, c) && i < |Kids(s, c)|
      ensures Image(s, h', m, share, Kids(s, c)[i], Arg(h', m[c].index, i))
    {
      SlotPatched(s, h, h', k, m, share, cyc, c, i);
    }
    forall t: set<Cell> | Closed(s, t) && (IsNode(s.root) ==> s.root in t) ensures m.Keys <= t {
      assert Rooted(s, t);
    }
  }

  // ----- what the copy means -----

  /** A tree with its variables renamed. */
  ghost function Renamed(m: map<Cell, Cell>, t: Tree): Tree {
    match t
    case Var(i) => if Ref(i) in m && m[Ref(i)].Ref? then Var(m[Ref(i)].index) else t
    case Node(f, args) => Node(f, RenamedAll(m, args))
    case _ => t
  }

  ghost function RenamedAll(m: map<Cell, Cell>, ts: seq<Tree>): (r: seq<Tree>)
    ensures |r| == |ts| && forall i: nat :: i < |ts| ==> r[i] == Renamed(m, ts[i])
  {
    if ts == [] then [] else [Renamed(m, ts[0])] + RenamedAll(m, ts[1..])
  }

  lemma {:induction false} ValueOfValue(h: seq<Cell>, k: seq<Kind>, c: Cell, n: nat)
    requires WellFormed(h, k) && IsTerm(k, c)
    ensures Unfold(h, k, Value(h, k, c), n) == Unfold(h, k, c, n)
  {
    DerefStep(h, k, Value(h, k, c));
  }

  lemma {:induction false} CopyLeaf(s: Source, h: seq<Cell>, k: seq<Kind>, m: map<Cell, Cell>, share: bool,
                                    result: Cell, a: Cell, v: Cell,
                                    n: nat)
    requires Good(s) && Copied(s, h, k, m, share, result) && n > 0 && !a.Str?
    requires IsTerm(s.kind, a) && (a.Ref? ==> s.heap[a.index] == a) && IsTerm(k, v) && Image(s, h, m, share, a, v)
    ensures Unfold(h, k, v, n) == Renamed(m, Unfold(s.heap, s.kind, a, n))
  {
    if a.Ref? { assert MappedOne(s, h, k, a, m[a]); }
    DerefStep(s.heap, s.kind, a);
    DerefStep(h, k, v);
    if a.Big? && share { SharedBig(s, h, k, a); }
  }

  lemma CopyNode(s: Source, h: seq<Cell>, k: seq<Kind>, m: map<Cell, Cell>, share: bool, result: Cell, a: Cell)
    requires Good(s) && Copied(s, h, k, m, share, result) && IsTerm(s.kind, a) && a.Str? && a in m
    ensures m[a].Str? && IsTerm(k, m[a]) && h[m[a].index] == s.heap[a.index] && s.heap[a.index].Con?
    ensures Value(h, k, m[a]) == m[a] && Value(s.heap, s.kind, a) == a
    ensures forall j: nat :: j < |Kids(s, a)| ==>
              IsTerm(k, Arg(h, m[a].index, j)) && Image(s, h, m, share, Kids(s, a)[j], Arg(h, m[a].index, j))
  {
    assert MappedOne(s, h, k, a, m[a]);
    DerefStep(s.heap, s.kind, a);
    DerefStep(h, k, m[a]);
    ArgsAreTerms(h, k, m[a].index);
  }

  /** The copy of a term denotes the tree of the term with its variables renamed, cyclic or not. */
  lemma {:induction false} CopyTree(s: Source, h: seq<Cell>, k: seq<Kind>, m: map<Cell, Cell>, share: bool,
                                    result: Cell, a: Cell, v: Cell, n: nat)
    requires Good(s) && Copied(s, h, k, m, share, result)
    requires IsTerm(s.kind, a) && (a.Ref? ==> s.heap[a.index] == a) && IsTerm(k, v) && Image(s, h, m, share, a, v)
    ensures Unfold(h, k, v, n) == Renamed(m, Unfold(s.heap, s.kind, a, n))
    decreases n, 1
  {
    if n > 0 && a.Str? {
      CopyNode(s, h, k, m, share, result, a);
      CopyTreeArgs(s, h, k, m, share, result, a, n - 1);
    } else if n > 0 {
      CopyLeaf(s, h, k, m, share, result, a, v, n);
    }
  }

  lemma {:induction false} CopyTreeArgs(s: Source, h: seq<Cell>, k: seq<Kind>, m: map<Cell, Cell>, share: bool,
                                        result: Cell, a: Cell, n: nat)
    requires Good(s) && Copied(s, h, k, m, share, result) && IsTerm(s.kind, a) && a.Str? && a in m
    requires m[a].Str? && IsTerm(k, m[a]) && h[m[a].index] == s.heap[a.index]
    ensures UnfoldArgs(h, k, m[a].index, n) == RenamedAll(m, UnfoldArgs(s.heap, s.kind, a.index, n))
    decreases n, 2
  {
    CopyNode(s, h, k, m, share, result, a);
    var ts, ts' := UnfoldArgs(s.heap, s.kind, a.index, n), UnfoldArgs(h, k, m[a].index, n);
    forall j: nat | j < |ts| ensures ts'[j] == Renamed(m, ts[j]) {
      ValueOfValue(s.heap, s.kind, Arg(s.heap, a.index, j), n);
      CopyTree(s, h, k, m, share, result, Kids(s, a)[j], Arg(h, m[a].index, j), n);
    }
  }

  /** What stands for a bignum is an equal bignum: a new one unless bignums are shared. */
  lemma {:induction false} NumberCopied(s: Source, h: seq<Cell>, m: map<Cell, Cell>, share: bool, a: Cell, v: Cell)
    requires Good(s) && s.heap <= h && a.Big? && IsTerm(s.kind, a) && Image(s, h, m, share, a, v)
    ensures v.Big? && SameNumber(s.heap, a.index, h, v.index) && if share then v == a else |s.heap| <= v.index
  {
    assert CellOk(s.heap, s.kind, a.index);
    NumCellsLeast(s.heap[a.index].bits, 1);
    SharedBig(s, h, s.kind, a);
    BigDataSame(s.heap, a.index, h, v.index);
  }

  lemma SharedBig(s: Source, h: seq<Cell>, k: seq<Kind>, a: Cell)
    requires Good(s) && s.heap <= h && a.Big? && IsTerm(s.kind, a)
    ensures BigData(h, a.index) == BigData(s.heap, a.index)
  {
    assert CellOk(s.heap, s.kind, a.index);
  }
}
