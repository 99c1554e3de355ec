/** Reading what was written gives the same term again. */
module SerialRoundTrip {
  import opened Cells
  import opened CopyGraph
  import opened IntegrityCheck
  import opened Options
  import opened RationalTrees
  import opened SerialForm
  import opened StringChunks
  import opened TermEnvironment
  import TermReader
  import TermWriter

  // ----- the header is parsed back -----

  /** The entries of a header as they are read. */
  function Pairs(es: seq<Entry>): (r: seq<(Cell, Text)>)
    ensures |r| == |es|
  {
    seq(|es|, i requires 0 <= i < |es| => (HeadWord(es[i], EntryAt(es, i)), es[i].name))
  }

  lemma {:induction false} EntryStep(es: seq<Entry>, i: nat)
    requires i < |es|
    ensures HeaderWords(es[..i + 1]) == HeaderWords(es[..i]) + EntryWords(es[i], EntryAt(es, i))
    ensures EntryAt(es, i + 1) == EntryAt(es, i) + 1 + |Encoded(es[i].name)|
  {
    assert es[..i + 1][..i] == es[..i];
  }

  lemma {:induction false} HeaderPrefix(es: seq<Entry>, i: nat)
    requires i <= |es|
    ensures HeaderWords(es[..i]) <= HeaderWords(es)
    decreases |es| - i
  {
    if i == |es| {
      assert es[..i] == es;
    } else {
      EntryStep(es, i);
      HeaderPrefix(es, i + 1);
    }
  }

  /** The words of the `i`-th entry in a buffer that begins with the header. */
  lemma {:induction false} EntryWordsAt(es: seq<Entry>, b: seq<Cell>, i: nat)
    requires i < |es| && HeaderWords(es) + [PAMER] <= b
    ensures EntryAt(es, i) < EntryAt(es, i + 1) <= |HeaderWords(es)| < |b|
    ensures b[EntryAt(es, i)] == HeadWord(es[i], EntryAt(es, i))
    ensures HasAt(TermReader.Ints(b), EntryAt(es, i) + 1, Encoded(es[i].name))
  {
    EntryStep(es, i);
    HeaderPrefix(es, i + 1);
    var at, head := EntryAt(es, i), HeaderWords(es[..i + 1]);
    forall k: nat | k < |head| ensures b[k] == head[k] { assert HeaderWords(es)[k] == head[k]; }
    assert head[at] == HeadWord(es[i], at);
    forall k: nat | k < |Encoded(es[i].name)| ensures TermReader.Ints(b)[at + 1 + k] == Some(Encoded(es[i].name)[k]) {
      assert head[at + 1 + k] == Int(Encoded(es[i].name)[k]);
    }
  }

  ghost predicate NamesReadable(es: seq<Entry>) {
    forall i: nat :: i < |es| ==> Readable(es[i].name)
  }

  lemma {:induction false} ParseOne(b: seq<Cell>, at: nat, name: Text, next: nat, rest: seq<(Cell, Text)>, end: nat)
    requires at < |b| && b[at] != PAMER && (b[at].Ref? || b[at].Con?)
    requires ReadText(TermReader.Ints(b), at + 1) == Some((name, next))
    requires next <= |b| && TermReader.ParseHeader(b, next) == TermReader.Ok((rest, end))
    ensures TermReader.ParseHeader(b, at) == TermReader.Ok(([(b[at], name)] + rest, end))
  {
  }

  function PairsFrom(es: seq<Entry>, i: nat): seq<(Cell, Text)>
    requires i <= |es|
    decreases |es| - i
  {
    if i == |es| then [] else [(HeadWord(es[i], EntryAt(es, i)), es[i].name)] + PairsFrom(es, i + 1)
  }

  lemma {:induction false} PairsAll(es: seq<Entry>, i: nat)
    requires i <= |es|
    ensures PairsFrom(es, i) == Pairs(es)[i..]
    decreases |es| - i
  {
    if i < |es| {
      PairsAll(es, i + 1);
      assert Pairs(es)[i..] == [Pairs(es)[i]] + Pairs(es)[i + 1..];
    }
  }

  ghost predicate Parses(es: seq<Entry>, b: seq<Cell>, i: nat)
    requires i <= |es|
  {
    EntryAt(es, i) <= |b| && TermReader.ParseHeader(b, EntryAt(es, i)) == TermReader.Ok((PairsFrom(es, i), BodyAt(es)))
  }

  lemma {:induction false} ParseEnd(es: seq<Entry>, b: seq<Cell>)
    requires HeaderWords(es) + [PAMER] <= b
    ensures Parses(es, b, |es|)
  {
    assert es[..|es|] == es;
    assert b[|HeaderWords(es)|] == PAMER;
  }

  lemma {:induction false} HeadIsEntry(s: Source, nm: Naming, es: seq<Entry>, b: seq<Cell>, i: nat)
    requires HeaderOk(s, nm, es) && HeaderWords(es) + [PAMER] <= b && |b| <= DIRECT && i < |es|
    ensures EntryAt(es, i) < EntryAt(es, i + 1) <= |b| && b[EntryAt(es, i)] == HeadWord(es[i], EntryAt(es, i)) != PAMER
    ensures b[EntryAt(es, i)].Ref? || b[EntryAt(es, i)].Con?
  {
    EntryWordsAt(es, b, i);
    assert EntryOk(s, nm, es[i]);
  }

  lemma {:induction false} NameIsRead(es: seq<Entry>, b: seq<Cell>, i: nat)
    requires HeaderWords(es) + [PAMER] <= b && i < |es| && Readable(es[i].name)
    ensures EntryAt(es, i) < |b|
    ensures ReadText(TermReader.Ints(b), EntryAt(es, i) + 1) == Some((es[i].name, EntryAt(es, i + 1)))
  {
    EntryWordsAt(es, b, i);
    EntryStep(es, i);
    NameAt(es[i].name, TermReader.Ints(b), EntryAt(es, i) + 1, EntryAt(es, i + 1));
  }

  lemma {:induction false} NameAt(name: Text, vs: seq<Option<int>>, at: nat, next: nat)
    requires Readable(name) && HasAt(vs, at, Encoded(name)) && next == at + |Encoded(name)|
    ensures ReadText(vs, at) == Some((name, next))
  {
    ReadBack(name, vs, at);
  }

  /** The `i`-th entry is read. */
  lemma {:induction false} EntryRead(s: Source, nm: Naming, es: seq<Entry>, b: seq<Cell>, i: nat)
    requires HeaderOk(s, nm, es) && NamesReadable(es) && HeaderWords(es) + [PAMER] <= b && |b| <= DIRECT && i < |es|
    requires Parses(es, b, i + 1)
    ensures Parses(es, b, i)
  {
    HeadIsEntry(s, nm, es, b, i);
    NameIsRead(es, b, i);
    EntryReadFrom(es, b, i);
  }

  lemma {:induction false} EntryReadFrom(es: seq<Entry>, b: seq<Cell>, i: nat)
    requires i < |es| && EntryAt(es, i) < |b| && b[EntryAt(es, i)] == HeadWord(es[i], EntryAt(es, i)) != PAMER
    requires b[EntryAt(es, i)].Ref? || b[EntryAt(es, i)].Con?
    requires ReadText(TermReader.Ints(b), EntryAt(es, i) + 1) == Some((es[i].name, EntryAt(es, i + 1)))
    requires Parses(es, b, i + 1)
    ensures Parses(es, b, i)
  {
    ParseOne(b, EntryAt(es, i), es[i].name, EntryAt(es, i + 1), PairsFrom(es, i + 1), BodyAt(es));
  }

  lemma {:induction false} ParseEntries(s: Source, nm: Naming, es: seq<Entry>, b: seq<Cell>, i: nat)
    requires HeaderOk(s, nm, es) && NamesReadable(es) && HeaderWords(es) + [PAMER] <= b && |b| <= DIRECT && i <= |es|
    ensures Parses(es, b, i)
    decreases |es| - i
  {
    if i == |es| {
      ParseEnd(es, b);
    } else {
      ParseEntries(s, nm, es, b, i + 1);
      EntryRead(s, nm, es, b, i);
    }
  }

  /** The header is read back as it was written if and only if its names are readable. */
  lemma {:induction false} HeaderParsed(s: Source, nm: Naming, es: seq<Entry>, b: seq<Cell>)
    requires HeaderOk(s, nm, es) && HeaderWords(es) + [PAMER] <= b && |b| <= DIRECT
    ensures 2 <= |b| && TermReader.HeaderEnd(b).Ok? == TermReader.ParseHeader(b, 2).Ok?
    ensures TermReader.ParseHeader(b, 2) == TermReader.Ok((Pairs(es), BodyAt(es))) <==> NamesReadable(es)
    ensures NamesReadable(es) ==> TermReader.HeaderEnd(b) == TermReader.Ok(BodyAt(es))
  {
    PairsAll(es, 0);
    assert es[..0] == [] && EntryAt(es, 0) == 2 && Pairs(es)[0..] == Pairs(es);
    assert b[0] == HeaderWords(es)[0] && b[1] == HeaderWords(es)[1];
    if NamesReadable(es) { ParseEntries(s, nm, es, b, 0); }
    if Parses(es, b, 0) { ParsedReadable(s, nm, es, b, 0); }
  }

  /** An empty name is not read: no integer cell is written for it. */
  lemma {:induction false} EmptyNotRead(s: Source, nm: Naming, es: seq<Entry>, b: seq<Cell>, i: nat)
    requires HeaderOk(s, nm, es) && HeaderWords(es) + [PAMER] <= b && |b| <= DIRECT && i < |es| && es[i].name == []
    ensures EntryAt(es, i) < |b| && ReadText(TermReader.Ints(b), EntryAt(es, i) + 1) == None
  {
    EntryWordsAt(es, b, i);
    EntryStep(es, i);
    NextNoInt(s, nm, es, b, i + 1);
  }

  /** What comes behind an entry is no integer cell. */
  lemma {:induction false} NextNoInt(s: Source, nm: Naming, es: seq<Entry>, b: seq<Cell>, i: nat)
    requires HeaderOk(s, nm, es) && HeaderWords(es) + [PAMER] <= b && |b| <= DIRECT && i <= |es|
    ensures EntryAt(es, i) < |b| && !b[EntryAt(es, i)].Int?
  {
    if i < |es| {
      HeadIsEntry(s, nm, es, b, i);
    } else {
      assert es[..i] == es;
      assert b[|HeaderWords(es)|] == PAMER;
    }
  }

  lemma {:induction false} NameRight(s: Source, nm: Naming, es: seq<Entry>, b: seq<Cell>, i: nat)
    requires HeaderOk(s, nm, es) && HeaderWords(es) + [PAMER] <= b && |b| <= DIRECT && i < |es|
    requires EntryAt(es, i) < |b| && ReadText(TermReader.Ints(b), EntryAt(es, i) + 1).Some?
    requires ReadText(TermReader.Ints(b), EntryAt(es, i) + 1).value.0 == es[i].name
    ensures Readable(es[i].name)
  {
    if es[i].name == [] {
      EmptyNotRead(s, nm, es, b, i);
    } else {
      EntryWordsAt(es, b, i);
      ReadBack(es[i].name, TermReader.Ints(b), EntryAt(es, i) + 1);
    }
  }

  lemma {:induction false} ParsedOne(b: seq<Cell>, at: nat, all: seq<(Cell, Text)>, end: nat) returns (next: nat)
    requires at < |b| && b[at] != PAMER && TermReader.ParseHeader(b, at) == TermReader.Ok((all, end))
    ensures all != [] && ReadText(TermReader.Ints(b), at + 1) == Some((all[0].1, next)) && next <= |b|
    ensures TermReader.ParseHeader(b, next) == TermReader.Ok((all[1..], end))
  {
    var text := ReadText(TermReader.Ints(b), at + 1).value;
    next := text.1;
    assert all[0] == (b[at], text.0) && all[1..] == TermReader.ParseHeader(b, next).value.0;
  }

  lemma {:induction false} PairsFromParts(es: seq<Entry>, i: nat)
    requires i < |es|
    ensures PairsFrom(es, i) != [] && PairsFrom(es, i)[0].1 == es[i].name
    ensures PairsFrom(es, i)[1..] == PairsFrom(es, i + 1)
  {
  }

  lemma {:induction false} EntryTaken(es: seq<Entry>, b: seq<Cell>, i: nat) returns (next: nat)
    requires i < |es| && Parses(es, b, i) && EntryAt(es, i) < |b| && b[EntryAt(es, i)] != PAMER
    ensures ReadText(TermReader.Ints(b), EntryAt(es, i) + 1) == Some((es[i].name, next))
    ensures next <= |b| && TermReader.ParseHeader(b, next) == TermReader.Ok((PairsFrom(es, i + 1), BodyAt(es)))
  {
    next := ParsedOne(b, EntryAt(es, i), PairsFrom(es, i), BodyAt(es));
    PairsFromParts(es, i);
  }

  /** An entry that is read as it was written has a readable name, and the rest is read too. */
  lemma {:induction false} EntryParsed(s: Source, nm: Naming, es: seq<Entry>, b: seq<Cell>, i: nat)
    requires HeaderOk(s, nm, es) && HeaderWords(es) + [PAMER] <= b && |b| <= DIRECT && i < |es| && Parses(es, b, i)
    ensures Readable(es[i].name) && Parses(es, b, i + 1)
  {
    HeadIsEntry(s, nm, es, b, i);
    var next := EntryTaken(es, b, i);
    NameRight(s, nm, es, b, i);
    NameIsRead(es, b, i);
    assert next == EntryAt(es, i + 1);
  }

  lemma {:induction false} ParsedReadable(s: Source, nm: Naming, es: seq<Entry>, b: seq<Cell>, i: nat)
    requires HeaderOk(s, nm, es) && HeaderWords(es) + [PAMER] <= b && |b| <= DIRECT && i <= |es| && Parses(es, b, i)
    ensures forall j: nat :: i <= j < |es| ==> Readable(es[j].name)
    decreases |es| - i
  {
    if i < |es| {
      EntryParsed(s, nm, es, b, i);
      ParsedReadable(s, nm, es, b, i + 1);
    }
  }

  // ----- what reading the header does -----

  /** What stands for the `i`-th entry in the reader's index. */
  function ReadKey(es: seq<Entry>, i: nat): Cell
    requires i < |es|
  {
    var p := EntryAt(es, i);
    if es[i].key.Con? then ToAtom(Functor(p, es[i].arity)) else Ref(p)
  }

  /** The `i`-th entry has been resolved: its atom has the same name in the other table, its variable
      is a new one with the same name. */
  ghost predicate Resolved(es: seq<Entry>, h0: seq<Cell>, st: TermReader.State, i: nat)
    requires i < |es|
  {
    ReadKey(es, i) in st.index &&
    var x := st.index[ReadKey(es, i)];
    if es[i].key.Con? then x < |st.atoms| && st.atoms[x] == es[i].name
    else |h0| <= x < |st.heap| && Ref(x) in st.vars && st.vars[Ref(x)] == es[i].name
  }

  ghost predicate KeysOnly(es: seq<Entry>, n: nat, index: map<Cell, nat>)
    requires n <= |es|
  {
    forall c :: c in index ==> exists i: nat :: i < n && c == ReadKey(es, i)
  }

  /** New variables come one after the other. */
  ghost predicate Ascending(es: seq<Entry>, n: nat, index: map<Cell, nat>)
    requires n <= |es|
  {
    forall i: nat, j: nat :: i < j < n ==> InOrder(es, index, i, j)
  }

  ghost predicate InOrder(es: seq<Entry>, index: map<Cell, nat>, i: nat, j: nat)
    requires i < |es| && j < |es|
  {
    es[i].key.Ref? && es[j].key.Ref? && ReadKey(es, i) in index && ReadKey(es, j) in index ==>
      index[ReadKey(es, i)] < index[ReadKey(es, j)]
  }

  ghost predicate HeaderLoaded(es: seq<Entry>, st0: TermReader.State, n: nat, st: TermReader.State)
    requires n <= |es|
  {
    && st0.heap <= st.heap && (forall p: nat :: |st0.heap| <= p < |st.heap| ==> st.heap[p] == Ref(p))
    && st0.atoms <= st.atoms && |st.atoms| <= |st0.atoms| + n
    && (forall i: nat :: i < n ==> Resolved(es, st0.heap, st, i))
    && KeysOnly(es, n, st.index) && Ascending(es, n, st.index)
  }

  lemma {:induction false} EntriesGrow(es: seq<Entry>, i: nat, j: nat)
    requires i < j <= |es|
    ensures EntryAt(es, i) < EntryAt(es, j)
    decreases j
  {
    EntryStep(es, j - 1);
    if i < j - 1 { EntriesGrow(es, i, j - 1); }
  }

  lemma {:induction false} LoadAppend(st: TermReader.State, xs: seq<(Cell, Text)>, n: nat)
    requires n < |xs|
    ensures TermReader.LoadAll(st, xs[..n + 1]) == TermReader.LoadEntry(TermReader.LoadAll(st, xs[..n]), xs[n])
    decreases n
  {
    if n == 0 {
      assert xs[..1] == [xs[0]] && xs[..0] == [] && xs[..1][1..] == [];
    } else {
      var ys := xs[1..];
      LoadAppend(TermReader.LoadEntry(st, xs[0]), ys, n - 1);
      assert xs[..n + 1][1..] == ys[..n] && xs[..n][1..] == ys[..n - 1];
      assert xs[..n + 1][0] == xs[0] && xs[..n][0] == xs[0];
    }
  }

  /** Keys of different entries are different. */
  lemma {:induction false} ReadKeysDiffer(es: seq<Entry>, i: nat, j: nat)
    requires i < j < |es|
    ensures ReadKey(es, i) != ReadKey(es, j)
  {
    EntriesGrow(es, i, j);
  }

  lemma {:induction false} KeyIsNew(es: seq<Entry>, st0: TermReader.State, n: nat, st: TermReader.State)
    requires n < |es| && HeaderLoaded(es, st0, n, st)
    ensures ReadKey(es, n) !in st.index
  {
    if ReadKey(es, n) in st.index {
      var i: nat :| i < n && ReadKey(es, n) == ReadKey(es, i);
      ReadKeysDiffer(es, i, n);
    }
  }

  /** Earlier entries stay resolved. */
  lemma {:induction false} ResolvedStays(es: seq<Entry>, h0: seq<Cell>, st: TermReader.State, st': TermReader.State,
                                         i: nat, n: nat)
    requires i < n < |es| && Resolved(es, h0, st, i) && ReadKey(es, n) !in st.index
    requires st' == TermReader.LoadEntry(st, Pairs(es)[n]) && (es[n].key.Con? || es[n].key.Ref?)
    ensures Resolved(es, h0, st', i) && st'.index[ReadKey(es, i)] == st.index[ReadKey(es, i)]
  {
    ReadKeysDiffer(es, i, n);
  }

  lemma {:induction false} NowResolved(es: seq<Entry>, h0: seq<Cell>, st: TermReader.State, st': TermReader.State,
                                       n: nat)
    requires n < |es| && ReadKey(es, n) !in st.index && |h0| <= |st.heap|
    requires st' == TermReader.LoadEntry(st, Pairs(es)[n]) && (es[n].key.Con? || es[n].key.Ref?)
    ensures Resolved(es, h0, st', n) && st'.index.Keys == st.index.Keys + {ReadKey(es, n)}
    ensures es[n].key.Ref? ==> st'.index[ReadKey(es, n)] == |st.heap|
  {
  }

  lemma {:induction false} KeysMore(es: seq<Entry>, n: nat, index: map<Cell, nat>, index': map<Cell, nat>)
    requires n < |es| && KeysOnly(es, n, index) && index'.Keys == index.Keys + {ReadKey(es, n)}
    ensures KeysOnly(es, n + 1, index')
  {
    forall c | c in index' ensures exists i: nat :: i < n + 1 && c == ReadKey(es, i) {
      if c in index {
        var i: nat :| i < n && c == ReadKey(es, i);
      }
    }
  }

  /** One more entry is read. */
  ghost predicate OneLoaded(s: Source, nm: Naming, es: seq<Entry>, st0: TermReader.State, n: nat, st: TermReader.State,
                            st': TermReader.State) {
    && n < |es| && HeaderOk(s, nm, es) && HeaderLoaded(es, st0, n, st) && ReadKey(es, n) !in st.index
    && st' == TermReader.LoadEntry(st, Pairs(es)[n]) && (es[n].key.Con? || es[n].key.Ref?)
  }

  lemma {:induction false} ResolvedMore(s: Source, nm: Naming, es: seq<Entry>, st0: TermReader.State, n: nat,
                                        st: TermReader.State,
                                        st': TermReader.State, i: nat)
    requires OneLoaded(s, nm, es, st0, n, st, st') && i < n + 1
    ensures Resolved(es, st0.heap, st', i)
  {
    if i < n {
      assert Resolved(es, st0.heap, st, i);
      ResolvedStays(es, st0.heap, st, st', i, n);
    } else {
      NowResolved(es, st0.heap, st, st', n);
    }
  }

  lemma {:induction false} InOrderOld(es: seq<Entry>, h0: seq<Cell>, st: TermReader.State, st': TermReader.State,
                                      i: nat, j: nat,
                                      n: nat)
    requires i < j < n < |es| && Resolved(es, h0, st, i) && Resolved(es, h0, st, j) && InOrder(es, st.index, i, j)
    requires ReadKey(es, n) !in st.index && st' == TermReader.LoadEntry(st, Pairs(es)[n]) &&
             (es[n].key.Con? || es[n].key.Ref?)
    ensures InOrder(es, st'.index, i, j)
  {
    ResolvedStays(es, h0, st, st', i, n);
    ResolvedStays(es, h0, st, st', j, n);
  }

  lemma {:induction false} InOrderNew(es: seq<Entry>, h0: seq<Cell>, st: TermReader.State, st': TermReader.State,
                                      i: nat, n: nat)
    requires i < n < |es| && Resolved(es, h0, st, i) && |h0| <= |st.heap|
    requires ReadKey(es, n) !in st.index && st' == TermReader.LoadEntry(st, Pairs(es)[n]) &&
             (es[n].key.Con? || es[n].key.Ref?)
    ensures InOrder(es, st'.index, i, n)
  {
    ResolvedStays(es, h0, st, st', i, n);
    NowResolved(es, h0, st, st', n);
  }

  lemma {:induction false} PairInOrder(es: seq<Entry>, h0: seq<Cell>, st: TermReader.State, st': TermReader.State,
                                       i: nat, j: nat,
                                       n: nat)
    requires i < j <= n < |es| && Resolved(es, h0, st, i) && |h0| <= |st.heap|
    requires j < n ==> Resolved(es, h0, st, j) && InOrder(es, st.index, i, j)
    requires ReadKey(es, n) !in st.index && st' == TermReader.LoadEntry(st, Pairs(es)[n]) &&
             (es[n].key.Con? || es[n].key.Ref?)
    ensures InOrder(es, st'.index, i, j)
  {
    if j < n { InOrderOld(es, h0, st, st', i, j, n); } else { InOrderNew(es, h0, st, st', i, n); }
  }

  lemma {:induction false} AscendingMore(es: seq<Entry>, h0: seq<Cell>, st: TermReader.State, st': TermReader.State,
                                         n: nat)
    requires n < |es| && (forall i: nat :: i < n ==> Resolved(es, h0, st, i)) && Ascending(es, n, st.index) &&
             |h0| <= |st.heap|
    requires ReadKey(es, n) !in st.index && st' == TermReader.LoadEntry(st, Pairs(es)[n]) &&
             (es[n].key.Con? || es[n].key.Ref?)
    ensures Ascending(es, n + 1, st'.index)
  {
    forall i: nat, j: nat | i < j < n + 1 ensures InOrder(es, st'.index, i, j) {
      assert Resolved(es, h0, st, i);
      PairInOrder(es, h0, st, st', i, j, n);
    }
  }

  lemma {:induction false} HeapMore(st: TermReader.State, x: (Cell, Text), st': TermReader.State)
    requires st' == TermReader.LoadEntry(st, x)
    ensures st.heap <= st'.heap && (forall p: nat :: |st.heap| <= p < |st'.heap| ==> st'.heap[p] == Ref(p))
    ensures st.atoms <= st'.atoms && |st'.atoms| <= |st.atoms| + 1
  {
  }

  lemma {:induction false} LoadOne(s: Source, nm: Naming, es: seq<Entry>, st0: TermReader.State, n: nat,
                                   st: TermReader.State)
    requires n < |es| && HeaderOk(s, nm, es) && HeaderLoaded(es, st0, n, st)
    ensures HeaderLoaded(es, st0, n + 1, TermReader.LoadEntry(st, Pairs(es)[n]))
  {
    var st' := TermReader.LoadEntry(st, Pairs(es)[n]);
    assert EntryOk(s, nm, es[n]);
    KeyIsNew(es, st0, n, st);
    NowResolved(es, st0.heap, st, st', n);
    HeapMore(st, Pairs(es)[n], st');
    KeysMore(es, n, st.index, st'.index);
    forall i: nat | i < n + 1 ensures Resolved(es, st0.heap, st', i) { ResolvedMore(s, nm, es, st0, n, st, st', i); }
    AscendingMore(es, st0.heap, st, st', n);
  }

  lemma {:induction false} HeaderLoads(s: Source, nm: Naming, es: seq<Entry>, st0: TermReader.State, n: nat)
    requires n <= |es| && HeaderOk(s, nm, es) && st0.index == map[]
    ensures HeaderLoaded(es, st0, n, TermReader.LoadAll(st0, Pairs(es)[..n]))
    decreases n
  {
    if n > 0 {
      HeaderLoads(s, nm, es, st0, n - 1);
      LoadAppend(st0, Pairs(es), n - 1);
      LoadOne(s, nm, es, st0, n - 1, TermReader.LoadAll(st0, Pairs(es)[..n - 1]));
    } else {
      assert Pairs(es)[..0] == [];
    }
  }

  // ----- where words of a buffer go -----

  /** A word that is no functor and no header. */
  predicate ArgWord(b: seq<Cell>, q: nat) {
    q < |b| && !b[q].Dat? && !b[q].Fwd? && (b[q].Con? ==> b[q].functor.arity == 0)
  }

  lemma {:induction false} NextAt(b: seq<Cell>, hdr: nat, base: nat, q: nat)
    requires hdr <= q && ArgWord(b, q) && TermReader.Tagged(b, hdr, base, q)
    ensures TermReader.PlaceOf(b, hdr, base, q) == TermReader.Scan(b, hdr, base, q).at
    ensures TermReader.Scan(b, hdr, base, q + 1) == TermReader.Cursor(TermReader.PlaceOf(b, hdr, base, q) + 1, 0)
  {
  }

  /** The arguments of a structure follow its functor. */
  lemma {:induction false} ArgsFollow(b: seq<Cell>, hdr: nat, base: nat, p: nat, n: nat, q: nat)
    requires hdr <= p && p + n < |b| && b[p].Con? && TermReader.Tagged(b, hdr, base, p) && p < q <= p + n + 1
    requires forall r: nat :: p < r <= p + n ==> ArgWord(b, r)
    ensures TermReader.Scan(b, hdr, base, q) == TermReader.Cursor(TermReader.PlaceOf(b, hdr, base, p) + (q - p), 0)
    ensures q <= p + n ==> TermReader.PlaceOf(b, hdr, base, q) == TermReader.PlaceOf(b, hdr, base, p) + (q - p)
    decreases q
  {
    if q > p + 1 {
      ArgsFollow(b, hdr, base, p, n, q - 1);
      assert ArgWord(b, q - 1);
      NextAt(b, hdr, base, q - 1);
    }
    if q <= p + n {
      assert ArgWord(b, q);
      NextAt(b, hdr, base, q);
    }
  }

  /** After a bignum come cells again. */
  lemma {:induction false} AfterBig(b: seq<Cell>, hdr: nat, base: nat, p: nat)
    requires hdr <= p < |b| && b[p].Dat? && p + NumCells(b[p].bits) <= |b| && TermReader.Tagged(b, hdr, base, p)
    ensures TermReader.Tagged(b, hdr, base, p + NumCells(b[p].bits))
  {
    var n := NumCells(b[p].bits);
    TermReader.PayloadFollows(b, hdr, base, p, n - 1);
    assert p + (n - 1) + 1 == p + n;
  }

  // ----- what is in a finished buffer -----

  /** The bignums of the term have at least one bit. */
  ghost predicate BitsPositive(s: Source, t: Form) {
    forall g :: g in t.gs && g.Big? && g.index < |s.heap| && s.heap[g.index].Dat? ==> s.heap[g.index].bits >= 1
  }

  /** A place for a term has the term's word in it, no functor and no payload. */
  ghost predicate PlainAt(t: Form, q: nat) {
    q in t.slots && BodyAt(t.es) <= q && q !in t.fixed && ArgWord(t.buf, q) && t.buf[q] == Word(t.m, t.slots[q])
  }

  lemma {:induction false} SlotPlain(s: Source, nm: Naming, t: Form, q: nat)
    requires Good(s) && Serial(s, nm, t) && q in t.slots
    ensures PlainAt(t, q) && Known(t.m, t.slots[q]) && SlotTerm(s, t.slots[q])
  {
    assert SlotOk(s, t, q) && SlotDone(t, q);
  }

  /** Group `i` is a structure or a bignum at `p`. */
  ghost predicate StrLaid(s: Source, t: Form, g: Cell, p: nat)
    requires Good(s)
  {
    && g.Str? && IsTerm(s.kind, g) && s.heap[g.index].Con? && g in t.m && t.m[g] == p && p in t.fixed &&
      BodyAt(t.es) <= p
    && p + |Kids(s, g)| < |t.buf| && Known(t.m, s.heap[g.index]) && t.buf[p] == Word(t.m, s.heap[g.index])
    && forall q: nat :: p < q <= p + |Kids(s, g)| ==> PlainAt(t, q) && t.slots[q] == Kids(s, g)[q - p - 1]
  }

  ghost predicate BigLaid(s: Source, t: Form, g: Cell, p: nat) {
    && g.Big? && IsTerm(s.kind, g) && g in t.m && t.m[g] == p && BodyAt(t.es) <= p < |t.buf| && t.buf[p].Dat?
    && p + NumCells(t.buf[p].bits) <= |t.buf| && t.buf[p..p + NumCells(t.buf[p].bits)] == BigData(s.heap, g.index)
    && forall q: nat :: p <= q < p + NumCells(t.buf[p].bits) ==> q in t.fixed
  }

  lemma {:induction false} KidIsLaid(s: Source, nm: Naming, t: Form, g: Cell, p: nat, q: nat)
    requires Good(s) && Serial(s, nm, t) && IsTerm(s.kind, g) && g.Str? && p < q <= p + |Kids(s, g)|
    requires SlotIs(t, q, Kids(s, g)[q - p - 1])
    ensures PlainAt(t, q) && t.slots[q] == Kids(s, g)[q - p - 1]
  {
    SlotPlain(s, nm, t, q);
  }

  lemma {:induction false} KidSlots(s: Source, t: Form, g: Cell, p: nat, q: nat)
    requires Good(s) && IsTerm(s.kind, g) && g.Str? && StrAt(s, t, g, p) && p < q <= p + |Kids(s, g)|
    ensures SlotIs(t, q, Kids(s, g)[q - p - 1])
  {
    var k: nat := q - p - 1;
    assert SlotIs(t, p + 1 + k, Kids(s, g)[k]);
    assert p + 1 + k == q;
  }

  lemma {:induction false} StrIsLaid(s: Source, nm: Naming, t: Form, g: Cell, p: nat)
    requires Good(s) && Serial(s, nm, t) && GroupAt(s, t, g, p) && g.Str? && BodyAt(t.es) <= p
    ensures StrLaid(s, t, g, p)
  {
    assert StrAt(s, t, g, p);
    forall q: nat | p < q <= p + |Kids(s, g)| ensures PlainAt(t, q) && t.slots[q] == Kids(s, g)[q - p - 1] {
      KidSlots(s, t, g, p, q);
      KidIsLaid(s, nm, t, g, p, q);
    }
    FunctorThere(s, g);
  }

  lemma {:induction false} FunctorThere(s: Source, g: Cell)
    requires Good(s) && IsTerm(s.kind, g) && g.Str?
    ensures s.heap[g.index].Con? && s.heap[g.index].functor.arity == |Kids(s, g)|
  {
    assert CellOk(s.heap, s.kind, g.index);
  }

  lemma {:induction false} BigIsLaid(s: Source, t: Form, g: Cell, p: nat)
    requires Good(s) && GroupAt(s, t, g, p) && g.Big? && BodyAt(t.es) <= p
    ensures BigLaid(s, t, g, p)
  {
    var d := BigData(s.heap, g.index);
    assert BigAt(s, t, g, p);
    assert t.buf[p] == t.buf[p..p + |d|][0];
  }

  /** Where the `i`-th group is and where it ends. */
  ghost predicate GroupLaid(s: Source, t: Form, i: nat)
    requires Good(s) && i < |t.gs|
  {
    var g, p := t.gs[i], GroupStart(s, BodyAt(t.es), t.gs, i);
    && GroupStart(s, BodyAt(t.es), t.gs, i + 1) == p + GroupSize(s, g)
    && if g.Str? then StrLaid(s, t, g, p) else BigLaid(s, t, g, p)
  }

  lemma {:induction false} StartsBehind(s: Source, body: nat, gs: seq<Cell>, i: nat)
    requires Good(s) && i <= |gs|
    ensures body < GroupStart(s, body, gs, i)
  {
    if i > 0 { StartsBehind(s, body, gs, i - 1); }
  }

  lemma {:induction false} GroupIsLaid(s: Source, nm: Naming, t: Form, i: nat)
    requires Good(s) && Serial(s, nm, t) && i < |t.gs|
    ensures GroupLaid(s, t, i)
  {
    var g, p := t.gs[i], GroupStart(s, BodyAt(t.es), t.gs, i);
    StartsBehind(s, BodyAt(t.es), t.gs, i);
    assert GroupAt(s, t, g, p);
    if g.Str? { StrIsLaid(s, nm, t, g, p); } else { BigIsLaid(s, t, g, p); }
  }

  /** A finished buffer, seen as a layout. */
  ghost predicate Laid(s: Source, t: Form)
    requires Good(s)
  {
    && PlainAt(t, BodyAt(t.es)) && t.slots[BodyAt(t.es)] == s.root
    && |t.buf| == GroupStart(s, BodyAt(t.es), t.gs, |t.gs|)
    && forall i: nat :: i < |t.gs| ==> GroupLaid(s, t, i)
  }

  /** Every place has its term. */
  ghost predicate PlainSlots(s: Source, t: Form) {
    forall q :: q in t.slots ==> PlainAt(t, q) && Known(t.m, t.slots[q]) && SlotTerm(s, t.slots[q])
  }

  lemma {:induction false} SerialLaid(s: Source, nm: Naming, t: Form)
    requires Good(s) && Serial(s, nm, t)
    ensures Laid(s, t) && PlainSlots(s, t)
  {
    forall q | q in t.slots ensures PlainAt(t, q) && Known(t.m, t.slots[q]) &&
      SlotTerm(s, t.slots[q]) { SlotPlain(s, nm, t, q); }
    assert SlotIs(t, BodyAt(t.es), s.root);
    SlotPlain(s, nm, t, BodyAt(t.es));
    forall i: nat | i < |t.gs| ensures GroupLaid(s, t, i) { GroupIsLaid(s, nm, t, i); }
  }

  /** The arguments of a structure stand behind its functor, in the buffer and where they go. */
  lemma {:induction false} StrGoes(s: Source, t: Form, base: nat, g: Cell, p: nat, q: nat)
    requires Good(s) && StrLaid(s, t, g, p) && TermReader.Tagged(t.buf, BodyAt(t.es), base, p) &&
             p < q <= p + |Kids(s, g)| + 1
    ensures t.buf[p].Con? && t.buf[p].functor.arity == |Kids(s, g)|
    ensures TermReader.Tagged(t.buf, BodyAt(t.es), base, q)
    ensures q <= p + |Kids(s, g)| ==>
              TermReader.PlaceOf(t.buf, BodyAt(t.es), base, q) ==
              TermReader.PlaceOf(t.buf, BodyAt(t.es), base, p) + (q - p)
  {
    FunctorThere(s, g);
    forall r: nat | p < r <= p + |Kids(s, g)| ensures ArgWord(t.buf, r) { assert PlainAt(t, r); }
    ArgsFollow(t.buf, BodyAt(t.es), base, p, |Kids(s, g)|, q);
  }

  /** Behind a group there is a cell again, or the end. */
  lemma {:induction false} BehindGroup(s: Source, t: Form, base: nat, g: Cell, p: nat)
    requires Good(s) && BodyAt(t.es) < p <= |t.buf| && TermReader.Tagged(t.buf, BodyAt(t.es), base, p)
    requires p + GroupSize(s, g) <= |t.buf|
    requires if g.Str? then StrLaid(s, t, g, p) else BigLaid(s, t, g, p)
    ensures TermReader.Tagged(t.buf, BodyAt(t.es), base, p + GroupSize(s, g))
  {
    if g.Str? {
      StrGoes(s, t, base, g, p, p + |Kids(s, g)| + 1);
    } else {
      AfterBig(t.buf, BodyAt(t.es), base, p);
    }
  }

  /** Each group begins with a cell. */
  lemma {:induction false} GroupsBegin(s: Source, t: Form, base: nat, i: nat)
    requires Good(s) && Laid(s, t) && i <= |t.gs|
    ensures BodyAt(t.es) < GroupStart(s, BodyAt(t.es), t.gs, i) <= |t.buf|
    ensures TermReader.Tagged(t.buf, BodyAt(t.es), base, GroupStart(s, BodyAt(t.es), t.gs, i))
    decreases i
  {
    var hdr := BodyAt(t.es);
    if i == 0 {
      NextAt(t.buf, hdr, base, hdr);
      StartsInside(s, t, 0);
    } else {
      GroupsBegin(s, t, base, i - 1);
      StartsInside(s, t, i);
      assert GroupLaid(s, t, i - 1);
      BehindGroup(s, t, base, t.gs[i - 1], GroupStart(s, hdr, t.gs, i - 1));
    }
  }

  lemma {:induction false} StartsInside(s: Source, t: Form, i: nat)
    requires Good(s) && Laid(s, t) && i <= |t.gs|
    ensures GroupStart(s, BodyAt(t.es), t.gs, i) <= |t.buf|
    decreases |t.gs| - i
  {
    if i < |t.gs| {
      StartsInside(s, t, i + 1);
      assert GroupLaid(s, t, i);
    }
  }

  // ----- every word is a cell of a known sort, or payload -----

  /** The group that word `k` belongs to. */
  lemma {:induction false} GroupOf(s: Source, body: nat, gs: seq<Cell>, n: nat, k: nat) returns (i: nat)
    requires Good(s) && n <= |gs| && body < k < GroupStart(s, body, gs, n)
    ensures i < n && GroupStart(s, body, gs, i) <= k < GroupStart(s, body, gs, i + 1)
  {
    i := n - 1;
    if k < GroupStart(s, body, gs, n - 1) { i := GroupOf(s, body, gs, n - 1, k); }
  }

  /** A cell word is that of a term, a functor or the header of a bignum. */
  lemma {:induction false} CellWord(s: Source, t: Form, base: nat, k: nat) returns (g: Cell)
    requires Good(s) && Laid(s, t) && BodyAt(t.es) <= k < |t.buf| && TermReader.Tagged(t.buf, BodyAt(t.es), base, k)
    ensures PlainAt(t, k) || StrLaid(s, t, g, k) || BigLaid(s, t, g, k)
  {
    g := s.root;
    if k > BodyAt(t.es) {
      var i := GroupOf(s, BodyAt(t.es), t.gs, |t.gs|, k);
      g := t.gs[i];
      var p := GroupStart(s, BodyAt(t.es), t.gs, i);
      assert GroupLaid(s, t, i);
      if k > p && !g.Str? {
        GroupsBegin(s, t, base, i);
        TermReader.PayloadFollows(t.buf, BodyAt(t.es), base, p, k - p);
      }
    }
  }

  /** The places of terms are cells. */
  lemma {:induction false} SlotIsCell(s: Source, t: Form, base: nat, q: nat)
    requires Good(s) && Laid(s, t) && PlainAt(t, q)
    ensures TermReader.Tagged(t.buf, BodyAt(t.es), base, q)
  {
    if q > BodyAt(t.es) {
      var i := GroupOf(s, BodyAt(t.es), t.gs, |t.gs|, q);
      var g, p := t.gs[i], GroupStart(s, BodyAt(t.es), t.gs, i);
      assert GroupLaid(s, t, i);
      GroupsBegin(s, t, base, i);
      if g.Str? { StrGoes(s, t, base, g, p, q); }
    }
  }

  /** A structure or bignum in the buffer. */
  lemma {:induction false} NodeLaid(s: Source, t: Form, base: nat, g: Cell)
    requires Good(s) && Laid(s, t) && g in t.gs
    ensures g in t.m && if g.Str? then StrLaid(s, t, g, t.m[g]) else BigLaid(s, t, g, t.m[g])
    ensures BodyAt(t.es) < t.m[g] < |t.buf| && TermReader.Tagged(t.buf, BodyAt(t.es), base, t.m[g])
  {
    var i: nat :| i < |t.gs| && t.gs[i] == g;
    assert GroupLaid(s, t, i);
    GroupsBegin(s, t, base, i);
  }

  // ----- names and variables of the header -----

  /** A finished buffer, and the state of a reader that has read its header. */
  datatype Trip = Trip(s: Source, nm: Naming, t: Form, st0: TermReader.State, st: TermReader.State)

  ghost predicate OnTheWay(x: Trip) {
    && Good(x.s) && Laid(x.s, x.t) && PlainSlots(x.s, x.t) && HeaderOk(x.s, x.nm, x.t.es) && IndexOk(x.s, x.nm, x.t)
    && HeaderWords(x.t.es) + [PAMER] <= x.t.buf && |x.t.buf| <= DIRECT
    && HeaderLoaded(x.t.es, x.st0, |x.t.es|, x.st) && |x.st.atoms| <= DIRECT
  }

  /** `f'` is `f` with its atom's number in another table. */
  ghost predicate SameFunctor(nm: Naming, atoms: seq<Text>, f: Functor, f': Functor) {
    f'.arity == f.arity &&
    if IsDirect(f) then f' == f
    else !IsDirect(f') && f'.atom < |atoms| && f.atom < |nm.atoms| && atoms[f'.atom] == nm.atoms[f.atom]
  }

  /** The cell for the term `a` of the source. */
  ghost function Nu(x: Trip, a: Cell): Cell {
    TermReader.Renewed(x.t.buf, BodyAt(x.t.es), |x.st.heap|, x.st.index, Word(x.t.m, a))
  }

  lemma {:induction false} EntryOf(x: Trip, c: Cell) returns (i: nat)
    requires OnTheWay(x) && c in HeaderIndex(x.t.es)
    ensures i < |x.t.es| && x.t.es[i].key == c && c in x.t.m &&
            x.t.m[c] == EntryAt(x.t.es, i) < BodyAt(x.t.es) < |x.t.buf|
    ensures EntryOk(x.s, x.nm, x.t.es[i]) && Resolved(x.t.es, x.st0.heap, x.st, i)
  {
    i := HeaderIndexOnly(x.t.es, c);
    assert EntryOk(x.s, x.nm, x.t.es[i]) && Resolved(x.t.es, x.st0.heap, x.st, i);
    assert PlainAt(x.t, BodyAt(x.t.es));
  }

  /** The key of an indirect atom in the reader's index. */
  lemma {:induction false} AtomKey(x: Trip, f: Functor) returns (i: nat)
    requires OnTheWay(x) && !IsDirect(f) && ToAtom(f) in x.t.m
    ensures i < |x.t.es| && x.t.m[ToAtom(f)] == EntryAt(x.t.es, i) < DIRECT
    ensures ReadKey(x.t.es, i) == ToAtom(Functor(EntryAt(x.t.es, i), f.arity)) && x.t.es[i].key.Con?
    ensures f.atom < |x.nm.atoms| && x.t.es[i].name == x.nm.atoms[f.atom] && Resolved(x.t.es, x.st0.heap, x.st, i)
  {
    assert Indexed(x.s, x.nm, x.t, ToAtom(f));
    i := EntryOf(x, ToAtom(f));
    assert x.t.es[i].arity / 32 * 32 == f.arity / 32 * 32;
  }

  /** An indirect atom is found again by its name. */
  lemma {:induction false} AtomRead(x: Trip, f: Functor)
    requires OnTheWay(x) && Known(x.t.m, Con(f))
    ensures var w := Word(x.t.m, Con(f)).functor; !IsDirect(f) ==> !IsDirect(w) && ToAtom(w) in x.st.index
    ensures Nu(x, Con(f)).Con? && SameFunctor(x.nm, x.st.atoms, f, Nu(x, Con(f)).functor)
  {
    if !IsDirect(f) {
      var i := AtomKey(x, f);
      AtomFound(x, f, i);
    }
  }

  lemma {:induction false} AtomFound(x: Trip, f: Functor, i: nat)
    requires !IsDirect(f) && ToAtom(f) in x.t.m && i < |x.t.es| && x.t.m[ToAtom(f)] == EntryAt(x.t.es, i) < DIRECT
    requires ReadKey(x.t.es, i) == ToAtom(Functor(EntryAt(x.t.es, i), f.arity)) && x.t.es[i].key.Con?
    requires f.atom < |x.nm.atoms| && x.t.es[i].name == x.nm.atoms[f.atom] && Resolved(x.t.es, x.st0.heap, x.st, i)
    requires |x.st.atoms| <= DIRECT
    ensures var w := Word(x.t.m, Con(f)).functor; !IsDirect(w) && ToAtom(w) in x.st.index
    ensures Nu(x, Con(f)).Con? && SameFunctor(x.nm, x.st.atoms, f, Nu(x, Con(f)).functor)
  {
  }

  lemma {:induction false} VariableKey(x: Trip, c: Cell) returns (i: nat)
    requires OnTheWay(x) && c.Ref? && c in HeaderIndex(x.t.es)
    ensures i < |x.t.es| && c in x.t.m && x.t.m[c] == EntryAt(x.t.es, i) < BodyAt(x.t.es) &&
            ReadKey(x.t.es, i) == Ref(x.t.m[c])
    ensures x.t.es[i].key == c && c in x.nm.vars && x.t.es[i].name == x.nm.vars[c] &&
            Resolved(x.t.es, x.st0.heap, x.st, i)
  {
    i := EntryOf(x, c);
  }

  /** A named variable becomes a new one with its name. */
  lemma {:induction false} VariableRead(x: Trip, c: Cell)
    requires OnTheWay(x) && c.Ref? && c in HeaderIndex(x.t.es)
    ensures c in x.t.m && x.t.m[c] < BodyAt(x.t.es) && Ref(x.t.m[c]) in x.st.index &&
            Nu(x, c) == Ref(x.st.index[Ref(x.t.m[c])])
    ensures |x.st0.heap| <= Nu(x, c).index < |x.st.heap| && x.st.heap[Nu(x, c).index] == Nu(x, c)
    ensures c in x.nm.vars && Nu(x, c) in x.st.vars && x.st.vars[Nu(x, c)] == x.nm.vars[c]
  {
    var i := VariableKey(x, c);
    VariableFound(x, c, i);
  }

  lemma {:induction false} VariableFound(x: Trip, c: Cell, i: nat)
    requires c.Ref? && i < |x.t.es| && c in x.t.m && x.t.m[c] == EntryAt(x.t.es, i) < BodyAt(x.t.es)
    requires ReadKey(x.t.es, i) == Ref(x.t.m[c]) && x.t.es[i].key == c && c in x.nm.vars &&
             x.t.es[i].name == x.nm.vars[c]
    requires Resolved(x.t.es, x.st0.heap, x.st, i) && |x.st0.heap| <= |x.st.heap|
    requires forall p: nat :: |x.st0.heap| <= p < |x.st.heap| ==> x.st.heap[p] == Ref(p)
    ensures Ref(x.t.m[c]) in x.st.index && Nu(x, c) == Ref(x.st.index[Ref(x.t.m[c])])
    ensures |x.st0.heap| <= Nu(x, c).index < |x.st.heap| && x.st.heap[Nu(x, c).index] == Nu(x, c)
    ensures Nu(x, c) in x.st.vars && x.st.vars[Nu(x, c)] == x.nm.vars[c]
  {
  }

  // ----- reading meets no error -----

  /** A term's word that points into the body points at a cell. */
  lemma {:induction false} PointerGood(x: Trip, a: Cell)
    requires OnTheWay(x) && (a.Ref? || a.Str? || a.Big?) && a in x.t.m
    ensures BodyAt(x.t.es) <= x.t.m[a] ==>
              x.t.m[a] < |x.t.buf| && TermReader.Tagged(x.t.buf, BodyAt(x.t.es), |x.st.heap|, x.t.m[a])
    ensures x.t.m[a] < BodyAt(x.t.es) ==> a.Ref? && a in HeaderIndex(x.t.es)
  {
    assert Indexed(x.s, x.nm, x.t, a);
    if a.Ref? {
      if a in HeaderIndex(x.t.es) { var i := EntryOf(x, a); } else { UnnamedPlain(x, a); }
    } else {
      NodeLaid(x.s, x.t, |x.st.heap|, a);
    }
  }

  /** The place of a variable without a name. */
  lemma {:induction false} UnnamedPlain(x: Trip, c: Cell)
    requires OnTheWay(x) && c.Ref? && c in x.t.m && c !in HeaderIndex(x.t.es)
    ensures BodyAt(x.t.es) <= x.t.m[c] < |x.t.buf| && x.t.buf[x.t.m[c]] == Ref(x.t.m[c])
    ensures TermReader.Tagged(x.t.buf, BodyAt(x.t.es), |x.st.heap|, x.t.m[c])
  {
    assert Indexed(x.s, x.nm, x.t, c);
    SlotsPlain(x, x.t.m[c]);
    SlotIsCell(x.s, x.t, |x.st.heap|, x.t.m[c]);
  }

  lemma {:induction false} SlotsPlain(x: Trip, q: nat)
    requires OnTheWay(x) && q in x.t.slots
    ensures PlainAt(x.t, q) && Known(x.t.m, x.t.slots[q]) && SlotTerm(x.s, x.t.slots[q])
  {
  }

  /** The word of a known term is readable. */
  lemma {:induction false} TermWordFine(x: Trip, a: Cell, k: nat)
    requires OnTheWay(x) && Known(x.t.m, a) && !a.Dat? && !a.Fwd? && k < |x.t.buf| && x.t.buf[k] == Word(x.t.m, a)
    ensures TermReader.WordError(x.t.buf, BodyAt(x.t.es), x.st.index, k) == None
  {
    if a.Con? { AtomRead(x, a.functor); }
    if a.Ref? || a.Str? || a.Big? { PointerWordFine(x, a); }
  }

  lemma {:induction false} PointerWordFine(x: Trip, a: Cell)
    requires OnTheWay(x) && (a.Ref? || a.Str? || a.Big?) && a in x.t.m
    ensures x.t.m[a] < BodyAt(x.t.es) ==> Word(x.t.m, a) in x.st.index
  {
    PointerGood(x, a);
    if x.t.m[a] < BodyAt(x.t.es) { VariableRead(x, a); }
  }

  lemma {:induction false} WordFine(x: Trip, k: nat)
    requires OnTheWay(x) && BitsPositive(x.s, x.t) && BodyAt(x.t.es) <= k < |x.t.buf|
    requires TermReader.Tagged(x.t.buf, BodyAt(x.t.es), |x.st.heap|, k)
    ensures TermReader.WordError(x.t.buf, BodyAt(x.t.es), x.st.index, k) == None
  {
    var g := CellWord(x.s, x.t, |x.st.heap|, k);
    if PlainAt(x.t, k) {
      SlotsPlain(x, k);
      TermWordFine(x, x.t.slots[k], k);
    } else if StrLaid(x.s, x.t, g, k) {
      TermWordFine(x, x.s.heap[g.index], k);
    } else {
      BigBits(x, g);
    }
  }

  /** The header of a bignum is as in the source. */
  lemma {:induction false} BigBits(x: Trip, g: Cell)
    requires OnTheWay(x) && g.Big? && g in x.t.m
    ensures g in x.t.gs && BodyAt(x.t.es) < x.t.m[g] < |x.t.buf|
    ensures g.index < |x.s.heap| && x.s.heap[g.index].Dat? && x.t.buf[x.t.m[g]] == x.s.heap[g.index]
    ensures TermReader.Tagged(x.t.buf, BodyAt(x.t.es), |x.st.heap|, x.t.m[g])
  {
    assert Indexed(x.s, x.nm, x.t, g);
    NodeLaid(x.s, x.t, |x.st.heap|, g);
    var p, d := x.t.m[g], BigData(x.s.heap, g.index);
    assert x.t.buf[p] == x.t.buf[p..p + NumCells(x.t.buf[p].bits)][0] == d[0];
  }

  lemma {:induction false} NothingWrong(x: Trip, e: TermReader.ReadError)
    requires OnTheWay(x) && BitsPositive(x.s, x.t)
    ensures !TermReader.FirstWrong(x.t.buf, BodyAt(x.t.es), |x.st.heap|, x.st.index, e)
  {
    forall k: nat | BodyAt(x.t.es) <= k < |x.t.buf|
      ensures !TermReader.WrongAt(x.t.buf, BodyAt(x.t.es), |x.st.heap|, x.st.index, k, e)
    {
      if TermReader.Tagged(x.t.buf, BodyAt(x.t.es), |x.st.heap|, k) { WordFine(x, k); }
    }
  }

  // ----- what has been read -----

  ghost predicate Arrived(x: Trip, h: seq<Cell>, used: set<nat>) {
    OnTheWay(x) && TermReader.Loaded(x.t.buf, BodyAt(x.t.es), x.st.index, x.st.heap, h, used)
  }

  /** Every word is where it goes. */
  ghost predicate AllThere(x: Trip, h: seq<Cell>) {
    && BodyAt(x.t.es) <= |x.t.buf|
    && TermReader.Stored(x.t.buf, BodyAt(x.t.es), |x.st.heap|, |x.t.buf|, h,
                         TermReader.Final(x.t.buf, BodyAt(x.t.es), |x.st.heap|, x.st.index))
  }

  ghost function Place(x: Trip, k: nat): nat
    requires BodyAt(x.t.es) <= k < |x.t.buf|
  {
    TermReader.PlaceOf(x.t.buf, BodyAt(x.t.es), |x.st.heap|, k)
  }

  lemma {:induction false} ThereNow(x: Trip, h: seq<Cell>, k: nat)
    requires AllThere(x, h) && BodyAt(x.t.es) <= k < |x.t.buf|
    ensures |x.st.heap| <= Place(x, k) < |h|
    ensures h[Place(x, k)] == TermReader.NewCell(x.t.buf, BodyAt(x.t.es), |x.st.heap|, x.st.index, k)
  {
    TermReader.ScanGrows(x.t.buf, BodyAt(x.t.es), |x.st.heap|, BodyAt(x.t.es), k);
    assert TermReader.Final(x.t.buf, BodyAt(x.t.es), |x.st.heap|, x.st.index)(k) == h[Place(x, k)];
  }

  /** A place holds the cell for its term. */
  lemma {:induction false} SlotNow(x: Trip, h: seq<Cell>, q: nat)
    requires Good(x.s) && Laid(x.s, x.t) && AllThere(x, h) && PlainAt(x.t, q)
    ensures |x.st.heap| <= Place(x, q) < |h| && h[Place(x, q)] == Nu(x, x.t.slots[q])
  {
    ThereNow(x, h, q);
    SlotIsCell(x.s, x.t, |x.st.heap|, q);
  }

  /** Structures and bignums become what points at where they went. */
  lemma {:induction false} NodeMoved(x: Trip, g: Cell)
    requires OnTheWay(x) && g in x.t.m && (g.Str? || g.Big?)
    ensures BodyAt(x.t.es) < x.t.m[g] < |x.t.buf| && TermReader.Tagged(x.t.buf, BodyAt(x.t.es), |x.st.heap|, x.t.m[g])
    ensures Nu(x, g) == TermReader.WithIndex(g, Place(x, x.t.m[g]))
    ensures if g.Str? then StrLaid(x.s, x.t, g, x.t.m[g]) else BigLaid(x.s, x.t, g, x.t.m[g])
  {
    assert Indexed(x.s, x.nm, x.t, g);
    NodeLaid(x.s, x.t, |x.st.heap|, g);
  }

  lemma {:induction false} ArgsNow(x: Trip, h: seq<Cell>, g: Cell, p: nat)
    requires Good(x.s) && Laid(x.s, x.t) && AllThere(x, h) && StrLaid(x.s, x.t, g, p)
    requires TermReader.Tagged(x.t.buf, BodyAt(x.t.es), |x.st.heap|, p)
    ensures |x.st.heap| <= Place(x, p) && Place(x, p) + |Kids(x.s, g)| < |h|
    ensures forall k: nat {:trigger Kids(x.s, g)[k]} :: k < |Kids(x.s, g)| ==>
            h[Place(x, p) + 1 + k] == Nu(x, Kids(x.s, g)[k])
  {
    ThereNow(x, h, p);
    if |Kids(x.s, g)| > 0 { ArgNow(x, h, g, p, p + |Kids(x.s, g)|); }
    forall k: nat | k < |Kids(x.s, g)| ensures h[Place(x, p) + 1 + k] == Nu(x, Kids(x.s, g)[k]) {
      ArgNow(x, h, g, p, p + 1 + k);
    }
  }

  lemma {:induction false} FunctorNow(x: Trip, h: seq<Cell>, g: Cell, p: nat)
    requires Good(x.s) && AllThere(x, h) && StrLaid(x.s, x.t, g, p)
    requires TermReader.Tagged(x.t.buf, BodyAt(x.t.es), |x.st.heap|, p)
    ensures Place(x, p) < |h| && h[Place(x, p)] == Nu(x, x.s.heap[g.index])
  {
    ThereNow(x, h, p);
  }

  /** The functor is there, its atom by name. */
  lemma {:induction false} FunctorAgain(x: Trip, h: seq<Cell>, g: Cell, p: nat)
    requires OnTheWay(x) && AllThere(x, h) && StrLaid(x.s, x.t, g, p)
    requires TermReader.Tagged(x.t.buf, BodyAt(x.t.es), |x.st.heap|, p)
    ensures x.s.heap[g.index].Con? && x.s.heap[g.index].functor.arity == |Kids(x.s, g)|
    ensures Place(x, p) < |h| && h[Place(x, p)].Con?
    ensures SameFunctor(x.nm, x.st.atoms, x.s.heap[g.index].functor, h[Place(x, p)].functor)
  {
    FunctorThere(x.s, g);
    FunctorNow(x, h, g, p);
    AtomRead(x, x.s.heap[g.index].functor);
  }

  /** A structure is there at `j`, with its arguments. */
  ghost predicate StrThere(x: Trip, h: seq<Cell>, g: Cell, j: nat) {
    && Good(x.s) && IsTerm(x.s.kind, g) && g.Str? && g.index < |x.s.heap| && x.s.heap[g.index].Con?
    && |x.st.heap| <= j && j + |Kids(x.s, g)| < |h|
    && x.s.heap[g.index].functor.arity == |Kids(x.s, g)| && h[j].Con?
    && SameFunctor(x.nm, x.st.atoms, x.s.heap[g.index].functor, h[j].functor)
    && forall k: nat {:trigger Kids(x.s, g)[k]} :: k < |Kids(x.s, g)| ==> h[j + 1 + k] == Nu(x, Kids(x.s, g)[k])
  }

  lemma {:induction false} StrThereAt(x: Trip, h: seq<Cell>, g: Cell, p: nat)
    requires OnTheWay(x) && AllThere(x, h) && g.Str? && StrLaid(x.s, x.t, g, p)
    requires TermReader.Tagged(x.t.buf, BodyAt(x.t.es), |x.st.heap|, p)
    ensures StrThere(x, h, g, Place(x, p))
  {
    FunctorAgain(x, h, g, p);
    ArgsNow(x, h, g, p);
  }

  lemma {:induction false} StrNow(x: Trip, h: seq<Cell>, g: Cell) returns (j: nat)
    requires OnTheWay(x) && AllThere(x, h) && g.Str? && g in x.t.m
    ensures Nu(x, g) == Str(j) && StrThere(x, h, g, j)
  {
    NodeMoved(x, g);
    j := Place(x, x.t.m[g]);
    StrThereAt(x, h, g, x.t.m[g]);
  }

  lemma {:induction false} ArgNow(x: Trip, h: seq<Cell>, g: Cell, p: nat, q: nat)
    requires Good(x.s) && Laid(x.s, x.t) && AllThere(x, h) && StrLaid(x.s, x.t, g, p) && p < q <= p + |Kids(x.s, g)|
    requires TermReader.Tagged(x.t.buf, BodyAt(x.t.es), |x.st.heap|, p)
    ensures Place(x, p) + (q - p) < |h| && h[Place(x, p) + (q - p)] == Nu(x, Kids(x.s, g)[q - p - 1])
  {
    assert PlainAt(x.t, q);
    SlotNow(x, h, q);
    StrGoes(x.s, x.t, |x.st.heap|, g, p, q);
  }

  /** A bignum is there, header and payload. */
  lemma {:induction false} BigNow(x: Trip, h: seq<Cell>, g: Cell)
    requires OnTheWay(x) && AllThere(x, h) && g.Big? && g in x.t.m
    ensures Nu(x, g).Big? && |x.st.heap| <= Nu(x, g).index < |h|
    ensures h[Nu(x, g).index].Dat? && BigData(h, Nu(x, g).index) == BigData(x.s.heap, g.index) != []
  {
    NodeMoved(x, g);
    ThereNow(x, h, x.t.m[g]);
    DataThere(x, h, g, x.t.m[g]);
  }

  lemma {:induction false} DataThere(x: Trip, h: seq<Cell>, g: Cell, p: nat)
    requires AllThere(x, h) && BigLaid(x.s, x.t, g, p)
    requires TermReader.Tagged(x.t.buf, BodyAt(x.t.es), |x.st.heap|, p)
    ensures Place(x, p) < |h| && h[Place(x, p)].Dat? && BigData(h, Place(x, p)) == BigData(x.s.heap, g.index) != []
  {
    var q, n := Place(x, p), NumCells(x.t.buf[p].bits);
    var d := x.t.buf[p..p + n];
    forall j: nat | j < n ensures q + j < |h| && h[q + j] == d[j] { DataNow(x, h, p, j); }
    DataNow(x, h, p, n - 1);
    DataIs(h, q, d);
  }

  lemma {:induction false} DataIs(h: seq<Cell>, q: nat, d: seq<Cell>)
    requires d != [] && d[0].Dat? && |d| == NumCells(d[0].bits) && q + |d| <= |h|
    requires forall j: nat :: j < |d| ==> h[q + j] == d[j]
    ensures h[q].Dat? && BigData(h, q) == d
  {
    assert h[q + 0] == d[0];
    assert h[q..q + |d|] == d;
  }

  lemma {:induction false} DataNow(x: Trip, h: seq<Cell>, p: nat, j: nat)
    requires AllThere(x, h) && BodyAt(x.t.es) <= p < |x.t.buf| && x.t.buf[p].Dat? && j < NumCells(x.t.buf[p].bits)
    requires p + j < |x.t.buf| && TermReader.Tagged(x.t.buf, BodyAt(x.t.es), |x.st.heap|, p)
    ensures Place(x, p) + j < |h| && h[Place(x, p) + j] == x.t.buf[p + j]
  {
    TermReader.PayloadFollows(x.t.buf, BodyAt(x.t.es), |x.st.heap|, p, j);
    ThereNow(x, h, p + j);
  }

  /** A variable is there, unbound. */
  lemma {:induction false} VarNow(x: Trip, h: seq<Cell>, c: Cell)
    requires OnTheWay(x) && AllThere(x, h) && x.st.heap <= h && c.Ref? && c in x.t.m
    ensures Nu(x, c).Ref? && |x.st0.heap| <= Nu(x, c).index < |h| && h[Nu(x, c).index] == Nu(x, c)
    ensures c in x.nm.vars ==> Nu(x, c) in x.st.vars && x.st.vars[Nu(x, c)] == x.nm.vars[c]
  {
    assert Indexed(x.s, x.nm, x.t, c);
    if c in HeaderIndex(x.t.es) {
      VariableRead(x, c);
    } else {
      UnnamedPlain(x, c);
      ThereNow(x, h, x.t.m[c]);
    }
  }

  // ----- the check accepts it -----

  ghost function NewPart(x: Trip, h: seq<Cell>, used: set<nat>): Part {
    Part(h, |x.st0.heap|, used)
  }

  /** Arguments of written structures are known terms. */
  lemma {:induction false} KidKnown(x: Trip, g: Cell, k: nat)
    requires OnTheWay(x) && g.Str? && g in x.t.m && IsTerm(x.s.kind, g) && k < |Kids(x.s, g)|
    ensures Known(x.t.m, Kids(x.s, g)[k]) && SlotTerm(x.s, Kids(x.s, g)[k])
  {
    var p := StrPlace(x, g);
    KidPlain(x.s, x.t, g, p, k);
    SlotKnown(x, p + 1 + k, Kids(x.s, g)[k]);
  }

  lemma {:induction false} SlotKnown(x: Trip, q: nat, a: Cell)
    requires OnTheWay(x) && SlotIs(x.t, q, a)
    ensures Known(x.t.m, a) && SlotTerm(x.s, a)
  {
    SlotsPlain(x, q);
  }

  lemma {:induction false} StrPlace(x: Trip, g: Cell) returns (p: nat)
    requires OnTheWay(x) && g.Str? && g in x.t.m
    ensures StrLaid(x.s, x.t, g, p)
  {
    NodeMoved(x, g);
    p := x.t.m[g];
  }

  lemma {:induction false} KidPlain(s: Source, t: Form, g: Cell, p: nat, k: nat)
    requires Good(s) && StrLaid(s, t, g, p) && k < |Kids(s, g)|
    ensures SlotIs(t, p + 1 + k, Kids(s, g)[k])
  {
    assert PlainAt(t, p + 1 + k);
  }

  lemma {:induction false} ArgumentFine(x: Trip, a: Cell)
    requires OnTheWay(x) && Known(x.t.m, a) && SlotTerm(x.s, a)
    ensures ArgumentTag(Nu(x, a))
  {
    if a.Con? { AtomRead(x, a.functor); }
  }

  lemma {:induction false} VarFine(x: Trip, h: seq<Cell>, used: set<nat>, c: Cell, i: nat)
    requires OnTheWay(x) && AllThere(x, h) && x.st.heap <= h && c.Ref? && c in x.t.m
    requires InPart(NewPart(x, h, used), i) && h[i] == Nu(x, c)
    ensures Fine(NewPart(x, h, used), i)
  {
    var q := NewPart(x, h, used);
    VarNow(x, h, c);
    assert Terminates(q, h[i].index, 0);
    assert Terminates(q, i, 1);
    FineRef(q, i);
  }

  lemma {:induction false} KidTag(x: Trip, g: Cell, k: nat)
    requires OnTheWay(x) && g.Str? && g in x.t.m && IsTerm(x.s.kind, g) && k < |Kids(x.s, g)|
    ensures ArgumentTag(Nu(x, Kids(x.s, g)[k]))
  {
    KidKnown(x, g, k);
    ArgumentFine(x, Kids(x.s, g)[k]);
  }

  lemma {:induction false} ArgsFine(x: Trip, h: seq<Cell>, g: Cell, j: nat)
    requires OnTheWay(x) && g.Str? && g in x.t.m && IsTerm(x.s.kind, g) && j + |Kids(x.s, g)| < |h|
    requires forall k: nat {:trigger Kids(x.s, g)[k]} :: k < |Kids(x.s, g)| ==> h[j + 1 + k] == Nu(x, Kids(x.s, g)[k])
    ensures forall l: nat :: j < l <= j + |Kids(x.s, g)| ==> ArgumentTag(h[l])
  {
    forall l: nat | j < l <= j + |Kids(x.s, g)| ensures ArgumentTag(h[l]) {
      var k: nat := l - j - 1;
      KidTag(x, g, k);
      assert h[j + 1 + k] == Nu(x, Kids(x.s, g)[k]);
    }
  }

  lemma {:induction false} StrFine(x: Trip, h: seq<Cell>, used: set<nat>, g: Cell, i: nat)
    requires OnTheWay(x) && AllThere(x, h) && |x.st0.heap| <= |x.st.heap| && g.Str? && g in x.t.m
    requires InPart(NewPart(x, h, used), i) && h[i] == Nu(x, g)
    ensures Fine(NewPart(x, h, used), i)
  {
    var j := StrNow(x, h, g);
    ArgsFine(x, h, g, j);
    StrIsFine(NewPart(x, h, used), i, j);
  }

  lemma {:induction false} StrIsFine(p: Part, i: nat, j: nat)
    requires InPart(p, i) && p.heap[i] == Str(j) && InPart(p, j) && p.heap[j].Con? &&
             j + p.heap[j].functor.arity < |p.heap|
    requires ArgumentsOk(p, j, p.heap[j].functor.arity)
    ensures Fine(p, i)
  {
  }

  lemma {:induction false} TermFine(x: Trip, h: seq<Cell>, used: set<nat>, a: Cell, i: nat)
    requires OnTheWay(x) && AllThere(x, h) && x.st.heap <= h && |x.st0.heap| <= |x.st.heap| && Known(x.t.m, a) &&
             SlotTerm(x.s, a)
    requires InPart(NewPart(x, h, used), i) && h[i] == Nu(x, a)
    ensures Fine(NewPart(x, h, used), i)
  {
    if a.Ref? {
      VarFine(x, h, used, a, i);
    } else if a.Str? {
      StrFine(x, h, used, a, i);
    } else if a.Big? {
      BigNow(x, h, a);
    } else if a.Con? {
      AtomRead(x, a.functor);
    }
  }

  lemma {:induction false} CellFine(x: Trip, h: seq<Cell>, used: set<nat>, i: nat)
    requires Arrived(x, h, used) && i in used && InPart(NewPart(x, h, used), i)
    ensures Fine(NewPart(x, h, used), i)
  {
    var k := TermReader.UsedWord(x.t.buf, BodyAt(x.t.es), x.st.index, x.st.heap, h, used, i);
    var g := CellWord(x.s, x.t, |x.st.heap|, k);
    if PlainAt(x.t, k) {
      SlotsPlain(x, k);
      TermFine(x, h, used, x.t.slots[k], i);
    } else if StrLaid(x.s, x.t, g, k) {
      AtomRead(x, x.s.heap[g.index].functor);
    }
  }

  // ----- the same term again -----

  ghost predicate TermRebuilt(nm: Naming, atoms: seq<Text>, nodes: set<Cell>, nu: Cell -> Cell, a: Cell) {
    match a
    case Con(f) => nu(a).Con? && SameFunctor(nm, atoms, f, nu(a).functor)
    case Int(_) => nu(a) == a
    case _ => a in nodes
  }

  /** A structure, variable or bignum of the source and what it has become. */
  ghost predicate NodeRebuilt(s: Source, nm: Naming, nodes: set<Cell>, nu: Cell -> Cell, lo: nat, h: seq<Cell>,
                              atoms: seq<Text>, vars: map<Cell, Text>, c: Cell)
    requires Good(s)
  {
    match c
    case Str(i) =>
      && IsTerm(s.kind, c) && s.heap[i].Con? && nu(c).Str? && lo <= nu(c).index && nu(c).index + |Kids(s, c)| < |h|
      && h[nu(c).index].Con? && SameFunctor(nm, atoms, s.heap[i].functor, h[nu(c).index].functor)
      && forall k: nat :: k < |Kids(s, c)| ==>
           TermRebuilt(nm, atoms, nodes, nu, Kids(s, c)[k]) && h[nu(c).index + 1 + k] == nu(Kids(s, c)[k])
    case Ref(i) =>
      && nu(c).Ref? && lo <= nu(c).index < |h| && h[nu(c).index] == nu(c)
      && (c in nm.vars ==> nu(c) in vars && vars[nu(c)] == nm.vars[c])
    case Big(i) => nu(c).Big? && lo <= nu(c).index < |h| && SameNumber(s.heap, i, h, nu(c).index)
    case _ => false
  }

  /** `result` is the root of the same graph as the source's, behind `lo`: every structure, variable and
      bignum in `nodes` has become a new one, different ones different ones; functors and variables
      have their names, arguments are what arguments have become. */
  ghost predicate Rebuilt(s: Source, nm: Naming, nodes: set<Cell>, nu: Cell -> Cell, lo: nat, h: seq<Cell>,
                          atoms: seq<Text>, vars: map<Cell, Text>, result: Cell)
    requires Good(s)
  {
    && TermRebuilt(nm, atoms, nodes, nu, s.root) && result == nu(s.root)
    && (forall c :: c in nodes ==> NodeRebuilt(s, nm, nodes, nu, lo, h, atoms, vars, c))
    && forall c, d :: c in nodes && d in nodes && c != d ==> nu(c) != nu(d)
  }

  ghost function Nodes(x: Trip): set<Cell> {
    NodesOf(x.t)
  }

  ghost function NuOf(x: Trip): Cell -> Cell {
    a => Nu(x, a)
  }

  lemma {:induction false} KnownRebuilt(x: Trip, a: Cell)
    requires OnTheWay(x) && Known(x.t.m, a) && SlotTerm(x.s, a)
    ensures TermRebuilt(x.nm, x.st.atoms, Nodes(x), NuOf(x), a)
  {
    if a.Con? { AtomRead(x, a.functor); }
  }

  lemma {:induction false} KidAgain(x: Trip, g: Cell, k: nat)
    requires OnTheWay(x) && g.Str? && g in x.t.m && IsTerm(x.s.kind, g) && k < |Kids(x.s, g)|
    ensures TermRebuilt(x.nm, x.st.atoms, Nodes(x), NuOf(x), Kids(x.s, g)[k])
  {
    KidKnown(x, g, k);
    KnownRebuilt(x, Kids(x.s, g)[k]);
  }

  lemma {:induction false} StrAgain(x: Trip, h: seq<Cell>, c: Cell)
    requires OnTheWay(x) && AllThere(x, h) && |x.st0.heap| <= |x.st.heap| && c.Str? && c in x.t.m
    ensures NodeRebuilt(x.s, x.nm, Nodes(x), NuOf(x), |x.st0.heap|, h, x.st.atoms, x.st.vars, c)
  {
    var j := StrNow(x, h, c);
    forall k: nat | k < |Kids(x.s, c)|
      ensures TermRebuilt(x.nm, x.st.atoms, Nodes(x), NuOf(x), Kids(x.s, c)[k])
           && h[j + 1 + k] == Nu(x, Kids(x.s, c)[k])
    {
      KidAgain(x, c, k);
    }
  }

  lemma {:induction false} NodeAgain(x: Trip, h: seq<Cell>, c: Cell)
    requires OnTheWay(x) && AllThere(x, h) && x.st.heap <= h && |x.st0.heap| <= |x.st.heap| && c in Nodes(x)
    ensures NodeRebuilt(x.s, x.nm, Nodes(x), NuOf(x), |x.st0.heap|, h, x.st.atoms, x.st.vars, c)
  {
    if c.Str? {
      StrAgain(x, h, c);
    } else if c.Ref? {
      VarNow(x, h, c);
    } else {
      assert Indexed(x.s, x.nm, x.t, c);
      BigNow(x, h, c);
      BigDataSame(x.s.heap, c.index, h, Nu(x, c).index);
    }
  }

  /** Nodes that become one are one. */
  lemma {:induction false} NodesApart(x: Trip, c: Cell, d: Cell)
    requires OnTheWay(x) && c in Nodes(x) && d in Nodes(x) && Nu(x, c) == Nu(x, d)
    ensures c == d
  {
    assert Indexed(x.s, x.nm, x.t, c) && Indexed(x.s, x.nm, x.t, d);
    if c.Ref? && d.Ref? {
      VariablesApart(x, c, d);
    } else if (c.Str? || c.Big?) && (d.Str? || d.Big?) {
      NodeMoved(x, c);
      NodeMoved(x, d);
      TermReader.PlaceTwice(x.t.buf, BodyAt(x.t.es), |x.st.heap|, x.t.m[c], x.t.m[d]);
      SamePlaceSameNode(x.s, x.t, c, d);
    }
  }

  lemma {:induction false} StartsUp(s: Source, t: Form, i: nat, j: nat)
    requires Good(s) && Laid(s, t) && i < j <= |t.gs|
    ensures GroupStart(s, BodyAt(t.es), t.gs, i) < GroupStart(s, BodyAt(t.es), t.gs, j)
    decreases j
  {
    assert GroupLaid(s, t, j - 1);
    if i < j - 1 { StartsUp(s, t, i, j - 1); }
  }

  lemma {:induction false} NodeStart(s: Source, t: Form, c: Cell) returns (i: nat)
    requires Good(s) && Laid(s, t) && c in t.gs && c in t.m
    ensures i < |t.gs| && t.gs[i] == c && t.m[c] == GroupStart(s, BodyAt(t.es), t.gs, i)
  {
    i :| i < |t.gs| && t.gs[i] == c;
    assert GroupLaid(s, t, i);
  }

  lemma {:induction false} SamePlaceSameNode(s: Source, t: Form, c: Cell, d: Cell)
    requires Good(s) && Laid(s, t) && c in t.gs && d in t.gs && c in t.m && d in t.m && t.m[c] == t.m[d]
    ensures c == d
  {
    var i := NodeStart(s, t, c);
    var j := NodeStart(s, t, d);
    if i < j { StartsUp(s, t, i, j); }
    if j < i { StartsUp(s, t, j, i); }
  }

  lemma {:induction false} VariablesApart(x: Trip, c: Cell, d: Cell)
    requires OnTheWay(x) && c.Ref? && d.Ref? && c in x.t.m && d in x.t.m && Nu(x, c) == Nu(x, d)
    ensures c == d
  {
    VariablePlace(x, c);
    VariablePlace(x, d);
    assert Indexed(x.s, x.nm, x.t, c) && Indexed(x.s, x.nm, x.t, d);
    if c in HeaderIndex(x.t.es) && d in HeaderIndex(x.t.es) {
      NamedApart(x, c, d);
    } else if c !in HeaderIndex(x.t.es) && d !in HeaderIndex(x.t.es) {
      TermReader.PlaceTwice(x.t.buf, BodyAt(x.t.es), |x.st.heap|, x.t.m[c], x.t.m[d]);
    }
  }

  lemma {:induction false} VariablePlace(x: Trip, c: Cell)
    requires OnTheWay(x) && c.Ref? && c in x.t.m
    ensures c in HeaderIndex(x.t.es) ==> Nu(x, c).Ref? && Nu(x, c).index < |x.st.heap|
    ensures c !in HeaderIndex(x.t.es) ==>
              && BodyAt(x.t.es) <= x.t.m[c] < |x.t.buf| && Nu(x, c) == Ref(Place(x, x.t.m[c]))
              && |x.st.heap| <= Place(x, x.t.m[c])
  {
    if c in HeaderIndex(x.t.es) {
      VariableRead(x, c);
    } else {
      UnnamedPlain(x, c);
      TermReader.ScanGrows(x.t.buf, BodyAt(x.t.es), |x.st.heap|, BodyAt(x.t.es), x.t.m[c]);
    }
  }

  lemma {:induction false} NamedApart(x: Trip, c: Cell, d: Cell)
    requires OnTheWay(x) && c.Ref? && d.Ref? && c in HeaderIndex(x.t.es) && d in HeaderIndex(x.t.es) &&
             Nu(x, c) == Nu(x, d)
    ensures c == d
  {
    VariableRead(x, c);
    VariableRead(x, d);
    var i := EntryOf(x, c);
    var j := EntryOf(x, d);
    assert ReadKey(x.t.es, i) == Ref(x.t.m[c]) && ReadKey(x.t.es, j) == Ref(x.t.m[d]);
    OrderApart(x, i, j);
    OrderApart(x, j, i);
  }

  lemma {:induction false} OrderApart(x: Trip, i: nat, j: nat)
    requires OnTheWay(x) && i < |x.t.es| && j < |x.t.es|
    ensures i < j ==> InOrder(x.t.es, x.st.index, i, j)
  {
  }

  lemma {:induction false} AllRebuilt(x: Trip, h: seq<Cell>, result: Cell)
    requires OnTheWay(x) && AllThere(x, h) && x.st.heap <= h && |x.st0.heap| <= |x.st.heap| && result == Nu(x, x.s.root)
    ensures Rebuilt(x.s, x.nm, Nodes(x), NuOf(x), |x.st0.heap|, h, x.st.atoms, x.st.vars, result)
  {
    SlotsPlain(x, BodyAt(x.t.es));
    KnownRebuilt(x, x.s.root);
    forall c | c in Nodes(x)
      ensures NodeRebuilt(x.s, x.nm, Nodes(x), NuOf(x), |x.st0.heap|, h, x.st.atoms, x.st.vars, c)
    {
      NodeAgain(x, h, c);
    }
    forall c, d | c in Nodes(x) && d in Nodes(x) && c != d ensures Nu(x, c) != Nu(x, d) {
      if Nu(x, c) == Nu(x, d) { NodesApart(x, c, d); }
    }
  }

  // ----- nothing but the empty list -----

  lemma {:induction false} SingleRoot(x: Trip)
    requires OnTheWay(x) && |x.t.buf| == BodyAt(x.t.es) + 1 && x.t.buf[BodyAt(x.t.es)] == EMPTY_LIST
    ensures x.s.root == EMPTY_LIST && Nu(x, x.s.root) == EMPTY_LIST && x.t.gs == []
  {
    SlotsPlain(x, BodyAt(x.t.es));
    var a := x.s.root;
    if a.Con? && !IsDirect(a.functor) { AtomRead(x, a.functor); }
    if x.t.gs != [] { StartsUp(x.s, x.t, 0, |x.t.gs|); }
  }

  lemma {:induction false} SingleRebuilt(x: Trip)
    requires OnTheWay(x) && |x.t.buf| == BodyAt(x.t.es) + 1 && x.t.buf[BodyAt(x.t.es)] == EMPTY_LIST
    ensures Rebuilt(x.s, x.nm, Nodes(x), NuOf(x), |x.st0.heap|, x.st.heap, x.st.atoms, x.st.vars, EMPTY_LIST)
  {
    SingleRoot(x);
    SlotsPlain(x, BodyAt(x.t.es));
    KnownRebuilt(x, x.s.root);
    forall c | c in Nodes(x)
      ensures NodeRebuilt(x.s, x.nm, Nodes(x), NuOf(x), |x.st0.heap|, x.st.heap, x.st.atoms, x.st.vars, c)
    {
      assert Indexed(x.s, x.nm, x.t, c);
      if c.Ref? && c !in HeaderIndex(x.t.es) { UnnamedPlain(x, c); }
      VariableRead(x, c);
    }
    forall c, d | c in Nodes(x) && d in Nodes(x) && c != d ensures Nu(x, c) != Nu(x, d) {
      if Nu(x, c) == Nu(x, d) { NodesApart(x, c, d); }
    }
  }

  // ----- writing and reading -----

  /** There are no more words and atoms than their fields can number. */
  ghost predicate Fits(t: Form, atoms: seq<Text>) {
    |t.buf| <= DIRECT && |atoms| <= DIRECT
  }

  lemma {:induction false} Sent(s: Source, nm: Naming, t: Form, st0: TermReader.State, st: TermReader.State)
    requires Good(s) && Serial(s, nm, t) && Fits(t, st.atoms) && st0.index == map[]
    requires st == TermReader.LoadAll(st0, Pairs(t.es))
    ensures OnTheWay(Trip(s, nm, t, st0, st))
  {
    SerialLaid(s, nm, t);
    HeaderLoads(s, nm, t.es, st0, |t.es|);
    assert Pairs(t.es)[..|t.es|] == Pairs(t.es);
  }

  /** Writing a term and reading it into any environment gives the same term again, or, exactly when a
      bignum in it has no bits, is refused.  What is written and read is what is reached from the root.
      That the names are read back is what `HeaderParsed` is about. */
  method WriteAndRead(w: TermWriter.Writer, rd: TermReader.Reader, ghost s: Source, t: Cell)
    returns (r: TermReader.Result<Cell>, ghost form: Form, ghost nu: Cell -> Cell)
    requires w.Reads(s) && IsTerm(s.kind, t) && s.root == Value(s.heap, s.kind, t)
    modifies w, rd
    ensures Serial(s, w.Names(), form) && Lean(s, form) && form.buf == w.bytes && old(rd.heap) <= rd.heap
    ensures forall c :: c in NodesOf(form) <==> (c.Str? || c.Ref? || c.Big?) && PartOf(s, c)
    ensures Fits(form, rd.atoms) && NamesReadable(form.es) ==> (r.Ok? <==> BitsPositive(s, form))
    ensures Fits(form, rd.atoms) && NamesReadable(form.es) && r.Ok? ==>
              Rebuilt(s, w.Names(), NodesOf(form), nu, |old(rd.heap)|, rd.heap, rd.atoms, rd.vars, r.value)
  {
    form := w.Write(s, t);
    AllParts(s, w.Names(), form);
    ghost var mid, used;
    ghost var st0 := rd.Now().(index := map[]);
    r, mid, used := rd.Read(w.bytes);
    ghost var x := Trip(s, w.Names(), form, st0, mid);
    nu := NuOf(x);
    if Fits(form, rd.atoms) && NamesReadable(form.es) {
      HeaderParsed(s, w.Names(), form.es, form.buf);
      Sent(s, w.Names(), form, st0, mid);
      BodyThere(x);
      Received(x, r, rd.heap, used);
    }
  }

  lemma {:induction false} AllParts(s: Source, nm: Naming, t: Form)
    requires Good(s) && Serial(s, nm, t) && Lean(s, t)
    ensures forall c :: c in NodesOf(t) <==> (c.Str? || c.Ref? || c.Big?) && PartOf(s, c)
  {
    forall c ensures c in NodesOf(t) <==> (c.Str? || c.Ref? || c.Big?) && PartOf(s, c) { NodesAreParts(s, nm, t, c); }
  }

  lemma {:induction false} BodyThere(x: Trip)
    requires OnTheWay(x)
    ensures BodyAt(x.t.es) < |x.t.buf|
  {
    SlotsPlain(x, BodyAt(x.t.es));
  }

  /** When no word is refused the bignums have bits. */
  lemma {:induction false} BitsSeen(x: Trip)
    requires OnTheWay(x) && TermReader.WordsOk(x.t.buf, BodyAt(x.t.es), |x.st.heap|, x.st.index, |x.t.buf|)
    ensures BitsPositive(x.s, x.t)
  {
    forall g | g in x.t.gs && g.Big? && g.index < |x.s.heap| && x.s.heap[g.index].Dat?
      ensures x.s.heap[g.index].bits >= 1
    {
      NodeLaid(x.s, x.t, |x.st.heap|, g);
      BigBits(x, g);
      assert TermReader.WordError(x.t.buf, BodyAt(x.t.es), x.st.index, x.t.m[g]) == None;
    }
  }

  /** What the reader reports, and what is there then. */
  lemma {:induction false} Received(x: Trip, r: TermReader.Result<Cell>, h: seq<Cell>, used: set<nat>)
    requires OnTheWay(x) && TermReader.HeaderEnd(x.t.buf) == TermReader.Ok(BodyAt(x.t.es)) &&
             |x.st0.heap| <= |x.st.heap|
    requires TermReader.Single(x.t.buf) ==> r == TermReader.Ok(EMPTY_LIST) && h == x.st.heap
    requires r.Ok? && !TermReader.Single(x.t.buf) ==>
               && TermReader.Loaded(x.t.buf, BodyAt(x.t.es), x.st.index, x.st.heap, h, used) &&
                 BodyAt(x.t.es) < |x.t.buf|
               && r.value == TermReader.Final(x.t.buf, BodyAt(x.t.es), |x.st.heap|, x.st.index)(BodyAt(x.t.es))
    requires !TermReader.Single(x.t.buf) && r.Err? ==>
               || TermReader.FirstWrong(x.t.buf, BodyAt(x.t.es), |x.st.heap|, x.st.index, r.error)
               || (TermReader.Loaded(x.t.buf, BodyAt(x.t.es), x.st.index, x.st.heap, h, used)
                   && exists i: nat :: InPart(NewPart(x, h, used), i) && i in used && !Fine(NewPart(x, h, used), i))
    ensures r.Ok? <==> BitsPositive(x.s, x.t)
    ensures r.Ok? ==> Rebuilt(x.s, x.nm, Nodes(x), NuOf(x), |x.st0.heap|, h, x.st.atoms, x.st.vars, r.value)
  {
    SlotsPlain(x, BodyAt(x.t.es));
    if TermReader.Single(x.t.buf) {
      SingleRebuilt(x);
      SingleRoot(x);
    } else if r.Err? {
      if BitsPositive(x.s, x.t) {
        NothingWrong(x, r.error);
        var i: nat :| InPart(NewPart(x, h, used), i) && i in used && !Fine(NewPart(x, h, used), i);
        CellFine(x, h, used, i);
      }
    } else {
      BitsSeen(x);
      SlotNow(x, h, BodyAt(x.t.es));
      AllRebuilt(x, h, r.value);
    }
  }
}
