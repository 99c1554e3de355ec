/** Cells of the term heap, and what makes a heap well formed.

    A heap is a sequence of tagged cells.  Variables are REF cells, an unbound
    variable being a REF cell that points at itself; a structure is a STR cell
    pointing at a CON cell (its functor) that is followed by its argument cells;
    a BIG cell points at a DAT header that is followed by raw payload cells.  FWD
    cells exist only while a unification is in progress. */
module Cells {

  datatype Functor = Functor(atom: nat, arity: nat)

  datatype Cell =
    | Ref(index: nat)
    | Int(value: int)
    | Big(index: nat)
    | Con(functor: Functor)
    | Str(index: nat)
    | Dat(bits: nat, word: nat)
    | Fwd(index: nat)

  /** The role an address plays.  The same address keeps its role for life. */
  datatype Kind = Data | FunctorKind | Header | Payload

  /** Number of cells, header included, of a bignum: 32 bits of the header cell and
      then 64 bits in each further cell. */
  function NumCells(bits: nat): nat {
    (1 + (bits + 31) / 32 + 1) / 2
  }

  /** That is as few cells as have room for them. */
  lemma {:induction false} NumCellsLeast(bits: nat, n: nat)
    requires n > 0
    ensures NumCells(bits) > 0 && (bits <= 32 + 64 * (n - 1) <==> NumCells(bits) <= n)
  {
  }

  /** The bignums at `i` of `h` and at `j` of `h'` are equal: their headers, with the number of bits and the first
      32 of them, and every further cell that has some of their bits. */
  ghost predicate SameNumber(h: seq<Cell>, i: nat, h': seq<Cell>, j: nat) {
    && i < |h| && j < |h'| && h[i].Dat? && h'[j] == h[i]
    && forall m: nat :: 32 + 64 * m < h[i].bits ==>
         i + 1 + m < |h| && j + 1 + m < |h'| && h'[j + 1 + m] == h[i + 1 + m]
  }

  /** Cells in a heap block. */
  const BLOCK_SIZE: nat := 8192

  /** Where `n` cells that must not span blocks are allocated when `size` cells are in use:
      at the end of the last block, or in a new block if they do not fit. */
  function AllocateAt(size: nat, n: nat): (at: nat)
    ensures at >= size
    ensures n <= BLOCK_SIZE ==> at / BLOCK_SIZE * BLOCK_SIZE + BLOCK_SIZE >= at + n
  {
    var used := size % BLOCK_SIZE;
    if used != 0 && used + n <= BLOCK_SIZE then size
    else if used == 0 then size
    else size - used + BLOCK_SIZE
  }

  /** Blocks have 8192 cells.  The cells are put behind those in use if they fit into the block there, and otherwise,
      only then, at the beginning of the next block. */
  lemma {:induction false} AllocateExact(size: nat, n: nat)
    requires 0 < n <= 8192
    ensures var at := AllocateAt(size, n);
            && at / 8192 == (at + n - 1) / 8192
            && (size / 8192 == (size + n - 1) / 8192 ==> at == size)
            && (size / 8192 != (size + n - 1) / 8192 ==> at == (size / 8192 + 1) * 8192)
  {
  }

  /** `c` may be stored in an argument cell, bound to a variable or pushed on a stack. */
  ghost predicate IsTerm(k: seq<Kind>, c: Cell) {
    match c
    case Ref(i) => i < |k| && k[i] == Data
    case Str(i) => i < |k| && k[i] == FunctorKind
    case Big(i) => i < |k| && k[i] == Header
    case Con(_) => true
    case Int(_) => true
    case Dat(_, _) => false
    case Fwd(_) => false
  }

  ghost predicate CellOk(h: seq<Cell>, k: seq<Kind>, i: nat)
    requires |h| == |k| && i < |h|
  {
    match k[i]
    case Data => IsTerm(k, h[i])
    case FunctorKind =>
      && h[i].Con?
      && i + h[i].functor.arity < |h|
      && (forall j :: i < j <= i + h[i].functor.arity ==> k[j] == Data)
    case Header =>
      && h[i].Dat?
      && i + NumCells(h[i].bits) <= |h|
      && (forall j :: i < j < i + NumCells(h[i].bits) ==> k[j] == Payload)
    case Payload => true
  }

  ghost predicate Shaped(h: seq<Cell>, k: seq<Kind>) {
    |h| == |k| && forall i :: 0 <= i < |h| ==> CellOk(h, k, i)
  }

  /** The chain of REF cells that starts at `c` ends within `n` steps. */
  ghost predicate Ends(h: seq<Cell>, c: Cell, n: nat)
    decreases n
  {
    c.Ref? ==>
      && c.index < |h|
      && (h[c.index] == c || (n > 0 && Ends(h, h[c.index], n - 1)))
  }

  /** No chain of REF cells is longer than `n`. */
  ghost predicate EndsWithin(h: seq<Cell>, k: seq<Kind>, n: nat) {
    forall c: Cell :: IsTerm(k, c) ==> Ends(h, c, n)
  }

  ghost predicate Acyclic(h: seq<Cell>, k: seq<Kind>) {
    exists n: nat :: EndsWithin(h, k, n)
  }

  ghost predicate WellFormed(h: seq<Cell>, k: seq<Kind>) {
    Shaped(h, k) && Acyclic(h, k)
  }

  /** The cell a chain of REF cells ends at: an unbound variable, or not a REF. */
  ghost function DerefWithin(h: seq<Cell>, c: Cell, n: nat): (r: Cell)
    requires Ends(h, c, n)
    ensures !r.Ref? || (r.index < |h| && h[r.index] == r)
    decreases n
  {
    if !c.Ref? || h[c.index] == c then c else DerefWithin(h, h[c.index], n - 1)
  }

  ghost function Deref(h: seq<Cell>, c: Cell): (r: Cell)
    requires exists n: nat :: Ends(h, c, n)
    ensures !r.Ref? || (r.index < |h| && h[r.index] == r)
  {
    var n: nat :| Ends(h, c, n);
    DerefWithin(h, c, n)
  }

  lemma {:induction false} DerefWithinUnique(h: seq<Cell>, c: Cell, m: nat, n: nat)
    requires Ends(h, c, m) && Ends(h, c, n)
    ensures DerefWithin(h, c, m) == DerefWithin(h, c, n)
    decreases m
  {
    if c.Ref? && h[c.index] != c {
      DerefWithinUnique(h, h[c.index], m - 1, n - 1);
    }
  }

  lemma {:induction false} EndsMonotone(h: seq<Cell>, c: Cell, m: nat, n: nat)
    requires Ends(h, c, m) && m <= n
    ensures Ends(h, c, n)
    decreases n
  {
    if c.Ref? && h[c.index] != c {
      EndsMonotone(h, h[c.index], m - 1, n - 1);
    }
  }

  lemma {:induction false} DerefValue(h: seq<Cell>, c: Cell, n: nat)
    requires Ends(h, c, n)
    ensures Deref(h, c) == DerefWithin(h, c, n)
  {
    var m: nat :| Ends(h, c, m) && Deref(h, c) == DerefWithin(h, c, m);
    DerefWithinUnique(h, c, m, n);
  }

  lemma {:induction false} TermEnds(h: seq<Cell>, k: seq<Kind>, c: Cell)
    requires WellFormed(h, k) && IsTerm(k, c)
    ensures exists n: nat :: Ends(h, c, n)
  {
    var n: nat :| EndsWithin(h, k, n);
    assert Ends(h, c, n);
  }

  /** One step of a chain does not change where it ends. */
  lemma {:induction false} DerefStep(h: seq<Cell>, k: seq<Kind>, c: Cell)
    requires WellFormed(h, k) && IsTerm(k, c)
    ensures exists n: nat :: Ends(h, c, n)
    ensures !c.Ref? || h[c.index] == c ==> Deref(h, c) == c
    ensures c.Ref? && h[c.index] != c ==>
              && IsTerm(k, h[c.index])
              && (exists n: nat :: Ends(h, h[c.index], n))
              && Deref(h, c) == Deref(h, h[c.index])
  {
    TermEnds(h, k, c);
    var n: nat :| Ends(h, c, n);
    DerefValue(h, c, n);
    if c.Ref? && h[c.index] != c {
      assert CellOk(h, k, c.index);
      assert Ends(h, h[c.index], n - 1);
      DerefValue(h, h[c.index], n - 1);
    }
  }

  lemma {:induction false} DerefIsTerm(h: seq<Cell>, k: seq<Kind>, c: Cell, n: nat)
    requires Shaped(h, k) && IsTerm(k, c) && Ends(h, c, n)
    ensures IsTerm(k, DerefWithin(h, c, n))
    decreases n
  {
    if c.Ref? && h[c.index] != c {
      assert CellOk(h, k, c.index);
      DerefIsTerm(h, k, h[c.index], n - 1);
    }
  }

  /** Binding an unbound variable to another chain's end keeps every chain finite. */
  lemma {:induction false} BindEnds(h: seq<Cell>, v: nat, t: Cell, c: Cell, n: nat)
    requires v < |h| && h[v] == Ref(v) && t != Ref(v)
    requires t.Ref? ==> t.index < |h| && h[t.index] == t
    requires Ends(h, c, n)
    ensures Ends(h[v := t], c, n + 1)
    decreases n
  {
    if c.Ref? {
      if c.index == v {
        assert Ends(h[v := t], t, n);
      } else if h[c.index] != c {
        BindEnds(h, v, t, h[c.index], n - 1);
      }
    }
  }

  lemma BindWellFormed(h: seq<Cell>, k: seq<Kind>, v: nat, t: Cell)
    requires WellFormed(h, k) && IsTerm(k, t)
    requires v < |h| && k[v] == Data && h[v] == Ref(v) && t != Ref(v)
    requires t.Ref? ==> h[t.index] == t
    ensures WellFormed(h[v := t], k)
  {
    var h' := h[v := t];
    forall i | 0 <= i < |h'| ensures CellOk(h', k, i) {
      assert CellOk(h, k, i);
    }
    var n: nat :| EndsWithin(h, k, n);
    forall c: Cell | IsTerm(k, c) ensures Ends(h', c, n + 1) {
      BindEnds(h, v, t, c, n);
    }
    assert EndsWithin(h', k, n + 1);
  }

  /** Appending cells keeps a heap well formed when new REF cells are unbound variables. */
  lemma GrowWellFormed(h: seq<Cell>, k: seq<Kind>, h': seq<Cell>, k': seq<Kind>)
    requires WellFormed(h, k) && h <= h' && k <= k' && |h'| == |k'|
    requires forall i :: |h| <= i < |h'| ==> CellOk(h', k', i) && (k'[i] == Data && h'[i].Ref? ==> h'[i] == Ref(i))
    ensures WellFormed(h', k')
  {
    forall i | 0 <= i < |h'| ensures CellOk(h', k', i) {
      if i < |h| { assert CellOk(h, k, i); }
    }
    var n: nat :| EndsWithin(h, k, n);
    forall c: Cell | IsTerm(k', c) ensures Ends(h', c, n + 1) {
      if c.Ref? && c.index < |h| {
        GrowEnds(h, h', c, n);
        EndsMonotone(h', c, n, n + 1);
      }
    }
    assert EndsWithin(h', k', n + 1);
  }

  lemma {:induction false} GrowEnds(h: seq<Cell>, h': seq<Cell>, c: Cell, n: nat)
    requires h <= h' && Ends(h, c, n)
    ensures Ends(h', c, n)
    decreases n
  {
    if c.Ref? && h[c.index] != c {
      GrowEnds(h, h', h[c.index], n - 1);
    }
  }
}
