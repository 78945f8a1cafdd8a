/** Copying a view's elements out in C order (tensor.h, `logical_offset` and `gather_logical`). */
module Gathers {
  import opened Arith
  import opened Layout
  import opened Packing
  import opened Odometer

  const GATHER_RANK: nat := 16
  const TILE: nat := 8

  /** The elements, in C order. */
  ghost predicate Gathered<T>(dst: seq<T>, storage: seq<T>, sizes: seq<nat>, strides: seq<int>)
    requires |sizes| == |strides| && Positive(sizes)
  {
    && Numel(sizes) <= |dst|
    && forall f :: 0 <= f < Numel(sizes) ==>
         0 <= FlatOffset(sizes, strides, f) < |storage| && dst[f] == storage[FlatOffset(sizes, strides, f)]
  }

  ghost predicate OffsetsWithin(sizes: seq<nat>, strides: seq<int>, n: nat)
    requires |sizes| == |strides|
  {
    Positive(sizes) ==> forall f: nat :: f < Numel(sizes) ==> 0 <= FlatOffset(sizes, strides, f) < n
  }

  // ----- the tiled transpose -----

  /** Position of cell `(i, j)` in a row-major matrix with rows of `n`. */
  function Cell(i: nat, j: nat, n: nat): nat {
    i * n + j
  }

  lemma CellInRange(i: nat, j: nat, rows: nat, n: nat)
    requires i < rows && j < n
    ensures Cell(i, j, n) < rows * n
  {
    MulMono(i + 1, rows, n);
    assert (i + 1) * n == i * n + n;
  }

  lemma CellUnique(i: nat, j: nat, k: nat, l: nat, n: nat)
    requires j < n && l < n && Cell(i, j, n) == Cell(k, l, n)
    ensures i == k && j == l
  {
    DivModUnique(Cell(i, j, n), i, j, n);
    DivModUnique(Cell(i, j, n), k, l, n);
  }

  /** The cells in `done` hold their transposed elements. */
  ghost predicate Transposed<T>(dst: seq<T>, src: seq<T>, nrows: nat, ncols: nat, done: set<(int, int)>)
    requires |src| >= nrows * ncols && |dst| >= nrows * ncols
  {
    forall i, j :: (i, j) in done ==> InMatrix(i, j, nrows, ncols) && CellDone(dst, src, nrows, ncols, i, j)
  }

  predicate InMatrix(i: int, j: int, nrows: nat, ncols: nat) {
    0 <= i < nrows && 0 <= j < ncols
  }

  ghost predicate CellDone<T>(dst: seq<T>, src: seq<T>, nrows: nat, ncols: nat, i: int, j: int)
    requires |src| >= nrows * ncols && |dst| >= nrows * ncols && InMatrix(i, j, nrows, ncols)
  {
    CellInRange(i, j, nrows, ncols);
    CellInRange(j, i, ncols, nrows);
    dst[Cell(i, j, ncols)] == src[Cell(j, i, nrows)]
  }

  lemma TransposeOne<T>(dst: seq<T>, src: seq<T>, nrows: nat, ncols: nat, done: set<(int, int)>, i: nat, j: nat)
    requires |src| >= nrows * ncols && |dst| >= nrows * ncols && InMatrix(i, j, nrows, ncols)
    requires Transposed(dst, src, nrows, ncols, done)
    ensures Cell(i, j, ncols) < |dst| && Cell(j, i, nrows) < |src|
    ensures Transposed(dst[Cell(i, j, ncols) := src[Cell(j, i, nrows)]], src, nrows, ncols, done + {(i, j)})
  {
    CellInRange(i, j, nrows, ncols);
    CellInRange(j, i, ncols, nrows);
    var after := dst[Cell(i, j, ncols) := src[Cell(j, i, nrows)]];
    forall k, l | (k, l) in done + {(i, j)} ensures InMatrix(k, l, nrows, ncols) && CellDone(after, src, nrows, ncols, k, l) {
      if (k, l) != (i, j) {
        CellInRange(k, l, nrows, ncols);
        if Cell(k, l, ncols) == Cell(i, j, ncols) {
          CellUnique(k, l, i, j, ncols);
        }
      }
    }
  }

  /** Writes one cell that has not been written before. */
  method WriteCell<T>(src: seq<T>, dst: array<T>, nrows: nat, ncols: nat, i: nat, j: nat, ghost done: set<(int, int)>)
    requires |src| >= nrows * ncols && dst.Length >= nrows * ncols && InMatrix(i, j, nrows, ncols)
    requires (i, j) !in done && Transposed(dst[..], src, nrows, ncols, done)
    modifies dst
    ensures Transposed(dst[..], src, nrows, ncols, done + {(i, j)})
    ensures forall x :: nrows * ncols <= x < dst.Length ==> dst[x] == old(dst[x])
  {
    ghost var was := dst[..];
    TransposeOne(was, src, nrows, ncols, done, i, j);
    CellInRange(i, j, nrows, ncols);
    hide Transposed, CellDone, Cell;
    dst[Cell(i, j, ncols)] := src[Cell(j, i, nrows)];
    assert dst[..] == was[Cell(i, j, ncols) := src[Cell(j, i, nrows)]];
  }

  /** Cells of the tile rows above `io`, and of the tiles left of `jo` in the tile row down to `iEnd`. */
  predicate InTiles(i: int, j: int, io: int, iEnd: int, jo: int, ncols: int) {
    (0 <= i < io && 0 <= j < ncols) || (io <= i < iEnd && 0 <= j < jo)
  }

  ghost predicate TilesDone(done: set<(int, int)>, io: int, iEnd: int, jo: int, ncols: int) {
    forall i, j :: (i, j) in done <==> InTiles(i, j, io, iEnd, jo, ncols)
  }

  /** Cells of one tile before `(ii, jj)`, row by row. */
  predicate InTile(i: int, j: int, io: int, ii: int, jo: int, jEnd: int, jj: int) {
    (io <= i < ii && jo <= j < jEnd) || (i == ii && jo <= j < jj)
  }

  ghost predicate TileDone(done: set<(int, int)>, before: set<(int, int)>, io: int, ii: int, jo: int, jEnd: int, jj: int) {
    forall i, j :: (i, j) in done <==> (i, j) in before || InTile(i, j, io, ii, jo, jEnd, jj)
  }

  lemma TileStep(done: set<(int, int)>, before: set<(int, int)>, io: int, iEnd: int, jo: int, ncols: int, ii: int, jEnd: int, jj: int)
    requires TilesDone(before, io, iEnd, jo, ncols) && TileDone(done, before, io, ii, jo, jEnd, jj)
    requires io <= ii < iEnd && jo <= jj < jEnd
    ensures (ii, jj) !in done
    ensures TileDone(done + {(ii, jj)}, before, io, ii, jo, jEnd, jj + 1)
  {
  }

  lemma TileRow(done: set<(int, int)>, before: set<(int, int)>, io: int, ii: int, jo: int, jEnd: int)
    requires TileDone(done, before, io, ii, jo, jEnd, jEnd) && io <= ii
    ensures TileDone(done, before, io, ii + 1, jo, jEnd, jo)
  {
  }

  lemma TileEnd(done: set<(int, int)>, before: set<(int, int)>, io: int, iEnd: int, jo: int, jEnd: int, ncols: int)
    requires TilesDone(before, io, iEnd, jo, ncols) && TileDone(done, before, io, iEnd, jo, jEnd, jo)
    requires 0 <= io && 0 <= jo <= jEnd
    ensures TilesDone(done, io, iEnd, jEnd, ncols)
  {
  }

  ghost predicate Rest<T>(now: seq<T>, was: seq<T>, from: nat) {
    |now| == |was| && forall x :: from <= x < |was| ==> now[x] == was[x]
  }

  /** One tile. */
  method CopyTile<T>(src: seq<T>, dst: array<T>, nrows: nat, ncols: nat, io: nat, iEnd: nat, jo: nat, jEnd: nat,
                     ghost before: set<(int, int)>) returns (ghost done: set<(int, int)>)
    requires |src| >= nrows * ncols && dst.Length >= nrows * ncols
    requires io <= iEnd <= nrows && jo <= jEnd <= ncols
    requires TilesDone(before, io, iEnd, jo, ncols) && Transposed(dst[..], src, nrows, ncols, before)
    modifies dst
    ensures TilesDone(done, io, iEnd, jEnd, ncols) && Transposed(dst[..], src, nrows, ncols, done)
    ensures Rest(dst[..], old(dst[..]), nrows * ncols)
  {
    hide Transposed, TilesDone, TileDone;
    done := before;
    NoTile(before, io, jo, jEnd);
    for ii := io to iEnd
      invariant TileDone(done, before, io, ii, jo, jEnd, jo)
      invariant Transposed(dst[..], src, nrows, ncols, done) && Rest(dst[..], old(dst[..]), nrows * ncols)
    {
      for jj := jo to jEnd
        invariant TileDone(done, before, io, ii, jo, jEnd, jj)
        invariant Transposed(dst[..], src, nrows, ncols, done) && Rest(dst[..], old(dst[..]), nrows * ncols)
      {
        TileStep(done, before, io, iEnd, jo, ncols, ii, jEnd, jj);
        WriteCell(src, dst, nrows, ncols, ii, jj, done);
        done := done + {(ii, jj)};
      }
      TileRow(done, before, io, ii, jo, jEnd);
    }
    TileEnd(done, before, io, iEnd, jo, jEnd, ncols);
  }

  lemma NoTile(before: set<(int, int)>, io: int, jo: int, jEnd: int)
    ensures TileDone(before, before, io, io, jo, jEnd, jo)
  {
  }

  lemma NextTileRow(done: set<(int, int)>, io: int, iEnd: int, next: int, ncols: int)
    requires TilesDone(done, io, iEnd, ncols, ncols) && 0 <= io <= iEnd
    ensures TilesDone(done, iEnd, next, 0, ncols)
  {
  }

  function Least(a: nat, b: nat): nat {
    if a < b then a else b
  }

  /**
   * The copy in tiles: every cell of the matrix is written exactly once, whatever the sizes are
   * modulo the tile, and ends up holding its transposed element.
   */
  method TiledTranspose<T>(src: seq<T>, dst: array<T>, nrows: nat, ncols: nat) returns (ghost done: set<(int, int)>)
    requires |src| >= nrows * ncols && dst.Length >= nrows * ncols
    modifies dst
    ensures forall i, j :: (i, j) in done <==> InMatrix(i, j, nrows, ncols)
    ensures Transposed(dst[..], src, nrows, ncols, done)
    ensures Rest(dst[..], old(dst[..]), nrows * ncols)
  {
    hide Transposed, TileDone;
    done := {};
    NothingTransposed(dst[..], src, nrows, ncols);
    var io := 0;
    while io < nrows
      invariant 0 <= io && TilesDone(done, Least(io, nrows), Least(io, nrows), 0, ncols)
      invariant Transposed(dst[..], src, nrows, ncols, done) && Rest(dst[..], old(dst[..]), nrows * ncols)
    {
      var iEnd := Least(io + TILE, nrows);
      var jo := 0;
      assert TilesDone(done, io, iEnd, 0, ncols);
      while jo < ncols
        invariant 0 <= jo && TilesDone(done, io, iEnd, Least(jo, ncols), ncols)
        invariant Transposed(dst[..], src, nrows, ncols, done) && Rest(dst[..], old(dst[..]), nrows * ncols)
      {
        var jEnd := Least(jo + TILE, ncols);
        done := CopyTile(src, dst, nrows, ncols, io, iEnd, jo, jEnd, done);
        jo := jo + TILE;
      }
      NextTileRow(done, io, iEnd, iEnd, ncols);
      io := io + TILE;
    }
  }

  lemma NothingTransposed<T>(dst: seq<T>, src: seq<T>, nrows: nat, ncols: nat)
    requires |src| >= nrows * ncols && |dst| >= nrows * ncols
    ensures Transposed(dst, src, nrows, ncols, {})
  {
  }

  // ----- the whole gather -----

  lemma TransposeOffset(d0: nat, d1: nat, f: nat)
    requires d0 > 0 && d1 > 0 && f < d0 * d1
    ensures InMatrix(f / d1, f % d1, d0, d1) && Cell(f / d1, f % d1, d1) == f
    ensures Positive([d0, d1]) && FlatOffset([d0, d1], [1, d0], f) == Cell(f % d1, f / d1, d0)
  {
    DivBound(f, d0, d1);
    var q := f / d1;
    var sizes: seq<nat>, strides: seq<int> := [d0, d1], [1, d0];
    assert sizes[..1] == [d0] && strides[..1] == [1] && sizes[..1][..0] == [] && strides[..1][..0] == [];
    DivModUnique(q, 0, q, d0);
    assert FlatOffset(sizes[..1], strides[..1], q) == FlatOffset([], [], q / d0) + Times(1, q % d0);
    TimesOne(q);
    assert Times(1, q) == q && Times(d0, f % d1) == f % d1 * d0;
  }

  lemma TransposedIsGathered<T>(dst: seq<T>, src: seq<T>, d0: nat, d1: nat, done: set<(int, int)>)
    requires d0 > 0 && d1 > 0 && |src| >= d0 * d1 && |dst| >= d0 * d1
    requires Transposed(dst, src, d0, d1, done) && forall i, j :: (i, j) in done <==> InMatrix(i, j, d0, d1)
    ensures Positive([d0, d1]) && Numel([d0, d1]) == d0 * d1 && Gathered(dst, src, [d0, d1], [1, d0])
  {
    NumelPair(d0, d1);
    forall f | 0 <= f < d0 * d1
      ensures 0 <= FlatOffset([d0, d1], [1, d0], f) < |src| && dst[f] == src[FlatOffset([d0, d1], [1, d0], f)]
    {
      TransposeOffset(d0, d1, f);
      assert (f / d1, f % d1) in done;
      assert CellDone(dst, src, d0, d1, f / d1, f % d1);
      CellInRange(f % d1, f / d1, d1, d0);
    }
  }

  lemma CounterStarts(sizes: seq<nat>, strides: seq<int>)
    requires |sizes| == |strides| && Positive(sizes)
    ensures CounterAt(sizes, [strides], Zeros(|sizes|), [0], 0)
  {
    UnflattenZero(sizes);
    FlatOffsetZero(sizes, strides);
  }

  lemma {:induction false} UnflattenZero(sizes: seq<nat>)
    requires Positive(sizes)
    ensures Unflatten(sizes, 0) == Zeros(|sizes|)
  {
    if |sizes| > 0 {
      var k := |sizes| - 1;
      UnflattenZero(sizes[..k]);
      DivModUnique(0, 0, 0, sizes[k]);
      assert Zeros(|sizes|) == Zeros(k) + [0];
    }
  }

  /** The odometer path: one step of the counter per element. */
  method GatherByCounter<T>(storage: seq<T>, dst: array<T>, sizes: seq<nat>, strides: seq<int>)
    requires |sizes| == |strides| && Positive(sizes) && Numel(sizes) <= dst.Length && OffsetsWithin(sizes, strides, |storage|)
    modifies dst
    ensures Gathered(dst[..], storage, sizes, strides) && Rest(dst[..], old(dst[..]), Numel(sizes))
  {
    hide Numel, FlatOffset, Unflatten;
    var total := Numel(sizes);
    var coord, off := new int[|sizes|](_ => 0), new int[1](_ => 0);
    CounterStarts(sizes, strides);
    assert coord[..] == Zeros(|sizes|) && off[..] == [0];
    for i := 0 to total
      invariant CounterAt(sizes, [strides], coord[..], off[..], i)
      invariant forall f :: 0 <= f < i ==>
                  0 <= FlatOffset(sizes, strides, f) < |storage| && dst[f] == storage[FlatOffset(sizes, strides, f)]
      invariant Rest(dst[..], old(dst[..]), total)
    {
      assert off[..][0] == FlatOffset(sizes, [strides][0], i);
      dst[i] := storage[off[0]];
      Advance(sizes, [strides], coord, off, i);
    }
  }

  lemma EmptyBox(sizes: seq<nat>)
    requires Numel(sizes) == 0
    ensures forall c :: !InBox(sizes, c)
  {
    forall c ensures !InBox(sizes, c) {
      if InBox(sizes, c) {
        FlattenInRange(sizes, c);
        assert false;
      }
    }
  }

  /** Seen by coordinates: the element of `c` lies at the C-order position of `c`. */
  lemma GatheredByCoordinate<T>(dst: seq<T>, storage: seq<T>, sizes: seq<nat>, strides: seq<int>)
    requires |sizes| == |strides| && Positive(sizes) && Gathered(dst, storage, sizes, strides)
    ensures forall c :: InBox(sizes, c) ==> (
              && 0 <= Flatten(sizes, c) < Numel(sizes) <= |dst| && 0 <= Dot(strides, c) < |storage|
              && dst[Flatten(sizes, c)] == storage[Dot(strides, c)])
  {
    forall c | InBox(sizes, c)
      ensures 0 <= Flatten(sizes, c) < Numel(sizes) <= |dst| && 0 <= Dot(strides, c) < |storage|
      ensures dst[Flatten(sizes, c)] == storage[Dot(strides, c)]
    {
      FlattenInRange(sizes, c);
      FlatOffsetIsDot(sizes, strides, Flatten(sizes, c));
    }
  }

  /**
   * Copies every element of a view, in C order, to a packed buffer. The copy, the tiled transpose and
   * the odometer agree on every view; only a non-contiguous view of more than 16 dimensions is refused.
   */
  method GatherLogical<T>(storage: seq<T>, dst: array<T>, sizes: seq<nat>, strides: seq<int>, contiguous: bool) returns (ok: bool)
    requires |sizes| == |strides| && Numel(sizes) <= dst.Length && OffsetsWithin(sizes, strides, |storage|)
    requires contiguous && Numel(sizes) > 0 ==> Packed(sizes, strides)
    modifies dst
    ensures !ok <==> Numel(sizes) > 0 && !contiguous && |sizes| > 16
    ensures ok && Numel(sizes) > 0 ==> Positive(sizes) && Gathered(dst[..], storage, sizes, strides)
    ensures ok ==> forall c :: InBox(sizes, c) ==> (
              && 0 <= Flatten(sizes, c) < Numel(sizes) && 0 <= Dot(strides, c) < |storage|
              && dst[Flatten(sizes, c)] == storage[Dot(strides, c)])
    ensures forall x: nat :: (if ok then Numel(sizes) else 0) <= x < dst.Length ==> dst[x] == old(dst[x])
  {
    hide Numel, Flatten, Dot, InBox, FlatOffset, Transposed, TilesDone, OffsetsWithin;
    NumelPositive(sizes);
    var total := Numel(sizes);
    if total == 0 {
      EmptyBox(sizes);
      return true;
    }
    if contiguous {
      CopyPacked(storage, dst, sizes, strides);
      GatheredByCoordinate(dst[..], storage, sizes, strides);
      return true;
    }
    if |sizes| > GATHER_RANK {
      return false;
    }
    if |sizes| == 2 {
      var d0, d1 := sizes[0], sizes[1];
      if strides[0] == 1 && strides[1] == d0 {
        assert sizes == [d0, d1] && strides == [1, d0];
        NumelPair(d0, d1);
        TransposeStorage(d0, d1, |storage|);
        ghost var done := TiledTranspose(storage, dst, d0, d1);
        TransposedIsGathered(dst[..], storage, d0, d1, done);
        GatheredByCoordinate(dst[..], storage, sizes, strides);
        return true;
      }
    }
    GatherByCounter(storage, dst, sizes, strides);
    GatheredByCoordinate(dst[..], storage, sizes, strides);
    return true;
  }

  lemma TransposeStorage(d0: nat, d1: nat, n: nat)
    requires d0 > 0 && d1 > 0 && OffsetsWithin([d0, d1], [1, d0], n)
    ensures n >= d0 * d1
  {
    NumelPair(d0, d1);
    CellInRange(d0 - 1, d1 - 1, d0, d1);
    var f := Cell(d0 - 1, d1 - 1, d1);
    TransposeOffset(d0, d1, f);
    CellUnique(d0 - 1, d1 - 1, f / d1, f % d1, d1);
    assert Cell(d1 - 1, d0 - 1, d0) == d0 * d1 - 1;
  }

  /** The contiguous path. */
  method CopyPacked<T>(storage: seq<T>, dst: array<T>, sizes: seq<nat>, strides: seq<int>)
    requires |sizes| == |strides| && Positive(sizes) && Numel(sizes) <= dst.Length && OffsetsWithin(sizes, strides, |storage|)
    requires Packed(sizes, strides)
    modifies dst
    ensures Gathered(dst[..], storage, sizes, strides) && Rest(dst[..], old(dst[..]), Numel(sizes))
  {
    hide Numel, FlatOffset;
    for i := 0 to Numel(sizes)
      invariant forall f :: 0 <= f < i ==>
                  0 <= FlatOffset(sizes, strides, f) < |storage| && dst[f] == storage[FlatOffset(sizes, strides, f)]
      invariant Rest(dst[..], old(dst[..]), Numel(sizes))
    {
      PackedOffset(sizes, strides, 1, i);
      TimesOne(i);
      dst[i] := storage[i];
    }
  }
}
