/**
 * How a thread pool may divide work: any partition of the range into chunks, taken in any order. The
 * pool itself is not part of this model; everything that uses it is proved for every schedule.
 */
module Schedules {
  import opened Arith
  import opened Spans

  datatype Chunk = Chunk(first: nat, last: nat)

  predicate Contains(chunk: Chunk, x: nat) {
    chunk.first <= x < chunk.last
  }

  ghost predicate Apart(a: Chunk, b: Chunk) {
    forall x :: Contains(a, x) ==> !Contains(b, x)
  }

  ghost predicate InSome(chunks: seq<Chunk>, k: nat, x: nat)
    requires k <= |chunks|
  {
    exists i :: 0 <= i < k && Contains(chunks[i], x)
  }

  /** Each of `0` to `n - 1` belongs to exactly one chunk. */
  ghost predicate IsPartition(chunks: seq<Chunk>, n: nat) {
    && (forall i :: 0 <= i < |chunks| ==> chunks[i].first <= chunks[i].last <= n)
    && (forall i, j :: 0 <= i < j < |chunks| ==> Apart(chunks[i], chunks[j]))
    && (forall x :: 0 <= x < n ==> InSome(chunks, |chunks|, x))
  }

  /** A schedule answers, for a range and a grain size, with the chunks in the order they are run. */
  type Schedule = (nat, nat) -> seq<Chunk>

  ghost predicate Partitions(schedule: Schedule) {
    forall n: nat, grain: nat :: IsPartition(schedule(n, grain), n)
  }

  /** The iterations of a chunk of rows, `n` iterations a row, the first row starting at `base`. */
  ghost function ChunkSpan(chunk: Chunk, base: nat, n: nat): set<nat> {
    Span(base + chunk.first * n, base + chunk.last * n)
  }

  /** The iterations of the first `k` chunks. */
  ghost function Done(chunks: seq<Chunk>, k: nat, base: nat, n: nat): set<nat>
    requires k <= |chunks|
  {
    if k == 0 then {} else Done(chunks, k - 1, base, n) + ChunkSpan(chunks[k - 1], base, n)
  }

  lemma RowOfIteration(x: nat, a: nat, b: nat, n: nat)
    requires n > 0
    ensures a * n <= x < b * n <==> Contains(Chunk(a, b), x / n)
  {
    var q := x / n;
    if a <= q { MulMono(a, q, n); } else { MulMono(q + 1, a, n); }
    if q < b { MulMono(q + 1, b, n); } else { MulMono(b, q, n); }
  }

  lemma InChunk(chunk: Chunk, base: nat, n: nat, g: nat)
    requires n > 0
    ensures g in ChunkSpan(chunk, base, n) <==> g >= base && Contains(chunk, (g - base) / n)
  {
    if g >= base {
      RowOfIteration(g - base, chunk.first, chunk.last, n);
    } else {
      MulMono(0, chunk.first, n);
    }
  }

  lemma {:induction false} InDone(chunks: seq<Chunk>, k: nat, base: nat, n: nat, g: nat)
    requires k <= |chunks| && n > 0
    ensures g in Done(chunks, k, base, n) <==> g >= base && InSome(chunks, k, (g - base) / n)
  {
    if k > 0 {
      hide *;
      InDone(chunks, k - 1, base, n, g);
      DoneMore(chunks, k, base, n, g);
    } else {
      assert Done(chunks, 0, base, n) == {};
    }
  }

  lemma DoneMore(chunks: seq<Chunk>, k: nat, base: nat, n: nat, g: nat)
    requires 0 < k <= |chunks| && n > 0
    requires g in Done(chunks, k - 1, base, n) <==> g >= base && InSome(chunks, k - 1, (g - base) / n)
    ensures g in Done(chunks, k, base, n) <==> g >= base && InSome(chunks, k, (g - base) / n)
  {
    hide *;
    DoneSplits(chunks, k, base, n, g);
    InChunk(chunks[k - 1], base, n, g);
    if g >= base {
      var row := (g - base) / n;
      SomeSnoc(chunks, k - 1, row);
    }
  }

  lemma DoneSplits(chunks: seq<Chunk>, k: nat, base: nat, n: nat, g: nat)
    requires 0 < k <= |chunks|
    ensures g in Done(chunks, k, base, n) <==> g in Done(chunks, k - 1, base, n) || g in ChunkSpan(chunks[k - 1], base, n)
  {
    hide ChunkSpan;
  }

  lemma SomeSnoc(chunks: seq<Chunk>, k: nat, x: nat)
    requires k < |chunks|
    ensures InSome(chunks, k + 1, x) <==> InSome(chunks, k, x) || Contains(chunks[k], x)
  {
  }

  /** The next chunk does nothing that an earlier chunk has done. */
  lemma NextDisjoint(chunks: seq<Chunk>, k: nat, base: nat, n: nat, total: nat)
    requires IsPartition(chunks, total) && k < |chunks| && n > 0
    ensures Done(chunks, k, base, n) !! ChunkSpan(chunks[k], base, n)
  {
    forall g | g in Done(chunks, k, base, n) ensures g !in ChunkSpan(chunks[k], base, n) {
      InDone(chunks, k, base, n, g);
      InChunk(chunks[k], base, n, g);
      EarlierApart(chunks, k, total, (g - base) / n);
    }
    hide *;
  }

  lemma EarlierApart(chunks: seq<Chunk>, k: nat, total: nat, x: nat)
    requires IsPartition(chunks, total) && k < |chunks| && InSome(chunks, k, x)
    ensures !Contains(chunks[k], x)
  {
    var i :| 0 <= i < k && Contains(chunks[i], x);
    assert Apart(chunks[i], chunks[k]);
  }

  lemma InAll(chunks: seq<Chunk>, total: nat, x: nat)
    requires IsPartition(chunks, total)
    ensures InSome(chunks, |chunks|, x) <==> Contains(Chunk(0, total), x)
  {
  }

  /** All chunks together do everything. */
  lemma AllDone(chunks: seq<Chunk>, base: nat, n: nat, total: nat)
    requires IsPartition(chunks, total) && n > 0
    ensures Done(chunks, |chunks|, base, n) == ChunkSpan(Chunk(0, total), base, n)
  {
    hide *;
    forall g: nat ensures g in Done(chunks, |chunks|, base, n) <==> g in ChunkSpan(Chunk(0, total), base, n) {
      DoneAt(chunks, base, n, total, g);
    }
  }

  lemma DoneAt(chunks: seq<Chunk>, base: nat, n: nat, total: nat, g: nat)
    requires IsPartition(chunks, total) && n > 0
    ensures g in Done(chunks, |chunks|, base, n) <==> g in ChunkSpan(Chunk(0, total), base, n)
  {
    hide *;
    InDone(chunks, |chunks|, base, n, g);
    InChunk(Chunk(0, total), base, n, g);
    if g >= base {
      InAll(chunks, total, (g - base) / n);
    }
  }
}
