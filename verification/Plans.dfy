/** The iteration plan and its in-place preparation: drop, sort, merge, classify (iteration_plan.h). */
module Plans {
  import opened Arith
  import opened Layout
  import opened Nests

  /** Exactly the wide dimensions, sorted: this determines the order completely. */
  ghost predicate DimOrder(dims: seq<Dim>, n: nat, order: seq<nat>) {
    Uniform(dims, n) && KeepsWide(dims, order) && SortedOrder(dims, n, order)
  }

  /** A stable sort has one possible result. */
  lemma {:induction false} DimOrderUnique(dims: seq<Dim>, n: nat, a: seq<nat>, b: seq<nat>, i: nat)
    requires DimOrder(dims, n, a) && DimOrder(dims, n, b) && i <= |a| && i <= |b|
    ensures a[..i] == b[..i]
  {
    if i > 0 {
      DimOrderUnique(dims, n, a, b, i - 1);
      if a[i - 1] != b[i - 1] {
        NextInOrder(dims, n, a, b, i - 1);
        NextInOrder(dims, n, b, a, i - 1);
        BeforeIrreflexive(dims, n, a[i - 1], b[i - 1]);
      }
    }
  }

  /** After a common prefix, the next element of `a` does not come after the next element of `b`. */
  lemma NextInOrder(dims: seq<Dim>, n: nat, a: seq<nat>, b: seq<nat>, i: nat)
    requires DimOrder(dims, n, a) && DimOrder(dims, n, b) && i < |a| && i < |b|
    requires a[..i] == b[..i] && a[i] != b[i]
    ensures Before(dims, n, b[i], a[i])
  {
    assert a[i] in a;
    assert a[i] in b;
    var j :| 0 <= j < |b| && b[j] == a[i];
  }

  lemma BeforeIrreflexive(dims: seq<Dim>, n: nat, a: nat, b: nat)
    requires Uniform(dims, n) && a < |dims| && b < |dims|
    ensures !(Before(dims, n, a, b) && Before(dims, n, b, a))
  {
    OuterTrichotomy(dims[a], dims[b], 0);
  }

  /**
   * 0: one dimension, every operand unit stride. 1: innermost stride one for every operand.
   * 2: destination unit stride, sources one or zero. 3: anything else.
   */
  function TierOf(dims: seq<Dim>, n: nat): nat
    requires Uniform(dims, n) && |dims| > 0 && n > 0
  {
    var s := dims[|dims| - 1].strides;
    if forall op :: 0 <= op < n ==> s[op] == 1 then (if |dims| == 1 then 0 else 1)
    else if s[0] == 1 && forall op :: 1 <= op < n ==> s[op] == 0 || s[op] == 1 then 2
    else 3
  }

  lemma InnerRow(dims: seq<Dim>, n: nat, row: seq<int>)
    requires Uniform(dims, n) && |dims| > 0 && n > 0 && row == dims[|dims| - 1].strides
    ensures TierOf(dims, n)
         == (if forall op :: 0 <= op < n ==> row[op] == 1 then (if |dims| == 1 then 0 else 1)
             else if row[0] == 1 && forall op :: 1 <= op < n ==> row[op] == 0 || row[op] == 1 then 2
             else 3)
  {
  }

  /** Column `d` of a strides table whose rows are operands. */
  function Column(table: array2<int>, n: nat, d: nat): (c: seq<int>)
    requires n <= table.Length0 && d < table.Length1
    reads table
    ensures |c| == n && forall op :: 0 <= op < n ==> c[op] == table[op, d]
  {
    seq(n, op requires 0 <= op < n && n <= table.Length0 && d < table.Length1 reads table => table[op, d])
  }

  /** The first `k` dimensions held in a pair of local tables. */
  function TableDims(sizes: array<nat>, table: array2<int>, n: nat, k: nat): (r: seq<Dim>)
    requires k <= sizes.Length && n <= table.Length0 && k <= table.Length1
    reads sizes, table
    ensures |r| == k && forall d :: 0 <= d < k ==> r[d] == Dim(sizes[d], Column(table, n, d))
  {
    if k == 0 then [] else TableDims(sizes, table, n, k - 1) + [Dim(sizes[k - 1], Column(table, n, k - 1))]
  }

  method StoreColumn(table: array2<int>, n: nat, d: nat, column: seq<int>)
    requires n == |column| <= table.Length0 && d < table.Length1
    modifies table
    ensures Column(table, n, d) == column
    ensures forall op, e :: 0 <= op < table.Length0 && 0 <= e < table.Length1 && e != d ==> table[op, e] == old(table[op, e])
  {
    for op := 0 to n
      invariant forall o :: 0 <= o < op ==> table[o, d] == column[o]
      invariant forall o, e :: 0 <= o < table.Length0 && 0 <= e < table.Length1 && e != d ==> table[o, e] == old(table[o, e])
    {
      table[op, d] := column[op];
    }
  }

  function Members(s: seq<nat>): (r: set<nat>)
    ensures forall x :: x in r <==> x in s
  {
    set x | x in s
  }

  /** One entry moved up by one place. */
  lemma Shifted(all: seq<nat>, before: seq<nat>, i: nat, j: nat)
    requires 0 < j <= i < |all| && |before| == i && all[..j] == before[..j] && all[j + 1..i + 1] == before[j..]
    ensures all[j - 1] == before[j - 1]
    ensures var now := all[j := all[j - 1]];
            now[..j - 1] == before[..j - 1] && now[j..i + 1] == before[j - 1..] && now[i + 1..] == all[i + 1..]
  {
    assert all[j - 1] == all[..j][j - 1];
    var now := all[j := all[j - 1]];
    assert now[j..i + 1] == [all[j - 1]] + all[j + 1..i + 1];
    assert before[j - 1..] == [before[j - 1]] + before[j..];
    assert now[..j - 1] == all[..j][..j - 1];
  }

  /** Moves `perm[i]` down past every smaller position it must come before. */
  method InsertDim(dims: seq<Dim>, n: nat, perm: array<nat>, i: nat)
    requires Uniform(dims, n) && i < perm.Length && Indices(dims, perm[..i + 1])
    requires SortedOrder(dims, n, perm[..i]) && forall x :: x in perm[..i] ==> x < perm[i]
    modifies perm
    ensures Indices(dims, perm[..i + 1]) && SortedOrder(dims, n, perm[..i + 1])
    ensures Members(perm[..i + 1]) == old(Members(perm[..i + 1]))
    ensures perm[i + 1..] == old(perm[i + 1..])
  {
    hide OuterFrom, OuterThan, Before, SortedOrder, Members;
    ghost var before := perm[..i];
    var d := perm[i];
    var j := i;
    assert forall k :: 0 <= k < i ==> before[k] == perm[..i + 1][k];
    while j > 0 && OuterThan(dims[d], dims[perm[j - 1]])
      invariant 0 <= j <= i
      invariant perm[..j] == before[..j] && perm[j + 1..i + 1] == before[j..]
      invariant forall k :: j <= k < i ==> OuterThan(dims[d], dims[before[k]])
      invariant perm[i + 1..] == old(perm[i + 1..])
    {
      ghost var all := perm[..];
      Shifted(all, before, i, j);
      perm[j] := perm[j - 1];
      assert perm[..] == all[j := all[j - 1]];
      j := j - 1;
      assert perm[..j] == perm[..][..j] && perm[j + 1..i + 1] == perm[..][j + 1..i + 1] && perm[i + 1..] == perm[..][i + 1..];
    }
    perm[j] := d;
    assert j > 0 ==> perm[j - 1] == before[j - 1];
    InsertedAt(perm[..], before, i, j, d);
    assert old(perm[..i + 1]) == before + [d];
    hide *;
    assert perm[..][..i + 1] == perm[..i + 1];
    InsertedSorted(dims, n, before, d, j);
  }

  lemma InsertedAt(all: seq<nat>, before: seq<nat>, i: nat, j: nat, d: nat)
    requires j <= i < |all| && |before| == i && all[j] == d && all[..j] == before[..j] && all[j + 1..i + 1] == before[j..]
    ensures all[..i + 1] == before[..j] + [d] + before[j..]
  {
    assert all[..i + 1] == all[..j] + [all[j]] + all[j + 1..i + 1];
  }

  lemma InsertedSorted(dims: seq<Dim>, n: nat, before: seq<nat>, d: nat, j: nat)
    requires Uniform(dims, n) && Indices(dims, before) && d < |dims| && SortedOrder(dims, n, before) && j <= |before|
    requires forall x :: x in before ==> x < d
    requires forall k :: j <= k < |before| ==> OuterThan(dims[d], dims[before[k]])
    requires j > 0 ==> !OuterThan(dims[d], dims[before[j - 1]])
    ensures var r := before[..j] + [d] + before[j..];
            && Indices(dims, r) && SortedOrder(dims, n, r)
            && Members(r) == Members(before + [d])
  {
    var r := before[..j] + [d] + before[j..];
    if j > 0 {
      OuterTrichotomy(dims[d], dims[before[j - 1]], 0);
      assert before[j - 1] in before;
      assert Before(dims, n, before[j - 1], d);
    }
    forall x, y | 0 <= x < y < |r| ensures Before(dims, n, r[x], r[y]) {
      if y == j && x < j - 1 {
        BeforeTransitive(dims, n, before[x], before[j - 1], d);
      }
    }
  }

  predicate StridesFor(strides: seq<seq<int>>, rank: nat) {
    forall op :: 0 <= op < |strides| ==> |strides[op]| == rank
  }

  /** Dimension `d` with the stride of every operand along it. */
  function DimOf(sizes: seq<nat>, strides: seq<seq<int>>, d: nat): (x: Dim)
    requires StridesFor(strides, |sizes|) && d < |sizes|
    ensures x.size == sizes[d] && |x.strides| == |strides|
    ensures forall op :: 0 <= op < |strides| ==> x.strides[op] == strides[op][d]
  {
    Dim(sizes[d], seq(|strides|, op requires 0 <= op < |strides| => strides[op][d]))
  }

  /** A table of strides by operand, read dimension by dimension. */
  function NestOf(sizes: seq<nat>, strides: seq<seq<int>>): (dims: seq<Dim>)
    requires StridesFor(strides, |sizes|)
    ensures |dims| == |sizes| && Uniform(dims, |strides|)
    ensures forall d :: 0 <= d < |sizes| ==> dims[d] == DimOf(sizes, strides, d)
  {
    seq(|sizes|, d requires 0 <= d < |sizes| => DimOf(sizes, strides, d))
  }

  class IterationPlan {
    var rank: nat            // after dropping size-1 dimensions and merging
    var nOperands: nat       // destination and every tensor leaf, in tree order
    var tier: nat
    var numel: nat
    var sizes: seq<nat>      // outermost first; the last one is the row
    var strides: seq<seq<int>>  // by operand, then dimension; operand 0 is the destination
    var bases: seq<int>      // first pool element of each operand

    predicate Shaped()
      reads `rank, `nOperands, `sizes, `strides, `bases
    {
      |strides| == |bases| == nOperands && |sizes| == rank && StridesFor(strides, rank)
    }

    function DimAt(d: nat): Dim
      requires Shaped() && d < rank
      reads `rank, `nOperands, `sizes, `strides, `bases
    {
      DimOf(sizes, strides, d)
    }

    /** The plan as a loop nest. */
    function Dims(): (dims: seq<Dim>)
      requires Shaped()
      reads `rank, `nOperands, `sizes, `strides, `bases
      ensures |dims| == rank && Uniform(dims, nOperands)
      ensures forall d :: 0 <= d < rank ==> dims[d] == DimAt(d)
    {
      NestOf(sizes, strides)
    }

    /** The first `op` operands have the same strides along dimensions `d - 1` and `d`. */
    ghost predicate AlikeUpTo(d: nat, op: nat)
      requires Shaped() && 0 < d < rank && op <= nOperands
      reads `rank, `nOperands, `sizes, `strides, `bases
    {
      forall k :: 0 <= k < op ==> strides[k][d - 1] == strides[k][d]
    }

    /** For some operand the outer dimension does not take up where the inner one ends. */
    ghost predicate StepsApart(d: nat)
      requires Shaped() && 0 < d < rank
      reads `rank, `nOperands, `sizes, `strides, `bases
    {
      exists op :: 0 <= op < nOperands && strides[op][d - 1] != strides[op][d] * sizes[d]
    }

    lemma TableLaws()
      requires Shaped() && AllDescend(Dims()) && MergedOut(Dims())
      ensures forall d, op :: 0 < d < rank && 0 <= op < nOperands && AlikeUpTo(d, op) ==> strides[op][d - 1] >= strides[op][d]
      ensures forall d :: 0 < d < rank ==> StepsApart(d)
      ensures nOperands > 0 ==> forall d :: 0 < d < rank ==> strides[0][d - 1] >= strides[0][d]
    {
      var dims := Dims();
      forall d, op | 0 < d < rank && 0 <= op < nOperands && AlikeUpTo(d, op)
        ensures strides[op][d - 1] >= strides[op][d]
      {
        assert Descends(dims[d - 1].strides, dims[d].strides);
        assert dims[d - 1].strides[..op] == dims[d].strides[..op];
      }
      forall d | 0 < d < rank ensures StepsApart(d) {
        assert !Mergeable(dims[d - 1], dims[d]);
        var op :| 0 <= op < nOperands && dims[d - 1].strides[op] != Times(dims[d].strides[op], dims[d].size);
        assert strides[op][d - 1] != strides[op][d] * sizes[d];
      }
    }

    constructor ()
      ensures rank == nOperands == numel == 0 && tier == 3 && sizes == [] && strides == [] && bases == []
    {
      rank, nOperands, tier, numel := 0, 0, 3, 0;
      sizes, strides, bases := [], [], [];
    }

    /** Collects the dimensions of size other than one, in their original order. */
    method CollectWide(perm: array<nat>) returns (m: nat)
      requires Shaped() && perm.Length == rank
      modifies perm
      ensures m <= rank && Increasing(perm[..m])
      ensures forall i :: 0 <= i < m ==> perm[i] < rank
      ensures forall k :: 0 <= k < rank ==> (k in perm[..m] <==> sizes[k] != 1)
    {
      m := 0;
      for d := 0 to rank
        invariant m <= d
        invariant Increasing(perm[..m])
        invariant forall i :: 0 <= i < m ==> perm[i] < d
        invariant forall k :: 0 <= k < d ==> (k in perm[..m] <==> sizes[k] != 1)
      {
        if sizes[d] != 1 {
          ghost var was := perm[..m];
          perm[m] := d;
          m := m + 1;
          assert perm[..m] == was + [d];
        }
      }
    }

    /** Operand `o` of the last kept dimension steps over dimension `d`. */
    predicate StepsOff(mStrides: array2<int>, r: nat, d: nat, o: nat)
      requires Shaped() && d < rank && mStrides.Length0 == nOperands && r < mStrides.Length1 && o < nOperands
      reads this, mStrides
    {
      mStrides[o, r] == Times(strides[o][d], sizes[d])
    }

    /**
     * Compares the last kept dimension with dimension `d`, operand by operand, until one differs. The
     * products fit int64_t exactly when `fits`: those of every operand up to the first that differs.
     */
    method IsMergeable(mStrides: array2<int>, r: nat, d: nat) returns (mergeable: bool, ghost fits: bool)
      requires Shaped() && d < rank && mStrides.Length0 == nOperands && r < mStrides.Length1
      ensures mergeable <==> forall o :: 0 <= o < nOperands ==> StepsOff(mStrides, r, d, o)
      ensures fits <==> forall o :: 0 <= o < nOperands && (forall k :: 0 <= k < o ==> StepsOff(mStrides, r, d, k))
                                    ==> FitsInt64(Times(strides[o][d], sizes[d]))
    {
      mergeable, fits := true, true;
      var op := 0;
      while op < nOperands && mergeable
        invariant 0 <= op <= nOperands
        invariant mergeable <==> forall o :: 0 <= o < op ==> StepsOff(mStrides, r, d, o)
        invariant !mergeable ==> exists o :: 0 <= o < op && !StepsOff(mStrides, r, d, o)
        invariant fits <==> forall o :: 0 <= o < op && (forall k :: 0 <= k < o ==> StepsOff(mStrides, r, d, k))
                                        ==> FitsInt64(Times(strides[o][d], sizes[d]))
      {
        mergeable := StepsOff(mStrides, r, d, op);
        fits := fits && FitsInt64(Times(strides[op][d], sizes[d]));
        op := op + 1;
      }
    }

    lemma StepsOffMeans(mSizes: array<nat>, mStrides: array2<int>, r: nat, d: nat)
      requires Shaped() && d < rank && r < mSizes.Length && mStrides.Length0 == nOperands && mStrides.Length1 == mSizes.Length
      ensures (forall o :: 0 <= o < nOperands ==> StepsOff(mStrides, r, d, o)) <==>
                Mergeable(TableDims(mSizes, mStrides, nOperands, r + 1)[r], DimAt(d))
    {
      var x := TableDims(mSizes, mStrides, nOperands, r + 1)[r];
      assert x.strides == Column(mStrides, nOperands, r);
      hide TableDims;
      assert forall o :: 0 <= o < nOperands ==>
        (StepsOff(mStrides, r, d, o) <==> x.strides[o] == Times(DimAt(d).strides[o], DimAt(d).size));
    }

    /** Writes dimension `d`, with a size of its own, behind the first `r` dimensions of the tables. */
    method PutDim(d: nat, r: nat, size: nat, mSizes: array<nat>, mStrides: array2<int>)
      requires Shaped() && d < rank && r < mSizes.Length
      requires mStrides.Length0 == nOperands && mStrides.Length1 == mSizes.Length
      modifies mSizes, mStrides
      ensures TableDims(mSizes, mStrides, nOperands, r + 1)
           == old(TableDims(mSizes, mStrides, nOperands, r)) + [Dim(size, DimAt(d).strides)]
    {
      ghost var table := TableDims(mSizes, mStrides, nOperands, r);
      mSizes[r] := size;
      StoreColumn(mStrides, nOperands, r, DimAt(d).strides);
      SameColumns(mSizes, mStrides, nOperands, r, table);
      assert table[..r] == table;
      hide TableDims;
    }

    /** Folds dimension `d` into the tables that hold `r0 + 1` dimensions. */
    method FoldDim(d: nat, mSizes: array<nat>, mStrides: array2<int>, r0: nat) returns (r: nat)
      requires Shaped() && d < rank && r0 + 1 < mSizes.Length
      requires mStrides.Length0 == nOperands && mStrides.Length1 == mSizes.Length
      modifies mSizes, mStrides
      ensures r0 <= r <= r0 + 1
      ensures TableDims(mSizes, mStrides, nOperands, r + 1)
           == Folded(old(TableDims(mSizes, mStrides, nOperands, r0 + 1)), DimAt(d))
    {
      hide *;
      ghost var table := TableDims(mSizes, mStrides, nOperands, r0 + 1);
      var mergeable, _ := IsMergeable(mStrides, r0, d);
      StepsOffMeans(mSizes, mStrides, r0, d);
      FoldedIs(table, DimAt(d));
      TablePrefix(mSizes, mStrides, nOperands, r0);
      TableAt();
      if mergeable {
        r := r0;
        PutDim(d, r, mSizes[r] * sizes[d], mSizes, mStrides);
      } else {
        r := r0 + 1;
        PutDim(d, r, sizes[d], mSizes, mStrides);
      }
    }

    lemma TableAt()
      requires Shaped()
      ensures |sizes| == rank && forall d :: 0 <= d < rank ==> DimAt(d) == Dim(sizes[d], DimAt(d).strides)
    {
    }

    method StartTables(d: nat, mSizes: array<nat>, mStrides: array2<int>)
      requires Shaped() && d < rank && mSizes.Length > 0 && mStrides.Length0 == nOperands && mStrides.Length1 == mSizes.Length
      modifies mSizes, mStrides
      ensures TableDims(mSizes, mStrides, nOperands, 1) == [DimAt(d)]
    {
      PutDim(d, 0, sizes[d], mSizes, mStrides);
      TableAt();
    }

    /** The merge loop, on local tables, over the dimensions in the chosen order. */
    method MergeInto(dims: seq<Dim>, perm: array<nat>, m: nat, mSizes: array<nat>, mStrides: array2<int>) returns (r: nat)
      requires Shaped() && dims == Dims() && 0 < m <= perm.Length && Indices(dims, perm[..m])
      requires mSizes.Length == m && mStrides.Length0 == nOperands && mStrides.Length1 == m
      requires perm != mSizes
      modifies mSizes, mStrides
      ensures r < m && TableDims(mSizes, mStrides, nOperands, r + 1) == Merge(Select(dims, perm[..m]))
    {
      hide *;
      ghost var order := perm[..m];
      IndicesBelow(dims, order);
      r := 0;
      StartTables(perm[0], mSizes, mStrides);
      assert Select(dims, order[..1]) == [dims[order[0]]] == [] + [dims[order[0]]];
      MergeSnoc([], dims[order[0]]);
      for k := 1 to m
        invariant r < k && perm[..m] == order
        invariant TableDims(mSizes, mStrides, nOperands, r + 1) == Merge(Select(dims, order[..k]))
      {
        assert perm[k] == order[k];
        MergeNext(dims, order, k);
        r := FoldDim(perm[k], mSizes, mStrides, r);
      }
      assert order[..m] == order;
    }

    /** Copies the local tables back into the plan. */
    method TakeTables(mSizes: array<nat>, mStrides: array2<int>, k: nat)
      requires Shaped() && k <= mSizes.Length && mStrides.Length0 == nOperands && k <= mStrides.Length1
      modifies this
      ensures Shaped() && rank == k && nOperands == old(nOperands) && bases == old(bases) && numel == old(numel)
      ensures Dims() == TableDims(mSizes, mStrides, nOperands, k)
    {
      rank := k;
      sizes := mSizes[..k];
      var n := nOperands;
      strides := seq(n, op requires 0 <= op < n && n == mStrides.Length0 && k <= mStrides.Length1 reads mStrides =>
        seq(k, d requires 0 <= d < k && 0 <= op < n && n == mStrides.Length0 && k <= mStrides.Length1 reads mStrides =>
          mStrides[op, d]));
      ghost var table := TableDims(mSizes, mStrides, nOperands, k);
      forall d | 0 <= d < k ensures Dims()[d] == table[d] {
        assert Dims()[d].strides == Column(mStrides, nOperands, d);
      }
    }

    /**
     * The tier, on the strides of the row: up to 1 for unit strides throughout, 0 if the row is all there is,
     * and up to 2 for a unit stride of the destination with packed or repeated sources.
     */
    ghost predicate TierOfRow()
      requires Shaped() && rank > 0 && nOperands > 0
      reads this
    {
      var k := rank - 1;
      && (tier <= 1 <==> forall op :: 0 <= op < nOperands ==> strides[op][k] == 1)
      && (tier == 0 <==> rank == 1 && forall op :: 0 <= op < nOperands ==> strides[op][k] == 1)
      && (tier <= 2 <==> strides[0][k] == 1 && forall op :: 1 <= op < nOperands ==> strides[op][k] == 0 || strides[op][k] == 1)
    }

    /** Classifies the innermost row. */
    method Classify()
      requires Shaped() && rank > 0 && nOperands > 0
      modifies this`tier
      ensures Dims() == old(Dims()) && tier == TierOf(Dims(), nOperands) && TierOfRow()
    {
      var inner := rank - 1;
      ghost var dims, row := Dims(), DimAt(inner).strides;
      InnerRow(dims, nOperands, row);
      hide TierOf;
      var allUnit, sourcesSimd := true, true;
      for op := 0 to nOperands
        invariant allUnit <==> forall o :: 0 <= o < op ==> row[o] == 1
        invariant sourcesSimd <==> forall o :: 1 <= o < op ==> row[o] == 0 || row[o] == 1
      {
        var s := strides[op][inner];
        assert s == row[op];
        allUnit := allUnit && s == 1;
        if op > 0 {
          sourcesSimd := sourcesSimd && (s == 0 || s == 1);
        }
      }
      if allUnit {
        tier := if rank == 1 then 0 else 1;
      } else if strides[0][inner] == 1 && sourcesSimd {
        tier := 2;
      } else {
        tier := 3;
      }
    }

    /** The dimensions to run, in order: the wide ones, stably sorted. */
    method ChooseOrder(dims: seq<Dim>) returns (perm: array<nat>, m: nat)
      requires Shaped() && dims == Dims()
      ensures fresh(perm) && m <= perm.Length && DimOrder(dims, nOperands, perm[..m])
    {
      perm := new nat[rank](_ => 0);
      m := CollectWide(perm);
      ghost var wide := perm[..m];
      assert forall i :: 0 <= i < m ==> wide[i] == perm[i];
      SortDims(dims, nOperands, perm, m);
      forall d | 0 <= d < |dims| ensures d in perm[..m] <==> dims[d].size != 1 {
        assert d in perm[..m] <==> d in Members(perm[..m]);
        assert d in wide <==> d in Members(wide);
      }
    }

    /** A single element: one row of one element. */
    method TakeSingle()
      requires Shaped() && nOperands > 0
      modifies this
      ensures Shaped() && nOperands == old(nOperands) && bases == old(bases) && numel == old(numel)
      ensures Dims() == [Dim(1, Zeros(nOperands))] && rank == 1 && tier == 3
    {
      rank := 1;
      sizes := [1];
      strides := seq(nOperands, _ => [0]);
      tier := 3;
      assert DimAt(0) == Dim(1, Zeros(nOperands));
    }

    /**
     * Drops size-1 dimensions, sorts the rest, merges neighbours that are adjacent in memory for every
     * operand, and classifies the result. `order` is the order in which dimensions were taken. In the plan,
     * at the first operand whose strides along neighbours differ, the outer one's is the larger.
     */
    method SortMergeClassify() returns (ghost order: seq<nat>)
      requires Shaped() && nOperands > 0
      modifies this
      ensures Shaped() && nOperands == old(nOperands) && bases == old(bases) && numel == old(numel)
      ensures DimOrder(old(Dims()), nOperands, order)
      ensures Dims() == PlannedDims(old(Dims()), nOperands, order) && rank > 0
      ensures tier == if order == [] then 3 else TierOf(Dims(), nOperands)
      ensures order != [] ==> TierOfRow()
      ensures Indices(old(Dims()), order) && OuterFirst(old(Dims()), order)
      ensures forall d, op :: 0 < d < rank && 0 <= op < nOperands && AlikeUpTo(d, op) ==> strides[op][d - 1] >= strides[op][d]
      ensures forall d :: 0 < d < rank ==> strides[0][d - 1] >= strides[0][d] && StepsApart(d)
      ensures order != [] ==> forall d :: 0 <= d < rank ==> sizes[d] != 1
    {
      hide *;
      var dims := Dims();
      var perm, m := ChooseOrder(dims);
      order := perm[..m];
      OrderLaws(dims, nOperands, order);
      if m == 0 {
        TakeSingle();
        NothingPlanned(dims, nOperands, order);
        TableLaws();
        return;
      }
      var mSizes := new nat[m](_ => 0);
      var mStrides := new int[nOperands, m]((_, _) => 0);
      assert order == perm[..m];
      var r := MergeInto(dims, perm, m, mSizes, mStrides);
      TakeTables(mSizes, mStrides, r + 1);
      SomethingPlanned(dims, nOperands, order);
      Classify();
      TableLaws();
      DimSizes();
    }

    lemma DimSizes()
      requires Shaped()
      ensures |sizes| == rank && forall d :: 0 <= d < rank ==> sizes[d] == Dims()[d].size
    {
    }
  }

  lemma IndicesBelow(dims: seq<Dim>, order: seq<nat>)
    requires Indices(dims, order)
    ensures forall i :: 0 <= i < |order| ==> order[i] < |dims|
    ensures forall k :: 0 <= k <= |order| ==> Indices(dims, order[..k])
  {
  }

  lemma NothingPlanned(dims: seq<Dim>, n: nat, order: seq<nat>)
    requires Uniform(dims, n) && Indices(dims, order) && order == []
    ensures PlannedDims(dims, n, order) == [Dim(1, Zeros(n))]
  {
  }

  lemma SomethingPlanned(dims: seq<Dim>, n: nat, order: seq<nat>)
    requires Uniform(dims, n) && Indices(dims, order) && order != []
    ensures PlannedDims(dims, n, order) == Merge(Select(dims, order))
  {
  }

  /** The order taken, and what the nest it plans looks like. */
  lemma OrderLaws(dims: seq<Dim>, n: nat, order: seq<nat>)
    requires DimOrder(dims, n, order)
    ensures Indices(dims, order) && OuterFirst(dims, order) && Uniform(dims, n)
    ensures AllDescend(PlannedDims(dims, n, order)) && MergedOut(PlannedDims(dims, n, order))
    ensures order != [] ==> forall d :: d in PlannedDims(dims, n, order) ==> d.size != 1
  {
    SortedOuterFirst(dims, n, order);
    PlannedLaws(dims, n, order);
    hide PlannedDims, OuterFirst, AllDescend, MergedOut, SortedOrder;
  }

  predicate Increasing(s: seq<nat>) {
    forall i, j :: 0 <= i < j < |s| ==> s[i] < s[j]
  }

  /** Stable insertion sort of the collected dimensions. */
  method SortDims(dims: seq<Dim>, n: nat, perm: array<nat>, m: nat)
    requires Uniform(dims, n) && m <= perm.Length && Indices(dims, perm[..m]) && Increasing(perm[..m])
    modifies perm
    ensures Indices(dims, perm[..m]) && SortedOrder(dims, n, perm[..m]) && Distinct(perm[..m])
    ensures OuterFirst(dims, perm[..m])
    ensures Members(perm[..m]) == old(Members(perm[..m]))
  {
    hide *;
    ghost var wide := perm[..m];
    NothingSorted(dims, n);
    assert perm[..0] == [] && wide[..0] == [] && perm[0..m] == wide[0..];
    for i := 0 to m
      invariant Indices(dims, perm[..i]) && SortedOrder(dims, n, perm[..i])
      invariant Members(perm[..i]) == Members(wide[..i])
      invariant perm[i..m] == wide[i..]
    {
      ghost var s := perm[..];
      NextWide(s, wide, i);
      assert perm[..i] == s[..i] && perm[..i + 1] == s[..i + 1] && perm[i + 1..] == s[i + 1..];
      NextToSort(dims, s, wide, i);
      InsertDim(dims, n, perm, i);
      assert perm[i + 1..m] == perm[i + 1..][..m - i - 1] == s[i + 1..m];
    }
    assert wide[..m] == wide;
    SortedDistinct(dims, n, perm[..m]);
    SortedOuterFirst(dims, n, perm[..m]);
  }

  lemma NothingSorted(dims: seq<Dim>, n: nat)
    requires Uniform(dims, n)
    ensures Indices(dims, []) && SortedOrder(dims, n, [])
  {
  }

  lemma NextWide(s: seq<nat>, wide: seq<nat>, i: nat)
    requires i < |wide| <= |s| && s[i..|wide|] == wide[i..]
    ensures s[i] == wide[i] && s[i + 1..|wide|] == wide[i + 1..]
    ensures s[..i + 1] == s[..i] + [wide[i]] && wide[..i + 1] == wide[..i] + [wide[i]]
  {
    assert s[i] == s[i..|wide|][0];
    assert s[i + 1..|wide|] == s[i..|wide|][1..];
  }

  /** What has been sorted are earlier dimensions than the next one. */
  lemma NextToSort(dims: seq<Dim>, s: seq<nat>, wide: seq<nat>, i: nat)
    requires i < |wide| <= |s| && Increasing(wide) && Indices(dims, wide) && Indices(dims, s[..i])
    requires Members(s[..i]) == Members(wide[..i]) && s[i] == wide[i]
    ensures Indices(dims, s[..i + 1]) && forall x :: x in s[..i] ==> x < s[i]
    ensures Members(s[..i + 1]) == Members(wide[..i + 1])
  {
    assert s[..i + 1] == s[..i] + [s[i]] && wide[..i + 1] == wide[..i] + [wide[i]];
    forall x | x in s[..i] ensures x < s[i] {
      assert x in Members(s[..i]);
      assert x in wide[..i];
    }
  }

  lemma MergeNext(dims: seq<Dim>, order: seq<nat>, k: nat)
    requires Indices(dims, order) && k < |order|
    ensures Merge(Select(dims, order[..k + 1])) == Folded(Merge(Select(dims, order[..k])), dims[order[k]])
  {
    SelectSnoc(dims, order, k);
    hide *;
    MergeSnoc(Select(dims, order[..k]), dims[order[k]]);
  }

  lemma SelectSnoc(dims: seq<Dim>, order: seq<nat>, k: nat)
    requires Indices(dims, order) && k < |order|
    ensures Indices(dims, order[..k]) && Indices(dims, order[..k + 1])
    ensures Select(dims, order[..k + 1]) == Select(dims, order[..k]) + [dims[order[k]]]
  {
  }

  lemma SortedDistinct(dims: seq<Dim>, n: nat, order: seq<nat>)
    requires Uniform(dims, n) && Indices(dims, order) && SortedOrder(dims, n, order)
    ensures Distinct(order)
  {
    forall i, j | 0 <= i < j < |order| ensures order[i] != order[j] {
      BeforeIrreflexive(dims, n, order[i], order[j]);
    }
  }

  lemma TablePrefix(sizes: array<nat>, table: array2<int>, n: nat, k: nat)
    requires k < sizes.Length && n <= table.Length0 && k < table.Length1
    ensures TableDims(sizes, table, n, k + 1)[..k] == TableDims(sizes, table, n, k)
    ensures TableDims(sizes, table, n, k + 1)[k].size == sizes[k]
  {
  }

  /** Writing position `k` leaves the dimensions before it as they were. */
  lemma SameColumns(sizes: array<nat>, table: array2<int>, n: nat, k: nat, was: seq<Dim>)
    requires k < sizes.Length && n <= table.Length0 && k < table.Length1 && k <= |was|
    requires forall d :: 0 <= d < k ==> sizes[d] == was[d].size && Column(table, n, d) == was[d].strides
    ensures TableDims(sizes, table, n, k + 1) == was[..k] + [Dim(sizes[k], Column(table, n, k))]
  {
  }
}
