/**
 * On-the-fly conversion of a scalar sparse matrix to a block-valued one.
 *
 * The adapter borrows a scalar matrix A and a block size B and presents A as
 * a matrix of B×B blocks without building it. Its row iterator keeps one
 * cursor per scalar row of the block row and merges them by block column.
 */
module BlockMatrixAdapter {
  import opened Wrappers
  import SM = ScalarMatrix
  import opened BlockMerge

  datatype Adapter = Adapter(A: SM.Matrix, B: nat)

  /** An adapter the constructor accepted: B divides both dimensions of A. */
  type BlockAdapter = ad: Adapter | ad.B > 0 && SM.Rows(ad.A) % ad.B == 0 && SM.Cols(ad.A) % ad.B == 0
    witness Adapter(SM.Matrix(0, []), 1)

  const NotDivisible: string := "Matrix size is not divisible by block size!"

  /**
   * The factory block_matrix<B>(A), which only runs the adapter's constructor:
   * the constructor's precondition check fails unless B divides both the row
   * and the column count of A.
   */
  function BlockMatrix(A: SM.Matrix, B: nat): (r: Result<BlockAdapter, string>)
    requires B > 0
    ensures r.Success? <==> SM.Rows(A) % B == 0 && SM.Cols(A) % B == 0
    ensures r.Success? ==> r.value.A == A && r.value.B == B
    ensures r.Failure? ==> r.error == NotDivisible
  {
    if SM.Rows(A) % B == 0 && SM.Cols(A) % B == 0 then Success(Adapter(A, B))
    else Failure(NotDivisible)
  }

  /** rows(): the number of block rows, exactly the scalar rows over B. */
  function Rows(ad: BlockAdapter): (r: nat)
    ensures r * ad.B == SM.Rows(ad.A)
  {
    DivMod(SM.Rows(ad.A), ad.B);
    SM.Rows(ad.A) / ad.B
  }

  /** cols(): the number of block columns, exactly the scalar columns over B. */
  function Cols(ad: BlockAdapter): (r: nat)
    ensures r * ad.B == SM.Cols(ad.A)
  {
    DivMod(SM.Cols(ad.A), ad.B);
    SM.Cols(ad.A) / ad.B
  }

  /**
   * nonzeros(): an estimate, the scalar nonzeros over B*B rounded down. It
   * never exceeds the true number of blocks (NonzerosIsLowerBound).
   */
  function Nonzeros(ad: BlockAdapter): (r: nat)
    ensures r * (ad.B * ad.B) <= SM.Nonzeros(ad.A) < (r + 1) * (ad.B * ad.B)
  {
    var sq := ad.B * ad.B;
    DivMod(SM.Nonzeros(ad.A), sq);
    SM.Nonzeros(ad.A) / sq
  }

  /** Block row i spans the scalar rows from i*B up to (i+1)*B, inside n*B when i < n. */
  lemma BlockRowBound(i: nat, n: nat, B: nat)
    requires i < n
    ensures ScalarIndex(i, B, 0) + B == ScalarIndex(i + 1, B, 0) <= n * B
  {
    MulMono(B, i + 1, n);
  }

  /** The B scalar rows of block row i, each from its first entry. */
  function StartRows(ad: BlockAdapter, i: nat): (rs: seq<SM.Row>)
    requires i < Rows(ad)
    ensures |rs| == ad.B
    ensures forall k :: 0 <= k < ad.B ==> ScalarIndex(i, ad.B, k) < SM.Rows(ad.A)
    ensures forall k :: 0 <= k < ad.B ==> rs[k] == ad.A.rowData[ScalarIndex(i, ad.B, k)]
  {
    var lo := ScalarIndex(i, ad.B, 0);
    BlockRowBound(i, Rows(ad), ad.B);
    ad.A.rowData[lo .. lo + ad.B]
  }

  /**
   * The number of blocks the iterators emit over consecutive block rows of B
   * scalar rows each, the first block row being rows[..B].
   */
  ghost function ChunkBlocks(rows: seq<SM.Row>, B: nat): nat
    requires B > 0
    decreases |rows|
  {
    if |rows| < B then 0 else |Blocks(rows[..B], B)| + ChunkBlocks(rows[B..], B)
  }

  /** The number of blocks of the whole block matrix. */
  ghost function BlockCount(ad: BlockAdapter): nat {
    ChunkBlocks(ad.A.rowData, ad.B)
  }

  /**
   * The iterator over block row `row` (row_iterator, also what row_begin
   * returns). Cursor i walks scalar row first + i; base[i] is its position.
   */
  class RowIterator {
    const A: SM.Matrix
    const B: nat
    const first: nat
    const base: array<nat>

    ghost predicate Valid()
      reads this, base
    {
      && B > 0
      && base.Length == B
      && first + B <= SM.Rows(A)
      && forall i :: 0 <= i < B ==> base[i] <= |A.rowData[first + i]|
    }

    /** The entries each cursor has not consumed yet. */
    function Remaining(): (rs: seq<SM.Row>)
      reads this, base
      requires Valid()
      ensures |rs| == B
      ensures forall i :: 0 <= i < B ==> rs[i] == A.rowData[first + i][base[i]..]
    {
      var cur := base[..];
      seq(B, i requires 0 <= i < B => A.rowData[first + i][cur[i]..])
    }

    /** row_iterator(A, row): one cursor at the start of each scalar row row*B + i. */
    constructor (ad: BlockAdapter, row: nat)
      requires row < Rows(ad)
      ensures Valid() && fresh(base)
      ensures A == ad.A && B == ad.B && first == ScalarIndex(row, ad.B, 0)
      ensures Remaining() == StartRows(ad, row)
    {
      MulMono(ad.B, row + 1, Rows(ad));
      A, B, first := ad.A, ad.B, row * ad.B;
      var b := new nat[ad.B];
      for i := 0 to ad.B
        invariant forall k :: 0 <= k < i ==> b[k] == 0
      {
        b[i] := 0;
      }
      base := b;
      new;
      assert forall i :: 0 <= i < B ==> Remaining()[i] == StartRows(ad, row)[i];
    }

    /** operator bool: true iff some cursor still has an entry. */
    method HasMore() returns (b: bool)
      requires Valid()
      ensures b == AnyLeft(Remaining())
    {
      for i := 0 to B
        invariant forall k :: 0 <= k < i ==> Remaining()[k] == []
      {
        if base[i] < |A.rowData[first + i]| {
          assert Remaining()[i] != [];
          return true;
        }
      }
      return false;
    }

    /** col(): the smallest block column over the valid cursors, 0 when there is none. */
    method Col() returns (c: nat)
      requires Valid()
      ensures c == CurCol(Remaining(), B)
    {
      ghost var rs := Remaining();
      c := 0;
      var isFirst := true;
      for i := 0 to B
        invariant isFirst <==> MinHead(rs[..i], B).None?
        invariant isFirst ==> c == 0
        invariant !isFirst ==> c == MinHead(rs[..i], B).value
      {
        MinHeadSnoc(rs, B, i);
        var r := A.rowData[first + i];
        assert base[i] < |r| <==> rs[i] != [];
        if base[i] < |r| {
          assert rs[i][0] == r[base[i]];
          var bc := r[base[i]].col / B;
          if isFirst {
            c := bc;
            isFirst := false;
          } else {
            c := Min(c, bc);
          }
        }
      }
      assert rs[..B] == rs;
    }

    /**
     * The end of cursor i's run in block column c: how far a copy of cursor i
     * advances while its column lies in block column c.
     */
    method RunEnd(i: nat, c: nat) returns (a: nat)
      requires Valid() && i < B
      ensures a == base[i] + RunLength(Remaining()[i], B, c)
      ensures a <= |A.rowData[first + i]|
    {
      var r := A.rowData[first + i];
      a := base[i];
      while a < |r| && r[a].col / B == c
        invariant base[i] <= a <= |r|
        invariant forall p :: base[i] <= p < a ==> r[p].col / B == c
      {
        a := a + 1;
      }
      RunLengthUnique(Remaining()[i], B, c, a - base[i]);
    }

    /** Where every cursor's run in block column c ends. */
    method RunEnds(c: nat) returns (ends: seq<nat>)
      requires Valid()
      ensures |ends| == B
      ensures forall k :: 0 <= k < B ==> ends[k] == base[k] + RunLength(Remaining()[k], B, c)
      ensures forall k :: 0 <= k < B ==> ends[k] <= |A.rowData[first + k]|
    {
      ends := [];
      for i := 0 to B
        invariant |ends| == i
        invariant forall k :: 0 <= k < i ==> ends[k] == base[k] + RunLength(Remaining()[k], B, c)
        invariant forall k :: 0 <= k < i ==> ends[k] <= |A.rowData[first + k]|
      {
        var a := RunEnd(i, c);
        ends := ends + [a];
      }
    }

    /** Row i of the block at block column c, filled from a copy of cursor i. */
    method BlockLine(i: nat, c: nat) returns (line: seq<int>)
      requires Valid() && i < B
      ensures line == RunFill(Remaining()[i], B, c)
    {
      var r := A.rowData[first + i];
      line := Zeros(B);
      var a := base[i];
      while a < |r| && r[a].col / B == c
        invariant base[i] <= a <= |r|
        invariant forall p :: base[i] <= p < a ==> r[p].col / B == c
        invariant line == Fill(r[base[i]..a], B)
      {
        assert r[base[i]..a + 1][..a - base[i]] == r[base[i]..a];
        line := line[r[a].col % B := r[a].value];
        a := a + 1;
      }
      RunLengthUnique(Remaining()[i], B, c, a - base[i]);
      assert Remaining()[i][..a - base[i]] == r[base[i]..a];
    }

    /**
     * value(): the B×B block at the current block column. Each cursor is
     * copied and the copy walks that cursor's run, so the iterator is left
     * as it was.
     */
    method Value() returns (v: seq<seq<int>>)
      requires Valid()
      ensures v == BlockValue(Remaining(), B)
    {
      ghost var rs := Remaining();
      var c := Col();
      v := [];
      for i := 0 to B
        invariant |v| == i
        invariant forall k :: 0 <= k < i ==> v[k] == RunFill(rs[k], B, c)
      {
        var line := BlockLine(i, c);
        v := v + [line];
      }
      BlockValueOf(rs, B, v);
    }

    /** Moves every cursor i to position ends[i] of its row. */
    method MoveTo(ends: seq<nat>)
      requires Valid() && |ends| == B
      requires forall k :: 0 <= k < B ==> ends[k] <= |A.rowData[first + k]|
      modifies base
      ensures Valid() && base[..] == ends
    {
      for i := 0 to B
        invariant forall k :: 0 <= k < i ==> base[k] == ends[k]
      {
        base[i] := ends[i];
      }
    }

    /**
     * operator++: every cursor moves past its entries in the current block
     * column. Nothing else changes.
     */
    method Next()
      requires Valid()
      modifies base
      ensures Valid()
      ensures Remaining() == Step(old(Remaining()), B)
      ensures old(AnyLeft(Remaining())) ==> SM.TotalEntries(Remaining()) < SM.TotalEntries(old(Remaining()))
      ensures old(SM.AllSorted(Remaining()) && AnyLeft(Remaining())) && AnyLeft(Remaining()) ==>
                CurCol(Remaining(), B) > CurCol(old(Remaining()), B)
    {
      ghost var rs, start := Remaining(), base[..];
      var c := Col();
      var ends := RunEnds(c);
      MoveTo(ends);
      forall k | 0 <= k < B ensures Remaining()[k] == Step(rs, B)[k] {
        SM.DropDrop(A.rowData[first + k], start[k], RunLength(rs[k], B, c));
      }
      assert Remaining() == Step(rs, B);
      StepProgress(rs, B);
    }
  }

  /** row_begin(i): an iterator over block row i. */
  method RowBegin(ad: BlockAdapter, i: nat) returns (it: RowIterator)
    requires i < Rows(ad)
    ensures fresh(it) && fresh(it.base) && it.Valid()
    ensures it.A == ad.A && it.B == ad.B && it.Remaining() == StartRows(ad, i)
  {
    it := new RowIterator(ad, i);
  }

  /**
   * The usual walk over block row i: from row_begin(i), while the iterator is
   * valid, read col() and value() and advance. The blocks seen are Blocks.
   */
  method ReadBlockRow(ad: BlockAdapter, i: nat) returns (bs: seq<Block>)
    requires i < Rows(ad)
    ensures bs == Blocks(StartRows(ad, i), ad.B)
  {
    var it := RowBegin(ad, i);
    bs := [];
    var more := it.HasMore();
    while more
      invariant it.Valid() && it.B == ad.B && fresh(it.base)
      invariant more == AnyLeft(it.Remaining())
      invariant bs + Blocks(it.Remaining(), it.B) == Blocks(StartRows(ad, i), ad.B)
      decreases SM.TotalEntries(it.Remaining())
    {
      var c := it.Col();
      var v := it.Value();
      BlocksExtend(bs, it.Remaining(), it.B);
      bs := bs + [Block(c, v)];
      it.Next();
      more := it.HasMore();
    }
  }

  // ---------------------------------------------------------------------------
  // Properties of a whole block row and of the whole adapter
  // ---------------------------------------------------------------------------

  lemma DivLtExact(x: nat, n: nat, B: nat)
    requires B > 0 && x < n && n % B == 0
    ensures x / B < n / B
  {
    DivMod(x, B);
    DivMod(n, B);
    if x / B >= n / B {
      MulMono(B, n / B, x / B);
    }
  }

  /*
   * What the iterator of block row `row` emits, on a matrix whose rows are
   * sorted. StartRows(ad, row)[k] is scalar row row*B + k.
   */

  /** Block columns come out in strictly increasing order. */
  lemma BlockRowOrdered(ad: BlockAdapter, row: nat)
    requires SM.WellFormed(ad.A) && row < Rows(ad)
    ensures var bs := Blocks(StartRows(ad, row), ad.B);
      forall p, q :: 0 <= p < q < |bs| ==> bs[p].col < bs[q].col
  {
    var rs := StartRows(ad, row);
    assert SM.AllSorted(rs);
    forall p, q | 0 <= p < q < |Blocks(rs, ad.B)| ensures Blocks(rs, ad.B)[p].col < Blocks(rs, ad.B)[q].col {
      BlocksOrdered(rs, ad.B, p, q);
    }
  }

  /** Every block column lies inside cols(). */
  lemma BlockRowInside(ad: BlockAdapter, row: nat)
    requires SM.WellFormed(ad.A) && row < Rows(ad)
    ensures var bs := Blocks(StartRows(ad, row), ad.B);
      forall p :: 0 <= p < |bs| ==> bs[p].col < Cols(ad)
  {
    var rs := StartRows(ad, row);
    assert SM.AllSorted(rs);
    forall p | 0 <= p < |Blocks(rs, ad.B)| ensures Blocks(rs, ad.B)[p].col < Cols(ad) {
      var k, m := BlockSource(rs, ad.B, p);
      DivLtExact(rs[k][m].col, SM.Cols(ad.A), ad.B);
    }
  }

  /**
   * Position (k, j) of a block at block column c holds the scalar at
   * (row*B + k, c*B + j), zero where A stores nothing.
   */
  lemma BlockRowValues(ad: BlockAdapter, row: nat)
    requires SM.WellFormed(ad.A) && row < Rows(ad)
    ensures var rs := StartRows(ad, row); var bs := Blocks(rs, ad.B);
      forall p, k, j :: 0 <= p < |bs| && 0 <= k < ad.B && 0 <= j < ad.B ==>
        bs[p].value[k][j] == SM.ScalarAt(rs[k], ScalarIndex(bs[p].col, ad.B, j))
  {
    var rs := StartRows(ad, row);
    assert SM.AllSorted(rs);
    forall p, k, j | 0 <= p < |Blocks(rs, ad.B)| && 0 <= k < ad.B && 0 <= j < ad.B
      ensures Blocks(rs, ad.B)[p].value[k][j] == SM.ScalarAt(rs[k], ScalarIndex(Blocks(rs, ad.B)[p].col, ad.B, j))
    {
      BlockEntryAt(rs, ad.B, p, k, j);
    }
  }

  /**
   * Every scalar entry of the B rows lands in an emitted block, which by the
   * ordering is the only one of its block column.
   */
  lemma BlockRowCovers(ad: BlockAdapter, row: nat)
    requires SM.WellFormed(ad.A) && row < Rows(ad)
    ensures var rs := StartRows(ad, row);
      forall k, m :: 0 <= k < ad.B && 0 <= m < |rs[k]| ==> HasBlockAt(Blocks(rs, ad.B), rs[k][m].col / ad.B)
  {
    var rs := StartRows(ad, row);
    assert SM.AllSorted(rs);
    forall k, m | 0 <= k < ad.B && 0 <= m < |rs[k]|
      ensures HasBlockAt(Blocks(rs, ad.B), rs[k][m].col / ad.B)
    {
      var p := BlockOfEntry(rs, ad.B, k, m);
    }
  }

  /**
   * Round trip: the stored entry at column x of scalar row row*B + k comes
   * back at position (k, x % B) of the block at block column x / B.
   */
  lemma EntryInBlock(ad: BlockAdapter, row: nat, k: nat, m: nat) returns (p: nat)
    requires SM.WellFormed(ad.A) && row < Rows(ad) && k < ad.B && m < |StartRows(ad, row)[k]|
    ensures var rs := StartRows(ad, row); var bs := Blocks(rs, ad.B);
      p < |bs| && bs[p].col == rs[k][m].col / ad.B &&
      bs[p].value[k][rs[k][m].col % ad.B] == rs[k][m].value
  {
    var rs := StartRows(ad, row);
    assert SM.AllSorted(rs);
    p := BlockOfEntry(rs, ad.B, k, m);
    var x := rs[k][m].col;
    InBlock(x, x / ad.B, ad.B);
    BlockEntryAt(rs, ad.B, p, k, x % ad.B);
    SM.ScalarAtEntry(rs[k], m);
  }

  lemma SumBound(t1: int, t2: int, a: int, x: int, y: int, z: int)
    requires t1 <= a * x && t2 <= a * y && z == x + y
    ensures t1 + t2 <= a * z
  {
  }

  lemma DivLe(a: nat, d: nat, c: nat)
    requires d > 0 && a <= d * c
    ensures a / d <= c
  {
    DivMod(a, d);
    if a / d > c {
      MulMono(d, c + 1, a / d);
    }
  }

  /** Splitting off the first block row. */
  lemma ChunkSplit(rows: seq<SM.Row>, B: nat)
    requires B > 0 && B <= |rows| && SM.AllSorted(rows)
    ensures SM.AllSorted(rows[..B]) && SM.AllSorted(rows[B..])
    ensures SM.TotalEntries(rows) == SM.TotalEntries(rows[..B]) + SM.TotalEntries(rows[B..])
    ensures ChunkBlocks(rows, B) == |Blocks(rows[..B], B)| + ChunkBlocks(rows[B..], B)
  {
    assert rows == rows[..B] + rows[B..];
    SM.TotalEntriesAppend(rows[..B], rows[B..]);
  }

  /** n block rows of sorted scalar rows hold at most B*B entries per emitted block. */
  lemma {:induction false} ChunkEntries(rows: seq<SM.Row>, B: nat, n: nat)
    requires B > 0 && SM.AllSorted(rows) && |rows| == B * n
    ensures SM.TotalEntries(rows) <= B * B * ChunkBlocks(rows, B)
  {
    if n == 0 {
      assert rows == [];
    } else {
      var head, tail := rows[..B], rows[B..];
      assert |tail| == B * (n - 1) by {
        MulSucc(B, n - 1);
      }
      ChunkSplit(rows, B);
      assert SM.TotalEntries(head) <= B * B * |Blocks(head, B)| by {
        EntriesPerBlock(head, B);
      }
      assert SM.TotalEntries(tail) <= B * B * ChunkBlocks(tail, B) by {
        ChunkEntries(tail, B, n - 1);
      }
      SumBound(SM.TotalEntries(head), SM.TotalEntries(tail), B * B,
               |Blocks(head, B)|, ChunkBlocks(tail, B), ChunkBlocks(rows, B));
    }
  }

  /** The blocks ReadBlockRow returns for block rows i, i+1, …, up to the last, counted. */
  ghost function RowBlocksFrom(ad: BlockAdapter, i: nat): nat
    requires i <= Rows(ad)
    decreases Rows(ad) - i
  {
    if i == Rows(ad) then 0 else |Blocks(StartRows(ad, i), ad.B)| + RowBlocksFrom(ad, i + 1)
  }

  /**
   * The chunks of B scalar rows counted by ChunkBlocks are the block rows:
   * from scalar row i*B on, they are StartRows(ad, i), StartRows(ad, i + 1), …
   */
  lemma {:induction false} ChunkBlocksFrom(ad: BlockAdapter, i: nat)
    requires i <= Rows(ad)
    ensures ScalarIndex(i, ad.B, 0) <= SM.Rows(ad.A)
    ensures ChunkBlocks(ad.A.rowData[ScalarIndex(i, ad.B, 0)..], ad.B) == RowBlocksFrom(ad, i)
    decreases Rows(ad) - i
  {
    var B, lo := ad.B, ScalarIndex(i, ad.B, 0);
    if i == Rows(ad) {
      assert ad.A.rowData[lo..] == [];
    } else {
      var rows := ad.A.rowData[lo..];
      BlockRowBound(i, Rows(ad), B);
      assert rows[..B] == StartRows(ad, i) by {
        assert forall k :: 0 <= k < B ==> rows[..B][k] == ad.A.rowData[ScalarIndex(i, B, k)];
      }
      assert rows[B..] == ad.A.rowData[ScalarIndex(i + 1, B, 0)..];
      ChunkBlocksFrom(ad, i + 1);
    }
  }

  /** BlockCount is the sum, over the block rows, of the blocks each one emits. */
  lemma BlockCountByRows(ad: BlockAdapter)
    ensures BlockCount(ad) == RowBlocksFrom(ad, 0)
  {
    ChunkBlocksFrom(ad, 0);
    assert ad.A.rowData[ScalarIndex(0, ad.B, 0)..] == ad.A.rowData;
  }

  /**
   * nonzeros() is only an estimate: on a matrix with sorted rows it never
   * exceeds the number of blocks the iterators emit, because one block holds
   * at most B*B scalar entries.
   */
  lemma NonzerosIsLowerBound(ad: BlockAdapter)
    requires SM.WellFormed(ad.A)
    ensures Nonzeros(ad) <= BlockCount(ad)
  {
    var total, sq, count := SM.Nonzeros(ad.A), ad.B * ad.B, BlockCount(ad);
    assert total <= sq * count by {
      ChunkEntries(ad.A.rowData, ad.B, Rows(ad));
    }
    MulMono(ad.B, 1, ad.B);
    DivLe(total, sq, count);
  }

  /** The same bound, stated on the block rows one by one as ReadBlockRow returns them. */
  lemma NonzerosBelowBlockRows(ad: BlockAdapter)
    requires SM.WellFormed(ad.A)
    ensures Nonzeros(ad) <= RowBlocksFrom(ad, 0)
  {
    NonzerosIsLowerBound(ad);
    BlockCountByRows(ad);
  }
}
