/**
 * The B-way merge behind the block row iterator, stated on values.
 *
 * A block row is described by the B scalar rows that are still to be read:
 * `rs[k]` is what the k-th scalar cursor has not consumed yet. The functions
 * here say what the iterator's `col()`, `value()` and `++` compute from that
 * state; the lemmas say what this means when the scalar rows are sorted.
 */
module BlockMerge {
  import opened Wrappers
  import opened ScalarMatrix

  /** One emitted block: its block column and its dense B×B value. */
  datatype Block = Block(col: nat, value: seq<seq<int>>)

  function Min(a: nat, b: nat): nat {
    if a <= b then a else b
  }

  /** The iterator is valid while some scalar cursor still has an entry. */
  predicate AnyLeft(rs: seq<Row>) {
    exists k :: 0 <= k < |rs| && rs[k] != []
  }

  /**
   * The smallest block column over the heads of the rows that still have
   * entries, or None when every row is exhausted.
   */
  function MinHead(rs: seq<Row>, B: nat): (r: Option<nat>)
    requires B > 0
    ensures r.None? <==> !AnyLeft(rs)
    ensures r.Some? ==> exists k :: 0 <= k < |rs| && rs[k] != [] && rs[k][0].col / B == r.value
    ensures r.Some? ==> forall k :: 0 <= k < |rs| && rs[k] != [] ==> r.value <= rs[k][0].col / B
  {
    if rs == [] then None
    else
      var init, last := rs[..|rs| - 1], rs[|rs| - 1];
      assert forall k :: 0 <= k < |init| ==> init[k] == rs[k];
      var m := MinHead(init, B);
      if last == [] then m
      else if m.None? then Some(last[0].col / B)
      else Some(Min(m.value, last[0].col / B))
  }

  /** MinHead over one more row: that row's head joins the minimum when the row is not empty. */
  lemma MinHeadSnoc(rs: seq<Row>, B: nat, i: nat)
    requires B > 0 && i < |rs|
    ensures var m := MinHead(rs[..i], B);
      MinHead(rs[..i + 1], B) ==
        if rs[i] == [] then m
        else if m.None? then Some(rs[i][0].col / B)
        else Some(Min(m.value, rs[i][0].col / B))
  {
    assert rs[..i + 1][..i] == rs[..i];
    assert rs[..i + 1][i] == rs[i];
  }

  /** The block column `col()` reports: the minimum, or 0 when no cursor is valid. */
  function CurCol(rs: seq<Row>, B: nat): nat
    requires B > 0
  {
    match MinHead(rs, B)
    case None => 0
    case Some(c) => c
  }

  /** How many leading entries of `r` lie in block column `c`. */
  function RunLength(r: Row, B: nat, c: nat): (n: nat)
    requires B > 0
    ensures n <= |r|
    ensures forall p :: 0 <= p < n ==> r[p].col / B == c
    ensures n < |r| ==> r[n].col / B != c
  {
    if r == [] || r[0].col / B != c then 0 else 1 + RunLength(r[1..], B, c)
  }

  /** The three facts of RunLength's contract determine it. */
  lemma RunLengthUnique(r: Row, B: nat, c: nat, n: nat)
    requires B > 0 && n <= |r|
    requires forall p :: 0 <= p < n ==> r[p].col / B == c
    requires n < |r| ==> r[n].col / B != c
    ensures RunLength(r, B, c) == n
  {
  }

  /** The state after `++`: every row loses its leading entries in the current block column. */
  function Step(rs: seq<Row>, B: nat): (r: seq<Row>)
    requires B > 0
    ensures |r| == |rs|
  {
    var c := CurCol(rs, B);
    seq(|rs|, k requires 0 <= k < |rs| => rs[k][RunLength(rs[k], B, c)..])
  }

  function Zeros(B: nat): (z: seq<int>)
    ensures |z| == B && forall j :: 0 <= j < B ==> z[j] == 0
  {
    seq(B, j => 0)
  }

  /**
   * One row of a block: starting from zero, each entry of the run, in order,
   * writes its value at position `col % B`.
   */
  function Fill(run: Row, B: nat): (v: seq<int>)
    requires B > 0
    ensures |v| == B
  {
    if run == [] then Zeros(B)
    else
      var e := run[|run| - 1];
      Fill(run[..|run| - 1], B)[e.col % B := e.value]
  }

  /** The block row a cursor contributes at block column c: filled from its run in c. */
  function RunFill(r: Row, B: nat, c: nat): (v: seq<int>)
    requires B > 0
    ensures |v| == B
  {
    Fill(r[..RunLength(r, B, c)], B)
  }

  /** The block `value()` assembles: row k is filled from the run of scalar row k. */
  function BlockValue(rs: seq<Row>, B: nat): (v: seq<seq<int>>)
    requires B > 0 && |rs| == B
    ensures |v| == B && forall k :: 0 <= k < B ==> |v[k]| == B
  {
    var c := CurCol(rs, B);
    seq(B, k requires 0 <= k < B => RunFill(rs[k], B, c))
  }

  /** The blocks a whole iteration emits, from the given state until exhaustion. */
  function Blocks(rs: seq<Row>, B: nat): (bs: seq<Block>)
    requires B > 0 && |rs| == B
    ensures forall p :: 0 <= p < |bs| ==> |bs[p].value| == B
    ensures forall p, k :: 0 <= p < |bs| && 0 <= k < B ==> |bs[p].value[k]| == B
    decreases TotalEntries(rs)
  {
    if !AnyLeft(rs) then []
    else
      StepConsumes(rs, B);
      [Block(CurCol(rs, B), BlockValue(rs, B))] + Blocks(Step(rs, B), B)
  }

  // ---------------------------------------------------------------------------
  // Termination: each `++` consumes at least one scalar entry
  // ---------------------------------------------------------------------------

  lemma {:induction false} TotalShrinks(xs: seq<Row>, ys: seq<Row>)
    requires |xs| == |ys|
    requires forall k :: 0 <= k < |xs| ==> |xs[k]| <= |ys[k]|
    ensures TotalEntries(xs) <= TotalEntries(ys)
    ensures (exists k :: 0 <= k < |xs| && |xs[k]| < |ys[k]|) ==> TotalEntries(xs) < TotalEntries(ys)
  {
    if xs != [] {
      assert forall k :: 0 <= k < |xs| - 1 ==> xs[1..][k] == xs[k + 1] && ys[1..][k] == ys[k + 1];
      TotalShrinks(xs[1..], ys[1..]);
    }
  }

  /** While the iterator is valid, `++` strictly reduces the number of unread entries. */
  lemma StepConsumes(rs: seq<Row>, B: nat)
    requires B > 0 && AnyLeft(rs)
    ensures TotalEntries(Step(rs, B)) < TotalEntries(rs)
  {
    var c := CurCol(rs, B);
    var next: seq<Row> := Step(rs, B);
    var k :| 0 <= k < |rs| && rs[k] != [] && rs[k][0].col / B == c;
    assert RunLength(rs[k], B, c) > 0;
    assert |next[k]| < |rs[k]|;
    TotalShrinks(next, rs);
  }

  // ---------------------------------------------------------------------------
  // Sorted rows
  // ---------------------------------------------------------------------------

  lemma DivMod(x: nat, B: nat)
    requires B > 0
    ensures x == B * (x / B) + x % B && 0 <= x % B < B
  {
  }

  lemma {:induction false} MulMono(B: nat, x: nat, y: nat)
    requires x <= y
    ensures B * x <= B * y
  {
    if x < y {
      MulMono(B, x, y - 1);
      assert B * y == B * (y - 1) + B;
    }
  }

  /** The quotient is determined by the block [B*q, B*q + B) that x lies in. */
  lemma DivUnique(x: nat, B: nat, q: nat)
    requires B > 0 && B * q <= x < B * q + B
    ensures x / B == q && x % B == x - B * q
  {
    var q' := x / B;
    DivMod(x, B);
    if q' > q {
      MulMono(B, q + 1, q');
    } else if q' < q {
      MulMono(B, q' + 1, q);
    }
  }

  lemma DivMono(a: nat, b: nat, B: nat)
    requires B > 0 && a <= b
    ensures a / B <= b / B
  {
    DivMod(a, B);
    DivMod(b, B);
    if a / B > b / B {
      MulMono(B, b / B + 1, a / B);
    }
  }

  /** The scalar index of position j inside block index c (a row or a column). */
  function ScalarIndex(c: nat, B: nat, j: nat): nat {
    c * B + j
  }

  lemma BlockOfPosition(c: nat, j: nat, B: nat)
    requires B > 0 && j < B
    ensures ScalarIndex(c, B, j) / B == c && ScalarIndex(c, B, j) % B == j
  {
    DivUnique(c * B + j, B, c);
  }

  lemma InBlock(x: nat, c: nat, B: nat)
    requires B > 0 && x / B == c
    ensures c * B <= x < c * B + B && x == c * B + x % B
  {
    DivMod(x, B);
  }

  /**
   * A sorted row whose head lies at or after block column c: its entries in
   * block column c are exactly its leading run, and what follows the run lies
   * strictly after c.
   */
  lemma RunSplit(r: Row, B: nat, c: nat)
    requires B > 0 && Sorted(r) && (r != [] ==> c <= r[0].col / B)
    ensures forall p :: 0 <= p < |r| ==> r[p].col / B >= c
    ensures forall p :: 0 <= p < |r| ==> (r[p].col / B == c <==> p < RunLength(r, B, c))
    ensures Sorted(r[RunLength(r, B, c)..])
    ensures forall p :: RunLength(r, B, c) <= p < |r| ==> r[p].col / B > c
  {
    var n := RunLength(r, B, c);
    forall p | 0 <= p < |r|
      ensures r[p].col / B >= c
      ensures r[p].col / B == c <==> p < n
    {
      DivMono(r[0].col, r[p].col, B);
      if n <= p {
        DivMono(r[0].col, r[n].col, B);
        DivMono(r[n].col, r[p].col, B);
      }
    }
    var rest := r[n..];
    assert forall p :: 0 <= p < |rest| ==> rest[p] == r[p + n];
  }

  /** The row k of the state after `++` on sorted input. */
  lemma StepRow(rs: seq<Row>, B: nat, k: nat)
    requires B > 0 && AllSorted(rs) && k < |rs|
    ensures rs[k] != [] ==> CurCol(rs, B) <= rs[k][0].col / B
    ensures Step(rs, B)[k] == rs[k][RunLength(rs[k], B, CurCol(rs, B))..]
    ensures Sorted(Step(rs, B)[k])
    ensures forall p :: 0 <= p < |Step(rs, B)[k]| ==> Step(rs, B)[k][p].col / B > CurCol(rs, B)
  {
    var c := CurCol(rs, B);
    var n := RunLength(rs[k], B, c);
    var next: seq<Row> := Step(rs, B);
    RunSplit(rs[k], B, c);
    assert next[k] == rs[k][n..];
    assert forall p :: 0 <= p < |next[k]| ==> next[k][p] == rs[k][p + n];
  }

  /** An entry behind row k's current run is still there after `++`, shifted by the run. */
  lemma StepEntry(rs: seq<Row>, B: nat, k: nat, m: nat)
    requires B > 0 && k < |rs| && RunLength(rs[k], B, CurCol(rs, B)) <= m < |rs[k]|
    ensures var n := RunLength(rs[k], B, CurCol(rs, B));
      m - n < |Step(rs, B)[k]| && Step(rs, B)[k][m - n] == rs[k][m]
  {
  }

  /** An entry of row k after `++` sat behind the run, at the same position shifted by the run. */
  lemma StepBack(rs: seq<Row>, B: nat, k: nat, m: nat)
    requires B > 0 && k < |rs| && m < |Step(rs, B)[k]|
    ensures var n := RunLength(rs[k], B, CurCol(rs, B));
      m + n < |rs[k]| && rs[k][m + n] == Step(rs, B)[k][m]
  {
  }

  /** Some row with entries has its head in the current block column. */
  lemma CurColSource(rs: seq<Row>, B: nat) returns (k: nat)
    requires B > 0 && AnyLeft(rs)
    ensures k < |rs| && rs[k] != [] && rs[k][0].col / B == CurCol(rs, B)
  {
    k :| 0 <= k < |rs| && rs[k] != [] && rs[k][0].col / B == MinHead(rs, B).value;
  }

  /** Sorted rows stay sorted under `++`. */
  lemma StepSorted(rs: seq<Row>, B: nat)
    requires B > 0 && AllSorted(rs)
    ensures AllSorted(Step(rs, B))
  {
    forall k | 0 <= k < |rs| ensures Sorted(Step(rs, B)[k]) {
      StepRow(rs, B, k);
    }
  }

  /** Ordering: the block column after `++` is strictly greater than before. */
  lemma NextColIncreases(rs: seq<Row>, B: nat)
    requires B > 0 && AllSorted(rs) && AnyLeft(rs) && AnyLeft(Step(rs, B))
    ensures CurCol(Step(rs, B), B) > CurCol(rs, B)
  {
    var next: seq<Row> := Step(rs, B);
    var k :| 0 <= k < |next| && next[k] != [] && next[k][0].col / B == CurCol(next, B);
    StepRow(rs, B, k);
    assert next[k][0].col / B > CurCol(rs, B);
  }

  /** Termination and ordering of `++` together, for one call. */
  lemma StepProgress(rs: seq<Row>, B: nat)
    requires B > 0
    ensures AnyLeft(rs) ==> TotalEntries(Step(rs, B)) < TotalEntries(rs)
    ensures AllSorted(rs) && AnyLeft(rs) && AnyLeft(Step(rs, B)) ==> CurCol(Step(rs, B), B) > CurCol(rs, B)
  {
    if AnyLeft(rs) {
      StepConsumes(rs, B);
      if AllSorted(rs) && AnyLeft(Step(rs, B)) {
        NextColIncreases(rs, B);
      }
    }
  }

  /**
   * On a sorted run that lies in block column c, position j of the filled
   * row holds the scalar value at column c*B + j, or zero.
   */
  lemma {:induction false} FillAt(run: Row, B: nat, c: nat, j: nat)
    requires B > 0 && j < B && Sorted(run)
    requires forall p :: 0 <= p < |run| ==> run[p].col / B == c
    ensures Fill(run, B)[j] == ScalarAt(run, ScalarIndex(c, B, j))
  {
    BlockOfPosition(c, j, B);
    if run == [] {
    } else {
      var n := |run| - 1;
      var e, init := run[n], run[..n];
      InBlock(e.col, c, B);
      if e.col % B == j {
        ScalarAtEntry(run, n);
      } else {
        assert Sorted(init) && forall p :: 0 <= p < |init| ==> init[p] == run[p];
        FillAt(init, B, c, j);
        ScalarAtTake(run, n, ScalarIndex(c, B, j));
      }
    }
  }

  /** Filling from the run of a sorted row gives the row's scalars in block column c. */
  lemma RunFillAt(r: Row, B: nat, c: nat, j: nat)
    requires B > 0 && j < B && Sorted(r) && (r != [] ==> c <= r[0].col / B)
    ensures RunFill(r, B, c)[j] == ScalarAt(r, ScalarIndex(c, B, j))
  {
    var n := RunLength(r, B, c);
    var x := ScalarIndex(c, B, j);
    RunSplit(r, B, c);
    assert Fill(r[..n], B)[j] == ScalarAt(r[..n], x) by {
      assert Sorted(r[..n]) && forall p :: 0 <= p < n ==> r[..n][p] == r[p];
      FillAt(r[..n], B, c, j);
    }
    assert ScalarAt(r[..n], x) == ScalarAt(r, x) by {
      BlockOfPosition(c, j, B);
      ScalarAtTake(r, n, x);
    }
  }

  /** `value()` on sorted rows: entry (k, j) is the scalar at row k, column c*B + j. */
  lemma BlockValueAt(rs: seq<Row>, B: nat, k: nat, j: nat)
    requires B > 0 && |rs| == B && AllSorted(rs) && k < B && j < B
    ensures BlockValue(rs, B)[k][j] == ScalarAt(rs[k], ScalarIndex(CurCol(rs, B), B, j))
  {
    var c := CurCol(rs, B);
    assert BlockValue(rs, B)[k] == RunFill(rs[k], B, c);
    RunFillAt(rs[k], B, c, j);
  }

  // ---------------------------------------------------------------------------
  // A whole block row
  // ---------------------------------------------------------------------------

  /** Unfolding one step of the iteration. */
  lemma BlocksUnfold(rs: seq<Row>, B: nat)
    requires B > 0 && |rs| == B && AnyLeft(rs)
    ensures Blocks(rs, B) == [Block(CurCol(rs, B), BlockValue(rs, B))] + Blocks(Step(rs, B), B)
  {
  }

  /** The first block is at the current block column. */
  lemma BlocksHead(rs: seq<Row>, B: nat)
    requires B > 0 && |rs| == B && AnyLeft(rs)
    ensures |Blocks(rs, B)| > 0 && Blocks(rs, B)[0].col == CurCol(rs, B)
  {
    BlocksUnfold(rs, B);
  }

  /** A block behind the first keeps its column in the whole sequence. */
  lemma BlockColTail(rs: seq<Row>, B: nat, p: nat, x: int)
    requires B > 0 && |rs| == B && AnyLeft(rs)
    requires p < |Blocks(Step(rs, B), B)| && Blocks(Step(rs, B), B)[p].col == x
    ensures p + 1 < |Blocks(rs, B)| && Blocks(rs, B)[p + 1].col == x
  {
    BlocksUnfold(rs, B);
  }

  /** The blocks seen so far, with the current one added, followed by those still to come. */
  lemma BlocksExtend(seen: seq<Block>, rs: seq<Row>, B: nat)
    requires B > 0 && |rs| == B && AnyLeft(rs)
    ensures seen + Blocks(rs, B) == (seen + [Block(CurCol(rs, B), BlockValue(rs, B))]) + Blocks(Step(rs, B), B)
  {
    BlocksUnfold(rs, B);
    var b, rest := Block(CurCol(rs, B), BlockValue(rs, B)), Blocks(Step(rs, B), B);
    assert seen + ([b] + rest) == (seen + [b]) + rest;
  }

  /** Rows filled one by one from the runs make up the current block. */
  lemma BlockValueOf(rs: seq<Row>, B: nat, v: seq<seq<int>>)
    requires B > 0 && |rs| == B && |v| == B
    requires forall k :: 0 <= k < B ==> v[k] == RunFill(rs[k], B, CurCol(rs, B))
    ensures v == BlockValue(rs, B)
  {
  }

  /**
   * No spurious blocks: the column of the p-th emitted block is the block
   * column of a stored entry, returned as (row k, position m).
   */
  lemma {:induction false} BlockSource(rs: seq<Row>, B: nat, p: nat) returns (k: nat, m: nat)
    requires B > 0 && |rs| == B && p < |Blocks(rs, B)|
    ensures k < B && m < |rs[k]| && rs[k][m].col / B == Blocks(rs, B)[p].col
    decreases p
  {
    BlocksAt(rs, B, p);
    if p == 0 {
      k := CurColSource(rs, B);
      m := 0;
    } else {
      var m';
      k, m' := BlockSource(Step(rs, B), B, p - 1);
      StepBack(rs, B, k, m');
      m := m' + RunLength(rs[k], B, CurCol(rs, B));
    }
  }

  /** After the first block, every block column is strictly greater than the first. */
  lemma BlockAfterFirst(rs: seq<Row>, B: nat, p: nat)
    requires B > 0 && |rs| == B && AllSorted(rs) && p < |Blocks(Step(rs, B), B)|
    ensures Blocks(Step(rs, B), B)[p].col > CurCol(rs, B)
  {
    var k, m := BlockSource(Step(rs, B), B, p);
    StepRow(rs, B, k);
  }

  /** The first block's column is the current column; the others are those of the tail. */
  lemma BlocksAt(rs: seq<Row>, B: nat, p: nat)
    requires B > 0 && |rs| == B && p < |Blocks(rs, B)|
    ensures AnyLeft(rs) && |Blocks(rs, B)| == 1 + |Blocks(Step(rs, B), B)|
    ensures p == 0 ==> Blocks(rs, B)[p] == Block(CurCol(rs, B), BlockValue(rs, B))
    ensures p > 0 ==> Blocks(rs, B)[p] == Blocks(Step(rs, B), B)[p - 1]
  {
    BlocksUnfold(rs, B);
  }

  /** The first block's column is below every later one. */
  lemma FirstBlockLeast(rs: seq<Row>, B: nat, q: nat)
    requires B > 0 && |rs| == B && AllSorted(rs) && 0 < q < |Blocks(rs, B)|
    ensures Blocks(rs, B)[0].col < Blocks(rs, B)[q].col
  {
    BlocksAt(rs, B, 0);
    BlocksAt(rs, B, q);
    BlockAfterFirst(rs, B, q - 1);
  }

  /** Ordering: the block columns of one block row strictly increase. */
  lemma {:induction false} BlocksOrdered(rs: seq<Row>, B: nat, p: nat, q: nat)
    requires B > 0 && |rs| == B && AllSorted(rs) && p < q < |Blocks(rs, B)|
    ensures Blocks(rs, B)[p].col < Blocks(rs, B)[q].col
    decreases p
  {
    if p == 0 {
      FirstBlockLeast(rs, B, q);
    } else {
      BlocksAt(rs, B, p);
      BlocksAt(rs, B, q);
      StepSorted(rs, B);
      BlocksOrdered(Step(rs, B), B, p - 1, q - 1);
    }
  }

  /** Some emitted block sits at block column c. */
  predicate HasBlockAt(bs: seq<Block>, c: int) {
    exists p :: 0 <= p < |bs| && bs[p].col == c
  }

  /**
   * Completeness: the entry at position m of row k falls into an emitted
   * block, whose index is returned.
   */
  lemma {:induction false} BlockOfEntry(rs: seq<Row>, B: nat, k: nat, m: nat) returns (p: nat)
    requires B > 0 && |rs| == B && k < B && m < |rs[k]|
    ensures p < |Blocks(rs, B)| && Blocks(rs, B)[p].col == rs[k][m].col / B
    decreases TotalEntries(rs)
  {
    assert AnyLeft(rs) by { assert rs[k] != []; }
    var c := CurCol(rs, B);
    var n := RunLength(rs[k], B, c);
    var x := rs[k][m].col / B;
    if m < n {
      p := 0;
      assert p < |Blocks(rs, B)| && Blocks(rs, B)[p].col == x by {
        BlocksHead(rs, B);
        assert x == c;
      }
    } else {
      var next := Step(rs, B);
      StepEntry(rs, B, k, m);
      StepConsumes(rs, B);
      var p' := BlockOfEntry(next, B, k, m - n);
      assert next[k][m - n] == rs[k][m];
      BlockColTail(rs, B, p', x);
      p := p' + 1;
    }
  }

  /**
   * Values: position (k, j) of the p-th emitted block holds the scalar of row
   * k at column col*B + j, which is zero where the row stores nothing.
   */
  lemma {:induction false} BlockEntryAt(rs: seq<Row>, B: nat, p: nat, k: nat, j: nat)
    requires B > 0 && |rs| == B && AllSorted(rs) && p < |Blocks(rs, B)| && k < B && j < B
    ensures Blocks(rs, B)[p].value[k][j] == ScalarAt(rs[k], ScalarIndex(Blocks(rs, B)[p].col, B, j))
    decreases p
  {
    BlocksAt(rs, B, p);
    if p == 0 {
      BlockValueAt(rs, B, k, j);
    } else {
      StepSorted(rs, B);
      BlockEntryAt(Step(rs, B), B, p - 1, k, j);
      TailEntryAt(rs, B, p - 1, k, j);
    }
  }

  /** Dropping the first block's run keeps the scalars the later blocks read. */
  lemma TailEntryAt(rs: seq<Row>, B: nat, p: nat, k: nat, j: nat)
    requires B > 0 && |rs| == B && AllSorted(rs) && p < |Blocks(Step(rs, B), B)| && k < B && j < B
    ensures ScalarAt(Step(rs, B)[k], ScalarIndex(Blocks(Step(rs, B), B)[p].col, B, j))
         == ScalarAt(rs[k], ScalarIndex(Blocks(Step(rs, B), B)[p].col, B, j))
  {
    var c := CurCol(rs, B);
    var n := RunLength(rs[k], B, c);
    var b := Blocks(Step(rs, B), B)[p];
    var x := ScalarIndex(b.col, B, j);
    BlockAfterFirst(rs, B, p);
    BlockOfPosition(b.col, j, B);
    StepRow(rs, B, k);
    forall i | 0 <= i < n ensures rs[k][i].col != x {
      assert rs[k][i].col / B == c;
    }
    ScalarAtDrop(rs[k], n, x);
  }

  // ---------------------------------------------------------------------------
  // Counting: a block holds at most B*B scalar entries
  // ---------------------------------------------------------------------------

  lemma {:induction false} SortedSpread(r: Row, p: nat)
    requires Sorted(r) && p < |r|
    ensures r[p].col >= r[0].col + p
  {
    if p > 0 {
      SortedSpread(r, p - 1);
    }
  }

  /** A run inside one block column of a sorted row has at most B entries. */
  lemma RunAtMostB(r: Row, B: nat, c: nat)
    requires B > 0 && Sorted(r)
    ensures RunLength(r, B, c) <= B
  {
    var n := RunLength(r, B, c);
    if n > B {
      SortedSpread(r, B);
      InBlock(r[0].col, c, B);
      InBlock(r[B].col, c, B);
    }
  }

  lemma {:induction false} TotalEmpty(rs: seq<Row>)
    requires !AnyLeft(rs)
    ensures TotalEntries(rs) == 0
  {
    if rs != [] {
      assert rs[0] == [];
      assert !AnyLeft(rs[1..]);
      TotalEmpty(rs[1..]);
    }
  }

  lemma {:induction false} TotalDrop(xs: seq<Row>, ys: seq<Row>, d: nat)
    requires |xs| == |ys|
    requires forall k :: 0 <= k < |xs| ==> |xs[k]| <= |ys[k]| + d
    ensures TotalEntries(xs) <= TotalEntries(ys) + |xs| * d
  {
    if xs != [] {
      assert forall k :: 0 <= k < |xs| - 1 ==> xs[1..][k] == xs[k + 1] && ys[1..][k] == ys[k + 1];
      TotalDrop(xs[1..], ys[1..], d);
      assert |xs| * d == (|xs| - 1) * d + d;
    }
  }

  lemma MulSucc(a: nat, t: nat)
    ensures a * (t + 1) == a * t + a
  {
  }

  /** The scalar entries of a sorted block row number at most B*B per emitted block. */
  lemma {:induction false} EntriesPerBlock(rs: seq<Row>, B: nat)
    requires B > 0 && |rs| == B && AllSorted(rs)
    ensures TotalEntries(rs) <= B * B * |Blocks(rs, B)|
    decreases TotalEntries(rs)
  {
    if !AnyLeft(rs) {
      TotalEmpty(rs);
    } else {
      var c, next := CurCol(rs, B), Step(rs, B);
      forall k | 0 <= k < B ensures |rs[k]| <= |next[k]| + B {
        StepRow(rs, B, k);
        RunAtMostB(rs[k], B, c);
      }
      TotalDrop(rs, next, B);
      StepConsumes(rs, B);
      StepSorted(rs, B);
      EntriesPerBlock(next, B);
      BlocksAt(rs, B, 0);
      MulSucc(B * B, |Blocks(next, B)|);
    }
  }
}
