/**
 * The scalar sparse matrix the block adapter reads: a compressed-row matrix
 * whose rows are sequences of (column, value) entries. Only the capabilities
 * the adapter uses are modelled: the row count, the column count, the
 * nonzero count and iteration over one row.
 */
module ScalarMatrix {

  /** One stored scalar entry of a row. */
  datatype Entry = Entry(col: nat, value: int)

  type Row = seq<Entry>

  datatype Matrix = Matrix(ncols: nat, rowData: seq<Row>)

  /** backend::rows(A) */
  function Rows(m: Matrix): nat {
    |m.rowData|
  }

  /** backend::cols(A) */
  function Cols(m: Matrix): nat {
    m.ncols
  }

  /** The number of entries stored in a sequence of rows. */
  function TotalEntries(rs: seq<Row>): nat {
    if rs == [] then 0 else |rs[0]| + TotalEntries(rs[1..])
  }

  /** backend::nonzeros(A): every stored entry, as the row pointer array counts them. */
  function Nonzeros(m: Matrix): nat {
    TotalEntries(m.rowData)
  }

  /** A row iterator yields its entries in strictly increasing column order. */
  predicate Sorted(r: Row) {
    forall p, q :: 0 <= p < q < |r| ==> r[p].col < r[q].col
  }

  predicate AllSorted(rs: seq<Row>) {
    forall k :: 0 <= k < |rs| ==> Sorted(rs[k])
  }

  /** Sorted rows whose columns lie inside the matrix. */
  predicate WellFormed(m: Matrix) {
    && AllSorted(m.rowData)
    && forall k, p :: 0 <= k < |m.rowData| && 0 <= p < |m.rowData[k]| ==> m.rowData[k][p].col < m.ncols
  }

  /**
   * The value stored at column x of row r, or zero when the row has no entry
   * there. On a sorted row the entry is unique.
   */
  ghost function ScalarAt(r: Row, x: nat): int {
    if exists p :: 0 <= p < |r| && r[p].col == x then
      var p :| 0 <= p < |r| && r[p].col == x; r[p].value
    else
      0
  }

  lemma {:induction false} TotalEntriesAppend(a: seq<Row>, b: seq<Row>)
    ensures TotalEntries(a + b) == TotalEntries(a) + TotalEntries(b)
  {
    if a == [] {
      assert a + b == b;
    } else {
      assert (a + b)[1..] == a[1..] + b;
      TotalEntriesAppend(a[1..], b);
    }
  }

  lemma ScalarAtEntry(r: Row, p: nat)
    requires Sorted(r) && p < |r|
    ensures ScalarAt(r, r[p].col) == r[p].value
  {
  }

  /** Dropping entries that are not at column x does not change the value at x. */
  lemma ScalarAtDrop(r: Row, n: nat, x: nat)
    requires Sorted(r) && n <= |r|
    requires forall p :: 0 <= p < n ==> r[p].col != x
    ensures Sorted(r[n..]) && ScalarAt(r[n..], x) == ScalarAt(r, x)
  {
    var s := r[n..];
    if p :| 0 <= p < |r| && r[p].col == x {
      assert n <= p;
      assert s[p - n] == r[p];
      ScalarAtEntry(r, p);
      ScalarAtEntry(s, p - n);
    } else {
      forall q | 0 <= q < |s| ensures s[q].col != x {
        assert s[q] == r[q + n];
      }
    }
  }

  /** Keeping only a prefix that holds every entry at column x does not change the value at x. */
  lemma ScalarAtTake(r: Row, n: nat, x: nat)
    requires Sorted(r) && n <= |r|
    requires forall p :: n <= p < |r| ==> r[p].col != x
    ensures Sorted(r[..n]) && ScalarAt(r[..n], x) == ScalarAt(r, x)
  {
    var s := r[..n];
    if p :| 0 <= p < |r| && r[p].col == x {
      assert p < n;
      assert s[p] == r[p];
      ScalarAtEntry(r, p);
      ScalarAtEntry(s, p);
    } else {
      forall q | 0 <= q < |s| ensures s[q].col != x {
        assert s[q] == r[q];
      }
    }
  }

  /** Dropping a then n entries drops a + n. */
  lemma DropDrop(r: Row, a: nat, n: nat)
    requires a + n <= |r|
    ensures r[a..][n..] == r[a + n..]
  {
  }
}
