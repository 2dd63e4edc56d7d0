/** DataFrames as the pipeline uses them: rows with an index key and numeric
    cells (a missing cell is pandas' NaN), grouped into calendar bins by
    resample().mean() and combined by an inner merge on the key. */
module Tables {
  import opened Outcomes
  import opened Stats

  /** One row of a DataFrame: its index key and one cell per column. */
  datatype Row<K> = Row(key: K, cells: seq<Option<real>>)

  /** Column names (the index excluded) and rows, in order. */
  datatype Table<K> = Table(columns: seq<string>, rows: seq<Row<K>>)

  /** Every row has exactly one cell per column. */
  predicate WellFormed<K>(t: Table<K>)
  {
    forall i :: 0 <= i < |t.rows| ==> |t.rows[i].cells| == |t.columns|
  }

  function Keys<K>(rows: seq<Row<K>>): (ks: seq<K>)
    ensures |ks| == |rows| && forall i :: 0 <= i < |rows| ==> ks[i] == rows[i].key
  {
    seq(|rows|, i requires 0 <= i < |rows| => rows[i].key)
  }

  lemma KeysOfConcat<K>(a: seq<Row<K>>, b: seq<Row<K>>)
    ensures Keys(a + b) == Keys(a) + Keys(b)
  {
  }

  predicate DistinctKeys<K(==)>(rows: seq<Row<K>>)
  {
    forall i, j :: 0 <= i < j < |rows| ==> rows[i].key != rows[j].key
  }

  /** Keys strictly increasing by the given rank. */
  predicate Ascending<K>(ks: seq<K>, rank: K -> int)
  {
    forall i, j :: 0 <= i < j < |ks| ==> rank(ks[i]) < rank(ks[j])
  }

  /** Cell j of a row; a row too short for column j reads as missing. */
  function Cell<K>(r: Row<K>, j: nat): Option<real>
  {
    if j < |r.cells| then r.cells[j] else None
  }

  /** The rows whose key falls in bin b, in their original order. */
  function InBin<T(!new), K(==)>(rows: seq<Row<T>>, binOf: T -> K, b: K): (g: seq<Row<T>>)
    ensures |g| <= |rows|
    ensures forall r :: r in g <==> r in rows && binOf(r.key) == b
  {
    if rows == [] then []
    else
      var rest := InBin(rows[1..], binOf, b);
      assert forall r :: r in rows <==> r == rows[0] || r in rows[1..];
      if binOf(rows[0].key) == b then [rows[0]] + rest else rest
  }

  /** A bin's group keeps each of its rows as often as the table holds it,
      so a repeated record weighs in the mean as often as it occurs. */
  lemma {:induction false} InBinCounts<T(!new), K>(rows: seq<Row<T>>, binOf: T -> K, b: K)
    ensures forall r :: multiset(InBin(rows, binOf, b))[r] == if binOf(r.key) == b then multiset(rows)[r] else 0
  {
    if rows != [] {
      InBinCounts(rows[1..], binOf, b);
      assert rows == [rows[0]] + rows[1..];
    }
  }

  /** Column j of a sequence of rows. */
  function Column<K>(rows: seq<Row<K>>, j: nat): (c: seq<Option<real>>)
    ensures |c| == |rows| && forall i :: 0 <= i < |rows| ==> c[i] == Cell(rows[i], j)
  {
    seq(|rows|, i requires 0 <= i < |rows| => Cell(rows[i], j))
  }

  /** The mean of column j over the rows in bin b. */
  function BinMean<T(!new), K(==)>(rows: seq<Row<T>>, binOf: T -> K, b: K, j: nat): Option<real>
  {
    Mean(Column(InBin(rows, binOf, b), j))
  }

  /** pandas' resample(...).mean() over the given bins: one row per bin, in
      bin order, each cell the mean of its column over the rows in the bin. */
  function Resample<T(!new), K(==)>(t: Table<T>, binOf: T -> K, bins: seq<K>): (r: Table<K>)
    ensures r.columns == t.columns && WellFormed(r)
    ensures Keys(r.rows) == bins
    ensures forall i, j :: 0 <= i < |bins| && 0 <= j < |t.columns| ==>
              r.rows[i].cells[j] == BinMean(t.rows, binOf, bins[i], j)
  {
    var n := |t.columns|;
    Table(t.columns, seq(|bins|, i requires 0 <= i < |bins| =>
      Row(bins[i], seq(n, j requires 0 <= j < n => BinMean(t.rows, binOf, bins[i], j)))))
  }

  /** A bin's cell is missing exactly when no row of the bin has a value in
      that column; in particular an empty bin yields a row of missing cells,
      never zeros. */
  lemma BinMeanMissing<T(!new), K>(rows: seq<Row<T>>, binOf: T -> K, b: K, j: nat)
    ensures BinMean(rows, binOf, b, j).None? <==>
              forall r :: r in rows && binOf(r.key) == b ==> Cell(r, j).None?
  {
    var g := InBin(rows, binOf, b);
    var c := Column(g, j);
    if forall r :: r in rows && binOf(r.key) == b ==> Cell(r, j).None? {
      forall i | 0 <= i < |c| ensures c[i].None? {
        assert g[i] in g;
      }
    } else {
      var r :| r in rows && binOf(r.key) == b && Cell(r, j).Some?;
      assert r in g;
      var i :| 0 <= i < |g| && g[i] == r;
      assert c[i].Some?;
    }
  }

  /** When every value a bin holds in column j is c, and it holds at least one,
      the bin's mean is c. */
  lemma BinMeanOfConstant<T(!new), K>(rows: seq<Row<T>>, binOf: T -> K, b: K, j: nat, c: real)
    requires forall r :: r in rows && binOf(r.key) == b ==> Cell(r, j) == None || Cell(r, j) == Some(c)
    requires exists r :: r in rows && binOf(r.key) == b && Cell(r, j) == Some(c)
    ensures BinMean(rows, binOf, b, j) == Some(c)
  {
    var g := InBin(rows, binOf, b);
    var col := Column(g, j);
    forall i | 0 <= i < |col| ensures col[i] == None || col[i] == Some(c) {
      assert g[i] in g;
    }
    var r :| r in rows && binOf(r.key) == b && Cell(r, j) == Some(c);
    assert r in g;
    var k :| 0 <= k < |g| && g[k] == r;
    assert col[k] == Some(c);
    MeanOfConstant(col, c);
  }

  /** A bin's mean lies between any bounds on the values the bin holds in that column. */
  lemma BinMeanWithin<T(!new), K>(rows: seq<Row<T>>, binOf: T -> K, b: K, j: nat, lo: real, hi: real)
    requires forall r :: r in rows && binOf(r.key) == b && Cell(r, j).Some? ==> lo <= Cell(r, j).value <= hi
    requires BinMean(rows, binOf, b, j).Some?
    ensures lo <= BinMean(rows, binOf, b, j).value <= hi
  {
    var g := InBin(rows, binOf, b);
    var col := Column(g, j);
    forall x | Some(x) in col ensures lo <= x <= hi {
      var i :| 0 <= i < |col| && col[i] == Some(x);
      assert g[i] in g;
    }
    MeanWithin(col, lo, hi);
  }

  /** The rows of `right` whose key equals l's, each appended to l's cells. */
  function Matches<K(==)>(l: Row<K>, right: seq<Row<K>>): seq<Row<K>>
  {
    if right == [] then []
    else
      (if right[0].key == l.key then [Row(l.key, l.cells + right[0].cells)] else [])
      + Matches(l, right[1..])
  }

  /** The rows of an inner merge on the key, in the order of the left keys. */
  function JoinRows<K(==)>(left: seq<Row<K>>, right: seq<Row<K>>): seq<Row<K>>
  {
    if left == [] then [] else Matches(left[0], right) + JoinRows(left[1..], right)
  }

  /** pandas' merge(left, right, how='inner') on the key: left's columns then right's. */
  function InnerJoin<K(==)>(left: Table<K>, right: Table<K>): (t: Table<K>)
    ensures t.columns == left.columns + right.columns
  {
    Table(left.columns + right.columns, JoinRows(left.rows, right.rows))
  }

  lemma {:induction false} MatchesAre<K>(l: Row<K>, right: seq<Row<K>>)
    ensures forall o :: o in Matches(l, right) <==>
              exists r :: r in right && r.key == l.key && o == Row(l.key, l.cells + r.cells)
  {
    if right != [] {
      MatchesAre(l, right[1..]);
      assert forall r :: r in right <==> r == right[0] || r in right[1..];
    }
  }

  /** An inner merge invents no row and loses no pair: its rows are exactly
      the left rows extended by the cells of a right row with the same key. */
  lemma {:induction false} JoinRowsAre<K>(left: seq<Row<K>>, right: seq<Row<K>>)
    ensures forall o :: o in JoinRows(left, right) <==>
              exists l, r :: l in left && r in right && l.key == r.key && o == Row(l.key, l.cells + r.cells)
  {
    if left != [] {
      JoinRowsAre(left[1..], right);
      MatchesAre(left[0], right);
      assert forall l :: l in left <==> l == left[0] || l in left[1..];
    }
  }

  /** The daily and proxy rows a joined row was made of. */
  lemma JoinRowOrigin<K>(left: seq<Row<K>>, right: seq<Row<K>>, o: Row<K>) returns (l: Row<K>, r: Row<K>)
    requires o in JoinRows(left, right)
    ensures l in left && r in right && l.key == r.key && o == Row(l.key, l.cells + r.cells)
  {
    JoinRowsAre(left, right);
    l, r :| l in left && r in right && l.key == r.key && o == Row(l.key, l.cells + r.cells);
  }

  lemma JoinRowFrom<K>(left: seq<Row<K>>, right: seq<Row<K>>, l: Row<K>, r: Row<K>)
    requires l in left && r in right && l.key == r.key
    ensures Row(l.key, l.cells + r.cells) in JoinRows(left, right)
  {
    JoinRowsAre(left, right);
  }

  /** The keys of ks that also occur in other, in the order of ks. */
  function KeptKeys<K(==,!new)>(ks: seq<K>, other: seq<K>): (r: seq<K>)
    ensures forall k :: k in r <==> k in ks && k in other
  {
    if ks == [] then []
    else
      var rest := KeptKeys(ks[1..], other);
      assert forall k :: k in ks <==> k == ks[0] || k in ks[1..];
      if ks[0] in other then [ks[0]] + rest else rest
  }

  lemma {:induction false} KeptKeysAscending<K(!new)>(ks: seq<K>, other: seq<K>, rank: K -> int)
    requires Ascending(ks, rank)
    ensures Ascending(KeptKeys(ks, other), rank)
  {
    if ks != [] {
      KeptKeysAscending(ks[1..], other, rank);
      var rest := KeptKeys(ks[1..], other);
      forall k | k in rest ensures rank(ks[0]) < rank(k) {
        var i :| 0 <= i < |ks[1..]| && ks[1..][i] == k;
        assert ks[i + 1] == k;
      }
    }
  }

  lemma {:induction false} MatchesOfDistinct<K>(l: Row<K>, right: seq<Row<K>>)
    requires DistinctKeys(right)
    ensures Keys(Matches(l, right)) == if l.key in Keys(right) then [l.key] else []
  {
    if right != [] {
      MatchesOfDistinct(l, right[1..]);
      assert Keys(right) == [right[0].key] + Keys(right[1..]);
      if right[0].key == l.key {
        assert l.key !in Keys(right[1..]);
      }
      KeysOfConcat(if right[0].key == l.key then [Row(l.key, l.cells + right[0].cells)] else [], Matches(l, right[1..]));
    }
  }

  /** When the right keys are distinct, the merged keys are exactly the left
      keys that also occur on the right, once each and in the left order. */
  lemma {:induction false} JoinKeys<K(!new)>(left: seq<Row<K>>, right: seq<Row<K>>)
    requires DistinctKeys(right)
    ensures Keys(JoinRows(left, right)) == KeptKeys(Keys(left), Keys(right))
  {
    if left != [] {
      JoinKeys(left[1..], right);
      MatchesOfDistinct(left[0], right);
      KeysOfConcat(Matches(left[0], right), JoinRows(left[1..], right));
      assert Keys(left)[1..] == Keys(left[1..]);
    }
  }

  lemma {:induction false} MatchesWellFormed<K>(l: Row<K>, right: seq<Row<K>>, nl: nat, nr: nat)
    requires |l.cells| == nl && forall i :: 0 <= i < |right| ==> |right[i].cells| == nr
    ensures forall i :: 0 <= i < |Matches(l, right)| ==> |Matches(l, right)[i].cells| == nl + nr
  {
    if right != [] {
      MatchesWellFormed(l, right[1..], nl, nr);
    }
  }

  /** Merging two well-formed tables gives a well-formed table. */
  lemma {:induction false} JoinWellFormed<K>(left: Table<K>, right: Table<K>)
    requires WellFormed(left) && WellFormed(right)
    ensures WellFormed(InnerJoin(left, right))
    decreases |left.rows|
  {
    if left.rows != [] {
      var tail := Table(left.columns, left.rows[1..]);
      JoinWellFormed(tail, right);
      MatchesWellFormed(left.rows[0], right.rows, |left.columns|, |right.columns|);
    }
  }

  lemma {:induction false} MatchesKeys<K>(l: Row<K>, right: seq<Row<K>>)
    ensures forall i :: 0 <= i < |Matches(l, right)| ==> Matches(l, right)[i].key == l.key
    ensures Matches(l, right) != [] ==> l.key in Keys(right)
  {
    if right != [] {
      MatchesKeys(l, right[1..]);
      assert Keys(right) == [right[0].key] + Keys(right[1..]);
    }
  }

  /** Every merged key is a key of both sides. */
  lemma {:induction false} JoinKeysFromBoth<K>(left: seq<Row<K>>, right: seq<Row<K>>)
    ensures forall i :: 0 <= i < |JoinRows(left, right)| ==>
              JoinRows(left, right)[i].key in Keys(left) && JoinRows(left, right)[i].key in Keys(right)
  {
    if left != [] {
      JoinKeysFromBoth(left[1..], right);
      MatchesKeys(left[0], right);
      assert Keys(left) == [left[0].key] + Keys(left[1..]);
    }
  }
}
