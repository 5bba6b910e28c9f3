/**
 The adjacency view of a relation matrix (`mostrarRelaciones`): each node
 with at least one outgoing pair is mapped to the ascending list of the
 nodes it is related to. Nodes without outgoing pairs have no key.
 */
module Adjacency {
  import opened RelationMatrix

  type View = map<nat, seq<nat>>

  /**
   The columns of a row that hold a 1, listed in the order a left-to-right
   scan meets them: each listed column holds a 1 and the list is strictly
   ascending (TargetsComplete adds that no such column is missed).
   */
  function Targets(row: seq<int>): (r: seq<nat>)
    ensures forall k :: 0 <= k < |r| ==> r[k] < |row| && row[r[k]] == 1
    ensures forall a, b :: 0 <= a < b < |r| ==> r[a] < r[b]
  {
    if row == [] then []
    else
      var prefix := Targets(row[..|row| - 1]);
      prefix + (if row[|row| - 1] == 1 then [|row| - 1] else [])
  }

  /** Every column of a row that holds a 1 is listed. */
  lemma {:induction false} TargetsComplete(row: seq<int>)
    ensures forall j :: 0 <= j < |row| && row[j] == 1 ==> j in Targets(row)
  {
    if row != [] {
      var init := row[..|row| - 1];
      TargetsComplete(init);
      forall j | 0 <= j < |row| - 1 && row[j] == 1 ensures j in Targets(row) {
        assert init[j] == 1;
      }
    }
  }

  /** How many entries of a row are 1, counted from the front. */
  function CountOnes(row: seq<int>): nat {
    if row == [] then 0 else (if row[0] == 1 then 1 else 0) + CountOnes(row[1..])
  }

  /** How many entries of a list of rows are 1, that is how many pairs the relation holds. */
  function CountPairs(rows: seq<seq<int>>): nat {
    if rows == [] then 0 else CountOnes(rows[0]) + CountPairs(rows[1..])
  }

  /** The view built from a list of rows, one row after the other. */
  function ViewOfRows(rows: seq<seq<int>>): View {
    if rows == [] then map[]
    else ViewOfRows(rows[..|rows| - 1]) + RowEntry(|rows| - 1, Targets(rows[|rows| - 1]))
  }

  /** Row i has a key iff it lists a column, and the key holds that list. */
  lemma {:induction false} ViewOfRowsEntries(rows: seq<seq<int>>)
    ensures forall i: nat :: i in ViewOfRows(rows) <==> i < |rows| && Targets(rows[i]) != []
    ensures forall i: nat :: i in ViewOfRows(rows) ==> ViewOfRows(rows)[i] == Targets(rows[i])
  {
    if rows != [] {
      ViewOfRowsEntries(rows[..|rows| - 1]);
    }
  }

  /** The view of the whole matrix. */
  function AdjacencyView(m: Matrix): View
    requires IsRelationMatrix(m)
  {
    ViewOfRows(m)
  }

  /** The sum of the list lengths over the keys below k. */
  function ListedPairs(v: View, k: nat): nat {
    if k == 0 then 0 else ListedPairs(v, k - 1) + (if k - 1 in v then |v[k - 1]| else 0)
  }

  /**
   The view as the source builds it: rows in index order, and for each row
   the scan of ScanRow. The matrix is a value and is left as it was.
   */
  method ShowRelations(m: Matrix) returns (relations: View)
    requires IsRelationMatrix(m)
    ensures relations == AdjacencyView(m)
  {
    relations := map[];
    var i := 0;
    while i < |m|
      invariant 0 <= i <= |m|
      invariant relations == ViewOfRows(m[..i])
    {
      ViewOfRowsEntries(m[..i]);
      assert m[..i + 1][..i] == m[..i];
      relations := ScanRow(relations, i, m[i]);
      i := i + 1;
    }
    assert m[..i] == m;
  }

  /**
   The inner scan over row i: columns in index order; on a 1 the key i is
   created if missing and the column is appended to its list.
   */
  method ScanRow(relations: View, i: nat, row: seq<int>) returns (updated: View)
    requires i !in relations
    ensures updated == relations + RowEntry(i, Targets(row))
  {
    updated := relations;
    var j := 0;
    while j < |row|
      invariant 0 <= j <= |row|
      invariant updated == relations + RowEntry(i, Targets(row[..j]))
    {
      ghost var listed := Targets(row[..j]);
      assert row[..j + 1][..j] == row[..j];
      if row[j] == 1 {
        assert Targets(row[..j + 1]) == listed + [j];
        if i !in updated {
          updated := updated[i := []];
        }
        updated := updated[i := updated[i] + [j]];
        AppendToRowEntry(relations, i, listed, j);
      } else {
        assert Targets(row[..j + 1]) == listed;
      }
      j := j + 1;
    }
    assert row[..j] == row;
  }

  /** The key of row i, present only once the row has listed a column. */
  function RowEntry(i: nat, listed: seq<nat>): View {
    if listed == [] then map[] else map[i := listed]
  }

  /** One inner step of ShowRelations: create the key if missing, then append j. */
  lemma AppendToRowEntry(done: View, i: nat, listed: seq<nat>, j: nat)
    requires i !in done
    ensures var rel := done + RowEntry(i, listed);
            var created := if i in rel then rel else rel[i := []];
            created[i := created[i] + [j]] == done + RowEntry(i, listed + [j])
  {
  }

  /** A node has a key iff its row holds a 1; in particular every key is a node. */
  lemma AdjacencyViewKeys(m: Matrix)
    requires IsRelationMatrix(m)
    ensures forall i: nat :: i in AdjacencyView(m) <==> i < |m| && exists j :: 0 <= j < |m| && m[i][j] == 1
  {
    ViewOfRowsEntries(m);
    forall i: nat | i < |m| && exists j :: 0 <= j < |m| && m[i][j] == 1
      ensures i in AdjacencyView(m)
    {
      var j :| 0 <= j < |m| && m[i][j] == 1;
      TargetsComplete(m[i]);
      assert j in Targets(m[i]);
    }
    forall i: nat | i in AdjacencyView(m)
      ensures exists j :: 0 <= j < |m| && m[i][j] == 1
    {
      var listed := Targets(m[i]);
      assert m[i][listed[0]] == 1;
    }
  }

  /**
   The list of a node holds exactly the nodes it is related to, each below
   the matrix size, in strictly ascending order.
   */
  lemma AdjacencyViewLists(m: Matrix)
    requires IsRelationMatrix(m)
    ensures forall i: nat :: i in AdjacencyView(m) ==> i < |m|
    ensures forall i: nat :: i in AdjacencyView(m) ==>
      (forall j: nat :: j in AdjacencyView(m)[i] <==> j < |m| && m[i][j] == 1)
    ensures forall i: nat :: i in AdjacencyView(m) ==>
      (forall a, b :: 0 <= a < b < |AdjacencyView(m)[i]| ==> AdjacencyView(m)[i][a] < AdjacencyView(m)[i][b])
  {
    ViewOfRowsEntries(m);
    forall i: nat | i in AdjacencyView(m)
      ensures forall j: nat :: j in AdjacencyView(m)[i] <==> j < |m| && m[i][j] == 1
    {
      TargetsComplete(m[i]);
    }
  }

  /** Appending an entry adds one to the count iff the entry is 1. */
  lemma {:induction false} CountOnesAppend(row: seq<int>, x: int)
    ensures CountOnes(row + [x]) == CountOnes(row) + (if x == 1 then 1 else 0)
  {
    if row != [] {
      assert (row + [x])[1..] == row[1..] + [x];
      CountOnesAppend(row[1..], x);
    }
  }

  /** A row lists as many columns as it holds ones. */
  lemma {:induction false} TargetsLength(row: seq<int>)
    ensures |Targets(row)| == CountOnes(row)
  {
    if row != [] {
      var init := row[..|row| - 1];
      TargetsLength(init);
      CountOnesAppend(init, row[|row| - 1]);
      assert init + [row[|row| - 1]] == row;
    }
  }

  /** Appending a row adds its ones to the count of pairs. */
  lemma {:induction false} CountPairsAppend(rows: seq<seq<int>>, row: seq<int>)
    ensures CountPairs(rows + [row]) == CountPairs(rows) + CountOnes(row)
  {
    if rows != [] {
      assert (rows + [row])[1..] == rows[1..] + [row];
      CountPairsAppend(rows[1..], row);
    }
  }

  /** The list lengths of the view sum to the number of pairs in the relation. */
  lemma AdjacencyViewSize(m: Matrix)
    requires IsRelationMatrix(m)
    ensures ListedPairs(AdjacencyView(m), |m|) == CountPairs(m)
  {
    ViewOfRowsEntries(m);
    ListedPairsPrefix(m, |m|);
    assert m[..|m|] == m;
  }

  lemma {:induction false} ListedPairsPrefix(m: Matrix, k: nat)
    requires IsRelationMatrix(m) && k <= |m|
    ensures ListedPairs(AdjacencyView(m), k) == CountPairs(m[..k])
  {
    if k > 0 {
      ListedPairsPrefix(m, k - 1);
      ViewOfRowsEntries(m);
      TargetsLength(m[k - 1]);
      CountPairsAppend(m[..k - 1], m[k - 1]);
      assert m[..k - 1] + [m[k - 1]] == m[..k];
    }
  }

  /** Appending an entry to a row appends its column to the list iff the entry is 1. */
  lemma TargetsAppend(row: seq<int>, x: int)
    ensures Targets(row + [x]) == Targets(row) + (if x == 1 then [|row|] else [])
  {
    assert (row + [x])[..|row|] == row;
  }

  /** A row whose only 1 is at column p lists p once the scan has passed it, and nothing before. */
  lemma {:induction false} TargetsOfUnitPrefix(row: seq<int>, p: nat, k: nat)
    requires p < |row| && row[p] == 1
    requires forall j :: 0 <= j < |row| && j != p ==> row[j] != 1
    requires k <= |row|
    ensures Targets(row[..k]) == if p < k then [p] else []
  {
    if k > 0 {
      TargetsOfUnitPrefix(row, p, k - 1);
      TargetsAppend(row[..k - 1], row[k - 1]);
      assert row[..k - 1] + [row[k - 1]] == row[..k];
    }
  }

  /** A row without a 1 lists nothing. */
  lemma {:induction false} TargetsOfNoOnes(row: seq<int>)
    requires forall j :: 0 <= j < |row| ==> row[j] != 1
    ensures Targets(row) == []
  {
    if row != [] {
      TargetsOfNoOnes(row[..|row| - 1]);
    }
  }

  /**
   When every row i holds exactly one 1, at column target[i] (a permutation
   matrix, the identity among them), every node has a key and its list is
   [target[i]].
   */
  lemma SingleTargetView(m: Matrix, target: seq<nat>)
    requires IsRelationMatrix(m) && |target| == |m|
    requires forall i :: 0 <= i < |m| ==> target[i] < |m|
    requires forall i, j :: 0 <= i < |m| && 0 <= j < |m| ==> (m[i][j] == 1 <==> j == target[i])
    ensures forall i: nat :: i in AdjacencyView(m) <==> i < |m|
    ensures forall i: nat :: i < |m| ==> AdjacencyView(m)[i] == [target[i]]
  {
    ViewOfRowsEntries(m);
    forall i: nat | i < |m| ensures Targets(m[i]) == [target[i]] {
      TargetsOfUnitPrefix(m[i], target[i], |m|);
      assert m[i][..|m|] == m[i];
    }
  }

  /** The identity relation on n nodes: node i is listed with [i] alone. */
  lemma IdentityView(n: nat)
    ensures forall i: nat :: i in AdjacencyView(Identity(n)) <==> i < n
    ensures forall i: nat :: i < n ==> AdjacencyView(Identity(n))[i] == [i]
  {
    var target := seq(n, i => i);
    SingleTargetView(Identity(n), target);
  }

  /** The empty relation on n nodes has an empty view. */
  lemma ZeroView(n: nat)
    ensures AdjacencyView(Zero(n)) == map[]
  {
    var z := Zero(n);
    ViewOfRowsEntries(z);
    forall i: nat | i < n ensures Targets(z[i]) == [] {
      TargetsOfNoOnes(z[i]);
    }
  }
}
