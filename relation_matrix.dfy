/**
 A binary relation R on {0, ..., n-1} given as an n×n adjacency matrix:
 R(i, j) holds iff m[i][j] == 1. This module fixes what a well-formed matrix
 is and states, as quantified predicates over indices, what each property
 the analyzer reports means.
 */
module RelationMatrix {

  type Matrix = seq<seq<int>>

  /** Square, and every entry is 0 or 1. */
  predicate IsRelationMatrix(m: Matrix) {
    forall i :: 0 <= i < |m| ==>
      |m[i]| == |m| && forall j :: 0 <= j < |m| ==> m[i][j] == 0 || m[i][j] == 1
  }

  /** Every diagonal entry is 1. */
  predicate Reflexive(m: Matrix)
    requires IsRelationMatrix(m)
  {
    forall i :: 0 <= i < |m| ==> m[i][i] == 1
  }

  /** Every diagonal entry is 0. */
  predicate Irreflexive(m: Matrix)
    requires IsRelationMatrix(m)
  {
    forall i :: 0 <= i < |m| ==> m[i][i] == 0
  }

  /** The matrix equals its transpose. */
  predicate Symmetric(m: Matrix)
    requires IsRelationMatrix(m)
  {
    forall i, j :: 0 <= i < |m| && 0 <= j < |m| ==> m[i][j] == m[j][i]
  }

  /** No two distinct nodes are related both ways; self-loops are ignored. */
  predicate Antisymmetric(m: Matrix)
    requires IsRelationMatrix(m)
  {
    forall i, j :: 0 <= i < |m| && 0 <= j < |m| && i != j ==> !(m[i][j] == 1 && m[j][i] == 1)
  }

  /**
   No pair is related both ways, the pair (i, i) included: as the analyzer
   checks it, a single self-loop makes a relation not asymmetric.
   */
  predicate Asymmetric(m: Matrix)
    requires IsRelationMatrix(m)
  {
    forall i, j :: 0 <= i < |m| && 0 <= j < |m| ==> m[i][j] == 0 || m[j][i] == 0
  }

  /** (i, j) is in R∘R: some intermediate k has i R k and k R j. */
  predicate InComposition(m: Matrix, i: nat, j: nat)
    requires IsRelationMatrix(m) && i < |m| && j < |m|
  {
    exists k :: 0 <= k < |m| && m[i][k] == 1 && m[k][j] == 1
  }

  /**
   Transitivity AS THE ANALYZER CHECKS IT: every related pair is also in R∘R,
   that is R ⊆ R∘R. This is the reverse of the textbook inclusion
   R∘R ⊆ R (TextbookTransitive).
   */
  predicate Transitive(m: Matrix)
    requires IsRelationMatrix(m)
  {
    forall i: nat, j: nat :: i < |m| && j < |m| && m[i][j] == 1 ==> InComposition(m, i, j)
  }

  /** The textbook definition, R∘R ⊆ R; the analyzer does not compute this one. */
  predicate TextbookTransitive(m: Matrix)
    requires IsRelationMatrix(m)
  {
    forall i: nat, j: nat :: i < |m| && j < |m| && InComposition(m, i, j) ==> m[i][j] == 1
  }

  /** The transposed matrix, that is the converse relation. */
  function Transpose(m: Matrix): (t: Matrix)
    requires IsRelationMatrix(m)
    ensures IsRelationMatrix(t) && |t| == |m|
    ensures forall i, j :: 0 <= i < |m| && 0 <= j < |m| ==> t[i][j] == m[j][i]
  {
    seq(|m|, i requires 0 <= i < |m| => seq(|m|, j requires 0 <= j < |m| => m[j][i]))
  }

  /** The empty relation on n nodes. */
  function Zero(n: nat): (z: Matrix)
    ensures IsRelationMatrix(z) && |z| == n
    ensures forall i, j :: 0 <= i < n && 0 <= j < n ==> z[i][j] == 0
  {
    seq(n, i => seq(n, j => 0))
  }

  /** The identity relation on n nodes. */
  function Identity(n: nat): (e: Matrix)
    ensures IsRelationMatrix(e) && |e| == n
    ensures forall i, j :: 0 <= i < n && 0 <= j < n ==> (e[i][j] == 1 <==> i == j)
  {
    seq(n, i => seq(n, j => if i == j then 1 else 0))
  }
}
