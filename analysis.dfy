/**
 The property analysis of a relation matrix (`analizarPropiedades`): six
 primitive properties, each a universally quantified check over the indices,
 and three composite "order" classifications built from them.
 */
module Analysis {
  import opened JsArray
  import opened RelationMatrix

  /** The record of named booleans, in the order the analyzer lists them. */
  datatype PropertyRecord = PropertyRecord(
    reflexive: bool,
    irreflexive: bool,
    symmetric: bool,
    asymmetric: bool,
    antisymmetric: bool,
    transitive: bool,
    partialOrder: bool,
    totalOrder: bool,
    strictOrder: bool)

  /** The diagonal entries, `matriz.map((fila, i) => fila[i])`. */
  function Diagonal(m: Matrix): (d: seq<int>)
    requires IsRelationMatrix(m)
    ensures |d| == |m| && forall i :: 0 <= i < |m| ==> d[i] == m[i][i]
  {
    seq(|m|, i requires 0 <= i < |m| => m[i][i])
  }

  /**
   The boolean product of the matrix with itself, built with `Array.from` and
   `some` as the analyzer does: entry (i, j) is 1 iff some k has
   m[i][k] and m[k][j] both truthy. It represents R∘R.
   */
  function BooleanProduct(m: Matrix): (p: Matrix)
    requires IsRelationMatrix(m)
    ensures IsRelationMatrix(p) && |p| == |m|
    ensures forall i, j :: 0 <= i < |m| && 0 <= j < |m| ==>
      (p[i][j] == 1 <==> InComposition(m, i, j))
  {
    var n := |m|;
    seq(n, i requires 0 <= i < n =>
      seq(n, j requires 0 <= j < n =>
        if Some(m[i], (x: int, k: nat) requires k < |m| => m[i][k] != 0 && m[k][j] != 0) then 1 else 0))
  }

  /** `diagonal.every(x => x === 1)` */
  function CheckReflexive(m: Matrix): (b: bool)
    requires IsRelationMatrix(m)
    ensures b == Reflexive(m)
  {
    Every(Diagonal(m), (x: int, i: nat) => x == 1)
  }

  /** `diagonal.every(x => x === 0)` */
  function CheckIrreflexive(m: Matrix): (b: bool)
    requires IsRelationMatrix(m)
    ensures b == Irreflexive(m)
  {
    Every(Diagonal(m), (x: int, i: nat) => x == 0)
  }

  /** Every entry equals its mirror image across the diagonal. */
  function CheckSymmetric(m: Matrix): (b: bool)
    requires IsRelationMatrix(m)
    ensures b == Symmetric(m)
  {
    Every(m, (row: seq<int>, i: nat) requires i < |m| && row == m[i] =>
      Every(row, (v: int, j: nat) requires j < |m| => v == m[j][i]))
  }

  /** Off the diagonal, an entry and its mirror image are not both truthy. */
  function CheckAntisymmetric(m: Matrix): (b: bool)
    requires IsRelationMatrix(m)
    ensures b == Antisymmetric(m)
  {
    Every(m, (row: seq<int>, i: nat) requires i < |m| && row == m[i] =>
      Every(row, (v: int, j: nat) requires j < |m| => i == j || !(v != 0 && m[j][i] != 0)))
  }

  /** An entry or its mirror image is 0, on the diagonal too. */
  function CheckAsymmetric(m: Matrix): (b: bool)
    requires IsRelationMatrix(m)
    ensures b == Asymmetric(m)
  {
    Every(m, (row: seq<int>, i: nat) requires i < |m| && row == m[i] =>
      Every(row, (v: int, j: nat) requires j < |m| => v == 0 || m[j][i] == 0))
  }

  /** Every truthy entry is truthy in the boolean product, `!val || producto[i][j]`. */
  function CheckTransitive(m: Matrix): (b: bool)
    requires IsRelationMatrix(m)
    ensures b == Transitive(m)
  {
    var product := BooleanProduct(m);
    Every(m, (row: seq<int>, i: nat) requires i < |m| && row == m[i] =>
      Every(row, (v: int, j: nat) requires j < |m| => v == 0 || product[i][j] != 0))
  }

  /**
   The returned record (`return { Reflexiva: ..., "Orden Estricto": ... }`):
   the six primitive results and the three composites made of them.
   */
  function MakeRecord(
    reflexive: bool, irreflexive: bool, symmetric: bool,
    asymmetric: bool, antisymmetric: bool, transitive: bool): PropertyRecord
  {
    PropertyRecord(
      reflexive, irreflexive, symmetric, asymmetric, antisymmetric, transitive,
      reflexive && antisymmetric && transitive,
      reflexive && symmetric && transitive,
      antisymmetric && transitive && !reflexive)
  }

  /**
   The analysis of a validated matrix. Each primitive field holds exactly when
   its quantified definition does, and the composites are exact conjunctions;
   note that "total order" is reflexive, symmetric and transitive (an
   equivalence-style check), not the textbook total order.
   */
  function Analyze(m: Matrix): (r: PropertyRecord)
    requires IsRelationMatrix(m)
    ensures r.reflexive == Reflexive(m)
    ensures r.irreflexive == Irreflexive(m)
    ensures r.symmetric == Symmetric(m)
    ensures r.asymmetric == Asymmetric(m)
    ensures r.antisymmetric == Antisymmetric(m)
    ensures r.transitive == Transitive(m)
    ensures r.partialOrder == (r.reflexive && r.antisymmetric && r.transitive)
    ensures r.totalOrder == (r.reflexive && r.symmetric && r.transitive)
    ensures r.strictOrder == (r.antisymmetric && r.transitive && !r.reflexive)
  {
    MakeRecord(
      CheckReflexive(m), CheckIrreflexive(m), CheckSymmetric(m),
      CheckAsymmetric(m), CheckAntisymmetric(m), CheckTransitive(m))
  }
}
