/**
 Consequences of the analysis as the source computes it: how the reported
 properties relate to one another, what the reported "transitive" does and
 does not mean, and the results on the empty and identity relations and on
 concrete matrices.
 */
module AnalysisFacts {
  import opened RelationMatrix
  import opened Analysis

  /** On no nodes both diagonal checks hold vacuously; on one or more they exclude each other. */
  lemma ReflexiveIrreflexiveExclusive(m: Matrix)
    requires IsRelationMatrix(m)
    ensures |m| == 0 ==> Analyze(m).reflexive && Analyze(m).irreflexive
    ensures |m| > 0 ==> !(Analyze(m).reflexive && Analyze(m).irreflexive)
  {
    if |m| > 0 && Analyze(m).reflexive {
      assert m[0][0] == 1;
    }
  }

  /** The symmetry check gives the same answer on a matrix and on its transpose. */
  lemma SymmetricUnderTranspose(m: Matrix)
    requires IsRelationMatrix(m)
    ensures Analyze(Transpose(m)).symmetric == Analyze(m).symmetric
  {
    var t := Transpose(m);
    if Symmetric(m) {
      forall i, j | 0 <= i < |t| && 0 <= j < |t| ensures t[i][j] == t[j][i] {
        assert t[i][j] == m[j][i] && t[j][i] == m[i][j];
      }
    }
    if Symmetric(t) {
      forall i, j | 0 <= i < |m| && 0 <= j < |m| ensures m[i][j] == m[j][i] {
        assert t[j][i] == m[i][j] && t[i][j] == m[j][i];
      }
    }
  }

  /**
   Because the asymmetry check includes the diagonal, an asymmetric matrix
   is both antisymmetric and irreflexive, and one self-loop is enough to make
   the check fail.
   */
  lemma AsymmetricImpliesAntisymmetricAndIrreflexive(m: Matrix)
    requires IsRelationMatrix(m)
    ensures Analyze(m).asymmetric ==> Analyze(m).antisymmetric && Analyze(m).irreflexive
    ensures (exists i :: 0 <= i < |m| && m[i][i] == 1) ==> !Analyze(m).asymmetric
  {
    if exists i :: 0 <= i < |m| && m[i][i] == 1 {
      var i :| 0 <= i < |m| && m[i][i] == 1;
      assert !(m[i][i] == 0 || m[i][i] == 0);
    }
  }

  /**
   The reported "transitive" checks R ⊆ R∘R, so every reflexive matrix passes
   it: each related pair (i, j) goes through k = i.
   */
  lemma ReflexiveImpliesTransitive(m: Matrix)
    requires IsRelationMatrix(m)
    ensures Analyze(m).reflexive ==> Analyze(m).transitive
  {
    if Reflexive(m) {
      forall i, j | 0 <= i < |m| && 0 <= j < |m| && m[i][j] == 1
        ensures exists k :: 0 <= k < |m| && m[i][k] == 1 && m[k][j] == 1
      {
        assert m[i][i] == 1 && m[i][j] == 1;
      }
    }
  }

  /**
   The reported "transitive" and textbook transitivity hold together exactly
   when R∘R = R, that is when the boolean product equals the matrix.
   */
  lemma TransitiveBothWaysIffProductFixed(m: Matrix)
    requires IsRelationMatrix(m)
    ensures Transitive(m) && TextbookTransitive(m) <==> BooleanProduct(m) == m
  {
    BothInclusionsGiveFixedProduct(m);
    FixedProductGivesBothInclusions(m);
  }

  lemma BothInclusionsGiveFixedProduct(m: Matrix)
    requires IsRelationMatrix(m)
    ensures Transitive(m) && TextbookTransitive(m) ==> BooleanProduct(m) == m
  {
    if Transitive(m) && TextbookTransitive(m) {
      var p := BooleanProduct(m);
      forall i: nat | i < |m| ensures p[i] == m[i] {
        forall j: nat | j < |m| ensures p[i][j] == m[i][j] {
          assert p[i][j] == 1 <==> InComposition(m, i, j);
        }
      }
    }
  }

  lemma FixedProductGivesBothInclusions(m: Matrix)
    requires IsRelationMatrix(m)
    ensures BooleanProduct(m) == m ==> Transitive(m) && TextbookTransitive(m)
  {
    var p := BooleanProduct(m);
    if p == m {
      forall i, j, k | 0 <= i < |m| && 0 <= j < |m| && 0 <= k < |m| && m[i][k] == 1 && m[k][j] == 1
        ensures m[i][j] == 1
      {
        assert p[i][j] == 1;
      }
      forall i, j | 0 <= i < |m| && 0 <= j < |m| && m[i][j] == 1
        ensures exists k :: 0 <= k < |m| && m[i][k] == 1 && m[k][j] == 1
      {
        assert p[i][j] == 1;
      }
    }
  }

  /**
   The two inclusions are independent: [[0,1],[0,0]] is transitive in the
   textbook sense and fails the reported check.
   */
  lemma TextbookTransitiveFailsCheck()
    ensures TextbookTransitive([[0, 1], [0, 0]]) && !Analyze([[0, 1], [0, 0]]).transitive
  {
    var a: Matrix := [[0, 1], [0, 0]];
    assert a[0][0] == 0 && a[0][1] == 1 && a[1][0] == 0 && a[1][1] == 0;
    assert !(exists k :: 0 <= k < 2 && a[0][k] == 1 && a[k][1] == 1);
    assert !Transitive(a);
  }

  /**
   Conversely the reflexive chain [[1,1,0],[0,1,1],[0,0,1]] passes the
   reported check although 0→1→2 has no 0→2.
   */
  lemma CheckPassesTextbookIntransitive()
    ensures !TextbookTransitive([[1, 1, 0], [0, 1, 1], [0, 0, 1]])
    ensures Analyze([[1, 1, 0], [0, 1, 1], [0, 0, 1]]).transitive
  {
    var c: Matrix := [[1, 1, 0], [0, 1, 1], [0, 0, 1]];
    assert c[0][1] == 1 && c[1][2] == 1 && c[0][2] == 0;
    assert Reflexive(c);
    ReflexiveImpliesTransitive(c);
  }

  /** The pair 0→1→0 needs 0→0: the two-cycle fails the reported check. */
  lemma TwoCycleFailsCheck()
    ensures !Analyze([[0, 1], [1, 0]]).transitive
  {
    var b: Matrix := [[0, 1], [1, 0]];
    assert b[0][0] == 0 && b[0][1] == 1 && b[1][1] == 0;
    assert !(exists k :: 0 <= k < 2 && b[0][k] == 1 && b[k][1] == 1);
  }

  /** A partial order (reflexive) and a strict order (not reflexive) are never reported together. */
  lemma PartialAndStrictOrderExclusive(m: Matrix)
    requires IsRelationMatrix(m)
    ensures !(Analyze(m).partialOrder && Analyze(m).strictOrder)
  {
  }

  /** The empty relation on n nodes: every check except reflexivity holds. */
  lemma ZeroMatrixAnalysis(n: nat)
    ensures Analyze(Zero(n)) == PropertyRecord(n == 0, true, true, true, true, true, n == 0, n == 0, n > 0)
  {
    var z := Zero(n);
    if n > 0 {
      assert z[0][0] == 0;
    }
    assert Reflexive(z) == (n == 0);
    assert Irreflexive(z) && Symmetric(z) && Asymmetric(z) && Antisymmetric(z) && Transitive(z);
  }

  /** The identity relation on n nodes: every check except irreflexivity and asymmetry holds. */
  lemma IdentityAnalysis(n: nat)
    ensures Analyze(Identity(n)) == PropertyRecord(true, n == 0, true, n == 0, true, true, true, true, false)
  {
    var e := Identity(n);
    if n > 0 {
      assert e[0][0] == 1;
    }
    assert Reflexive(e) && Irreflexive(e) == (n == 0) && Asymmetric(e) == (n == 0);
    assert Symmetric(e) && Antisymmetric(e);
    ReflexiveImpliesTransitive(e);
  }

  /** Three nodes, each related only to itself. */
  lemma ScenarioIdentityOfThree()
    ensures Analyze([[1, 0, 0], [0, 1, 0], [0, 0, 1]])
         == PropertyRecord(true, false, true, false, true, true, true, true, false)
  {
    var e := Identity(3);
    assert e[0] == [1, 0, 0] && e[1] == [0, 1, 0] && e[2] == [0, 0, 1];
    assert e == [[1, 0, 0], [0, 1, 0], [0, 0, 1]];
    IdentityAnalysis(3);
  }

  /** Two nodes related both ways: symmetric, but no 0→0 for the pair 0→1→0. */
  lemma ScenarioTwoCycle()
    ensures Analyze([[0, 1], [1, 0]])
         == PropertyRecord(false, true, true, false, false, false, false, false, false)
  {
    var b: Matrix := [[0, 1], [1, 0]];
    assert b[0][0] == 0 && b[1][1] == 0 && b[0][1] == 1 && b[1][0] == 1;
    assert !Reflexive(b) && Irreflexive(b) && Symmetric(b);
    assert !Antisymmetric(b) && !Asymmetric(b);
    assert !(exists k :: 0 <= k < 2 && b[0][k] == 1 && b[k][1] == 1);
    assert !Transitive(b);
  }
}
