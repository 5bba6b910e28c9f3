/**
 Reading a relation matrix typed by hand (parsearMatrizManual): the input is
 trimmed and cut into lines at each newline, each line is trimmed and cut
 into tokens at each single space, and every token goes through Number.
 The input is accepted when there are exactly n lines of exactly n tokens
 each and every token reads as 0 or 1.
 */
module ManualInput {
  import opened JsString
  import opened JsNumber
  import JsArray
  import opened RelationMatrix

  /** The two errors the reader throws: a wrong number of rows, or a bad row. */
  datatype ParseError = WrongRowCount | BadRowValues

  datatype ParseResult = Accepted(matrix: Matrix) | Rejected(error: ParseError)

  /** The rows of the input: the trimmed input split at every newline. */
  function Lines(input: string): seq<string>
  {
    Split(Trim(input), '\n')
  }

  /** The tokens of a row: the trimmed row split at every single space. */
  function Tokens(line: string): seq<string>
  {
    Split(Trim(line), ' ')
  }

  /** A number that passes the reader's test (neither v !== 0 nor v !== 1 fails). */
  predicate IsBit(v: Number)
  {
    v == Finite(0.0) || v == Finite(1.0)
  }

  /**
   One row: its tokens as numbers, refused when their count is not n or when
   some number is not 0 or 1.
   */
  function ParseRow(line: string, n: int): (r: Option<seq<int>>)
    ensures r.Some? <==> |Tokens(line)| == n && forall k :: 0 <= k < n ==> IsBit(ToNumber(Tokens(line)[k]))
    ensures r.Some? ==> |r.value| == n
    ensures r.Some? ==> forall k :: 0 <= k < n ==>
      (r.value[k] == 0 || r.value[k] == 1) && r.value[k] as real == ToNumber(Tokens(line)[k]).value
  {
    var tokens := Tokens(line);
    var values := seq(|tokens|, k requires 0 <= k < |tokens| => ToNumber(tokens[k]));
    var someBad := JsArray.Some(values, (v: Number, k: nat) => !IsBit(v));
    assert someBad <==> exists k :: 0 <= k < |tokens| && !IsBit(ToNumber(tokens[k])) by {
      assert forall k :: 0 <= k < |tokens| ==> values[k] == ToNumber(tokens[k]);
    }
    if |values| != n || someBad then None
    else Some(seq(|values|, k requires 0 <= k < |values| => if values[k] == Finite(1.0) then 1 else 0))
  }

  /** Every row in turn; the first bad row refuses the whole input. */
  function ParseRows(lines: seq<string>, n: int): (r: Option<Matrix>)
    ensures r.Some? <==> forall i :: 0 <= i < |lines| ==> ParseRow(lines[i], n).Some?
    ensures r.Some? ==> |r.value| == |lines|
    ensures r.Some? ==> forall i :: 0 <= i < |lines| ==> r.value[i] == ParseRow(lines[i], n).value
  {
    if lines == [] then Some([])
    else
      match ParseRow(lines[0], n)
      case None => None
      case Some(row) =>
        match ParseRows(lines[1..], n)
        case None => None
        case Some(rest) => Some([row] + rest)
  }

  /** parsearMatrizManual(input, n). */
  function ParseManualMatrix(input: string, n: int): (r: ParseResult)
    ensures r.Accepted? ==> IsRelationMatrix(r.matrix) && |r.matrix| == n
    ensures r == Rejected(WrongRowCount) <==> |Lines(input)| != n
    ensures n <= 0 ==> r == Rejected(WrongRowCount)
  {
    var lines := Lines(input);
    if |lines| != n then Rejected(WrongRowCount)
    else
      match ParseRows(lines, n)
      case None => Rejected(BadRowValues)
      case Some(m) => Accepted(m)
  }

  /** What the reader accepts, stated token by token. */
  predicate WellFormedInput(input: string, n: int)
  {
    |Lines(input)| == n
    && forall i :: 0 <= i < n ==>
      |Tokens(Lines(input)[i])| == n
      && forall k :: 0 <= k < n ==> IsBit(ToNumber(Tokens(Lines(input)[i])[k]))
  }

  /**
   The reader accepts exactly the well-formed inputs, and entry (i, j) of the
   matrix is the number the j-th token of the i-th line reads as.
   */
  lemma AcceptsExactlyWellFormed(input: string, n: int)
    ensures ParseManualMatrix(input, n).Accepted? <==> WellFormedInput(input, n)
    ensures ParseManualMatrix(input, n).Accepted? ==>
      forall i, j :: 0 <= i < n && 0 <= j < n ==>
        ParseManualMatrix(input, n).matrix[i][j] as real == ToNumber(Tokens(Lines(input)[i])[j]).value
  {
    var r := ParseManualMatrix(input, n);
    if r.Accepted? {
      forall i, j | 0 <= i < n && 0 <= j < n
        ensures r.matrix[i][j] as real == ToNumber(Tokens(Lines(input)[i])[j]).value
      {
        assert r.matrix[i] == ParseRow(Lines(input)[i], n).value;
      }
    }
  }

  /** The text of a bit. */
  function BitText(b: int): string
  {
    if b == 1 then "1" else "0"
  }

  /** The texts of the bits of a row. */
  function BitTexts(row: seq<int>): (texts: seq<string>)
    ensures |texts| == |row| && forall j :: 0 <= j < |row| ==> texts[j] == BitText(row[j])
  {
    seq(|row|, j requires 0 <= j < |row| => BitText(row[j]))
  }

  /** A row written out as its bits separated by single spaces. */
  function FormatRow(row: seq<int>): string
  {
    Join(BitTexts(row), ' ')
  }

  /** A matrix written out one row per line. */
  function FormatMatrix(m: Matrix): string
  {
    Join(RowTexts(m), '\n')
  }

  /** A joined string whose first and last pieces start and end with a bit is trimmed. */
  lemma JoinedBitsTrimmed(pieces: seq<string>, sep: char)
    requires |pieces| >= 1
    requires pieces[0] != [] && pieces[0][0] in "01"
    requires pieces[|pieces| - 1] != [] && pieces[|pieces| - 1][|pieces[|pieces| - 1]| - 1] in "01"
    ensures Trim(Join(pieces, sep)) == Join(pieces, sep)
  {
    var s := Join(pieces, sep);
    var last := pieces[|pieces| - 1];
    JoinEnds(pieces, sep);
    assert s[0] == pieces[0][0] by {
      assert s[..|pieces[0]|] == pieces[0];
    }
    assert s[|s| - 1] == last[|last| - 1] by {
      assert s[|s| - |last|..] == last;
    }
    assert IsTrimmed(s);
    assert [] + s + [] == s;
    TrimUnique([], s, []);
  }

  /** The two tokens a written-out row uses. */
  lemma BitTokens()
    ensures ToNumber("0") == Finite(0.0) && ToNumber("1") == Finite(1.0)
  {
    ZeroPaddedBit([], '0');
    ZeroPaddedBit([], '1');
    assert [] + ['0'] == "0" && [] + ['1'] == "1";
  }

  /** The tokens of a written-out row are the texts of its bits. */
  lemma FormattedRowTokens(row: seq<int>)
    requires |row| >= 1
    ensures Tokens(FormatRow(row)) == BitTexts(row)
  {
    var bits := BitTexts(row);
    JoinedBitsTrimmed(bits, ' ');
    forall j | 0 <= j < |bits| ensures ' ' !in bits[j] {
      assert bits[j] == BitText(row[j]);
    }
    SplitJoin(bits, ' ');
  }

  /** Each bit text reads back as its bit. */
  lemma BitTextsRead(row: seq<int>)
    requires forall j :: 0 <= j < |row| ==> row[j] == 0 || row[j] == 1
    ensures forall k :: 0 <= k < |row| ==> IsBit(ToNumber(BitTexts(row)[k])) && ToNumber(BitTexts(row)[k]).value == row[k] as real
  {
    BitTokens();
  }

  /** A row of bits written out is read back as itself. */
  lemma ParseFormattedRow(row: seq<int>)
    requires |row| >= 1
    requires forall j :: 0 <= j < |row| ==> row[j] == 0 || row[j] == 1
    ensures ParseRow(FormatRow(row), |row|) == Some(row)
  {
    FormattedRowTokens(row);
    BitTextsRead(row);
    var r := ParseRow(FormatRow(row), |row|);
    assert r.value == row;
  }

  /** The rows of a matrix written out, one text per row. */
  function RowTexts(m: Matrix): (texts: seq<string>)
    ensures |texts| == |m| && forall i :: 0 <= i < |m| ==> texts[i] == FormatRow(m[i])
  {
    seq(|m|, i requires 0 <= i < |m| => FormatRow(m[i]))
  }

  /** The lines of a written-out matrix are its row texts. */
  lemma FormattedMatrixLines(m: Matrix)
    requires |m| >= 1 && forall i :: 0 <= i < |m| ==> |m[i]| >= 1
    ensures Lines(FormatMatrix(m)) == RowTexts(m)
  {
    var rows := RowTexts(m);
    forall i | 0 <= i < |m| ensures rows[i] != [] && rows[i][0] in "01" && rows[i][|rows[i]| - 1] in "01"
      && '\n' !in rows[i]
    {
      RowText(m[i]);
    }
    JoinedBitsTrimmed(rows, '\n');
    SplitJoin(rows, '\n');
  }

  /**
   Writing a non-empty matrix of bits out, one row per line, and reading it
   back with its size gives the matrix back.
   */
  lemma ParseFormatted(m: Matrix)
    requires IsRelationMatrix(m) && |m| >= 1
    ensures ParseManualMatrix(FormatMatrix(m), |m|) == Accepted(m)
  {
    var rows := RowTexts(m);
    FormattedMatrixLines(m);
    forall i | 0 <= i < |m| ensures ParseRow(rows[i], |m|) == Some(m[i]) {
      ParseFormattedRow(m[i]);
    }
    var r := ParseRows(rows, |m|);
    assert r.value == m;
  }

  /** A written-out row starts and ends with a bit and holds only bits and spaces. */
  lemma RowText(row: seq<int>)
    requires |row| >= 1
    ensures FormatRow(row) != [] && FormatRow(row)[0] in "01"
    ensures FormatRow(row)[|FormatRow(row)| - 1] in "01"
    ensures '\n' !in FormatRow(row)
  {
    var bits := BitTexts(row);
    var s := FormatRow(row);
    JoinEnds(bits, ' ');
    assert s[..|bits[0]|] == bits[0];
    var last := bits[|bits| - 1];
    assert s[|s| - |last|..] == last;
    forall j | 0 <= j < |bits| ensures CharsIn(bits[j], {'0', '1', ' '}) {
      assert bits[j] == BitText(row[j]);
    }
    JoinCharsIn(bits, ' ', {'0', '1', ' '});
    assert forall k :: 0 <= k < |s| ==> s[k] != '\n';
  }

  /** An empty input for one node is read as the single entry 0, since Number("") is 0. */
  lemma EmptyInputForOneNode()
    ensures ParseManualMatrix("", 1) == Accepted([[0]])
  {
    assert Trim("") == "";
    assert Lines("") == [""];
    assert Tokens("") == [""];
    assert ToNumber("") == Finite(0.0);
    var r := ParseRow("", 1);
    assert r.Some? && |r.value| == 1 && r.value[0] as real == 0.0;
    assert r.value == [0];
  }

  /** Two spaces in a row leave an empty token between them. */
  lemma DoubledSpaceGivesEmptyToken(head: string, tail: string)
    requires ' ' !in head
    ensures Split(head + "  " + tail, ' ') == [head, ""] + Split(tail, ' ')
  {
    assert head + "  " + tail == head + [' '] + ("" + [' '] + tail);
    SplitPiece(head, "" + [' '] + tail, ' ');
    SplitPiece("", tail, ' ');
  }

  /** An empty token is read as 0, so an accepted row holds 0 wherever a token is empty. */
  lemma EmptyTokenIsZero(line: string, n: int)
    ensures ParseRow(line, n).Some? ==>
      forall k :: 0 <= k < n && Tokens(line)[k] == "" ==> ParseRow(line, n).value[k] == 0
  {
    assert ToNumber("") == Finite(0.0);
  }

  lemma {:induction false} NonBitRowTokens()
    ensures Tokens("0 2") == ["0", "2"]
  {
    var line := "0 2";
    assert [] + line + [] == line;
    TrimUnique([], line, []);
    assert line == "0" + [' '] + "2";
    SplitPiece("0", "2", ' ');
    SplitSingle("2", ' ');
  }

  /** A token such as "2" is not a bit, so its row is refused. */
  lemma NonBitRowRefused()
    ensures ParseRow("0 2", 2) == None
  {
    NonBitRowTokens();
    OtherDigitsAreNotBits();
    assert !IsBit(ToNumber(Tokens("0 2")[1]));
  }
}
