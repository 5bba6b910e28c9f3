/**
 The two string built-ins the manual matrix reader relies on:
 String.prototype.trim and String.prototype.split with a one-character
 separator, over strings as sequences of characters.
 */
module JsString {

  /**
   The characters trim removes: WhiteSpace (TAB, VT, FF, SP, NBSP, ZWNBSP and
   every Space_Separator) and LineTerminator (LF, CR, LS, PS).
   */
  predicate IsWhitespace(c: char)
  {
    c == '\t' || c == '\U{B}' || c == '\U{C}' || c == ' ' || c == '\U{A0}' || c == '\U{FEFF}'
    || c == '\n' || c == '\r' || c == '\U{2028}' || c == '\U{2029}'
    || c == '\U{1680}' || ('\U{2000}' <= c <= '\U{200A}')
    || c == '\U{202F}' || c == '\U{205F}' || c == '\U{3000}'
  }

  predicate AllWhitespace(s: string)
  {
    forall k :: 0 <= k < |s| ==> IsWhitespace(s[k])
  }

  /** A string neither starting nor ending with whitespace. */
  predicate IsTrimmed(s: string)
  {
    s == [] || (!IsWhitespace(s[0]) && !IsWhitespace(s[|s| - 1]))
  }

  /** Drops the leading whitespace. */
  function TrimStart(s: string): string
  {
    if s != [] && IsWhitespace(s[0]) then TrimStart(s[1..]) else s
  }

  /** Drops the trailing whitespace. */
  function TrimEnd(s: string): string
  {
    if s != [] && IsWhitespace(s[|s| - 1]) then TrimEnd(s[..|s| - 1]) else s
  }

  /** String.prototype.trim. */
  function Trim(s: string): string
  {
    TrimEnd(TrimStart(s))
  }

  /** TrimStart removes exactly the longest whitespace prefix. */
  lemma {:induction false} TrimStartSpec(s: string)
    ensures |TrimStart(s)| <= |s| && TrimStart(s) == s[|s| - |TrimStart(s)|..]
    ensures AllWhitespace(s[..|s| - |TrimStart(s)|])
    ensures TrimStart(s) == [] || !IsWhitespace(TrimStart(s)[0])
  {
    if s != [] && IsWhitespace(s[0]) {
      TrimStartSpec(s[1..]);
      var r := TrimStart(s);
      assert s[..|s| - |r|] == [s[0]] + s[1..][..|s| - 1 - |r|];
    }
  }

  /** TrimEnd removes exactly the longest whitespace suffix. */
  lemma {:induction false} TrimEndSpec(s: string)
    ensures |TrimEnd(s)| <= |s| && TrimEnd(s) == s[..|TrimEnd(s)|]
    ensures AllWhitespace(s[|TrimEnd(s)|..])
    ensures TrimEnd(s) == [] || !IsWhitespace(TrimEnd(s)[|TrimEnd(s)| - 1])
  {
    if s != [] && IsWhitespace(s[|s| - 1]) {
      TrimEndSpec(s[..|s| - 1]);
      var r := TrimEnd(s);
      assert s[|r|..] == s[..|s| - 1][|r|..] + [s[|s| - 1]];
    }
  }

  /** What trim returns neither starts nor ends with whitespace, and is no longer than its input. */
  lemma TrimSpec(s: string)
    ensures IsTrimmed(Trim(s)) && |Trim(s)| <= |s|
  {
    TrimStartSpec(s);
    TrimEndSpec(TrimStart(s));
    var u := TrimStart(s);
    var r := TrimEnd(u);
    if r != [] {
      assert r[0] == u[0];
    }
  }

  lemma {:induction false} TrimStartOfPadded(p: string, t: string)
    requires AllWhitespace(p)
    requires t == [] || !IsWhitespace(t[0])
    ensures TrimStart(p + t) == t
  {
    if p != [] {
      assert (p + t)[1..] == p[1..] + t;
      TrimStartOfPadded(p[1..], t);
    }
  }

  lemma {:induction false} TrimEndOfPadded(t: string, q: string)
    requires AllWhitespace(q)
    requires t == [] || !IsWhitespace(t[|t| - 1])
    ensures TrimEnd(t + q) == t
  {
    if q != [] {
      assert (t + q)[..|t + q| - 1] == t + q[..|q| - 1];
      TrimEndOfPadded(t, q[..|q| - 1]);
    }
  }

  /**
   Trim is characterised by its result: whenever s is some whitespace, then a
   trimmed core, then more whitespace, trim returns exactly that core.
   */
  lemma TrimUnique(p: string, t: string, q: string)
    requires AllWhitespace(p) && AllWhitespace(q) && IsTrimmed(t)
    ensures Trim(p + t + q) == t
  {
    if t == [] {
      assert p + t + q == p + q + [];
      assert AllWhitespace(p + q);
      TrimStartOfPadded(p + q, []);
    } else {
      assert p + t + q == p + (t + q);
      TrimStartOfPadded(p, t + q);
      TrimEndOfPadded(t, q);
    }
  }

  /** Every string is its trimmed core, s[a..b], surrounded by whitespace. */
  lemma TrimCore(s: string) returns (a: nat, b: nat)
    ensures a <= b <= |s| && s[a..b] == Trim(s)
    ensures AllWhitespace(s[..a]) && AllWhitespace(s[b..])
  {
    var u := TrimStart(s);
    TrimStartSpec(s);
    a := |s| - |u|;
    var r := TrimEnd(u);
    TrimEndSpec(u);
    b := a + |r|;
    assert s[a..b] == u[..|r|];
    assert s[..a] == s[..|s| - |u|];
    assert s[b..] == u[|r|..];
  }

  /** Trimming twice is trimming once. */
  lemma TrimIdempotent(s: string)
    ensures Trim(Trim(s)) == Trim(s)
  {
    var t := Trim(s);
    TrimSpec(s);
    assert [] + t + [] == t;
    TrimUnique([], t, []);
  }

  lemma WhitespaceConcat(x: string, y: string)
    requires AllWhitespace(x) && AllWhitespace(y)
    ensures AllWhitespace(x + y)
  {
    forall k | 0 <= k < |x + y| ensures IsWhitespace((x + y)[k]) {
      if k >= |x| {
        assert (x + y)[k] == y[k - |x|];
      }
    }
  }

  /** Whitespace added around a string does not change what trim returns. */
  lemma TrimIgnoresPadding(p: string, s: string, q: string)
    requires AllWhitespace(p) && AllWhitespace(q)
    ensures Trim(p + s + q) == Trim(s)
  {
    var a, b := TrimCore(s);
    TrimSpec(s);
    assert s == s[..a] + s[a..b] + s[b..];
    assert p + s + q == (p + s[..a]) + s[a..b] + (s[b..] + q);
    WhitespaceConcat(p, s[..a]);
    WhitespaceConcat(s[b..], q);
    TrimUnique(p + s[..a], s[a..b], s[b..] + q);
  }

  /** Joins the pieces with the separator between consecutive ones. */
  function Join(pieces: seq<string>, sep: char): string
  {
    if pieces == [] then []
    else if |pieces| == 1 then pieces[0]
    else pieces[0] + [sep] + Join(pieces[1..], sep)
  }

  /** A join starts with its first piece and ends with its last. */
  lemma {:induction false} JoinEnds(pieces: seq<string>, sep: char)
    requires pieces != []
    ensures |Join(pieces, sep)| >= |pieces[0]| && Join(pieces, sep)[..|pieces[0]|] == pieces[0]
    ensures |Join(pieces, sep)| >= |pieces[|pieces| - 1]|
    ensures Join(pieces, sep)[|Join(pieces, sep)| - |pieces[|pieces| - 1]|..] == pieces[|pieces| - 1]
  {
    if |pieces| > 1 {
      JoinEnds(pieces[1..], sep);
      var rest := Join(pieces[1..], sep);
      var r := pieces[0] + [sep] + rest;
      assert r[..|pieces[0]|] == pieces[0];
      assert r[|r| - |pieces[|pieces| - 1]|..] == rest[|rest| - |pieces[|pieces| - 1]|..];
    }
  }

  /**
   String.prototype.split with a one-character separator: the pieces between
   consecutive separators, so n separators give n + 1 pieces and the empty
   string gives one empty piece.
   */
  function Split(s: string, sep: char): (r: seq<string>)
    ensures |r| >= 1
    ensures forall k :: 0 <= k < |r| ==> sep !in r[k]
  {
    if s == [] then [[]]
    else
      var rest := Split(s[1..], sep);
      if s[0] == sep then [[]] + rest
      else [[s[0]] + rest[0]] + rest[1..]
  }

  /** Joining the pieces of a split with the same separator restores the string. */
  lemma {:induction false} JoinSplit(s: string, sep: char)
    ensures Join(Split(s, sep), sep) == s
  {
    if s != [] {
      var rest := Split(s[1..], sep);
      JoinSplit(s[1..], sep);
      var r := Split(s, sep);
      if s[0] == sep {
        assert r[1..] == rest;
      } else {
        JoinGlue(s[0], rest, sep);
        assert s == [s[0]] + s[1..];
      }
    }
  }

  /** Gluing a character to the front of the first piece puts it in front of the join. */
  lemma JoinGlue(c: char, pieces: seq<string>, sep: char)
    requires pieces != []
    ensures Join([[c] + pieces[0]] + pieces[1..], sep) == [c] + Join(pieces, sep)
  {
    var glued := [[c] + pieces[0]] + pieces[1..];
    assert glued[0] == [c] + pieces[0] && glued[1..] == pieces[1..];
    if |pieces| > 1 {
      var rest := Join(pieces[1..], sep);
      assert Join(glued, sep) == ([c] + pieces[0]) + [sep] + rest;
      assert Join(pieces, sep) == pieces[0] + [sep] + rest;
      assert ([c] + pieces[0]) + [sep] + rest == [c] + (pieces[0] + [sep] + rest);
    }
  }

  /** Occurrences of c in s. */
  function Count(s: string, c: char): nat
  {
    if s == [] then 0 else (if s[0] == c then 1 else 0) + Count(s[1..], c)
  }

  /** Split yields one piece more than there are separators. */
  lemma {:induction false} SplitCount(s: string, sep: char)
    ensures |Split(s, sep)| == Count(s, sep) + 1
  {
    if s != [] {
      SplitCount(s[1..], sep);
    }
  }

  /** Splitting what Join built gives the pieces back, when none holds the separator. */
  lemma {:induction false} SplitJoin(pieces: seq<string>, sep: char)
    requires |pieces| >= 1
    requires forall k :: 0 <= k < |pieces| ==> sep !in pieces[k]
    ensures Split(Join(pieces, sep), sep) == pieces
  {
    if |pieces| == 1 {
      SplitSingle(pieces[0], sep);
    } else {
      var tail := Join(pieces[1..], sep);
      SplitJoin(pieces[1..], sep);
      SplitPiece(pieces[0], tail, sep);
      assert pieces == [pieces[0]] + pieces[1..];
    }
  }

  /** A string without the separator is a single piece. */
  lemma {:induction false} SplitSingle(head: string, sep: char)
    requires sep !in head
    ensures Split(head, sep) == [head]
  {
    if head != [] {
      SplitSingle(head[1..], sep);
      assert [head[0]] + head[1..] == head;
    }
  }

  /** A separator-free head in front of a separator becomes a piece of its own. */
  lemma {:induction false} SplitPiece(head: string, tail: string, sep: char)
    requires sep !in head
    ensures Split(head + [sep] + tail, sep) == [head] + Split(tail, sep)
  {
    if head == [] {
      assert ([sep] + tail)[1..] == tail;
      assert head + [sep] + tail == [sep] + tail;
    } else {
      var whole := head + [sep] + tail;
      SplitPiece(head[1..], tail, sep);
      assert whole[0] == head[0] && whole[1..] == head[1..] + [sep] + tail;
      var rest := Split(whole[1..], sep);
      assert rest[0] == head[1..] && rest[1..] == Split(tail, sep);
      assert [head[0]] + head[1..] == head;
    }
  }

  /** Every character of s is in the set. */
  predicate CharsIn(s: string, allowed: set<char>)
  {
    forall k :: 0 <= k < |s| ==> s[k] in allowed
  }

  /** Joining pieces drawn from a character set, with a separator from it, stays in it. */
  lemma {:induction false} JoinCharsIn(pieces: seq<string>, sep: char, allowed: set<char>)
    requires sep in allowed
    requires forall i :: 0 <= i < |pieces| ==> CharsIn(pieces[i], allowed)
    ensures CharsIn(Join(pieces, sep), allowed)
  {
    if |pieces| > 1 {
      JoinCharsIn(pieces[1..], sep, allowed);
      var head, rest := pieces[0] + [sep], Join(pieces[1..], sep);
      forall k | 0 <= k < |head + rest| ensures (head + rest)[k] in allowed {
        if k >= |head| { assert (head + rest)[k] == rest[k - |head|]; }
      }
    }
  }
}
