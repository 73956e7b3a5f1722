/** String helpers shared by the TypeScript and the Python parts of the model:
    splitting on one separator character (JavaScript's `split(" ")`, Python's
    `split('\n')` and `split('\t')` behave alike), joining, and trimming with the
    two languages' own notions of white space. */
module Strings {

  /** The characters matched by `\s` in an ECMAScript regular expression and
      removed by `String.prototype.trim`: WhiteSpace and LineTerminator. */
  predicate IsJsWhitespace(c: char) {
    c == '\t' || c == '\n' || c == '\U{000B}' || c == '\U{000C}' || c == '\r'
    || c == ' ' || c == '\U{00A0}' || c == '\U{1680}'
    || ('\U{2000}' <= c <= '\U{200A}')
    || c == '\U{2028}' || c == '\U{2029}' || c == '\U{202F}' || c == '\U{205F}'
    || c == '\U{3000}' || c == '\U{FEFF}'
  }

  /** The characters for which Python's `str.isspace` holds, which `str.strip()`
      with no argument removes. */
  predicate IsPyWhitespace(c: char) {
    c == '\t' || c == '\n' || c == '\U{000B}' || c == '\U{000C}' || c == '\r'
    || ('\U{001C}' <= c <= '\U{001F}')
    || c == ' ' || c == '\U{0085}' || c == '\U{00A0}' || c == '\U{1680}'
    || ('\U{2000}' <= c <= '\U{200A}')
    || c == '\U{2028}' || c == '\U{2029}' || c == '\U{202F}' || c == '\U{205F}'
    || c == '\U{3000}'
  }

  /** Drops the leading characters satisfying `isWs`. */
  function TrimStart(s: string, isWs: char -> bool): (r: string)
    ensures |r| <= |s| && r == s[|s| - |r|..]
    ensures r == [] || !isWs(r[0])
    ensures forall k :: 0 <= k < |s| - |r| ==> isWs(s[k])
  {
    if s == [] || !isWs(s[0]) then s else TrimStart(s[1..], isWs)
  }

  /** Drops the trailing characters satisfying `isWs`. */
  function TrimEnd(s: string, isWs: char -> bool): (r: string)
    ensures |r| <= |s| && r == s[..|r|]
    ensures r == [] || !isWs(r[|r| - 1])
    ensures forall k :: |r| <= k < |s| ==> isWs(s[k])
  {
    if s == [] || !isWs(s[|s| - 1]) then s else TrimEnd(s[..|s| - 1], isWs)
  }

  /** Drops white space from both ends, one character at a time. */
  function Trim(s: string, isWs: char -> bool): (r: string)
    ensures |r| <= |s|
  {
    if s == [] then []
    else if isWs(s[0]) then Trim(s[1..], isWs)
    else if isWs(s[|s| - 1]) then Trim(s[..|s| - 1], isWs)
    else s
  }

  /** Neither end is white space: what trimming leaves. */
  predicate Stripped(s: string, isWs: char -> bool) {
    s == [] || (!isWs(s[0]) && !isWs(s[|s| - 1]))
  }

  /** What `TrimEnd` drops is a white-space tail. */
  lemma TrimEndTail(t: string, isWs: char -> bool)
    ensures var u := TrimEnd(t, isWs);
      && t == u + t[|u|..]
      && forall k :: 0 <= k < |t[|u|..]| ==> isWs(t[|u|..][k])
  {
    var u := TrimEnd(t, isWs);
    assert u == t[..|u|];
    forall k | 0 <= k < |t[|u|..]| ensures isWs(t[|u|..][k]) {
      assert t[|u|..][k] == t[|u| + k];
    }
  }

  /** Trimming is dropping the leading and then the trailing white space. */
  lemma {:induction false} TrimBothEnds(s: string, isWs: char -> bool)
    ensures Trim(s, isWs) == TrimEnd(TrimStart(s, isWs), isWs)
  {
    if s != [] {
      if isWs(s[0]) {
        TrimBothEnds(s[1..], isWs);
      } else if isWs(s[|s| - 1]) {
        var init := s[..|s| - 1];
        TrimBothEnds(init, isWs);
        assert init[0] == s[0];
      }
    }
  }

  /** The result neither starts nor ends with white space. */
  lemma {:induction false} TrimIsStripped(s: string, isWs: char -> bool)
    ensures Stripped(Trim(s, isWs), isWs)
  {
    if s != [] {
      if isWs(s[0]) {
        TrimIsStripped(s[1..], isWs);
      } else if isWs(s[|s| - 1]) {
        TrimIsStripped(s[..|s| - 1], isWs);
      }
    }
  }

  /** A string already stripped is left as it is. */
  lemma TrimStrippedIsIdentity(s: string, isWs: char -> bool)
    requires Stripped(s, isWs)
    ensures Trim(s, isWs) == s
  {
  }

  /** The result is empty exactly when the string is all white space. */
  lemma {:induction false} TrimEmpty(s: string, isWs: char -> bool)
    ensures Trim(s, isWs) == [] <==> forall k :: 0 <= k < |s| ==> isWs(s[k])
  {
    if s != [] {
      if isWs(s[0]) {
        TrimEmpty(s[1..], isWs);
        assert forall k :: 1 <= k < |s| ==> s[k] == s[1..][k - 1];
      } else if isWs(s[|s| - 1]) {
        TrimEmpty(s[..|s| - 1], isWs);
      }
    }
  }

  /** Trimming removes characters and never brings in a new one. */
  lemma TrimKeepsOut(s: string, isWs: char -> bool, c: char)
    requires c !in s
    ensures c !in Trim(s, isWs)
  {
    var t := TrimStart(s, isWs);
    var u := TrimEnd(t, isWs);
    TrimBothEnds(s, isWs);
    assert t == s[|s| - |t|..];
    assert u == t[..|u|];
  }

  /** `s.trim()` in JavaScript. */
  function JsTrim(s: string): string {
    Trim(s, IsJsWhitespace)
  }

  /** `s.strip()` in Python. */
  function PyStrip(s: string): string {
    Trim(s, IsPyWhitespace)
  }

  /** Splitting on a single separator character, as `s.split(sep)` does in both
      languages: `k` separators give `k + 1` pieces, and the empty string gives
      one empty piece. */
  function Split(s: string, sep: char): (r: seq<string>)
    ensures |r| >= 1
  {
    if s == [] then [[]]
    else if s[0] == sep then [[]] + Split(s[1..], sep)
    else
      var rest := Split(s[1..], sep);
      [[s[0]] + rest[0]] + rest[1..]
  }

  /** `sep.join(parts)` in Python, `parts.join(sep)` in JavaScript. */
  function Join(parts: seq<string>, sep: char): string {
    if |parts| == 0 then []
    else if |parts| == 1 then parts[0]
    else parts[0] + [sep] + Join(parts[1..], sep)
  }

  /** No piece of a split holds the separator. */
  lemma {:induction false} SplitPiecesLackSeparator(s: string, sep: char)
    ensures forall i :: 0 <= i < |Split(s, sep)| ==> sep !in Split(s, sep)[i]
  {
    if s != [] {
      SplitPiecesLackSeparator(s[1..], sep);
      var rest := Split(s[1..], sep);
      if s[0] != sep {
        assert Split(s, sep)[0] == [s[0]] + rest[0];
      }
    }
  }

  /** A split gives at least two pieces exactly when the separator occurs. */
  lemma {:induction false} SplitPieces(s: string, sep: char)
    ensures |Split(s, sep)| >= 2 <==> sep in s
  {
    if s != [] {
      SplitPieces(s[1..], sep);
      assert s == [s[0]] + s[1..];
    }
  }

  /** A join whose last piece is non-empty ends with that piece's last character. */
  lemma {:induction false} JoinLast(parts: seq<string>, sep: char)
    requires |parts| >= 1 && parts[|parts| - 1] != []
    ensures var j := Join(parts, sep);
      j != [] && j[|j| - 1] == parts[|parts| - 1][|parts[|parts| - 1]| - 1]
  {
    if |parts| > 1 {
      JoinLast(parts[1..], sep);
    }
  }

  /** Joining the pieces of a split gives back the original string. */
  lemma {:induction false} JoinSplit(s: string, sep: char)
    ensures Join(Split(s, sep), sep) == s
  {
    if s == [] {
    } else if s[0] == sep {
      JoinSplit(s[1..], sep);
      assert Split(s, sep)[1..] == Split(s[1..], sep);
    } else {
      var rest := Split(s[1..], sep);
      JoinSplit(s[1..], sep);
      var r := Split(s, sep);
      assert r[1..] == rest[1..];
      if |rest| == 1 {
      } else {
        assert Join(rest, sep) == rest[0] + [sep] + Join(rest[1..], sep);
        assert Join(r, sep) == ([s[0]] + rest[0]) + [sep] + Join(rest[1..], sep);
      }
    }
  }

  /** A piece free of the separator followed by the separator splits off as one piece. */
  lemma {:induction false} SplitAfterPiece(p: string, sep: char, t: string)
    requires sep !in p
    ensures Split(p + [sep] + t, sep) == [p] + Split(t, sep)
  {
    if p == [] {
      assert p + [sep] + t == [sep] + t;
      assert ([sep] + t)[1..] == t;
    } else {
      assert (p + [sep] + t)[1..] == p[1..] + [sep] + t;
      SplitAfterPiece(p[1..], sep, t);
      assert [p[0]] + p[1..] == p;
    }
  }

  /** A string without the separator is a single piece. */
  lemma {:induction false} SplitNoSeparator(p: string, sep: char)
    requires sep !in p
    ensures Split(p, sep) == [p]
  {
    if p != [] {
      SplitNoSeparator(p[1..], sep);
      assert [p[0]] + p[1..] == p;
    }
  }

  /** Splitting a join of separator-free pieces gives back the pieces. */
  lemma {:induction false} SplitJoin(parts: seq<string>, sep: char)
    requires |parts| >= 1
    requires forall i :: 0 <= i < |parts| ==> sep !in parts[i]
    ensures Split(Join(parts, sep), sep) == parts
  {
    if |parts| == 1 {
      SplitNoSeparator(parts[0], sep);
    } else {
      SplitJoin(parts[1..], sep);
      SplitAfterPiece(parts[0], sep, Join(parts[1..], sep));
      assert [parts[0]] + parts[1..] == parts;
    }
  }

  /** Joining two non-empty lists of pieces puts one separator between them. */
  lemma {:induction false} JoinAppend(a: seq<string>, b: seq<string>, sep: char)
    requires |a| >= 1 && |b| >= 1
    ensures Join(a + b, sep) == Join(a, sep) + [sep] + Join(b, sep)
  {
    if |a| == 1 {
      assert (a + b)[1..] == b;
    } else {
      assert (a + b)[1..] == a[1..] + b;
      JoinAppend(a[1..], b, sep);
    }
  }
}
