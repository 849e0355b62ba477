/** String helpers that the downloader applies to file names, links and
    metadata: substring search, the ".html" to ".xhtml" rewrite, HTML
    escaping, splitting on a separator and zero-padded decimal numbers. */
module Text {

  datatype Option<T> = None | Some(value: T)

  /** The outcome of a step that either yields a value or fails with an
      error. */
  datatype Result<T, E> = Ok(value: T) | Err(error: E)

  predicate StartsWith(s: string, p: string) {
    |p| <= |s| && s[..|p|] == p
  }

  /** Python's `p in s`. */
  predicate Contains(s: string, p: string)
    decreases |s|
  {
    StartsWith(s, p) || (|s| > 0 && Contains(s[1..], p))
  }

  /** An occurrence of ".html" starts at position i of s. */
  predicate HtmlAt(s: string, i: nat) {
    i + 5 <= |s| && s[i..i + 5] == ".html"
  }

  /** No occurrence of ".html" starts anywhere in s. */
  ghost predicate NoHtml(s: string) {
    forall i: nat :: !HtmlAt(s, i)
  }

  // ---------------------------------------------------------------------
  // s.replace(".html", ".xhtml"): every non-overlapping occurrence, scanned
  // left to right.

  function ReplaceHtml(s: string): (r: string)
    decreases |s|
  {
    if |s| < 5 then s
    else if s[..5] == ".html" then ".xhtml" + ReplaceHtml(s[5..])
    else [s[0]] + ReplaceHtml(s[1..])
  }

  /** A string with no ".html" in it comes back unchanged. */
  lemma {:induction false} ReplaceHtmlNoOp(s: string)
    requires NoHtml(s)
    ensures ReplaceHtml(s) == s
    decreases |s|
  {
    if |s| >= 5 {
      assert !HtmlAt(s, 0);
      assert s[0..5] == s[..5];
      assert NoHtml(s[1..]) by {
        forall i: nat ensures !HtmlAt(s[1..], i) {
          if i + 5 <= |s[1..]| {
            assert s[1..][i..i + 5] == s[i + 1..i + 6];
            assert !HtmlAt(s, i + 1);
          }
        }
      }
      ReplaceHtmlNoOp(s[1..]);
      assert [s[0]] + s[1..] == s;
    }
  }

  /** If the rewritten string starts with a prefix that holds no '.', the
      input started with that prefix too: the rewrite only ever emits text
      beginning with '.' where it changed something. */
  lemma {:induction false} ReplaceHtmlDotFreePrefix(t: string, p: string)
    requires '.' !in p
    requires StartsWith(ReplaceHtml(t), p)
    ensures StartsWith(t, p)
    decreases |t|
  {
    if |t| < 5 {
    } else if t[..5] == ".html" {
      assert ReplaceHtml(t)[0] == '.';
    } else if |p| > 0 {
      var r := ReplaceHtml(t);
      var r' := ReplaceHtml(t[1..]);
      assert r == [t[0]] + r';
      assert '.' !in p[1..] by {
        forall k | 0 <= k < |p[1..]| ensures p[1..][k] != '.' { assert p[1..][k] == p[k + 1]; }
      }
      assert r'[..|p| - 1] == r[1..|p|] == p[1..];
      ReplaceHtmlDotFreePrefix(t[1..], p[1..]);
      assert t[..|p|] == [t[0]] + t[1..][..|p| - 1];
    }
  }

  /** After the rewrite no ".html" is left. */
  lemma {:induction false} ReplaceHtmlLeavesNoHtml(s: string)
    ensures NoHtml(ReplaceHtml(s))
    decreases |s|
  {
    var r := ReplaceHtml(s);
    if |s| < 5 {
    } else if s[..5] == ".html" {
      var rest := ReplaceHtml(s[5..]);
      ReplaceHtmlLeavesNoHtml(s[5..]);
      assert r == ".xhtml" + rest;
      forall i: nat | i + 5 <= |r| ensures !HtmlAt(r, i) {
        if i == 0 {
          assert r[i..i + 5][1] == r[1] == 'x';
        } else if i < 6 {
          assert r[i..i + 5][0] == r[i] == ".xhtml"[i];
        } else {
          var j := i - 6;
          assert r[i..i + 5] == rest[j..j + 5];
          assert !HtmlAt(rest, j);
        }
      }
    } else {
      var rest := ReplaceHtml(s[1..]);
      ReplaceHtmlLeavesNoHtml(s[1..]);
      assert r == [s[0]] + rest;
      forall i: nat | i + 5 <= |r| ensures !HtmlAt(r, i) {
        if i == 0 {
          if r[..5] == ".html" {
            assert StartsWith(rest, "html") by { assert rest[..4] == r[1..5]; }
            ReplaceHtmlDotFreePrefix(s[1..], "html");
            assert false;
          }
        } else {
          var j := i - 1;
          assert r[i..i + 5] == rest[j..j + 5];
          assert !HtmlAt(rest, j);
        }
      }
    }
  }

  /** The rewrite keeps the first character, since ".html" and ".xhtml"
      both start with '.'. */
  lemma ReplaceHtmlFirst(s: string)
    requires s != []
    ensures ReplaceHtml(s) != [] && ReplaceHtml(s)[0] == s[0]
  {
  }

  /** The rewrite is idempotent, so a name rewritten twice (once when the
      chapter is saved, once when the package is assembled) is the same name. */
  lemma ReplaceHtmlIdempotent(s: string)
    ensures ReplaceHtml(ReplaceHtml(s)) == ReplaceHtml(s)
  {
    ReplaceHtmlLeavesNoHtml(s);
    ReplaceHtmlNoOp(ReplaceHtml(s));
  }

  // ---------------------------------------------------------------------
  // html.escape(s, quote=True)

  function EscapeChar(c: char): (r: string)
    ensures c !in "&<>\"'" ==> r == [c]
  {
    match c
    case '&' => "&amp;"
    case '<' => "&lt;"
    case '>' => "&gt;"
    case '"' => "&quot;"
    case '\'' => "&#x27;"
    case _ => [c]
  }

  function Escape(s: string): (r: string)
    ensures forall k :: 0 <= k < |r| ==> r[k] !in "<>\"'"
    ensures |r| >= |s|
  {
    if s == [] then [] else EscapeChar(s[0]) + Escape(s[1..])
  }

  /** The inverse of Escape on the five entities it produces. */
  function Unescape(t: string): string
    decreases |t|
  {
    if t == [] then []
    else if StartsWith(t, "&amp;") then "&" + Unescape(t[5..])
    else if StartsWith(t, "&lt;") then "<" + Unescape(t[4..])
    else if StartsWith(t, "&gt;") then ">" + Unescape(t[4..])
    else if StartsWith(t, "&quot;") then "\"" + Unescape(t[6..])
    else if StartsWith(t, "&#x27;") then "'" + Unescape(t[6..])
    else [t[0]] + Unescape(t[1..])
  }

  /** A string that differs from p at position i does not start with p. */
  lemma NotStartsWithAt(s: string, p: string, i: nat)
    requires i < |p| && i < |s| && s[i] != p[i]
    ensures !StartsWith(s, p)
  {
    if |p| <= |s| {
      assert s[..|p|][i] == s[i];
    }
  }

  lemma UnescapeAmp(rest: string)
    ensures Unescape("&amp;" + rest) == "&" + Unescape(rest)
  {
    var t := "&amp;" + rest;
    assert t[..5] == "&amp;" && t[5..] == rest;
  }

  lemma UnescapeLt(rest: string)
    ensures Unescape("&lt;" + rest) == "<" + Unescape(rest)
  {
    var t := "&lt;" + rest;
    NotStartsWithAt(t, "&amp;", 1);
    assert t[..4] == "&lt;" && t[4..] == rest;
  }

  lemma UnescapeGt(rest: string)
    ensures Unescape("&gt;" + rest) == ">" + Unescape(rest)
  {
    var t := "&gt;" + rest;
    NotStartsWithAt(t, "&amp;", 1);
    NotStartsWithAt(t, "&lt;", 1);
    assert t[..4] == "&gt;" && t[4..] == rest;
  }

  lemma UnescapeQuot(rest: string)
    ensures Unescape("&quot;" + rest) == "\"" + Unescape(rest)
  {
    var t := "&quot;" + rest;
    NotStartsWithAt(t, "&amp;", 1);
    NotStartsWithAt(t, "&lt;", 1);
    NotStartsWithAt(t, "&gt;", 1);
    assert t[..6] == "&quot;" && t[6..] == rest;
  }

  lemma UnescapeApos(rest: string)
    ensures Unescape("&#x27;" + rest) == "'" + Unescape(rest)
  {
    var t := "&#x27;" + rest;
    NotStartsWithAt(t, "&amp;", 1);
    NotStartsWithAt(t, "&lt;", 1);
    NotStartsWithAt(t, "&gt;", 1);
    NotStartsWithAt(t, "&quot;", 1);
    assert t[..6] == "&#x27;" && t[6..] == rest;
  }

  lemma UnescapePlain(c: char, rest: string)
    requires c !in "&<>\"'"
    ensures Unescape([c] + rest) == [c] + Unescape(rest)
  {
    var t := [c] + rest;
    assert t[0] == c && t[1..] == rest && c != '&';
    NotStartsWithAt(t, "&amp;", 0);
    NotStartsWithAt(t, "&lt;", 0);
    NotStartsWithAt(t, "&gt;", 0);
    NotStartsWithAt(t, "&quot;", 0);
    NotStartsWithAt(t, "&#x27;", 0);
  }

  lemma UnescapeStep(c: char, rest: string)
    ensures Unescape(EscapeChar(c) + rest) == [c] + Unescape(rest)
  {
    match c
    case '&' => UnescapeAmp(rest);
    case '<' => UnescapeLt(rest);
    case '>' => UnescapeGt(rest);
    case '"' => UnescapeQuot(rest);
    case '\'' => UnescapeApos(rest);
    case _ => UnescapePlain(c, rest);
  }

  /** Escaping loses nothing: the original text can be recovered. */
  lemma {:induction false} EscapeRoundTrip(s: string)
    ensures Unescape(Escape(s)) == s
  {
    if s != [] {
      UnescapeStep(s[0], Escape(s[1..]));
      EscapeRoundTrip(s[1..]);
    }
  }

  // ---------------------------------------------------------------------
  // str.split(sep) for a one-character separator, and its inverse join.

  function Split(s: string, sep: char): (r: seq<string>)
    ensures |r| >= 1
  {
    if s == [] then [[]]
    else
      var t := Split(s[1..], sep);
      if s[0] == sep then [[]] + t else [[s[0]] + t[0]] + t[1..]
  }

  /** sep.join(parts) */
  function Join(sep: string, parts: seq<string>): string {
    if parts == [] then []
    else if |parts| == 1 then parts[0]
    else parts[0] + sep + Join(sep, parts[1..])
  }

  /** "".join(parts) */
  function Concat(parts: seq<string>): string {
    if parts == [] then [] else parts[0] + Concat(parts[1..])
  }

  function Last<T>(s: seq<T>): T
    requires |s| > 0
  {
    s[|s| - 1]
  }

  /** Joining the pieces with the separator gives the input back. */
  lemma {:induction false} JoinSplit(s: string, sep: char)
    ensures Join([sep], Split(s, sep)) == s
  {
    if s != [] {
      var t := Split(s[1..], sep);
      JoinSplit(s[1..], sep);
      if s[0] == sep {
        assert Split(s, sep) == [[]] + t;
      } else if |t| == 1 {
        assert Split(s, sep) == [[s[0]] + t[0]];
      } else {
        var r := Split(s, sep);
        assert r == [[s[0]] + t[0]] + t[1..];
        assert r[1..] == t[1..];
      }
    }
  }

  /** The last piece of a join follows the last separator. */
  lemma {:induction false} JoinLast(sep: string, parts: seq<string>)
    requires |parts| >= 2
    ensures Join(sep, parts) == Join(sep, parts[..|parts| - 1]) + sep + Last(parts)
  {
    if |parts| > 2 {
      JoinLast(sep, parts[1..]);
      assert parts[1..][..|parts| - 2] == parts[..|parts| - 1][1..];
    }
  }

  /** No piece contains the separator. */
  lemma {:induction false} SplitPiecesFree(s: string, sep: char)
    ensures forall k :: 0 <= k < |Split(s, sep)| ==> sep !in Split(s, sep)[k]
  {
    if s != [] {
      SplitPiecesFree(s[1..], sep);
    }
  }

  /** A string without the separator is one piece. */
  lemma {:induction false} SplitNoSep(a: string, sep: char)
    requires sep !in a
    ensures Split(a, sep) == [a]
  {
    if a != [] {
      SplitNoSep(a[1..], sep);
      assert [a[0]] + a[1..] == a;
    }
  }

  /** A final separator splits off the last piece and leaves the pieces
      before it as they were. */
  lemma {:induction false} SplitSnoc(a: string, b: string, sep: char)
    requires sep !in b
    ensures Split(a + [sep] + b, sep) == Split(a, sep) + [b]
  {
    if a == [] {
      assert ([sep] + b)[1..] == b;
      SplitNoSep(b, sep);
    } else {
      var s := a + [sep] + b;
      assert s[0] == a[0] && s[1..] == a[1..] + [sep] + b;
      SplitSnoc(a[1..], b, sep);
    }
  }

  /** Each line followed by a newline, all concatenated. */
  function Lines(ls: seq<string>): string {
    if ls == [] then [] else Lines(ls[..|ls| - 1]) + Last(ls) + "\n"
  }

  lemma {:induction false} SplitLinesThen(ls: seq<string>, t: string)
    requires forall k :: 0 <= k < |ls| ==> '\n' !in ls[k]
    requires '\n' !in t
    ensures Split(Lines(ls) + t, '\n') == ls + [t]
    decreases |ls|
  {
    if ls == [] {
      assert Lines(ls) + t == t;
      SplitNoSep(t, '\n');
    } else {
      var p := ls[..|ls| - 1];
      SplitLinesThen(p, Last(ls));
      assert Lines(ls) + t == (Lines(p) + Last(ls)) + "\n" + t;
      SplitSnoc(Lines(p) + Last(ls), t, '\n');
      assert p + [Last(ls)] == ls;
    }
  }

  /** Splitting text made of newline-free lines at the newlines gives the
      lines back, and an empty piece after the last newline. */
  lemma SplitLines(ls: seq<string>)
    requires forall k :: 0 <= k < |ls| ==> '\n' !in ls[k]
    ensures Split(Lines(ls), '\n') == ls + [""]
  {
    SplitLinesThen(ls, "");
    assert Lines(ls) + "" == Lines(ls);
  }

  /** s with every occurrence of c removed. */
  function Without(s: string, c: char): (r: string)
    ensures c !in r && |r| <= |s|
  {
    if s == [] then []
    else if s[0] == c then Without(s[1..], c)
    else [s[0]] + Without(s[1..], c)
  }

  /** "".join(s.split(sep)) drops the separators and keeps everything else. */
  lemma {:induction false} ConcatSplit(s: string, sep: char)
    ensures Concat(Split(s, sep)) == Without(s, sep)
  {
    if s != [] {
      var t := Split(s[1..], sep);
      ConcatSplit(s[1..], sep);
      if s[0] != sep {
        var r := Split(s, sep);
        assert r[0] == [s[0]] + t[0] && r[1..] == t[1..];
        assert Concat(t) == t[0] + Concat(t[1..]);
      }
    }
  }

  // ---------------------------------------------------------------------
  // Decimal numbers: str(n), "{0:0>2}".format(n) and their reading back.

  function DigitChar(d: nat): char
    requires d < 10
  {
    "0123456789"[d]
  }

  function NatToString(n: nat): (r: string)
    ensures |r| >= 1
    ensures forall k :: 0 <= k < |r| ==> '0' <= r[k] <= '9'
  {
    if n < 10 then [DigitChar(n)] else NatToString(n / 10) + [DigitChar(n % 10)]
  }

  /** str(i) for a possibly negative integer. */
  function IntToString(i: int): string {
    if i < 0 then "-" + NatToString(-i) else NatToString(i)
  }

  /** "{0:0>2}".format(n): decimal, left-padded with '0' to width 2. */
  function Pad2(n: nat): (r: string)
    ensures |r| >= 2
  {
    if n < 10 then "0" + NatToString(n) else NatToString(n)
  }

  /** The value of a run of decimal digits. */
  function DigitsValue(s: string): nat
    requires forall k :: 0 <= k < |s| ==> '0' <= s[k] <= '9'
  {
    if s == [] then 0
    else DigitsValue(s[..|s| - 1]) * 10 + (s[|s| - 1] as int - '0' as int)
  }

  lemma {:induction false} NatToStringValue(n: nat)
    ensures DigitsValue(NatToString(n)) == n
  {
    if n >= 10 {
      var s := NatToString(n);
      assert s[..|s| - 1] == NatToString(n / 10);
      NatToStringValue(n / 10);
    }
  }

  lemma {:induction false} LeadingZeroValue(s: string)
    requires forall k :: 0 <= k < |s| ==> '0' <= s[k] <= '9'
    ensures DigitsValue("0" + s) == DigitsValue(s)
  {
    if s != [] {
      var t := "0" + s;
      assert t[..|t| - 1] == "0" + s[..|s| - 1];
      LeadingZeroValue(s[..|s| - 1]);
    }
  }

  /** Reading the padded number back gives the number. */
  lemma Pad2Value(n: nat)
    ensures forall k :: 0 <= k < |Pad2(n)| ==> '0' <= Pad2(n)[k] <= '9'
    ensures DigitsValue(Pad2(n)) == n
  {
    NatToStringValue(n);
    if n < 10 {
      LeadingZeroValue(NatToString(n));
    }
  }

  /** Distinct numbers give distinct padded names. */
  lemma Pad2Injective(m: nat, n: nat)
    requires m != n
    ensures Pad2(m) != Pad2(n)
  {
    Pad2Value(m);
    Pad2Value(n);
  }

  /** A digit run followed by a non-digit is determined by the text it
      starts. */
  lemma {:induction false} DigitRunPrefix(d1: string, t1: string, d2: string, t2: string)
    requires forall k :: 0 <= k < |d1| ==> '0' <= d1[k] <= '9'
    requires forall k :: 0 <= k < |d2| ==> '0' <= d2[k] <= '9'
    requires t1 != [] && !('0' <= t1[0] <= '9') && t2 != [] && !('0' <= t2[0] <= '9')
    requires d1 + t1 == d2 + t2
    ensures d1 == d2
  {
    assert (d1 + t1)[0] == (if d1 == [] then t1[0] else d1[0]);
    assert (d2 + t2)[0] == (if d2 == [] then t2[0] else d2[0]);
    if d1 != [] && d2 != [] {
      assert (d1 + t1)[1..] == d1[1..] + t1;
      assert (d2 + t2)[1..] == d2[1..] + t2;
      DigitRunPrefix(d1[1..], t1, d2[1..], t2);
      assert d1 == [d1[0]] + d1[1..] && d2 == [d2[0]] + d2[1..];
    }
  }

  /** Text after a common prefix. */
  lemma PrefixCancel(p: string, x: string, y: string)
    requires p + x == p + y
    ensures x == y
  {
    assert (p + x)[|p|..] == x && (p + y)[|p|..] == y;
  }
}
