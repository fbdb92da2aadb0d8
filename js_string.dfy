/** The JavaScript string built-ins the response post-processing relies on:
    white space as `String.prototype.trim` and the regular-expression class `\s`
    see it, `trim`, and `split` on a one-character separator. */
module JsString {

  /** ECMAScript WhiteSpace and LineTerminator code points (ECMA-262, sections 12.2 and 12.3). */
  predicate IsWhitespace(c: char) {
    c == '\t' || c == '\n' || c == '\U{000B}' || c == '\U{000C}' || c == '\r' || c == ' '
    || c == '\U{00A0}' || c == '\U{1680}' || ('\U{2000}' <= c <= '\U{200A}')
    || c == '\U{2028}' || c == '\U{2029}' || c == '\U{202F}' || c == '\U{205F}'
    || c == '\U{3000}' || c == '\U{FEFF}'
  }

  predicate AllWhitespace(s: string) {
    forall j :: 0 <= j < |s| ==> IsWhitespace(s[j])
  }

  /** The length of the longest prefix of `s` whose characters all satisfy `p`. */
  function LeadingCount(s: string, p: char -> bool): (k: nat)
    ensures k <= |s|
    ensures forall j :: 0 <= j < k ==> p(s[j])
    ensures k == |s| || !p(s[k])
  {
    if s == [] || !p(s[0]) then 0 else 1 + LeadingCount(s[1..], p)
  }

  /** The length of the longest suffix of `s` whose characters all satisfy `p`. */
  function TrailingCount(s: string, p: char -> bool): (k: nat)
    ensures k <= |s|
    ensures forall j :: |s| - k <= j < |s| ==> p(s[j])
    ensures k == |s| || !p(s[|s| - 1 - k])
  {
    if s == [] || !p(s[|s| - 1]) then 0 else 1 + TrailingCount(s[..|s| - 1], p)
  }

  /** `r` is `s` with some white space removed at each end. */
  ghost predicate TrimmedFrom(s: string, r: string) {
    exists a :: 0 <= a <= |s| - |r| && s[a..a + |r|] == r
      && AllWhitespace(s[..a]) && AllWhitespace(s[a + |r|..])
  }

  /** `s.trim()`. */
  function Trim(s: string): (r: string)
    ensures |r| <= |s|
  {
    var a := LeadingCount(s, IsWhitespace);
    var b := TrailingCount(s[a..], IsWhitespace);
    s[a..|s| - b]
  }

  /** `Trim` removes white space at both ends, and no more. */
  lemma TrimSpec(s: string)
    ensures TrimmedFrom(s, Trim(s))
    ensures Trim(s) == [] || (!IsWhitespace(Trim(s)[0]) && !IsWhitespace(Trim(s)[|Trim(s)| - 1]))
  {
    var a := LeadingCount(s, IsWhitespace);
    var t := s[a..];
    var b := TrailingCount(t, IsWhitespace);
    TrimMargins(s, a, t, b);
    TrimEnds(s, a, t, b);
  }

  /** The kept middle lies between two white-space margins. */
  lemma TrimMargins(s: string, a: nat, t: string, b: nat)
    requires a == LeadingCount(s, IsWhitespace) && t == s[a..] && b == TrailingCount(t, IsWhitespace)
    ensures TrimmedFrom(s, Trim(s))
  {
    var r := Trim(s);
    assert r == t[..|t| - b];
    LeadingRun(s, a);
    TrailingRun(t, b);
    assert s[a..a + |r|] == r;
    assert s[a + |r|..] == t[|t| - b..];
    TrimmedFromWitness(s, r, a);
  }

  /** The kept middle starts and ends with a character that is not white space. */
  lemma TrimEnds(s: string, a: nat, t: string, b: nat)
    requires a == LeadingCount(s, IsWhitespace) && t == s[a..] && b == TrailingCount(t, IsWhitespace)
    ensures Trim(s) == [] || (!IsWhitespace(Trim(s)[0]) && !IsWhitespace(Trim(s)[|Trim(s)| - 1]))
  {
    var r := Trim(s);
    assert r == t[..|t| - b];
    if r != [] {
      assert r[0] == t[0] == s[a];
      assert r[|r| - 1] == t[|t| - 1 - b];
    }
  }

  lemma TrimmedFromWitness(s: string, r: string, a: nat)
    requires a <= |s| - |r| && s[a..a + |r|] == r
    requires AllWhitespace(s[..a]) && AllWhitespace(s[a + |r|..])
    ensures TrimmedFrom(s, r)
  {
  }

  /** The leading white-space run counted by `LeadingCount` is all white space. */
  lemma LeadingRun(s: string, a: nat)
    requires a == LeadingCount(s, IsWhitespace)
    ensures AllWhitespace(s[..a])
  {
    var head := s[..a];
    forall j | 0 <= j < |head| ensures IsWhitespace(head[j]) {
      assert head[j] == s[j];
    }
  }

  /** The trailing white-space run counted by `TrailingCount` is all white space. */
  lemma TrailingRun(t: string, b: nat)
    requires b == TrailingCount(t, IsWhitespace)
    ensures AllWhitespace(t[|t| - b..])
  {
    var tail := t[|t| - b..];
    forall j | 0 <= j < |tail| ensures IsWhitespace(tail[j]) {
      assert tail[j] == t[|t| - b + j];
    }
  }

  /** A string trims to the empty string exactly when it is all white space. */
  lemma TrimEmptyIff(s: string)
    ensures Trim(s) == [] <==> AllWhitespace(s)
  {
    var a := LeadingCount(s, IsWhitespace);
    var rest := s[a..];
    var b := TrailingCount(rest, IsWhitespace);
    if AllWhitespace(s) {
      assert a == |s|;
    } else if a < |s| {
      assert rest[0] == s[a];
      assert b < |rest|;
    }
  }

  /** Trimming twice is trimming once. */
  lemma TrimIdempotent(s: string)
    ensures Trim(Trim(s)) == Trim(s)
  {
    TrimSpec(s);
    var r := Trim(s);
    if r != [] {
      assert LeadingCount(r, IsWhitespace) == 0;
      assert TrailingCount(r, IsWhitespace) == 0;
      assert r[0..|r|] == r;
    }
  }

  /** `s.split(sep)` for a one-character separator: the maximal runs between separators,
      with an empty piece before a leading, after a trailing and between adjacent separators. */
  function Split(s: string, sep: char): (parts: seq<string>)
    ensures |parts| == Occurrences(s, sep) + 1
  {
    if s == [] then [""]
    else
      var rest := Split(s[1..], sep);
      assert s == [s[0]] + s[1..];
      if s[0] == sep then [""] + rest
      else [[s[0]] + rest[0]] + rest[1..]
  }

  /** No piece of a split holds the separator. */
  lemma {:induction false} SplitPiecesFree(s: string, sep: char)
    ensures forall j :: 0 <= j < |Split(s, sep)| ==> sep !in Split(s, sep)[j]
  {
    if s != [] {
      SplitPiecesFree(s[1..], sep);
      var rest := Split(s[1..], sep);
      if s[0] != sep {
        assert sep !in [s[0]] + rest[0];
      }
    }
  }

  /** The number of times `c` occurs in `s`. */
  function Occurrences(s: string, c: char): nat {
    if s == [] then 0 else (if s[0] == c then 1 else 0) + Occurrences(s[1..], c)
  }

  /** Joining the pieces of a split with the separator gives back the string. */
  lemma {:induction false} JoinSplit(s: string, sep: char)
    ensures Join(Split(s, sep), sep) == s
  {
    if s != [] {
      JoinSplit(s[1..], sep);
      var rest := Split(s[1..], sep);
      assert s == [s[0]] + s[1..];
      if s[0] != sep && |rest| > 1 {
        var parts := Split(s, sep);
        assert parts[1..] == rest[1..];
      }
    }
  }

  /** The pieces of `Split` glued back together with the separator between them. */
  function Join(parts: seq<string>, sep: char): string
    requires |parts| >= 1
  {
    if |parts| == 1 then parts[0] else parts[0] + [sep] + Join(parts[1..], sep)
  }

  /** Splitting undoes joining when no piece holds the separator. */
  lemma {:induction false} SplitJoin(parts: seq<string>, sep: char)
    requires |parts| >= 1
    requires forall j :: 0 <= j < |parts| ==> sep !in parts[j]
    ensures Split(Join(parts, sep), sep) == parts
  {
    if |parts| == 1 {
      NoSeparatorSplit(parts[0], sep);
    } else {
      SplitJoin(parts[1..], sep);
      NoSeparatorSplit(parts[0], sep);
      SplitAppend(parts[0], Join(parts[1..], sep), sep);
      assert [parts[0]] + parts[1..] == parts;
    }
  }

  /** A string without the separator splits into itself alone. */
  lemma {:induction false} NoSeparatorSplit(s: string, sep: char)
    requires sep !in s
    ensures Split(s, sep) == [s]
  {
    if s != [] {
      NoSeparatorSplit(s[1..], sep);
      assert s == [s[0]] + s[1..];
    }
  }

  /** One step of `Split`: a separator in front adds an empty first piece. */
  lemma SplitConsSeparator(s: string, sep: char)
    ensures Split([sep] + s, sep) == [""] + Split(s, sep)
  {
    assert ([sep] + s)[1..] == s;
  }

  /** One step of `Split`: another character in front joins the first piece. */
  lemma SplitConsOther(c: char, s: string, sep: char)
    requires c != sep
    ensures Split([c] + s, sep) == [[c] + Split(s, sep)[0]] + Split(s, sep)[1..]
  {
    assert ([c] + s)[1..] == s;
  }

  /** Splitting distributes over a separator: the pieces of `a`, then those of `b`. */
  lemma {:induction false} SplitAppend(a: string, b: string, sep: char)
    ensures Split(a + [sep] + b, sep) == Split(a, sep) + Split(b, sep)
  {
    if a == [] {
      assert a + [sep] + b == [sep] + b;
      SplitConsSeparator(b, sep);
    } else {
      SplitAppend(a[1..], b, sep);
      SplitAppendCons(a[0], a[1..], b, sep);
      assert a == [a[0]] + a[1..];
    }
  }

  /** The inductive step of `SplitAppend`: one more character in front of `x`. */
  lemma SplitAppendCons(c: char, x: string, b: string, sep: char)
    requires Split(x + [sep] + b, sep) == Split(x, sep) + Split(b, sep)
    ensures Split([c] + x + [sep] + b, sep) == Split([c] + x, sep) + Split(b, sep)
  {
    var tail := x + [sep] + b;
    assert [c] + x + [sep] + b == [c] + tail;
    if c == sep {
      SplitAppendConsSeparator(x, tail, Split(x, sep), Split(b, sep), sep);
    } else {
      SplitAppendConsOther(c, x, tail, Split(x, sep), Split(b, sep), sep);
    }
  }

  lemma SplitAppendConsSeparator(x: string, tail: string, h: seq<string>, r: seq<string>, sep: char)
    requires h == Split(x, sep) && Split(tail, sep) == h + r
    ensures Split([sep] + tail, sep) == Split([sep] + x, sep) + r
  {
    SplitConsSeparator(tail, sep);
    SplitConsSeparator(x, sep);
  }

  lemma SplitAppendConsOther(c: char, x: string, tail: string, h: seq<string>, r: seq<string>, sep: char)
    requires c != sep && h == Split(x, sep) && Split(tail, sep) == h + r
    ensures Split([c] + tail, sep) == Split([c] + x, sep) + r
  {
    SplitConsOther(c, tail, sep);
    SplitConsOther(c, x, sep);
    ConsOntoFirst([c], h, r);
  }

  /** Prefixing the first piece of `h + r` is prefixing the first piece of `h`. */
  lemma ConsOntoFirst(p: string, h: seq<string>, r: seq<string>)
    requires |h| >= 1
    ensures [p + (h + r)[0]] + (h + r)[1..] == ([p + h[0]] + h[1..]) + r
  {
    assert (h + r)[1..] == h[1..] + r;
  }
}
