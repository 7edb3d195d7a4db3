/** The string operations of the .NET base library that the generator relies on. */
module Text {

  /** The line terminator appended by StringBuilder.AppendLine (Environment.NewLine), fixed here to a line feed. */
  const NewLine: string := "\n"

  /**
   * string.StartsWith, compared ordinally. .NET's one-argument overload compares
   * culture-sensitively, which gives the same answer for the ASCII prefixes the generator
   * tests on reflection's type names.
   */
  predicate StartsWith(s: string, prefix: string) {
    |prefix| <= |s| && s[..|prefix|] == prefix
  }

  /** The inverse of Split: the parts with one separator between neighbours. */
  function Join(parts: seq<string>, sep: char): string
    requires |parts| >= 1
  {
    if |parts| == 1 then parts[0] else parts[0] + [sep] + Join(parts[1..], sep)
  }

  /**
   * string.Split(sep): every maximal run of characters between separators, empty
   * runs included, so the result always has one more part than there are separators.
   */
  function Split(s: string, sep: char): (parts: seq<string>)
    ensures |parts| >= 1
    ensures forall i :: 0 <= i < |parts| ==> sep !in parts[i]
    ensures Join(parts, sep) == s
    decreases |s|
  {
    if s == [] then [""]
    else
      var rest := Split(s[1..], sep);
      if s[0] == sep then
        assert ([""] + rest)[1..] == rest;
        [""] + rest
      else
        var parts := [[s[0]] + rest[0]] + rest[1..];
        assert parts[1..] == rest[1..];
        assert |rest| > 1 ==> Join(rest, sep) == rest[0] + [sep] + Join(rest[1..], sep);
        assert s == [s[0]] + s[1..];
        parts
  }

  /** A run without separators is one part. */
  lemma {:induction false} SplitWithoutSeparator(w: string, sep: char)
    requires sep !in w
    ensures Split(w, sep) == [w]
    decreases |w|
  {
    if w != [] {
      SplitWithoutSeparator(w[1..], sep);
      assert [w[0]] + w[1..] == w;
    }
  }

  /** A separator after a run without separators ends the first part. */
  lemma {:induction false} SplitAfterRun(w: string, sep: char, t: string)
    requires sep !in w
    ensures Split(w + [sep] + t, sep) == [w] + Split(t, sep)
    decreases |w|
  {
    var s := w + [sep] + t;
    if w == [] {
      assert s[1..] == t;
    } else {
      assert s[1..] == w[1..] + [sep] + t;
      SplitAfterRun(w[1..], sep, t);
      assert [w[0]] + w[1..] == w;
    }
  }

  /** Splitting a joined list of separator-free parts gives the parts back. */
  lemma {:induction false} SplitJoin(parts: seq<string>, sep: char)
    requires |parts| >= 1
    requires forall i :: 0 <= i < |parts| ==> sep !in parts[i]
    ensures Split(Join(parts, sep), sep) == parts
    decreases |parts|
  {
    if |parts| == 1 {
      SplitWithoutSeparator(parts[0], sep);
    } else {
      SplitJoin(parts[1..], sep);
      SplitAfterRun(parts[0], sep, Join(parts[1..], sep));
      assert [parts[0]] + parts[1..] == parts;
    }
  }

  /** string.Join(sep, parts): the parts with sep between neighbours, "" for no parts. */
  function JoinWith(parts: seq<string>, sep: string): string {
    if parts == [] then "" else if |parts| == 1 then parts[0] else parts[0] + sep + JoinWith(parts[1..], sep)
  }

  predicate EndsWith(s: string, suffix: string) {
    |suffix| <= |s| && s[|s| - |suffix|..] == suffix
  }

  /** A string ends with each of its suffixes. */
  lemma EndsWithConcat(a: string, b: string)
    ensures EndsWith(a + b, b)
  {
    assert (a + b)[|a + b| - |b|..] == b;
  }

  /** A string starts with each of its prefixes. */
  lemma StartsWithConcat(a: string, b: string)
    ensures StartsWith(a + b, a)
  {
    assert (a + b)[..|a|] == a;
  }

  /** A prefix of a prefix is a prefix. */
  lemma StartsWithTrans(s: string, p: string, q: string)
    requires StartsWith(s, p) && StartsWith(p, q)
    ensures StartsWith(s, q)
  {
    assert s[..|q|] == s[..|p|][..|q|];
  }

  /** String concatenation regroups freely; stated once so that callers need not unfold it. */
  lemma ConcatAssociates(x: string, y: string, z: string)
    ensures x + (y + z) == x + y + z
  {
  }

  /** Joining one more part appends the separator and the part. */
  lemma {:induction false} JoinWithSnoc(parts: seq<string>, x: string, sep: string)
    requires parts != []
    ensures JoinWith(parts + [x], sep) == JoinWith(parts, sep) + sep + x
    decreases |parts|
  {
    if |parts| == 1 {
      assert (parts + [x])[1..] == [x];
    } else {
      assert (parts + [x])[1..] == parts[1..] + [x];
      JoinWithSnoc(parts[1..], x, sep);
    }
  }

  /** string.LastIndexOf(c): the position of the last occurrence of c, or -1. */
  function LastIndexOf(s: string, c: char): (r: int)
    ensures -1 <= r < |s|
    ensures r >= 0 ==> s[r] == c
    ensures forall j :: r < j < |s| ==> s[j] != c
  {
    if s == [] then -1
    else if s[|s| - 1] == c then |s| - 1
    else LastIndexOf(s[..|s| - 1], c)
  }

  /** The text after the last occurrence of c, or all of s when c does not occur. */
  function AfterLast(s: string, c: char): (r: string)
    ensures c !in r
    ensures c !in s ==> r == s
    ensures c in s ==> exists k | 0 <= k < |s| :: s == s[..k] + [c] + r
  {
    var i := LastIndexOf(s, c);
    if i < 0 then
      s
    else
      var r := s[i + 1..];
      assert s == s[..i] + [c] + r;
      r
  }

  /** string.Replace("'", "\\'"): every single quote gets a backslash in front of it. */
  function EscapeQuotes(s: string): (r: string)
    ensures |r| >= |s|
    ensures forall i :: 0 <= i < |r| && r[i] == '\'' ==> i > 0 && r[i - 1] == '\\'
  {
    if s == [] then []
    else
      var rest := EscapeQuotes(s[1..]);
      if s[0] == '\'' then
        assert forall i :: 2 <= i < 2 + |rest| ==> ("\\'" + rest)[i] == rest[i - 2];
        "\\'" + rest
      else
        assert forall i :: 1 <= i < 1 + |rest| ==> ([s[0]] + rest)[i] == rest[i - 1];
        [s[0]] + rest
  }

  /**
   * The inverse of EscapeQuotes: a backslash followed by a quote stands for the quote, and
   * every other character, a backslash included, stands for itself. This is not how a
   * JavaScript engine decodes a string literal.
   */
  function UnescapeQuotes(r: string): string
  {
    if r == [] then []
    else if |r| >= 2 && r[0] == '\\' && r[1] == '\'' then "'" + UnescapeQuotes(r[2..])
    else [r[0]] + UnescapeQuotes(r[1..])
  }

  /** EscapeQuotes is injective: UnescapeQuotes undoes it on every string. */
  lemma {:induction false} UnescapeEscape(s: string)
    ensures UnescapeQuotes(EscapeQuotes(s)) == s
  {
    if s != [] {
      UnescapeEscape(s[1..]);
      var rest := EscapeQuotes(s[1..]);
      if s[0] == '\'' {
        assert ("\\'" + rest)[2..] == rest;
      } else {
        var r := [s[0]] + rest;
        assert r[1..] == rest;
        assert |rest| > 0 ==> rest[0] != '\'';
      }
      assert [s[0]] + s[1..] == s;
    }
  }

  /**
   * A text without a quote is written unchanged: backslashes are not escaped, so a
   * pattern such as \d reaches the JavaScript literal as it is.
   */
  lemma {:induction false} EscapeQuotesWithoutQuote(s: string)
    requires forall i :: 0 <= i < |s| ==> s[i] != '\''
    ensures EscapeQuotes(s) == s
  {
    if s != [] {
      EscapeQuotesWithoutQuote(s[1..]);
      assert [s[0]] + s[1..] == s;
    }
  }

  /** Dropping the head of a prefix is taking a prefix of the tail. */
  lemma PrefixOfTail<T>(s: seq<T>, k: nat)
    requires k < |s|
    ensures s[..k + 1][1..] == s[1..][..k]
  {
    assert forall m :: 0 <= m < k ==> s[..k + 1][1..][m] == s[m + 1] == s[1..][..k][m];
  }

  predicate IsDigit(c: char) {
    '0' <= c <= '9'
  }

  function Digit(d: nat): (c: char)
    requires d < 10
    ensures IsDigit(c)
  {
    ('0' as int + d) as char
  }

  /** The value of a decimal numeral. */
  function DecimalValue(s: string): nat
    requires forall i :: 0 <= i < |s| ==> IsDigit(s[i])
  {
    if s == [] then 0
    else
      assert IsDigit(s[|s| - 1]);
      10 * DecimalValue(s[..|s| - 1]) + (s[|s| - 1] as int - '0' as int)
  }

  /** Int32.ToString() of a non-negative value: its decimal numeral without leading zeros. */
  function NatToString(n: nat): (s: string)
    ensures |s| >= 1
    ensures forall i :: 0 <= i < |s| ==> IsDigit(s[i])
    ensures s[0] == '0' ==> n == 0
  {
    if n < 10 then [Digit(n)] else NatToString(n / 10) + [Digit(n % 10)]
  }

  /** The numeral written for a bound denotes that bound. */
  lemma {:induction false} DecimalValueNatToString(n: nat)
    ensures DecimalValue(NatToString(n)) == n
  {
    if n >= 10 {
      DecimalValueNatToString(n / 10);
      var s := NatToString(n);
      assert s[..|s| - 1] == NatToString(n / 10);
    }
  }
}
