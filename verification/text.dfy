/** The slice of Python's `str` behaviour the file store relies on:
    `lower()`, `strip()`, `split(sep)`, iterating a text file line by line,
    `str(int)` and `int(str)`. Characters are code points; there is no
    encoding layer. */
module Text {
  import opened Results

  /** `str.lower()` on one character: ASCII capitals map to small letters. */
  function LowerChar(c: char): char
  {
    if 'A' <= c <= 'Z' then (c as int + 32) as char else c
  }

  /** `str.lower()`, character by character: no capital letter is left,
      and a character changes only by turning from a capital into its small
      letter. */
  function Lower(s: string): (r: string)
    ensures |r| == |s|
    ensures forall i | 0 <= i < |r| :: !('A' <= r[i] <= 'Z')
    ensures forall i | 0 <= i < |r| :: r[i] == s[i] || ('A' <= s[i] <= 'Z' && r[i] as int == s[i] as int + 32)
  {
    seq(|s|, i requires 0 <= i < |s| => LowerChar(s[i]))
  }

  /** `str.isspace()` for one character: the Latin-1 whitespace, and the
      wider whitespace characters above it. */
  predicate IsSpace(c: char)
  {
    c == ' ' || '\t' <= c <= '\r' || '\U{1C}' <= c <= '\U{1F}' || c == '\U{85}' || c == '\U{A0}'
    || ('\U{1680}' <= c && IsWideSpace(c))
  }

  /** The characters above the Latin-1 range that `str.isspace()` also
      accepts, and so `str.strip()` also removes. */
  predicate IsWideSpace(c: char)
  {
    || c == '\U{1680}' || '\U{2000}' <= c <= '\U{200A}' || c == '\U{2028}' || c == '\U{2029}'
    || c == '\U{202F}' || c == '\U{205F}' || c == '\U{3000}'
  }

  /** Drops leading whitespace: the result is the longest suffix of `s` that
      does not start with a space, and everything dropped was space. */
  function StripLeft(s: string): (r: string)
    ensures |r| <= |s| && r == s[|s| - |r|..]
    ensures r == [] || !IsSpace(r[0])
    ensures forall i | 0 <= i < |s| - |r| :: IsSpace(s[i])
  {
    if |s| > 0 && IsSpace(s[0]) then StripLeft(s[1..]) else s
  }

  /** Drops trailing whitespace, symmetrically to StripLeft. */
  function StripRight(s: string): (r: string)
    ensures |r| <= |s| && r == s[..|r|]
    ensures r == [] || !IsSpace(r[|r| - 1])
    ensures forall i | |r| <= i < |s| :: IsSpace(s[i])
  {
    if |s| > 0 && IsSpace(s[|s| - 1]) then StripRight(s[..|s| - 1]) else s
  }

  /** `str.strip()` with no argument. */
  function Strip(s: string): string
  {
    StripRight(StripLeft(s))
  }

  /** A run of whitespace. */
  ghost predicate AllSpace(t: string)
  {
    forall i | 0 <= i < |t| :: IsSpace(t[i])
  }

  /** The whitespace `strip` cuts off the front of `s`. */
  ghost function LeadingSpace(s: string): string
  {
    s[..|s| - |StripLeft(s)|]
  }

  /** The whitespace `strip` cuts off the back of `s`. */
  ghost function TrailingSpace(s: string): string
  {
    StripLeft(s)[|StripRight(StripLeft(s))|..]
  }

  /** The strip of a text neither starts nor ends with whitespace. */
  lemma StripEnds(s: string)
    ensures Strip(s) == [] || (!IsSpace(Strip(s)[0]) && !IsSpace(Strip(s)[|Strip(s)| - 1]))
  {
    PrefixEnds(StripLeft(s), StripRight(StripLeft(s)));
  }

  /** `str.strip()` cuts whitespace off both ends and nothing else: `s` is
      a run of whitespace, then its strip, then another run of whitespace. */
  lemma StripSpec(s: string)
    ensures s == LeadingSpace(s) + Strip(s) + TrailingSpace(s)
    ensures AllSpace(LeadingSpace(s)) && AllSpace(TrailingSpace(s))
  {
    var l := StripLeft(s);
    var r := StripRight(l);
    Decompose(s, l, r);
    assert LeadingSpace(s) == s[..|s| - |l|];
    assert TrailingSpace(s) == l[|r|..];
  }

  /** A suffix `l` of `s` after whitespace, and a prefix `r` of `l` before
      whitespace, cut `s` into whitespace, `r` and whitespace. */
  lemma Decompose(s: string, l: string, r: string)
    requires |l| <= |s| && l == s[|s| - |l|..]
    requires forall i | 0 <= i < |s| - |l| :: IsSpace(s[i])
    requires |r| <= |l| && r == l[..|r|]
    requires forall i | |r| <= i < |l| :: IsSpace(l[i])
    ensures s == s[..|s| - |l|] + r + l[|r|..]
    ensures AllSpace(s[..|s| - |l|]) && AllSpace(l[|r|..])
  {
    var k := |s| - |l|;
    assert AllSpace(s[..k]) by {
      assert forall i | 0 <= i < k :: s[..k][i] == s[i];
    }
    assert AllSpace(l[|r|..]) by {
      var t := l[|r|..];
      forall i | 0 <= i < |t| ensures IsSpace(t[i]) {
        assert t[i] == l[|r| + i];
      }
    }
    assert s == s[..k] + l;
    assert l == r + l[|r|..];
  }

  /** A prefix of a text that does not start with whitespace does not
      either. */
  lemma PrefixEnds(l: string, r: string)
    requires |r| <= |l| && r == l[..|r|]
    requires l == [] || !IsSpace(l[0])
    requires r == [] || !IsSpace(r[|r| - 1])
    ensures r == [] || (!IsSpace(r[0]) && !IsSpace(r[|r| - 1]))
  {
    if r != [] {
      assert r[0] == l[0];
    }
  }

  /** A string that neither starts nor ends with whitespace is its own strip. */
  lemma StripUnchanged(s: string)
    requires s == [] || (!IsSpace(s[0]) && !IsSpace(s[|s| - 1]))
    ensures Strip(s) == s
  {
  }

  /** The index of the first `c` in `s`, or -1 (`str.find`). */
  function Find(s: string, c: char): (i: int)
    ensures -1 <= i < |s|
    ensures i == -1 <==> c !in s
    ensures 0 <= i ==> s[i] == c && c !in s[..i]
  {
    if s == [] then -1
    else if s[0] == c then 0
    else
      var j := Find(s[1..], c);
      assert s == [s[0]] + s[1..];
      if j < 0 then -1 else j + 1
  }

  /** Find returns a position holding `c` with no `c` before it. */
  lemma FindAt(s: string, c: char, k: nat)
    requires k < |s| && s[k] == c && c !in s[..k]
    ensures Find(s, c) == k
  {
    assert forall j | 0 <= j < k :: s[..k][j] == s[j];
    assert forall j | k < j <= |s| :: s[..j][k] == c;
  }

  /** The inverse of Split: the parts glued back together with `sep`. */
  function Join(parts: seq<string>, sep: char): string
    requires |parts| >= 1
  {
    if |parts| == 1 then parts[0] else parts[0] + [sep] + Join(parts[1..], sep)
  }

  /** `str.split(sep)` for a one-character separator: the pieces between the
      separators, one more piece than there are separators. */
  function Split(s: string, sep: char): (parts: seq<string>)
    decreases |s|
    ensures |parts| == multiset(s)[sep] + 1
    ensures forall k | 0 <= k < |parts| :: sep !in parts[k]
    ensures Join(parts, sep) == s
  {
    var i := Find(s, sep);
    if i < 0 then
      [s]
    else
      var rest := Split(s[i + 1..], sep);
      SplitCons(s, sep, i, rest);
      [s[..i]] + rest
  }

  /** One step of Split: the piece before the first separator, then the
      pieces of what follows it. */
  lemma SplitCons(s: string, sep: char, i: nat, rest: seq<string>)
    requires i < |s| && s[i] == sep && sep !in s[..i]
    requires |rest| == multiset(s[i + 1..])[sep] + 1
    requires forall k | 0 <= k < |rest| :: sep !in rest[k]
    requires Join(rest, sep) == s[i + 1..]
    ensures |[s[..i]] + rest| == multiset(s)[sep] + 1
    ensures forall k | 0 <= k < |[s[..i]] + rest| :: sep !in ([s[..i]] + rest)[k]
    ensures Join([s[..i]] + rest, sep) == s
  {
    var parts := [s[..i]] + rest;
    CountAround(s, i);
    assert multiset(s[..i])[sep] == 0;
    assert parts[1..] == rest;
    forall k | 0 <= k < |parts| ensures sep !in parts[k] {
      if k > 0 {
        assert parts[k] == rest[k - 1];
      }
    }
  }

  /** Cutting a string around position `i`. */
  lemma CountAround(s: string, i: nat)
    requires i < |s|
    ensures s == s[..i] + [s[i]] + s[i + 1..]
    ensures multiset(s) == multiset(s[..i]) + multiset{s[i]} + multiset(s[i + 1..])
  {
    assert s == s[..i] + [s[i]] + s[i + 1..];
  }

  /** A line whose text neither starts nor ends with whitespace strips to
      that text. */
  lemma StripLine(body: string)
    requires |body| > 0 && !IsSpace(body[0]) && !IsSpace(body[|body| - 1])
    ensures Strip(body + "\n") == body
  {
    var l := body + "\n";
    assert l[0] == body[0];
    assert StripLeft(l) == l;
    assert l[..|l| - 1] == body;
    assert StripRight(l) == StripRight(body);
    StripUnchanged(body);
  }

  /** Splitting `a:b` where neither side holds the separator gives exactly `[a, b]`. */
  lemma SplitPair(a: string, b: string, sep: char)
    requires sep !in a && sep !in b
    ensures Split(a + [sep] + b, sep) == [a, b]
  {
    var s := a + [sep] + b;
    assert s[..|a|] == a;
    FindAt(s, sep, |a|);
    assert s[|a| + 1..] == b;
  }

  /** The concatenation of a list of strings. */
  function Concat(ls: seq<string>): string
  {
    if ls == [] then [] else ls[0] + Concat(ls[1..])
  }

  /** A well-formed line: non-empty, with no newline before its last character. */
  ghost predicate IsLine(l: string)
  {
    |l| > 0 && '\n' !in l[..|l| - 1]
  }

  /** Ends with a newline character. */
  predicate EndsLine(l: string)
  {
    |l| > 0 && l[|l| - 1] == '\n'
  }

  /** Iterating a text file: every line keeps its terminating newline, the last
      one may lack it, and gluing the lines back gives the file. */
  function Lines(s: string): (ls: seq<string>)
    decreases |s|
    ensures Concat(ls) == s
    ensures forall k | 0 <= k < |ls| :: IsLine(ls[k])
    ensures forall k | 0 <= k < |ls| - 1 :: EndsLine(ls[k])
  {
    if s == [] then []
    else
      var i := Find(s, '\n');
      if i < 0 then
        assert s[..|s| - 1] <= s;
        [s]
      else
        var rest := Lines(s[i + 1..]);
        FirstLine(s, i);
        ConsLines(s[..i + 1], rest);
        [s[..i + 1]] + rest
  }

  /** The text up to the first newline is a line ending with that newline. */
  lemma FirstLine(s: string, i: nat)
    requires i < |s| && s[i] == '\n' && '\n' !in s[..i]
    ensures IsLine(s[..i + 1]) && EndsLine(s[..i + 1])
    ensures s == s[..i + 1] + s[i + 1..]
  {
    assert s[..i + 1][..i] == s[..i];
  }

  /** Putting a terminated line in front of a list of lines keeps it a list
      of lines and puts the line in front of their concatenation. */
  lemma ConsLines(l: string, ls: seq<string>)
    requires IsLine(l) && EndsLine(l)
    requires forall k | 0 <= k < |ls| :: IsLine(ls[k])
    requires forall k | 0 <= k < |ls| - 1 :: EndsLine(ls[k])
    ensures Concat([l] + ls) == l + Concat(ls)
    ensures forall k | 0 <= k < |[l] + ls| :: IsLine(([l] + ls)[k])
    ensures forall k | 0 <= k < |[l] + ls| - 1 :: EndsLine(([l] + ls)[k])
  {
    assert ([l] + ls)[1..] == ls;
  }

  /** A newline-terminated line followed by more text is read as that line first. */
  lemma LinesCons(l: string, rest: string)
    requires IsLine(l) && EndsLine(l)
    ensures Lines(l + rest) == [l] + Lines(rest)
  {
    var s := l + rest;
    assert s[..|l| - 1] == l[..|l| - 1];
    FindAt(s, '\n', |l| - 1);
    assert s[..|l|] == l;
    assert s[|l|..] == rest;
  }

  predicate IsDigit(c: char)
  {
    '0' <= c <= '9'
  }

  predicate AllDigits(s: string)
  {
    forall i | 0 <= i < |s| :: IsDigit(s[i])
  }

  function DigitChar(d: nat): (c: char)
    requires d < 10
  {
    ('0' as int + d) as char
  }

  /** `str(n)` for a natural number: its decimal digits, without leading zeros. */
  function NatToString(n: nat): (r: string)
    ensures |r| >= 1 && AllDigits(r)
  {
    if n < 10 then [DigitChar(n)] else NatToString(n / 10) + [DigitChar(n % 10)]
  }

  /** `str(n)`: a minus sign before the digits of a negative number. */
  function IntToString(n: int): string
  {
    if n < 0 then "-" + NatToString(-n) else NatToString(n)
  }

  /** The value of a string of decimal digits, most significant first. */
  function DigitsValue(s: string): nat
    requires AllDigits(s)
  {
    if s == [] then 0 else DigitsValue(s[..|s| - 1]) * 10 + (s[|s| - 1] as int - '0' as int)
  }

  /** `int(s)` in base 10: surrounding whitespace is ignored, an optional sign
      precedes one or more digits; anything else raises ValueError (None). */
  function ParseInt(s: string): Option<int>
  {
    SignedValue(Strip(s))
  }

  /** The value of a stripped text: an optional sign, then one or more
      digits. */
  function SignedValue(t: string): Option<int>
  {
    if |t| > 0 && (t[0] == '-' || t[0] == '+') then
      var d := t[1..];
      if |d| > 0 && AllDigits(d) then
        var v: int := DigitsValue(d);
        Some(if t[0] == '-' then -v else v)
      else None
    else if |t| > 0 && AllDigits(t) then Some(DigitsValue(t))
    else None
  }

  /** What `int()` accepts: once stripped, a digit or a sign with at least
      one digit after it, then digits only, so a text holding ':' is never an
      integer; and a negative value needs a minus sign. */
  lemma ParseIntShape(s: string)
    ensures ParseInt(s).Some? ==>
      && |Strip(s)| > 0
      && (IsDigit(Strip(s)[0]) || ((Strip(s)[0] == '+' || Strip(s)[0] == '-') && |Strip(s)| >= 2))
      && forall i | 0 < i < |Strip(s)| :: IsDigit(Strip(s)[i])
    ensures ParseInt(s).Some? && ParseInt(s).value < 0 ==> Strip(s)[0] == '-'
    ensures ':' in Strip(s) ==> ParseInt(s).None?
  {
    var t := Strip(s);
    if |t| > 0 && (t[0] == '-' || t[0] == '+') && AllDigits(t[1..]) {
      assert forall i | 0 < i < |t| :: t[i] == t[1..][i - 1];
    }
  }

  /** The converse of ParseIntShape, with the value: every text of that
      shape is an integer, read in base 10 and negated after a minus sign. */
  lemma ParseIntValue(s: string)
    ensures var t := Strip(s);
      |t| > 0 && AllDigits(t) ==> ParseInt(s) == Some(DigitsValue(t))
    ensures var t := Strip(s);
      |t| >= 2 && t[0] == '+' && AllDigits(t[1..]) ==> ParseInt(s) == Some(DigitsValue(t[1..]))
    ensures var t := Strip(s);
      |t| >= 2 && t[0] == '-' && AllDigits(t[1..]) ==> ParseInt(s) == Some(-(DigitsValue(t[1..]) as int))
  {
  }

  /** Reading back the digits of a natural number gives the number. */
  lemma {:induction false} NatToStringValue(n: nat)
    ensures DigitsValue(NatToString(n)) == n
  {
    if n >= 10 {
      NatToStringValue(n / 10);
      var r := NatToString(n);
      assert r[..|r| - 1] == NatToString(n / 10);
    }
  }

  /** `int(str(n)) == n`. */
  lemma ParseIntToString(n: int)
    ensures ParseInt(IntToString(n)) == Some(n)
  {
    var m: nat := if n < 0 then -n else n;
    NatToStringValue(m);
    if n < 0 {
      ParseNegative(NatToString(m));
    } else {
      ParseUnsigned(NatToString(m));
    }
  }

  /** `int` reads a plain run of digits as its value. */
  lemma ParseUnsigned(d: string)
    requires |d| > 0 && AllDigits(d)
    ensures ParseInt(d) == Some(DigitsValue(d))
  {
    assert IsDigit(d[0]) && IsDigit(d[|d| - 1]);
    StripUnchanged(d);
  }

  /** `int` reads a minus sign before a run of digits as the negated value. */
  lemma ParseNegative(d: string)
    requires |d| > 0 && AllDigits(d)
    ensures ParseInt("-" + d) == Some(-(DigitsValue(d) as int))
  {
    SignedIsStripped(d);
    ParseStripped("-" + d);
    NegativeValue(d);
  }

  /** A text that is its own strip is read as it stands. */
  lemma ParseStripped(s: string)
    requires Strip(s) == s
    ensures ParseInt(s) == SignedValue(s)
  {
  }

  lemma NegativeValue(d: string)
    requires |d| > 0 && AllDigits(d)
    ensures SignedValue("-" + d) == Some(-(DigitsValue(d) as int))
  {
    assert ("-" + d)[1..] == d;
  }

  /** A minus sign followed by digits has no surrounding whitespace. */
  lemma SignedIsStripped(d: string)
    requires |d| > 0 && AllDigits(d)
    ensures Strip("-" + d) == "-" + d
  {
    var s := "-" + d;
    assert s[|s| - 1] == d[|d| - 1] && IsDigit(d[|d| - 1]);
    StripUnchanged(s);
  }

  /** The text of `str(n)` holds no colon, no whitespace and no newline. */
  lemma IntToStringPlain(n: int)
    ensures ':' !in IntToString(n) && '\n' !in IntToString(n)
    ensures |IntToString(n)| > 0 && !IsSpace(IntToString(n)[0])
    ensures !IsSpace(IntToString(n)[|IntToString(n)| - 1])
  {
    var d := NatToString(if n < 0 then -n else n);
    assert forall i | 0 <= i < |d| :: IsDigit(d[i]);
  }
}
