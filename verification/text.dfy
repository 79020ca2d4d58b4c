/** The pieces of Python's `str` and `int` behaviour the page-range parser,
    the file names and the validator messages rely on: whitespace stripping,
    `split` and `join`, removing one character, ASCII lower-casing, decimal
    rendering of integers and `int()` parsing in base 10. */
module Text {
  import opened Wrappers

  /** The characters `str.strip()` removes (Python's `str.isspace`). */
  predicate IsWhitespace(c: char) {
    || ('\t' <= c <= '\r')
    || ('\U{1C}' <= c <= ' ')
    || c == '\U{85}' || c == '\U{A0}' || c == '\U{1680}'
    || ('\U{2000}' <= c <= '\U{200A}')
    || c == '\U{2028}' || c == '\U{2029}' || c == '\U{202F}'
    || c == '\U{205F}' || c == '\U{3000}'
  }

  /** The characters `int()` skips around a numeral. CPython first maps
      every non-ASCII whitespace character to a space and then skips only
      ASCII tab to carriage return and the space, so the separators
      U+001C to U+001F, which `str.strip()` removes, are refused. */
  predicate IsIntSpace(c: char) {
    IsWhitespace(c) && !('\U{1C}' <= c <= '\U{1F}')
  }

  /** Which characters a trim drops: those of `str.strip()`, or those
      `int()` skips. */
  datatype Blanks = StrSpace | IntSpace

  predicate IsBlank(b: Blanks, c: char) {
    match b
    case StrSpace => IsWhitespace(c)
    case IntSpace => IsIntSpace(c)
  }

  predicate AllBlank(b: Blanks, s: string) {
    forall i :: 0 <= i < |s| ==> IsBlank(b, s[i])
  }

  /** The first index at or after `i` whose character is not blank, or
      `|s|`: where the trimmed text starts once the scan reaches `i`. */
  function SkipSpace(b: Blanks, s: string, i: nat): (n: nat)
    requires i <= |s|
    ensures i <= n <= |s|
    ensures forall k :: i <= k < n ==> IsBlank(b, s[k])
    ensures n == |s| || !IsBlank(b, s[n])
    decreases |s| - i
  {
    if i < |s| && IsBlank(b, s[i]) then SkipSpace(b, s, i + 1) else i
  }

  /** The end of `s[lo..hi]` once its trailing blanks are dropped. */
  function TrimEnd(b: Blanks, s: string, lo: nat, hi: nat): (n: nat)
    requires lo <= hi <= |s|
    ensures lo <= n <= hi
    ensures forall k :: n <= k < hi ==> IsBlank(b, s[k])
    ensures n == lo || !IsBlank(b, s[n - 1])
    decreases hi - lo
  {
    if lo < hi && IsBlank(b, s[hi - 1]) then TrimEnd(b, s, lo, hi - 1) else hi
  }

  /** Where the trimmed text starts in `s`. */
  function TrimStart(b: Blanks, s: string): nat
    ensures TrimStart(b, s) <= |s|
  {
    SkipSpace(b, s, 0)
  }

  /** Where the trimmed text ends in `s`. */
  function TrimStop(b: Blanks, s: string): nat
    ensures TrimStart(b, s) <= TrimStop(b, s) <= |s|
  {
    TrimEnd(b, s, TrimStart(b, s), |s|)
  }

  /** `s` without its leading and trailing blanks: the infix running from
      its first to its last non-blank character. */
  function Trim(b: Blanks, s: string): (r: string)
    ensures r == s[TrimStart(b, s)..TrimStop(b, s)]
    ensures forall k :: 0 <= k < TrimStart(b, s) ==> IsBlank(b, s[k])
    ensures forall k :: TrimStop(b, s) <= k < |s| ==> IsBlank(b, s[k])
    ensures r == [] || (!IsBlank(b, r[0]) && !IsBlank(b, r[|r| - 1]))
  {
    s[TrimStart(b, s)..TrimStop(b, s)]
  }

  /** `s.strip()`: the infix of `s` running from its first to its last
      non-whitespace character; everything outside it is whitespace. */
  function Strip(s: string): (r: string)
    ensures r == s[TrimStart(StrSpace, s)..TrimStop(StrSpace, s)]
    ensures forall k :: 0 <= k < TrimStart(StrSpace, s) ==> IsWhitespace(s[k])
    ensures forall k :: TrimStop(StrSpace, s) <= k < |s| ==> IsWhitespace(s[k])
    ensures r == [] || (!IsWhitespace(r[0]) && !IsWhitespace(r[|r| - 1]))
  {
    Trim(StrSpace, s)
  }

  /** The scan for the start stops at the first non-blank character. */
  lemma {:induction false} SkipSpaceStops(b: Blanks, s: string, i: nat, n: nat)
    requires i <= n <= |s|
    requires forall k :: i <= k < n ==> IsBlank(b, s[k])
    requires n == |s| || !IsBlank(b, s[n])
    ensures SkipSpace(b, s, i) == n
    decreases n - i
  {
    if i < n {
      SkipSpaceStops(b, s, i + 1, n);
    }
  }

  /** The scan for the end stops at the last non-blank character. */
  lemma {:induction false} TrimEndStops(b: Blanks, s: string, lo: nat, hi: nat, n: nat)
    requires lo <= n <= hi <= |s|
    requires forall k :: n <= k < hi ==> IsBlank(b, s[k])
    requires n == lo || !IsBlank(b, s[n - 1])
    ensures TrimEnd(b, s, lo, hi) == n
    decreases hi - n
  {
    if n < hi {
      TrimEndStops(b, s, lo, hi - 1, n);
    }
  }

  /** Stripping adds no character: one absent from `s` is absent from
      `Strip(s)`. */
  lemma {:induction false} StripChars(s: string, c: char)
    requires c !in s
    ensures c !in Strip(s)
  {
    var r := Strip(s);
    var i := TrimStart(StrSpace, s);
    forall k | 0 <= k < |r| ensures r[k] != c {
      assert r[k] == s[i + k];
    }
    assert forall x :: x in r ==> exists k :: 0 <= k < |r| && r[k] == x;
  }

  /** Trimming undoes padding: a string with no blank at its ends,
      surrounded by any blanks, trims back to itself. */
  lemma {:induction false} TrimPadded(b: Blanks, w1: string, t: string, w2: string)
    requires AllBlank(b, w1) && AllBlank(b, w2)
    requires t == [] || (!IsBlank(b, t[0]) && !IsBlank(b, t[|t| - 1]))
    ensures Trim(b, w1 + t + w2) == t
  {
    var s := w1 + t + w2;
    var lo, hi := |w1|, |w1| + |t|;
    if t == [] {
      forall k | 0 <= k < |s| ensures IsBlank(b, s[k]) {
        if k < lo { assert s[k] == w1[k]; } else { assert s[k] == w2[k - lo]; }
      }
      SkipSpaceStops(b, s, 0, |s|);
      assert s[|s|..|s|] == [];
    } else {
      forall k | 0 <= k < lo ensures IsBlank(b, s[k]) {
        assert s[k] == w1[k];
      }
      assert s[lo] == t[0];
      SkipSpaceStops(b, s, 0, lo);
      forall k | hi <= k < |s| ensures IsBlank(b, s[k]) {
        assert s[k] == w2[k - hi];
      }
      assert s[hi - 1] == t[|t| - 1];
      TrimEndStops(b, s, lo, |s|, hi);
      assert s[lo..hi] == t;
    }
  }

  /** Stripping undoes padding: a string with no whitespace at its ends,
      surrounded by any whitespace, strips back to itself. */
  lemma {:induction false} StripPadded(w1: string, t: string, w2: string)
    requires AllBlank(StrSpace, w1) && AllBlank(StrSpace, w2)
    requires t == [] || (!IsWhitespace(t[0]) && !IsWhitespace(t[|t| - 1]))
    ensures Strip(w1 + t + w2) == t
  {
    TrimPadded(StrSpace, w1, t, w2);
  }

  /** Index of the first occurrence of `c` in `s` (`s.index(c)`). */
  function IndexOf(s: string, c: char): (i: nat)
    requires c in s
    ensures i < |s| && s[i] == c && c !in s[..i]
  {
    if s[0] == c then 0
    else
      var j := IndexOf(s[1..], c);
      assert s[..j + 1] == [s[0]] + s[1..][..j];
      1 + j
  }

  /** Index of the last occurrence of `c` in `s` (`s.rindex(c)`). */
  function LastIndexOf(s: string, c: char): (i: nat)
    requires c in s
    ensures i < |s| && s[i] == c && c !in s[i + 1..]
  {
    if s[|s| - 1] == c then |s| - 1
    else
      assert c in s[..|s| - 1] by {
        var k :| 0 <= k < |s| && s[k] == c;
        assert s[..|s| - 1][k] == c;
      }
      var j := LastIndexOf(s[..|s| - 1], c);
      assert s[j + 1..] == s[..|s| - 1][j + 1..] + [s[|s| - 1]];
      j
  }

  /** `IndexOf` finds the first occurrence and no other. */
  lemma {:induction false} IndexOfFirst(s: string, c: char, j: nat)
    requires j < |s| && s[j] == c && c !in s[..j]
    ensures IndexOf(s, c) == j
  {
    if j > 0 {
      assert s[0] == s[..j][0];
      assert s[1..][j - 1] == c;
      assert s[1..][..j - 1] == s[..j][1..];
      IndexOfFirst(s[1..], c, j - 1);
    }
  }

  /** `sep.join(parts)`. */
  function Join(parts: seq<string>, sep: string): string
  {
    if |parts| == 0 then []
    else if |parts| == 1 then parts[0]
    else parts[0] + sep + Join(parts[1..], sep)
  }

  /** `s.split(sep)` for a one-character separator: the pieces between
      separators, which join back to `s`. */
  function Split(s: string, sep: char): (parts: seq<string>)
    ensures |parts| >= 1
    ensures forall i :: 0 <= i < |parts| ==> sep !in parts[i]
    ensures forall i, c :: 0 <= i < |parts| && c in parts[i] ==> c in s
    ensures Join(parts, [sep]) == s
    decreases |s|
  {
    if sep !in s then [s]
    else
      var i := IndexOf(s, sep);
      var rest := Split(s[i + 1..], sep);
      assert ([s[..i]] + rest)[1..] == rest;
      assert forall c :: c in s[..i] || c in s[i + 1..] ==> c in s;
      assert s == s[..i] + [sep] + s[i + 1..];
      [s[..i]] + rest
  }

  /** Splitting a join recovers the pieces, provided none holds the
      separator. */
  lemma {:induction false} SplitJoin(parts: seq<string>, sep: char)
    requires |parts| >= 1
    requires forall i :: 0 <= i < |parts| ==> sep !in parts[i]
    ensures Split(Join(parts, [sep]), sep) == parts
    decreases |parts|
  {
    if |parts| > 1 {
      var s := Join(parts, [sep]);
      var p := parts[0];
      assert s == p + [sep] + Join(parts[1..], [sep]);
      assert s[..|p|] == p;
      assert s[|p|] == sep;
      IndexOfFirst(s, sep, |p|);
      var i := |p|;
      assert s[..i] == p;
      assert s[i + 1..] == Join(parts[1..], [sep]);
      SplitJoin(parts[1..], sep);
    }
  }

  /** A separator between two texts splits them apart: the pieces are
      those of the first text followed by those of the second. */
  lemma {:induction false} SplitAppend(x: string, y: string, sep: char)
    ensures Split(x + [sep] + y, sep) == Split(x, sep) + Split(y, sep)
    decreases |x|
  {
    var s := x + [sep] + y;
    var i := if sep in x then IndexOf(x, sep) else |x|;
    assert sep in s && s[..i] == x[..i] && s[i] == sep by {
      assert s[|x|] == sep;
    }
    IndexOfFirst(s, sep, i);
    if sep !in x {
      calc {
        Split(s, sep);
        [s[..i]] + Split(s[i + 1..], sep);
        { assert s[..i] == x && s[i + 1..] == y; }
        [x] + Split(y, sep);
      }
    } else {
      var rest := x[i + 1..] + [sep] + y;
      assert s == x[..i + 1] + rest by {
        assert x == x[..i + 1] + x[i + 1..];
      }
      calc {
        Split(s, sep);
        [s[..i]] + Split(s[i + 1..], sep);
        { assert s[i + 1..] == rest; }
        [x[..i]] + Split(rest, sep);
        { SplitAppend(x[i + 1..], y, sep); }
        [x[..i]] + (Split(x[i + 1..], sep) + Split(y, sep));
        ([x[..i]] + Split(x[i + 1..], sep)) + Split(y, sep);
        Split(x, sep) + Split(y, sep);
      }
    }
  }

  /** `s.replace(c, '')`. */
  function Remove(s: string, c: char): (r: string)
    ensures |r| <= |s|
    ensures forall x :: x in r <==> x in s && x != c
  {
    if s == [] then []
    else
      var head := if s[0] == c then [] else [s[0]];
      var r := head + Remove(s[1..], c);
      assert forall x :: x in s <==> x == s[0] || x in s[1..];
      assert forall x :: x in r <==> x in head || x in Remove(s[1..], c);
      r
  }

  lemma {:induction false} RemoveAppend(a: string, b: string, c: char)
    ensures Remove(a + b, c) == Remove(a, c) + Remove(b, c)
    decreases |a|
  {
    if a == [] {
      assert a + b == b;
    } else {
      assert (a + b)[0] == a[0];
      assert (a + b)[1..] == a[1..] + b;
      RemoveAppend(a[1..], b, c);
    }
  }

  lemma {:induction false} RemoveAbsent(s: string, c: char)
    requires c !in s
    ensures Remove(s, c) == s
    decreases |s|
  {
    if s != [] {
      RemoveAbsent(s[1..], c);
    }
  }

  /** `str.lower()` restricted to ASCII capitals. */
  function LowerChar(c: char): char {
    if 'A' <= c <= 'Z' then (c as int + 32) as char else c
  }

  function Lower(s: string): (r: string)
    ensures |r| == |s|
    ensures forall i :: 0 <= i < |s| ==> r[i] == LowerChar(s[i])
  {
    seq(|s|, i requires 0 <= i < |s| => LowerChar(s[i]))
  }

  predicate StartsWith(s: string, prefix: string) {
    |prefix| <= |s| && s[..|prefix|] == prefix
  }

  predicate EndsWith(s: string, suffix: string) {
    |suffix| <= |s| && s[|s| - |suffix|..] == suffix
  }

  predicate IsDigit(c: char) {
    '0' <= c <= '9'
  }

  predicate AllDigits(s: string) {
    forall i :: 0 <= i < |s| ==> IsDigit(s[i])
  }

  function DigitChar(d: nat): (c: char)
    requires d < 10
    ensures IsDigit(c)
  {
    (48 + d) as char
  }

  function DigitValue(c: char): nat
    requires IsDigit(c)
  {
    c as int - 48
  }

  /** The number a string of decimal digits denotes. */
  function DigitsValue(s: string): nat
    requires AllDigits(s)
  {
    if s == [] then 0 else 10 * DigitsValue(s[..|s| - 1]) + DigitValue(s[|s| - 1])
  }

  /** `str(n)` for a natural number: the shortest decimal numeral
      denoting `n`. */
  function NatToString(n: nat): (r: string)
    ensures |r| >= 1 && AllDigits(r)
    ensures r[0] == '0' <==> n == 0
    ensures r[0] == '0' ==> r == "0"
    ensures DigitsValue(r) == n
  {
    if n < 10 then [DigitChar(n)]
    else
      var prefix := NatToString(n / 10);
      var r := prefix + [DigitChar(n % 10)];
      assert r[..|r| - 1] == prefix;
      r
  }

  /** `str(i)` for any integer: a minus sign exactly for a negative
      number, then its digits. IntToStringRoundTrip: `int()` reads it
      back as `i`. */
  function IntToString(i: int): (r: string)
    ensures |r| >= 1 && (r[0] == '-' <==> i < 0)
  {
    if i >= 0 then NatToString(i) else "-" + NatToString(-i)
  }

  /** `int(str(i)) == i` for every integer, so every number the messages
      print reads back as itself. */
  lemma {:induction false} IntToStringRoundTrip(i: int)
    ensures ParseInt(IntToString(i)) == Some(i)
  {
    if i >= 0 {
      assert [] + NatToString(i) + [] == NatToString(i);
      ParseIntRoundTrip(i, [], []);
    } else {
      assert [] + ['-'] + NatToString(-i) + [] == "-" + NatToString(-i);
      ParseSignedRoundTrip(-i, '-', [], []);
    }
  }

  /** The digits of a base-10 literal as `int()` accepts them: decimal
      digits, optionally grouped by single underscores that sit between
      two digits. */
  predicate IsDigitBody(b: string) {
    && |b| > 0
    && IsDigit(b[0])
    && IsDigit(b[|b| - 1])
    && (forall i :: 0 <= i < |b| ==> IsDigit(b[i]) || b[i] == '_')
    && (forall i :: 0 <= i < |b| - 1 ==> b[i] == '_' ==> b[i + 1] != '_')
  }

  function BodyValue(b: string): nat
    requires IsDigitBody(b)
  {
    var digits := Remove(b, '_');
    assert AllDigits(digits) by {
      forall i | 0 <= i < |digits| ensures IsDigit(digits[i]) {
        assert digits[i] in digits;
      }
    }
    DigitsValue(digits)
  }

  /** The characters that can occur in a string `int()` accepts. */
  predicate IsNumeralChar(c: char) {
    IsDigit(c) || c == '_' || c == '+' || c == '-' || IsIntSpace(c)
  }

  /** Whether `sign` is what may precede the digits: nothing, `+` or `-`. */
  predicate IsSign(sign: string) {
    sign == [] || sign == "+" || sign == "-"
  }

  /** The value of a digit body under a sign. */
  function Signed(sign: string, v: nat): int {
    if sign == "-" then -(v as int) else v
  }

  /** `int(s)`: surrounding whitespace, an optional sign and a digit body;
      `None` where Python raises `ValueError`. */
  function ParseInt(s: string): (r: Option<int>)
    ensures r.Some? ==> forall i :: 0 <= i < |s| ==> IsNumeralChar(s[i])
  {
    var t := Trim(IntSpace, s);
    var r := ParseNumeral(t);
    assert r.Some? ==> forall i :: 0 <= i < |s| ==> IsNumeralChar(s[i]) by {
      if r.Some? {
        var j := TrimStart(IntSpace, s);
        forall i | j <= i < j + |t| ensures IsNumeralChar(s[i]) {
          assert t[i - j] == s[i];
        }
      }
    }
    r
  }

  /** The numeral once stripped: an optional sign and a digit body. */
  function ParseNumeral(t: string): (r: Option<int>)
    ensures r.Some? ==> forall i :: 0 <= i < |t| ==> IsNumeralChar(t[i])
  {
    if |t| > 0 && (t[0] == '+' || t[0] == '-') then
      var body := t[1..];
      if IsDigitBody(body) then
        assert forall i :: 1 <= i < |t| ==> t[i] == body[i - 1];
        var v: int := BodyValue(body);
        Some(if t[0] == '-' then -v else v)
      else None
    else if IsDigitBody(t) then Some(BodyValue(t))
    else None
  }

  /** A stripped numeral `int()` accepts is a sign or none, then a digit
      body. */
  lemma {:induction false} NumeralParts(t: string) returns (sign: string, body: string)
    requires ParseNumeral(t).Some?
    ensures t == sign + body
    ensures IsSign(sign) && IsDigitBody(body)
    ensures ParseNumeral(t) == Some(Signed(sign, BodyValue(body)))
  {
    if t[0] == '+' || t[0] == '-' {
      sign, body := [t[0]], t[1..];
      assert sign == "+" || sign == "-";
    } else {
      sign, body := [], t;
    }
  }

  /** A sign or none, then a digit body, is a numeral `int()` accepts. */
  lemma {:induction false} NumeralOfParts(sign: string, body: string)
    requires IsSign(sign) && IsDigitBody(body)
    ensures ParseNumeral(sign + body) == Some(Signed(sign, BodyValue(body)))
  {
    var t := sign + body;
    var v := BodyValue(body);
    if sign == [] {
      assert t == body && IsDigit(t[0]);
      assert ParseNumeral(t) == Some(v as int);
    } else {
      assert t[0] == sign[0] && t[1..] == body;
      assert t[0] == '-' <==> sign == "-";
      assert ParseNumeral(t) == Some(if t[0] == '-' then -(v as int) else v);
    }
  }

  /** Every string `int()` accepts is whitespace, a sign or none, a digit
      body, and whitespace again, and its value is the body's under the
      sign. With ParseBody, the converse, this is all `int()` accepts. */
  lemma {:induction false} ParseIntParts(s: string)
      returns (w1: string, sign: string, body: string, w2: string)
    requires ParseInt(s).Some?
    ensures s == w1 + sign + body + w2
    ensures AllBlank(IntSpace, w1) && AllBlank(IntSpace, w2)
    ensures IsSign(sign) && IsDigitBody(body)
    ensures ParseInt(s) == Some(Signed(sign, BodyValue(body)))
  {
    var i, j := TrimStart(IntSpace, s), TrimStop(IntSpace, s);
    var t := Trim(IntSpace, s);
    w1, w2 := s[..i], s[j..];
    sign, body := NumeralParts(t);
    Regroup(s, i, j, sign, body);
  }

  /** Cutting `s` around an infix that is itself two parts. */
  lemma {:induction false} Regroup(s: string, i: nat, j: nat, a: string, b: string)
    requires i <= j <= |s| && s[i..j] == a + b
    ensures s == s[..i] + a + b + s[j..]
  {
    assert s == s[..i] + s[i..j] + s[j..];
  }

  /** Whitespace, an optional sign, a digit body and whitespace parse to
      the body's value under the sign. */
  lemma {:induction false} ParseBody(w1: string, sign: string, body: string, w2: string)
    requires AllBlank(IntSpace, w1) && AllBlank(IntSpace, w2)
    requires IsSign(sign) && IsDigitBody(body)
    ensures ParseInt(w1 + sign + body + w2) == Some(Signed(sign, BodyValue(body)))
  {
    var t := sign + body;
    assert w1 + sign + body + w2 == w1 + t + w2;
    assert t[|t| - 1] == body[|body| - 1];
    assert t[0] == if sign == [] then body[0] else sign[0];
    TrimPadded(IntSpace, w1, t, w2);
    NumeralOfParts(sign, body);
  }

  /** A sign is accepted only before the digits: whatever precedes a `+`
      or `-` in a string `int()` accepts is whitespace. So `int("2-3")`
      raises. */
  lemma {:induction false} SignComesFirst(s: string, k: nat)
    requires k < |s| && (s[k] == '+' || s[k] == '-')
    ensures ParseInt(s).Some? ==> AllBlank(IntSpace, s[..k])
  {
    if ParseInt(s).Some? {
      var w1, sign, body, w2 := ParseIntParts(s);
      SignPosition(w1, sign, body, w2, k);
    }
  }

  /** A `-` in a string `int()` accepts can only be its sign, so the value
      is at most 0. */
  lemma {:induction false} MinusMeansNonPositive(s: string, k: nat)
    requires k < |s| && s[k] == '-'
    ensures ParseInt(s).Some? ==> ParseInt(s).value <= 0
  {
    if ParseInt(s).Some? {
      var w1, sign, body, w2 := ParseIntParts(s);
      SignPosition(w1, sign, body, w2, k);
      assert k == |w1|;
      assert s[|w1| + |sign|] == body[0] && IsDigit(body[0]);
      assert sign == "-";
    }
  }

  /** In whitespace, a sign, a digit body and whitespace, the only place
      for a `+` or `-` is the sign, right after the leading whitespace. */
  lemma {:induction false} SignPosition(w1: string, sign: string, body: string, w2: string, k: nat)
    requires AllBlank(IntSpace, w1) && AllBlank(IntSpace, w2)
    requires IsSign(sign) && IsDigitBody(body)
    requires k < |w1 + sign + body + w2|
    requires (w1 + sign + body + w2)[k] == '+' || (w1 + sign + body + w2)[k] == '-'
    ensures (w1 + sign + body + w2)[..k] == w1
  {
    var s := w1 + sign + body + w2;
    var a, b := |w1| + |sign|, |w1| + |sign| + |body|;
    forall j | 0 <= j < |w1| ensures IsIntSpace(s[j]) {
      assert s[j] == w1[j];
    }
    forall j | a <= j < b ensures s[j] != '+' && s[j] != '-' {
      assert s[j] == body[j - a];
    }
    forall j | b <= j < |s| ensures IsIntSpace(s[j]) {
      assert s[j] == w2[j - b];
    }
    assert s[..|w1|] == w1;
  }

  /** `int()` accepts underscores between digits: `int("1_0") == 10`. */
  lemma {:induction false} UnderscoreGrouping()
    ensures ParseInt("1_0") == Some(10)
  {
    var s := "1_0";
    assert IsDigitBody(s);
    assert Remove(s, '_') == "10" by {
      assert s == "1" + "_0" && "_0" == "_" + "0";
      RemoveAppend("1", "_0", '_');
      RemoveAppend("_", "0", '_');
      RemoveAbsent("1", '_');
      RemoveAbsent("0", '_');
      assert "_"[1..] == [];
    }
    assert DigitsValue("10") == 10 by {
      assert "10"[..1] == "1" && "1"[..0] == [];
    }
    assert [] + [] + s + [] == s;
    ParseBody([], [], s, []);
  }

  lemma {:induction false} DigitsAreBody(s: string)
    requires |s| >= 1 && AllDigits(s)
    ensures IsDigitBody(s)
    ensures BodyValue(s) == DigitsValue(s)
  {
    assert forall k :: 0 <= k < |s| ==> s[k] != '_';
    RemoveAbsent(s, '_');
  }

  lemma {:induction false} NoWhitespaceStrips(s: string)
    requires |s| >= 1 && !IsWhitespace(s[0]) && !IsWhitespace(s[|s| - 1])
    ensures Strip(s) == s
  {
    assert [] + s + [] == s;
    StripPadded([], s, []);
  }

  /** A digit string, whitespace around it, parses to the number it
      denotes. */
  lemma {:induction false} ParseDigits(d: string, w1: string, w2: string)
    requires |d| >= 1 && AllDigits(d)
    requires AllBlank(IntSpace, w1) && AllBlank(IntSpace, w2)
    ensures ParseInt(w1 + d + w2) == Some(DigitsValue(d))
  {
    DigitsAreBody(d);
    assert w1 + [] + d + w2 == w1 + d + w2;
    ParseBody(w1, [], d, w2);
  }

  /** A sign and a digit string, whitespace around them, parse to the
      signed number. */
  lemma {:induction false} ParseSignedDigits(d: string, sign: char, w1: string, w2: string)
    requires |d| >= 1 && AllDigits(d)
    requires AllBlank(IntSpace, w1) && AllBlank(IntSpace, w2)
    requires sign == '+' || sign == '-'
    ensures ParseInt(w1 + [sign] + d + w2)
         == Some(if sign == '-' then -(DigitsValue(d) as int) else DigitsValue(d))
  {
    DigitsAreBody(d);
    assert IsSign([sign]);
    ParseBody(w1, [sign], d, w2);
  }

  /** `int(str(n)) == n`, also with surrounding whitespace: the numerals
      the program itself prints parse back to their value. */
  lemma {:induction false} ParseIntRoundTrip(n: nat, w1: string, w2: string)
    requires AllBlank(IntSpace, w1) && AllBlank(IntSpace, w2)
    ensures ParseInt(w1 + NatToString(n) + w2) == Some(n)
  {
    ParseDigits(NatToString(n), w1, w2);
  }

  /** The same with an explicit sign: `int('-' + str(n)) == -n` and
      `int('+' + str(n)) == n`. */
  lemma {:induction false} ParseSignedRoundTrip(n: nat, sign: char, w1: string, w2: string)
    requires AllBlank(IntSpace, w1) && AllBlank(IntSpace, w2)
    requires sign == '+' || sign == '-'
    ensures ParseInt(w1 + [sign] + NatToString(n) + w2)
         == Some(if sign == '-' then -(n as int) else n)
  {
    ParseSignedDigits(NatToString(n), sign, w1, w2);
  }
}
