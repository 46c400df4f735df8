/** Small text utilities shared by the server model: an Option type, Python's
    `int()` on a decimal string, `str()` of a natural number, `str.split` on one
    character, `str.replace` and ASCII lower-casing. */
module Text {

  datatype Option<T> = None | Some(value: T)

  predicate IsDigit(c: char) { '0' <= c <= '9' }

  predicate AllDigits(s: string) { forall i :: 0 <= i < |s| ==> IsDigit(s[i]) }

  function DigitValue(c: char): (d: nat)
    requires IsDigit(c)
    ensures d < 10
  {
    (c as int) - ('0' as int)
  }

  function DigitChar(d: nat): (c: char)
    requires d < 10
    ensures IsDigit(c) && DigitValue(c) == d
  {
    (('0' as int) + d) as char
  }

  /** The value of a string of decimal digits, most significant first. */
  function DigitsValue(s: string): nat
    requires AllDigits(s)
  {
    if s == [] then 0 else 10 * DigitsValue(s[..|s| - 1]) + DigitValue(s[|s| - 1])
  }

  /** Python's `str(n)` for a natural number. */
  function Decimal(n: nat): (s: string)
    ensures |s| > 0 && AllDigits(s)
  {
    if n < 10 then [DigitChar(n)] else Decimal(n / 10) + [DigitChar(n % 10)]
  }

  /** The whitespace `int()` strips: the ASCII whitespace characters. */
  predicate IsSpace(c: char)
  {
    c == ' ' || c == '\t' || c == '\n' || c == '\r' || c == '\U{0B}' || c == '\U{0C}'
  }

  function StripLeft(s: string): (r: string)
    ensures |r| <= |s| && forall i :: 0 <= i < |r| ==> r[i] == s[|s| - |r| + i]
    ensures r == [] || !IsSpace(r[0])
  {
    if s != [] && IsSpace(s[0]) then StripLeft(s[1..]) else s
  }

  function StripRight(s: string): (r: string)
    ensures r <= s
    ensures r == [] || !IsSpace(r[|r| - 1])
  {
    if s != [] && IsSpace(s[|s| - 1]) then StripRight(s[..|s| - 1]) else s
  }

  function Strip(s: string): string { StripRight(StripLeft(s)) }

  /** Digits, possibly grouped by single underscores, as `int()` accepts them. */
  predicate DigitGroups(s: string)
  {
    && |s| > 0
    && IsDigit(s[0]) && IsDigit(s[|s| - 1])
    && (forall i :: 0 <= i < |s| ==> IsDigit(s[i]) || s[i] == '_')
    && (forall i :: 0 <= i < |s| - 1 ==> s[i] == '_' ==> s[i + 1] != '_')
  }

  function DropUnderscores(s: string): (r: string)
    ensures |r| <= |s|
    ensures (forall i :: 0 <= i < |s| ==> IsDigit(s[i]) || s[i] == '_') ==> AllDigits(r)
  {
    if s == [] then []
    else if s[0] == '_' then DropUnderscores(s[1..])
    else [s[0]] + DropUnderscores(s[1..])
  }

  /** The default limit on the digits `int()` converts from a decimal string
      (`sys.int_info.default_max_str_digits`, Python 3.11 and later). */
  const INT_MAX_STR_DIGITS := 4300

  /** The unsigned part of `int(s)`: digit groups of at most
      INT_MAX_STR_DIGITS digits, underscores not counted. */
  function DigitsBody(body: string): Option<nat>
  {
    if DigitGroups(body) && |DropUnderscores(body)| <= INT_MAX_STR_DIGITS then
      Some(DigitsValue(DropUnderscores(body)))
    else None
  }

  /** `int()` on text already stripped of whitespace: an optional sign, then
      the digit groups of `DigitsBody`. */
  function ParseSigned(t: string): Option<int>
  {
    var negative := |t| > 0 && t[0] == '-';
    var v := DigitsBody(if |t| > 0 && (t[0] == '+' || t[0] == '-') then t[1..] else t);
    if v.None? then None else Some(if negative then -(v.value as int) else v.value as int)
  }

  /** Python's `int(s)` with base 10: surrounding whitespace is ignored.
      `None` stands for the `ValueError` it raises. */
  function ParseInt(s: string): Option<int>
  {
    ParseSigned(Strip(s))
  }

  lemma {:induction false} DigitsValueOfDecimal(n: nat)
    ensures DigitsValue(Decimal(n)) == n
  {
    if n >= 10 {
      var s := Decimal(n);
      assert s[..|s| - 1] == Decimal(n / 10);
      DigitsValueOfDecimal(n / 10);
    }
  }

  lemma {:induction false} DropUnderscoresOfDigits(s: string)
    requires AllDigits(s)
    ensures DropUnderscores(s) == s
  {
    if s != [] {
      DropUnderscoresOfDigits(s[1..]);
    }
  }

  lemma StripLeftKeeps(s: string)
    requires s == [] || !IsSpace(s[0])
    ensures StripLeft(s) == s
  {
  }

  lemma StripRightKeeps(s: string)
    requires s == [] || !IsSpace(s[|s| - 1])
    ensures StripRight(s) == s
  {
  }

  lemma StripDigits(s: string)
    requires AllDigits(s) && |s| > 0
    ensures Strip(s) == s
  {
    assert IsDigit(s[0]) && IsDigit(s[|s| - 1]);
    StripLeftKeeps(s);
    StripRightKeeps(s);
  }

  lemma DigitsBodyOfDigits(s: string)
    requires AllDigits(s) && |s| > 0
    ensures DigitsBody(s) == if |s| <= INT_MAX_STR_DIGITS then Some(DigitsValue(s)) else None
  {
    DropUnderscoresOfDigits(s);
    assert DigitGroups(s);
  }

  lemma ParseSignedUnsigned(t: string)
    requires |t| > 0 && IsDigit(t[0])
    ensures ParseSigned(t) == (var v := DigitsBody(t); if v.None? then None else Some(v.value as int))
  {
  }

  /** An unsigned digit string is read as its own value, within the limit. */
  lemma ParseIntOfDigits(s: string)
    requires AllDigits(s) && |s| > 0
    ensures ParseInt(s) == if |s| <= INT_MAX_STR_DIGITS then Some(DigitsValue(s)) else None
  {
    StripDigits(s);
    ParseSignedUnsigned(s);
    DigitsBodyOfDigits(s);
  }

  /** `int(str(n)) == n`: the decimal rendering parses back to the same
      number, when it is within the digit limit. */
  lemma ParseDecimal(n: nat)
    requires |Decimal(n)| <= INT_MAX_STR_DIGITS
    ensures ParseInt(Decimal(n)) == Some(n)
  {
    ParseIntOfDigits(Decimal(n));
    DigitsValueOfDecimal(n);
  }

  /** A digit string longer than the limit is rejected, whatever its value. */
  lemma ParseIntDigitLimit(s: string)
    requires AllDigits(s) && |s| > INT_MAX_STR_DIGITS
    ensures ParseInt(s) == None
  {
    ParseIntOfDigits(s);
  }

  /** Python's `s.split(c)`: the pieces between occurrences of `c`. */
  function Split(s: string, c: char): (r: seq<string>)
    ensures |r| > 0
    ensures forall k :: 0 <= k < |r| ==> c !in r[k]
  {
    if s == [] then [[]]
    else
      var rest := Split(s[1..], c);
      if s[0] == c then [[]] + rest else [[s[0]] + rest[0]] + rest[1..]
  }

  /** `c.join(pieces)`, the inverse of `Split`. */
  function Join(pieces: seq<string>, c: char): string
  {
    if pieces == [] then [] else if |pieces| == 1 then pieces[0]
    else pieces[0] + [c] + Join(pieces[1..], c)
  }

  lemma {:induction false} JoinSplit(s: string, c: char)
    ensures Join(Split(s, c), c) == s
  {
    if s != [] {
      JoinSplit(s[1..], c);
      var rest := Split(s[1..], c);
      if s[0] == c {
        assert Split(s, c)[1..] == rest;
      } else if |rest| > 1 {
        assert Split(s, c)[1..] == rest[1..];
      }
    }
  }

  lemma {:induction false} SplitNoSeparator(s: string, c: char)
    requires c !in s
    ensures Split(s, c) == [s]
  {
    if s != [] {
      SplitNoSeparator(s[1..], c);
      assert [s[0]] + s[1..] == s;
    }
  }

  lemma {:induction false} SplitAtSeparator(x: string, y: string, c: char)
    requires c !in x
    ensures Split(x + [c] + y, c) == [x] + Split(y, c)
  {
    if x != [] {
      assert (x + [c] + y)[1..] == x[1..] + [c] + y;
      SplitAtSeparator(x[1..], y, c);
      assert [x[0]] + x[1..] == x;
    } else {
      assert (x + [c] + y)[1..] == y;
    }
  }

  /** The first piece of `s.split(c)` is the longest prefix of `s` free of `c`. */
  lemma {:induction false} SplitFirst(s: string, c: char)
    ensures Split(s, c)[0] <= s
    ensures |Split(s, c)[0]| < |s| ==> s[|Split(s, c)[0]|] == c
  {
    if s != [] && s[0] != c {
      SplitFirst(s[1..], c);
    }
  }

  /** Python's `s.replace(pat, "")`: drops the occurrences of `pat` found left to right. */
  function RemoveAll(s: string, pat: string): (r: string)
    requires |pat| > 0
    ensures |r| <= |s|
    decreases |s|
  {
    if |s| < |pat| then s
    else if s[..|pat|] == pat then RemoveAll(s[|pat|..], pat)
    else [s[0]] + RemoveAll(s[1..], pat)
  }

  lemma {:induction false} RemoveAllAbsent(s: string, pat: string)
    requires |pat| > 0 && pat[0] !in s
    ensures RemoveAll(s, pat) == s
    decreases |s|
  {
    if |s| >= |pat| {
      assert s[..|pat|][0] == s[0];
      RemoveAllAbsent(s[1..], pat);
    }
  }

  /** Python's `s.replace(a, b)` for single characters. */
  function ReplaceChar(s: string, a: char, b: char): (r: string)
    ensures |r| == |s|
    ensures forall i :: 0 <= i < |s| ==> r[i] == (if s[i] == a then b else s[i])
  {
    seq(|s|, i requires 0 <= i < |s| => if s[i] == a then b else s[i])
  }

  function LowerChar(c: char): char
  {
    if 'A' <= c <= 'Z' then ((c as int) + 32) as char else c
  }

  /** `s.lower()` restricted to ASCII letters. */
  function Lower(s: string): (r: string)
    ensures |r| == |s|
    ensures forall i :: 0 <= i < |s| ==> r[i] == LowerChar(s[i])
  {
    seq(|s|, i requires 0 <= i < |s| => LowerChar(s[i]))
  }

  predicate EndsWith(s: string, suffix: string)
  {
    |suffix| <= |s| && s[|s| - |suffix|..] == suffix
  }
}
