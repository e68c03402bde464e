/** The few string operations of Python that the sync pipeline uses, over ASCII. */
module Text {
  import opened Base

  predicate IsDigit(c: char) {
    '0' <= c <= '9'
  }

  predicate AllDigits(s: string) {
    forall i :: 0 <= i < |s| ==> IsDigit(s[i])
  }

  /** The ASCII characters `str.strip()` removes: tab, newline, vertical tab, form feed,
      return, the four separators U+001C to U+001F, and space. */
  predicate IsSpace(c: char) {
    c == '\t' || c == '\n' || c == '\U{0B}' || c == '\U{0C}' || c == '\r' ||
    c == '\U{1C}' || c == '\U{1D}' || c == '\U{1E}' || c == '\U{1F}' || c == ' '
  }

  /** Drops leading whitespace. */
  function StripLeft(s: string): (r: string)
    ensures |r| <= |s| && r == s[|s| - |r|..]
    ensures forall i :: 0 <= i < |s| - |r| ==> IsSpace(s[i])
    ensures r == [] || !IsSpace(r[0])
  {
    if s != [] && IsSpace(s[0]) then
      var r := StripLeft(s[1..]);
      assert s[1..][|s| - 1 - |r|..] == s[|s| - |r|..];
      assert forall i :: 1 <= i < |s| - |r| ==> s[i] == s[1..][i - 1];
      r
    else s
  }

  /** Drops trailing whitespace. */
  function StripRight(s: string): (r: string)
    ensures |r| <= |s| && r == s[..|r|]
    ensures forall i :: |r| <= i < |s| ==> IsSpace(s[i])
    ensures r == [] || !IsSpace(r[|r| - 1])
  {
    if s != [] && IsSpace(s[|s| - 1]) then
      var r := StripRight(s[..|s| - 1]);
      assert s[..|s| - 1][..|r|] == s[..|r|];
      assert forall i :: |r| <= i < |s| - 1 ==> s[i] == s[..|s| - 1][i];
      r
    else s
  }

  /** `s[a..b]` is `s` with its leading and trailing whitespace cut off: everything
      outside is whitespace, and a non-empty middle starts and ends with a non-space. */
  predicate Trimmed(s: string, a: int, b: int) {
    0 <= a <= b <= |s| &&
    (forall i :: 0 <= i < a ==> IsSpace(s[i])) &&
    (forall i :: b <= i < |s| ==> IsSpace(s[i])) &&
    (a == b || (!IsSpace(s[a]) && !IsSpace(s[b - 1])))
  }

  /** Python's `s.strip()`. */
  function Strip(s: string): string {
    StripRight(StripLeft(s))
  }

  /** `Strip(s)` is the slice of `s` between its leading and its trailing whitespace,
      empty exactly when `s` is blank. */
  lemma StripTrims(s: string)
    ensures exists a, b :: Trimmed(s, a, b) && Strip(s) == s[a..b]
    ensures Strip(s) == [] <==> forall i :: 0 <= i < |s| ==> IsSpace(s[i])
  {
    var a, b := StripBounds(s);
  }

  /** Stripping adds no character: one absent from the string is absent from the result. */
  lemma StripKeepsOut(s: string, c: char)
    ensures c !in s ==> c !in Strip(s)
  {
    var a, b := StripBounds(s);
    if c in Strip(s) {
      var k :| 0 <= k < |Strip(s)| && Strip(s)[k] == c;
      assert s[a + k] == c;
    }
  }

  /** The bounds of the slice `Strip(s)` keeps. */
  lemma StripBounds(s: string) returns (a: nat, b: nat)
    ensures Trimmed(s, a, b) && Strip(s) == s[a..b]
  {
    a := LeftBound(s);
    var n := RightBound(s[a..]);
    b := a + n;
    TrimmedParts(s, a, n, b);
  }

  /** `StripLeft(s)` is `s[a..]` for the first non-space position `a`. */
  lemma LeftBound(s: string) returns (a: nat)
    ensures a <= |s| && StripLeft(s) == s[a..]
    ensures forall i :: 0 <= i < a ==> IsSpace(s[i])
    ensures a == |s| || !IsSpace(s[a])
  {
    a := |s| - |StripLeft(s)|;
  }

  /** `StripRight(t)` is `t[..n]` for the position `n` after the last non-space. */
  lemma RightBound(t: string) returns (n: nat)
    ensures n <= |t| && StripRight(t) == t[..n]
    ensures forall i :: n <= i < |t| ==> IsSpace(t[i])
    ensures n == 0 || !IsSpace(t[n - 1])
  {
    n := |StripRight(t)|;
  }

  /** Whitespace before `a` and after `a + n` in `s` makes `s[a..b]` its trimmed middle. */
  lemma TrimmedParts(s: string, a: nat, n: nat, b: nat)
    requires a <= |s| && n <= |s| - a && b == a + n
    requires forall i :: 0 <= i < a ==> IsSpace(s[i])
    requires a == |s| || !IsSpace(s[a])
    requires forall i :: n <= i < |s| - a ==> IsSpace(s[a..][i])
    requires n == 0 || !IsSpace(s[a..][n - 1])
    ensures Trimmed(s, a, b) && s[a..][..n] == s[a..b]
  {
    assert forall i :: b <= i < |s| ==> s[i] == s[a..][i - a];
  }

  /** A string without whitespace at either end is its own strip. */
  lemma StripUnpadded(s: string)
    requires s == [] || (!IsSpace(s[0]) && !IsSpace(s[|s| - 1]))
    ensures Strip(s) == s
  {
    var a, b := StripBounds(s);
    if s != [] {
      assert a == 0 && b == |s|;
    }
  }

  /** Whitespace in front of a string does not change its strip. */
  lemma {:induction false} StripSkipsLeadingSpace(s: string, a: nat)
    requires a <= |s| && forall i :: 0 <= i < a ==> IsSpace(s[i])
    ensures Strip(s[a..]) == Strip(s)
    decreases a
  {
    if a > 0 {
      var t := s[1..];
      StripDropsFirst(s, t);
      ShiftedSpace(s, a, t);
      StripSkipsLeadingSpace(t, a - 1);
    }
  }

  /** One leading whitespace character does not change the strip. */
  lemma StripDropsFirst(s: string, t: string)
    requires s != [] && IsSpace(s[0]) && t == s[1..]
    ensures Strip(t) == Strip(s)
  {
  }

  /** Dropping the first character shifts the leading whitespace by one. */
  lemma ShiftedSpace(s: string, a: nat, t: string)
    requires 0 < a <= |s| && forall i :: 0 <= i < a ==> IsSpace(s[i])
    requires t == s[1..]
    ensures a - 1 <= |t| && forall i :: 0 <= i < a - 1 ==> IsSpace(t[i])
    ensures t[a - 1..] == s[a..]
  {
    assert forall i :: 0 <= i < a - 1 ==> t[i] == s[i + 1];
  }

  /** Dropping trailing whitespace from a string does not change its strip. */
  lemma StripSkipsTrailingSpace(s: string, b: nat)
    requires b <= |s| && forall i :: b <= i < |s| ==> IsSpace(s[i])
    ensures Strip(s[..b]) == Strip(s)
  {
    if a :| 0 <= a < b && !IsSpace(s[a]) && forall i :: 0 <= i < a ==> IsSpace(s[i]) {
      StripTrailingAfterText(s, a, b);
    } else {
      BlankPrefix(s, b);
      StripTrailingOfBlank(s, b);
    }
  }

  /** The case of `StripSkipsTrailingSpace` where the text starts at `a`, before `b`. */
  lemma StripTrailingAfterText(s: string, a: nat, b: nat)
    requires a < b <= |s| && !IsSpace(s[a]) && forall i :: 0 <= i < a ==> IsSpace(s[i])
    requires forall i :: b <= i < |s| ==> IsSpace(s[i])
    ensures Strip(s[..b]) == Strip(s)
  {
    var head, rest, mid := TrailingParts(s, a, b);
    StripOfParts(s, head, rest, mid);
  }

  /** The left strips of `s` and `s[..b]`, which have the same right strip. */
  lemma TrailingParts(s: string, a: nat, b: nat) returns (head: string, rest: string, mid: string)
    requires a < b <= |s| && !IsSpace(s[a]) && forall i :: 0 <= i < a ==> IsSpace(s[i])
    requires forall i :: b <= i < |s| ==> IsSpace(s[i])
    ensures head == s[..b] && StripLeft(s) == rest && StripLeft(head) == mid
    ensures StripRight(mid) == StripRight(rest)
  {
    head := s[..b];
    rest := s[a..];
    mid := rest[..b - a];
    StripLeftStopsAt(s, a);
    LeftOfPrefix(s, a, b, head, rest);
    ShiftedTrailingSpace(s, a, b, rest);
    StripRightSkipsSpace(rest, b - a);
  }

  /** Whitespace after `b` in `s` is whitespace after `b - a` in `s[a..]`. */
  lemma ShiftedTrailingSpace(s: string, a: nat, b: nat, rest: string)
    requires a <= b <= |s| && forall i :: b <= i < |s| ==> IsSpace(s[i])
    requires rest == s[a..]
    ensures b - a <= |rest| && forall i :: b - a <= i < |rest| ==> IsSpace(rest[i])
  {
    assert forall i :: b - a <= i < |rest| ==> rest[i] == s[a + i];
  }

  /** The left strip of `s[..b]` is the text of `s` from `a` cut at `b`. */
  lemma LeftOfPrefix(s: string, a: nat, b: nat, head: string, rest: string)
    requires a < b <= |s| && !IsSpace(s[a]) && forall i :: 0 <= i < a ==> IsSpace(s[i])
    requires head == s[..b] && rest == s[a..]
    ensures StripLeft(head) == rest[..b - a]
  {
    PrefixKeepsText(s, a, b, head);
    StripLeftStopsAt(head, a);
    SliceOfPrefix(s, a, b, head, rest);
  }

  /** Strips agree when the left strips end in strings with the same right strip. */
  lemma StripOfParts(s: string, head: string, rest: string, mid: string)
    requires StripLeft(s) == rest && StripLeft(head) == mid
    requires StripRight(mid) == StripRight(rest)
    ensures Strip(head) == Strip(s)
  {
  }

  /** The prefix `s[..b]` still has its first non-space at `a`. */
  lemma PrefixKeepsText(s: string, a: nat, b: nat, head: string)
    requires a < b <= |s| && !IsSpace(s[a]) && forall i :: 0 <= i < a ==> IsSpace(s[i])
    requires head == s[..b]
    ensures a < |head| && !IsSpace(head[a]) && forall i :: 0 <= i < a ==> IsSpace(head[i])
  {
  }

  /** Cutting `s` at `b` and then dropping `a` characters is dropping and then cutting. */
  lemma SliceOfPrefix(s: string, a: nat, b: nat, head: string, rest: string)
    requires a <= b <= |s| && head == s[..b] && rest == s[a..]
    ensures head[a..] == rest[..b - a]
  {
  }

  /** The case of `StripSkipsTrailingSpace` where the whole string is whitespace. */
  lemma StripTrailingOfBlank(s: string, b: nat)
    requires b <= |s| && forall i :: 0 <= i < b ==> IsSpace(s[i])
    requires forall i :: b <= i < |s| ==> IsSpace(s[i])
    ensures Strip(s[..b]) == Strip(s) == []
  {
    assert forall i :: 0 <= i < |s| ==> IsSpace(s[i]);
    StripTrims(s);
    StripTrims(s[..b]);
  }

  /** Whitespace around `s[a..b]` inside `s[c..d]` does not change the strip. */
  lemma StripSlice(s: string, c: nat, a: nat, b: nat, d: nat, outer: string, inner: string)
    requires c <= a <= b <= d <= |s|
    requires forall i :: c <= i < a ==> IsSpace(s[i])
    requires forall i :: b <= i < d ==> IsSpace(s[i])
    requires |outer| == d - c && forall i :: 0 <= i < |outer| ==> outer[i] == s[c + i]
    requires |inner| == b - a && forall i :: 0 <= i < |inner| ==> inner[i] == s[a + i]
    ensures Strip(outer) == Strip(inner)
  {
    var u := s[a..d];
    assert outer[a - c..] == u;
    assert u[..b - a] == inner;
    StripDropsLeading(outer, a - c, u);
    StripDropsTrailing(u, b - a, inner);
  }

  /** `StripSkipsLeadingSpace` with the shortened string named. */
  lemma StripDropsLeading(s: string, a: nat, r: string)
    requires a <= |s| && forall i :: 0 <= i < a ==> IsSpace(s[i])
    requires s[a..] == r
    ensures Strip(r) == Strip(s)
  {
    StripSkipsLeadingSpace(s, a);
  }

  /** `StripSkipsTrailingSpace` with the shortened string named. */
  lemma StripDropsTrailing(s: string, b: nat, r: string)
    requires b <= |s| && forall i :: b <= i < |s| ==> IsSpace(s[i])
    requires s[..b] == r
    ensures Strip(r) == Strip(s)
  {
    StripSkipsTrailingSpace(s, b);
  }

  /** Without a first non-space before `b`, everything before `b` is whitespace. */
  lemma BlankPrefix(s: string, b: nat)
    requires b <= |s|
    requires !exists a :: 0 <= a < b && !IsSpace(s[a]) && forall i :: 0 <= i < a ==> IsSpace(s[i])
    ensures forall i :: 0 <= i < b ==> IsSpace(s[i])
  {
    var k := 0;
    while k < b
      invariant k <= b && forall i :: 0 <= i < k ==> IsSpace(s[i])
    {
      k := k + 1;
    }
  }

  /** `StripLeft` drops exactly the whitespace before the first non-space at `a`. */
  lemma {:induction false} StripLeftStopsAt(s: string, a: nat)
    requires a < |s| && !IsSpace(s[a]) && forall i :: 0 <= i < a ==> IsSpace(s[i])
    ensures StripLeft(s) == s[a..]
    decreases a
  {
    if a > 0 {
      assert s[1..][a - 1..] == s[a..];
      StripLeftStopsAt(s[1..], a - 1);
    }
  }

  /** `StripRight` ignores whitespace after position `b`. */
  lemma {:induction false} StripRightSkipsSpace(s: string, b: nat)
    requires b <= |s| && forall i :: b <= i < |s| ==> IsSpace(s[i])
    ensures StripRight(s[..b]) == StripRight(s)
    decreases |s| - b
  {
    if b < |s| {
      assert s[..|s| - 1][..b] == s[..b];
      StripRightSkipsSpace(s[..|s| - 1], b);
    } else {
      assert s[..b] == s;
    }
  }

  /** ASCII lower-casing of one character. */
  function LowerChar(c: char): char {
    if 'A' <= c <= 'Z' then (c as int + 32) as char else c
  }

  /** Python's `s.lower()` restricted to ASCII letters. */
  function Lower(s: string): (r: string)
    ensures |r| == |s|
    ensures forall i :: 0 <= i < |s| ==> r[i] == LowerChar(s[i])
  {
    seq(|s|, i requires 0 <= i < |s| => LowerChar(s[i]))
  }

  /** `s` begins at position `j` of `hay`. */
  predicate OccursAt(hay: string, j: int, s: string) {
    0 <= j && j + |s| <= |hay| && hay[j..j + |s|] == s
  }

  /** `needle` occurs in `hay` at position `start` or later. */
  function ContainsFrom(hay: string, needle: string, start: nat): (b: bool)
    requires start <= |hay|
    decreases |hay| - start
    ensures b <==> exists i :: start <= i && OccursAt(hay, i, needle)
  {
    if start + |needle| > |hay| then false
    else if hay[start..start + |needle|] == needle then
      assert OccursAt(hay, start, needle);
      true
    else ContainsFrom(hay, needle, start + 1)
  }

  /** Python's `needle in hay` on strings. */
  function Contains(hay: string, needle: string): (b: bool)
    ensures b <==> exists i :: OccursAt(hay, i, needle)
  {
    ContainsFrom(hay, needle, 0)
  }

  function DigitValue(c: char): (d: nat)
    requires IsDigit(c)
    ensures d < 10
  {
    c as int - '0' as int
  }

  function DigitChar(d: nat): (c: char)
    requires d < 10
    ensures IsDigit(c) && DigitValue(c) == d
  {
    (d + '0' as int) as char
  }

  /** Decimal digits of a natural number, most significant first. */
  function NatToString(n: nat): (s: string)
    decreases n
    ensures |s| > 0 && AllDigits(s)
  {
    if n < 10 then [DigitChar(n)] else NatToString(n / 10) + [DigitChar(n % 10)]
  }

  /** Python's `str(n)` for an integer. */
  function IntToString(n: int): (s: string)
    ensures |s| > 0
    ensures n < 0 <==> s[0] == '-'
    ensures forall i :: 0 < i < |s| ==> IsDigit(s[i])
  {
    if n < 0 then "-" + NatToString(-n) else NatToString(n)
  }

  /** The number a string of decimal digits denotes. */
  function DigitsValue(s: string): nat
    requires AllDigits(s)
    decreases |s|
  {
    if s == [] then 0 else DigitsValue(s[..|s| - 1]) * 10 + DigitValue(s[|s| - 1])
  }

  /** What `int()` accepts once stripped: an optional sign and at least one decimal digit. */
  predicate IsIntLiteral(s: string) {
    var digits := if |s| > 0 && (s[0] == '-' || s[0] == '+') then s[1..] else s;
    |digits| > 0 && AllDigits(digits)
  }

  /** Python's `int(s)` on an already stripped string: an optional sign followed by
      at least one decimal digit; anything else raises, here `None`. */
  function ParseInt(s: string): (r: Option<int>)
    ensures r.Some? <==> IsIntLiteral(s)
    ensures r.Some? && s[0] == '-' ==> r.value == 0 - DigitsValue(s[1..])
    ensures r.Some? && s[0] == '+' ==> r.value == DigitsValue(s[1..])
    ensures r.Some? && IsDigit(s[0]) ==> r.value == DigitsValue(s)
  {
    if |s| > 0 && (s[0] == '-' || s[0] == '+') then
      if |s| > 1 && AllDigits(s[1..]) then
        var v: int := DigitsValue(s[1..]);
        Some(if s[0] == '-' then -v else v)
      else
        None
    else if |s| > 0 && AllDigits(s) then
      Some(DigitsValue(s))
    else
      None
  }

  lemma {:induction false} NatToStringRoundTrip(n: nat)
    ensures DigitsValue(NatToString(n)) == n
  {
    var s := NatToString(n);
    if n >= 10 {
      NatToStringRoundTrip(n / 10);
      assert s[..|s| - 1] == NatToString(n / 10);
    }
  }

  /** `int(str(n)) == n`: printing an integer and parsing it back is the identity. */
  lemma IntToStringRoundTrip(n: int)
    ensures ParseInt(IntToString(n)) == Some(n)
  {
    if n < 0 {
      NatToStringRoundTrip(-n);
      assert IntToString(n)[1..] == NatToString(-n);
    } else {
      NatToStringRoundTrip(n);
    }
  }

  /** The digits `str()` writes for a natural number: no leading zero except in "0". */
  predicate IsCanonicalDigits(d: string) {
    |d| > 0 && AllDigits(d) && (d[0] == '0' ==> |d| == 1)
  }

  /** The strings `str()` writes for an integer: canonical digits, with a `-` before
      a non-zero value and no `+`. */
  predicate IsCanonicalInt(s: string) {
    IsCanonicalDigits(s) || (|s| > 1 && s[0] == '-' && s[1] != '0' && IsCanonicalDigits(s[1..]))
  }

  lemma {:induction false} NatToStringCanonical(n: nat)
    ensures IsCanonicalDigits(NatToString(n))
    ensures NatToString(n)[0] == '0' <==> n == 0
  {
    if n >= 10 {
      NatToStringCanonical(n / 10);
      assert NatToString(n)[0] == NatToString(n / 10)[0];
    }
  }

  /** `str(n)` is always in canonical form. */
  lemma IntToStringCanonical(n: int)
    ensures IsCanonicalInt(IntToString(n))
  {
    if n < 0 {
      NatToStringCanonical(-n);
      assert IntToString(n)[1..] == NatToString(-n);
    } else {
      NatToStringCanonical(n);
    }
  }

  /** Digits that do not start with `0` denote a positive number. */
  lemma {:induction false} LeadingNonZeroPositive(d: string)
    requires |d| > 0 && AllDigits(d) && d[0] != '0'
    ensures DigitsValue(d) > 0
  {
    if |d| > 1 {
      var init := d[..|d| - 1];
      assert init[0] == d[0];
      LeadingNonZeroPositive(init);
    }
  }

  lemma {:induction false} CanonicalDigitsRoundTrip(d: string)
    requires IsCanonicalDigits(d)
    ensures NatToString(DigitsValue(d)) == d
  {
    var init := d[..|d| - 1];
    if |d| > 1 {
      assert init[0] == d[0];
      LeadingNonZeroPositive(init);
      CanonicalDigitsRoundTrip(init);
      var v := DigitsValue(d);
      assert v / 10 == DigitsValue(init) && v % 10 == DigitValue(d[|d| - 1]);
      assert d == init + [d[|d| - 1]];
    }
  }

  /** `str(int(s)) == s` for every canonical `s`: together with `IntToStringRoundTrip`
      and `IntToStringCanonical`, `str` is a bijection onto the canonical strings,
      so "01" or "+1" is never `str` of any integer. */
  lemma CanonicalRoundTrip(s: string)
    requires IsCanonicalInt(s)
    ensures ParseInt(s).Some? && IntToString(ParseInt(s).value) == s
  {
    if IsCanonicalDigits(s) {
      CanonicalDigitsRoundTrip(s);
      if s[0] == '0' {
        assert s == "0";
      }
    } else {
      var d := s[1..];
      LeadingNonZeroPositive(d);
      CanonicalDigitsRoundTrip(d);
      assert s == "-" + d;
    }
  }
}
