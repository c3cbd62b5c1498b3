/** The Python string operations the IFC conversions use: `str.strip()`,
    `str.split(sep)`, `int()` on a decimal string, and the decimal
    rendering of an integer in an f-string (`{n}` and `{n:02d}`). */
module PyText {

  datatype Option<T> = None | Some(value: T)

  /** The characters `str.strip()` treats as whitespace. */
  predicate IsSpace(c: char) {
    || '\t' <= c <= '\r'
    || '\U{1C}' <= c <= ' '
    || c == '\U{85}' || c == '\U{A0}' || c == '\U{1680}'
    || '\U{2000}' <= c <= '\U{200A}'
    || c == '\U{2028}' || c == '\U{2029}' || c == '\U{202F}' || c == '\U{205F}'
    || c == '\U{3000}'
  }

  /** The characters `int()` skips around a number: the same set without the
      ASCII separators U+001C .. U+001F, which `int()` leaves in place (it
      turns only non-ASCII whitespace into spaces, then skips tab, line
      feed, vertical tab, form feed, carriage return and space). */
  predicate IsIntSpace(c: char) {
    IsSpace(c) && !('\U{1C}' <= c <= '\U{1F}')
  }

  /** The length of the longest prefix of `s` made of characters in `ws`. */
  function LeadingRun(s: string, ws: char -> bool): (n: nat)
    ensures n <= |s|
    ensures forall k :: 0 <= k < n ==> ws(s[k])
    ensures n == |s| || !ws(s[n])
    decreases |s|
  {
    if |s| > 0 && ws(s[0]) then
      var n := 1 + LeadingRun(s[1..], ws);
      assert forall k :: 1 <= k < n ==> s[k] == s[1..][k - 1];
      n
    else 0
  }

  /** The length of the longest suffix of `s` made of characters in `ws`. */
  function TrailingRun(s: string, ws: char -> bool): (n: nat)
    ensures n <= |s|
    ensures forall k :: |s| - n <= k < |s| ==> ws(s[k])
    ensures n == |s| || !ws(s[|s| - 1 - n])
    decreases |s|
  {
    if |s| > 0 && ws(s[|s| - 1]) then
      var n := 1 + TrailingRun(s[..|s| - 1], ws);
      assert forall k :: |s| - n <= k < |s| - 1 ==> s[k] == s[..|s| - 1][k];
      n
    else 0
  }

  /** `s` with the characters in `ws` removed from both ends: the piece of
      `s` between a prefix and a suffix made only of such characters, and
      itself empty or beginning and ending with a character outside `ws`. */
  function StripBy(s: string, ws: char -> bool): (r: string)
    ensures LeadingRun(s, ws) + |r| <= |s|
    ensures r == s[LeadingRun(s, ws)..LeadingRun(s, ws) + |r|]
    ensures forall k :: 0 <= k < LeadingRun(s, ws) ==> ws(s[k])
    ensures forall k :: LeadingRun(s, ws) + |r| <= k < |s| ==> ws(s[k])
    ensures r == [] || (!ws(r[0]) && !ws(r[|r| - 1]))
  {
    var i := LeadingRun(s, ws);
    if i == |s| then []
    else
      var j := |s| - TrailingRun(s, ws);
      assert i < j;
      s[i..j]
  }

  /** `s.strip()`. */
  function Strip(s: string): string {
    StripBy(s, IsSpace)
  }

  /** Stripping changes nothing when neither end is in `ws`. */
  lemma StripUnchanged(s: string, ws: char -> bool)
    requires s == [] || (!ws(s[0]) && !ws(s[|s| - 1]))
    ensures StripBy(s, ws) == s
  {
  }

  /** `s.split(sep)`: the pieces between occurrences of `sep`, one more
      piece than there are separators. */
  function Split(s: string, sep: char): (parts: seq<string>)
    ensures |parts| > 0
    ensures forall k :: 0 <= k < |parts| ==> sep !in parts[k]
  {
    if s == [] then [[]]
    else
      var rest := Split(s[1..], sep);
      if s[0] == sep then [[]] + rest
      else [[s[0]] + rest[0]] + rest[1..]
  }

  /** There is one more piece than there are separators. */
  lemma {:induction false} SplitCount(s: string, sep: char)
    ensures |Split(s, sep)| == multiset(s)[sep] + 1
  {
    if s != [] {
      SplitCount(s[1..], sep);
      assert s == [s[0]] + s[1..];
    }
  }

  /** `sep.join(parts)`, the inverse of `Split`. */
  function Join(parts: seq<string>, sep: char): string
    requires |parts| > 0
  {
    if |parts| == 1 then parts[0] else parts[0] + [sep] + Join(parts[1..], sep)
  }

  lemma {:induction false} JoinSplit(s: string, sep: char)
    ensures Join(Split(s, sep), sep) == s
  {
    if s != [] {
      JoinSplit(s[1..], sep);
      var rest := Split(s[1..], sep);
      if s[0] != sep && |rest| > 1 {
        assert ([s[0]] + rest[0]) + [sep] + Join(rest[1..], sep)
            == [s[0]] + (rest[0] + [sep] + Join(rest[1..], sep));
        assert ([[s[0]] + rest[0]] + rest[1..])[1..] == rest[1..];
      }
    }
  }

  /** Splitting a separator-free prefix in front of `t`. */
  lemma {:induction false} SplitPrefix(a: string, t: string, sep: char)
    requires sep !in a
    ensures Split(a + t, sep) == [a + Split(t, sep)[0]] + Split(t, sep)[1..]
  {
    if a != [] {
      var s := Split(t, sep);
      SplitPrefix(a[1..], t, sep);
      assert a[0] in a;
      assert (a + t)[0] == a[0] != sep;
      assert (a + t)[1..] == a[1..] + t;
      var x := a + t;
      var rest := Split(a[1..] + t, sep);
      assert x != [] && x[1..] == a[1..] + t;
      assert Split(x, sep) == [[x[0]] + rest[0]] + rest[1..];
      assert rest[0] == a[1..] + s[0];
      assert rest[1..] == s[1..];
      assert [a[0]] + (a[1..] + s[0]) == a + s[0];
    } else {
      var s := Split(t, sep);
      assert a + t == t && a + s[0] == s[0];
      assert [s[0]] + s[1..] == s;
    }
  }

  /** A separator-free field followed by the separator is split off as a whole. */
  lemma SplitField(a: string, t: string, sep: char)
    requires sep !in a
    ensures Split(a + [sep] + t, sep) == [a] + Split(t, sep)
  {
    var u := [sep] + t;
    assert u[1..] == t;
    assert Split(u, sep) == [[]] + Split(t, sep);
    SplitPrefix(a, u, sep);
    assert a + [sep] + t == a + u;
    assert a + [] == a;
  }

  lemma {:induction false} SplitJoin(parts: seq<string>, sep: char)
    requires |parts| > 0
    requires forall k :: 0 <= k < |parts| ==> sep !in parts[k]
    ensures Split(Join(parts, sep), sep) == parts
  {
    if |parts| == 1 {
      SplitPrefix(parts[0], [], sep);
      assert parts[0] + [] == parts[0];
    } else {
      var tail := Join(parts[1..], sep);
      var u := [sep] + tail;
      assert forall k :: 0 <= k < |parts| - 1 ==> parts[1..][k] == parts[k + 1];
      SplitJoin(parts[1..], sep);
      assert u != [] && u[0] == sep && u[1..] == tail;
      assert Split(u, sep) == [[]] + parts[1..];
      assert sep !in parts[0];
      SplitPrefix(parts[0], u, sep);
      assert Join(parts, sep) == parts[0] + u;
      assert parts[0] + [] == parts[0];
      assert parts == [parts[0]] + parts[1..];
    }
  }

  /** Three separator-free fields joined by `sep` split back into those fields. */
  lemma SplitThreeFields(a: string, b: string, c: string, sep: char)
    requires sep !in a && sep !in b && sep !in c
    ensures Split(a + [sep] + b + [sep] + c, sep) == [a, b, c]
  {
    assert Split(c, sep) == [c] by {
      SplitPrefix(c, [], sep);
      assert c + [] == c;
    }
    SplitField(b, c, sep);
    SplitField(a, b + [sep] + c, sep);
    assert a + [sep] + b + [sep] + c == a + [sep] + (b + [sep] + c);
  }

  predicate IsDigit(c: char) {
    '0' <= c <= '9'
  }

  /** The digits of a base-10 integer literal: ASCII digits, with single
      underscores allowed between two digits. */
  predicate IsDigitString(s: string) {
    && |s| > 0
    && IsDigit(s[0])
    && IsDigit(s[|s| - 1])
    && (forall k :: 0 <= k < |s| ==> IsDigit(s[k]) || s[k] == '_')
    && (forall k :: 0 <= k < |s| - 1 ==> IsDigit(s[k]) || IsDigit(s[k + 1]))
  }

  /** The largest number of digits `int()` converts from a decimal string
      (`sys.int_info.default_max_str_digits`); leading zeros count. */
  const MaxStrDigits := 4300

  /** The number of ASCII digits in `s`; underscores and signs do not count. */
  function DigitCount(s: string): (n: nat)
    ensures n <= |s|
    ensures (forall k :: 0 <= k < |s| ==> IsDigit(s[k])) ==> n == |s|
  {
    if s == [] then 0 else (if IsDigit(s[0]) then 1 else 0) + DigitCount(s[1..])
  }

  /** The value of a digit string, underscores skipped. */
  function DigitsValue(s: string): (n: nat)
    decreases |s|
  {
    if s == [] then 0
    else if s[|s| - 1] == '_' then DigitsValue(s[..|s| - 1])
    else DigitsValue(s[..|s| - 1]) * 10 + DigitValue(s[|s| - 1])
  }

  function DigitValue(c: char): (d: nat)
    ensures IsDigit(c) ==> d < 10
  {
    if IsDigit(c) then (c - '0') as nat else 0
  }

  function DigitChar(d: nat): (c: char)
    requires d < 10
    ensures IsDigit(c) && DigitValue(c) == d
  {
    '0' + d as char
  }

  /** `int(s)` in base 10: surrounding whitespace, an optional sign, then
      at most `MaxStrDigits` digits.  What it accepts ends in a digit, has
      no more digits than the limit, and a negative value is written with
      a minus sign. */
  function ParseInt(s: string): (r: Option<int>)
    ensures r.Some? ==> var t := StripBy(s, IsIntSpace);
                        && |t| > 0 && IsDigit(t[|t| - 1])
                        && DigitCount(t) <= MaxStrDigits
                        && (r.value < 0 ==> t[0] == '-')
  {
    var t := StripBy(s, IsIntSpace);
    if |t| > 0 && (t[0] == '+' || t[0] == '-') then
      var digits := t[1..];
      if IsDigitString(digits) && DigitCount(digits) <= MaxStrDigits then
        var magnitude: int := DigitsValue(digits);
        Some(if t[0] == '-' then -magnitude else magnitude)
      else None
    else if IsDigitString(t) && DigitCount(t) <= MaxStrDigits then
      Some(DigitsValue(t))
    else None
  }

  /** `int()` rejects a field that starts with neither a digit, a sign nor whitespace. */
  lemma ParseIntRejectsNonDigit(s: string)
    requires s != [] && !IsIntSpace(s[0])
    requires !IsDigit(s[0]) && s[0] != '+' && s[0] != '-'
    ensures ParseInt(s) == None
  {
    assert LeadingRun(s, IsIntSpace) == 0;
  }

  /** `int()` refuses a field of more than `MaxStrDigits` digits, even when
      all but the last are leading zeros. */
  lemma LongFieldRejected(z: string)
    requires |z| == MaxStrDigits && forall k :: 0 <= k < |z| ==> z[k] == '0'
    ensures ParseInt(z + ['1']) == None
  {
    var s := z + ['1'];
    assert forall k :: 0 <= k < |s| ==> IsDigit(s[k]);
    assert DigitCount(s) == MaxStrDigits + 1;
    StripUnchanged(s, IsIntSpace);
  }

  /** An ASCII separator such as U+001C before a number: `str.strip()`
      removes it, `int()` does not. */
  lemma SeparatorKeptByInt(s: string)
    requires s == ['\U{1C}', '5']
    ensures Strip(s) == ['5']
    ensures ParseInt(s) == None
  {
    assert LeadingRun(s[1..], IsSpace) == 0;
    ParseIntRejectsNonDigit(s);
  }

  /** The decimal digits of `n`, most significant first, without leading zeros. */
  function FormatNat(n: nat): (s: string)
    ensures IsDigitString(s)
    ensures forall k :: 0 <= k < |s| ==> IsDigit(s[k])
    ensures |s| == 1 || s[0] != '0'
    ensures n > 0 ==> s[0] != '0'
    ensures n < 10 <==> |s| == 1
    ensures n < 100 ==> |s| <= 2
    ensures n < 1000 ==> |s| <= 3
    ensures n < 10000 ==> |s| <= 4
  {
    if n < 10 then [DigitChar(n)] else FormatNat(n / 10) + [DigitChar(n % 10)]
  }

  /** `f"{n}"`: the decimal digits without leading zeros, after a minus
      sign when `n` is negative. */
  function FormatInt(n: int): (s: string)
    ensures n >= 0 ==> IsDigitString(s) && '-' !in s
    ensures n >= 0 ==> (forall k :: 0 <= k < |s| ==> IsDigit(s[k])) && (|s| == 1 || s[0] != '0')
    ensures n < 0 ==> |s| >= 2 && s[0] == '-' && s[1] != '0'
                      && (forall k :: 1 <= k < |s| ==> IsDigit(s[k]))
  {
    if n < 0 then "-" + FormatNat(-n) else FormatNat(n)
  }

  /** `f"{n:02d}"`: zero-padded to two characters, the sign counting as
      one; longer numbers are written in full, without padding. */
  function FormatInt2(n: int): (s: string)
    ensures |s| >= 2
    ensures 0 <= n < 100 ==> |s| == 2
    ensures n >= 10 ==> s[0] != '0'
    ensures n >= 0 ==> IsDigitString(s) && '-' !in s && (forall k :: 0 <= k < |s| ==> IsDigit(s[k]))
    ensures n < 0 ==> s[0] == '-'
  {
    if 0 <= n < 10 then "0" + FormatInt(n) else FormatInt(n)
  }

  lemma {:induction false} DigitsValueOfFormatNat(n: nat)
    ensures DigitsValue(FormatNat(n)) == n
  {
    if n >= 10 {
      DigitsValueOfFormatNat(n / 10);
      var s := FormatNat(n / 10) + [DigitChar(n % 10)];
      assert s[..|s| - 1] == FormatNat(n / 10);
    }
  }

  /** `int()` of a bare digit string is its value. */
  lemma ParseDigits(s: string, m: nat)
    requires IsDigitString(s) && DigitCount(s) <= MaxStrDigits && DigitsValue(s) == m
    ensures ParseInt(s) == Some(m)
  {
    assert !IsIntSpace(s[0]) && !IsIntSpace(s[|s| - 1]);
    StripUnchanged(s, IsIntSpace);
  }

  /** A minus sign followed by a digit string has no whitespace to strip. */
  lemma SignedUnstripped(s: string)
    requires IsDigitString(s)
    ensures StripBy(['-'] + s, IsIntSpace) == ['-'] + s
  {
    var t := ['-'] + s;
    assert t[0] == '-' && t[|t| - 1] == s[|s| - 1];
    StripUnchanged(t, IsIntSpace);
  }

  /** `int()` of a minus sign followed by a digit string is the negated value. */
  lemma ParseNegativeDigits(s: string, m: nat)
    requires IsDigitString(s) && DigitCount(s) <= MaxStrDigits && DigitsValue(s) == m
    ensures ParseInt(['-'] + s) == Some(-(m as int))
  {
    SignedUnstripped(s);
    assert (['-'] + s)[1..] == s;
  }

  /** `int()` reads back what `f"{n}"` writes, as long as that has no
      more digits than `int()` converts. */
  lemma ParseFormatInt(n: int)
    requires DigitCount(FormatInt(n)) <= MaxStrDigits
    ensures ParseInt(FormatInt(n)) == Some(n)
  {
    if n < 0 {
      var t := FormatInt(n);
      assert t == ['-'] + FormatNat(-n);
      assert t[1..] == FormatNat(-n);
      DigitsValueOfFormatNat(-n);
      ParseNegativeDigits(FormatNat(-n), -n);
    } else {
      DigitsValueOfFormatNat(n);
      ParseDigits(FormatNat(n), n);
    }
  }

  /** `int()` reads back what `f"{n:02d}"` writes, as long as that has no
      more digits than `int()` converts. */
  lemma ParseFormatInt2(n: int)
    requires DigitCount(FormatInt2(n)) <= MaxStrDigits
    ensures ParseInt(FormatInt2(n)) == Some(n)
  {
    if 0 <= n < 10 {
      var s := FormatInt2(n);
      assert s == ['0', DigitChar(n)];
      assert s[..1] == ['0'] && ['0'][..0] == [];
      assert DigitsValue(['0']) == 0;
      StripUnchanged(s, IsIntSpace);
    } else {
      ParseFormatInt(n);
    }
  }

  /** Numbers below 10000, such as the years `datetime` represents and
      IFC months and days, are written with at most four digits. */
  lemma ShortNumberDigits(n: int)
    requires 0 <= n < 10000
    ensures DigitCount(FormatInt(n)) <= 4 && DigitCount(FormatInt2(n)) <= 4
  {
  }
}
