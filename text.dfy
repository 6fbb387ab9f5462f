/** The two standard-library string routines the backend relies on:
    `strings.TrimSpace` (join parameters) and `strconv.Atoi` (history paging). */
module Text {
  import opened Base

  /** Go's `unicode.IsSpace`: the Unicode White_Space characters. */
  predicate IsSpace(c: char) {
    || c == ' ' || c == '\t' || c == '\n' || c == '\U{000B}' || c == '\U{000C}' || c == '\r'
    || c == '\U{0085}' || c == '\U{00A0}' || c == '\U{1680}'
    || ('\U{2000}' <= c <= '\U{200A}')
    || c == '\U{2028}' || c == '\U{2029}' || c == '\U{202F}' || c == '\U{205F}' || c == '\U{3000}'
  }

  predicate AllSpace(s: string) {
    forall i :: 0 <= i < |s| ==> IsSpace(s[i])
  }

  /** Drops the white space at the front. */
  function TrimLeadingSpace(s: string): string {
    if s != [] && IsSpace(s[0]) then TrimLeadingSpace(s[1..]) else s
  }

  /** `r` is `s` without its leading white space: a suffix of `s` that is empty or starts with
      a non-space, after only white space. */
  predicate DropsLeadingSpace(s: string, r: string) {
    && |r| <= |s| && r == s[|s| - |r|..] && AllSpace(s[..|s| - |r|])
    && (r == [] || !IsSpace(r[0]))
  }

  /** `r` is `s` without its trailing white space: a prefix of `s` that is empty or ends with
      a non-space, before only white space. */
  predicate DropsTrailingSpace(s: string, r: string) {
    && |r| <= |s| && r == s[..|r|] && AllSpace(s[|r|..])
    && (r == [] || !IsSpace(r[|r| - 1]))
  }

  /** What TrimLeadingSpace keeps is a suffix of `s` that is empty or starts with a non-space,
      and what it drops is white space. */
  lemma {:induction false} LeadingSpaceDropped(s: string)
    ensures DropsLeadingSpace(s, TrimLeadingSpace(s))
  {
    if s != [] && IsSpace(s[0]) {
      var tail := s[1..];
      LeadingSpaceDropped(tail);
      var r := TrimLeadingSpace(tail);
      assert tail[|tail| - |r|..] == s[|s| - |r|..];
      forall i | 0 <= i < |s| - |r| ensures IsSpace(s[i]) {
        if i > 0 {
          assert s[i] == tail[..|tail| - |r|][i - 1];
        }
      }
    }
  }

  /** Drops the white space at the back. */
  function TrimTrailingSpace(s: string): string {
    if s != [] && IsSpace(s[|s| - 1]) then TrimTrailingSpace(s[..|s| - 1]) else s
  }

  /** What TrimTrailingSpace keeps is a prefix of `s` that is empty or ends with a non-space,
      and what it drops is white space. */
  lemma {:induction false} TrailingSpaceDropped(s: string)
    ensures DropsTrailingSpace(s, TrimTrailingSpace(s))
  {
    if s != [] && IsSpace(s[|s| - 1]) {
      var init := s[..|s| - 1];
      TrailingSpaceDropped(init);
      var r := TrimTrailingSpace(init);
      assert init[..|r|] == s[..|r|];
      forall i | |r| <= i < |s| ensures IsSpace(s[i]) {
        if i < |s| - 1 {
          assert s[i] == init[|r|..][i - |r|];
        }
      }
    }
  }

  /** `strings.TrimSpace`: the slice of `s` left after removing white space at both ends.
      It is empty exactly when `s` is all white space. */
  function TrimSpace(s: string): (r: string)
    ensures r != [] ==> !IsSpace(r[0]) && !IsSpace(r[|r| - 1])
    ensures r == [] <==> AllSpace(s)
  {
    var t := TrimLeadingSpace(s);
    var r := TrimTrailingSpace(t);
    LeadingSpaceDropped(s);
    TrailingSpaceDropped(t);
    TrimmedSlice(s, t, r);
    r
  }

  /** What TrimSpace keeps is one stretch of `s`, with only white space before and after it. */
  lemma {:induction false} TrimSpaceIsSlice(s: string)
    ensures var k := |s| - |TrimLeadingSpace(s)|; var r := TrimSpace(s);
      && 0 <= k && k + |r| <= |s| && r == s[k..k + |r|]
      && AllSpace(s[..k]) && AllSpace(s[k + |r|..])
  {
    var t := TrimLeadingSpace(s);
    var r := TrimTrailingSpace(t);
    assert TrimSpace(s) == r;
    LeadingSpaceDropped(s);
    TrailingSpaceDropped(t);
    TrimmedSlice(s, t, r);
  }

  /** The index arithmetic behind TrimSpace, over plain strings: `t` is what is left of `s` after
      its leading white space, and `r` what is left of `t` after its trailing white space. */
  lemma {:induction false} TrimmedSlice(s: string, t: string, r: string)
    requires DropsLeadingSpace(s, t) && DropsTrailingSpace(t, r)
    ensures var k := |s| - |t|;
      && 0 <= k && k + |r| <= |s| && r == s[k..k + |r|]
      && AllSpace(s[..k]) && AllSpace(s[k + |r|..])
    ensures r != [] ==> !IsSpace(r[0]) && !IsSpace(r[|r| - 1])
    ensures r == [] <==> AllSpace(s)
  {
    var k := |s| - |t|;
    assert s[k + |r|..] == t[|r|..];
    if r != [] {
      assert r[0] == t[0] == s[k];
    } else {
      assert s == s[..k] + t;
      AllSpaceConcat(s[..k], t);
    }
  }

  lemma AllSpaceConcat(a: string, b: string)
    requires AllSpace(a) && AllSpace(b)
    ensures AllSpace(a + b)
  {
    forall i | 0 <= i < |a + b| ensures IsSpace((a + b)[i]) {
      if i < |a| { assert (a + b)[i] == a[i]; } else { assert (a + b)[i] == b[i - |a|]; }
    }
  }

  predicate IsDigit(c: char) {
    '0' <= c <= '9'
  }

  predicate AllDigits(s: string) {
    forall i :: 0 <= i < |s| ==> IsDigit(s[i])
  }

  function DigitValue(c: char): (d: nat)
    requires IsDigit(c)
    ensures d < 10
  {
    (c as int) - ('0' as int)
  }

  function DigitChar(d: nat): (c: char)
    requires d < 10
    ensures IsDigit(c) && DigitValue(c) == d
  {
    ('0' as int + d) as char
  }

  /** The value of a string of decimal digits, most significant first. */
  function DecimalValue(s: string): nat
    requires AllDigits(s)
  {
    if s == [] then 0 else DecimalValue(s[..|s| - 1]) * 10 + DigitValue(s[|s| - 1])
  }

  /** `strconv.Atoi` on a 64-bit platform: an optional `+` or `-`, then at least one
      decimal digit and nothing else, whose value fits in an `int`; anything else is an error (None). */
  function Atoi(s: string): (r: Option<int>)
    ensures r.Some? ==> IsInt64(r.value)
    ensures r.Some? ==> s != [] && (IsDigit(s[0]) || s[0] == '+' || s[0] == '-')
    ensures r.Some? && r.value < 0 ==> s[0] == '-'
  {
    var signed := |s| > 0 && (s[0] == '+' || s[0] == '-');
    var digits := if signed then s[1..] else s;
    if digits == [] || !AllDigits(digits) then None
    else
      var v: int := if signed && s[0] == '-' then -(DecimalValue(digits) as int) else DecimalValue(digits);
      if IsInt64(v) then Some(v) else None
  }

  /** The shortest decimal spelling of `n`. */
  function Decimal(n: nat): (s: string)
    ensures s != [] && AllDigits(s)
  {
    if n < 10 then [DigitChar(n)] else Decimal(n / 10) + [DigitChar(n % 10)]
  }

  /** `strconv.Itoa`: the spelling a client uses to send the number `n`. */
  function FormatInt(n: int): string {
    if n < 0 then "-" + Decimal(-n) else Decimal(n)
  }

  lemma {:induction false} DecimalRoundTrip(n: nat)
    ensures DecimalValue(Decimal(n)) == n
  {
    if n >= 10 {
      var s := Decimal(n);
      assert s[..|s| - 1] == Decimal(n / 10);
      DecimalRoundTrip(n / 10);
    }
  }

  /** Atoi reads back every `int` that FormatInt spells. */
  lemma AtoiFormatInt(n: int)
    requires IsInt64(n)
    ensures Atoi(FormatInt(n)) == Some(n)
  {
    if n < 0 {
      DecimalRoundTrip(-n);
      AtoiDigits(Decimal(-n));
    } else {
      DecimalRoundTrip(n);
      AtoiDigits(Decimal(n));
    }
  }

  /** Atoi on a string of digits, alone or after a sign: its value when that fits in an `int`. */
  lemma AtoiDigits(digits: string)
    requires digits != [] && AllDigits(digits)
    ensures Atoi(digits) == if DecimalValue(digits) <= MaxInt64 then Some(DecimalValue(digits) as int) else None
    ensures Atoi("+" + digits) == Atoi(digits)
    ensures Atoi("-" + digits) == if DecimalValue(digits) <= -MinInt64 then Some(-(DecimalValue(digits) as int)) else None
  {
    assert IsDigit(digits[0]);
    assert ("+" + digits)[1..] == digits;
    assert ("-" + digits)[1..] == digits;
  }

  /** Atoi accepts nothing but an optional sign followed by at least one digit, and its result is
      the digits' decimal value, negated after a minus sign. */
  lemma AtoiAcceptsOnlySignedDigits(s: string)
    ensures Atoi(s).Some? ==>
      var digits := if s[0] == '+' || s[0] == '-' then s[1..] else s;
      && digits != [] && AllDigits(digits)
      && Atoi(s).value == if s[0] == '-' then -(DecimalValue(digits) as int) else DecimalValue(digits) as int
  {
  }

  /** Atoi never accepts the empty string, a number with spaces around it, or one beyond the `int` range. */
  lemma AtoiRejects(n: nat)
    requires n > MaxInt64 + 1
    ensures Atoi("") == None
    ensures Atoi(" 1") == None && Atoi("1 ") == None
    ensures Atoi(FormatInt(n)) == None && Atoi(FormatInt(-(n as int))) == None
  {
    assert !AllDigits("1 ") by { assert !IsDigit("1 "[1]); }
    DecimalRoundTrip(n);
    AtoiDigits(Decimal(n));
  }
}
