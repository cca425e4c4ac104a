/**
  C#'s `long`: the 64-bit two's-complement range, its unchecked addition, and
  `Convert.ToInt64(string)`, which parses a decimal integer and throws on text
  that is not one or on a value outside the range.
 */
module Int64 {
  import opened Results
  import opened Strings

  const MIN: int := -0x8000_0000_0000_0000
  const MAX: int := 0x7FFF_FFFF_FFFF_FFFF
  const MODULUS: int := 0x1_0000_0000_0000_0000

  newtype int64 = x: int | -0x8000_0000_0000_0000 <= x < 0x8000_0000_0000_0000

  /**
    What unchecked C# arithmetic keeps of `x`: `x` moved into the `long` range
    by whole multiples of 2^64 (`WrapIsModulo` states it as a remainder).
   */
  function Wrap(x: int): (r: int64)
    ensures MIN <= x <= MAX ==> r as int == x
    decreases if x > MAX then x - MAX else if x < MIN then MIN - x else 0
  {
    if x > MAX then Wrap(x - MODULUS)
    else if x < MIN then Wrap(x + MODULUS)
    else x as int64
  }

  /**
    `a + b` on `long` in an unchecked context: the exact sum of two longs lies
    within one 2^64 of the range, so at most one correction brings it back.
   */
  function Add(a: int64, b: int64): int64 {
    var sum := a as int + b as int;
    if sum > MAX then (sum - MODULUS) as int64
    else if sum < MIN then (sum + MODULUS) as int64
    else sum as int64
  }

  /** Wrapping moves `x` by a whole number of 2^64 steps. */
  lemma {:induction false} WrapDifference(x: int) returns (q: int)
    ensures Wrap(x) as int == x - q * MODULUS
    decreases if x > MAX then x - MAX else if x < MIN then MIN - x else 0
  {
    if x > MAX {
      var q' := WrapDifference(x - MODULUS);
      q := q' + 1;
    } else if x < MIN {
      var q' := WrapDifference(x + MODULUS);
      q := q' - 1;
    } else {
      q := 0;
    }
  }

  /** `Wrap` is the remainder of `x - MIN` modulo 2^64, shifted back by `MIN`. */
  lemma WrapIsModulo(x: int)
    ensures Wrap(x) as int == (x - MIN) % MODULUS + MIN
  {
    var q := WrapDifference(x);
    ModuloOf(x - MIN, q, Wrap(x) as int - MIN);
  }

  lemma ModuloOf(y: int, q: int, m: int)
    requires 0 <= m < MODULUS
    requires y == q * MODULUS + m
    ensures y % MODULUS == m
  {
  }

  /** Wrapping ignores one 2^64 more or less. */
  lemma WrapPeriodic(x: int)
    ensures Wrap(x + MODULUS) == Wrap(x)
  {
  }

  /** Wrapping ignores any whole number of 2^64 steps. */
  lemma {:induction false} WrapShift(x: int, q: int)
    ensures Wrap(x - q * MODULUS) == Wrap(x)
    decreases if q < 0 then -q else q
  {
    if q > 0 {
      WrapShift(x, q - 1);
      WrapPeriodic(x - q * MODULUS);
    } else if q < 0 {
      WrapShift(x, q + 1);
      WrapPeriodic(x - (q + 1) * MODULUS - MODULUS);
    }
  }

  /** Unchecked addition loses a whole number of 2^64 (here -1, 0 or 1). */
  lemma AddLaps(a: int64, b: int64) returns (q: int)
    ensures Add(a, b) as int == a as int + b as int - q * MODULUS
  {
    var sum := a as int + b as int;
    q := if sum > MAX then 1 else if sum < MIN then -1 else 0;
  }

  /** `a + b + c` on `long` in an unchecked context, and the 2^64 laps it loses. */
  method AddCounters(a: int64, b: int64, c: int64) returns (sum: int64, ghost laps: int)
    ensures sum == Wrap(a as int + b as int + c as int)
    ensures sum as int == a as int + b as int + c as int - laps * MODULUS
  {
    AddThree(a, b, c);
    var firstLaps := AddLaps(a, b);
    var secondLaps := AddLaps(Add(a, b), c);
    sum, laps := Add(Add(a, b), c), firstLaps + secondLaps;
  }

  /** `a + b` on `long` in an unchecked context, and the 2^64 laps it loses. */
  method AddLongs(a: int64, b: int64) returns (sum: int64, ghost laps: int)
    ensures sum == Wrap(a as int + b as int)
    ensures sum as int == a as int + b as int - laps * MODULUS
  {
    AddWraps(a, b);
    laps := AddLaps(a, b);
    sum := Add(a, b);
  }

  /** The long that lies a whole number of 2^64 away from `x` is `Wrap(x)`. */
  lemma WrapOf(x: int, q: int, v: int64)
    requires v as int == x - q * MODULUS
    ensures Wrap(x) == v
  {
    var p := WrapDifference(x);
    assert (p - q) * MODULUS == v as int - Wrap(x) as int;
  }

  /** Unchecked addition keeps the exact sum modulo 2^64. */
  lemma AddWraps(a: int64, b: int64)
    ensures Add(a, b) == Wrap(a as int + b as int)
  {
  }

  /** Wrapping an intermediate result does not change what wrapping the final sum gives. */
  lemma WrapAdd(a: int, b: int)
    ensures Wrap(Wrap(a) as int + b) == Wrap(a + b)
  {
    var q := WrapDifference(a);
    WrapShift(a + b, q);
  }

  /** Adding three longs, unchecked, wraps their exact sum. */
  lemma AddThree(a: int64, b: int64, c: int64)
    ensures Add(Add(a, b), c) == Wrap(a as int + b as int + c as int)
  {
    AddWraps(a, b);
    AddWraps(Add(a, b), c);
    WrapAdd(a as int + b as int, c as int);
  }

  /** Adding two wrapped values, unchecked, wraps their exact sum. */
  lemma WrapSum(x: int, y: int)
    ensures Add(Wrap(x), Wrap(y)) == Wrap(x + y)
  {
    AddWraps(Wrap(x), Wrap(y));
    WrapAdd(x, Wrap(y) as int);
    WrapAdd(y, x);
  }

  // ---------------------------------------------------------------------------
  // Convert.ToInt64(string)

  /** The two exceptions `Convert.ToInt64` throws on a non-null string. */
  datatype ParseError = FormatError | OverflowError

  /** White space that `NumberStyles.Integer` lets surround the number: U+0009 to U+000D and U+0020. */
  const WHITE_SPACE: set<char> := {' ', '\t', '\n', 11 as char, 12 as char, '\r'}

  function TrimWhiteStart(s: string): string {
    if s != [] && s[0] in WHITE_SPACE then TrimWhiteStart(s[1..]) else s
  }

  function TrimWhiteEnd(s: string): string {
    if s != [] && s[|s| - 1] in WHITE_SPACE then TrimWhiteEnd(s[..|s| - 1]) else s
  }

  predicate AllDigits(s: string) {
    s == [] || (AllDigits(s[..|s| - 1]) && IsDigit(s[|s| - 1]))
  }

  /** Every character of a string of digits is a digit. */
  lemma {:induction false} AllDigitsAt(s: string, i: nat)
    requires AllDigits(s) && i < |s|
    ensures IsDigit(s[i])
  {
    if i < |s| - 1 {
      AllDigitsAt(s[..|s| - 1], i);
    }
  }

  /** The value of a string of decimal digits, most significant first. */
  function DigitsValue(s: string): nat
    requires AllDigits(s)
  {
    if s == [] then 0
    else DigitsValue(s[..|s| - 1]) * 10 + (s[|s| - 1] as int - '0' as int)
  }

  /**
    `Convert.ToInt64(s)` for a non-null `s`: optional surrounding white space, an
    optional `+` or `-`, then one or more ASCII digits. Anything else is a
    `FormatError`; a value outside the `long` range is an `OverflowError`.
   */
  function ParseInt64(s: string): Result<int64, ParseError> {
    var t := TrimWhiteEnd(TrimWhiteStart(s));
    var negative := t != [] && t[0] == '-';
    var digits := if t != [] && (t[0] == '-' || t[0] == '+') then t[1..] else t;
    if digits == [] || !AllDigits(digits) then Err(FormatError)
    else
      var v: int := if negative then -(DigitsValue(digits) as int) else DigitsValue(digits);
      if MIN <= v <= MAX then Ok(v as int64) else Err(OverflowError)
  }

  // ---------------------------------------------------------------------------
  // The partner of the parse: the decimal text of a `long` (`long.ToString()`).

  function DigitChar(d: nat): char
    requires d < 10
  {
    ('0' as int + d) as char
  }

  /** The decimal digits of `n`, without leading zeros. */
  function Digits(n: nat): (r: string)
    ensures r != [] && AllDigits(r)
    ensures DigitsValue(r) == n
  {
    if n < 10 then
      var r := [DigitChar(n)];
      assert r[..|r| - 1] == [];
      assert IsDigit(r[|r| - 1]);
      r
    else
      var r := Digits(n / 10) + [DigitChar(n % 10)];
      assert r[..|r| - 1] == Digits(n / 10);
      r
  }

  /** `n.ToString()` in an invariant culture. */
  function Show(n: int64): string {
    if n < 0 then ['-'] + Digits(-(n as int)) else Digits(n as int)
  }

  /** Parsing the decimal text of any `long` gives that `long` back. */
  lemma ParseShow(n: int64)
    ensures ParseInt64(Show(n)) == Ok(n)
  {
    var s := Show(n);
    AllDigitsAt(Digits(if n < 0 then -(n as int) else n as int), 0);
    assert s[0] !in WHITE_SPACE;
    assert TrimWhiteStart(s) == s;
    assert s[|s| - 1] !in WHITE_SPACE;
    assert TrimWhiteEnd(s) == s;
    if n < 0 {
      assert s[1..] == Digits(-(n as int));
    }
  }

  /**
    One white-space character (a stray carriage return, a tab) added at either
    end of a column does not change its parse.
   */
  lemma ParseIgnoresWhiteSpace(s: string, c: char)
    requires c in WHITE_SPACE
    ensures ParseInt64(s + [c]) == ParseInt64(s)
    ensures ParseInt64([c] + s) == ParseInt64(s)
  {
    assert ([c] + s)[1..] == s;
    var t := s + [c];
    TrimStartAppend(s, c);
    var u := TrimWhiteStart(s);
    if TrimWhiteStart(s) != [] {
      assert TrimWhiteStart(t) == u + [c];
      assert (u + [c])[..|u|] == u;
    }
  }

  lemma {:induction false} TrimStartAppend(s: string, c: char)
    requires c in WHITE_SPACE
    ensures TrimWhiteStart(s) == [] ==> TrimWhiteStart(s + [c]) == []
    ensures TrimWhiteStart(s) != [] ==> TrimWhiteStart(s + [c]) == TrimWhiteStart(s) + [c]
  {
    if s == [] {
      assert s + [c] == [c];
      assert [c][1..] == [];
    } else {
      assert (s + [c])[0] == s[0];
      assert (s + [c])[1..] == s[1..] + [c];
      if s[0] in WHITE_SPACE {
        TrimStartAppend(s[1..], c);
      }
    }
  }

  /** What trimming the front removes is white space. */
  lemma {:induction false} TrimWhiteStartSuffix(s: string) returns (k: nat)
    ensures k <= |s| && TrimWhiteStart(s) == s[k..]
    ensures forall j :: 0 <= j < k ==> s[j] in WHITE_SPACE
  {
    if s != [] && s[0] in WHITE_SPACE {
      var k' := TrimWhiteStartSuffix(s[1..]);
      k := k' + 1;
      assert s[1..][k'..] == s[k..];
      forall j | 1 <= j < k ensures s[j] in WHITE_SPACE {
        assert s[j] == s[1..][j - 1];
      }
    } else {
      k := 0;
    }
  }

  /** What trimming the end removes is white space. */
  lemma {:induction false} TrimWhiteEndPrefix(s: string) returns (m: nat)
    ensures m <= |s| && TrimWhiteEnd(s) == s[..m]
    ensures forall j :: m <= j < |s| ==> s[j] in WHITE_SPACE
  {
    if s != [] && s[|s| - 1] in WHITE_SPACE {
      m := TrimWhiteEndPrefix(s[..|s| - 1]);
      assert s[..|s| - 1][..m] == s[..m];
      forall j | m <= j < |s| - 1 ensures s[j] in WHITE_SPACE {
        assert s[j] == s[..|s| - 1][j];
      }
    } else {
      m := |s|;
    }
  }

  /**
    A character that is neither white space, a sign nor a digit, anywhere in
    the text, makes the parse throw `FormatException`.
   */
  lemma ParseBadCharacter(s: string, i: nat)
    requires i < |s|
    requires s[i] !in WHITE_SPACE && s[i] != '+' && s[i] != '-' && !IsDigit(s[i])
    ensures ParseInt64(s) == Err(FormatError)
  {
    var k := TrimWhiteStartSuffix(s);
    var u := s[k..];
    assert i >= k;
    assert u[i - k] == s[i];
    var m := TrimWhiteEndPrefix(u);
    assert i - k < m;
    var t := u[..m];
    assert t[i - k] == s[i];
    var digits := if t != [] && (t[0] == '-' || t[0] == '+') then t[1..] else t;
    var at := if t != [] && (t[0] == '-' || t[0] == '+') then i - k - 1 else i - k;
    assert 0 <= at < |digits| && digits[at] == s[i];
    if AllDigits(digits) {
      AllDigitsAt(digits, at);
    }
  }

  /** The digits of a number above `long.MaxValue` make the parse throw `OverflowException`. */
  lemma ParseOverflow(n: nat)
    requires n > MAX
    ensures ParseInt64(Digits(n)) == Err(OverflowError)
  {
    var s := Digits(n);
    AllDigitsAt(s, 0);
    AllDigitsAt(s, |s| - 1);
    assert TrimWhiteStart(s) == s;
    assert TrimWhiteEnd(s) == s;
  }
}
