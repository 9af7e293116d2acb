/**
  The parts of Go's `strconv` and `fmt` the service relies on: parsing a
  signed decimal integer into a 64-bit `int` (strconv.Atoi, whose value on
  error the service keeps), printing one (`%d`), parsing and printing a
  boolean (strconv.ParseBool, `%t`).
*/
module Strconv {
  import opened Wrappers
  import opened GoStrings

  predicate IsDigit(c: byte)
  {
    '0' <= c <= '9'
  }

  predicate AllDigits(s: Bytes)
  {
    forall i :: 0 <= i < |s| ==> IsDigit(s[i])
  }

  /** The value of a digit string read in base 10, most significant digit first. */
  function DigitsValue(s: Bytes): nat
    requires AllDigits(s)
    decreases |s|
  {
    if |s| == 0 then 0
    else DigitsValue(s[..|s| - 1]) * 10 + (s[|s| - 1] as int - '0' as int)
  }

  /** The bounds of Go's `int` on a 64-bit platform. */
  const MinInt64: int := -0x8000_0000_0000_0000
  const MaxInt64: int := 0x7FFF_FFFF_FFFF_FFFF

  /** The largest value strconv's digit accumulator (a uint64) can hold. */
  const MaxUint64: int := 0xFFFF_FFFF_FFFF_FFFF

  /** Go's `int` on a 64-bit platform. */
  type Int64 = x: int | MinInt64 <= x <= MaxInt64

  /** The text after an optional leading sign. */
  function Unsigned(s: Bytes): Bytes
  {
    if |s| > 0 && (s[0] == '+' || s[0] == '-') then s[1..] else s
  }

  /** An optional sign followed by one or more decimal digits. */
  predicate IsDecimal(s: Bytes)
  {
    |Unsigned(s)| > 0 && AllDigits(Unsigned(s))
  }

  /** The integer a decimal text denotes, without any bound. */
  function DecimalValue(s: Bytes): int
    requires IsDecimal(s)
  {
    var magnitude: int := DigitsValue(Unsigned(s));
    if s[0] == '-' then -magnitude else magnitude
  }

  /** The length of the longest prefix of `s` made of digits. */
  function DigitRun(s: Bytes): (k: nat)
    ensures k <= |s| && AllDigits(s[..k])
    ensures k < |s| ==> !IsDigit(s[k])
    decreases |s|
  {
    if |s| == 0 || !IsDigit(s[0]) then 0
    else
      var k := 1 + DigitRun(s[1..]);
      assert forall i :: 1 <= i < k ==> s[..k][i] == s[1..][..k - 1][i - 1];
      k
  }

  /** A prefix of `s` made of digits lies within its digit run. */
  lemma {:induction false} RunCovers(s: Bytes, k: nat)
    requires k <= |s| && AllDigits(s[..k])
    ensures DigitRun(s) >= k
    decreases k
  {
    if k > 0 {
      assert s[..k][0] == s[0];
      assert forall i :: 1 <= i < k ==> s[1..][..k - 1][i - 1] == s[..k][i];
      RunCovers(s[1..], k - 1);
    }
  }

  /** A digit prefix followed by a non-digit, or by nothing, is the digit run. */
  lemma RunEndsAt(s: Bytes, k: nat)
    requires k <= |s| && AllDigits(s[..k]) && (k == |s| || !IsDigit(s[k]))
    ensures DigitRun(s) == k
  {
    RunCovers(s, k);
    var run := DigitRun(s);
    assert forall i :: 0 <= i < run ==> s[..run][i] == s[i];
  }

  /** A longer digit prefix has at least the value of a shorter one. */
  lemma {:induction false} DigitsValueGrows(s: Bytes, j: nat, m: nat)
    requires j <= m <= |s| && AllDigits(s[..m])
    ensures AllDigits(s[..j]) && DigitsValue(s[..j]) <= DigitsValue(s[..m])
    decreases m - j
  {
    assert forall i :: 0 <= i < j ==> s[..j][i] == s[..m][i];
    if j < m {
      assert s[..m][..m - 1] == s[..m - 1];
      assert forall i :: 0 <= i < m - 1 ==> s[..m - 1][i] == s[..m][i];
      DigitsValueGrows(s, j, m - 1);
    }
  }

  /** What Go's ParseUint makes of a digit text: a uint64 value, or which error. */
  datatype UintScan = Uint(n: nat) | SyntaxError | RangeError

  /**
    Go's ParseUint loop in base 10, from position `k` of `s` with `n` the
    value of the digits before it: a non-digit is a syntax error, and a digit
    that takes the value past MaxUint64 is a range error; either ends the
    scan at once.
  */
  function ScanUint(s: Bytes, k: nat, n: nat): UintScan
    requires k <= |s|
    decreases |s| - k
  {
    if k == |s| then Uint(n)
    else if !IsDigit(s[k]) then SyntaxError
    else
      var next := n * 10 + (s[k] as int - '0' as int);
      if next > MaxUint64 then RangeError else ScanUint(s, k + 1, next)
  }

  /** strconv.ParseUint in base 10 into 64 bits; an empty text is a syntax error. */
  function ParseUint(s: Bytes): UintScan
  {
    if |s| == 0 then SyntaxError else ScanUint(s, 0, 0)
  }

  /**
    The scan reads the text the way the digit run does: a range error when
    the leading run of digits exceeds MaxUint64, otherwise a syntax error
    when something follows the run, otherwise the run's value.
  */
  lemma {:induction false} ScanUintMeaning(s: Bytes, k: nat)
    requires k <= |s| && AllDigits(s[..k]) && DigitsValue(s[..k]) <= MaxUint64
    ensures var run := DigitRun(s); var v := DigitsValue(s[..run]);
      ScanUint(s, k, DigitsValue(s[..k])) ==
        if v > MaxUint64 then RangeError else if run < |s| then SyntaxError else Uint(v)
    decreases |s| - k
  {
    var run := DigitRun(s);
    if k == |s| || !IsDigit(s[k]) {
      RunEndsAt(s, k);
    } else {
      var upTo := s[..k + 1];
      assert upTo[..k] == s[..k] && upTo[k] == s[k];
      assert AllDigits(upTo);
      RunCovers(s, k + 1);
      DigitsValueGrows(s, k + 1, run);
      if DigitsValue(upTo) <= MaxUint64 {
        ScanUintMeaning(s, k + 1);
      }
    }
  }

  /** ParseUint on a non-empty text, in terms of its digit run. */
  lemma ParseUintMeaning(s: Bytes)
    ensures var run := DigitRun(s); var v := DigitsValue(s[..run]);
      ParseUint(s) ==
        if |s| == 0 then SyntaxError
        else if v > MaxUint64 then RangeError else if run < |s| then SyntaxError else Uint(v)
  {
    if |s| > 0 {
      assert s[..0] == [];
      ScanUintMeaning(s, 0);
    }
  }

  /** What strconv.Atoi returns: an int, and whether its error is nil. */
  datatype IntParse = IntParse(value: Int64, ok: bool)

  /**
    strconv.Atoi with both of its results, through ParseInt: after an
    optional sign, ParseUint reads the digits. A syntax error is returned
    with 0. A range error, or a value beyond the int64 bound on its side, is
    returned with that bound.
  */
  function ParseInt(s: Bytes): IntParse
  {
    var negative := |s| > 0 && s[0] == '-';
    var bound: Int64 := if negative then MinInt64 else MaxInt64;
    match ParseUint(Unsigned(s))
    case SyntaxError => IntParse(0, false)
    case RangeError => IntParse(bound, false)
    case Uint(u) =>
      if !negative && u > MaxInt64 then IntParse(MaxInt64, false)
      else if negative && u > -MinInt64 then IntParse(MinInt64, false)
      else IntParse(if negative then 0 - u else u, true)
  }

  /** strconv.Atoi as the callers that check its error see it. */
  function Atoi(s: Bytes): Option<Int64>
  {
    var p := ParseInt(s);
    if p.ok then Some(p.value) else None
  }

  /** A text is decimal exactly when its digit run after the sign is all of it. */
  lemma DecimalRun(s: Bytes)
    ensures IsDecimal(s) <==> |Unsigned(s)| > 0 && DigitRun(Unsigned(s)) == |Unsigned(s)|
    ensures IsDecimal(s) ==> Unsigned(s)[..DigitRun(Unsigned(s))] == Unsigned(s)
  {
    var u := Unsigned(s);
    if IsDecimal(s) {
      RunEndsAt(u, |u|);
    }
    assert u[..|u|] == u;
  }

  /**
    Atoi accepts exactly the decimal texts whose value is an int64, and
    returns that value.
  */
  lemma AtoiIsRangeCheckedDecimal(s: Bytes)
    ensures Atoi(s).Some? <==> IsDecimal(s) && MinInt64 <= DecimalValue(s) <= MaxInt64
    ensures Atoi(s).Some? ==> Atoi(s).value == DecimalValue(s)
  {
    DecimalRun(s);
    ParseUintMeaning(Unsigned(s));
  }

  /**
    The int Atoi returns alongside an error: the nearest bound for a decimal
    out of the int64 range; for any other text, the bound on its side when
    its leading digits already overflow a uint64, and 0 otherwise.
  */
  lemma ParseIntOnError(s: Bytes)
    ensures IsDecimal(s) && DecimalValue(s) > MaxInt64 ==> ParseInt(s) == IntParse(MaxInt64, false)
    ensures IsDecimal(s) && DecimalValue(s) < MinInt64 ==> ParseInt(s) == IntParse(MinInt64, false)
    ensures !IsDecimal(s) ==>
      var u := Unsigned(s);
      !ParseInt(s).ok && ParseInt(s).value ==
        if DigitsValue(u[..DigitRun(u)]) <= MaxUint64 then 0
        else if |s| > 0 && s[0] == '-' then MinInt64 else MaxInt64
    ensures !IsDecimal(s) ==> !ParseInt(s).ok && ParseInt(s).value in {0, MinInt64, MaxInt64}
  {
    DecimalRun(s);
    ParseUintMeaning(Unsigned(s));
  }

  function DigitByte(d: nat): byte
    requires d < 10
  {
    ('0' as int + d) as char
  }

  /** The shortest base-10 digit string of `n`. */
  function NatDigits(n: nat): (r: Bytes)
    ensures |r| > 0 && AllDigits(r)
  {
    if n < 10 then [DigitByte(n)] else NatDigits(n / 10) + [DigitByte(n % 10)]
  }

  /** fmt's `%d` (and strconv.Itoa): a minus sign for negative numbers, then the digits. */
  function Itoa(n: int): Bytes
  {
    if n < 0 then "-" + NatDigits(-n) else NatDigits(n)
  }

  lemma {:induction false} NatDigitsValue(n: nat)
    ensures DigitsValue(NatDigits(n)) == n
  {
    if n >= 10 {
      NatDigitsValue(n / 10);
      var s := NatDigits(n);
      assert s[..|s| - 1] == NatDigits(n / 10);
    }
  }

  /** The text `%d` prints for an int is decimal, with the int as its value. */
  lemma ItoaIsDecimal(n: int)
    ensures IsDecimal(Itoa(n)) && DecimalValue(Itoa(n)) == n
  {
    var s := Itoa(n);
    if n < 0 {
      NatDigitsValue(-n);
      assert s[0] == '-' && Unsigned(s) == NatDigits(-n);
    } else {
      NatDigitsValue(n);
      assert s == NatDigits(n) && IsDigit(s[0]) && Unsigned(s) == s;
    }
  }

  /** Printing an int with `%d` and parsing it back with Atoi gives the int. */
  lemma AtoiItoa(n: Int64)
    ensures Atoi(Itoa(n)) == Some(n)
  {
    ItoaIsDecimal(n);
    AtoiIsRangeCheckedDecimal(Itoa(n));
  }

  /**
    An integer outside the int64 range, written in decimal, is a range error,
    returned with the bound on its side.
  */
  lemma AtoiRangeError(n: int)
    requires n < MinInt64 || MaxInt64 < n
    ensures Atoi(Itoa(n)) == None
    ensures ParseInt(Itoa(n)).value == if n < 0 then MinInt64 else MaxInt64
  {
    ItoaIsDecimal(n);
    AtoiIsRangeCheckedDecimal(Itoa(n));
    ParseIntOnError(Itoa(n));
  }

  /** The spellings strconv.ParseBool accepts as true. */
  const TrueSpellings: set<Bytes> := {"1", "t", "T", "TRUE", "true", "True"}

  /** The spellings strconv.ParseBool accepts as false. */
  const FalseSpellings: set<Bytes> := {"0", "f", "F", "FALSE", "false", "False"}

  /** strconv.ParseBool */
  function ParseBool(s: Bytes): Option<bool>
  {
    if s in TrueSpellings then Some(true)
    else if s in FalseSpellings then Some(false)
    else None
  }

  /** fmt's `%t` */
  function FormatBool(b: bool): Bytes
  {
    if b then "true" else "false"
  }

  /** Printing a boolean with `%t` and parsing it back with ParseBool gives the boolean. */
  lemma ParseBoolFormatBool(b: bool)
    ensures ParseBool(FormatBool(b)) == Some(b)
  {
  }

  /** The parser's verdicts on the inputs the service's tests use. */
  lemma AtoiExamples()
    ensures Atoi("40") == Some(40) && Atoi("42") == Some(42) && Atoi("-7") == Some(-7)
    ensures Atoi("+3") == Some(3)
    ensures Atoi("") == None && Atoi("now") == None && Atoi("never") == None
    ensures Atoi("-") == None && Atoi(" 1") == None
  {
    AtoiAcceptsExamples();
    AtoiRejectsExamples();
  }

  lemma AtoiAcceptsExamples()
    ensures Atoi("40") == Some(40) && Atoi("42") == Some(42) && Atoi("-7") == Some(-7) && Atoi("+3") == Some(3)
  {
    assert "40"[..1] == "4" && "42"[..1] == "4" && "4"[..0] == "";
    AtoiOfDigits("40", "40", 40);
    AtoiOfDigits("42", "42", 42);
    assert "7"[..0] == "";
    AtoiOfDigits("-7", "7", -7);
    assert "3"[..0] == "";
    AtoiOfDigits("+3", "3", 3);
  }

  /** A short decimal text parses to its value. */
  lemma AtoiOfDigits(s: Bytes, digits: Bytes, v: int)
    requires |s| > 0 && Unsigned(s) == digits && |digits| > 0 && AllDigits(digits)
    requires v == if s[0] == '-' then 0 - DigitsValue(digits) else DigitsValue(digits) as int
    requires -100 < v < 100
    ensures Atoi(s) == Some(v)
  {
    AtoiIsRangeCheckedDecimal(s);
  }

  lemma AtoiRejectsExamples()
    ensures Atoi("") == None && Atoi("now") == None && Atoi("never") == None
    ensures Atoi("-") == None && Atoi(" 1") == None
  {
    assert !IsDigit("now"[0]) && !IsDigit("never"[0]) && !IsDigit(" 1"[0]);
    assert Unsigned("-") == "";
    AtoiIsRangeCheckedDecimal("");
    AtoiIsRangeCheckedDecimal("now");
    AtoiIsRangeCheckedDecimal("never");
    AtoiIsRangeCheckedDecimal("-");
    AtoiIsRangeCheckedDecimal(" 1");
  }
}
