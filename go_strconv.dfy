/** Go's strconv.ParseInt(s, 10, 64): what it accepts, the value it yields and
    the error it reports. The digit loop follows strconv.ParseUint: an invalid
    digit is a syntax error, a prefix whose value leaves the uint64 range is a
    range error, whichever comes first; ParseInt then applies the int64 bounds. */
module GoStrconv {

  const MaxUint64: int := 0xFFFF_FFFF_FFFF_FFFF
  const MaxInt64: int := 0x7FFF_FFFF_FFFF_FFFF
  const MinInt64: int := -0x8000_0000_0000_0000

  /** Go's int64; time.Now().UnixNano() is one. */
  type int64 = x: int | MinInt64 <= x <= MaxInt64

  /** The two NumError causes ParseInt reports for base 10. */
  datatype NumError = ErrSyntax | ErrRange

  /** (value, err) with err == nil as Parsed. */
  datatype ParseResult = Parsed(value: int) | Failed(err: NumError)

  predicate IsDigit(c: char) { '0' <= c <= '9' }

  function DigitValue(c: char): (d: nat)
    requires IsDigit(c)
    ensures d < 10
  {
    (c as int) - ('0' as int)
  }

  predicate IsDigits(s: string) { forall i :: 0 <= i < |s| ==> IsDigit(s[i]) }

  function Pow10(k: nat): (p: nat)
    ensures p >= 1
  {
    if k == 0 then 1 else 10 * Pow10(k - 1)
  }

  /** Reference reading of a digit string: the positional value, leading digit first. */
  function Decimal(s: string): nat
    requires IsDigits(s)
  {
    if |s| == 0 then 0 else DigitValue(s[0]) * Pow10(|s| - 1) + Decimal(s[1..])
  }

  /** ParseUint's digit loop for base 10 and 64 bits; acc is the value read so far. */
  function Accumulate(s: string, acc: nat): (r: ParseResult)
    requires acc <= MaxUint64
    ensures r.Parsed? ==> acc <= r.value <= MaxUint64
    decreases |s|
  {
    if |s| == 0 then Parsed(acc)
    else if !IsDigit(s[0]) then Failed(ErrSyntax)
    else
      var n := acc * 10 + DigitValue(s[0]);
      if n > MaxUint64 then Failed(ErrRange) else Accumulate(s[1..], n)
  }

  /** strconv.ParseUint(s, 10, 64). Base 10 admits no underscores and no prefix. */
  function ParseUint(s: string): (r: ParseResult)
    ensures r.Parsed? <==> |s| > 0 && IsDigits(s) && Decimal(s) <= MaxUint64
    ensures r.Parsed? ==> IsDigits(s) && r.value == Decimal(s)
  {
    if |s| == 0 then Failed(ErrSyntax)
    else
      AccumulateValue(s, 0);
      assert 0 * Pow10(|s|) == 0;
      Accumulate(s, 0)
  }

  /** s without its leading '+' or '-', if any. */
  function Magnitude(s: string): string
  {
    if |s| > 0 && (s[0] == '+' || s[0] == '-') then s[1..] else s
  }

  /** strconv.ParseInt(s, 10, 64). */
  function ParseInt(s: string): (r: ParseResult)
    ensures r.Parsed? ==> MinInt64 <= r.value <= MaxInt64
  {
    if |s| == 0 then Failed(ErrSyntax)
    else
      var neg := s[0] == '-';
      match ParseUint(Magnitude(s))
      case Failed(ErrSyntax) => Failed(ErrSyntax)
      // ParseUint saturates at MaxUint64 on ErrRange, which is past either bound
      case Failed(ErrRange) => Failed(ErrRange)
      case Parsed(un) =>
        if !neg && un > MaxInt64 then Failed(ErrRange)
        else if neg && un > -MinInt64 then Failed(ErrRange)
        else Parsed(if neg then -un else un)
  }

  /** The decimal-literal syntax ParseInt accepts: an optional sign, then one or more ASCII digits. */
  predicate IsDecimalLiteral(s: string)
  {
    |Magnitude(s)| > 0 && IsDigits(Magnitude(s))
  }

  /** The mathematical value of a decimal literal, with no bound applied. */
  function LiteralValue(s: string): int
    requires IsDecimalLiteral(s)
  {
    var d: int := Decimal(Magnitude(s));
    if s[0] == '-' then -d else d
  }

  predicate InInt64(v: int) { MinInt64 <= v <= MaxInt64 }

  lemma MulStep(acc: nat, d: nat, p: nat, rest: nat)
    ensures acc * (10 * p) + (d * p + rest) == (acc * 10 + d) * p + rest
  {
  }

  lemma MulGrows(n: nat, p: nat)
    requires p >= 1
    ensures n * p >= n
  {
  }

  /** The digit loop succeeds exactly on digit strings whose value, appended to acc,
      stays within uint64, and then yields that value. */
  lemma {:induction false} AccumulateValue(s: string, acc: nat)
    requires acc <= MaxUint64
    ensures Accumulate(s, acc).Parsed? <==> IsDigits(s) && acc * Pow10(|s|) + Decimal(s) <= MaxUint64
    ensures Accumulate(s, acc).Parsed? ==> IsDigits(s) && Accumulate(s, acc).value == acc * Pow10(|s|) + Decimal(s)
    ensures IsDigits(s) && acc * Pow10(|s|) + Decimal(s) > MaxUint64 ==> Accumulate(s, acc) == Failed(ErrRange)
    decreases |s|
  {
    if |s| > 0 && IsDigit(s[0]) {
      var d := DigitValue(s[0]);
      var n := acc * 10 + d;
      var t := s[1..];
      assert IsDigits(s) <==> IsDigits(t) by {
        assert forall i :: 0 <= i < |t| ==> t[i] == s[i + 1];
      }
      if IsDigits(s) {
        calc {
          acc * Pow10(|s|) + Decimal(s);
          acc * (10 * Pow10(|t|)) + (d * Pow10(|t|) + Decimal(t));
          { MulStep(acc, d, Pow10(|t|), Decimal(t)); }
          n * Pow10(|t|) + Decimal(t);
        }
        MulGrows(n, Pow10(|t|));
      }
      if n <= MaxUint64 {
        AccumulateValue(t, n);
      }
    }
  }

  /** ParseInt(s, 10, 64) returns err == nil exactly on an optionally signed run of
      ASCII digits whose value lies in [-2^63, 2^63 - 1], and the value is that of the literal. */
  lemma ParseIntAccepts(s: string)
    ensures ParseInt(s).Parsed? <==> IsDecimalLiteral(s) && InInt64(LiteralValue(s))
    ensures ParseInt(s).Parsed? ==> IsDecimalLiteral(s) && ParseInt(s).value == LiteralValue(s)
  {
  }

  /** A well-formed literal outside the int64 range is rejected with ErrRange, never read modulo 2^64. */
  lemma ParseIntOverflow(s: string)
    requires IsDecimalLiteral(s) && !InInt64(LiteralValue(s))
    ensures ParseInt(s) == Failed(ErrRange)
  {
    var m := Magnitude(s);
    AccumulateValue(m, 0);
    assert 0 * Pow10(|m|) == 0;
  }

  /** An empty string and a lone sign are syntax errors. */
  lemma ParseIntNoDigits(s: string)
    requires |Magnitude(s)| == 0
    ensures ParseInt(s) == Failed(ErrSyntax)
  {
  }

  /** Small cases of the literal syntax: digits only, no underscores in base 10, no empty input. */
  lemma ParseIntSmall()
    ensures ParseInt("100") == Parsed(100)
    ensures ParseInt("1_000") == Failed(ErrSyntax)
    ensures ParseInt("") == Failed(ErrSyntax)
  {
  }
}
