/** The part of Go's strconv package the core relies on: ParseInt in base 10
    for 64 bits (Key.IsValid) and Atoi on a 64-bit platform (the max-age
    directive), with the digit loop's syntax and range errors. */
module Strconv {
  import opened PmtTypes

  const TWO_POW_64_MINUS_1: int := 0xFFFF_FFFF_FFFF_FFFF

  predicate IsDigit(c: byte) { '0' as byte <= c <= '9' as byte }

  predicate AllDigits(s: Bytes) { forall i :: 0 <= i < |s| ==> IsDigit(s[i]) }

  function DigitValue(c: byte): nat
    requires IsDigit(c)
  {
    (c - '0' as byte) as nat
  }

  function Pow10(k: nat): (p: nat)
    ensures p >= 1
  {
    if k == 0 then 1 else 10 * Pow10(k - 1)
  }

  /** The number a run of decimal digits denotes. */
  function DigitsValue(s: Bytes): nat
    requires AllDigits(s)
  {
    if s == [] then 0 else DigitValue(s[0]) * Pow10(|s| - 1) + DigitsValue(s[1..])
  }

  /** ParseUint's digit loop for base 10 and 64 bits: a non-digit is a syntax
      error, and a value beyond 2^64-1 is a range error reported at once,
      before the rest of the string is looked at. */
  function ParseUintDigits(s: Bytes, acc: nat): (r: Result<nat>)
    ensures r.Err? ==> r.error in {NumSyntaxError, NumRangeError}
    decreases |s|
  {
    if s == [] then Ok(acc)
    else if !IsDigit(s[0]) then Err(NumSyntaxError)
    else
      var n := acc * 10 + DigitValue(s[0]);
      if n > TWO_POW_64_MINUS_1 then Err(NumRangeError) else ParseUintDigits(s[1..], n)
  }

  /** strconv.ParseInt(s, 10, 64): optional sign, then one or more decimal
      digits, then a range check against int64. */
  function ParseInt64(s: Bytes): Result<int> {
    if s == [] then Err(NumSyntaxError)
    else
      var neg := s[0] == '-' as byte;
      var body := if s[0] == '+' as byte || neg then s[1..] else s;
      if body == [] then Err(NumSyntaxError)
      else
        match ParseUintDigits(body, 0)
        case Err(e) => Err(e)
        case Ok(un) =>
          if !neg && un >= TWO_POW_63 then Err(NumRangeError)
          else if neg && un > TWO_POW_63 then Err(NumRangeError)
          else Ok(if neg then -(un as int) else un)
  }

  /** The text ParseInt accepts, stated without the scanner: an optional sign
      followed by at least one decimal digit. */
  predicate IsDecimal(s: Bytes) {
    |s| > 0 &&
    var body := if s[0] == '+' as byte || s[0] == '-' as byte then s[1..] else s;
    |body| > 0 && AllDigits(body)
  }

  function DecimalValue(s: Bytes): int
    requires IsDecimal(s)
  {
    if s[0] == '-' as byte then -(DigitsValue(s[1..]) as int)
    else if s[0] == '+' as byte then DigitsValue(s[1..])
    else DigitsValue(s)
  }

  /** The arithmetic of one step of the digit loop: moving the leading digit
      into the accumulator keeps the total. */
  lemma ShiftDigit(s: Bytes, acc: nat)
    requires s != [] && AllDigits(s)
    ensures var n := acc * 10 + DigitValue(s[0]);
      acc * Pow10(|s|) + DigitsValue(s) == n * Pow10(|s| - 1) + DigitsValue(s[1..]) &&
      acc * Pow10(|s|) + DigitsValue(s) >= n
  {
    DigitsValueCons(s);
    var d, p, v, q, total := DigitValue(s[0]), Pow10(|s| - 1), DigitsValue(s[1..]), Pow10(|s|), DigitsValue(s);
    Regroup(acc, d, p, v, q, total);
  }

  lemma DigitsValueCons(s: Bytes)
    requires s != [] && AllDigits(s)
    ensures AllDigits(s[1..]) && Pow10(|s|) == 10 * Pow10(|s| - 1)
    ensures DigitsValue(s) == DigitValue(s[0]) * Pow10(|s| - 1) + DigitsValue(s[1..])
  {
  }

  lemma Regroup(acc: nat, d: nat, p: nat, v: nat, q: nat, total: nat)
    requires p >= 1 && q == 10 * p && total == d * p + v
    ensures acc * q + total == (acc * 10 + d) * p + v
    ensures acc * q + total >= acc * 10 + d
  {
    calc {
      acc * q + total;
      acc * (10 * p) + (d * p + v);
      (acc * 10) * p + d * p + v;
      (acc * 10 + d) * p + v;
    }
    assert (acc * 10 + d) * p >= (acc * 10 + d) * 1;
  }

  /** The digit loop computes the value of the digits, or reports the overflow. */
  lemma {:induction false} ParseUintDigitsValue(s: Bytes, acc: nat)
    requires AllDigits(s) && acc <= TWO_POW_64_MINUS_1
    ensures var total := acc * Pow10(|s|) + DigitsValue(s);
      ParseUintDigits(s, acc) == if total <= TWO_POW_64_MINUS_1 then Ok(total) else Err(NumRangeError)
    decreases |s|
  {
    if s == [] {
      assert acc * Pow10(|s|) + DigitsValue(s) == acc;
    } else {
      var n := acc * 10 + DigitValue(s[0]);
      ShiftDigit(s, acc);
      if n <= TWO_POW_64_MINUS_1 {
        ParseUintDigitsValue(s[1..], n);
      }
    }
  }

  lemma {:induction false} ParseUintDigitsSyntax(s: Bytes, acc: nat)
    requires ParseUintDigits(s, acc).Ok?
    ensures AllDigits(s)
    decreases |s|
  {
    if s != [] {
      ParseUintDigitsSyntax(s[1..], acc * 10 + DigitValue(s[0]));
    }
  }

  /** ParseInt succeeds exactly on well-formed decimals in the int64 range,
      and then returns their value. */
  lemma ParseInt64Spec(s: Bytes)
    ensures ParseInt64(s).Ok? <==> IsDecimal(s) && InInt64(DecimalValue(s))
    ensures ParseInt64(s).Ok? ==> ParseInt64(s).value == DecimalValue(s)
    ensures ParseInt64(s).Err? ==> ParseInt64(s).error in {NumSyntaxError, NumRangeError}
  {
    if s != [] {
      var neg := s[0] == '-' as byte;
      var body := if s[0] == '+' as byte || neg then s[1..] else s;
      if body != [] {
        if AllDigits(body) {
          ParseUintDigitsValue(body, 0);
        } else if ParseUintDigits(body, 0).Ok? {
          ParseUintDigitsSyntax(body, 0);
          assert false;
        }
      }
    }
  }

  /** strconv.Atoi where int is 64 bits wide: the same parse as ParseInt(s, 10, 64). */
  function Atoi(s: Bytes): Result<int> {
    ParseInt64(s)
  }
}
