/**
 * Bytes as written to the output files, and the decimal text that
 * printf's "%d" produces for a non-negative int, together with a parser
 * that reads it back.
 */
module Bytes {
  import opened Wrappers

  /** An unsigned 8-bit value. */
  type byte = b: int | 0 <= b < 256

  /** ASCII '0', ' ' and '\n'. */
  const DIGIT_ZERO: byte := 0x30
  const SPACE: byte := 0x20
  const NEWLINE: byte := 0x0A

  predicate IsDigit(b: byte) {
    DIGIT_ZERO <= b < DIGIT_ZERO + 10
  }

  predicate AllDigits(s: seq<byte>) {
    forall i :: 0 <= i < |s| ==> IsDigit(s[i])
  }

  /** The text of "%d" for n: its decimal digits, most significant first. */
  function Decimal(n: nat): (s: seq<byte>)
    ensures 1 <= |s|
    ensures AllDigits(s)
    ensures s[0] == DIGIT_ZERO ==> n == 0 && s == [DIGIT_ZERO]
    ensures n < 10 <==> |s| == 1
  {
    if n < 10 then [DIGIT_ZERO + n] else Decimal(n / 10) + [DIGIT_ZERO + n % 10]
  }

  /** Left-to-right value of the digits of s, starting from acc. */
  function Fold(s: seq<byte>, acc: int): int {
    if s == [] then acc else Fold(s[1..], acc * 10 + (s[0] - DIGIT_ZERO))
  }

  datatype Parsed = Parsed(value: int, rest: seq<byte>)

  /** Consumes the longest prefix of digits of s, accumulating into acc. */
  function ParseDigits(s: seq<byte>, acc: int): (r: Parsed)
    ensures |r.rest| <= |s|
    ensures r.rest == [] || !IsDigit(r.rest[0])
  {
    if s != [] && IsDigit(s[0]) then ParseDigits(s[1..], acc * 10 + (s[0] - DIGIT_ZERO))
    else Parsed(acc, s)
  }

  /** Reads a decimal number at the front of s; None when s does not start with a digit. */
  function ParseNat(s: seq<byte>): (r: Option<Parsed>)
    ensures r.Some? <==> (s != [] && IsDigit(s[0]))
    ensures r.Some? ==> |r.value.rest| < |s|
  {
    if s != [] && IsDigit(s[0]) then Some(ParseDigits(s, 0)) else None
  }

  lemma {:induction false} FoldAppend(x: seq<byte>, y: seq<byte>, acc: int)
    ensures Fold(x + y, acc) == Fold(y, Fold(x, acc))
    decreases |x|
  {
    if x != [] {
      assert (x + y)[1..] == x[1..] + y;
      FoldAppend(x[1..], y, acc * 10 + (x[0] - DIGIT_ZERO));
    } else {
      assert x + y == y;
    }
  }

  /** The digits Decimal writes fold back to the number. */
  lemma {:induction false} FoldDecimal(n: nat)
    ensures Fold(Decimal(n), 0) == n
  {
    if n >= 10 {
      FoldDecimal(n / 10);
      FoldAppend(Decimal(n / 10), [DIGIT_ZERO + n % 10], 0);
    }
  }

  lemma {:induction false} ParseDigitsAppend(x: seq<byte>, y: seq<byte>, acc: int)
    requires AllDigits(x)
    ensures ParseDigits(x + y, acc) == ParseDigits(y, Fold(x, acc))
    decreases |x|
  {
    if x != [] {
      var xy := x + y;
      assert xy[0] == x[0] && IsDigit(x[0]);
      assert xy[1..] == x[1..] + y;
      assert AllDigits(x[1..]) by {
        forall i | 0 <= i < |x| - 1 ensures IsDigit(x[1..][i]) {
          assert x[1..][i] == x[i + 1];
        }
      }
      var acc' := acc * 10 + (x[0] - DIGIT_ZERO);
      assert ParseDigits(xy, acc) == ParseDigits(xy[1..], acc');
      assert Fold(x, acc) == Fold(x[1..], acc');
      ParseDigitsAppend(x[1..], y, acc');
    } else {
      assert x + y == y;
    }
  }

  /** Round trip: the number printed by "%d" and followed by a non-digit reads back. */
  lemma {:induction false} ParseNatDecimal(n: nat, rest: seq<byte>)
    requires rest == [] || !IsDigit(rest[0])
    ensures ParseNat(Decimal(n) + rest) == Some(Parsed(n, rest))
  {
    ParseDigitsAppend(Decimal(n), rest, 0);
    FoldDecimal(n);
  }
}
