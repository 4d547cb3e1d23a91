/**
 The terminals that the grammars are made of, one by one as the standards list them, and apart from
 the tests and tables of the code.
 */
module Abnf {
  import opened Bytes

  /** `DIGIT` of appendix B.1 of RFC 5234, with its value. */
  function Digit(b: Byte): (d: Option<nat>)
    ensures d.Some? ==> d.value < 10
  {
    match b
    case 0x30 => Some(0)
    case 0x31 => Some(1)
    case 0x32 => Some(2)
    case 0x33 => Some(3)
    case 0x34 => Some(4)
    case 0x35 => Some(5)
    case 0x36 => Some(6)
    case 0x37 => Some(7)
    case 0x38 => Some(8)
    case 0x39 => Some(9)
    case _ => None
  }

  /** `HEXDIG`, whose letters stand for both cases. */
  function HexDig(b: Byte): (d: Option<nat>)
    ensures d.Some? ==> d.value < 16
  {
    match b
    case 0x41 => Some(10)
    case 0x42 => Some(11)
    case 0x43 => Some(12)
    case 0x44 => Some(13)
    case 0x45 => Some(14)
    case 0x46 => Some(15)
    case 0x61 => Some(10)
    case 0x62 => Some(11)
    case 0x63 => Some(12)
    case 0x64 => Some(13)
    case 0x65 => Some(14)
    case 0x66 => Some(15)
    case _ => Digit(b)
  }

  /** The hexadecimal digits in upper case, each at the place of its value. */
  const UPPER: seq<Byte> :=
    [0x30, 0x31, 0x32, 0x33, 0x34, 0x35, 0x36, 0x37, 0x38, 0x39, 0x41, 0x42, 0x43, 0x44, 0x45, 0x46]

  /** `unreserved` of section 2.3 of RFC 3986. */
  predicate Unreserved(b: Byte) {
    || Digit(b).Some?
    || 'A' as int <= b <= 'Z' as int
    || 'a' as int <= b <= 'z' as int
    || b == '-' as int || b == '.' as int || b == '_' as int || b == '~' as int
  }

  /** `ws` of section 2 of RFC 8259. */
  predicate Space(b: Byte) {
    b == 0x20 || b == 0x09 || b == 0x0A || b == 0x0D
  }

  /** The number a string of digits stands for, the first of them weighing most. */
  function Whole(digits: seq<Byte>): nat {
    if digits == [] then 0
    else match Digit(digits[|digits| - 1])
      case None => 0
      case Some(d) => 10 * Whole(digits[..|digits| - 1]) + d
  }

  // ---------------------------------------------------------------------------------------
  // The tests and tables of the code agree
  // ---------------------------------------------------------------------------------------

  lemma DigitsAgree(b: Byte)
    ensures IsDigit(b) <==> Digit(b).Some?
    ensures IsDigit(b) ==> Digit(b).value == b - 48
  {
  }

  /** The reader's hexadecimal digits, in either case, are those of the standard. */
  lemma HexDigitsAgree(b: Byte)
    ensures HexDigit(b) == HexDig(b)
  {
  }

  lemma UpperAgrees(n: nat)
    requires n < 16
    ensures UPPER[n] == HexDigitOf(n)
  {
  }

  lemma {:induction false} DecimalIsWhole(digits: seq<Byte>)
    requires forall d <- digits :: Digit(d).Some?
    ensures Decimal(digits) == Whole(digits)
    decreases |digits|
  {
    if digits != [] {
      var n := |digits| - 1;
      assert digits[n] in digits && forall d <- digits[..n] :: d in digits;
      DecimalIsWhole(digits[..n]);
      DigitsAgree(digits[n]);
    }
  }
}
