/** The part of reader.h below values: white space, comments, literals, strings and numbers. */
module Lexer {
  import opened Bytes
  import opened Json
  import Utf8

  // ---------------------------------------------------------------------------------------
  // White space and comments
  // ---------------------------------------------------------------------------------------

  predicate IsSpace(b: Byte) {
    b == 32 || b == 10 || b == 13 || b == 9
  }

  function SkipWhitespace(s: seq<Byte>, i: nat): (j: nat)
    requires i <= |s|
    ensures i <= j <= |s|
    decreases |s| - i
  {
    if IsSpace(Peek(s, i)) then SkipWhitespace(s, i + 1) else i
  }

  datatype Skipped = Skipped(pos: nat) | Unclosed(offset: nat)

  /** After an opening comment mark: up to and past the closing one. */
  function SkipBlockComment(s: seq<Byte>, i: nat): (r: Skipped)
    requires i <= |s|
    ensures r.Skipped? ==> i < r.pos <= |s|
    decreases |s| - i
  {
    if Peek(s, i) == 0 then Unclosed(i)
    else if s[i] == STAR && Peek(s, i + 1) == SLASH then Skipped(i + 2)
    else SkipBlockComment(s, i + 1)
  }

  function SkipLineComment(s: seq<Byte>, i: nat): (j: nat)
    requires i <= |s|
    ensures i <= j <= |s|
    decreases |s| - i
  {
    if Peek(s, i) == 0 then i
    else if s[i] == NEWLINE then i + 1
    else SkipLineComment(s, i + 1)
  }

  /** The loop of `SkipWhitespaceAndComments` over comments. */
  function SkipComments(s: seq<Byte>, i: nat): (r: Skipped)
    requires i <= |s|
    ensures r.Skipped? ==> i <= r.pos <= |s|
    decreases |s| - i
  {
    if Peek(s, i) != SLASH then Skipped(i)
    else if Peek(s, i + 1) == STAR then
      match SkipBlockComment(s, i + 2)
      case Unclosed(offset) => Unclosed(offset)
      case Skipped(j) => SkipComments(s, SkipWhitespace(s, j))
    else if Peek(s, i + 1) == SLASH then
      SkipComments(s, SkipWhitespace(s, SkipLineComment(s, i + 2)))
    else Unclosed(i + 1)
  }

  /** `SkipWhitespaceAndComments`, carrying the events sent so far into a failure. */
  function Skip(c: Config, s: seq<Byte>, i: nat, events: seq<Event>): (r: Outcome<nat>)
    requires i <= |s|
    ensures r.Done? ==> i <= r.value <= |s|
  {
    var j := SkipWhitespace(s, i);
    if !c.comments then Done(j)
    else match SkipComments(s, j)
      case Skipped(k) => Done(k)
      case Unclosed(offset) => Stop(Failure(UnspecificSyntaxError, offset, events))
  }

  // ---------------------------------------------------------------------------------------
  // Scalars
  // ---------------------------------------------------------------------------------------

  /**
   One scalar read from the text: where it ended, its event, and the offset reported should the
   handler refuse it; or the error.
   */
  datatype Lexeme = Lexeme(pos: nat, event: Event, refusedAt: nat) | Bad(code: ErrorCode, offset: nat)

  /** Matches `rest` byte by byte, as the chain of `Consume` calls does. */
  function MatchedPrefix(s: seq<Byte>, i: nat, rest: seq<Byte>): (j: nat)
    requires i <= |s|
    ensures i <= j <= |s| && j - i <= |rest|
    decreases |rest|
  {
    if rest != [] && i < |s| && s[i] == rest[0] then MatchedPrefix(s, i + 1, rest[1..]) else i
  }

  /** `ParseNull`, `ParseTrue` and `ParseFalse`, whose first letter has already been seen. */
  function ParseLiteral(s: seq<Byte>, i: nat, rest: seq<Byte>, event: Event): (r: Lexeme)
    requires i < |s|
    ensures r.Lexeme? ==> i < r.pos <= |s|
  {
    var j := MatchedPrefix(s, i + 1, rest);
    if j == i + 1 + |rest| then Lexeme(j, event, j) else Bad(ValueInvalid, j)
  }

  /** `ParseHex4`, with `n` digits still to read. */
  function ParseHex(s: seq<Byte>, i: nat, n: nat, codepoint: nat): (r: Option<nat>)
    ensures r.Some? && n > 0 ==> i + n <= |s|
    decreases n
  {
    if n == 0 then Some(codepoint)
    else match HexDigit(Peek(s, i))
      case None => None
      case Some(d) => ParseHex(s, i + 1, n - 1, codepoint * 16 + d)
  }

  lemma ParseHexUnfolds(s: seq<Byte>, i: nat, n: nat, codepoint: nat)
    requires n > 0
    ensures ParseHex(s, i, n, codepoint)
         == match HexDigit(Peek(s, i)) case None => None case Some(d) => ParseHex(s, i + 1, n - 1, codepoint * 16 + d)
  {
  }

  lemma ParseHexEnds(s: seq<Byte>, i: nat, codepoint: nat)
    ensures ParseHex(s, i, 0, codepoint) == Some(codepoint)
  {
  }

  /** One digit more. */
  lemma ParseHexStep(s: seq<Byte>, i: nat, n: nat, codepoint: nat) returns (next: nat)
    requires n > 0 && ParseHex(s, i, n, codepoint).Some?
    ensures codepoint * 16 <= next < codepoint * 16 + 16
    ensures ParseHex(s, i, n, codepoint) == ParseHex(s, i + 1, n - 1, next)
  {
    next := codepoint * 16 + HexDigit(Peek(s, i)).value;
  }

  /** Four digits make a 16-bit number. */
  lemma ParseHexBound(s: seq<Byte>, i: nat)
    requires ParseHex(s, i, 4, 0).Some?
    ensures ParseHex(s, i, 4, 0).value < 0x1_0000
  {
    assert forall codepoint: nat :: ParseHex(s, i + 4, 0, codepoint) == Some(codepoint);
    hide ParseHex;
    var one := ParseHexStep(s, i, 4, 0);
    var two := ParseHexStep(s, i + 1, 3, one);
    var three := ParseHexStep(s, i + 2, 2, two);
    var four := ParseHexStep(s, i + 3, 1, three);
  }

  /** The reader's table of one-letter escapes; zero where there is none. */
  function Unescape(e: Byte): Byte {
    match e
    case 34 => 34
    case 47 => 47
    case 92 => 92
    case 98 => 8
    case 102 => 12
    case 110 => 10
    case 114 => 13
    case 116 => 9
    case _ => 0
  }

  datatype Scanned = Scanned(pos: nat, str: seq<Byte>) | BadString(code: ErrorCode, offset: nat)

  /** A `\u` escape at `i`, with its second half when the first is a leading surrogate. */
  function ParseUnicodeEscape(s: seq<Byte>, i: nat): (r: Scanned)
    ensures r.Scanned? ==> i < r.pos <= |s|
    ensures r.BadString? ==> r.offset == i
  {
    match ParseHex(s, i + 2, 4, 0)
    case None => BadString(StringUnicodeEscapeInvalidHex, i)
    case Some(lead) =>
      ParseHexBound(s, i + 2);
      if !(0xD800 <= lead <= 0xDBFF) then Scanned(i + 6, Utf8.Encode(lead))
      else if Peek(s, i + 6) != BACKSLASH || Peek(s, i + 7) != LOWER_U then
        BadString(StringUnicodeSurrogateInvalid, i)
      else match ParseHex(s, i + 8, 4, 0)
        case None => BadString(StringUnicodeEscapeInvalidHex, i)
        case Some(trail) =>
          if !(0xDC00 <= trail <= 0xDFFF) then BadString(StringUnicodeSurrogateInvalid, i)
          else Scanned(i + 12, Utf8.Encode((lead - 0xD800) * 1024 + (trail - 0xDC00) + 0x1_0000))
  }

  /** `ParseStringToStream` from `i` on, `str` being what it has put out already. */
  function ParseStringBody(c: Config, s: seq<Byte>, i: nat, str: seq<Byte>): (r: Scanned)
    requires i <= |s|
    ensures r.Scanned? ==> i < r.pos <= |s|
    ensures r.BadString? ==> i <= r.offset
    decreases |s| - i
  {
    var b := Peek(s, i);
    if b == BACKSLASH then
      var e := Peek(s, i + 1);
      if Unescape(e) != 0 then ParseStringBody(c, s, i + 2, str + [Unescape(e)])
      else if e == LOWER_U then
        match ParseUnicodeEscape(s, i)
        case Scanned(j, encoded) => ParseStringBody(c, s, j, str + encoded)
        case BadString(code, offset) => BadString(code, offset)
      else BadString(StringEscapeInvalid, i)
    else if b == QUOTE then Scanned(i + 1, str)
    else if b == 0 then BadString(StringMissQuotationMark, i)
    else if b < 0x20 then BadString(StringInvalidEncoding, i)
    else if c.validateEncoding then
      var checked := Utf8.Validate(s, i);
      if checked.ok then ParseStringBody(c, s, checked.next, str + s[i..checked.next])
      else BadString(StringInvalidEncoding, i)
    else ParseStringBody(c, s, i + 1, str + [b])
  }

  /** `ParseString`, at an opening quote. */
  function ParseString(c: Config, s: seq<Byte>, i: nat, isKey: bool): (r: Lexeme)
    requires i < |s|
    ensures r.Lexeme? ==> i < r.pos <= |s|
  {
    match ParseStringBody(c, s, i + 1, [])
    case Scanned(j, str) => Lexeme(j, if isKey then Key(str) else String(str), j)
    case BadString(code, offset) => Bad(code, offset)
  }

  // ---------------------------------------------------------------------------------------
  // Numbers
  // ---------------------------------------------------------------------------------------

  /** The end of the run of digits at `i`. */
  function EndOfDigits(s: seq<Byte>, i: nat): (j: nat)
    requires i <= |s|
    ensures i <= j <= |s|
    ensures forall k | i <= k < j :: IsDigit(s[k])
    ensures !IsDigit(Peek(s, j))
    ensures IsDigit(Peek(s, i)) ==> i < j
    decreases |s| - i
  {
    if IsDigit(Peek(s, i)) then EndOfDigits(s, i + 1) else i
  }

  /**
   The event for an integer literal of magnitude `m`: the narrowest of the two widths for its
   sign, and none outside `[-2^63, 2^64 - 1]`.
   */
  function NarrowestInteger(minus: bool, m: nat): Option<Event> {
    if minus then
      if m <= 0x8000_0000 then Some(Int(-(m as int)))
      else if m <= 0x8000_0000_0000_0000 then Some(Int64(-(m as int)))
      else None
    else
      if m < 0x1_0000_0000 then Some(Uint(m))
      else if m < 0x1_0000_0000_0000_0000 then Some(Uint64(m))
      else None
  }

  lemma {:induction false} DecimalIsNat(digits: seq<Byte>)
    requires forall d <- digits :: IsDigit(d)
    ensures Decimal(digits) >= 0
  {
    if digits != [] {
      assert digits[|digits| - 1] in digits;
      DecimalIsNat(digits[..|digits| - 1]);
    }
  }

  /** Where the digits of a number begin, where its integer part ends, and where it ends. */
  datatype NumberShape = NumberShape(digits: nat, intEnd: nat, end: nat) | BadNumber(code: ErrorCode, offset: nat)

  /** The number grammar of section 6 of RFC 8259. */
  function ScanNumber(s: seq<Byte>, i: nat): (r: NumberShape)
    requires i <= |s|
    ensures r.NumberShape? ==> i <= r.digits < r.intEnd <= r.end <= |s|
    ensures r.NumberShape? ==> forall k | r.digits <= k < r.intEnd :: IsDigit(s[k])
  {
    var a := if Peek(s, i) == MINUS then i + 1 else i;
    if !IsDigit(Peek(s, a)) then BadNumber(ValueInvalid, a)
    else
      var b := if s[a] == ZERO then a + 1 else EndOfDigits(s, a);
      match ScanRest(s, b)
      case BadRest(code, offset) => BadNumber(code, offset)
      case RestEnd(end) => NumberShape(a, b, end)
  }

  datatype Rest = RestEnd(end: nat) | BadRest(code: ErrorCode, offset: nat)

  /** The fraction and the exponent, each of which may be missing. */
  function ScanRest(s: seq<Byte>, b: nat): (r: Rest)
    requires b <= |s|
    ensures r.RestEnd? ==> b <= r.end <= |s|
  {
    if Peek(s, b) == DOT && !IsDigit(Peek(s, b + 1)) then BadRest(NumberMissFraction, b + 1)
    else
      var f := if Peek(s, b) == DOT then EndOfDigits(s, b + 1) else b;
      if Peek(s, f) == LOWER_E || Peek(s, f) == UPPER_E then
        var h := if Peek(s, f + 1) == PLUS || Peek(s, f + 1) == MINUS then f + 2 else f + 1;
        if !IsDigit(Peek(s, h)) then BadRest(NumberMissExponent, h)
        else RestEnd(EndOfDigits(s, h))
      else RestEnd(f)
  }

  /** `ParseNumber`: an integer when there is neither fraction nor exponent and it fits 64 bits. */
  function ParseNumber(c: Config, s: seq<Byte>, i: nat): (r: Lexeme)
    requires i <= |s|
    ensures r.Lexeme? ==> i < r.pos <= |s|
  {
    match ScanNumber(s, i)
    case BadNumber(code, offset) => Bad(code, offset)
    case NumberShape(a, b, end) =>
      DecimalIsNat(s[a..b]);
      if end > b then DoubleLexeme(c, s, i, end)
      else match NarrowestInteger(Peek(s, i) == MINUS, Decimal(s[a..b]))
        case Some(e) => Lexeme(b, e, i)
        case None => DoubleLexeme(c, s, i, b)
  }

  function DoubleLexeme(c: Config, s: seq<Byte>, i: nat, j: nat): Lexeme
    requires i <= j <= |s|
  {
    match c.toDouble(s[i..j])
    case Some(bits) => Lexeme(j, Double(bits), i)
    case None => Bad(NumberTooBig, i)
  }

  /** `ParseValue` on anything but an object or an array. */
  function ParseScalar(c: Config, s: seq<Byte>, i: nat): (r: Lexeme)
    requires i <= |s|
    ensures r.Lexeme? ==> i < r.pos <= |s|
  {
    var b := Peek(s, i);
    if b == LOWER_N then ParseLiteral(s, i, [117, 108, 108], Null)
    else if b == LOWER_T then ParseLiteral(s, i, [114, 117, 101], Bool(true))
    else if b == LOWER_F then ParseLiteral(s, i, [97, 108, 115, 101], Bool(false))
    else if b == QUOTE then ParseString(c, s, i, false)
    else ParseNumber(c, s, i)
  }
}
