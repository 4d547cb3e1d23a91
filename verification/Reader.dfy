/** The reader of reader.h as it runs: one object moving over a text, a stack, and a parse result. */
module Reader {
  import opened Bytes
  import opened Json
  import Utf8
  import Lexer
  import Grammar
  import Brackets

  /** A 32-bit and a 64-bit unsigned result. */
  function U32(n: int): int {
    n % 0x1_0000_0000
  }

  function U64(n: int): int {
    n % 0x1_0000_0000_0000_0000
  }

  /** Casting an unsigned number to the signed type of the same width. */
  function ToInt32(u: int): int {
    if u < 0x8000_0000 then u else u - 0x1_0000_0000
  }

  function ToInt64(u: int): int {
    if u < 0x8000_0000_0000_0000 then u else u - 0x1_0000_0000_0000_0000
  }

  lemma DecimalStep(s: seq<Byte>, a: nat, i: nat)
    requires a <= i < |s|
    ensures Decimal(s[a..i + 1]) == Decimal(s[a..i]) * 10 + (s[i] as int - 48)
  {
    assert s[a..i + 1][..i - a] == s[a..i];
  }

  class GenericReader {
    const config: Config
    const text: seq<Byte>
    var pos: nat
    var events: seq<Event>
    var stack_: seq<Grammar.Cell>
    var error: Option<(ErrorCode, nat)>

    constructor (config: Config, text: seq<Byte>)
      ensures this.config == config && this.text == text
      ensures pos == 0 && events == [] && stack_ == [] && error == None
    {
      this.config := config;
      this.text := text;
      pos, events, stack_, error := 0, [], [], None;
    }

    /** Between calls: no error so far, and the position is in the text. */
    predicate Ready()
      reads this
    {
      error.None? && pos <= |text|
    }

    /** The parse result, with the position when there is no error. */
    function Result(): Outcome<Point>
      reads this
    {
      match error
      case None => Done(Point(pos, events))
      case Some((code, offset)) => Stop(Failure(code, offset, events))
    }

    function Look(): Byte
      reads this
    {
      Peek(text, pos)
    }

    method SetParseError(code: ErrorCode, offset: nat)
      modifies this`error
      ensures error == Some((code, offset))
    {
      error := Some((code, offset));
    }

    method Consume(wanted: Byte) returns (taken: bool)
      requires Ready() && wanted != 0
      modifies this`pos
      ensures Ready() && taken == (old(Look()) == wanted)
      ensures pos == if taken then old(pos) + 1 else old(pos)
    {
      taken := Look() == wanted;
      if taken {
        pos := pos + 1;
      }
    }

    /** One handler call. */
    method Send(e: Event, offset: nat)
      requires Ready()
      modifies this`events, this`error
      ensures events == old(events) + [e]
      ensures error == if config.accepts(old(events) + [e]) then None else Some((Termination, offset))
    {
      events := events + [e];
      if !config.accepts(events) {
        SetParseError(Termination, offset);
      }
    }

    method SkipWhitespace()
      requires Ready()
      modifies this`pos
      ensures Ready() && pos == Lexer.SkipWhitespace(text, old(pos))
    {
      while Lexer.IsSpace(Look())
        invariant Ready()
        invariant Lexer.SkipWhitespace(text, pos) == Lexer.SkipWhitespace(text, old(pos))
        decreases |text| - pos
      {
        pos := pos + 1;
      }
    }

    method SkipBlockComment()
      requires Ready()
      modifies this`pos, this`error
      ensures match Lexer.SkipBlockComment(text, old(pos))
              case Skipped(j) => Ready() && pos == j
              case Unclosed(offset) => error == Some((UnspecificSyntaxError, offset))
    {
      while true
        invariant Ready()
        invariant Lexer.SkipBlockComment(text, pos) == Lexer.SkipBlockComment(text, old(pos))
        decreases |text| - pos
      {
        if Look() == 0 {
          SetParseError(UnspecificSyntaxError, pos);
          return;
        }
        var star := Consume(STAR);
        if star {
          var slash := Consume(SLASH);
          if slash {
            return;
          }
        } else {
          pos := pos + 1;
        }
      }
    }

    method SkipLineComment()
      requires Ready()
      modifies this`pos
      ensures Ready() && pos == Lexer.SkipLineComment(text, old(pos))
    {
      var newline := false;
      while Look() != 0 && !newline
        invariant Ready()
        invariant (if newline then pos else Lexer.SkipLineComment(text, pos)) == Lexer.SkipLineComment(text, old(pos))
        decreases |text| - pos
      {
        newline := Look() == NEWLINE;
        pos := pos + 1;
      }
    }

    method SkipWhitespaceAndComments()
      requires Ready()
      modifies this`pos, this`error
      ensures match Lexer.Skip(config, text, old(pos), events)
              case Done(j) => Ready() && pos == j
              case Stop(f) => Result() == Stop(f)
    {
      SkipWhitespace();
      if !config.comments {
        return;
      }
      ghost var start := pos;
      while Look() == SLASH
        invariant Ready() && start <= pos
        invariant Lexer.SkipComments(text, pos) == Lexer.SkipComments(text, start)
        decreases |text| - pos
      {
        pos := pos + 1;
        var star := Consume(STAR);
        if star {
          SkipBlockComment();
          if error.Some? {
            return;
          }
        } else {
          var slash := Consume(SLASH);
          if slash {
            SkipLineComment();
          } else {
            SetParseError(UnspecificSyntaxError, pos);
            return;
          }
        }
        SkipWhitespace();
      }
    }

    /** The end of the three literal parsers, `matched` saying whether all of `rest` was consumed. */
    method FinishLiteral(ghost start: nat, ghost rest: seq<Byte>, event: Event, matched: bool)
      requires Ready() && start < |text|
      requires pos == Lexer.MatchedPrefix(text, start + 1, rest) && matched == (pos == start + 1 + |rest|)
      modifies this`events, this`error
      ensures Result() == Grammar.Report(config, Lexer.ParseLiteral(text, start, rest, event), old(events))
      ensures error.None? ==> start < pos <= |text|
    {
      if matched {
        Send(event, pos);
      } else {
        SetParseError(ValueInvalid, pos);
      }
    }

    method ParseNull()
      requires Ready() && pos < |text|
      modifies this`pos, this`events, this`error
      ensures Result() == Grammar.Report(config, Lexer.ParseLiteral(text, old(pos), [117, 108, 108], Null), old(events))
      ensures error.None? ==> old(pos) < pos <= |text|
    {
      pos := pos + 1;
      var matched := Consume(117);
      if matched {
        matched := Consume(108);
      }
      if matched {
        matched := Consume(108);
      }
      FinishLiteral(old(pos), [117, 108, 108], Null, matched);
    }

    method ParseTrue()
      requires Ready() && pos < |text|
      modifies this`pos, this`events, this`error
      ensures Result() == Grammar.Report(config, Lexer.ParseLiteral(text, old(pos), [114, 117, 101], Bool(true)), old(events))
      ensures error.None? ==> old(pos) < pos <= |text|
    {
      pos := pos + 1;
      var matched := Consume(114);
      if matched {
        matched := Consume(117);
      }
      if matched {
        matched := Consume(101);
      }
      FinishLiteral(old(pos), [114, 117, 101], Bool(true), matched);
    }

    method ParseFalse()
      requires Ready() && pos < |text|
      modifies this`pos, this`events, this`error
      ensures Result() == Grammar.Report(config, Lexer.ParseLiteral(text, old(pos), [97, 108, 115, 101], Bool(false)), old(events))
      ensures error.None? ==> old(pos) < pos <= |text|
    {
      pos := pos + 1;
      var matched := Consume(97);
      if matched {
        matched := Consume(108);
      }
      if matched {
        matched := Consume(115);
      }
      if matched {
        matched := Consume(101);
      }
      FinishLiteral(old(pos), [97, 108, 115, 101], Bool(false), matched);
    }

    /** Reads four hexadecimal digits. */
    method ParseHex4(escapeOffset: nat) returns (codepoint: nat)
      requires Ready()
      modifies this`pos, this`error
      ensures match Lexer.ParseHex(text, old(pos), 4, 0)
              case Some(n) => Ready() && codepoint == n && pos == old(pos) + 4
              case None => error == Some((StringUnicodeEscapeInvalidHex, escapeOffset))
    {
      hide Lexer.ParseHex;
      codepoint := 0;
      for i := 0 to 4
        invariant Ready() && pos == old(pos) + i
        invariant Lexer.ParseHex(text, pos, 4 - i, codepoint) == Lexer.ParseHex(text, old(pos), 4, 0)
      {
        var c := Look();
        Lexer.ParseHexUnfolds(text, pos, 4 - i, codepoint);
        match HexDigit(c) {
          case None =>
            SetParseError(StringUnicodeEscapeInvalidHex, escapeOffset);
            return;
          case Some(d) =>
            codepoint := codepoint * 16 + d;
            pos := pos + 1;
        }
      }
      Lexer.ParseHexEnds(text, pos, codepoint);
    }

    method ParseUnicodeEscape(escapeOffset: nat) returns (encoded: seq<Byte>)
      requires Ready() && pos == escapeOffset + 2
      modifies this`pos, this`error
      ensures match Lexer.ParseUnicodeEscape(text, escapeOffset)
              case Scanned(j, str) => Ready() && pos == j && encoded == str
              case BadString(code, offset) => error == Some((code, offset))
    {
      hide Lexer.ParseHex, Utf8.Encode;
      encoded := [];
      var codepoint := ParseHex4(escapeOffset);
      if error.Some? {
        return;
      }
      Lexer.ParseHexBound(text, escapeOffset + 2);
      if 0xD800 <= codepoint <= 0xDBFF {
        var first := Consume(BACKSLASH);
        var second := false;
        if first {
          second := Consume(LOWER_U);
        }
        if !first || !second {
          SetParseError(StringUnicodeSurrogateInvalid, escapeOffset);
          return;
        }
        var codepoint2 := ParseHex4(escapeOffset);
        if error.Some? {
          return;
        }
        if codepoint2 < 0xDC00 || codepoint2 > 0xDFFF {
          SetParseError(StringUnicodeSurrogateInvalid, escapeOffset);
          return;
        }
        codepoint := (codepoint - 0xD800) * 1024 + (codepoint2 - 0xDC00) + 0x1_0000;
      }
      encoded := Utf8.Encode(codepoint);
    }

    method ParseStringToStream() returns (str: seq<Byte>)
      requires Ready()
      modifies this`pos, this`error
      ensures match Lexer.ParseStringBody(config, text, old(pos), [])
              case Scanned(j, out) => Ready() && pos == j && str == out
              case BadString(code, offset) => error == Some((code, offset))
    {
      str := [];
      while true
        invariant Ready()
        invariant Lexer.ParseStringBody(config, text, pos, str) == Lexer.ParseStringBody(config, text, old(pos), [])
        decreases |text| - pos
      {
        var c := Look();
        if c == BACKSLASH {
          var escapeOffset := pos;
          pos := pos + 1;
          var e := Look();
          if Lexer.Unescape(e) != 0 {
            pos := pos + 1;
            str := str + [Lexer.Unescape(e)];
          } else if e == LOWER_U {
            pos := pos + 1;
            var encoded := ParseUnicodeEscape(escapeOffset);
            if error.Some? {
              return;
            }
            str := str + encoded;
          } else {
            SetParseError(StringEscapeInvalid, escapeOffset);
            return;
          }
        } else if c == QUOTE {
          pos := pos + 1;
          return;
        } else if c < 0x20 {
          SetParseError(if c == 0 then StringMissQuotationMark else StringInvalidEncoding, pos);
          return;
        } else if config.validateEncoding {
          var checked := Utf8.Validate(text, pos);
          if !checked.ok {
            SetParseError(StringInvalidEncoding, pos);
            return;
          }
          str := str + text[pos..checked.next];
          pos := checked.next;
        } else {
          str := str + [c];
          pos := pos + 1;
        }
      }
    }

    method ParseString(isKey: bool)
      requires Ready() && Look() == QUOTE
      modifies this`pos, this`events, this`error
      ensures Result() == Grammar.Report(config, Lexer.ParseString(config, text, old(pos), isKey), old(events))
      ensures error.None? ==> old(pos) < pos <= |text|
    {
      hide Lexer.ParseStringBody;
      pos := pos + 1;
      var str := ParseStringToStream();
      if error.Some? {
        return;
      }
      Send(if isKey then Key(str) else String(str), pos);
    }

    /** The 32-bit accumulator of `ParseNumber`: it stops at the end or where the next digit would overflow. */
    method Accumulate32(minus: bool) returns (i: int, use64bit: bool)
      requires Ready() && 49 <= Look() <= 57
      modifies this`pos
      ensures Ready() && old(pos) < pos && i == Decimal(text[old(pos)..pos]) && 0 <= i <= Limit32(minus)
      ensures Lexer.EndOfDigits(text, pos) == Lexer.EndOfDigits(text, old(pos))
      ensures if use64bit then IsDigit(Look()) && i * 10 + (Look() - 48) > Limit32(minus) else !IsDigit(Look())
    {
      hide U32;
      ghost var a := pos;
      i, use64bit := Look() - 48, false;
      DecimalStep(text, a, a);
      assert text[a..a] == [];
      pos := pos + 1;
      while IsDigit(Look())
        invariant Ready() && a < pos && i == Decimal(text[a..pos]) && 0 <= i <= Limit32(minus)
        invariant Lexer.EndOfDigits(text, pos) == Lexer.EndOfDigits(text, a)
        decreases |text| - pos
      {
        NoOverflow32(minus, i, Look() - 48);
        if i >= (if minus then 214748364 else 429496729) {
          if i != (if minus then 214748364 else 429496729) || Look() > (if minus then 56 else 53) {
            use64bit := true;
            return;
          }
        }
        DecimalStep(text, a, pos);
        i := U32(U32(i * 10) + (Look() - 48));
        pos := pos + 1;
      }
    }

    /** The 64-bit accumulator, taking over at `i64` with a digit that no longer fits 32 bits. */
    method Accumulate64(minus: bool, ghost a: nat, i: int) returns (i64: int, useDouble: bool)
      requires Ready() && a < pos && i == Decimal(text[a..pos]) && 0 <= i <= Limit32(minus)
      requires IsDigit(Look()) && i * 10 + (Look() - 48) > Limit32(minus)
      modifies this`pos
      ensures Ready() && a < pos && i64 == Decimal(text[a..pos]) && Limit32(minus) < i64 <= Limit64(minus)
      ensures Lexer.EndOfDigits(text, pos) == Lexer.EndOfDigits(text, old(pos))
      ensures if useDouble then IsDigit(Look()) && i64 * 10 + (Look() - 48) > Limit64(minus) else !IsDigit(Look())
    {
      hide U64;
      i64, useDouble := i, false;
      while IsDigit(Look())
        invariant Ready() && a < pos && i64 == Decimal(text[a..pos]) && 0 <= i64 <= Limit64(minus)
        invariant Lexer.EndOfDigits(text, pos) == Lexer.EndOfDigits(text, old(pos))
        invariant i64 > Limit32(minus) || (pos == old(pos) && i64 == i)
        decreases |text| - pos
      {
        NoOverflow64(minus, i64, Look() - 48);
        if i64 >= (if minus then 0x0CCC_CCCC_CCCC_CCCC else 0x1999_9999_9999_9999) {
          if i64 != (if minus then 0x0CCC_CCCC_CCCC_CCCC else 0x1999_9999_9999_9999)
             || Look() > (if minus then 56 else 53) {
            useDouble := true;
            return;
          }
        }
        DecimalStep(text, a, pos);
        i64 := U64(U64(i64 * 10) + (Look() - 48));
        pos := pos + 1;
      }
    }

    /** The digits a double takes up: from here on the magnitude only grows. */
    method AccumulateDouble(minus: bool, ghost a: nat)
      requires Ready() && a < pos && IsDigit(Look()) && Decimal(text[a..pos]) >= 0
      requires Decimal(text[a..pos]) * 10 + (Look() - 48) > Limit64(minus)
      modifies this`pos
      ensures Ready() && a < pos && Decimal(text[a..pos]) > Limit64(minus)
      ensures pos == Lexer.EndOfDigits(text, old(pos))
    {
      while IsDigit(Look())
        invariant Ready() && a < pos && Decimal(text[a..pos]) >= 0
        invariant Lexer.EndOfDigits(text, pos) == Lexer.EndOfDigits(text, old(pos))
        invariant Decimal(text[a..pos]) > Limit64(minus)
                  || (IsDigit(Look()) && Decimal(text[a..pos]) * 10 + (Look() - 48) > Limit64(minus))
        decreases |text| - pos
      {
        DecimalStep(text, a, pos);
        pos := pos + 1;
      }
    }

    method SkipDigits()
      requires Ready()
      modifies this`pos
      ensures Ready() && pos == Lexer.EndOfDigits(text, old(pos))
    {
      while IsDigit(Look())
        invariant Ready() && Lexer.EndOfDigits(text, pos) == Lexer.EndOfDigits(text, old(pos))
        decreases |text| - pos
      {
        pos := pos + 1;
      }
    }

    /**
     The end of `ParseNumber`: an integer of the width that was used, in two's complement when it is
     negative, or a double.
     */
    method FinishNumber(startOffset: nat, minus: bool, i: int, i64: int, use64bit: bool, useDouble: bool)
      requires Ready() && startOffset <= pos
      requires !useDouble ==> 0 <= i <= Limit32(minus) || use64bit
      requires !useDouble && use64bit ==> Limit32(minus) < i64 <= Limit64(minus)
      modifies this`events, this`error
      ensures var literal := if useDouble then Lexer.DoubleLexeme(config, text, startOffset, pos)
                             else Lexer.Lexeme(pos, Lexer.NarrowestInteger(minus, if use64bit then i64 else i).value,
                                               startOffset);
              Result() == Grammar.Report(config, literal, old(events))
    {
      hide U32, U64, ToInt32, ToInt64;
      if useDouble {
        match config.toDouble(text[startOffset..pos]) {
          case None => SetParseError(NumberTooBig, startOffset);
          case Some(bits) => Send(Double(bits), startOffset);
        }
      } else if use64bit {
        if minus {
          Negate64(i64);
          Send(Int64(ToInt64(U64(0xFFFF_FFFF_FFFF_FFFF - i64 + 1))), startOffset);
        } else {
          Send(Uint64(i64), startOffset);
        }
      } else {
        if minus {
          Negate32(i);
          Send(Int(ToInt32(U32(0xFFFF_FFFF - i + 1))), startOffset);
        } else {
          Send(Uint(i), startOffset);
        }
      }
    }

    /** The integer part: a zero, or the accumulators. */
    method ParseInteger(minus: bool) returns (i: int, i64: int, use64bit: bool, useDouble: bool)
      requires Ready() && IsDigit(Look())
      modifies this`pos
      ensures Ready() && old(pos) < pos
      ensures pos == if old(Look()) == ZERO then old(pos) + 1 else Lexer.EndOfDigits(text, old(pos))
      ensures var m := Decimal(text[old(pos)..pos]);
              && m >= 0
              && useDouble == (m > Limit64(minus))
              && (useDouble || use64bit == (m > Limit32(minus)))
              && (!useDouble ==> m == if use64bit then i64 else i)
    {
      i, i64, use64bit, useDouble := 0, 0, false, false;
      ghost var a := pos;
      if Look() == ZERO {
        DecimalStep(text, a, a);
        assert text[a..a] == [];
        pos := pos + 1;
      } else {
        i, use64bit := Accumulate32(minus);
        if use64bit {
          i64, useDouble := Accumulate64(minus, a, i);
          if useDouble {
            AccumulateDouble(minus, a);
          }
        }
      }
    }

    method ParseFraction() returns (present: bool)
      requires Ready()
      modifies this`pos, this`error
      ensures present == (old(Look()) == DOT)
      ensures if present && !IsDigit(Peek(text, old(pos) + 1)) then error == Some((NumberMissFraction, old(pos) + 1))
              else Ready() && pos == if present then Lexer.EndOfDigits(text, old(pos) + 1) else old(pos)
    {
      present := Consume(DOT);
      if present {
        if !IsDigit(Look()) {
          SetParseError(NumberMissFraction, pos);
          return;
        }
        SkipDigits();
      }
    }

    method ParseExponent() returns (present: bool)
      requires Ready()
      modifies this`pos, this`error
      ensures present == (old(Look()) == LOWER_E || old(Look()) == UPPER_E)
      ensures var sign := Peek(text, old(pos) + 1);
              var h := if sign == PLUS || sign == MINUS then old(pos) + 2 else old(pos) + 1;
              if present && !IsDigit(Peek(text, h)) then error == Some((NumberMissExponent, h))
              else Ready() && pos == if present then Lexer.EndOfDigits(text, h) else old(pos)
    {
      present := Consume(LOWER_E);
      if !present {
        present := Consume(UPPER_E);
      }
      if present {
        var plus := Consume(PLUS);
        if !plus {
          var expMinus := Consume(MINUS);
        }
        if !IsDigit(Look()) {
          SetParseError(NumberMissExponent, pos);
          return;
        }
        SkipDigits();
      }
    }

    method ScanRest() returns (present: bool)
      requires Ready()
      modifies this`pos, this`error
      ensures match Lexer.ScanRest(text, old(pos))
              case BadRest(code, offset) => error == Some((code, offset))
              case RestEnd(end) => Ready() && pos == end && present == (end > old(pos))
    {
      present := ParseFraction();
      if error.Some? {
        return;
      }
      var exponent := ParseExponent();
      present := present || exponent;
    }

    /** The number grammar, with the accumulators of the integer part. */
    method ScanNumber(minus: bool) returns (i: int, i64: int, use64bit: bool, useDouble: bool)
      requires Ready()
      requires minus ==> pos >= 1 && text[pos - 1] == MINUS
      requires !minus ==> Look() != MINUS
      modifies this`pos, this`error
      ensures match Lexer.ScanNumber(text, if minus then old(pos) - 1 else old(pos))
              case BadNumber(code, offset) => error == Some((code, offset))
              case NumberShape(a, b, end) =>
                && Ready() && pos == end
                && var m := Decimal(text[a..b]);
                && m >= 0
                && useDouble == (m > Limit64(minus) || end > b)
                && (useDouble || (use64bit == (m > Limit32(minus)) && m == if use64bit then i64 else i))
    {
      hide Decimal, Lexer.EndOfDigits, Lexer.ScanRest, Limit32, Limit64;
      i, i64, use64bit, useDouble := 0, 0, false, false;
      if !IsDigit(Look()) {
        SetParseError(ValueInvalid, pos);
        return;
      }
      i, i64, use64bit, useDouble := ParseInteger(minus);
      var rest := ScanRest();
      useDouble := useDouble || rest;
    }

    method ParseNumber()
      requires Ready()
      modifies this`pos, this`events, this`error
      ensures Result() == Grammar.Report(config, Lexer.ParseNumber(config, text, old(pos)), old(events))
      ensures error.None? ==> old(pos) < pos <= |text|
    {
      hide Decimal, Lexer.ScanNumber, Lexer.NarrowestInteger, Lexer.DoubleLexeme;
      var startOffset := pos;
      var minus := Consume(MINUS);
      var i, i64, use64bit, useDouble := ScanNumber(minus);
      if error.Some? {
        return;
      }
      ghost var shape := Lexer.ScanNumber(text, startOffset);
      NarrowestLimits(minus, Decimal(text[shape.digits..shape.intEnd]));
      FinishNumber(startOffset, minus, i, i64, use64bit, useDouble);
    }

    // -------------------------------------------------------------------------------------
    // Recursive descent
    // -------------------------------------------------------------------------------------

    method ParseValue()
      requires Ready()
      modifies this`pos, this`events, this`error
      ensures Result() == Grammar.ParseValue(config, text, old(pos), old(events))
      ensures error.None? ==> old(pos) < pos <= |text|
      decreases |text| - pos, 2
    {
      hide Lexer.ParseNumber, Lexer.ParseLiteral, Lexer.ParseString, Grammar.Report, Grammar.ParseObject, Grammar.ParseArray;
      var c := Look();
      if c == LOWER_N {
        ParseNull();
      } else if c == LOWER_T {
        ParseTrue();
      } else if c == LOWER_F {
        ParseFalse();
      } else if c == QUOTE {
        ParseString(false);
      } else if c == LBRACE {
        ParseObject();
      } else if c == LBRACKET {
        ParseArray();
      } else {
        ParseNumber();
      }
    }

    method ParseObject()
      requires Ready() && Look() == LBRACE
      modifies this`pos, this`events, this`error
      ensures Result() == Grammar.ParseObject(config, text, old(pos), old(events))
      ensures error.None? ==> old(pos) < pos <= |text|
      decreases |text| - pos, 1
    {
      hide Lexer.Skip, Grammar.ParseMember, Grammar.ParseAfterMember;
      pos := pos + 1;
      Send(StartObject, pos);
      if error.Some? {
        return;
      }
      SkipWhitespaceAndComments();
      if error.Some? {
        return;
      }
      var closed := Consume(RBRACE);
      if closed {
        Send(EndObject(0), pos);
        return;
      }
      var memberCount := 0;
      while true
        invariant Ready() && old(pos) < pos
        invariant Grammar.ParseMembers(config, text, pos, events, memberCount)
               == Grammar.ParseObject(config, text, old(pos), old(events))
        decreases |text| - pos
      {
        ParseMember();
        if error.Some? {
          return;
        }
        var more := AfterMember(memberCount);
        if !more {
          return;
        }
        memberCount := CountUp(memberCount);
      }
    }

    /** After a member: a comma and more to come, or the end. */
    method AfterMember(memberCount: nat) returns (more: bool)
      requires Ready()
      modifies this`pos, this`events, this`error
      ensures more ==> Ready() && old(pos) < pos && events == old(events)
      ensures (if more then Grammar.ParseMembers(config, text, pos, events, CountUp(memberCount)) else Result())
           == Grammar.ParseAfterMember(config, text, Point(old(pos), old(events)), memberCount)
      ensures error.None? ==> old(pos) < pos <= |text|
    {
      hide Lexer.Skip, Grammar.ParseMembers;
      more := false;
      SkipWhitespaceAndComments();
      if error.Some? {
        return;
      }
      var comma := Consume(COMMA);
      if comma {
        SkipWhitespaceAndComments();
        if error.Some? {
          return;
        }
      } else {
        var closed := Consume(RBRACE);
        if closed {
          Send(EndObject(CountUp(memberCount)), pos);
        } else {
          SetParseError(ObjectMissCommaOrCurlyBracket, pos);
        }
        return;
      }
      if config.trailingCommas && Look() == RBRACE {
        Send(EndObject(CountUp(memberCount)), pos);
        pos := pos + 1;
        return;
      }
      more := true;
    }

    /** A name, a colon and a value. */
    method ParseMember()
      requires Ready()
      modifies this`pos, this`events, this`error
      ensures Result() == Grammar.ParseMember(config, text, old(pos), old(events))
      ensures error.None? ==> old(pos) < pos <= |text|
      decreases |text| - pos, 0
    {
      hide Lexer.Skip, Lexer.ParseString, Grammar.ParseValue;
      if Look() != QUOTE {
        SetParseError(ObjectMissName, pos);
        return;
      }
      ParseString(true);
      if error.Some? {
        return;
      }
      SkipWhitespaceAndComments();
      if error.Some? {
        return;
      }
      var colon := Consume(COLON);
      if !colon {
        SetParseError(ObjectMissColon, pos);
        return;
      }
      SkipWhitespaceAndComments();
      if error.Some? {
        return;
      }
      ParseValue();
    }

    method ParseArray()
      requires Ready() && Look() == LBRACKET
      modifies this`pos, this`events, this`error
      ensures Result() == Grammar.ParseArray(config, text, old(pos), old(events))
      ensures error.None? ==> old(pos) < pos <= |text|
      decreases |text| - pos, 1
    {
      hide Lexer.Skip, Grammar.ParseValue, Grammar.ParseAfterElement;
      pos := pos + 1;
      Send(StartArray, pos);
      if error.Some? {
        return;
      }
      SkipWhitespaceAndComments();
      if error.Some? {
        return;
      }
      var closed := Consume(RBRACKET);
      if closed {
        Send(EndArray(0), pos);
        return;
      }
      var elementCount := 0;
      while true
        invariant Ready() && old(pos) < pos
        invariant Grammar.ParseElements(config, text, pos, events, elementCount)
               == Grammar.ParseArray(config, text, old(pos), old(events))
        decreases |text| - pos
      {
        ParseValue();
        if error.Some? {
          return;
        }
        var more := AfterElement(elementCount);
        if !more {
          return;
        }
        elementCount := CountUp(elementCount);
      }
    }

    /** After an element: a comma and more to come, or the end. */
    method AfterElement(elementCount: nat) returns (more: bool)
      requires Ready()
      modifies this`pos, this`events, this`error
      ensures more ==> Ready() && old(pos) < pos && events == old(events)
      ensures (if more then Grammar.ParseElements(config, text, pos, events, CountUp(elementCount)) else Result())
           == Grammar.ParseAfterElement(config, text, Point(old(pos), old(events)), elementCount)
      ensures error.None? ==> old(pos) < pos <= |text|
    {
      hide Lexer.Skip, Grammar.ParseElements;
      more := false;
      SkipWhitespaceAndComments();
      if error.Some? {
        return;
      }
      var comma := Consume(COMMA);
      if comma {
        SkipWhitespaceAndComments();
        if error.Some? {
          return;
        }
      } else {
        var closed := Consume(RBRACKET);
        if closed {
          Send(EndArray(CountUp(elementCount)), pos);
        } else {
          SetParseError(ArrayMissCommaOrSquareBracket, pos);
        }
        return;
      }
      if config.trailingCommas && Look() == RBRACKET {
        Send(EndArray(CountUp(elementCount)), pos);
        pos := pos + 1;
        return;
      }
      more := true;
    }

    /** `Parse` without the iterative flag, on a fresh stream and handler. */
    method Parse()
      requires Ready() && pos == 0 && events == []
      modifies this`pos, this`events, this`error
      ensures Result() == Grammar.Parse(config, text)
    {
      hide Lexer.Skip, Grammar.ParseValue;
      SkipWhitespaceAndComments();
      if error.Some? {
        return;
      }
      if Look() == 0 {
        SetParseError(DocumentEmpty, pos);
        return;
      }
      ParseValue();
      if error.Some? || config.stopWhenDone {
        return;
      }
      SkipWhitespaceAndComments();
      if error.Some? {
        return;
      }
      if Look() != 0 {
        SetParseError(DocumentRootNotSingular, pos);
      }
    }

    // -------------------------------------------------------------------------------------
    // The automaton
    // -------------------------------------------------------------------------------------

    /** The configuration of the automaton, given its state. */
    function Config(state: Grammar.State): Grammar.Machine
      reads this
    {
      Grammar.Machine(state, stack_, Point(pos, events))
    }

    method HandleError(src: Grammar.State)
      modifies this`error
      ensures error == if old(error.Some?) then old(error)
                       else var f := Grammar.HandleError(src, Point(pos, events)); Some((f.code, f.offset))
    {
      if error.Some? {
        return;
      }
      match src
      case Start => SetParseError(DocumentEmpty, pos);
      case Finish => SetParseError(DocumentRootNotSingular, pos);
      case ObjectInitial => SetParseError(ObjectMissName, pos);
      case MemberDelimiter => SetParseError(ObjectMissName, pos);
      case MemberKey => SetParseError(ObjectMissColon, pos);
      case MemberValue => SetParseError(ObjectMissCommaOrCurlyBracket, pos);
      case KeyValueDelimiter => SetParseError(ValueInvalid, pos);
      case ArrayInitial => SetParseError(ValueInvalid, pos);
      case ElementDelimiter => SetParseError(ValueInvalid, pos);
      case _ => SetParseError(ArrayMissCommaOrSquareBracket, pos);
    }

    /** Opens a bracket: pushes the state to return to and a count. */
    method OpenFrame(src: Grammar.State, dst: Grammar.State, e: Event)
      requires Ready() && pos < |text| && Grammar.Framed(src, stack_) && Grammar.PredictsBracket(src)
      requires dst.ObjectInitial? || dst.ArrayInitial?
      modifies this`pos, this`stack_, this`events, this`error
      ensures match Grammar.OpenFrame(config, old(Config(src)), dst, e)
              case Stop(f) => Result() == Stop(f)
              case Done(m) => Ready() && Config(dst) == m
    {
      hide Grammar.Framed;
      stack_ := stack_ + [Grammar.Return(Grammar.ReturnState(src))];
      stack_ := stack_ + [Grammar.Count(0)];
      assert stack_ == old(stack_) + [Grammar.Return(Grammar.ReturnState(src)), Grammar.Count(0)];
      Send(e, pos);
      if error.None? {
        pos := pos + 1;
      }
    }

    /** Closes a bracket: pops its count and the state to return to. */
    method CloseFrame(src: Grammar.State, isObject: bool) returns (n: Grammar.State)
      requires Ready() && pos < |text| && Grammar.NeedsFrame(src) && Grammar.Framed(src, stack_)
      modifies this`pos, this`stack_, this`events, this`error
      ensures match Grammar.CloseFrame(config, old(Config(src)), isObject)
              case Stop(f) => Result() == Stop(f)
              case Done(m) => Ready() && Config(n) == m && !n.Error?
    {
      assert Grammar.EndsInFrame(stack_) && !Grammar.Closed(stack_[|stack_| - 2].state).Error?;
      hide Grammar.Framed, CountUp;
      var c := stack_[|stack_| - 1].count;
      stack_ := stack_[..|stack_| - 1];
      if (if isObject then src.MemberValue? else src.Element?) {
        c := CountUp(c);
      }
      n := stack_[|stack_| - 1].state;
      stack_ := stack_[..|stack_| - 1];
      assert stack_ == old(stack_)[..|old(stack_)| - 2];
      if n.Start? {
        n := Grammar.Finish;
      }
      Send(if isObject then EndObject(c) else EndArray(c), pos);
      if error.None? {
        pos := pos + 1;
      }
    }

    method CountComma(src: Grammar.State, dst: Grammar.State)
      requires Ready() && pos < |text| && Grammar.NeedsFrame(src) && Grammar.Framed(src, stack_)
      requires dst.MemberDelimiter? || dst.ElementDelimiter?
      modifies this`pos, this`stack_
      ensures Ready() && Config(dst) == Grammar.CountComma(old(Config(src)), dst)
    {
      pos := pos + 1;
      var top := stack_[|stack_| - 1].count;
      stack_ := stack_[|stack_| - 1 := Grammar.Count(CountUp(top))];
    }

    /** `Transit`: the state moved to, which is the error state when there is an error. */
    method Transit(src: Grammar.State, token: Grammar.Token, dst: Grammar.State) returns (d: Grammar.State)
      requires Ready() && pos < |text| && Grammar.Framed(src, stack_)
      requires token == Grammar.Tokenize(text[pos]) && dst == Grammar.Predict(src, token)
      modifies this`pos, this`stack_, this`events, this`error
      ensures match Grammar.Transit(config, text, old(Config(src)))
              case Stop(f) =>
                && d.Error?
                && (error.None? ==> pos == old(pos) && events == old(events)
                                    && f == Grammar.HandleError(src, old(Point(pos, events))))
                && (error.Some? ==> Result() == Stop(f))
              case Done(m) => Ready() && !d.Error? && Config(d) == m
    {
      hide Grammar.OpenFrame, Grammar.CloseFrame, Grammar.CountComma, Grammar.ParseValue, Grammar.Framed,
           Lexer.ParseString, Grammar.HandleError;
      d := dst;
      if dst.Error? {
      } else if dst.ObjectInitial? {
        OpenFrame(src, dst, StartObject);
      } else if dst.ArrayInitial? {
        OpenFrame(src, dst, StartArray);
      } else if dst.MemberKey? {
        ParseString(true);
      } else if dst.KeyValueDelimiter? {
        pos := pos + 1;
      } else if dst.MemberValue? || dst.Element? {
        ParseValue();
      } else if dst.MemberDelimiter? || dst.ElementDelimiter? {
        CountComma(src, dst);
      } else if dst.ObjectFinish? {
        if !config.trailingCommas && src.MemberDelimiter? {
          SetParseError(ObjectMissName, pos);
        } else {
          d := CloseFrame(src, true);
        }
      } else if dst.ArrayFinish? {
        if !config.trailingCommas && src.ElementDelimiter? {
          SetParseError(ValueInvalid, pos);
        } else {
          d := CloseFrame(src, false);
        }
      } else {
        ParseValue();
        d := Grammar.Finish;
      }
      if error.Some? {
        d := Grammar.Error;
      }
    }

    /** `IterativeParse`, on a fresh stream, stack and handler. */
    method IterativeParse()
      requires Ready() && pos == 0 && events == [] && stack_ == []
      modifies this`pos, this`stack_, this`events, this`error
      ensures Result() == Grammar.IterativeParse(config, text)
    {
      hide Lexer.Skip, Grammar.Transit, Brackets.StackEncodesBrackets;
      var state := Grammar.Start;
      SkipWhitespaceAndComments();
      if error.Some? {
        return;
      }
      Brackets.StartEncodes(pos);
      while Look() != 0
        invariant Ready() && Grammar.Framed(state, stack_) && !state.Error?
        invariant Brackets.StackEncodesBrackets(Config(state))
        invariant Grammar.Run(config, text, Config(state)) == Grammar.IterativeParse(config, text)
        decreases |text| - pos
      {
        ghost var before := Config(state);
        var t := Grammar.Tokenize(Look());
        var n := Grammar.Predict(state, t);
        var d := Transit(state, t, n);
        if d.Error? {
          HandleError(state);
          return;
        }
        Brackets.TransitKeepsBrackets(config, text, before);
        state := d;
        if config.stopWhenDone && state.Finish? {
          return;
        }
        ghost var after := Config(state);
        SkipWhitespaceAndComments();
        if error.Some? {
          return;
        }
        Brackets.SkippingKeepsBrackets(after, pos);
      }
      if !state.Finish? {
        HandleError(state);
      }
    }
  }

  /** The largest magnitude that fits the signed or unsigned type of each width. */
  function Limit32(minus: bool): int {
    if minus then 0x8000_0000 else 0xFFFF_FFFF
  }

  function Limit64(minus: bool): int {
    if minus then 0x8000_0000_0000_0000 else 0xFFFF_FFFF_FFFF_FFFF
  }

  /** The overflow tests of `ParseNumber` let through exactly the digits that fit. */
  lemma NoOverflow32(minus: bool, i: int, d: int)
    requires 0 <= i <= Limit32(minus) && 0 <= d <= 9
    ensures var limit := if minus then 214748364 else 429496729;
            if i >= limit && (i != limit || d + 48 > (if minus then 56 else 53)) then i * 10 + d > Limit32(minus)
            else i * 10 + d <= Limit32(minus) && U32(U32(i * 10) + d) == i * 10 + d
  {
  }

  lemma NoOverflow64(minus: bool, i: int, d: int)
    requires 0 <= i <= Limit64(minus) && 0 <= d <= 9
    ensures var limit := if minus then 0x0CCC_CCCC_CCCC_CCCC else 0x1999_9999_9999_9999;
            if i >= limit && (i != limit || d + 48 > (if minus then 56 else 53)) then i * 10 + d > Limit64(minus)
            else i * 10 + d <= Limit64(minus) && U64(U64(i * 10) + d) == i * 10 + d
  {
  }

  lemma NarrowestLimits(minus: bool, m: nat)
    ensures Lexer.NarrowestInteger(minus, m).None? <==> m > Limit64(minus)
  {
  }

  /** `~x + 1`, cast to the signed type. */
  lemma Negate32(i: int)
    requires 0 <= i <= 0x8000_0000
    ensures ToInt32(U32(0xFFFF_FFFF - i + 1)) == -i
  {
  }

  lemma Negate64(i64: int)
    requires 0 <= i64 <= 0x8000_0000_0000_0000
    ensures ToInt64(U64(0xFFFF_FFFF_FFFF_FFFF - i64 + 1)) == -i64
  {
  }
}
