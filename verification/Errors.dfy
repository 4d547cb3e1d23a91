/**
 Where the reader stops for an error below values: what has been read up to the offset it reports
 belongs to the grammar, and what stands there cannot go on it.
 */
module Errors {
  import Abnf
  import Acceptance
  import Refinement
  import Utf8
  import opened Bytes
  import opened Grammar
  import opened Json
  import opened Lexer
  import opened Syntax

  // ---------------------------------------------------------------------------------------
  // Strings
  // ---------------------------------------------------------------------------------------

  /** There are four hexadecimal digits at `i`. */
  ghost predicate HasHex4(s: seq<Byte>, i: nat) {
    exists h: Hex4 :: At(s, i, h)
  }

  const UNIT: seq<Byte> := ['\\' as int, 'u' as int]

  /** A leading surrogate is escaped at `i`. */
  ghost predicate HasLead(s: seq<Byte>, i: nat) {
    exists lead: LeadingHex :: At(s, i, UNIT + lead)
  }

  ghost predicate HasTrail(s: seq<Byte>, i: nat) {
    exists trail: TrailingHex :: At(s, i, UNIT + trail)
  }

  ghost predicate HasUtf8Char(s: seq<Byte>, i: nat) {
    exists bytes :: Utf8.IsUtf8Char(bytes) && At(s, i, bytes)
  }

  /** No character and no closing quote is at `i`, for the reason given. */
  ghost predicate StringStops(c: Config, s: seq<Byte>, i: nat, code: ErrorCode) {
    match code
    case StringMissQuotationMark => i >= |s| || s[i] == 0
    case StringInvalidEncoding =>
      i < |s| && s[i] != 0 && (s[i] < 0x20 || (c.validateEncoding && !HasUtf8Char(s, i)))
    case StringEscapeInvalid =>
      i < |s| && s[i] == '\\' as int && (i + 1 < |s| ==> s[i + 1] !in ESCAPES && s[i + 1] != 'u' as int)
    case StringUnicodeEscapeInvalidHex =>
      At(s, i, UNIT) && (!HasHex4(s, i + 2) || (HasLead(s, i) && At(s, i + 6, UNIT) && !HasHex4(s, i + 8)))
    case StringUnicodeSurrogateInvalid =>
      HasLead(s, i) && !HasTrail(s, i + 6) && (At(s, i + 6, UNIT) ==> HasHex4(s, i + 8))
    case _ => false
  }

  lemma NoHex4(s: seq<Byte>, i: nat)
    ensures HasHex4(s, i) <==> ParseHex(s, i, 4, 0).Some?
  {
    hide ParseHex, HexNumber, Abnf.HexDig, At;
    if h: Hex4 :| At(s, i, h) {
      Acceptance.ReadHex(s, i, h);
    }
    if ParseHex(s, i, 4, 0).Some? {
      var h := Acceptance.HexFound(s, i);
    }
  }

  lemma UnitIsThere(s: seq<Byte>, i: nat)
    ensures At(s, i, UNIT) <==> Peek(s, i) == BACKSLASH && Peek(s, i + 1) == LOWER_U
  {
    if Peek(s, i) == BACKSLASH && Peek(s, i + 1) == LOWER_U {
      assert s[i..i + 2] == [s[i], s[i + 1]];
    }
    if At(s, i, UNIT) {
      AtByte(s, i, UNIT, 0);
      AtByte(s, i, UNIT, 1);
    }
  }

  /** An escaped unit, and which it is. */
  lemma UnitFound(s: seq<Byte>, i: nat)
    requires At(s, i, UNIT) && ParseHex(s, i + 2, 4, 0).Some?
    ensures HasLead(s, i) <==> 0xD800 <= ParseHex(s, i + 2, 4, 0).value <= 0xDBFF
    ensures HasTrail(s, i) <==> 0xDC00 <= ParseHex(s, i + 2, 4, 0).value <= 0xDFFF
  {
    hide ParseHex, HexNumber, Abnf.HexDig, At;
    var h := Acceptance.HexFound(s, i + 2);
    AtJoin(s, i, UNIT, h);
    if 0xD800 <= HexNumber(h) <= 0xDBFF {
      var lead: LeadingHex := h;
      assert At(s, i, UNIT + lead);
    }
    if 0xDC00 <= HexNumber(h) <= 0xDFFF {
      var trail: TrailingHex := h;
      assert At(s, i, UNIT + trail);
    }
    if lead: LeadingHex :| At(s, i, UNIT + lead) {
      AtConcat(s, i, UNIT, lead);
      Acceptance.ReadHex(s, i + 2, lead);
    }
    if trail: TrailingHex :| At(s, i, UNIT + trail) {
      AtConcat(s, i, UNIT, trail);
      Acceptance.ReadHex(s, i + 2, trail);
    }
  }

  lemma EscapeStops(c: Config, s: seq<Byte>, i: nat)
    requires At(s, i, UNIT) && ParseUnicodeEscape(s, i).BadString?
    ensures StringStops(c, s, i, ParseUnicodeEscape(s, i).code)
  {
    hide ParseHex, HasHex4, HasLead, HasTrail, HasUtf8Char, Utf8.Encode, At;
    NoHex4(s, i + 2);
    if ParseHex(s, i + 2, 4, 0).Some? {
      UnitFound(s, i);
      UnitIsThere(s, i + 6);
      NoHex4(s, i + 8);
      if At(s, i + 6, UNIT) && ParseHex(s, i + 8, 4, 0).Some? {
        UnitFound(s, i + 6);
      } else if !At(s, i + 6, UNIT) {
        NoUnitNoTrail(s, i + 6);
      }
    }
  }

  lemma NoUnitNoTrail(s: seq<Byte>, i: nat)
    requires !At(s, i, UNIT)
    ensures !HasTrail(s, i)
  {
    hide HexNumber, At;
    if trail: TrailingHex :| At(s, i, UNIT + trail) {
      AtConcat(s, i, UNIT, trail);
    }
  }

  lemma PlainStops(s: seq<Byte>, i: nat)
    requires i < |s| && !Utf8.Validate(s, i).ok
    ensures !HasUtf8Char(s, i)
  {
    hide Utf8.Validate, Utf8.IsUtf8Char;
    if bytes :| Utf8.IsUtf8Char(bytes) && At(s, i, bytes) {
      Utf8.ValidateComplete(s, i, bytes);
    }
  }

  lemma NoEscape(e: Byte)
    ensures Unescape(e) != 0 <==> e in ESCAPES
  {
  }

  /** The reader stops where no character begins. */
  lemma StopsHere(c: Config, s: seq<Byte>, i: nat, str: seq<Byte>)
    requires i <= |s| && !Acceptance.GoesOn(c, s, i, str)
    ensures StringStops(c, s, i, ParseStringBody(c, s, i, str).code)
  {
    hide ParseUnicodeEscape, HasHex4, HasLead, HasTrail, HasUtf8Char, At, Unescape, Utf8.Validate;
    if Peek(s, i) == BACKSLASH {
      NoEscape(Peek(s, i + 1));
      UnitIsThere(s, i);
      if Unescape(Peek(s, i + 1)) == 0 && Peek(s, i + 1) == LOWER_U {
        EscapeStops(c, s, i);
        hide StringStops;
      }
    } else if i < |s| && c.validateEncoding && !Utf8.Validate(s, i).ok {
      PlainStops(s, i);
    }
  }

  /** A string that is refused consists of characters of the grammar up to the offset reported. */
  lemma {:induction false} StringRefused(c: Config, s: seq<Byte>, i: nat, str: seq<Byte>) returns (chars: seq<Character>)
    requires i <= |s| && ParseStringBody(c, s, i, str).BadString?
    ensures AreCharacters(c, chars) && At(s, i, CharactersText(chars))
    ensures ParseStringBody(c, s, i, str).offset == i + |CharactersText(chars)|
    ensures StringStops(c, s, i + |CharactersText(chars)|, ParseStringBody(c, s, i, str).code)
    decreases |s| - i
  {
    hide ParseStringBody, StringStops, IsCharacter, CharacterText, CharacterValue, At;
    if !Acceptance.GoesOn(c, s, i, str) {
      chars := [];
      Acceptance.NothingFound(s, i);
      StopsHere(c, s, i, str);
    } else {
      QuoteEnds(c, s, i, str);
      var ch := Acceptance.CharacterFound(c, s, i, str);
      var j := i + |CharacterText(ch)|;
      Acceptance.AtSlice(s, i, CharacterText(ch));
      var more := StringRefused(c, s, j, str + CharacterValue(ch));
      chars := [ch] + more;
      assert chars[1..] == more;
      AtJoin(s, i, CharacterText(ch), CharactersText(more));
    }
  }

  lemma QuoteEnds(c: Config, s: seq<Byte>, i: nat, str: seq<Byte>)
    requires i <= |s| && ParseStringBody(c, s, i, str).BadString?
    ensures Peek(s, i) != QUOTE
  {
  }

  // ---------------------------------------------------------------------------------------
  // Numbers and words
  // ---------------------------------------------------------------------------------------

  predicate HasDigit(s: seq<Byte>, i: nat) {
    i < |s| && Abnf.Digit(s[i]).Some?
  }

  /** `n` is at `i`, with no exponent and a fraction only if told. */
  predicate HasPart(s: seq<Byte>, i: nat, n: Numeral, fraction: bool) {
    IsNumeral(n) && n.exponent.None? && (n.fraction.Some? ==> fraction) && At(s, i, NumeralText(n))
  }

  /** The number at `i` is refused at `offset`: a digit is missing there, or it is whole and too big. */
  ghost predicate NumberStops(c: Config, s: seq<Byte>, i: nat, code: ErrorCode, offset: nat) {
    match code
    case ValueInvalid =>
      && !HasDigit(s, offset)
      && (if i < |s| && s[i] == '-' as int then offset == i + 1 else offset == i)
    case NumberMissFraction =>
      && !HasDigit(s, offset)
      && exists n :: HasPart(s, i, n, false) && i + |NumeralText(n)| + 1 == offset && At(s, offset - 1, ['.' as int])
    case NumberMissExponent =>
      && !HasDigit(s, offset)
      && exists n, mark: seq<Byte> ::
           && HasPart(s, i, n, true) && i + |NumeralText(n)| + |mark| == offset && At(s, offset - |mark|, mark)
           && IsMark(mark, if offset < |s| then s[offset] else 0)
    case NumberTooBig =>
      && offset == i
      && exists n :: IsNumeral(n) && At(s, i, NumeralText(n)) && NumeralEvent(c, n).None?
                     && Stops(n, if i + |NumeralText(n)| < |s| then s[i + |NumeralText(n)|] else 0)
    case _ => false
  }

  /** The mark of an exponent, and its sign if it has one; `next` comes after it. */
  predicate IsMark(mark: seq<Byte>, next: Byte) {
    && mark != [] && (mark[0] == 'e' as int || mark[0] == 'E' as int)
    && (if |mark| == 1 then next != '+' as int && next != '-' as int
        else |mark| == 2 && (mark[1] == '+' as int || mark[1] == '-' as int))
  }

  lemma DigitIsThere(s: seq<Byte>, i: nat)
    ensures HasDigit(s, i) <==> IsDigit(Peek(s, i))
  {
    hide Abnf.Digit;
    Abnf.DigitsAgree(Peek(s, i));
  }

  lemma FractionMissing(c: Config, s: seq<Byte>, i: nat, a: nat, b: nat)
    requires a == (if Peek(s, i) == MINUS then i + 1 else i) && a < |s| && IsDigit(s[a])
    requires b == (if s[a] == ZERO then a + 1 else EndOfDigits(s, a)) && Peek(s, b) == DOT && !IsDigit(Peek(s, b + 1))
    ensures NumberStops(c, s, i, NumberMissFraction, b + 1)
  {
    hide EndOfDigits, IsDigits, IsNumeral, NumeralText;
    DigitIsThere(s, b + 1);
    NothingAfter(s, b);
    var n := Acceptance.NumeralOf(s, i, a, b, None, None);
    assert HasPart(s, i, n, false);
    assert s[b..b + 1] == [DOT];
  }

  lemma NothingAfter(s: seq<Byte>, b: nat)
    requires b <= |s|
    ensures At(s, b, FractionText(None) + ExponentText(None)) && FractionText(None) + ExponentText(None) == []
  {
  }

  lemma ExponentMissing(c: Config, s: seq<Byte>, i: nat, a: nat, b: nat, f: nat, h: nat)
    requires a == (if Peek(s, i) == MINUS then i + 1 else i) && a < |s| && IsDigit(s[a])
    requires b == if s[a] == ZERO then a + 1 else EndOfDigits(s, a)
    requires Peek(s, b) == DOT ==> IsDigit(Peek(s, b + 1))
    requires b <= |s| && f == if Peek(s, b) == DOT then EndOfDigits(s, b + 1) else b
    requires f < |s| && (s[f] == LOWER_E || s[f] == UPPER_E)
    requires h == (if Peek(s, f + 1) == PLUS || Peek(s, f + 1) == MINUS then f + 2 else f + 1) && !IsDigit(Peek(s, h))
    ensures NumberStops(c, s, i, NumberMissExponent, h)
  {
    hide EndOfDigits, IsDigits, IsNumeral, NumeralText, FractionText, ExponentText, At, NumberStops, IsMark;
    var fraction := Acceptance.FractionFound(s, b);
    Acceptance.NoExponent(s, f);
    assert FractionText(fraction) + [] == FractionText(fraction);
    var n := Acceptance.NumeralOf(s, i, a, b, fraction, None);
    MarkFound(s, f, h);
    MissesExponent(c, s, i, n, s[f..h], h);
  }

  lemma MarkFound(s: seq<Byte>, f: nat, h: nat)
    requires f < |s| && (s[f] == LOWER_E || s[f] == UPPER_E)
    requires h == if Peek(s, f + 1) == PLUS || Peek(s, f + 1) == MINUS then f + 2 else f + 1
    ensures f < h <= |s| && IsMark(s[f..h], Peek(s, h)) && At(s, f, s[f..h])
  {
  }

  lemma MissesExponent(c: Config, s: seq<Byte>, i: nat, n: Numeral, mark: seq<Byte>, h: nat)
    requires IsNumeral(n) && n.exponent.None? && At(s, i, NumeralText(n)) && i + |NumeralText(n)| + |mark| == h
    requires IsMark(mark, Peek(s, h)) && At(s, h - |mark|, mark) && !IsDigit(Peek(s, h))
    ensures NumberStops(c, s, i, NumberMissExponent, h)
  {
    hide IsNumeral, NumeralText, At, IsMark;
    DigitIsThere(s, h);
    assert HasPart(s, i, n, true);
  }

  lemma TooBig(c: Config, s: seq<Byte>, i: nat)
    requires i <= |s| && ScanNumber(s, i).NumberShape? && ParseNumber(c, s, i).Bad?
    ensures ParseNumber(c, s, i) == Bad(NumberTooBig, i) && NumberStops(c, s, i, NumberTooBig, i)
  {
    assert ParseNumber(c, s, i) == Bad(NumberTooBig, i) by {
      hide ScanNumber, Decimal, NarrowestInteger;
    }
    hide ScanNumber, ParseNumber, NumeralEvent, Stops, IsNumeral, At;
    var n := Acceptance.NumeralScanned(c, s, i);
  }

  /** A number that is refused is refused for what it says, and where it says. */
  lemma NumberRefused(c: Config, s: seq<Byte>, i: nat)
    requires i <= |s| && ParseNumber(c, s, i).Bad?
    ensures NumberStops(c, s, i, ParseNumber(c, s, i).code, ParseNumber(c, s, i).offset)
  {
    hide NumberStops, EndOfDigits, Decimal, NarrowestInteger;
    if ScanNumber(s, i).NumberShape? {
      TooBig(c, s, i);
      return;
    }
    var a := if Peek(s, i) == MINUS then i + 1 else i;
    if !IsDigit(Peek(s, a)) {
      NoWhole(c, s, i, a);
      return;
    }
    var b := if s[a] == ZERO then a + 1 else EndOfDigits(s, a);
    if Peek(s, b) == DOT && !IsDigit(Peek(s, b + 1)) {
      FractionMissing(c, s, i, a, b);
      return;
    }
    var f := if Peek(s, b) == DOT then EndOfDigits(s, b + 1) else b;
    var h := if Peek(s, f + 1) == PLUS || Peek(s, f + 1) == MINUS then f + 2 else f + 1;
    ExponentMissing(c, s, i, a, b, f, h);
  }

  lemma NoWhole(c: Config, s: seq<Byte>, i: nat, a: nat)
    requires a == (if Peek(s, i) == MINUS then i + 1 else i) && !IsDigit(Peek(s, a))
    ensures NumberStops(c, s, i, ValueInvalid, a)
  {
    DigitIsThere(s, a);
  }

  /** A word is refused at the first of its letters that is not there. */
  predicate WordStops(s: seq<Byte>, i: nat, word: seq<Byte>, offset: nat) {
    && i <= offset < i + |word| && At(s, i, word[..offset - i])
    && (offset < |s| ==> s[offset] != word[offset - i])
  }

  lemma {:induction false} MatchedStops(s: seq<Byte>, i: nat, rest: seq<Byte>)
    requires i <= |s|
    ensures At(s, i, rest[..MatchedPrefix(s, i, rest) - i])
    ensures MatchedPrefix(s, i, rest) < i + |rest| ==> WordStops(s, i, rest, MatchedPrefix(s, i, rest))
    decreases |rest|
  {
    if rest != [] && i < |s| && s[i] == rest[0] {
      MatchedStops(s, i + 1, rest[1..]);
      var k := MatchedPrefix(s, i, rest) - i;
      assert rest[..k] == [rest[0]] + rest[1..][..k - 1];
      Acceptance.ByteFound(s, i);
      AtJoin(s, i, [rest[0]], rest[1..][..k - 1]);
    } else {
      assert rest[..0] == [] && s[i..i] == [];
    }
  }

  /** What a value begins with decides what it is read as, and how it is refused. */
  ghost predicate ScalarStops(c: Config, s: seq<Byte>, i: nat, code: ErrorCode, offset: nat) {
    if i < |s| && s[i] == 'n' as int then
      code == ValueInvalid && WordStops(s, i, ['n' as int, 'u' as int, 'l' as int, 'l' as int], offset)
    else if i < |s| && s[i] == 't' as int then
      code == ValueInvalid && WordStops(s, i, ['t' as int, 'r' as int, 'u' as int, 'e' as int], offset)
    else if i < |s| && s[i] == 'f' as int then
      code == ValueInvalid && WordStops(s, i, ['f' as int, 'a' as int, 'l' as int, 's' as int, 'e' as int], offset)
    else if i < |s| && s[i] == '"' as int then
      && StringStops(c, s, offset, code)
      && exists chars :: AreCharacters(c, chars) && At(s, i + 1, CharactersText(chars))
                         && offset == i + 1 + |CharactersText(chars)|
    else NumberStops(c, s, i, code, offset)
  }

  lemma WordRefused(s: seq<Byte>, i: nat, first: Byte, rest: seq<Byte>, event: Event)
    requires i < |s| && s[i] == first && ParseLiteral(s, i, rest, event).Bad?
    ensures ParseLiteral(s, i, rest, event).code == ValueInvalid
    ensures forall word | word == [first] + rest :: WordStops(s, i, word, ParseLiteral(s, i, rest, event).offset)
  {
    var j := MatchedPrefix(s, i + 1, rest);
    MatchedStops(s, i + 1, rest);
    hide MatchedPrefix;
    Acceptance.ByteFound(s, i);
    AtJoin(s, i, [first], rest[..j - i - 1]);
    assert ([first] + rest)[..j - i] == [first] + rest[..j - i - 1];
  }

  lemma QuoteRefused(c: Config, s: seq<Byte>, i: nat, isKey: bool)
    requires i < |s| && s[i] == QUOTE && ParseString(c, s, i, isKey).Bad?
    ensures ScalarStops(c, s, i, ParseString(c, s, i, isKey).code, ParseString(c, s, i, isKey).offset)
  {
    hide ParseStringBody, AreCharacters, StringStops, NumberStops, WordStops;
    var chars := StringRefused(c, s, i + 1, []);
  }

  /**
   Wherever a string, a number or a word is refused, in whichever parser, the error and its offset are
   those that what stands there calls for.
   */
  lemma ScalarRefused(c: Config, s: seq<Byte>, i: nat)
    requires i <= |s| && ParseScalar(c, s, i).Bad?
    ensures ScalarStops(c, s, i, ParseScalar(c, s, i).code, ParseScalar(c, s, i).offset)
  {
    hide WordStops, StringStops, NumberStops, ParseLiteral, ParseNumber, ParseString;
    var b := Peek(s, i);
    if b == QUOTE {
      QuoteRefused(c, s, i, false);
      hide ScalarStops;
    } else if b == LOWER_N {
      WordRefused(s, i, b, [117, 108, 108], Null);
    } else if b == LOWER_T {
      WordRefused(s, i, b, [114, 117, 101], Bool(true));
    } else if b == LOWER_F {
      WordRefused(s, i, b, [97, 108, 115, 101], Bool(false));
    } else {
      NumberRefused(c, s, i);
    }
  }

  // ---------------------------------------------------------------------------------------
  // Comments
  // ---------------------------------------------------------------------------------------

  /** A comment that begins at `k` is refused at `offset`: it is of neither kind, or is not closed. */
  predicate CommentStops(s: seq<Byte>, k: nat, offset: nat) {
    k < |s| && s[k] == '/' as int
    && if k + 1 < |s| && s[k + 1] == '*' as int then
         && k + 2 <= offset <= |s| && (offset < |s| ==> s[offset] == 0)
         && forall m | k + 2 <= m < offset ::
              s[m] != 0 && (s[m] == '*' as int && m + 1 < |s| ==> s[m + 1] != '/' as int)
       else offset == k + 1 && (k + 1 < |s| ==> s[k + 1] != '/' as int)
  }

  lemma {:induction false} BlockUnclosed(s: seq<Byte>, i: nat)
    requires i <= |s| && SkipBlockComment(s, i).Unclosed?
    ensures var j := SkipBlockComment(s, i).offset;
            && i <= j <= |s| && Peek(s, j) == 0
            && forall m | i <= m < j :: s[m] != 0 && (s[m] == STAR && m + 1 < |s| ==> s[m + 1] != SLASH)
    decreases |s| - i
  {
    if Peek(s, i) != 0 {
      BlockUnclosed(s, i + 1);
    }
  }

  /** What is refused between tokens is a comment, after a gap. */
  lemma {:induction false} CommentRefused(c: Config, s: seq<Byte>, i: nat) returns (w: seq<Byte>)
    requires i <= |s| && c.comments && SkipComments(s, SkipWhitespace(s, i)).Unclosed?
    ensures IsGap(c, w) && At(s, i, w)
    ensures CommentStops(s, i + |w|, SkipComments(s, SkipWhitespace(s, i)).offset)
    decreases |s| - i
  {
    hide IsGap, IsComment, AllSpace, SkipBlockComment, SkipLineComment, SkipWhitespace, CommentStops, At;
    var n := SkipWhitespace(s, i);
    Acceptance.SkippedIsSpace(s, i);
    if FirstStops(s, n) {
      w := s[i..n];
      Acceptance.GapIsLast(c, w);
      WholeSlice(s, i, n);
      FirstCommentRefused(s, n);
    } else {
      CommentIsSkipped(s, n);
      var j := Acceptance.CommentEnd(s, n);
      CommentIsWhole(s, n);
      hide SkipComments, FirstStops, Acceptance.CommentEnd;
      var rest := CommentRefused(c, s, j);
      w := s[i..j] + rest;
      GapGrows(c, s, i, n, j, rest);
    }
  }

  lemma GapGrows(c: Config, s: seq<Byte>, i: nat, n: nat, j: nat, rest: seq<Byte>)
    requires c.comments && i <= n < j <= |s| && AllSpace(s[i..n]) && IsComment(s[n..j])
    requires IsGap(c, rest) && At(s, j, rest)
    ensures IsGap(c, s[i..j] + rest) && At(s, i, s[i..j] + rest)
  {
    hide IsGap, At, AllSpace, IsComment;
    var w := s[i..j] + rest;
    assert w[..n - i] == s[i..n] && w[n - i..j - i] == s[n..j] && w[j - i..] == rest;
    WholeSlice(s, i, j);
    AtJoin(s, i, s[i..j], rest);
    Acceptance.GapWith(c, w, n - i, j - i);
  }

  /** The first comment is the one that is refused. */
  predicate FirstStops(s: seq<Byte>, n: nat)
    requires n <= |s|
  {
    && Peek(s, n) == SLASH
    && if Peek(s, n + 1) == STAR then SkipBlockComment(s, n + 2).Unclosed? else Peek(s, n + 1) != SLASH
  }

  lemma FirstCommentRefused(s: seq<Byte>, n: nat)
    requires n <= |s| && FirstStops(s, n)
    ensures SkipComments(s, n).Unclosed? && CommentStops(s, n, SkipComments(s, n).offset)
  {
    hide SkipBlockComment, SkipLineComment, SkipWhitespace;
    if Peek(s, n + 1) == STAR {
      BlockUnclosed(s, n + 2);
    }
  }

  lemma CommentIsSkipped(s: seq<Byte>, n: nat)
    requires n <= |s| && SkipComments(s, n).Unclosed? && !FirstStops(s, n)
    ensures n + 2 <= |s| && s[n] == SLASH && (s[n + 1] == STAR || s[n + 1] == SLASH)
    ensures s[n + 1] == STAR ==> SkipBlockComment(s, n + 2).Skipped?
    ensures n + 2 <= Acceptance.CommentEnd(s, n) <= |s|
    ensures SkipComments(s, n) == SkipComments(s, SkipWhitespace(s, Acceptance.CommentEnd(s, n)))
  {
    hide SkipBlockComment, SkipLineComment, SkipWhitespace;
  }

  lemma CommentIsWhole(s: seq<Byte>, n: nat)
    requires n + 2 <= |s| && s[n] == SLASH && (s[n + 1] == STAR || s[n + 1] == SLASH)
    requires s[n + 1] == STAR ==> SkipBlockComment(s, n + 2).Skipped?
    requires SkipComments(s, SkipWhitespace(s, Acceptance.CommentEnd(s, n))).Unclosed?
    ensures n < Acceptance.CommentEnd(s, n) && IsComment(s[n..Acceptance.CommentEnd(s, n)])
  {
    hide SkipComments, SkipWhitespace, SkipBlockComment, SkipLineComment, IsComment;
    Acceptance.CommentFound(s, n);
    if Peek(s, Acceptance.CommentEnd(s, n)) == 0 {
      Acceptance.NothingSkipped(s, Acceptance.CommentEnd(s, n));
    }
  }

  lemma WholeSlice(s: seq<Byte>, i: nat, j: nat)
    requires i <= j <= |s|
    ensures At(s, i, s[i..j])
  {
  }

  /** A gap that is refused has a comment in it that is: not closed, or neither kind of comment. */
  lemma GapRefused(c: Config, s: seq<Byte>, i: nat, events: seq<Event>) returns (w: seq<Byte>)
    requires i <= |s| && Skip(c, s, i, events).Stop?
    ensures c.comments && IsGap(c, w) && At(s, i, w)
    ensures Skip(c, s, i, events).failure.code == UnspecificSyntaxError
    ensures CommentStops(s, i + |w|, Skip(c, s, i, events).failure.offset)
  {
    hide IsGap, At, CommentStops;
    w := CommentRefused(c, s, i);
  }

  // ---------------------------------------------------------------------------------------
  // The whole text
  // ---------------------------------------------------------------------------------------

  /**
   Where recursive descent reports that the handler refused an event: after its bracket, string or word,
   at the beginning of its number, and before a bracket that follows a trailing comma.
   */
  predicate RefusedAt(c: Config, s: seq<Byte>, e: Event, k: nat) {
    match e
    case StartObject => Ends(s, k, ['{' as int])
    case StartArray => Ends(s, k, ['[' as int])
    case EndObject(_) => Ends(s, k, ['}' as int]) || (c.trailingCommas && At(s, k, ['}' as int]))
    case EndArray(_) => Ends(s, k, [']' as int]) || (c.trailingCommas && At(s, k, [']' as int]))
    case Key(_) => Ends(s, k, ['"' as int])
    case String(_) => Ends(s, k, ['"' as int])
    case Null => Ends(s, k, ['n' as int, 'u' as int, 'l' as int, 'l' as int])
    case Bool(b) =>
      Ends(s, k, if b then ['t' as int, 'r' as int, 'u' as int, 'e' as int]
                 else ['f' as int, 'a' as int, 'l' as int, 's' as int, 'e' as int])
    case _ => k < |s| && (s[k] == '-' as int || HasDigit(s, k))
  }

  /** `w` is in the text and ends at `k`. */
  predicate Ends(s: seq<Byte>, k: nat, w: seq<Byte>) {
    |w| <= k && At(s, k - |w|, w)
  }

  /** Neither white space nor, where they are allowed, a comment is at `k`. */
  predicate AtToken(c: Config, s: seq<Byte>, k: nat) {
    !Abnf.Space(Peek(s, k)) && (c.comments ==> Peek(s, k) != '/' as int)
  }

  lemma {:induction false} SpaceIsSkipped(s: seq<Byte>, i: nat)
    requires i <= |s|
    ensures !Abnf.Space(Peek(s, SkipWhitespace(s, i)))
    decreases |s| - i
  {
    if IsSpace(Peek(s, i)) {
      SpaceIsSkipped(s, i + 1);
    }
  }

  lemma {:induction false} CommentsAreSkipped(s: seq<Byte>, i: nat)
    requires i <= |s| && SkipComments(s, i).Skipped? && !Abnf.Space(Peek(s, i))
    ensures var j := SkipComments(s, i).pos; Peek(s, j) != SLASH && !Abnf.Space(Peek(s, j))
    decreases |s| - i
  {
    hide SkipBlockComment, SkipLineComment, SkipWhitespace, SkipComments;
    Acceptance.SkipCommentsStep(s, i);
    if Peek(s, i) == SLASH {
      var j := Acceptance.CommentEnd(s, i);
      SpaceIsSkipped(s, j);
      CommentsAreSkipped(s, SkipWhitespace(s, j));
    }
  }

  lemma SkipsToToken(c: Config, s: seq<Byte>, i: nat, events: seq<Event>)
    requires i <= |s| && Skip(c, s, i, events).Done?
    ensures AtToken(c, s, Skip(c, s, i, events).value)
  {
    SpaceIsSkipped(s, i);
    if c.comments {
      CommentsAreSkipped(s, SkipWhitespace(s, i));
    }
  }

  /** Why a text is refused: what there is at the offset reported, or is missing. */
  ghost predicate Reason(c: Config, s: seq<Byte>, f: Failure) {
    match f.code
    case DocumentEmpty => Peek(s, f.offset) == 0 && exists w :: IsLastGap(c, w) && At(s, 0, w) && |w| == f.offset
    case DocumentRootNotSingular =>
      Peek(s, f.offset) != 0 && AtToken(c, s, f.offset) && exists text :: IsItem(c, text) && At(s, 0, SpellItem(text)) && |SpellItem(text)| == f.offset
    case ObjectMissName => AtToken(c, s, f.offset) && Peek(s, f.offset) != '"' as int
    case ObjectMissColon => AtToken(c, s, f.offset) && Peek(s, f.offset) != ':' as int
    case ObjectMissCommaOrCurlyBracket =>
      AtToken(c, s, f.offset) && Peek(s, f.offset) != ',' as int && Peek(s, f.offset) != '}' as int
    case ArrayMissCommaOrSquareBracket =>
      AtToken(c, s, f.offset) && Peek(s, f.offset) != ',' as int && Peek(s, f.offset) != ']' as int
    case Termination =>
      !c.accepts(f.events) && f.events != [] && RefusedAt(c, s, f.events[|f.events| - 1], f.offset)
    case UnspecificSyntaxError => c.comments && exists k :: CommentStops(s, k, f.offset)
    case _ => exists i: nat :: i <= |s| && ScalarStops(c, s, i, f.code, f.offset)
  }

  lemma SkipReason(c: Config, s: seq<Byte>, i: nat, events: seq<Event>)
    requires i <= |s|
    ensures var r := Skip(c, s, i, events); if r.Done? then AtToken(c, s, r.value) else Reason(c, s, r.failure)
  {
    hide Skip, CommentStops, IsGap, AtToken;
    if Skip(c, s, i, events).Stop? {
      var w := GapRefused(c, s, i, events);
    } else {
      SkipsToToken(c, s, i, events);
    }
  }

  lemma EmitReason(c: Config, s: seq<Byte>, events: seq<Event>, e: Event, offset: nat)
    requires RefusedAt(c, s, e, offset)
    ensures var r := Emit(c, events, e, offset); r.Stop? ==> Reason(c, s, r.failure)
  {
    hide RefusedAt;
  }

  lemma ByteEnds(s: seq<Byte>, k: nat, b: Byte)
    requires k < |s| && s[k] == b
    ensures Ends(s, k + 1, [b]) && At(s, k, [b])
  {
  }

  /** What is read below values is refused where its event says. */
  lemma ScalarRefusedAt(c: Config, s: seq<Byte>, i: nat)
    requires i <= |s| && ParseScalar(c, s, i).Lexeme?
    ensures var r := ParseScalar(c, s, i); RefusedAt(c, s, r.event, r.refusedAt)
  {
    hide ParseLiteral, ParseNumber, ParseString, WordStops, HasDigit;
    var b := Peek(s, i);
    if b == LOWER_N {
      WordIsWhole(s, i, b, [117, 108, 108], Null);
    } else if b == LOWER_T {
      WordIsWhole(s, i, b, [114, 117, 101], Bool(true));
    } else if b == LOWER_F {
      WordIsWhole(s, i, b, [97, 108, 115, 101], Bool(false));
    } else if b == QUOTE {
      QuoteIsWhole(c, s, i, false);
    } else {
      NumberBegins(c, s, i);
    }
  }

  lemma WordIsWhole(s: seq<Byte>, i: nat, first: Byte, rest: seq<Byte>, event: Event)
    requires i < |s| && s[i] == first && ParseLiteral(s, i, rest, event).Lexeme?
    ensures ParseLiteral(s, i, rest, event).event == event
    ensures forall word | word == [first] + rest :: Ends(s, ParseLiteral(s, i, rest, event).refusedAt, word)
  {
    MatchedStops(s, i + 1, rest);
    hide MatchedPrefix;
    Acceptance.ByteFound(s, i);
    assert rest[..|rest|] == rest;
    AtJoin(s, i, [first], rest);
  }

  lemma QuoteIsWhole(c: Config, s: seq<Byte>, i: nat, isKey: bool)
    requires i < |s| && s[i] == QUOTE && ParseString(c, s, i, isKey).Lexeme?
    ensures var r := ParseString(c, s, i, isKey);
            r.event.Key? == isKey && r.event.String? == !isKey && Ends(s, r.refusedAt, ['"' as int])
  {
    hide ParseStringBody, CharactersText, CharactersValue, AreCharacters, QuotedText, At;
    var chars := Acceptance.QuotedFound(c, s, i);
    ClosingQuote(s, i, chars);
  }

  lemma ClosingQuote(s: seq<Byte>, i: nat, chars: seq<Character>)
    requires At(s, i, QuotedText(chars))
    ensures |QuotedText(chars)| >= 2 && At(s, i + |QuotedText(chars)| - 1, ['"' as int])
  {
    hide CharactersText, At;
    var w := [QUOTE] + CharactersText(chars);
    assert QuotedText(chars) == w + [QUOTE];
    AtConcat(s, i, w, [QUOTE]);
  }

  lemma NumberBegins(c: Config, s: seq<Byte>, i: nat)
    requires i <= |s| && ParseNumber(c, s, i).Lexeme?
    ensures var r := ParseNumber(c, s, i);
            && r.refusedAt == i < |s| && (s[i] == '-' as int || HasDigit(s, i))
            && !(r.event.Null? || r.event.Bool? || r.event.String? || r.event.Key? || r.event.StartObject?
                 || r.event.EndObject? || r.event.StartArray? || r.event.EndArray?)
  {
    hide EndOfDigits, ScanRest, Decimal;
    DigitIsThere(s, i);
  }

  lemma ReportReason(c: Config, s: seq<Byte>, i: nat, r: Lexeme, events: seq<Event>)
    requires i <= |s|
    requires if r.Bad? then ScalarStops(c, s, i, r.code, r.offset) else RefusedAt(c, s, r.event, r.refusedAt)
    ensures var o := Report(c, r, events); o.Stop? ==> Reason(c, s, o.failure)
  {
    hide Reason, ScalarStops;
    if r.Bad? {
      ScalarReason(c, s, i, Failure(r.code, r.offset, events));
    } else {
      EmitReason(c, s, events, r.event, r.refusedAt);
    }
  }

  lemma ScalarReason(c: Config, s: seq<Byte>, i: nat, f: Failure)
    requires i <= |s| && ScalarStops(c, s, i, f.code, f.offset)
    ensures Reason(c, s, f)
  {
    ScalarCodes(c, s, i, f.code, f.offset);
    hide ScalarStops;
  }

  /** The errors below values are not those above them. */
  lemma ScalarCodes(c: Config, s: seq<Byte>, i: nat, code: ErrorCode, offset: nat)
    requires ScalarStops(c, s, i, code, offset)
    ensures match code
            case DocumentEmpty => false
            case DocumentRootNotSingular => false
            case ObjectMissName => false
            case ObjectMissColon => false
            case ObjectMissCommaOrCurlyBracket => false
            case ArrayMissCommaOrSquareBracket => false
            case Termination => false
            case UnspecificSyntaxError => false
            case _ => true
  {
    hide WordStops, HasUtf8Char, HasHex4, HasLead, HasTrail, HasDigit, HasPart, AreCharacters, IsMark;
  }

  lemma {:induction false} ValueReason(c: Config, s: seq<Byte>, i: nat, events: seq<Event>)
    requires i <= |s|
    ensures var r := ParseValue(c, s, i, events); r.Stop? ==> Reason(c, s, r.failure)
    decreases |s| - i, 4
  {
    hide Reason, ParseObject, ParseArray, ParseScalar, ScalarStops, Report;
    if Peek(s, i) == LBRACE {
      ObjectReason(c, s, i, events);
    } else if Peek(s, i) == LBRACKET {
      ArrayReason(c, s, i, events);
    } else {
      if ParseScalar(c, s, i).Bad? {
        ScalarRefused(c, s, i);
      } else {
        ScalarRefusedAt(c, s, i);
      }
      ReportReason(c, s, i, ParseScalar(c, s, i), events);
    }
  }

  lemma {:induction false} ObjectReason(c: Config, s: seq<Byte>, i: nat, events: seq<Event>)
    requires i < |s| && s[i] == LBRACE
    ensures var r := ParseObject(c, s, i, events); r.Stop? ==> Reason(c, s, r.failure)
    decreases |s| - i, 3
  {
    hide Reason, Skip, ParseMembers;
    ByteEnds(s, i, '{' as int);
    EmitReason(c, s, events, StartObject, i + 1);
    if c.accepts(events + [StartObject]) {
      var begun := events + [StartObject];
      SkipReason(c, s, i + 1, begun);
      if Skip(c, s, i + 1, begun).Done? {
        var j := Skip(c, s, i + 1, begun).value;
        if Peek(s, j) == RBRACE {
          ByteEnds(s, j, '}' as int);
          EmitReason(c, s, begun, EndObject(0), j + 1);
        } else {
          MembersReason(c, s, j, begun, 0);
        }
      }
    }
  }

  lemma {:induction false} MembersReason(c: Config, s: seq<Byte>, i: nat, events: seq<Event>, n: nat)
    requires i <= |s| && AtToken(c, s, i)
    ensures var r := ParseMembers(c, s, i, events, n); r.Stop? ==> Reason(c, s, r.failure)
    decreases |s| - i, 6
  {
    hide Reason, ParseMember, ParseAfterMember;
    MemberReason(c, s, i, events);
    if ParseMember(c, s, i, events).Done? {
      AfterMemberReason(c, s, ParseMember(c, s, i, events).value, n);
    }
  }

  lemma {:induction false} MemberReason(c: Config, s: seq<Byte>, i: nat, events: seq<Event>)
    requires i <= |s| && AtToken(c, s, i)
    ensures var r := ParseMember(c, s, i, events); r.Stop? ==> Reason(c, s, r.failure)
    decreases |s| - i, 5
  {
    hide Skip, ParseString, ParseValue, Report, Reason;
    if Peek(s, i) == QUOTE {
      var name := ParseString(c, s, i, true);
      NameReason(c, s, i, events);
      if Report(c, name, events).Done? {
        ReportMoves(c, s, i, events);
        ColonReason(c, s, i, Report(c, name, events).value);
        MissingColon(c, s, i, Report(c, name, events).value);
      }
    } else {
      MissingName(c, s, i, events);
    }
  }

  lemma MissingDelimiters(c: Config, s: seq<Byte>, j: nat, events: seq<Event>)
    requires AtToken(c, s, j)
    ensures Peek(s, j) != COMMA && Peek(s, j) != RBRACE ==>
              Reason(c, s, Failure(ObjectMissCommaOrCurlyBracket, j, events))
    ensures Peek(s, j) != COMMA && Peek(s, j) != RBRACKET ==>
              Reason(c, s, Failure(ArrayMissCommaOrSquareBracket, j, events))
  {
    hide AtToken;
  }

  lemma MissingName(c: Config, s: seq<Byte>, i: nat, events: seq<Event>)
    requires AtToken(c, s, i)
    ensures Peek(s, i) != QUOTE ==> Reason(c, s, Failure(ObjectMissName, i, events))
  {
  }

  lemma MissingColon(c: Config, s: seq<Byte>, i: nat, key: Point)
    requires i < key.pos <= |s|
    ensures var r := Skip(c, s, key.pos, key.events);
            r.Done? && Peek(s, r.value) != COLON ==> Reason(c, s, Failure(ObjectMissColon, r.value, key.events))
  {
    hide Skip, AtToken;
    SkipReason(c, s, key.pos, key.events);
  }

  lemma ReportMoves(c: Config, s: seq<Byte>, i: nat, events: seq<Event>)
    requires i < |s|
    ensures var r := Report(c, ParseString(c, s, i, true), events); r.Done? ==> i < r.value.pos <= |s|
  {
    hide ParseString;
  }

  lemma NameReason(c: Config, s: seq<Byte>, i: nat, events: seq<Event>)
    requires i < |s| && s[i] == QUOTE
    ensures var r := Report(c, ParseString(c, s, i, true), events); r.Stop? ==> Reason(c, s, r.failure)
  {
    hide ParseString, Reason, Report;
    var name := ParseString(c, s, i, true);
    if name.Bad? {
      QuoteRefused(c, s, i, true);
    } else {
      QuoteIsWhole(c, s, i, true);
    }
    hide ScalarStops;
    ReportReason(c, s, i, name, events);
  }

  lemma {:induction false} ColonReason(c: Config, s: seq<Byte>, i: nat, key: Point)
    requires i < key.pos <= |s|
    ensures var r := Skip(c, s, key.pos, key.events); r.Stop? ==> Reason(c, s, r.failure)
    ensures var r := Skip(c, s, key.pos, key.events);
            r.Done? && Peek(s, r.value) == COLON ==>
              var q := Skip(c, s, r.value + 1, key.events);
              && (q.Stop? ==> Reason(c, s, q.failure))
              && (q.Done? ==>
                    var v := ParseValue(c, s, q.value, key.events); v.Stop? ==> Reason(c, s, v.failure))
    decreases |s| - i, 0
  {
    hide Reason, Skip, ParseValue;
    SkipReason(c, s, key.pos, key.events);
    if Skip(c, s, key.pos, key.events).Done? {
      var colon := Skip(c, s, key.pos, key.events).value;
      if Peek(s, colon) == COLON {
        SkipReason(c, s, colon + 1, key.events);
        if Skip(c, s, colon + 1, key.events).Done? {
          ValueReason(c, s, Skip(c, s, colon + 1, key.events).value, key.events);
        }
      }
    }
  }

  lemma {:induction false} AfterMemberReason(c: Config, s: seq<Byte>, value: Point, n: nat)
    requires value.pos <= |s|
    ensures var r := ParseAfterMember(c, s, value, n); r.Stop? ==> Reason(c, s, r.failure)
    decreases |s| - value.pos, 7
  {
    hide Skip, ParseMembers, Reason, AtToken, CountUp, At;
    SkipReason(c, s, value.pos, value.events);
    if Skip(c, s, value.pos, value.events).Done? {
      var j := Skip(c, s, value.pos, value.events).value;
      MissingDelimiters(c, s, j, value.events);
      if Peek(s, j) == COMMA {
        SkipReason(c, s, j + 1, value.events);
        if Skip(c, s, j + 1, value.events).Done? {
          var k := Skip(c, s, j + 1, value.events).value;
          if c.trailingCommas && Peek(s, k) == RBRACE {
            ByteEnds(s, k, '}' as int);
            EmitReason(c, s, value.events, EndObject(CountUp(n)), k);
          } else {
            MembersReason(c, s, k, value.events, CountUp(n));
          }
        }
      } else if Peek(s, j) == RBRACE {
        ByteEnds(s, j, '}' as int);
        EmitReason(c, s, value.events, EndObject(CountUp(n)), j + 1);
      }
    }
  }

  lemma {:induction false} ArrayReason(c: Config, s: seq<Byte>, i: nat, events: seq<Event>)
    requires i < |s| && s[i] == LBRACKET
    ensures var r := ParseArray(c, s, i, events); r.Stop? ==> Reason(c, s, r.failure)
    decreases |s| - i, 3
  {
    hide Reason, Skip, ParseElements;
    ByteEnds(s, i, '[' as int);
    EmitReason(c, s, events, StartArray, i + 1);
    if c.accepts(events + [StartArray]) {
      var begun := events + [StartArray];
      SkipReason(c, s, i + 1, begun);
      if Skip(c, s, i + 1, begun).Done? {
        var j := Skip(c, s, i + 1, begun).value;
        if Peek(s, j) == RBRACKET {
          ByteEnds(s, j, ']' as int);
          EmitReason(c, s, begun, EndArray(0), j + 1);
        } else {
          ElementsReason(c, s, j, begun, 0);
        }
      }
    }
  }

  lemma {:induction false} ElementsReason(c: Config, s: seq<Byte>, i: nat, events: seq<Event>, n: nat)
    requires i <= |s|
    ensures var r := ParseElements(c, s, i, events, n); r.Stop? ==> Reason(c, s, r.failure)
    decreases |s| - i, 6
  {
    hide Reason, ParseValue, ParseAfterElement;
    ValueReason(c, s, i, events);
    if ParseValue(c, s, i, events).Done? {
      AfterElementReason(c, s, ParseValue(c, s, i, events).value, n);
    }
  }

  lemma {:induction false} AfterElementReason(c: Config, s: seq<Byte>, value: Point, n: nat)
    requires value.pos <= |s|
    ensures var r := ParseAfterElement(c, s, value, n); r.Stop? ==> Reason(c, s, r.failure)
    decreases |s| - value.pos, 7
  {
    hide Skip, ParseElements, Reason, AtToken, CountUp, At;
    SkipReason(c, s, value.pos, value.events);
    if Skip(c, s, value.pos, value.events).Done? {
      var j := Skip(c, s, value.pos, value.events).value;
      MissingDelimiters(c, s, j, value.events);
      if Peek(s, j) == COMMA {
        SkipReason(c, s, j + 1, value.events);
        if Skip(c, s, j + 1, value.events).Done? {
          var k := Skip(c, s, j + 1, value.events).value;
          if c.trailingCommas && Peek(s, k) == RBRACKET {
            ByteEnds(s, k, ']' as int);
            EmitReason(c, s, value.events, EndArray(CountUp(n)), k);
          } else {
            ElementsReason(c, s, k, value.events, CountUp(n));
          }
        }
      } else if Peek(s, j) == RBRACKET {
        ByteEnds(s, j, ']' as int);
        EmitReason(c, s, value.events, EndArray(CountUp(n)), j + 1);
      }
    }
  }

  lemma EmptyReason(c: Config, s: seq<Byte>)
    requires Skip(c, s, 0, []).Done? && Peek(s, Skip(c, s, 0, []).value) == 0
    ensures Reason(c, s, Failure(DocumentEmpty, Skip(c, s, 0, []).value, []))
  {
    hide Skip, IsLastGap, IsGap, At;
    var w := Acceptance.SkipFinds(c, s, 0, []);
  }

  lemma RootReason(c: Config, s: seq<Byte>, i: nat, j: nat, root: Point)
    requires Skip(c, s, 0, []) == Done(i) && i <= |s| && ParseValue(c, s, i, []) == Done(root)
    requires root.pos <= |s| && Skip(c, s, root.pos, root.events) == Done(j) && Peek(s, j) != 0
    ensures Reason(c, s, Failure(DocumentRootNotSingular, j, root.events))
  {
    hide At, Skip, ParseValue, IsGap, IsLastGap, Spell, IsPhrase, Meaning, Acceptance.PhraseStops;
    var before := Acceptance.SkipFinds(c, s, 0, []);
    Acceptance.ValueIsThere(c, s, i, []);
    var v := Acceptance.PhraseFound(c, s, i, []);
    var after := Acceptance.SkipFinds(c, s, root.pos, root.events);
    var text := Item(before, v, after);
    AtJoin(s, i, Spell(v), after);
    AtJoin(s, 0, before, Spell(v) + after);
    assert IsItem(c, text);
    SkipsToToken(c, s, root.pos, root.events);
    hide AtToken;
  }

  /**
   Every failure has its reason: the code and the offset that either parser reports say truly what is
   there or is missing, except that the automaton calls a text that begins with a stray `,`, `:`, `]`
   or `}` empty.
   */
  lemma EveryFailureHasAReason(c: Config, s: seq<Byte>)
    ensures Parse(c, s).Stop? ==> Reason(c, s, Parse(c, s).failure)
    ensures IterativeParse(c, s).Stop? ==>
              || Reason(c, s, IterativeParse(c, s).failure)
              || (IterativeParse(c, s).failure.code == Termination && !c.accepts(IterativeParse(c, s).failure.events))
              || (Parse(c, s).Stop? && Parse(c, s).failure.code == ValueInvalid
                  && IterativeParse(c, s).failure == Parse(c, s).failure.(code := DocumentEmpty))
  {
    hide Parse, IterativeParse, Reason, Skip;
    RecursiveReason(c, s);
    Refinement.IterativeRefinesRecursive(c, s);
    if Parse(c, s).Stop? && IterativeParse(c, s).Stop? {
      SameReason(c, s, Parse(c, s).failure, IterativeParse(c, s).failure);
    }
  }

  /** A refusal by the handler is one wherever it is reported. */
  lemma SameReason(c: Config, s: seq<Byte>, f: Failure, g: Failure)
    ensures f.code == Termination && f == g.(offset := f.offset) && Reason(c, s, f) ==> !c.accepts(g.events)
  {
  }

  lemma RecursiveReason(c: Config, s: seq<Byte>)
    ensures Parse(c, s).Stop? ==> Reason(c, s, Parse(c, s).failure)
  {
    hide Reason, Skip, ParseValue;
    SkipReason(c, s, 0, []);
    if Skip(c, s, 0, []).Done? {
      var i := Skip(c, s, 0, []).value;
      if Peek(s, i) == 0 {
        EmptyReason(c, s);
        return;
      }
      ValueReason(c, s, i, []);
      if ParseValue(c, s, i, []).Done? {
        var root := ParseValue(c, s, i, []).value;
        SkipReason(c, s, root.pos, root.events);
        if Skip(c, s, root.pos, root.events).Done? && Peek(s, Skip(c, s, root.pos, root.events).value) != 0 {
          RootReason(c, s, i, Skip(c, s, root.pos, root.events).value, root);
        }
      }
    }
  }
}
