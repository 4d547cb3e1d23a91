/** The reader accepts exactly the texts of the grammar, and reports what they mean. */
module Acceptance {
  import Abnf
  import opened Bytes
  import opened Json
  import opened Lexer
  import opened Grammar
  import opened Syntax
  import Refinement
  import Utf8

  // ---------------------------------------------------------------------------------------
  // White space
  // ---------------------------------------------------------------------------------------

  lemma {:induction false} SkipsSpace(s: seq<Byte>, i: nat, w: seq<Byte>)
    requires At(s, i, w) && AllSpace(w) && !IsSpace(Peek(s, i + |w|))
    ensures SkipWhitespace(s, i) == i + |w|
    decreases |w|
  {
    if w != [] {
      AtFirst(s, i, w);
      assert w[0] in w;
      SkipsSpace(s, i + 1, w[1..]);
    }
  }

  lemma {:induction false} SkippedIsSpace(s: seq<Byte>, i: nat)
    requires i <= |s|
    ensures AllSpace(s[i..SkipWhitespace(s, i)]) && !IsSpace(Peek(s, SkipWhitespace(s, i)))
    decreases |s| - i
  {
    if IsSpace(Peek(s, i)) {
      SkippedIsSpace(s, i + 1);
      assert s[i..SkipWhitespace(s, i)] == [s[i]] + s[i + 1..SkipWhitespace(s, i)];
    }
  }

  // ---------------------------------------------------------------------------------------
  // Comments
  // ---------------------------------------------------------------------------------------

  /** After its opening mark, a comment is skipped to the end of its first closing mark. */
  lemma {:induction false} SkipsBlock(s: seq<Byte>, i: nat, w: seq<Byte>, k: nat)
    requires IsBlockComment(w) && At(s, i, w) && 2 <= k <= |w| - 2
    ensures SkipBlockComment(s, i + k) == Skipped(i + |w|)
    decreases |w| - k
  {
    AtByte(s, i, w, k);
    AtByte(s, i, w, k + 1);
    assert w[k] in w;
    if k < |w| - 2 {
      SkipsBlock(s, i, w, k + 1);
    } else {
      assert w[k] == w[|w| - 2..][0] && w[k + 1] == w[|w| - 2..][1];
    }
  }

  /** A comment of one line is skipped up to the newline, or to the end of the text. */
  lemma {:induction false} SkipsLine(s: seq<Byte>, i: nat, w: seq<Byte>, k: nat)
    requires IsLineComment(w) && At(s, i, w) && 2 <= k <= |w|
    requires Peek(s, i + |w|) == 0 || Peek(s, i + |w|) == NEWLINE
    ensures SkipLineComment(s, i + k) == if Peek(s, i + |w|) == 0 then i + |w| else i + |w| + 1
    decreases |w| - k
  {
    if k < |w| {
      AtByte(s, i, w, k);
      assert w[k] in w;
      SkipsLine(s, i, w, k + 1);
    }
  }

  /** A comment is skipped, and then what follows it. */
  lemma SkipsComment(s: seq<Byte>, i: nat, w: seq<Byte>)
    requires IsComment(w) && At(s, i, w)
    ensures i + |w| <= |s| && Peek(s, i) == SLASH
    ensures SkipComments(s, i) == SkipComments(s, SkipWhitespace(s, i + |w|))
  {
    hide SkipBlockComment, SkipLineComment, SkipWhitespace, At, IsBlockComment, IsLineComment;
    if IsBlockComment(w) {
      BlockMarks(s, i, w);
      SkipsBlock(s, i, w, 2);
    } else {
      var n := |w| - 1;
      assert w[..n] + [NEWLINE] == w;
      AtConcat(s, i, w[..n], [NEWLINE]);
      AtByte(s, i, w, n);
      SkipsLineMarks(s, i, w[..n]);
      MarksAreTwo(w[..n]);
      SkipsLine(s, i, w[..n], 2);
    }
  }

  lemma BlockMarks(s: seq<Byte>, i: nat, w: seq<Byte>)
    requires IsBlockComment(w) && At(s, i, w)
    ensures |w| >= 4 && i + |w| <= |s| && Peek(s, i) == SLASH && Peek(s, i + 1) == STAR
  {
    AtByte(s, i, w, 0);
    AtByte(s, i, w, 1);
    assert w[0] == w[..2][0] && w[1] == w[..2][1];
  }

  lemma SkipsLineMarks(s: seq<Byte>, i: nat, w: seq<Byte>)
    requires IsLineComment(w) && At(s, i, w)
    ensures i + |w| <= |s| && Peek(s, i) == SLASH && Peek(s, i + 1) == SLASH
  {
    AtByte(s, i, w, 0);
    AtByte(s, i, w, 1);
    assert w[0] == w[..2][0] && w[1] == w[..2][1];
  }

  lemma GapParts(c: Config, w: seq<Byte>) returns (n: nat, m: nat)
    requires IsGap(c, w) && !AllSpace(w)
    ensures n < m <= |w| && AllSpace(w[..n]) && IsComment(w[n..m]) && IsGap(c, w[m..])
  {
    hide AllSpace, IsComment;
    n, m :| 0 <= n < m <= |w| && IsGapWith(c, w, n, m);
  }

  /** A gap is skipped up to anything but white space and comments. */
  lemma {:induction false} SkipsGap(c: Config, s: seq<Byte>, i: nat, w: seq<Byte>)
    requires At(s, i, w) && IsGap(c, w) && !IsSpace(Peek(s, i + |w|)) && c.comments
    ensures i + |w| <= |s| && SkipComments(s, SkipWhitespace(s, i)) == SkipComments(s, i + |w|)
    decreases |w|
  {
    hide At, SkipComments, SkipWhitespace, IsComment, AllSpace, IsGap;
    AtSlice(s, i, w);
    if AllSpace(w) {
      SkipsSpace(s, i, w);
    } else {
      var n, m := GapParts(c, w);
      AtThree(s, i, w, n, m);
      SkipsComment(s, i + n, w[n..m]);
      SkipsSpace(s, i, w[..n]);
      SkipsGap(c, s, i + m, w[m..]);
    }
  }

  lemma AtThree(s: seq<Byte>, i: nat, w: seq<Byte>, n: nat, m: nat)
    requires At(s, i, w) && n <= m <= |w|
    ensures At(s, i, w[..n]) && At(s, i + n, w[n..m]) && At(s, i + m, w[m..])
  {
    hide At;
    assert w == w[..n] + (w[n..m] + w[m..]);
    AtConcat(s, i, w[..n], w[n..m] + w[m..]);
    AtConcat(s, i + n, w[n..m], w[m..]);
  }

  lemma SkipsTo(c: Config, s: seq<Byte>, i: nat, w: seq<Byte>, events: seq<Event>)
    requires At(s, i, w) && IsGap(c, w) && !IsSpace(Peek(s, i + |w|)) && Peek(s, i + |w|) != SLASH
    ensures Skip(c, s, i, events) == Done(i + |w|)
  {
    if c.comments {
      SkipsGap(c, s, i, w);
    } else {
      SkipsSpace(s, i, w);
    }
  }
  /** Where a comment was found closed, it is closed for the first time. */
  lemma {:induction false} BlockEnds(s: seq<Byte>, i: nat)
    requires i <= |s| && SkipBlockComment(s, i).Skipped?
    ensures var j := SkipBlockComment(s, i).pos;
            && i + 2 <= j && s[j - 2] == STAR && s[j - 1] == SLASH
            && (forall k | i <= k < j :: s[k] != 0)
            && (forall k | i <= k < j - 2 :: s[k] == STAR ==> s[k + 1] != SLASH)
    decreases |s| - i
  {
    if !(s[i] == STAR && Peek(s, i + 1) == SLASH) {
      BlockEnds(s, i + 1);
    }
  }

  lemma BlockFound(s: seq<Byte>, i: nat)
    requires i + 2 <= |s| && s[i] == SLASH && s[i + 1] == STAR && SkipBlockComment(s, i + 2).Skipped?
    ensures IsBlockComment(s[i..SkipBlockComment(s, i + 2).pos])
  {
    hide SkipBlockComment;
    BlockEnds(s, i + 2);
    var j := SkipBlockComment(s, i + 2).pos;
    var w := s[i..j];
    assert forall k | 0 <= k < |w| :: w[k] == s[i + k];
    assert w[|w| - 2] == s[j - 2] && w[|w| - 1] == s[j - 1];
  }

  lemma {:induction false} LineEnds(s: seq<Byte>, i: nat)
    requires i <= |s|
    ensures var j := SkipLineComment(s, i);
            var end := if Peek(s, j) == 0 && (j == i || s[j - 1] != NEWLINE) then j else j - 1;
            && i <= end && (end < j ==> s[end] == NEWLINE) && (end == j ==> Peek(s, j) == 0)
            && forall k | i <= k < end :: s[k] != 0 && s[k] != NEWLINE
    decreases |s| - i
  {
    if Peek(s, i) != 0 && s[i] != NEWLINE {
      LineEnds(s, i + 1);
    }
  }

  /** A comment of one line was ended by its newline, or by the end of the text. */
  lemma LineFound(s: seq<Byte>, i: nat)
    requires i + 2 <= |s| && s[i] == SLASH && s[i + 1] == SLASH
    ensures var j := SkipLineComment(s, i + 2);
            IsComment(s[i..j]) || (IsLineComment(s[i..j]) && Peek(s, j) == 0)
  {
    hide SkipLineComment;
    LineEnds(s, i + 2);
    var j := SkipLineComment(s, i + 2);
    var end := if Peek(s, j) == 0 && (j == i + 2 || s[j - 1] != NEWLINE) then j else j - 1;
    var w := s[i..end];
    assert forall k | 0 <= k < |w| :: w[k] == s[i + k];
    assert IsLineComment(w);
    if end < j {
      assert s[i..j][..|s[i..j]| - 1] == w && s[i..j][|s[i..j]| - 1] == s[end];
    }
  }

  lemma GapWith(c: Config, w: seq<Byte>, n: nat, m: nat)
    requires c.comments && n < m <= |w| && AllSpace(w[..n]) && IsComment(w[n..m])
    ensures IsGap(c, w[m..]) ==> IsGap(c, w)
    ensures IsLastGap(c, w[m..]) ==> IsLastGap(c, w)
  {
    hide AllSpace, IsComment;
    if IsGap(c, w[m..]) {
      assert IsGapWith(c, w, n, m);
    } else if IsLastGap(c, w[m..]) {
      var k :| 0 <= k <= |w[m..]| && IsGap(c, w[m..][..k]) && IsLineComment(w[m..][k..]);
      var all := w[..m + k];
      assert all[..n] == w[..n] && all[n..m] == w[n..m] && all[m..] == w[m..][..k];
      assert IsGapWith(c, all, n, m);
      assert w[m + k..] == w[m..][k..];
    }
  }

  lemma LastLine(c: Config, w: seq<Byte>, n: nat)
    requires c.comments && n <= |w| && AllSpace(w[..n]) && IsLineComment(w[n..])
    ensures IsLastGap(c, w)
  {
    hide IsLineComment, AllSpace;
    assert IsGap(c, w[..n]);
  }

  /** Where the comment at `n` ends. */
  function CommentEnd(s: seq<Byte>, n: nat): nat
    requires n + 2 <= |s| && (s[n + 1] == STAR ==> SkipBlockComment(s, n + 2).Skipped?)
  {
    if s[n + 1] == STAR then SkipBlockComment(s, n + 2).pos else SkipLineComment(s, n + 2)
  }

  lemma SkipCommentsStep(s: seq<Byte>, n: nat)
    requires n <= |s|
    ensures Peek(s, n) != SLASH ==> SkipComments(s, n) == Skipped(n)
    ensures Peek(s, n) == SLASH && SkipComments(s, n).Skipped? ==>
              && n + 2 <= |s| && (s[n + 1] == STAR || s[n + 1] == SLASH)
              && (s[n + 1] == STAR ==> SkipBlockComment(s, n + 2).Skipped?)
              && n + 2 <= CommentEnd(s, n) <= |s|
              && SkipComments(s, n) == SkipComments(s, SkipWhitespace(s, CommentEnd(s, n)))
  {
    hide SkipBlockComment, SkipLineComment, SkipWhitespace;
  }

  lemma CommentFound(s: seq<Byte>, n: nat)
    requires n + 2 <= |s| && s[n] == SLASH && (s[n + 1] == STAR || s[n + 1] == SLASH)
    requires s[n + 1] == STAR ==> SkipBlockComment(s, n + 2).Skipped?
    ensures n < CommentEnd(s, n) <= |s|
    ensures var j := CommentEnd(s, n); IsComment(s[n..j]) || (IsLineComment(s[n..j]) && Peek(s, j) == 0)
  {
    hide SkipBlockComment, SkipLineComment, IsLineComment;
    if s[n + 1] == STAR {
      BlockFound(s, n);
    } else {
      hide IsBlockComment;
      LineFound(s, n);
    }
  }

  lemma {:induction false} CommentsFound(c: Config, s: seq<Byte>, i: nat) returns (w: seq<Byte>)
    requires i <= |s| && c.comments && SkipComments(s, SkipWhitespace(s, i)).Skipped?
    ensures At(s, i, w) && SkipComments(s, SkipWhitespace(s, i)) == Skipped(i + |w|)
    ensures IsLastGap(c, w) && (Peek(s, i + |w|) != 0 ==> IsGap(c, w))
    decreases |s| - i
  {
    hide IsGap, IsLastGap, IsComment, IsLineComment, AllSpace, SkipBlockComment, SkipLineComment, SkipWhitespace, SkipComments;
    var n := SkipWhitespace(s, i);
    SkippedIsSpace(s, i);
    SkipCommentsStep(s, n);
    if Peek(s, n) != SLASH {
      w := s[i..n];
      GapIsLast(c, w);
      return;
    }
    var j := CommentEnd(s, n);
    CommentFound(s, n);
    if !IsComment(s[n..j]) {
      w := s[i..j];
      assert w[..n - i] == s[i..n] && w[n - i..] == s[n..j];
      LastLine(c, w, n - i);
      NothingSkipped(s, j);
      return;
    }
    var rest := CommentsFound(c, s, j);
    w := s[i..j] + rest;
    assert w[..n - i] == s[i..n] && w[n - i..j - i] == s[n..j] && w[j - i..] == rest;
    AtJoin(s, i, s[i..j], rest);
    GapWith(c, w, n - i, j - i);
  }

  lemma NothingSkipped(s: seq<Byte>, i: nat)
    requires i <= |s| && Peek(s, i) == 0
    ensures SkipComments(s, SkipWhitespace(s, i)) == Skipped(i)
  {
  }

  lemma GapIsLast(c: Config, w: seq<Byte>)
    requires AllSpace(w)
    ensures IsGap(c, w) && IsLastGap(c, w)
  {
  }

  /** What is skipped is a gap; only at the end of the text may it be a line that is not ended. */
  lemma SkipFinds(c: Config, s: seq<Byte>, i: nat, events: seq<Event>) returns (w: seq<Byte>)
    requires i <= |s| && Skip(c, s, i, events).Done?
    ensures At(s, i, w) && Skip(c, s, i, events) == Done(i + |w|)
    ensures IsLastGap(c, w) && (Peek(s, i + |w|) != 0 ==> IsGap(c, w))
  {
    hide IsLastGap, AllSpace;
    if c.comments {
      w := CommentsFound(c, s, i);
    } else {
      SkippedIsSpace(s, i);
      w := s[i..SkipWhitespace(s, i)];
      GapIsLast(c, w);
    }
  }

  // ---------------------------------------------------------------------------------------
  // Words
  // ---------------------------------------------------------------------------------------

  lemma {:induction false} ReadLiteralRest(s: seq<Byte>, i: nat, rest: seq<Byte>)
    requires At(s, i, rest)
    ensures MatchedPrefix(s, i, rest) == i + |rest|
    decreases |rest|
  {
    if rest != [] {
      AtFirst(s, i, rest);
      ReadLiteralRest(s, i + 1, rest[1..]);
    }
  }

  lemma ReadLiteral(s: seq<Byte>, i: nat, w: seq<Byte>)
    requires At(s, i, w) && w != []
    ensures Peek(s, i) == w[0] && MatchedPrefix(s, i + 1, w[1..]) == i + |w|
  {
    AtFirst(s, i, w);
    ReadLiteralRest(s, i + 1, w[1..]);
  }

  lemma {:induction false} MatchedIsThere(s: seq<Byte>, i: nat, rest: seq<Byte>)
    requires i <= |s| && MatchedPrefix(s, i, rest) == i + |rest|
    ensures At(s, i, rest)
    decreases |rest|
  {
    if rest != [] {
      MatchedIsThere(s, i + 1, rest[1..]);
      AtJoin(s, i, [s[i]], rest[1..]);
      assert rest == [s[i]] + rest[1..];
    }
  }

  lemma WordFound(s: seq<Byte>, i: nat, w: seq<Byte>, event: Event)
    requires i < |s| && w != [] && s[i] == w[0] && ParseLiteral(s, i, w[1..], event).Lexeme?
    ensures At(s, i, w) && ParseLiteral(s, i, w[1..], event).pos == i + |w|
  {
    MatchedIsThere(s, i + 1, w[1..]);
    AtJoin(s, i, [s[i]], w[1..]);
    assert w == [s[i]] + w[1..];
  }

  // ---------------------------------------------------------------------------------------
  // Strings
  // ---------------------------------------------------------------------------------------

  lemma HexUnrolled(s: seq<Byte>, i: nat)
    ensures ParseHex(s, i, 4, 0)
         == match (HexDigit(Peek(s, i)), HexDigit(Peek(s, i + 1)), HexDigit(Peek(s, i + 2)), HexDigit(Peek(s, i + 3)))
            case (Some(a), Some(b), Some(c), Some(d)) => Some(((a * 16 + b) * 16 + c) * 16 + d)
            case _ => None
  {
  }

  lemma ReadHex(s: seq<Byte>, i: nat, h: Hex4)
    requires At(s, i, h)
    ensures ParseHex(s, i, 4, 0) == Some(HexNumber(h))
  {
    hide Abnf.HexDig, HexDigit, ParseHex;
    forall k: nat | k < 4
      ensures Peek(s, i + k) == h[k] && HexDigit(h[k]) == Abnf.HexDig(h[k])
    {
      AtByte(s, i, h, k);
      Abnf.HexDigitsAgree(h[k]);
    }
    HexUnrolled(s, i);
  }

  lemma HexFound(s: seq<Byte>, i: nat) returns (h: Hex4)
    requires ParseHex(s, i, 4, 0).Some?
    ensures At(s, i, h) && ParseHex(s, i, 4, 0).value == HexNumber(h)
  {
    HexUnrolled(s, i);
    hide Abnf.HexDig, HexDigit, ParseHex;
    var w := s[i..i + 4];
    forall b: Byte
      ensures HexDigit(b) == Abnf.HexDig(b)
    {
      Abnf.HexDigitsAgree(b);
    }
    assert w == [s[i], s[i + 1], s[i + 2], s[i + 3]];
    h := w;
  }

  lemma ReadUnit(s: seq<Byte>, i: nat, h: Hex4)
    requires At(s, i, [BACKSLASH, LOWER_U] + h) && !(0xD800 <= HexNumber(h) <= 0xDBFF)
    ensures ParseUnicodeEscape(s, i) == Scanned(i + 6, Utf8.Encode(HexNumber(h)))
  {
    AtConcat(s, i, [BACKSLASH, LOWER_U], h);
    ReadHex(s, i + 2, h);
    hide ParseHex, Utf8.Encode, HexNumber;
  }

  lemma ReadSurrogates(s: seq<Byte>, i: nat, lead: LeadingHex, trail: TrailingHex)
    requires At(s, i, CharacterText(Surrogates(lead, trail)))
    ensures ParseUnicodeEscape(s, i) == Scanned(i + 12, CharacterValue(Surrogates(lead, trail)))
  {
    hide ParseHex, Utf8.Encode, HexNumber, HexDigit, At, ParseUnicodeEscape;
    var mark := [BACKSLASH, LOWER_U];
    AtConcat(s, i, mark + lead, mark + trail);
    AtConcat(s, i, mark, lead);
    AtConcat(s, i + 6, mark, trail);
    AtByte(s, i + 6, mark, 0);
    AtByte(s, i + 6, mark, 1);
    ReadHex(s, i + 2, lead);
    ReadHex(s, i + 8, trail);
    TwoUnits(s, i, HexNumber(lead), HexNumber(trail));
  }

  lemma TwoUnits(s: seq<Byte>, i: nat, lead: nat, trail: nat)
    requires ParseHex(s, i + 2, 4, 0) == Some(lead) && 0xD800 <= lead <= 0xDBFF
    requires Peek(s, i + 6) == BACKSLASH && Peek(s, i + 7) == LOWER_U
    requires ParseHex(s, i + 8, 4, 0) == Some(trail) && 0xDC00 <= trail <= 0xDFFF
    ensures ParseUnicodeEscape(s, i)
         == Scanned(i + 12, Utf8.Encode((lead - 0xD800) * 1024 + (trail - 0xDC00) + 0x1_0000))
  {
    hide ParseHex, Utf8.Encode;
  }

  lemma ReadPlain(c: Config, s: seq<Byte>, i: nat, bytes: seq<Byte>, str: seq<Byte>)
    requires IsCharacter(c, Plain(bytes)) && At(s, i, bytes)
    ensures ParseStringBody(c, s, i, str) == ParseStringBody(c, s, i + |bytes|, str + bytes)
  {
    assert bytes != [] by {
      hide IsUnescaped;
    }
    AtFirst(s, i, bytes);
    if c.validateEncoding {
      Utf8.ValidateComplete(s, i, bytes);
    } else {
      assert bytes == [bytes[0]];
    }
    hide ParseUnicodeEscape, Utf8.Validate, Utf8.IsUtf8Char, Unescape;
  }

  lemma ReadShort(c: Config, s: seq<Byte>, i: nat, letter: Byte, str: seq<Byte>)
    requires letter in ESCAPES && At(s, i, [BACKSLASH, letter])
    ensures ParseStringBody(c, s, i, str) == ParseStringBody(c, s, i + 2, str + [ESCAPES[letter]])
  {
    AtByte(s, i, [BACKSLASH, letter], 0);
    AtByte(s, i, [BACKSLASH, letter], 1);
    assert Unescape(letter) == ESCAPES[letter] != 0;
    hide ParseUnicodeEscape, Unescape;
  }

  lemma EscapeStep(c: Config, s: seq<Byte>, i: nat, str: seq<Byte>, j: nat, encoded: seq<Byte>)
    requires i < |s| && s[i] == BACKSLASH && Peek(s, i + 1) == LOWER_U && ParseUnicodeEscape(s, i) == Scanned(j, encoded)
    ensures ParseStringBody(c, s, i, str) == ParseStringBody(c, s, j, str + encoded)
  {
    assert Unescape(LOWER_U) == 0;
    hide ParseUnicodeEscape, Unescape;
  }

  /** A character written in any of its ways is read as what it stands for. */
  lemma ReadCharacter(c: Config, s: seq<Byte>, i: nat, ch: Character, str: seq<Byte>)
    requires IsCharacter(c, ch) && At(s, i, CharacterText(ch))
    ensures ParseStringBody(c, s, i, str)
         == ParseStringBody(c, s, i + |CharacterText(ch)|, str + CharacterValue(ch))
  {
    hide ParseStringBody, Utf8.Encode, HexNumber, Abnf.HexDig, At;
    match ch
    case Plain(bytes) => ReadPlain(c, s, i, bytes, str);
    case Short(letter) => ReadShort(c, s, i, letter, str);
    case Unit(h) => ReadUnitCharacter(c, s, i, h, str);
    case Surrogates(lead, trail) => ReadSurrogateCharacter(c, s, i, lead, trail, str);
  }

  lemma ReadUnitCharacter(c: Config, s: seq<Byte>, i: nat, h: Hex4, str: seq<Byte>)
    requires At(s, i, CharacterText(Unit(h))) && !(0xD800 <= HexNumber(h) <= 0xDBFF)
    ensures ParseStringBody(c, s, i, str) == ParseStringBody(c, s, i + 6, str + CharacterValue(Unit(h)))
  {
    hide ParseStringBody, ParseUnicodeEscape, Utf8.Encode, HexNumber, HexDigit, At;
    var text := CharacterText(Unit(h));
    AtByte(s, i, text, 0);
    AtByte(s, i, text, 1);
    ReadUnit(s, i, h);
    EscapeStep(c, s, i, str, i + 6, CharacterValue(Unit(h)));
  }

  lemma ReadSurrogateCharacter(c: Config, s: seq<Byte>, i: nat, lead: LeadingHex, trail: TrailingHex, str: seq<Byte>)
    requires At(s, i, CharacterText(Surrogates(lead, trail)))
    ensures ParseStringBody(c, s, i, str) == ParseStringBody(c, s, i + 12, str + CharacterValue(Surrogates(lead, trail)))
  {
    hide ParseStringBody, ParseUnicodeEscape, CharacterValue, HexNumber, HexDigit, At;
    var text := CharacterText(Surrogates(lead, trail));
    AtByte(s, i, text, 0);
    AtByte(s, i, text, 1);
    ReadSurrogates(s, i, lead, trail);
    EscapeStep(c, s, i, str, i + 12, CharacterValue(Surrogates(lead, trail)));
  }

  lemma ReadClosingQuote(c: Config, s: seq<Byte>, i: nat, str: seq<Byte>)
    requires At(s, i, [QUOTE])
    ensures ParseStringBody(c, s, i, str) == Scanned(i + 1, str)
  {
    AtFirst(s, i, [QUOTE]);
  }

  lemma {:induction false} ReadCharacters(c: Config, s: seq<Byte>, i: nat, chars: seq<Character>, str: seq<Byte>)
    requires AreCharacters(c, chars) && At(s, i, CharactersText(chars) + [QUOTE])
    ensures ParseStringBody(c, s, i, str)
         == Scanned(i + |CharactersText(chars)| + 1, str + CharactersValue(chars))
    decreases |chars|
  {
    hide CharacterText, CharacterValue, IsCharacter, AreCharacters, At, ParseStringBody;
    if chars == [] {
      assert CharactersText(chars) + [QUOTE] == [QUOTE] && str + [] == str;
      ReadClosingQuote(c, s, i, str);
    } else {
      var rest := CharactersText(chars[1..]) + [QUOTE];
      FirstCharacter(c, chars);
      hide CharactersText, CharactersValue;
      AtConcat(s, i, CharacterText(chars[0]), rest);
      ReadCharacter(c, s, i, chars[0], str);
      ReadCharacters(c, s, i + |CharacterText(chars[0])|, chars[1..], str + CharacterValue(chars[0]));
      assert str + CharacterValue(chars[0]) + CharactersValue(chars[1..]) == str + CharactersValue(chars);
    }
  }

  lemma FirstCharacter(c: Config, chars: seq<Character>)
    requires chars != [] && AreCharacters(c, chars)
    ensures IsCharacter(c, chars[0]) && AreCharacters(c, chars[1..])
    ensures CharactersText(chars) + [QUOTE] == CharacterText(chars[0]) + (CharactersText(chars[1..]) + [QUOTE])
    ensures CharactersValue(chars) == CharacterValue(chars[0]) + CharactersValue(chars[1..])
  {
    hide CharacterText, CharacterValue, IsCharacter;
    assert chars[0] in chars && forall ch <- chars[1..] :: ch in chars;
    assert CharactersText(chars) == CharacterText(chars[0]) + CharactersText(chars[1..]);
    hide CharactersText, CharactersValue;
    assert CharacterText(chars[0]) + CharactersText(chars[1..]) + [QUOTE]
        == CharacterText(chars[0]) + (CharactersText(chars[1..]) + [QUOTE]);
  }

  lemma ReadQuoted(c: Config, s: seq<Byte>, i: nat, chars: seq<Character>)
    requires AreCharacters(c, chars) && At(s, i, QuotedText(chars))
    ensures i < |s| && s[i] == QUOTE
    ensures ParseStringBody(c, s, i + 1, []) == Scanned(i + |QuotedText(chars)|, CharactersValue(chars))
  {
    AtConcat(s, i, [QUOTE], CharactersText(chars) + [QUOTE]);
    AtFirst(s, i, [QUOTE]);
    ReadCharacters(c, s, i + 1, chars, []);
    assert [] + CharactersValue(chars) == CharactersValue(chars);
  }

  lemma EscapeFound(c: Config, s: seq<Byte>, i: nat) returns (ch: Character)
    requires At(s, i, [BACKSLASH, LOWER_U]) && ParseUnicodeEscape(s, i).Scanned?
    ensures IsCharacter(c, ch) && At(s, i, CharacterText(ch)) && |CharacterText(ch)| > 0
    ensures ParseUnicodeEscape(s, i) == Scanned(i + |CharacterText(ch)|, CharacterValue(ch))
  {
    hide ParseHex, ParseUnicodeEscape, Utf8.Encode, HexNumber, Abnf.HexDig, At;
    var mark := [BACKSLASH, LOWER_U];
    EscapeParts(s, i);
    var h := HexFound(s, i + 2);
    AtJoin(s, i, mark, h);
    if 0xD800 <= HexNumber(h) <= 0xDBFF {
      var g := HexFound(s, i + 8);
      AtJoin(s, i + 6, mark, g);
      AtJoin(s, i, mark + h, mark + g);
      var lead: LeadingHex, trail: TrailingHex := h, g;
      ch := Surrogates(lead, trail);
      ReadSurrogates(s, i, lead, trail);
    } else {
      ch := Unit(h);
      ReadUnit(s, i, h);
    }
  }

  /** What a `\u` escape that is read consists of. */
  lemma EscapeParts(s: seq<Byte>, i: nat)
    requires ParseUnicodeEscape(s, i).Scanned?
    ensures ParseHex(s, i + 2, 4, 0).Some?
    ensures 0xD800 <= ParseHex(s, i + 2, 4, 0).value <= 0xDBFF ==>
              && At(s, i + 6, [BACKSLASH, LOWER_U])
              && ParseHex(s, i + 8, 4, 0).Some? && 0xDC00 <= ParseHex(s, i + 8, 4, 0).value <= 0xDFFF
  {
    hide ParseHex, Utf8.Encode;
    var lead := ParseHex(s, i + 2, 4, 0).value;
    if 0xD800 <= lead <= 0xDBFF {
      assert s[i + 6..i + 8] == [s[i + 6], s[i + 7]];
    }
  }

  /** The reader does not stop at `i` for an error. */
  predicate GoesOn(c: Config, s: seq<Byte>, i: nat, str: seq<Byte>)
    requires i <= |s|
  {
    match ParseStringBody(c, s, i, str)
    case Scanned(_, _) => true
    case BadString(_, offset) => offset != i
  }

  lemma EscapedFound(c: Config, s: seq<Byte>, i: nat, str: seq<Byte>) returns (ch: Character)
    requires i < |s| && s[i] == BACKSLASH && GoesOn(c, s, i, str)
    ensures IsCharacter(c, ch) && At(s, i, CharacterText(ch)) && |CharacterText(ch)| > 0
  {
    hide ParseUnicodeEscape;
    assert s[i..i + 2] == [BACKSLASH, Peek(s, i + 1)];
    if Unescape(Peek(s, i + 1)) != 0 {
      hide ParseStringBody, GoesOn;
      ch := Short(Peek(s, i + 1));
    } else {
      assert Peek(s, i + 1) == LOWER_U && ParseUnicodeEscape(s, i).Scanned?;
      hide ParseStringBody, GoesOn, Unescape;
      ch := EscapeFound(c, s, i);
    }
  }

  /** What the reader takes for one character is one. */
  lemma CharacterFound(c: Config, s: seq<Byte>, i: nat, str: seq<Byte>) returns (ch: Character)
    requires i <= |s| && GoesOn(c, s, i, str) && Peek(s, i) != QUOTE
    ensures IsCharacter(c, ch) && At(s, i, CharacterText(ch)) && |CharacterText(ch)| > 0
    ensures ParseStringBody(c, s, i, str)
         == ParseStringBody(c, s, i + |CharacterText(ch)|, str + CharacterValue(ch))
  {
    assert i < |s|;
    hide ParseStringBody, GoesOn, IsCharacter, CharacterText, CharacterValue, At;
    if s[i] == BACKSLASH {
      ch := EscapedFound(c, s, i, str);
    } else {
      ch := PlainFound(c, s, i, str);
    }
    ReadCharacter(c, s, i, ch, str);
  }

  lemma PlainFound(c: Config, s: seq<Byte>, i: nat, str: seq<Byte>) returns (ch: Character)
    requires i <= |s| && GoesOn(c, s, i, str) && Peek(s, i) != QUOTE && Peek(s, i) != BACKSLASH
    ensures IsCharacter(c, ch) && At(s, i, CharacterText(ch)) && |CharacterText(ch)| > 0
  {
    hide ParseUnicodeEscape, Unescape, Utf8.IsUtf8Char;
    if c.validateEncoding {
      Utf8.ValidateSound(s, i);
      hide Utf8.Validate;
      ch := Plain(s[i..Utf8.Validate(s, i).next]);
    } else {
      ch := Plain([s[i]]);
    }
  }

  lemma {:induction false} CharactersFound(c: Config, s: seq<Byte>, i: nat, str: seq<Byte>) returns (chars: seq<Character>)
    requires i <= |s| && ParseStringBody(c, s, i, str).Scanned?
    ensures AreCharacters(c, chars) && At(s, i, CharactersText(chars) + [QUOTE])
    decreases |s| - i
  {
    hide CharacterText, CharacterValue, IsCharacter, ParseStringBody;
    assert GoesOn(c, s, i, str);
    if Peek(s, i) == QUOTE {
      chars := [];
      assert CharactersText([]) + [QUOTE] == [QUOTE] == s[i..i + 1];
    } else {
      var ch := CharacterFound(c, s, i, str);
      var more := CharactersFound(c, s, i + |CharacterText(ch)|, str + CharacterValue(ch));
      chars := [ch] + more;
      AtJoin(s, i, CharacterText(ch), CharactersText(more) + [QUOTE]);
      assert CharactersText(chars) + [QUOTE] == CharacterText(ch) + (CharactersText(more) + [QUOTE]);
    }
  }

  /** A string the reader accepts is one of the grammar, read as what it stands for. */
  lemma QuotedFound(c: Config, s: seq<Byte>, i: nat) returns (chars: seq<Character>)
    requires i < |s| && s[i] == QUOTE && ParseStringBody(c, s, i + 1, []).Scanned?
    ensures AreCharacters(c, chars) && At(s, i, QuotedText(chars))
    ensures ParseStringBody(c, s, i + 1, []) == Scanned(i + |QuotedText(chars)|, CharactersValue(chars))
  {
    hide ParseStringBody, IsCharacter;
    chars := CharactersFound(c, s, i + 1, []);
    AtJoin(s, i, [QUOTE], CharactersText(chars) + [QUOTE]);
    ReadQuoted(c, s, i, chars);
  }

  // ---------------------------------------------------------------------------------------
  // Numbers
  // ---------------------------------------------------------------------------------------

  /** A byte that may follow any number without becoming part of it. */
  predicate EndsNumber(b: Byte) {
    !IsDigit(b) && b != DOT && b != LOWER_E && b != UPPER_E
  }

  /** The byte `b` does not go on the end of a number that has got so far. */
  predicate RestStops(fraction: bool, exponent: bool, b: Byte) {
    && (fraction || exponent ==> !IsDigit(b))
    && (b == DOT ==> fraction || exponent)
    && (b == LOWER_E || b == UPPER_E ==> exponent)
  }

  lemma StopsMeans(n: Numeral, b: Byte)
    ensures Stops(n, b) <==> RestStops(n.fraction.Some?, n.exponent.Some?, b) && (IsDigit(b) ==> n.whole == [ZERO])
    ensures EndsNumber(b) ==> Stops(n, b)
  {
    hide Abnf.Digit;
    Abnf.DigitsAgree(b);
  }

  lemma ReadDigits(s: seq<Byte>, i: nat, w: seq<Byte>)
    requires At(s, i, w) && IsDigits(w) && !IsDigit(Peek(s, i + |w|))
    ensures i < |s| && IsDigit(Peek(s, i)) && Peek(s, i) == w[0]
    ensures EndOfDigits(s, i) == i + |w|
  {
    DigitsRead(w);
    hide IsDigits, Abnf.Digit;
    AtFirst(s, i, w);
    forall k | i <= k < i + |w|
      ensures k < |s| && IsDigit(s[k])
    {
      AtByte(s, i, w, k - i);
    }
  }

  lemma DigitsRead(w: seq<Byte>)
    ensures IsDigits(w) <==> w != [] && forall d <- w :: IsDigit(d)
  {
    hide Abnf.Digit;
    forall d: Byte
      ensures IsDigit(d) <==> Abnf.Digit(d).Some?
    {
      Abnf.DigitsAgree(d);
    }
  }

  lemma ReadExponent(s: seq<Byte>, f: nat, e: Exponent)
    requires IsExponent(e) && At(s, f, ExponentText(Some(e))) && !IsDigit(Peek(s, f + |ExponentText(Some(e))|))
    ensures f < |s| && s[f] == e.mark
    ensures var h := f + 1 + |e.sign|;
            && h == (if Peek(s, f + 1) == PLUS || Peek(s, f + 1) == MINUS then f + 2 else f + 1)
            && IsDigit(Peek(s, h)) && EndOfDigits(s, h) == f + |ExponentText(Some(e))|
  {
    hide At, EndOfDigits, IsDigits, ExponentText;
    ExponentHasParts(e);
    ReadExponentParts(s, f, e.mark, e.sign, e.digits);
  }

  predicate IsSign(sign: seq<Byte>) {
    sign == [] || sign == [PLUS] || sign == [MINUS]
  }

  lemma ReadExponentParts(s: seq<Byte>, f: nat, mark: Byte, sign: seq<Byte>, digits: seq<Byte>)
    requires At(s, f, [mark] + (sign + digits)) && IsDigits(digits) && IsSign(sign)
    requires !IsDigit(Peek(s, f + 1 + |sign| + |digits|))
    ensures f < |s| && s[f] == mark
    ensures f + 1 + |sign| == (if Peek(s, f + 1) == PLUS || Peek(s, f + 1) == MINUS then f + 2 else f + 1)
    ensures IsDigit(Peek(s, f + 1 + |sign|)) && EndOfDigits(s, f + 1 + |sign|) == f + 1 + |sign| + |digits|
  {
    hide At, EndOfDigits, IsDigits;
    hide IsSign;
    var p, rest := f + 1, sign + digits;
    AtConcat(s, f, [mark], rest);
    AtByte(s, f, [mark], 0);
    ReadSigned(s, p, sign, digits);
  }

  lemma ReadSigned(s: seq<Byte>, p: nat, sign: seq<Byte>, digits: seq<Byte>)
    requires At(s, p, sign + digits) && IsDigits(digits) && IsSign(sign)
    requires !IsDigit(Peek(s, p + |sign| + |digits|))
    ensures p + |sign| == (if Peek(s, p) == PLUS || Peek(s, p) == MINUS then p + 1 else p)
    ensures p + |sign| < |s| && IsDigit(Peek(s, p + |sign|)) && EndOfDigits(s, p + |sign|) == p + |sign| + |digits|
  {
    hide At, EndOfDigits, IsDigits, IsSign;
    AtConcat(s, p, sign, digits);
    ReadDigits(s, p + |sign|, digits);
    ReadSign(s, p, sign);
  }

  lemma ReadSign(s: seq<Byte>, p: nat, sign: seq<Byte>)
    requires IsSign(sign) && At(s, p, sign) && IsDigit(Peek(s, p + |sign|))
    ensures p + |sign| == (if Peek(s, p) == PLUS || Peek(s, p) == MINUS then p + 1 else p)
  {
    hide At;
    if sign != [] {
      AtFirst(s, p, sign);
    }
  }

  lemma ExponentHasParts(e: Exponent)
    ensures ExponentText(Some(e)) == [e.mark] + (e.sign + e.digits)
    ensures |ExponentText(Some(e))| == 1 + |e.sign| + |e.digits|
  {
  }

  lemma ReadFraction(s: seq<Byte>, b: nat, fraction: Option<seq<Byte>>)
    requires fraction.Some? ==> IsDigits(fraction.value)
    requires At(s, b, FractionText(fraction))
    requires if fraction.Some? then !IsDigit(Peek(s, b + |FractionText(fraction)|)) else Peek(s, b) != DOT
    ensures (Peek(s, b) == DOT) == fraction.Some?
    ensures fraction.Some? ==> IsDigit(Peek(s, b + 1)) && EndOfDigits(s, b + 1) == b + |FractionText(fraction)|
  {
    hide At, IsDigits, EndOfDigits;
    if fraction.Some? {
      AtConcat(s, b, [DOT], fraction.value);
      AtFirst(s, b, [DOT]);
      ReadDigits(s, b + 1, fraction.value);
    }
  }

  lemma ReadRest(s: seq<Byte>, b: nat, fraction: Option<seq<Byte>>, exponent: Option<Exponent>)
    requires (fraction.Some? ==> IsDigits(fraction.value)) && (exponent.Some? ==> IsExponent(exponent.value))
    requires At(s, b, FractionText(fraction) + ExponentText(exponent))
    requires RestStops(fraction.Some?, exponent.Some?, Peek(s, b + |FractionText(fraction) + ExponentText(exponent)|))
    ensures ScanRest(s, b) == RestEnd(b + |FractionText(fraction) + ExponentText(exponent)|)
    ensures if fraction.Some? || exponent.Some? then !IsDigit(Peek(s, b))
            else |FractionText(fraction) + ExponentText(exponent)| == 0
  {
    hide EndOfDigits, At, IsDigits;
    AtConcat(s, b, FractionText(fraction), ExponentText(exponent));
    if exponent.Some? {
      ReadExponent(s, b + |FractionText(fraction)|, exponent.value);
    }
    ReadFraction(s, b, fraction);
  }

  lemma NumeralParts(s: seq<Byte>, i: nat, n: Numeral)
    requires At(s, i, NumeralText(n))
    ensures var a := if n.minus then i + 1 else i;
            && At(s, a, n.whole) && At(s, a + |n.whole|, FractionText(n.fraction) + ExponentText(n.exponent))
            && a + |n.whole| + |FractionText(n.fraction) + ExponentText(n.exponent)| == i + |NumeralText(n)|
            && (n.minus ==> Peek(s, i) == MINUS)
  {
    hide At, FractionText, ExponentText;
    var sign := if n.minus then [MINUS] else [];
    var rest := FractionText(n.fraction) + ExponentText(n.exponent);
    AtConcat(s, i, sign, n.whole + rest);
    AtConcat(s, i + |sign|, n.whole, rest);
    if n.minus {
      AtFirst(s, i, sign);
    }
  }

  /** The shape the reader sees in a numeral. */
  lemma ReadShape(s: seq<Byte>, i: nat, n: Numeral)
    requires IsNumeral(n) && At(s, i, NumeralText(n)) && Stops(n, Peek(s, i + |NumeralText(n)|))
    ensures (Peek(s, i) == MINUS) == n.minus
    ensures var a := if n.minus then i + 1 else i;
            && ScanNumber(s, i) == NumberShape(a, a + |n.whole|, i + |NumeralText(n)|)
            && s[a..a + |n.whole|] == n.whole
  {
    hide EndOfDigits, At, ScanRest, FractionText, ExponentText, IsDigits, IsExponent, EndsNumber, RestStops, Stops;
    StopsMeans(n, Peek(s, i + |NumeralText(n)|));
    NumeralParts(s, i, n);
    var a := if n.minus then i + 1 else i;
    ReadRest(s, a + |n.whole|, n.fraction, n.exponent);
    ReadWhole(s, a, n);
    AtSlice(s, a, n.whole);
  }

  lemma ReadWhole(s: seq<Byte>, a: nat, n: Numeral)
    requires IsNumeral(n) && At(s, a, n.whole) && (n.whole != [ZERO] ==> !IsDigit(Peek(s, a + |n.whole|)))
    ensures a < |s| && IsDigit(s[a]) && a + |n.whole| == if s[a] == ZERO then a + 1 else EndOfDigits(s, a)
  {
    hide EndOfDigits, At, IsExponent;
    DigitsRead(n.whole);
    hide IsDigits, Abnf.Digit;
    AtByte(s, a, n.whole, 0);
    if n.whole[0] == ZERO {
      assert n.whole == [ZERO];
    } else {
      ReadDigits(s, a, n.whole);
    }
  }

  lemma AtSlice(s: seq<Byte>, i: nat, w: seq<Byte>)
    requires At(s, i, w)
    ensures i + |w| <= |s| && s[i..i + |w|] == w
  {
  }

  lemma NarrowestOrDouble(c: Config, n: Numeral)
    requires IsNumeral(n)
    ensures Decimal(n.whole) >= 0
    ensures var integer := NarrowestInteger(n.minus, Decimal(n.whole));
            NumeralEvent(c, n)
            == if n.fraction.None? && n.exponent.None? && integer.Some? then integer else DoubleEvent(c, n)
  {
    DigitsRead(n.whole);
    Abnf.DecimalIsWhole(n.whole);
    hide Decimal, Abnf.Whole, Abnf.Digit;
  }

  lemma NumeralLength(n: Numeral)
    requires IsNumeral(n)
    ensures |NumeralText(n)| >= (if n.minus then 1 else 0) + |n.whole|
    ensures |NumeralText(n)| == (if n.minus then 1 else 0) + |n.whole| <==> n.fraction.None? && n.exponent.None?
  {
  }

  lemma NumeralReport(c: Config, s: seq<Byte>, i: nat, n: Numeral)
    requires IsNumeral(n) && At(s, i, NumeralText(n)) && (Peek(s, i) == MINUS) == n.minus
    requires var a := if n.minus then i + 1 else i;
             && ScanNumber(s, i) == NumberShape(a, a + |n.whole|, i + |NumeralText(n)|)
             && s[a..a + |n.whole|] == n.whole
    ensures NumeralEvent(c, n).Some? <==> ParseNumber(c, s, i).Lexeme?
    ensures NumeralEvent(c, n).Some? ==>
              ParseNumber(c, s, i) == Lexeme(i + |NumeralText(n)|, NumeralEvent(c, n).value, i)
  {
    hide At, ScanNumber, Decimal, NumeralEvent, NarrowestInteger, IsNumeral, NumeralText;
    AtSlice(s, i, NumeralText(n));
    NarrowestOrDouble(c, n);
    NumeralLength(n);
  }

  /** A numeral is read whole, as the number it stands for. */
  lemma ReadNumeral(c: Config, s: seq<Byte>, i: nat, n: Numeral)
    requires IsNumeral(n) && At(s, i, NumeralText(n)) && Stops(n, Peek(s, i + |NumeralText(n)|))
    ensures NumeralEvent(c, n).Some? <==> ParseNumber(c, s, i).Lexeme?
    ensures NumeralEvent(c, n).Some? ==>
              ParseNumber(c, s, i) == Lexeme(i + |NumeralText(n)|, NumeralEvent(c, n).value, i)
  {
    hide ScanNumber, ParseNumber, NumeralEvent, IsNumeral, At, NumeralText;
    ReadShape(s, i, n);
    NumeralReport(c, s, i, n);
  }

  lemma DigitsFound(s: seq<Byte>, i: nat)
    requires i <= |s| && IsDigit(Peek(s, i))
    ensures IsDigits(s[i..EndOfDigits(s, i)]) && At(s, i, s[i..EndOfDigits(s, i)])
  {
    hide IsDigits;
    DigitsRead(s[i..EndOfDigits(s, i)]);
  }

  lemma ExponentFound(s: seq<Byte>, f: nat) returns (e: Exponent)
    requires f < |s| && (s[f] == LOWER_E || s[f] == UPPER_E)
    requires IsDigit(Peek(s, if Peek(s, f + 1) == PLUS || Peek(s, f + 1) == MINUS then f + 2 else f + 1))
    ensures IsExponent(e) && At(s, f, ExponentText(Some(e)))
    ensures f + |ExponentText(Some(e))|
         == EndOfDigits(s, if Peek(s, f + 1) == PLUS || Peek(s, f + 1) == MINUS then f + 2 else f + 1)
  {
    hide At, IsDigits, EndOfDigits;
    var signed := Peek(s, f + 1) == PLUS || Peek(s, f + 1) == MINUS;
    var h := if signed then f + 2 else f + 1;
    var digits := s[h..EndOfDigits(s, h)];
    DigitsFound(s, h);
    var sign := if signed then [s[f + 1]] else [];
    ByteFound(s, f);
    if signed {
      ByteFound(s, f + 1);
    } else {
      NothingFound(s, f + 1);
    }
    e := Exponent(s[f], sign, digits);
    AtJoin(s, f + 1, sign, digits);
    AtJoin(s, f, [s[f]], sign + digits);
  }

  lemma ByteFound(s: seq<Byte>, i: nat)
    requires i < |s|
    ensures At(s, i, [s[i]])
  {
  }

  lemma NothingFound(s: seq<Byte>, i: nat)
    requires i <= |s|
    ensures At(s, i, [])
  {
  }

  lemma RestFound(s: seq<Byte>, b: nat) returns (fraction: Option<seq<Byte>>, exponent: Option<Exponent>)
    requires b <= |s| && ScanRest(s, b).RestEnd?
    ensures (fraction.Some? ==> IsDigits(fraction.value)) && (exponent.Some? ==> IsExponent(exponent.value))
    ensures At(s, b, FractionText(fraction) + ExponentText(exponent))
    ensures RestStops(fraction.Some?, exponent.Some?, Peek(s, ScanRest(s, b).end))
    ensures if fraction.Some? || exponent.Some? then !IsDigit(Peek(s, b)) else ScanRest(s, b).end == b
    ensures ScanRest(s, b).end == b + |FractionText(fraction) + ExponentText(exponent)|
  {
    hide IsDigits, IsExponent, EndOfDigits, FractionText, ExponentText, At;
    fraction := FractionFound(s, b);
    var f := b + |FractionText(fraction)|;
    exponent := None;
    NoExponent(s, f);
    if Peek(s, f) == LOWER_E || Peek(s, f) == UPPER_E {
      var e := ExponentFound(s, f);
      exponent := Some(e);
    }
    AtJoin(s, b, FractionText(fraction), ExponentText(exponent));
  }

  lemma NoExponent(s: seq<Byte>, f: nat)
    requires f <= |s|
    ensures ExponentText(None) == [] && At(s, f, ExponentText(None))
  {
  }

  lemma FractionFound(s: seq<Byte>, b: nat) returns (fraction: Option<seq<Byte>>)
    requires b <= |s| && (Peek(s, b) == DOT ==> IsDigit(Peek(s, b + 1)))
    ensures fraction.Some? <==> Peek(s, b) == DOT
    ensures At(s, b, FractionText(fraction))
    ensures fraction.None? ==> FractionText(fraction) == []
    ensures fraction.Some? ==>
              IsDigits(fraction.value) && b + |FractionText(fraction)| == EndOfDigits(s, b + 1)
    ensures b + |FractionText(fraction)| <= |s|
    ensures fraction.Some? ==> !IsDigit(Peek(s, b + |FractionText(fraction)|))
  {
    hide IsDigits;
    fraction := None;
    if Peek(s, b) == DOT {
      DigitsFound(s, b + 1);
      fraction := Some(s[b + 1..EndOfDigits(s, b + 1)]);
      AtJoin(s, b, [DOT], fraction.value);
    }
  }

  /** What the reader scans as a number is a numeral, taken as far as it goes. */
  lemma NumeralScanned(c: Config, s: seq<Byte>, i: nat) returns (n: Numeral)
    requires i <= |s| && ScanNumber(s, i).NumberShape?
    ensures IsNumeral(n) && At(s, i, NumeralText(n)) && Stops(n, Peek(s, i + |NumeralText(n)|))
    ensures NumeralEvent(c, n).Some? <==> ParseNumber(c, s, i).Lexeme?
    ensures NumeralEvent(c, n).Some? ==>
              ParseNumber(c, s, i) == Lexeme(i + |NumeralText(n)|, NumeralEvent(c, n).value, i)
  {
    hide IsExponent, FractionText, ExponentText, NumeralEvent, ScanRest, EndOfDigits, At, IsDigits, ParseNumber;
    var NumberShape(a, b, end) := ScanNumber(s, i);
    var fraction, exponent := RestFound(s, b);
    n := NumeralOf(s, i, a, b, fraction, exponent);
    StopsAt(n, s, b, end);
    NumeralReport(c, s, i, n);
  }

  /** The sign and the digits at `i`, and what is known to follow them, make a numeral. */
  lemma NumeralOf(s: seq<Byte>, i: nat, a: nat, b: nat, fraction: Option<seq<Byte>>, exponent: Option<Exponent>)
    returns (n: Numeral)
    requires a == (if Peek(s, i) == MINUS then i + 1 else i) && a < |s| && IsDigit(s[a])
    requires b == if s[a] == ZERO then a + 1 else EndOfDigits(s, a)
    requires (fraction.Some? ==> IsDigits(fraction.value)) && (exponent.Some? ==> IsExponent(exponent.value))
    requires At(s, b, FractionText(fraction) + ExponentText(exponent))
    ensures n == Numeral(Peek(s, i) == MINUS, n.whole, fraction, exponent) && IsNumeral(n)
    ensures a < b <= |s| && n.whole == s[a..b] && (n.whole == [ZERO] || !IsDigit(Peek(s, b)))
    ensures At(s, i, NumeralText(n)) && i + |NumeralText(n)| == b + |FractionText(fraction) + ExponentText(exponent)|
  {
    hide IsExponent, FractionText, ExponentText, EndOfDigits, At, IsDigits;
    WholeFound(s, a);
    var whole := s[a..b];
    var sign := if Peek(s, i) == MINUS then [MINUS] else [];
    if Peek(s, i) == MINUS {
      ByteFound(s, i);
    } else {
      NothingFound(s, i);
    }
    n := Numeral(Peek(s, i) == MINUS, whole, fraction, exponent);
    AtJoin(s, a, whole, FractionText(fraction) + ExponentText(exponent));
    AtJoin(s, i, sign, whole + (FractionText(fraction) + ExponentText(exponent)));
  }

  /** A number the reader accepts is a numeral, and reported as the number it stands for. */
  lemma NumeralFound(c: Config, s: seq<Byte>, i: nat) returns (n: Numeral)
    requires i <= |s| && ParseNumber(c, s, i).Lexeme?
    ensures IsNumeral(n) && At(s, i, NumeralText(n)) && NumeralEvent(c, n).Some?
    ensures Stops(n, Peek(s, i + |NumeralText(n)|))
    ensures ParseNumber(c, s, i) == Lexeme(i + |NumeralText(n)|, NumeralEvent(c, n).value, i)
  {
    hide ScanNumber, NumeralEvent, IsNumeral, At, Stops;
    n := NumeralScanned(c, s, i);
  }

  lemma StopsAt(n: Numeral, s: seq<Byte>, b: nat, end: nat)
    requires RestStops(n.fraction.Some?, n.exponent.Some?, Peek(s, end))
    requires n.fraction.None? && n.exponent.None? ==> b == end
    requires n.whole == [ZERO] || !IsDigit(Peek(s, b))
    ensures Stops(n, Peek(s, end))
  {
    hide Abnf.Digit;
    StopsMeans(n, Peek(s, end));
  }

  lemma WholeFound(s: seq<Byte>, a: nat)
    requires a < |s| && IsDigit(s[a])
    ensures var b := if s[a] == ZERO then a + 1 else EndOfDigits(s, a);
            && a < b <= |s| && IsDigits(s[a..b]) && At(s, a, s[a..b])
            && (if s[a] == ZERO then s[a..b] == [ZERO] else !IsDigit(Peek(s, b)))
  {
    hide IsDigits, Abnf.Digit;
    DigitsRead(s[a..if s[a] == ZERO then a + 1 else EndOfDigits(s, a)]);
  }

  // ---------------------------------------------------------------------------------------
  // Values
  // ---------------------------------------------------------------------------------------

  ghost predicate NeverRefuses(c: Config) {
    forall events :: c.accepts(events)
  }

  /** The bytes a value can begin with. */
  predicate BeginsValue(b: Byte) {
    b == LBRACE || b == LBRACKET || b == QUOTE || b == LOWER_N || b == LOWER_T || b == LOWER_F || b == MINUS || IsDigit(b)
  }

  lemma NumeralBegins(n: Numeral)
    requires IsNumeral(n)
    ensures NumeralText(n) != [] && (NumeralText(n)[0] == MINUS || IsDigit(NumeralText(n)[0]))
  {
    DigitsRead(n.whole);
    hide Abnf.Digit;
  }

  lemma PhraseBegins(c: Config, v: Phrase)
    requires IsPhrase(c, v)
    ensures Spell(v) != [] && BeginsValue(Spell(v)[0])
  {
    hide Abnf.Digit;
    if v.Number? {
      NumeralBegins(v.numeral);
    }
  }

  lemma ValueByte(b: Byte)
    requires BeginsValue(b)
    ensures b != 0 && b != SLASH && b != RBRACKET && b != RBRACE && !IsSpace(b) && !Refinement.IsCloser(b)
  {
  }

  /** Skips the white space before a phrase. */
  lemma SkipsToPhrase(c: Config, s: seq<Byte>, i: nat, w: seq<Byte>, v: Phrase, events: seq<Event>)
    requires At(s, i, w) && IsGap(c, w) && At(s, i + |w|, Spell(v)) && IsPhrase(c, v)
    ensures Skip(c, s, i, events) == Done(i + |w|)
    ensures i + |w| < |s| && BeginsValue(Peek(s, i + |w|))
  {
    PhraseBegins(c, v);
    hide IsPhrase, Spell, BeginsValue;
    AtFirst(s, i + |w|, Spell(v));
    ValueByte(Peek(s, i + |w|));
    SkipsTo(c, s, i, w, events);
  }

  /** A number is taken as far as it goes; other phrases end by themselves. */
  predicate PhraseStops(v: Phrase, b: Byte) {
    v.Number? ==> Stops(v.numeral, b)
  }

  lemma EndsPhrase(v: Phrase, b: Byte)
    requires EndsNumber(b)
    ensures PhraseStops(v, b)
  {
    hide Stops, EndsNumber;
    if v.Number? {
      StopsMeans(v.numeral, b);
    }
  }

  lemma ReadWord(c: Config, s: seq<Byte>, i: nat, e: Event)
    requires (e.Null? || e.Bool?) && At(s, i, WordText(e))
    ensures var r := ParseScalar(c, s, i); r.Lexeme? && r.pos == i + |WordText(e)| && r.event == e
    ensures Peek(s, i) != LBRACE && Peek(s, i) != LBRACKET
  {
    hide At, MatchedPrefix, ParseNumber, ParseString;
    ReadLiteral(s, i, WordText(e));
  }

  lemma ReadNumberScalar(c: Config, s: seq<Byte>, i: nat, n: Numeral)
    requires IsPhrase(c, Number(n)) && At(s, i, NumeralText(n)) && Stops(n, Peek(s, i + |NumeralText(n)|))
    ensures var r := ParseScalar(c, s, i);
            r.Lexeme? && r.pos == i + |NumeralText(n)| && NumeralEvent(c, n) == Some(r.event)
    ensures Peek(s, i) != LBRACE && Peek(s, i) != LBRACKET
  {
    hide At, ParseNumber, ParseString, ParseLiteral, NumeralEvent, NumeralText, IsNumeral;
    ReadNumeral(c, s, i, n);
    NumeralBegins(n);
    AtFirst(s, i, NumeralText(n));
  }

  lemma ReadScalar(c: Config, s: seq<Byte>, i: nat, v: Phrase)
    requires IsPhrase(c, v) && !v.Array? && !v.Object? && At(s, i, Spell(v)) && PhraseStops(v, Peek(s, i + |Spell(v)|))
    ensures ParseScalar(c, s, i).Lexeme? && ParseScalar(c, s, i).pos == i + |Spell(v)|
    ensures [ParseScalar(c, s, i).event] == Meaning(c, v)
    ensures Peek(s, i) != LBRACE && Peek(s, i) != LBRACKET
  {
    hide At, ParseStringBody, ParseLiteral, ParseNumber, NumeralEvent, AreCharacters, IsNumeral, NumeralText, WordText;
    match v
    case Word(e) => ReadWord(c, s, i, e);
    case Quoted(chars) => ReadQuoted(c, s, i, chars);
    case Number(n) => ReadNumberScalar(c, s, i, n);
  }

  // One step of each parser function, for a handler that never refuses.

  lemma ObjectStep(c: Config, s: seq<Byte>, i: nat, events: seq<Event>, j: nat)
    requires NeverRefuses(c) && i < |s| && s[i] == LBRACE
    requires Skip(c, s, i + 1, events + [StartObject]) == Done(j)
    ensures ParseValue(c, s, i, events)
         == if Peek(s, j) == RBRACE then Done(Point(j + 1, events + [StartObject] + [EndObject(0)]))
            else ParseMembers(c, s, j, events + [StartObject], 0)
  {
  }

  lemma ArrayStep(c: Config, s: seq<Byte>, i: nat, events: seq<Event>, j: nat)
    requires NeverRefuses(c) && i < |s| && s[i] == LBRACKET
    requires Skip(c, s, i + 1, events + [StartArray]) == Done(j)
    ensures ParseValue(c, s, i, events)
         == if Peek(s, j) == RBRACKET then Done(Point(j + 1, events + [StartArray] + [EndArray(0)]))
            else ParseElements(c, s, j, events + [StartArray], 0)
  {
  }

  lemma MemberStep(c: Config, s: seq<Byte>, i: nat, events: seq<Event>, k: nat, name: seq<Byte>, p: nat, colon: nat, q: nat)
    requires NeverRefuses(c) && i < |s| && s[i] == QUOTE && ParseStringBody(c, s, i + 1, []) == Scanned(p, name)
    requires Skip(c, s, p, events + [Key(name)]) == Done(colon) && Peek(s, colon) == COLON
    requires Skip(c, s, colon + 1, events + [Key(name)]) == Done(q)
    requires ParseValue(c, s, q, events + [Key(name)]).Done?
    ensures ParseMembers(c, s, i, events, k)
         == ParseAfterMember(c, s, ParseValue(c, s, q, events + [Key(name)]).value, k)
  {
    hide Skip, ParseValue, ParseAfterMember, ParseStringBody;
  }

  /** The end of a bracket, or a comma; after the comma, the end again if commas may trail, or more. */
  lemma AfterElementStep(c: Config, s: seq<Byte>, value: Point, n: nat, j: nat)
    requires NeverRefuses(c) && value.pos <= |s| && Skip(c, s, value.pos, value.events) == Done(j)
    ensures Peek(s, j) == RBRACKET ==>
              ParseAfterElement(c, s, value, n) == Done(Point(j + 1, value.events + [EndArray(CountUp(n))]))
    ensures Peek(s, j) == COMMA && Skip(c, s, j + 1, value.events).Done? ==>
              var k := Skip(c, s, j + 1, value.events).value;
              ParseAfterElement(c, s, value, n)
              == if c.trailingCommas && Peek(s, k) == RBRACKET
                 then Done(Point(k + 1, value.events + [EndArray(CountUp(n))]))
                 else ParseElements(c, s, k, value.events, CountUp(n))
  {
    hide Skip, ParseElements;
  }

  lemma AfterMemberStep(c: Config, s: seq<Byte>, value: Point, n: nat, j: nat)
    requires NeverRefuses(c) && value.pos <= |s| && Skip(c, s, value.pos, value.events) == Done(j)
    ensures Peek(s, j) == RBRACE ==>
              ParseAfterMember(c, s, value, n) == Done(Point(j + 1, value.events + [EndObject(CountUp(n))]))
    ensures Peek(s, j) == COMMA && Skip(c, s, j + 1, value.events).Done? ==>
              var k := Skip(c, s, j + 1, value.events).value;
              ParseAfterMember(c, s, value, n)
              == if c.trailingCommas && Peek(s, k) == RBRACE
                 then Done(Point(k + 1, value.events + [EndObject(CountUp(n))]))
                 else ParseMembers(c, s, k, value.events, CountUp(n))
  {
    hide Skip, ParseMembers;
  }

  /** Counting in 32 bits one by one, and all at once. */
  lemma CountOneByOne(n: nat, k: nat)
    ensures CountOf(CountUp(n) + k) == CountOf(n + 1 + k)
    ensures CountUp(n) == CountOf(n + 1)
  {
  }

  lemma GapBegins(c: Config, w: seq<Byte>)
    requires IsGap(c, w) && w != []
    ensures EndsNumber(w[0])
  {
    if AllSpace(w) {
      assert w[0] in w;
    } else {
      hide IsComment;
      var n, m := GapParts(c, w);
      if n > 0 {
        assert w[0] == w[..n][0] && w[..n][0] in w[..n];
      } else {
        CommentBegins(w[n..m]);
      }
    }
  }

  lemma CommentBegins(w: seq<Byte>)
    requires IsComment(w)
    ensures w != [] && w[0] == SLASH
  {
    if IsBlockComment(w) {
      assert w[0] == w[..2][0];
    } else {
      assert w[0] == w[..|w| - 1][..2][0];
    }
  }

  /** White space up to a comma or a bracket. */
  lemma SkipsToMark(c: Config, s: seq<Byte>, i: nat, w: seq<Byte>, rest: seq<Byte>, events: seq<Event>)
    requires At(s, i, w) && IsGap(c, w) && At(s, i + |w|, rest) && rest != []
    requires rest[0] == COMMA || rest[0] == COLON || rest[0] == RBRACKET || rest[0] == RBRACE
    ensures Skip(c, s, i, events) == Done(i + |w|) && i + |w| < |s| && Peek(s, i + |w|) == rest[0]
    ensures EndsNumber(Peek(s, i)) && At(s, i + |w| + 1, rest[1..])
  {
    AtFirst(s, i + |w|, rest);
    SkipsTo(c, s, i, w, events);
    if w != [] {
      AtFirst(s, i, w);
      GapBegins(c, w);
    }
  }

  // ---------------------------------------------------------------------------------------
  // Every phrase is read, as what it means
  // ---------------------------------------------------------------------------------------

  lemma {:induction false} ReadPhrase(c: Config, s: seq<Byte>, i: nat, v: Phrase, events: seq<Event>)
    requires NeverRefuses(c) && IsPhrase(c, v) && At(s, i, Spell(v)) && PhraseStops(v, Peek(s, i + |Spell(v)|))
    ensures ParseValue(c, s, i, events) == Done(Point(i + |Spell(v)|, events + Meaning(c, v)))
    decreases v, 2
  {
    hide Spell, IsPhrase, Meaning, ParseScalar;
    match v
    case Array(_, _, _) => ReadArray(c, s, i, v, events);
    case Object(_, _, _) => ReadObject(c, s, i, v, events);
    case _ => ReadScalar(c, s, i, v);
  }

  lemma ReadEmptyArray(c: Config, s: seq<Byte>, i: nat, blank: seq<Byte>, events: seq<Event>)
    requires NeverRefuses(c) && IsGap(c, blank) && At(s, i, [LBRACKET] + (blank + [RBRACKET]))
    ensures ParseValue(c, s, i, events) == Done(Point(i + |blank| + 2, events + [StartArray, EndArray(0)]))
  {
    hide At, Skip, ParseValue, IsGap, NeverRefuses;
    var begun := events + [StartArray];
    AtConcat(s, i, [LBRACKET], blank + [RBRACKET]);
    AtFirst(s, i, [LBRACKET]);
    AtConcat(s, i + 1, blank, [RBRACKET]);
    SkipsToMark(c, s, i + 1, blank, [RBRACKET], begun);
    ArrayStep(c, s, i, events, i + 1 + |blank|);
    assert begun + [EndArray(0)] == events + [StartArray, EndArray(0)];
  }

  lemma {:induction false} ReadArray(c: Config, s: seq<Byte>, i: nat, v: Phrase, events: seq<Event>)
    requires NeverRefuses(c) && v.Array? && IsPhrase(c, v) && At(s, i, Spell(v))
    ensures ParseValue(c, s, i, events) == Done(Point(i + |Spell(v)|, events + Meaning(c, v)))
    decreases v, 1
  {
    hide At, Skip, ParseValue, ParseElements, IsGap, SpellItems, IsItem, MeaningOfItems;
    var Array(items, blank, trailing) := v;
    if items == [] {
      ReadEmptyArray(c, s, i, blank, events);
      NothingMeant(c);
      assert Meaning(c, v) == [StartArray, EndArray(0)];
    } else {
      var begun := events + [StartArray];
      AtConcat(s, i, [LBRACKET], SpellItems(items, trailing));
      AtFirst(s, i, [LBRACKET]);
      var before := items[0].before;
      SkipsToFirstItem(c, s, i + 1, items, trailing, begun);
      ArrayStep(c, s, i, events, i + 1 + |before|);
      ReadItems(c, s, i + 1 + |before|, items, trailing, 0, begun);
      assert begun + MeaningOfItems(c, items) + [EndArray(CountOf(|items|))] == events + Meaning(c, v);
    }
  }

  lemma NothingMeant(c: Config)
    ensures MeaningOfItems(c, []) == [] && MeaningOfFields(c, []) == []
  {
  }

  lemma ItemParts(c: Config, s: seq<Byte>, i: nat, item: Item, rest: seq<Byte>)
    requires IsItem(c, item) && At(s, i, SpellItem(item) + rest)
    ensures IsGap(c, item.before) && IsPhrase(c, item.phrase) && IsGap(c, item.after)
    ensures At(s, i, item.before) && At(s, i + |item.before|, Spell(item.phrase))
    ensures At(s, i + |item.before| + |Spell(item.phrase)|, item.after)
    ensures At(s, i + |item.before| + |Spell(item.phrase)| + |item.after|, rest)
    ensures |SpellItem(item)| == |item.before| + |Spell(item.phrase)| + |item.after|
  {
    hide At, IsGap, IsPhrase, Spell;
    AtConcat(s, i, SpellItem(item), rest);
    AtConcat(s, i, item.before, Spell(item.phrase) + item.after);
    AtConcat(s, i + |item.before|, Spell(item.phrase), item.after);
  }

  lemma SkipsToItem(c: Config, s: seq<Byte>, i: nat, item: Item, rest: seq<Byte>, events: seq<Event>)
    requires IsItem(c, item) && At(s, i, SpellItem(item) + rest)
    ensures Skip(c, s, i, events) == Done(i + |item.before|)
    ensures i + |item.before| < |s| && Peek(s, i + |item.before|) != RBRACKET
  {
    hide At, SpellItem, IsPhrase;
    ItemParts(c, s, i, item, rest);
    SkipsToPhrase(c, s, i, item.before, item.phrase, events);
    ValueByte(Peek(s, i + |item.before|));
  }

  lemma SkipsToFirstItem(c: Config, s: seq<Byte>, i: nat, items: seq<Item>, trailing: Option<seq<Byte>>, events: seq<Event>)
    requires items != [] && (forall item <- items :: IsItem(c, item)) && At(s, i, SpellItems(items, trailing))
    ensures Skip(c, s, i, events) == Done(i + |items[0].before|)
    ensures i + |items[0].before| < |s| && Peek(s, i + |items[0].before|) != RBRACKET
  {
    hide At, IsItem, SpellItem, SpellAfterItem;
    assert items[0] in items;
    SkipsToItem(c, s, i, items[0], SpellAfterItem(items[1..], trailing), events);
  }

  /** The loop of `ParseArray`, from the first item's phrase on. */
  lemma {:induction false} ReadItems(c: Config, s: seq<Byte>, i: nat, items: seq<Item>, trailing: Option<seq<Byte>>,
                                     n: nat, events: seq<Event>)
    requires NeverRefuses(c) && items != [] && IsTrailing(c, trailing, false) && forall item <- items :: IsItem(c, item)
    requires |items[0].before| <= i <= |s| && At(s, i - |items[0].before|, SpellItems(items, trailing))
    ensures ParseElements(c, s, i, events, n)
         == Done(Point(i - |items[0].before| + |SpellItems(items, trailing)|,
                       events + MeaningOfItems(c, items) + [EndArray(CountOf(n + |items|))]))
    decreases items, 0
  {
    hide At, Skip, ParseValue, ParseAfterElement, IsGap, SpellItem, IsItem, NeverRefuses, IsTrailing,
         SpellAfterItem, Meaning, CountUp, CountOf;
    var item, rest := items[0], items[1..];
    assert item in items && item.phrase < item && forall other <- rest :: other in items;
    ItemParts(c, s, i - |item.before|, item, SpellAfterItem(rest, trailing));
    var end := i + |Spell(item.phrase)|;
    AfterBegins(rest, trailing);
    SkipsToMark(c, s, end, item.after, SpellAfterItem(rest, trailing), events);
    EndsPhrase(item.phrase, Peek(s, end));
    ReadPhrase(c, s, i, item.phrase, events);
    var valued := events + Meaning(c, item.phrase);
    ReadAfterItem(c, s, end, item.after, rest, trailing, n, valued);
    assert valued + MeaningOfItems(c, rest) == events + MeaningOfItems(c, items);
  }

  lemma AfterBegins(items: seq<Item>, trailing: Option<seq<Byte>>)
    ensures SpellAfterItem(items, trailing) != []
    ensures SpellAfterItem(items, trailing)[0] == COMMA || SpellAfterItem(items, trailing)[0] == RBRACKET
  {
  }

  lemma ReadEndAfterItem(c: Config, s: seq<Byte>, i: nat, after: seq<Byte>, trailing: Option<seq<Byte>>, n: nat,
                       events: seq<Event>)
    requires NeverRefuses(c) && IsTrailing(c, trailing, false)
    requires At(s, i, after) && IsGap(c, after) && At(s, i + |after|, Ending(trailing, RBRACKET))
    ensures ParseAfterElement(c, s, Point(i, events), n)
         == Done(Point(i + |after| + |Ending(trailing, RBRACKET)|, events + [EndArray(CountUp(n))]))
  {
    hide At, Skip, ParseElements, ParseAfterElement, IsGap, NeverRefuses, CountUp;
    var j := i + |after|;
    SkipsToMark(c, s, i, after, Ending(trailing, RBRACKET), events);
    AfterElementStep(c, s, Point(i, events), n, j);
    if trailing.Some? {
      var space := trailing.value;
      AtConcat(s, j, [COMMA], space + [RBRACKET]);
      AtConcat(s, j + 1, space, [RBRACKET]);
      SkipsToMark(c, s, j + 1, space, [RBRACKET], events);
    }
  }

  lemma {:induction false} ReadAfterItem(c: Config, s: seq<Byte>, i: nat, after: seq<Byte>, items: seq<Item>,
                                         trailing: Option<seq<Byte>>, n: nat, events: seq<Event>)
    requires NeverRefuses(c) && IsTrailing(c, trailing, false) && forall item <- items :: IsItem(c, item)
    requires At(s, i, after) && IsGap(c, after) && At(s, i + |after|, SpellAfterItem(items, trailing))
    ensures ParseAfterElement(c, s, Point(i, events), n)
         == Done(Point(i + |after| + |SpellAfterItem(items, trailing)|,
                       events + MeaningOfItems(c, items) + [EndArray(CountOf(n + 1 + |items|))]))
    decreases items, 1
  {
    hide At, Skip, ParseElements, ParseAfterElement, IsGap, SpellItems, IsItem, NeverRefuses, Meaning,
         CountUp, CountOf, Ending, IsTrailing;
    CountOneByOne(n, |items|);
    if items == [] {
      assert events + MeaningOfItems(c, items) == events;
      ReadEndAfterItem(c, s, i, after, trailing, n, events);
    } else {
      var j := i + |after|;
      assert SpellAfterItem(items, trailing) == [COMMA] + SpellItems(items, trailing);
      hide SpellAfterItem, MeaningOfItems;
      SkipsToMark(c, s, i, after, [COMMA] + SpellItems(items, trailing), events);
      AfterElementStep(c, s, Point(i, events), n, j);
      var before := items[0].before;
      AtConcat(s, j, [COMMA], SpellItems(items, trailing));
      SkipsToFirstItem(c, s, j + 1, items, trailing, events);
      ReadItems(c, s, j + 1 + |before|, items, trailing, CountUp(n), events);
    }
  }

  lemma ReadEmptyObject(c: Config, s: seq<Byte>, i: nat, blank: seq<Byte>, events: seq<Event>)
    requires NeverRefuses(c) && IsGap(c, blank) && At(s, i, [LBRACE] + (blank + [RBRACE]))
    ensures ParseValue(c, s, i, events) == Done(Point(i + |blank| + 2, events + [StartObject, EndObject(0)]))
  {
    hide At, Skip, ParseValue, IsGap, NeverRefuses;
    var begun := events + [StartObject];
    AtConcat(s, i, [LBRACE], blank + [RBRACE]);
    AtFirst(s, i, [LBRACE]);
    AtConcat(s, i + 1, blank, [RBRACE]);
    SkipsToMark(c, s, i + 1, blank, [RBRACE], begun);
    ObjectStep(c, s, i, events, i + 1 + |blank|);
    assert begun + [EndObject(0)] == events + [StartObject, EndObject(0)];
  }

  lemma {:induction false} ReadObject(c: Config, s: seq<Byte>, i: nat, v: Phrase, events: seq<Event>)
    requires NeverRefuses(c) && v.Object? && IsPhrase(c, v) && At(s, i, Spell(v))
    ensures ParseValue(c, s, i, events) == Done(Point(i + |Spell(v)|, events + Meaning(c, v)))
    decreases v, 1
  {
    hide At, Skip, ParseValue, ParseMembers, IsGap, SpellFields, IsField, MeaningOfFields;
    var Object(fields, blank, trailing) := v;
    if fields == [] {
      ReadEmptyObject(c, s, i, blank, events);
      NothingMeant(c);
      assert Meaning(c, v) == [StartObject, EndObject(0)];
    } else {
      var begun := events + [StartObject];
      AtConcat(s, i, [LBRACE], SpellFields(fields, trailing));
      AtFirst(s, i, [LBRACE]);
      var before := fields[0].before;
      SkipsToFirstName(c, s, i + 1, fields, trailing, begun);
      ObjectStep(c, s, i, events, i + 1 + |before|);
      ReadFields(c, s, i + 1 + |before|, fields, trailing, 0, begun);
      assert begun + MeaningOfFields(c, fields) + [EndObject(CountOf(|fields|))] == events + Meaning(c, v);
    }
  }

  lemma FieldParts(c: Config, s: seq<Byte>, i: nat, field: Field, rest: seq<Byte>)
    requires IsField(c, field) && At(s, i, SpellField(field) + rest)
    ensures IsGap(c, field.before) && AreCharacters(c, field.name) && IsGap(c, field.space) && IsItem(c, field.item)
    ensures At(s, i, field.before) && At(s, i + |field.before|, QuotedText(field.name))
    ensures var p := i + |field.before| + |QuotedText(field.name)|;
            && At(s, p, field.space) && At(s, p + |field.space|, [COLON] + (SpellItem(field.item) + rest))
            && i + |SpellField(field)| == p + |field.space| + 1 + |SpellItem(field.item)|
  {
    hide At, IsGap, IsItem, SpellItem, QuotedText, AreCharacters;
    var item := [COLON] + SpellItem(field.item);
    AtConcat(s, i, SpellField(field), rest);
    AtConcat(s, i, field.before, QuotedText(field.name) + (field.space + item));
    var n := i + |field.before|;
    AtConcat(s, n, QuotedText(field.name), field.space + item);
    var p := n + |QuotedText(field.name)|;
    AtConcat(s, p, field.space, item);
    AtJoin(s, p + |field.space|, item, rest);
    assert item + rest == [COLON] + (SpellItem(field.item) + rest);
  }

  lemma SkipsToName(c: Config, s: seq<Byte>, i: nat, field: Field, rest: seq<Byte>, events: seq<Event>)
    requires IsField(c, field) && At(s, i, SpellField(field) + rest)
    ensures Skip(c, s, i, events) == Done(i + |field.before|)
    ensures i + |field.before| < |s| && Peek(s, i + |field.before|) == QUOTE
  {
    hide At, IsGap, IsItem, SpellItem, AreCharacters;
    FieldParts(c, s, i, field, rest);
    AtFirst(s, i + |field.before|, QuotedText(field.name));
    SkipsTo(c, s, i, field.before, events);
  }

  lemma SkipsToFirstName(c: Config, s: seq<Byte>, i: nat, fields: seq<Field>, trailing: Option<seq<Byte>>, events: seq<Event>)
    requires fields != [] && (forall field <- fields :: IsField(c, field)) && At(s, i, SpellFields(fields, trailing))
    ensures Skip(c, s, i, events) == Done(i + |fields[0].before|)
    ensures i + |fields[0].before| < |s| && Peek(s, i + |fields[0].before|) == QUOTE
  {
    hide At, IsField, SpellField, SpellAfterField;
    assert fields[0] in fields;
    SkipsToName(c, s, i, fields[0], SpellAfterField(fields[1..], trailing), events);
  }

  /** A name, a colon and the white space about them, up to the value. */
  lemma ReadName(c: Config, s: seq<Byte>, i: nat, field: Field, rest: seq<Byte>, events: seq<Event>)
    requires IsField(c, field) && |field.before| <= i && At(s, i - |field.before|, SpellField(field) + rest)
    ensures i < |s| && s[i] == QUOTE
    ensures var p := i + |QuotedText(field.name)|;
            var q := p + |field.space| + 1;
            && ParseStringBody(c, s, i + 1, []) == Scanned(p, CharactersValue(field.name))
            && Skip(c, s, p, events) == Done(p + |field.space|) && Peek(s, p + |field.space|) == COLON
            && Skip(c, s, q, events) == Done(q + |field.item.before|)
            && At(s, q, SpellItem(field.item) + rest)
  {
    hide At, IsGap, SpellItem, AreCharacters, QuotedText, ParseStringBody, Skip, CharactersValue, IsPhrase, Spell;
    FieldParts(c, s, i - |field.before|, field, rest);
    ReadQuoted(c, s, i, field.name);
    var p := i + |QuotedText(field.name)|;
    var q := p + |field.space| + 1;
    var value := SpellItem(field.item) + rest;
    SkipsToMark(c, s, p, field.space, [COLON] + value, events);
    assert ([COLON] + value)[1..] == value;
    SkipsToItem(c, s, q, field.item, rest, events);
  }

  /** The loop of `ParseObject`, from the first field's name on. */
  lemma {:induction false} ReadFields(c: Config, s: seq<Byte>, i: nat, fields: seq<Field>, trailing: Option<seq<Byte>>,
                                      n: nat, events: seq<Event>)
    requires NeverRefuses(c) && fields != [] && IsTrailing(c, trailing, false) && forall field <- fields :: IsField(c, field)
    requires |fields[0].before| <= i <= |s| && At(s, i - |fields[0].before|, SpellFields(fields, trailing))
    ensures ParseMembers(c, s, i, events, n)
         == Done(Point(i - |fields[0].before| + |SpellFields(fields, trailing)|,
                       events + MeaningOfFields(c, fields) + [EndObject(CountOf(n + |fields|))]))
    decreases fields, 0
  {
    hide At, Skip, ParseValue, ParseMembers, ParseAfterMember, ParseStringBody, IsGap, SpellItem, SpellField, IsItem,
         IsField, NeverRefuses, IsTrailing, SpellAfterField, Meaning, CountUp, CountOf, QuotedText, CharactersValue,
         Spell, IsPhrase, PhraseStops, EndsNumber;
    var field, rest := fields[0], fields[1..];
    var item := field.item;
    assert field in fields && item < field && item.phrase < item && forall other <- rest :: other in fields;
    var name := CharactersValue(field.name);
    var named := events + [Key(name)];
    var tail := SpellAfterField(rest, trailing);
    FieldParts(c, s, i - |field.before|, field, tail);
    ReadName(c, s, i, field, tail, named);
    var p := i + |QuotedText(field.name)|;
    var q := p + |field.space| + 1;
    ItemParts(c, s, q, item, tail);
    var start := q + |item.before|;
    var end := start + |Spell(item.phrase)|;
    AfterFieldBegins(rest, trailing);
    SkipsToMark(c, s, end, item.after, tail, named);
    EndsPhrase(item.phrase, Peek(s, end));
    ReadPhrase(c, s, start, item.phrase, named);
    MemberStep(c, s, i, events, n, name, p, p + |field.space|, start);
    var valued := named + Meaning(c, item.phrase);
    ReadAfterField(c, s, end, item.after, rest, trailing, n, valued);
    assert valued + MeaningOfFields(c, rest) == events + MeaningOfFields(c, fields);
  }

  lemma AfterFieldBegins(fields: seq<Field>, trailing: Option<seq<Byte>>)
    ensures SpellAfterField(fields, trailing) != []
    ensures SpellAfterField(fields, trailing)[0] == COMMA || SpellAfterField(fields, trailing)[0] == RBRACE
  {
  }

  lemma ReadEndAfterField(c: Config, s: seq<Byte>, i: nat, after: seq<Byte>, trailing: Option<seq<Byte>>, n: nat,
                       events: seq<Event>)
    requires NeverRefuses(c) && IsTrailing(c, trailing, false)
    requires At(s, i, after) && IsGap(c, after) && At(s, i + |after|, Ending(trailing, RBRACE))
    ensures ParseAfterMember(c, s, Point(i, events), n)
         == Done(Point(i + |after| + |Ending(trailing, RBRACE)|, events + [EndObject(CountUp(n))]))
  {
    hide At, Skip, ParseMembers, ParseAfterMember, IsGap, NeverRefuses, CountUp;
    var j := i + |after|;
    SkipsToMark(c, s, i, after, Ending(trailing, RBRACE), events);
    AfterMemberStep(c, s, Point(i, events), n, j);
    if trailing.Some? {
      var space := trailing.value;
      AtConcat(s, j, [COMMA], space + [RBRACE]);
      AtConcat(s, j + 1, space, [RBRACE]);
      SkipsToMark(c, s, j + 1, space, [RBRACE], events);
    }
  }

  lemma {:induction false} ReadAfterField(c: Config, s: seq<Byte>, i: nat, after: seq<Byte>, fields: seq<Field>,
                                          trailing: Option<seq<Byte>>, n: nat, events: seq<Event>)
    requires NeverRefuses(c) && IsTrailing(c, trailing, false) && forall field <- fields :: IsField(c, field)
    requires At(s, i, after) && IsGap(c, after) && At(s, i + |after|, SpellAfterField(fields, trailing))
    ensures ParseAfterMember(c, s, Point(i, events), n)
         == Done(Point(i + |after| + |SpellAfterField(fields, trailing)|,
                       events + MeaningOfFields(c, fields) + [EndObject(CountOf(n + 1 + |fields|))]))
    decreases fields, 1
  {
    hide At, Skip, ParseMembers, ParseAfterMember, IsGap, SpellFields, IsField, NeverRefuses, Meaning,
         CountUp, CountOf, Ending, IsTrailing;
    CountOneByOne(n, |fields|);
    if fields == [] {
      assert events + MeaningOfFields(c, fields) == events;
      ReadEndAfterField(c, s, i, after, trailing, n, events);
    } else {
      var k := i + |after| + 1 + |fields[0].before|;
      assert SpellAfterField(fields, trailing) == [COMMA] + SpellFields(fields, trailing);
      hide SpellAfterField, MeaningOfFields;
      ReadComma(c, s, i, after, fields, trailing, n, events);
      ReadFields(c, s, k, fields, trailing, CountUp(n), events);
    }
  }

  /** A comma, and the white space up to the next name. */
  lemma ReadComma(c: Config, s: seq<Byte>, i: nat, after: seq<Byte>, fields: seq<Field>, trailing: Option<seq<Byte>>, n: nat,
                  events: seq<Event>)
    requires NeverRefuses(c) && fields != [] && forall field <- fields :: IsField(c, field)
    requires At(s, i, after) && IsGap(c, after) && At(s, i + |after|, [COMMA] + SpellFields(fields, trailing))
    ensures var k := i + |after| + 1 + |fields[0].before|;
            && k < |s| && At(s, k - |fields[0].before|, SpellFields(fields, trailing))
            && ParseAfterMember(c, s, Point(i, events), n) == ParseMembers(c, s, k, events, CountUp(n))
  {
    hide At, Skip, ParseMembers, ParseAfterMember, IsGap, SpellFields, IsField, NeverRefuses, CountUp;
    var j := i + |after|;
    SkipsToMark(c, s, i, after, [COMMA] + SpellFields(fields, trailing), events);
    AfterMemberStep(c, s, Point(i, events), n, j);
    AtConcat(s, j, [COMMA], SpellFields(fields, trailing));
    SkipsToFirstName(c, s, j + 1, fields, trailing, events);
  }

  // ---------------------------------------------------------------------------------------
  // Nothing else is read
  // ---------------------------------------------------------------------------------------

  lemma ScalarFound(c: Config, s: seq<Byte>, i: nat) returns (v: Phrase)
    requires i <= |s| && ParseScalar(c, s, i).Lexeme?
    ensures IsPhrase(c, v) && At(s, i, Spell(v)) && ParseScalar(c, s, i).pos == i + |Spell(v)|
    ensures PhraseStops(v, Peek(s, i + |Spell(v)|))
    ensures [ParseScalar(c, s, i).event] == Meaning(c, v)
  {
    hide ParseStringBody, ParseNumber, MatchedPrefix, NumeralEvent, AreCharacters, IsNumeral, At, Stops;
    var b := Peek(s, i);
    if b == LOWER_N {
      v := Word(Null);
      WordFound(s, i, WordText(Null), Null);
    } else if b == LOWER_T {
      v := Word(Bool(true));
      WordFound(s, i, WordText(Bool(true)), Bool(true));
    } else if b == LOWER_F {
      v := Word(Bool(false));
      WordFound(s, i, WordText(Bool(false)), Bool(false));
    } else if b == QUOTE {
      var chars := QuotedFound(c, s, i);
      v := Quoted(chars);
    } else {
      var n := NumeralFound(c, s, i);
      v := Number(n);
    }
  }

  lemma ValueIsThere(c: Config, s: seq<Byte>, i: nat, events: seq<Event>)
    requires i <= |s|
    ensures ParseValue(c, s, i, events).Done? ==> Peek(s, i) != 0
  {
    hide ParseStringBody, ParseObject, ParseArray;
  }

  lemma ElementIsThere(c: Config, s: seq<Byte>, i: nat, events: seq<Event>, n: nat)
    requires i <= |s|
    ensures ParseElements(c, s, i, events, n).Done? ==> Peek(s, i) != 0
  {
    hide ParseValue, ParseAfterElement;
    ValueIsThere(c, s, i, events);
  }

  lemma MemberIsThere(c: Config, s: seq<Byte>, i: nat, events: seq<Event>, n: nat)
    requires i <= |s|
    ensures ParseMembers(c, s, i, events, n).Done? ==> Peek(s, i) != 0
  {
    hide ParseAfterMember, ParseString, ParseValue, Skip;
    assert ParseMembers(c, s, i, events, n).Done? ==> ParseMember(c, s, i, events).Done?;
  }

  /** What the reader takes for a value is a phrase, and is reported as what it means. */
  lemma {:induction false} PhraseFound(c: Config, s: seq<Byte>, i: nat, events: seq<Event>) returns (v: Phrase)
    requires i <= |s| && ParseValue(c, s, i, events).Done?
    ensures IsPhrase(c, v) && At(s, i, Spell(v)) && PhraseStops(v, Peek(s, i + |Spell(v)|))
    ensures ParseValue(c, s, i, events).value == Point(i + |Spell(v)|, events + Meaning(c, v))
    decreases |s| - i, 2
  {
    hide Spell, IsPhrase, PhraseStops, Meaning, ParseScalar, ParseObject, ParseArray;
    if Peek(s, i) == LBRACE {
      v := ObjectFound(c, s, i, events);
      BracketStops(v, Peek(s, i + |Spell(v)|));
    } else if Peek(s, i) == LBRACKET {
      v := ArrayFound(c, s, i, events);
      BracketStops(v, Peek(s, i + |Spell(v)|));
    } else {
      v := ScalarFound(c, s, i);
    }
  }

  lemma BracketStops(v: Phrase, b: Byte)
    requires !v.Number?
    ensures PhraseStops(v, b)
  {
  }

  lemma {:induction false} ArrayFound(c: Config, s: seq<Byte>, i: nat, events: seq<Event>) returns (v: Phrase)
    requires i < |s| && s[i] == LBRACKET && ParseArray(c, s, i, events).Done?
    ensures IsPhrase(c, v) && At(s, i, Spell(v)) && !v.Number?
    ensures ParseArray(c, s, i, events).value == Point(i + |Spell(v)|, events + Meaning(c, v))
    decreases |s| - i, 1
  {
    hide At, Skip, ParseElements, IsGap, SpellItems, IsItem, MeaningOfItems;
    var begun := events + [StartArray];
    var gap := SkipFinds(c, s, i + 1, begun);
    var j := i + 1 + |gap|;
    ByteFound(s, i);
    if Peek(s, j) == RBRACKET {
      v := Array([], gap, None);
      ByteFound(s, j);
      AtJoin(s, i + 1, gap, [RBRACKET]);
      AtJoin(s, i, [LBRACKET], gap + [RBRACKET]);
      NothingMeant(c);
      assert begun + [EndArray(0)] == events + Meaning(c, v);
    } else {
      ElementIsThere(c, s, j, begun, 0);
      var items, trailing := ItemsFound(c, s, i + 1, gap, begun, 0);
      v := Array(items, [], trailing);
      AtJoin(s, i, [LBRACKET], SpellItems(items, trailing));
      assert IsGap(c, []) by {
        NothingIsSpace(c);
      }
      assert begun + MeaningOfItems(c, items) + [EndArray(CountOf(|items|))] == events + Meaning(c, v);
    }
  }

  lemma NothingIsSpace(c: Config)
    ensures IsGap(c, [])
  {
  }

  /** The loop of `ParseArray`, `before` being the white space before the first item. */
  lemma {:induction false} ItemsFound(c: Config, s: seq<Byte>, i: nat, before: seq<Byte>, events: seq<Event>, n: nat)
    returns (items: seq<Item>, trailing: Option<seq<Byte>>)
    requires At(s, i, before) && IsGap(c, before) && i + |before| <= |s|
    requires ParseElements(c, s, i + |before|, events, n).Done?
    ensures items != [] && (forall item <- items :: IsItem(c, item)) && IsTrailing(c, trailing, false)
    ensures At(s, i, SpellItems(items, trailing))
    ensures ParseElements(c, s, i + |before|, events, n).value
         == Point(i + |SpellItems(items, trailing)|,
                  events + MeaningOfItems(c, items) + [EndArray(CountOf(n + |items|))])
    decreases |s| - (i + |before|), 3
  {
    hide At, Skip, ParseValue, ParseAfterElement, IsGap, SpellAfterItem, IsTrailing, Meaning, Spell, IsPhrase;
    var start := i + |before|;
    var v := PhraseFound(c, s, start, events);
    var value := ParseValue(c, s, start, events).value;
    var after, rest, ending := AfterItemFound(c, s, value, n);
    var item := Item(before, v, after);
    items, trailing := [item] + rest, ending;
    AtJoin(s, start, Spell(v), after);
    AtJoin(s, i, before, Spell(v) + after);
    AtJoin(s, i, SpellItem(item), SpellAfterItem(rest, trailing));
    assert items[1..] == rest;
    assert value.events + MeaningOfItems(c, rest) == events + MeaningOfItems(c, items);
  }

  lemma {:induction false} AfterItemFound(c: Config, s: seq<Byte>, value: Point, n: nat)
    returns (after: seq<Byte>, items: seq<Item>, trailing: Option<seq<Byte>>)
    requires value.pos <= |s| && ParseAfterElement(c, s, value, n).Done?
    ensures IsGap(c, after) && (forall item <- items :: IsItem(c, item)) && IsTrailing(c, trailing, false)
    ensures At(s, value.pos, after) && At(s, value.pos + |after|, SpellAfterItem(items, trailing))
    ensures ParseAfterElement(c, s, value, n).value
         == Point(value.pos + |after| + |SpellAfterItem(items, trailing)|,
                  value.events + MeaningOfItems(c, items) + [EndArray(CountOf(n + 1 + |items|))])
    decreases |s| - value.pos, 2
  {
    hide At, Skip, ParseElements, IsGap, SpellItems, IsItem, MeaningOfItems, CountUp, CountOf;
    NothingMeant(c);
    CountOneByOne(n, 0);
    after := SkipFinds(c, s, value.pos, value.events);
    var j := value.pos + |after|;
    ByteFound(s, j);
    items, trailing := [], None;
    if Peek(s, j) == COMMA {
      var gap := SkipFinds(c, s, j + 1, value.events);
      var k := j + 1 + |gap|;
      if c.trailingCommas && Peek(s, k) == RBRACKET {
        trailing := Some(gap);
        ByteFound(s, k);
        AtJoin(s, j + 1, gap, [RBRACKET]);
        AtJoin(s, j, [COMMA], gap + [RBRACKET]);
      } else {
        ElementIsThere(c, s, k, value.events, CountUp(n));
        items, trailing := ItemsFound(c, s, j + 1, gap, value.events, CountUp(n));
        CountOneByOne(n, |items|);
        AtJoin(s, j, [COMMA], SpellItems(items, trailing));
      }
    }
    assert items == [] ==> value.events + MeaningOfItems(c, items) == value.events;
  }

  lemma {:induction false} ObjectFound(c: Config, s: seq<Byte>, i: nat, events: seq<Event>) returns (v: Phrase)
    requires i < |s| && s[i] == LBRACE && ParseObject(c, s, i, events).Done?
    ensures IsPhrase(c, v) && At(s, i, Spell(v)) && !v.Number?
    ensures ParseObject(c, s, i, events).value == Point(i + |Spell(v)|, events + Meaning(c, v))
    decreases |s| - i, 1
  {
    hide At, Skip, ParseMembers, IsGap, SpellFields, IsField, MeaningOfFields;
    var begun := events + [StartObject];
    var gap := SkipFinds(c, s, i + 1, begun);
    var j := i + 1 + |gap|;
    ByteFound(s, i);
    if Peek(s, j) == RBRACE {
      v := Object([], gap, None);
      ByteFound(s, j);
      AtJoin(s, i + 1, gap, [RBRACE]);
      AtJoin(s, i, [LBRACE], gap + [RBRACE]);
      NothingMeant(c);
      assert begun + [EndObject(0)] == events + Meaning(c, v);
    } else {
      MemberIsThere(c, s, j, begun, 0);
      var fields, trailing := FieldsFound(c, s, i + 1, gap, begun, 0);
      v := Object(fields, [], trailing);
      AtJoin(s, i, [LBRACE], SpellFields(fields, trailing));
      assert IsGap(c, []) by {
        NothingIsSpace(c);
      }
      assert begun + MeaningOfFields(c, fields) + [EndObject(CountOf(|fields|))] == events + Meaning(c, v);
    }
  }

  /** A name, a colon and a value, with the white space between them. */
  lemma {:induction false} FieldFound(c: Config, s: seq<Byte>, i: nat, events: seq<Event>)
    returns (name: seq<Character>, space: seq<Byte>, gap: seq<Byte>, v: Phrase)
    requires i <= |s| && ParseMember(c, s, i, events).Done?
    ensures AreCharacters(c, name) && IsGap(c, space) && IsGap(c, gap) && IsPhrase(c, v)
    ensures At(s, i, QuotedText(name) + (space + ([COLON] + (gap + Spell(v)))))
    ensures ParseMember(c, s, i, events).value
         == Point(i + |QuotedText(name)| + |space| + 1 + |gap| + |Spell(v)|,
                  events + [Key(CharactersValue(name))] + Meaning(c, v))
    decreases |s| - i, 0
  {
    hide At, Skip, ParseStringBody, ParseValue, IsGap, AreCharacters, QuotedText, CharactersValue, Meaning, Spell, IsPhrase;
    name := QuotedFound(c, s, i);
    var named := events + [Key(CharactersValue(name))];
    var p := i + |QuotedText(name)|;
    space := SkipFinds(c, s, p, named);
    var colon := p + |space|;
    ByteFound(s, colon);
    gap := SkipFinds(c, s, colon + 1, named);
    ValueIsThere(c, s, colon + 1 + |gap|, named);
    v := PhraseFound(c, s, colon + 1 + |gap|, named);
    AtJoin(s, colon + 1, gap, Spell(v));
    AtJoin(s, colon, [COLON], gap + Spell(v));
    AtJoin(s, p, space, [COLON] + (gap + Spell(v)));
    AtJoin(s, i, QuotedText(name), space + ([COLON] + (gap + Spell(v))));
  }

  /** The loop of `ParseObject`, `before` being the white space before the first name. */
  lemma {:induction false} FieldsFound(c: Config, s: seq<Byte>, i: nat, before: seq<Byte>, events: seq<Event>, n: nat)
    returns (fields: seq<Field>, trailing: Option<seq<Byte>>)
    requires At(s, i, before) && IsGap(c, before) && i + |before| <= |s|
    requires ParseMembers(c, s, i + |before|, events, n).Done?
    ensures fields != [] && (forall field <- fields :: IsField(c, field)) && IsTrailing(c, trailing, false)
    ensures At(s, i, SpellFields(fields, trailing))
    ensures ParseMembers(c, s, i + |before|, events, n).value
         == Point(i + |SpellFields(fields, trailing)|,
                  events + MeaningOfFields(c, fields) + [EndObject(CountOf(n + |fields|))])
    decreases |s| - (i + |before|), 1
  {
    hide At, Skip, ParseMember, ParseAfterMember, IsGap, AreCharacters, QuotedText, CharactersValue, SpellAfterField,
         IsTrailing, Meaning, Spell, IsPhrase;
    var start := i + |before|;
    var name, space, gap, v := FieldFound(c, s, start, events);
    var value := ParseMember(c, s, start, events).value;
    var after, rest, ending := AfterFieldFound(c, s, value, n);
    var field := Field(before, name, space, Item(gap, v, after));
    fields, trailing := [field] + rest, ending;
    AtJoin(s, start, QuotedText(name) + (space + ([COLON] + (gap + Spell(v)))), after);
    SpelledField(field);
    AtJoin(s, i, before, QuotedText(name) + (space + ([COLON] + (gap + Spell(v)))) + after);
    AtJoin(s, i, SpellField(field), SpellAfterField(rest, trailing));
    assert fields[1..] == rest;
    assert value.events + MeaningOfFields(c, rest) == events + MeaningOfFields(c, fields);
  }

  lemma SpelledField(f: Field)
    ensures SpellField(f)
         == f.before + (QuotedText(f.name) + (f.space + ([COLON] + (f.item.before + Spell(f.item.phrase)))) + f.item.after)
  {
    Reassociate(f.before, QuotedText(f.name), f.space, f.item.before, Spell(f.item.phrase), f.item.after);
  }

  lemma Reassociate(before: seq<Byte>, name: seq<Byte>, space: seq<Byte>, gap: seq<Byte>, v: seq<Byte>, after: seq<Byte>)
    ensures before + (name + (space + ([COLON] + (gap + (v + after)))))
         == before + (name + (space + ([COLON] + (gap + v))) + after)
  {
    assert gap + (v + after) == (gap + v) + after;
    assert [COLON] + ((gap + v) + after) == ([COLON] + (gap + v)) + after;
    var rest := [COLON] + (gap + v);
    assert space + (rest + after) == (space + rest) + after;
    assert name + ((space + rest) + after) == (name + (space + rest)) + after;
  }

  lemma {:induction false} AfterFieldFound(c: Config, s: seq<Byte>, value: Point, n: nat)
    returns (after: seq<Byte>, fields: seq<Field>, trailing: Option<seq<Byte>>)
    requires value.pos <= |s| && ParseAfterMember(c, s, value, n).Done?
    ensures IsGap(c, after) && (forall field <- fields :: IsField(c, field)) && IsTrailing(c, trailing, false)
    ensures At(s, value.pos, after) && At(s, value.pos + |after|, SpellAfterField(fields, trailing))
    ensures ParseAfterMember(c, s, value, n).value
         == Point(value.pos + |after| + |SpellAfterField(fields, trailing)|,
                  value.events + MeaningOfFields(c, fields) + [EndObject(CountOf(n + 1 + |fields|))])
    decreases |s| - value.pos, 2
  {
    hide At, Skip, ParseMembers, IsGap, SpellFields, IsField, MeaningOfFields, CountUp, CountOf;
    NothingMeant(c);
    CountOneByOne(n, 0);
    after := SkipFinds(c, s, value.pos, value.events);
    var j := value.pos + |after|;
    ByteFound(s, j);
    fields, trailing := [], None;
    if Peek(s, j) == COMMA {
      var gap := SkipFinds(c, s, j + 1, value.events);
      var k := j + 1 + |gap|;
      if c.trailingCommas && Peek(s, k) == RBRACE {
        trailing := Some(gap);
        ByteFound(s, k);
        AtJoin(s, j + 1, gap, [RBRACE]);
        AtJoin(s, j, [COMMA], gap + [RBRACE]);
      } else {
        MemberIsThere(c, s, k, value.events, CountUp(n));
        fields, trailing := FieldsFound(c, s, j + 1, gap, value.events, CountUp(n));
        CountOneByOne(n, |fields|);
        AtJoin(s, j, [COMMA], SpellFields(fields, trailing));
      }
    }
    assert fields == [] ==> value.events + MeaningOfFields(c, fields) == value.events;
  }

  // ---------------------------------------------------------------------------------------
  // Main results
  // ---------------------------------------------------------------------------------------

  /** Section 2: a text is a value with white space around it.  The reader takes it up to its end or a NUL. */
  ghost predicate IsText(c: Config, s: seq<Byte>, text: Item) {
    && IsGap(c, text.before) && IsPhrase(c, text.phrase) && IsLastGap(c, text.after)
    && At(s, 0, SpellItem(text)) && Peek(s, |SpellItem(text)|) == 0
  }

  /** A reader that stops when done takes a value with nothing after it, and leaves the rest. */
  ghost predicate IsFront(c: Config, s: seq<Byte>, text: Item) {
    && IsGap(c, text.before) && IsPhrase(c, text.phrase) && text.after == []
    && At(s, 0, SpellItem(text))
    && (text.phrase.Number? ==> Stops(text.phrase.numeral, Peek(s, |SpellItem(text)|)))
  }

  ghost predicate IsTaken(c: Config, s: seq<Byte>, text: Item) {
    if c.stopWhenDone then IsFront(c, s, text) else IsText(c, s, text)
  }

  lemma AfterText(c: Config, s: seq<Byte>, i: nat, after: seq<Byte>, events: seq<Event>)
    requires At(s, i, after) && IsLastGap(c, after) && Peek(s, i + |after|) == 0
    ensures Skip(c, s, i, events) == Done(i + |after|) && EndsNumber(Peek(s, i))
  {
    if IsGap(c, after) {
      SkipsTo(c, s, i, after, events);
      if after != [] {
        AtFirst(s, i, after);
        GapBegins(c, after);
      }
    } else {
      AfterLastLine(c, s, i, after);
    }
  }

  lemma AfterLastLine(c: Config, s: seq<Byte>, i: nat, after: seq<Byte>)
    requires At(s, i, after) && IsLastGap(c, after) && !IsGap(c, after) && Peek(s, i + |after|) == 0
    ensures c.comments && SkipComments(s, SkipWhitespace(s, i)) == Skipped(i + |after|) && EndsNumber(Peek(s, i))
  {
    hide IsGap, IsLastGap, IsLineComment, SkipWhitespace, SkipLineComment, SkipBlockComment, At, EndsNumber, IsSpace;
    var n := LastGapParts(c, after);
    assert after == after[..n] + after[n..];
    AtConcat(s, i, after[..n], after[n..]);
    SkipsLineMarks(s, i + n, after[n..]);
    SlashEndsNumber();
    SkipsGap(c, s, i, after[..n]);
    LastLineIsSkipped(s, i + n, after[n..]);
    if n > 0 {
      AtFirst(s, i, after[..n]);
      GapBegins(c, after[..n]);
    }
  }

  lemma LastGapParts(c: Config, after: seq<Byte>) returns (n: nat)
    requires IsLastGap(c, after) && !IsGap(c, after)
    ensures c.comments && n <= |after| && IsGap(c, after[..n]) && IsLineComment(after[n..])
  {
    hide IsGap, IsLineComment;
    n :| 0 <= n <= |after| && IsGap(c, after[..n]) && IsLineComment(after[n..]);
  }

  lemma LastLineIsSkipped(s: seq<Byte>, i: nat, w: seq<Byte>)
    requires At(s, i, w) && IsLineComment(w) && Peek(s, i + |w|) == 0
    ensures i + |w| <= |s| && SkipComments(s, i) == Skipped(i + |w|)
  {
    hide IsLineComment, SkipLineComment, SkipBlockComment, At;
    SkipsLineMarks(s, i, w);
    MarksAreTwo(w);
    SkipsLine(s, i, w, 2);
    NothingSkipped(s, i + |w|);
  }

  lemma MarksAreTwo(w: seq<Byte>)
    requires IsLineComment(w)
    ensures |w| >= 2
  {
  }

  lemma SlashEndsNumber()
    ensures EndsNumber(SLASH) && !IsSpace(SLASH)
  {
  }

  /** What is read up to a value and of it, when the value is taken as far as it goes. */
  lemma ReadFront(c: Config, s: seq<Byte>, text: Item)
    requires NeverRefuses(c) && IsGap(c, text.before) && IsPhrase(c, text.phrase) && At(s, 0, SpellItem(text))
    requires PhraseStops(text.phrase, Peek(s, |text.before| + |Spell(text.phrase)|))
    ensures |text.before| < |s| && Skip(c, s, 0, []) == Done(|text.before|) && Peek(s, |text.before|) != 0
    ensures At(s, |text.before| + |Spell(text.phrase)|, text.after)
    ensures |SpellItem(text)| == |text.before| + |Spell(text.phrase)| + |text.after|
    ensures ParseValue(c, s, |text.before|, [])
         == Done(Point(|text.before| + |Spell(text.phrase)|, Meaning(c, text.phrase)))
  {
    hide At, Skip, ParseValue, IsGap, Spell, IsPhrase, PhraseStops, Meaning;
    var before, v, after := text.before, text.phrase, text.after;
    AtConcat(s, 0, before, Spell(v) + after);
    AtConcat(s, |before|, Spell(v), after);
    SkipsToPhrase(c, s, 0, before, v, []);
    ValueByte(Peek(s, |before|));
    ReadPhrase(c, s, |before|, v, []);
    assert [] + Meaning(c, v) == Meaning(c, v);
  }

  /**
   Every text of the grammar is accepted by both parsers, and reported as what it means.  A reader
   that stops when done stops at the end of the value.
   */
  lemma EveryTextIsAccepted(c: Config, s: seq<Byte>, text: Item)
    requires NeverRefuses(c) && IsText(c, s, text)
    ensures Parse(c, s)
         == Done(Point(if c.stopWhenDone then |text.before + Spell(text.phrase)| else |SpellItem(text)|,
                       Meaning(c, text.phrase)))
    ensures IterativeParse(c, s) == Parse(c, s)
  {
    hide At, Skip, ParseValue, IsGap, IsLastGap, Spell, IsPhrase, Meaning, IterativeParse, Parse, EndsNumber,
         PhraseStops;
    var before, v, after := text.before, text.phrase, text.after;
    var end := |before| + |Spell(v)|;
    AtConcat(s, 0, before, Spell(v) + after);
    AtConcat(s, |before|, Spell(v), after);
    AfterText(c, s, end, after, Meaning(c, v));
    EndsPhrase(v, Peek(s, end));
    ReadFront(c, s, text);
    ParsesText(c, s, |before|, end, |SpellItem(text)|, Meaning(c, v));
    Refinement.IterativeRefinesRecursive(c, s);
  }
  lemma ParsesText(c: Config, s: seq<Byte>, i: nat, j: nat, k: nat, events: seq<Event>)
    requires i < |s| && j <= |s| && Skip(c, s, 0, []) == Done(i) && Peek(s, i) != 0
    requires ParseValue(c, s, i, []) == Done(Point(j, events))
    requires Skip(c, s, j, events) == Done(k) && Peek(s, k) == 0
    ensures Parse(c, s) == Done(Point(if c.stopWhenDone then j else k, events))
  {
  }

  /** A reader that stops when done takes any value at the front, and nothing of what follows. */
  lemma EveryFrontIsAccepted(c: Config, s: seq<Byte>, text: Item)
    requires NeverRefuses(c) && c.stopWhenDone && IsFront(c, s, text)
    ensures Parse(c, s) == Done(Point(|SpellItem(text)|, Meaning(c, text.phrase)))
    ensures IterativeParse(c, s) == Parse(c, s)
  {
    ReadFront(c, s, text);
    FrontIsParsed(c, s, |text.before|, |SpellItem(text)|, Meaning(c, text.phrase));
    hide Parse, IterativeParse;
    Refinement.IterativeRefinesRecursive(c, s);
  }

  lemma FrontIsParsed(c: Config, s: seq<Byte>, i: nat, j: nat, events: seq<Event>)
    requires c.stopWhenDone && i <= |s| && Skip(c, s, 0, []) == Done(i) && Peek(s, i) != 0
    requires ParseValue(c, s, i, []) == Done(Point(j, events))
    ensures Parse(c, s) == Done(Point(j, events))
  {
  }

  /** And nothing but a text of the grammar is accepted. */
  lemma OnlyTextsAreAccepted(c: Config, s: seq<Byte>) returns (text: Item)
    requires Parse(c, s).Done?
    ensures IsTaken(c, s, text)
    ensures Parse(c, s).value == Point(|SpellItem(text)|, Meaning(c, text.phrase))
  {
    hide At, Skip, ParseValue, IsGap, IsLastGap, Spell, IsPhrase, Meaning, PhraseStops;
    var before := SkipFinds(c, s, 0, []);
    var root := ParseValue(c, s, |before|, []).value;
    ValueIsThere(c, s, |before|, []);
    var v := PhraseFound(c, s, |before|, []);
    var after: seq<Byte> := [];
    if c.stopWhenDone {
      NothingFound(s, root.pos);
      assert PhraseStops(v, Peek(s, root.pos));
      PhraseStopsMeans(v, Peek(s, root.pos));
    } else {
      after := SkipFinds(c, s, root.pos, root.events);
    }
    text := Item(before, v, after);
    AtJoin(s, |before|, Spell(v), after);
    AtJoin(s, 0, before, Spell(v) + after);
    assert [] + Meaning(c, v) == Meaning(c, v);
  }

  lemma PhraseStopsMeans(v: Phrase, b: Byte)
    ensures PhraseStops(v, b) ==> v.Number? ==> Stops(v.numeral, b)
  {
  }

  /**
   Both parsers accept exactly the texts of RFC 8259, and of those with comments and trailing commas
   where they are allowed: up to the end of the text or, if so told, of the value.
   */
  lemma AcceptsExactlyTheGrammar(c: Config, s: seq<Byte>)
    requires NeverRefuses(c)
    ensures Parse(c, s).Done? <==> exists text :: IsTaken(c, s, text)
    ensures IterativeParse(c, s).Done? <==> exists text :: IsTaken(c, s, text)
  {
    hide Parse, IterativeParse, IsText, IsFront, Skip;
    if Parse(c, s).Done? {
      var text := OnlyTextsAreAccepted(c, s);
    }
    if text :| IsTaken(c, s, text) {
      if c.stopWhenDone {
        EveryFrontIsAccepted(c, s, text);
      } else {
        EveryTextIsAccepted(c, s, text);
      }
    }
    Refinement.IterativeRefinesRecursive(c, s);
  }

  /** However a text is taken apart, it means the same. */
  lemma MeaningIsUnique(c: Config, s: seq<Byte>, a: Item, b: Item)
    requires NeverRefuses(c) && IsText(c, s, a) && IsText(c, s, b)
    ensures Meaning(c, a.phrase) == Meaning(c, b.phrase)
  {
    hide IsText, Meaning, Parse, IterativeParse;
    EveryTextIsAccepted(c, s, a);
    EveryTextIsAccepted(c, s, b);
  }
}
