/**
 JSON Pointers as sections 3 to 6 of RFC 6901 spell them, a character at a time, and apart from the
 code: what is read, where reading stops, and what is written.
 */
module PointerSyntax {
  import opened Bytes
  import Abnf
  import Pointer
  import Utf8

  // ---------------------------------------------------------------------------------------
  // The grammar
  // ---------------------------------------------------------------------------------------

  /** `%XY`, the digits in either case, for a byte. */
  predicate IsTriplet(w: seq<Byte>, b: Byte) {
    && |w| == 3 && w[0] == '%' as int
    && Abnf.HexDig(w[1]).Some? && Abnf.HexDig(w[2]).Some?
    && b == 16 * Abnf.HexDig(w[1]).value + Abnf.HexDig(w[2]).value
  }

  predicate AreTriplets(w: seq<Byte>, bytes: seq<Byte>) {
    if bytes == [] then w == []
    else |w| >= 3 && IsTriplet(w[..3], bytes[0]) && AreTriplets(w[3..], bytes[1..])
  }

  /** A piece of a reference token: a character as it is, one in triplets, or an escape. */
  datatype Piece =
    | Plain(c: Byte)
    | Triplets(text: seq<Byte>, bytes: seq<Byte>)
    | Escaped(tilde: seq<Byte>, digit: Byte)

  /** The tilde that begins an escape; in a fragment it may be a triplet too. */
  predicate IsTilde(fragment: bool, w: seq<Byte>) {
    w == ['~' as int] || (fragment && IsTriplet(w, '~' as int))
  }

  predicate IsPiece(fragment: bool, piece: Piece) {
    match piece
    case Plain(c) => c != '/' as int && c != '~' as int && (fragment ==> Abnf.Unreserved(c))
    case Triplets(text, bytes) =>
      fragment && Utf8.IsUtf8Char(bytes) && bytes != ['~' as int] && AreTriplets(text, bytes)
    case Escaped(tilde, digit) => IsTilde(fragment, tilde) && (digit == '0' as int || digit == '1' as int)
  }

  function PieceText(piece: Piece): seq<Byte> {
    match piece
    case Plain(c) => [c]
    case Triplets(text, _) => text
    case Escaped(tilde, digit) => tilde + [digit]
  }

  function PieceMeaning(piece: Piece): seq<Byte> {
    match piece
    case Plain(c) => [c]
    case Triplets(_, bytes) => bytes
    case Escaped(_, digit) => if digit == '0' as int then ['~' as int] else ['/' as int]
  }

  type Token = seq<Piece>

  predicate IsPointer(fragment: bool, tokens: seq<Token>) {
    forall t <- tokens :: forall p <- t :: IsPiece(fragment, p)
  }

  function TokenText(t: Token): seq<Byte> {
    if t == [] then [] else PieceText(t[0]) + TokenText(t[1..])
  }

  function TokenMeaning(t: Token): seq<Byte> {
    if t == [] then [] else PieceMeaning(t[0]) + TokenMeaning(t[1..])
  }

  function TokensText(tokens: seq<Token>): seq<Byte> {
    if tokens == [] then [] else ['/' as int] + TokenText(tokens[0]) + TokensText(tokens[1..])
  }

  function Text(fragment: bool, tokens: seq<Token>): seq<Byte> {
    (if fragment then ['#' as int] else []) + TokensText(tokens)
  }

  function Meaning(tokens: seq<Token>): seq<seq<Byte>> {
    if tokens == [] then [] else [TokenMeaning(tokens[0])] + Meaning(tokens[1..])
  }

  predicate IsFragment(s: seq<Byte>) {
    s != [] && s[0] == '#' as int
  }

  // ---------------------------------------------------------------------------------------
  // A piece
  // ---------------------------------------------------------------------------------------

  lemma UnreservedAgree(c: Byte)
    ensures Pointer.NeedPercentEncode(c) <==> !Abnf.Unreserved(c)
  {
  }

  /** `PercentTake` gives a byte exactly for the triplets, in either case, that spell it. */
  lemma TripletIsTaken(s: seq<Byte>, i: nat, b: Byte)
    ensures Pointer.PercentTake(s, i) == Some(b) <==> i + 3 <= |s| && IsTriplet(s[i..i + 3], b)
  {
    hide Abnf.HexDig, Abnf.Digit, HexDigit;
    if i + 3 <= |s| {
      Abnf.HexDigitsAgree(s[i + 1]);
      Abnf.HexDigitsAgree(s[i + 2]);
    }
  }

  lemma {:induction false} TripletsAreTaken(s: seq<Byte>, i: nat, bytes: seq<Byte>)
    requires i + 3 * |bytes| <= |s|
    ensures Pointer.PercentTakes(s, i, |bytes|) == Some(bytes) <==> AreTriplets(s[i..i + 3 * |bytes|], bytes)
    decreases |bytes|
  {
    hide IsTriplet, Pointer.PercentTake;
    var w := s[i..i + 3 * |bytes|];
    if bytes == [] {
      assert w == [];
    } else {
      TripletIsTaken(s, i, bytes[0]);
      TripletsAreTaken(s, i + 3, bytes[1..]);
      assert w[..3] == s[i..i + 3];
      assert w[3..] == s[i + 3..i + 3 + 3 * |bytes[1..]|];
      assert bytes == [bytes[0]] + bytes[1..];
    }
  }

  lemma {:induction false} TripletsLength(w: seq<Byte>, bytes: seq<Byte>)
    requires AreTriplets(w, bytes)
    ensures |w| == 3 * |bytes| && (bytes != [] ==> w[0] == '%' as int)
    decreases |bytes|
  {
    if bytes != [] {
      TripletsLength(w[3..], bytes[1..]);
      assert w[..3][0] == w[0];
    }
  }

  lemma CharIsUtf8(s: seq<Byte>, i: nat, bytes: seq<Byte>)
    requires Pointer.PercentChar(s, i) == Some(bytes)
    ensures Utf8.IsUtf8Char(bytes) && Pointer.PercentTakes(s, i, |bytes|) == Some(bytes)
  {
    Pointer.PercentCharIsUtf8(s, i);
    hide Pointer.PercentTake, Pointer.PercentTakes, Utf8.Validate, Utf8.IsUtf8Char, Pointer.CharLength;
  }

  lemma CharLengthOf(bytes: seq<Byte>)
    requires Utf8.IsUtf8Char(bytes)
    ensures Pointer.CharLength(bytes[0]) == |bytes| && Utf8.Validate(bytes, 0).ok
  {
    assert bytes[0..0 + |bytes|] == bytes;
    Utf8.ValidateComplete(bytes, 0, bytes);
  }

  lemma TakenIsChar(s: seq<Byte>, i: nat, bytes: seq<Byte>)
    requires Utf8.IsUtf8Char(bytes) && Pointer.PercentTakes(s, i, |bytes|) == Some(bytes)
    ensures Pointer.PercentChar(s, i) == Some(bytes)
  {
    hide Pointer.PercentTake, Utf8.IsUtf8Char, Pointer.CharLength, Utf8.Validate;
    assert bytes != [] by {
      NotEmpty(bytes);
    }
    CharLengthOf(bytes);
    assert Pointer.PercentTake(s, i) == Some(bytes[0]);
  }

  lemma NotEmpty(bytes: seq<Byte>)
    requires Utf8.IsUtf8Char(bytes)
    ensures bytes != []
  {
  }

  /** A percent-encoded character is read exactly where triplets spell a character of UTF-8. */
  lemma CharIsTaken(s: seq<Byte>, i: nat, bytes: seq<Byte>)
    requires i + 3 * |bytes| <= |s|
    ensures Pointer.PercentChar(s, i) == Some(bytes)
       <==> Utf8.IsUtf8Char(bytes) && AreTriplets(s[i..i + 3 * |bytes|], bytes)
  {
    hide AreTriplets, Pointer.PercentChar, Pointer.PercentTakes, Utf8.IsUtf8Char;
    TripletsAreTaken(s, i, bytes);
    if Pointer.PercentChar(s, i) == Some(bytes) {
      CharIsUtf8(s, i, bytes);
    } else if Utf8.IsUtf8Char(bytes) && AreTriplets(s[i..i + 3 * |bytes|], bytes) {
      TakenIsChar(s, i, bytes);
    }
  }

  /** A piece of the grammar is read as what it means. */
  lemma PieceIsRead(s: seq<Byte>, fragment: bool, i: nat, piece: Piece)
    requires IsPiece(fragment, piece) && At(s, i, PieceText(piece))
    ensures i < |s| && s[i] != Pointer.SLASH
    ensures Pointer.ParsePiece(s, fragment, i) == Pointer.Name(i + |PieceText(piece)|, PieceMeaning(piece))
  {
    hide Pointer.PercentChar, Abnf.HexDig, Abnf.Digit, Utf8.IsUtf8Char;
    var w := PieceText(piece);
    match piece
    case Plain(c) =>
      AtByte(s, i, w, 0);
      UnreservedAgree(c);
    case Triplets(text, bytes) =>
      NotEmpty(bytes);
      TripletsLength(text, bytes);
      CharIsTaken(s, i, bytes);
      AtByte(s, i, w, 0);
    case Escaped(tilde, digit) =>
      AtByte(s, i, w, 0);
      AtByte(s, i, w, |tilde|);
      if tilde != ['~' as int] {
        AtConcat(s, i, tilde, [digit]);
        TildeIsTaken(s, i, tilde);
      }
  }

  lemma TildeIsTaken(s: seq<Byte>, i: nat, tilde: seq<Byte>)
    requires At(s, i, tilde) && IsTriplet(tilde, '~' as int)
    ensures i + 3 <= |s| && s[i] == '%' as int && Pointer.PercentChar(s, i) == Some(['~' as int])
  {
    var bytes: seq<Byte> := ['~' as int];
    assert tilde[..3] == tilde && tilde[3..] == [] && bytes[1..] == [];
    assert AreTriplets(tilde, bytes) by {
      hide IsTriplet;
    }
    CharIsTaken(s, i, bytes);
  }

  /** A piece that is read is one of the grammar. */
  lemma PieceIsSpelled(s: seq<Byte>, fragment: bool, i: nat) returns (piece: Piece)
    requires i < |s| && s[i] != Pointer.SLASH && Pointer.ParsePiece(s, fragment, i).Name?
    ensures IsPiece(fragment, piece) && PieceMeaning(piece) == Pointer.ParsePiece(s, fragment, i).name
    ensures PieceText(piece) == s[i..Pointer.ParsePiece(s, fragment, i).next]
  {
    hide Pointer.PercentChar, Abnf.HexDig, Abnf.Digit, Utf8.IsUtf8Char;
    var next := Pointer.ParsePiece(s, fragment, i).next;
    UnreservedAgree(s[i]);
    if !(fragment && s[i] == Pointer.PERCENT) {
      if s[i] == Pointer.TILDE {
        assert s[i..next] == ['~' as int] + [s[i + 1]];
        return Escaped(['~' as int], s[i + 1]);
      }
      assert s[i..next] == [s[i]];
      return Plain(s[i]);
    }
    var bytes := Pointer.PercentChar(s, i).value;
    CharIsTaken(s, i, bytes);
    if bytes == ['~' as int] {
      assert bytes[1..] == [] && s[i..i + 3][..3] == s[i..i + 3];
      assert s[i..next] == s[i..i + 3] + [s[i + 3]];
      return Escaped(s[i..i + 3], s[i + 3]);
    }
    piece := Triplets(s[i..i + 3 * |bytes|], bytes);
  }

  // ---------------------------------------------------------------------------------------
  // A token
  // ---------------------------------------------------------------------------------------

  lemma {:induction false} TokenIsRead(s: seq<Byte>, fragment: bool, i: nat, t: Token, name: seq<Byte>)
    requires (forall p <- t :: IsPiece(fragment, p)) && At(s, i, TokenText(t))
    requires var end := i + |TokenText(t)|; end == |s| || s[end] == Pointer.SLASH
    ensures Pointer.ParseName(s, fragment, i, name) == Pointer.Name(i + |TokenText(t)|, name + TokenMeaning(t))
    decreases |t|
  {
    hide Pointer.ParsePiece, Pointer.ParseName, PieceText, PieceMeaning, IsPiece;
    if t == [] {
      Pointer.ParseNameEnd(s, fragment, i, name);
      assert name + [] == name;
    } else {
      var next := i + |PieceText(t[0])|;
      AtConcat(s, i, PieceText(t[0]), TokenText(t[1..]));
      PieceIsRead(s, fragment, i, t[0]);
      Pointer.ParseNameStep(s, fragment, i, name, next, PieceMeaning(t[0]));
      TokenIsRead(s, fragment, next, t[1..], name + PieceMeaning(t[0]));
      assert name + PieceMeaning(t[0]) + TokenMeaning(t[1..]) == name + TokenMeaning(t);
    }
  }

  /** Reading of a piece fails at `k`, and the error is reported at `offset`. */
  ghost predicate Fails(s: seq<Byte>, fragment: bool, k: nat, code: Pointer.ErrorCode, offset: nat)
    requires k < |s|
  {
    match code
    case TokenMustBeginWithSolidus => false
    case CharacterMustPercentEncode =>
      fragment && offset == k && s[k] != '%' as int && s[k] != '/' as int && !Abnf.Unreserved(s[k])
    case InvalidPercentEncoding =>
      fragment && offset == k && s[k] == '%' as int && NoCharAt(s, k)
    case InvalidEscape =>
      && k < offset <= |s| && IsTilde(fragment, s[k..offset])
      && (offset == |s| || (s[offset] != '0' as int && s[offset] != '1' as int))
  }

  /** No triplets at `k` spell a character of UTF-8. */
  ghost predicate NoCharAt(s: seq<Byte>, k: nat) {
    forall bytes: seq<Byte> ::
      Utf8.IsUtf8Char(bytes) && k + 3 * |bytes| <= |s| ==> !AreTriplets(s[k..k + 3 * |bytes|], bytes)
  }

  lemma PieceFails(s: seq<Byte>, fragment: bool, i: nat)
    requires i < |s| && s[i] != Pointer.SLASH && Pointer.ParsePiece(s, fragment, i).BadName?
    ensures var bad := Pointer.ParsePiece(s, fragment, i); Fails(s, fragment, i, bad.code, bad.offset)
  {
    hide Pointer.PercentChar, Abnf.HexDig, Abnf.Digit, Utf8.IsUtf8Char, AreTriplets;
    var bad := Pointer.ParsePiece(s, fragment, i);
    UnreservedAgree(s[i]);
    if fragment && s[i] == Pointer.PERCENT {
      forall bytes: seq<Byte> | Utf8.IsUtf8Char(bytes) && i + 3 * |bytes| <= |s|
        ensures Pointer.PercentChar(s, i).None? ==> !AreTriplets(s[i..i + 3 * |bytes|], bytes)
      {
        CharIsTaken(s, i, bytes);
      }
      if Pointer.PercentChar(s, i).Some? {
        assert Pointer.PercentChar(s, i).value == ['~' as int];
        TripletOfTilde(s, i);
      }
    } else {
      assert s[i..i + 1] == [s[i]];
    }
  }

  lemma TripletOfTilde(s: seq<Byte>, i: nat)
    requires Pointer.PercentChar(s, i) == Some(['~' as int])
    ensures i + 3 <= |s| && IsTriplet(s[i..i + 3], '~' as int)
  {
    hide Pointer.PercentChar, IsTriplet, Utf8.IsUtf8Char;
    var bytes: seq<Byte> := ['~' as int];
    CharIsTaken(s, i, bytes);
    assert s[i..i + 3][..3] == s[i..i + 3];
  }

  /** What has been read of a token: all of it, or up to the piece at `k` where reading fails. */
  lemma {:induction false} TokenIsSpelled(s: seq<Byte>, fragment: bool, i: nat, name: seq<Byte>) returns (t: Token, k: nat)
    requires i <= |s|
    ensures (forall p <- t :: IsPiece(fragment, p)) && i <= k <= |s| && s[i..k] == TokenText(t)
    ensures match Pointer.ParseName(s, fragment, i, name)
            case Name(next, whole) => k == next && whole == name + TokenMeaning(t)
            case BadName(code, offset) => k < |s| && Fails(s, fragment, k, code, offset)
    decreases |s| - i
  {
    hide Pointer.ParsePiece, PieceText, PieceMeaning, IsPiece, Fails;
    t, k := [], i;
    if i == |s| || s[i] == Pointer.SLASH {
      assert name + [] == name && s[i..i] == [];
      return;
    }
    match Pointer.ParsePiece(s, fragment, i)
    case BadName(code, offset) =>
      assert s[i..i] == [];
      PieceFails(s, fragment, i);
    case Name(next, value) =>
      var piece := PieceIsSpelled(s, fragment, i);
      var rest;
      rest, k := TokenIsSpelled(s, fragment, next, name + value);
      t := [piece] + rest;
      assert t[1..] == rest && s[i..next] + s[next..k] == s[i..k];
      assert name + value + TokenMeaning(rest) == name + TokenMeaning(t);
  }

  // ---------------------------------------------------------------------------------------
  // A pointer
  // ---------------------------------------------------------------------------------------

  lemma TokensTextBegins(tokens: seq<Token>)
    ensures tokens != [] ==> TokensText(tokens) != [] && TokensText(tokens)[0] == '/' as int
  {
  }

  lemma TokenSplits(s: seq<Byte>, i: nat, first: seq<Byte>, rest: seq<Byte>)
    requires i <= |s| && s[i..] == ['/' as int] + first + rest
    ensures i < |s| && s[i] == '/' as int && At(s, i + 1, first)
    ensures i + 1 + |first| <= |s| && s[i + 1 + |first|..] == rest
  {
    assert s[i] == s[i..][0];
    assert s[i + 1..i + 1 + |first|] == s[i..][1..1 + |first|];
    assert s[i + 1 + |first|..] == s[i..][1 + |first|..];
  }

  lemma PointerTail(fragment: bool, tokens: seq<Token>)
    requires IsPointer(fragment, tokens) && tokens != []
    ensures (forall p <- tokens[0] :: IsPiece(fragment, p)) && IsPointer(fragment, tokens[1..])
  {
    assert tokens[0] in tokens && forall t <- tokens[1..] :: t in tokens;
  }

  lemma ParseTokensStep(s: seq<Byte>, fragment: bool, i: nat, names: seq<seq<Byte>>, k: nat, name: seq<Byte>)
    requires i < |s| && s[i] == Pointer.SLASH && Pointer.ParseName(s, fragment, i + 1, []) == Pointer.Name(k, name)
    ensures k <= |s| && (k < |s| ==> s[k] == Pointer.SLASH)
    ensures Pointer.ParseTokens(s, fragment, i, names) == Pointer.ParseTokens(s, fragment, k, names + [name])
  {
  }

  lemma {:induction false} TokensAreRead(s: seq<Byte>, fragment: bool, i: nat, tokens: seq<Token>, names: seq<seq<Byte>>)
    requires IsPointer(fragment, tokens) && i <= |s| && s[i..] == TokensText(tokens)
    ensures i < |s| ==> s[i] == Pointer.SLASH
    ensures Pointer.ParseTokens(s, fragment, i, names) == Pointer.Names(names + Meaning(tokens))
    decreases |tokens|
  {
    hide Pointer.ParseName, TokenText, TokenMeaning, At, IsPointer;
    if tokens == [] {
      assert names + [] == names;
    } else {
      hide Pointer.ParseTokens;
      var first, rest := TokenText(tokens[0]), TokensText(tokens[1..]);
      var k, name := i + 1 + |first|, TokenMeaning(tokens[0]);
      PointerTail(fragment, tokens);
      TokenSplits(s, i, first, rest);
      TokensAreRead(s, fragment, k, tokens[1..], names + [name]);
      TokenIsRead(s, fragment, i + 1, tokens[0], []);
      assert [] + name == name;
      ParseTokensStep(s, fragment, i, names, k, name);
      assert names + [name] + Meaning(tokens[1..]) == names + Meaning(tokens);
    }
  }

  lemma {:induction false} TokensAreSpelled(s: seq<Byte>, fragment: bool, i: nat, names: seq<seq<Byte>>)
    returns (tokens: seq<Token>, k: nat)
    requires i <= |s| && (i < |s| ==> s[i] == Pointer.SLASH)
    ensures IsPointer(fragment, tokens) && i <= k <= |s| && s[i..k] == TokensText(tokens)
    ensures match Pointer.ParseTokens(s, fragment, i, names)
            case Names(all) => k == |s| && all == names + Meaning(tokens)
            case Bad(code, offset) => tokens != [] && k < |s| && Fails(s, fragment, k, code, offset)
    decreases |s| - i
  {
    hide Pointer.ParseName, TokenText, TokenMeaning, IsPiece, Fails;
    if i == |s| {
      assert names + [] == names && s[i..i] == [];
      return [], i;
    }
    var first;
    first, k := TokenIsSpelled(s, fragment, i + 1, []);
    assert s[i..k] == ['/' as int] + s[i + 1..k];
    match Pointer.ParseName(s, fragment, i + 1, [])
    case BadName(_, _) =>
      tokens := [first];
      assert tokens[1..] == [] && s[i..k] + [] == s[i..k];
    case Name(next, name) =>
      assert name == TokenMeaning(first);
      var rest;
      rest, k := TokensAreSpelled(s, fragment, next, names + [name]);
      tokens := [first] + rest;
      assert tokens[1..] == rest && s[i..next] + s[next..k] == s[i..k];
      assert names + [name] + Meaning(rest) == names + Meaning(tokens);
  }

  /** The tokens spell `s`, up to its end. */
  ghost predicate Spelled(s: seq<Byte>, names: seq<seq<Byte>>) {
    exists tokens: seq<Token> ::
      IsPointer(IsFragment(s), tokens) && s == Text(IsFragment(s), tokens) && names == Meaning(tokens)
  }

  /** `Parse` reads a string or a fragment as given names exactly when RFC 6901 spells them so. */
  lemma ReadsExactlyPointers(s: seq<Byte>, names: seq<seq<Byte>>)
    ensures Pointer.Parse(s) == Pointer.Names(names) <==> Spelled(s, names)
  {
    hide Pointer.ParseTokens, TokensText, Meaning, IsPointer;
    var fragment := IsFragment(s);
    var i := if fragment then 1 else 0;
    if Pointer.Parse(s) == Pointer.Names(names) {
      var tokens, k := TokensAreSpelled(s, fragment, i, []);
      assert [] + Meaning(tokens) == Meaning(tokens);
      assert s == s[..i] + s[i..k] && s[..i] == if fragment then ['#' as int] else [];
    }
    if Spelled(s, names) {
      var tokens: seq<Token> :| IsPointer(fragment, tokens) && s == Text(fragment, tokens) && names == Meaning(tokens);
      assert s[i..] == TokensText(tokens);
      TokensAreRead(s, fragment, i, tokens, []);
      assert [] + Meaning(tokens) == Meaning(tokens);
    }
  }

  /**
   Where a pointer is refused: what was read so far is a pointer, and at its end there is no `/`, or a
   piece that fails for the reason given.
   */
  ghost predicate Refused(s: seq<Byte>, tokens: seq<Token>, k: nat, code: Pointer.ErrorCode, offset: nat) {
    && k < |s| && IsPointer(IsFragment(s), tokens) && s[..k] == Text(IsFragment(s), tokens)
    && (if tokens == [] then code == Pointer.TokenMustBeginWithSolidus && offset == k && s[k] != '/' as int
        else Fails(s, IsFragment(s), k, code, offset))
  }

  lemma RefusedWhereReadingStops(s: seq<Byte>) returns (tokens: seq<Token>, k: nat)
    requires Pointer.Parse(s).Bad?
    ensures Refused(s, tokens, k, Pointer.Parse(s).code, Pointer.Parse(s).offset)
  {
    hide Pointer.ParseTokens, Fails;
    var fragment := IsFragment(s);
    var i := if fragment then 1 else 0;
    assert s[..i] == if fragment then ['#' as int] else [];
    if i < |s| && s[i] != Pointer.SLASH {
      return [], i;
    }
    tokens, k := TokensAreSpelled(s, fragment, i, []);
    assert s[..k] == s[..i] + s[i..k];
  }

  // ---------------------------------------------------------------------------------------
  // Writing
  // ---------------------------------------------------------------------------------------

  /** How a byte of a name is written. */
  function Written(fragment: bool, c: Byte): seq<Byte> {
    if c == '~' as int then ['~' as int, '0' as int]
    else if c == '/' as int then ['~' as int, '1' as int]
    else if fragment && !Abnf.Unreserved(c) then ['%' as int, Abnf.UPPER[c / 16], Abnf.UPPER[c % 16]]
    else [c]
  }

  function NameWritten(fragment: bool, name: seq<Byte>): seq<Byte> {
    if name == [] then [] else Written(fragment, name[0]) + NameWritten(fragment, name[1..])
  }

  function NamesWritten(fragment: bool, names: seq<seq<Byte>>): seq<Byte> {
    if names == [] then []
    else ['/' as int] + NameWritten(fragment, names[0]) + NamesWritten(fragment, names[1..])
  }

  lemma {:induction false} NameWrittenConcat(fragment: bool, a: seq<Byte>, b: seq<Byte>)
    ensures NameWritten(fragment, a + b) == NameWritten(fragment, a) + NameWritten(fragment, b)
    decreases |a|
  {
    hide Written;
    if a == [] {
      assert a + b == b;
    } else {
      assert (a + b)[1..] == a[1..] + b;
      NameWrittenConcat(fragment, a[1..], b);
    }
  }

  lemma ByteIsWritten(b: Byte)
    requires !Abnf.Unreserved(b) && b != '/' as int
    ensures Written(true, b) == ['%' as int, HexDigitOf(b / 16), HexDigitOf(b % 16)]
  {
    Abnf.UpperAgrees(b / 16);
    Abnf.UpperAgrees(b % 16);
    hide Abnf.Digit, HexDigitOf;
  }

  /** A character that is percent-encoded is written byte by byte. */
  lemma {:induction false} EncodedIsWritten(bytes: seq<Byte>)
    requires forall b <- bytes :: !Abnf.Unreserved(b) && b != '/' as int
    ensures Pointer.PercentEncode(bytes) == NameWritten(true, bytes)
    decreases |bytes|
  {
    hide Abnf.Unreserved, Written, HexDigitOf;
    if bytes != [] {
      assert bytes[0] in bytes && forall b <- bytes[1..] :: b in bytes;
      ByteIsWritten(bytes[0]);
      EncodedIsWritten(bytes[1..]);
    }
  }

  lemma EncodesByBytes(p: seq<Byte>)
    requires Utf8.IsUtf8Char(p) && Pointer.Encodes(true, p[0])
    ensures forall b <- p :: !Abnf.Unreserved(b) && b != '/' as int
  {
    UnreservedAgree(p[0]);
  }

  lemma PieceIsWritten(fragment: bool, name: seq<Byte>, j: nat)
    requires j < |name| && Pointer.PieceText(fragment, name, j).Some?
    ensures Pointer.PieceText(fragment, name, j)
         == Some(NameWritten(fragment, name[j..Pointer.PieceEnd(fragment, name, j)]))
  {
    hide Utf8.Validate, Utf8.IsUtf8Char, Pointer.PercentEncode, Abnf.Unreserved;
    UnreservedAgree(name[j]);
    if Pointer.Encodes(fragment, name[j]) {
      Utf8.ValidateSound(name, j);
      var p := name[j..Pointer.PieceEnd(fragment, name, j)];
      EncodesByBytes(p);
      EncodedIsWritten(p);
    } else {
      var p := name[j..j + 1];
      assert p == [name[j]] && p[1..] == [] && NameWritten(fragment, p[1..]) == [];
      assert NameWritten(fragment, p) == Written(fragment, name[j]);
    }
  }

  lemma {:induction false} NameIsWritten(fragment: bool, name: seq<Byte>, j: nat)
    requires j <= |name| && Pointer.StringifyName(fragment, name, j).Some?
    ensures Pointer.StringifyName(fragment, name, j) == Some(NameWritten(fragment, name[j..]))
    decreases |name| - j
  {
    hide Pointer.PieceText, Pointer.PieceEnd;
    if j < |name| {
      var k := Pointer.PieceEnd(fragment, name, j);
      PieceIsWritten(fragment, name, j);
      NameIsWritten(fragment, name, k);
      NameWrittenConcat(fragment, name[j..k], name[k..]);
      assert name[j..] == name[j..k] + name[k..];
    }
  }

  lemma {:induction false} NamesAreWritten(fragment: bool, names: seq<seq<Byte>>)
    requires Pointer.StringifyNames(fragment, names).Some?
    ensures Pointer.StringifyNames(fragment, names) == Some(NamesWritten(fragment, names))
    decreases |names|
  {
    hide Pointer.StringifyName, NameWritten;
    if names != [] {
      NameIsWritten(fragment, names[0], 0);
      assert names[0][0..] == names[0];
      NamesAreWritten(fragment, names[1..]);
    }
  }

  /**
   `Stringify` writes each name after a `/`, byte by byte: `~0` and `~1` for `~` and `/`, and in a
   fragment an upper case triplet for everything that is not unreserved, if the names are UTF-8.
   */
  lemma StringifyWrites(fragment: bool, names: seq<seq<Byte>>)
    ensures Pointer.Stringify(fragment, names)
         == if fragment && exists n <- names :: !Utf8.IsUtf8(n) then None
            else Some((if fragment then ['#' as int] else []) + NamesWritten(fragment, names))
  {
    hide Pointer.StringifyNames, NamesWritten, Utf8.IsUtf8;
    if fragment {
      Pointer.FragmentRoundTrip(names);
    } else {
      Pointer.StringFormRoundTrip(names);
    }
    if Pointer.Stringify(fragment, names).Some? {
      NamesAreWritten(fragment, names);
    }
  }
}
