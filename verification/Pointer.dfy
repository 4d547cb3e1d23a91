/** pointer.h: reading and writing JSON Pointers (RFC 6901), as strings and as URI fragments. */
module Pointer {
  import opened Bytes
  import Utf8

  const SLASH: Byte := 47
  const TILDE: Byte := 126
  const PERCENT: Byte := 37
  const HASH: Byte := 35

  datatype ErrorCode = TokenMustBeginWithSolidus | InvalidEscape | InvalidPercentEncoding | CharacterMustPercentEncode

  /** `NeedPercentEncode`: everything but the unreserved characters of section 2.3 of RFC 3986. */
  predicate NeedPercentEncode(c: Byte) {
    !(IsDigit(c) || 65 <= c <= 90 || 97 <= c <= 122 || c == 45 || c == 46 || c == 95 || c == 126)
  }

  // ---------------------------------------------------------------------------------------
  // Reading
  // ---------------------------------------------------------------------------------------

  /** One `Take` of the percent-decoding stream: the byte a `%XY` triplet stands for. */
  function PercentTake(s: seq<Byte>, i: nat): Option<Byte> {
    if i + 3 > |s| || s[i] != PERCENT then None
    else match (HexDigit(s[i + 1]), HexDigit(s[i + 2]))
      case (Some(x), Some(y)) => Some(x * 16 + y)
      case _ => None
  }

  function PercentTakes(s: seq<Byte>, i: nat, n: nat): (r: Option<seq<Byte>>)
    ensures r.Some? ==> |r.value| == n && (n > 0 ==> i + 3 * n <= |s|)
    decreases n
  {
    if n == 0 then Some([])
    else match (PercentTake(s, i), PercentTakes(s, i + 3, n - 1))
      case (Some(b), Some(rest)) => Some([b] + rest)
      case _ => None
  }

  /** How many bytes `Validate` reads for a lead byte. */
  function CharLength(lead: Byte): (n: nat)
    ensures 1 <= n <= 4
  {
    if lead < 0x80 then 1
    else match Utf8.TailMasks(lead)
      case None => 1
      case Some(masks) => 1 + |masks|
  }

  /** A percent-encoded character, which must be well-formed UTF-8. */
  function PercentChar(s: seq<Byte>, i: nat): (r: Option<seq<Byte>>)
    ensures r.Some? ==> 1 <= |r.value| <= 4 && i + 3 * |r.value| <= |s|
  {
    match PercentTake(s, i)
    case None => None
    case Some(lead) =>
      match PercentTakes(s, i, CharLength(lead))
      case None => None
      case Some(bytes) => if Utf8.Validate(bytes, 0).ok then Some(bytes) else None
  }

  datatype NameResult = Name(next: nat, name: seq<Byte>) | BadName(code: ErrorCode, offset: nat)

  /** What follows once the byte `c` has been consumed up to `i`: `~0` and `~1` are undone. */
  function Unescape(s: seq<Byte>, i: nat, c: Byte): (r: NameResult)
    requires i <= |s|
    ensures r.Name? ==> i <= r.next <= |s| && |r.name| == 1
  {
    if c != TILDE then Name(i, [c])
    else if i == |s| then BadName(InvalidEscape, i)
    else if s[i] == 48 then Name(i + 1, [TILDE])
    else if s[i] == 49 then Name(i + 1, [SLASH])
    else BadName(InvalidEscape, i)
  }

  /** The next piece of a name at `i`. */
  function ParsePiece(s: seq<Byte>, fragment: bool, i: nat): (r: NameResult)
    requires i < |s|
    ensures r.Name? ==> i < r.next <= |s|
  {
    if fragment && s[i] == PERCENT then
      match PercentChar(s, i)
      case None => BadName(InvalidPercentEncoding, i)
      case Some(bytes) =>
        if |bytes| == 1 then Unescape(s, i + 3, bytes[0])
        else Name(i + 3 * |bytes|, bytes)
    else if fragment && NeedPercentEncode(s[i]) then BadName(CharacterMustPercentEncode, i)
    else Unescape(s, i + 1, s[i])
  }

  /** The rest of a name, `name` being what has been read of it. */
  function ParseName(s: seq<Byte>, fragment: bool, i: nat, name: seq<Byte>): (r: NameResult)
    requires i <= |s|
    ensures r.Name? ==> i <= r.next <= |s| && (r.next < |s| ==> s[r.next] == SLASH)
    decreases |s| - i
  {
    if i == |s| || s[i] == SLASH then Name(i, name)
    else match ParsePiece(s, fragment, i)
      case BadName(code, offset) => BadName(code, offset)
      case Name(j, piece) => ParseName(s, fragment, j, name + piece)
  }

  datatype Parsed = Names(names: seq<seq<Byte>>) | Bad(code: ErrorCode, offset: nat)

  function ParseTokens(s: seq<Byte>, fragment: bool, i: nat, names: seq<seq<Byte>>): Parsed
    requires i <= |s| && (i < |s| ==> s[i] == SLASH)
    decreases |s| - i
  {
    if i == |s| then Names(names)
    else match ParseName(s, fragment, i + 1, [])
      case BadName(code, offset) => Bad(code, offset)
      case Name(j, name) => ParseTokens(s, fragment, j, names + [name])
  }

  /** `Parse`. */
  function Parse(s: seq<Byte>): Parsed {
    var fragment := Peek(s, 0) == HASH;
    var i := if fragment then 1 else 0;
    if i != |s| && s[i] != SLASH then Bad(TokenMustBeginWithSolidus, i)
    else ParseTokens(s, fragment, i, [])
  }

  // ---------------------------------------------------------------------------------------
  // Writing
  // ---------------------------------------------------------------------------------------

  function PercentEncode(bytes: seq<Byte>): (r: seq<Byte>)
    ensures |r| == 3 * |bytes|
  {
    if bytes == [] then []
    else [PERCENT, HexDigitOf(bytes[0] / 16), HexDigitOf(bytes[0] % 16)] + PercentEncode(bytes[1..])
  }

  /** Whether `Stringify` percent-encodes the character at `c`. */
  predicate Encodes(fragment: bool, c: Byte) {
    c != TILDE && c != SLASH && fragment && NeedPercentEncode(c)
  }

  /** The end of the piece of a name that is written in one go. */
  function PieceEnd(fragment: bool, name: seq<Byte>, j: nat): (k: nat)
    requires j < |name|
    ensures j < k <= |name|
  {
    if Encodes(fragment, name[j]) then Utf8.Validate(name, j).next else j + 1
  }

  /** What is written for it; none for an ill-formed character. */
  function PieceText(fragment: bool, name: seq<Byte>, j: nat): Option<seq<Byte>>
    requires j < |name|
  {
    var c := name[j];
    if c == TILDE then Some([TILDE, 48])
    else if c == SLASH then Some([TILDE, 49])
    else if !Encodes(fragment, c) then Some([c])
    else if Utf8.Validate(name, j).ok then Some(PercentEncode(name[j..Utf8.Validate(name, j).next]))
    else None
  }

  /** `Stringify` from byte `j` of a name on; none where it gives up on an ill-formed character. */
  function StringifyName(fragment: bool, name: seq<Byte>, j: nat): Option<seq<Byte>>
    requires j <= |name|
    decreases |name| - j
  {
    if j == |name| then Some([])
    else match (PieceText(fragment, name, j), StringifyName(fragment, name, PieceEnd(fragment, name, j)))
      case (Some(piece), Some(rest)) => Some(piece + rest)
      case _ => None
  }

  function StringifyNames(fragment: bool, names: seq<seq<Byte>>): Option<seq<Byte>> {
    if names == [] then Some([])
    else match (StringifyName(fragment, names[0], 0), StringifyNames(fragment, names[1..]))
      case (Some(first), Some(rest)) => Some([SLASH] + first + rest)
      case _ => None
  }

  /** `Stringify<uriFragment>`. */
  function Stringify(fragment: bool, names: seq<seq<Byte>>): Option<seq<Byte>> {
    match StringifyNames(fragment, names)
    case None => None
    case Some(text) => Some((if fragment then [HASH] else []) + text)
  }

  // ---------------------------------------------------------------------------------------
  // Reading back what was written
  // ---------------------------------------------------------------------------------------

  lemma ReadTriplet(s: seq<Byte>, i: nat, b: Byte)
    requires At(s, i, [PERCENT, HexDigitOf(b / 16), HexDigitOf(b % 16)])
    ensures PercentTake(s, i) == Some(b)
  {
  }

  lemma {:induction false} ReadTriplets(s: seq<Byte>, i: nat, bytes: seq<Byte>)
    requires At(s, i, PercentEncode(bytes))
    ensures PercentTakes(s, i, |bytes|) == Some(bytes)
    decreases |bytes|
  {
    if bytes != [] {
      var w := [PERCENT, HexDigitOf(bytes[0] / 16), HexDigitOf(bytes[0] % 16)];
      AtConcat(s, i, w, PercentEncode(bytes[1..]));
      ReadTriplet(s, i, bytes[0]);
      ReadTriplets(s, i + 3, bytes[1..]);
      assert [bytes[0]] + bytes[1..] == bytes;
    }
  }

  /** A well-formed character percent-encoded is read back whole. */
  lemma ReadPercentChar(s: seq<Byte>, i: nat, p: seq<Byte>)
    requires Utf8.IsUtf8Char(p) && At(s, i, PercentEncode(p))
    ensures PercentChar(s, i) == Some(p)
  {
    AtConcat(s, i, [PERCENT, HexDigitOf(p[0] / 16), HexDigitOf(p[0] % 16)], PercentEncode(p[1..]));
    ReadTriplet(s, i, p[0]);
    assert CharLength(p[0]) == |p|;
    ReadTriplets(s, i, p);
    assert p[0..0 + |p|] == p;
    Utf8.ValidateComplete(p, 0, p);
  }

  /** What `Stringify` writes for a piece of a name is read back as that piece. */
  lemma ReadPiece(s: seq<Byte>, fragment: bool, i: nat, name: seq<Byte>, j: nat)
    requires j < |name| && PieceText(fragment, name, j).Some?
    requires At(s, i, PieceText(fragment, name, j).value)
    ensures i < |s| && s[i] != SLASH
    ensures ParsePiece(s, fragment, i)
         == Name(i + |PieceText(fragment, name, j).value|, name[j..PieceEnd(fragment, name, j)])
  {
    hide PercentChar, PercentEncode, Utf8.Validate;
    var w := PieceText(fragment, name, j).value;
    if Encodes(fragment, name[j]) {
      Utf8.ValidateSound(name, j);
      ReadEncodedPiece(s, i, name[j..PieceEnd(fragment, name, j)]);
    } else {
      AtByte(s, i, w, 0);
      if |w| == 2 {
        AtByte(s, i, w, 1);
      }
      assert name[j..j + 1] == [name[j]];
    }
  }

  lemma ReadEncodedPiece(s: seq<Byte>, i: nat, p: seq<Byte>)
    requires Utf8.IsUtf8Char(p) && At(s, i, PercentEncode(p)) && p[0] != TILDE
    ensures i < |s| && s[i] != SLASH && ParsePiece(s, true, i) == Name(i + 3 * |p|, p)
  {
    hide PercentChar;
    ReadPercentChar(s, i, p);
    assert PercentEncode(p)[0] == PERCENT;
    AtByte(s, i, PercentEncode(p), 0);
  }

  lemma ParseNameStep(s: seq<Byte>, fragment: bool, i: nat, name: seq<Byte>, j: nat, piece: seq<Byte>)
    requires i < |s| && s[i] != SLASH && ParsePiece(s, fragment, i) == Name(j, piece)
    ensures ParseName(s, fragment, i, name) == ParseName(s, fragment, j, name + piece)
  {
  }

  lemma ParseNameEnd(s: seq<Byte>, fragment: bool, i: nat, name: seq<Byte>)
    requires i <= |s| && (i < |s| ==> s[i] == SLASH)
    ensures ParseName(s, fragment, i, name) == Name(i, name)
  {
  }

  lemma {:induction false} ReadName(s: seq<Byte>, fragment: bool, i: nat, name: seq<Byte>, j: nat)
    requires j <= |name| && StringifyName(fragment, name, j).Some?
    requires At(s, i, StringifyName(fragment, name, j).value)
    requires var end := i + |StringifyName(fragment, name, j).value|; end == |s| || s[end] == SLASH
    ensures ParseName(s, fragment, i, name[..j])
         == Name(i + |StringifyName(fragment, name, j).value|, name)
    decreases |name| - j
  {
    hide ParsePiece, ParseName, PieceText, PieceEnd, At;
    assert i <= |s| by { AtBound(s, i, StringifyName(fragment, name, j).value); }
    if j == |name| {
      assert name[..j] == name;
      ParseNameEnd(s, fragment, i, name);
    } else {
      var k := PieceEnd(fragment, name, j);
      var piece := PieceText(fragment, name, j).value;
      AtConcat(s, i, piece, StringifyName(fragment, name, k).value);
      ReadPiece(s, fragment, i, name, j);
      assert name[..j] + name[j..k] == name[..k];
      ParseNameStep(s, fragment, i, name[..j], i + |piece|, name[j..k]);
      ReadName(s, fragment, i + |piece|, name, k);
    }
  }

  lemma AtBound(s: seq<Byte>, i: nat, w: seq<Byte>)
    requires At(s, i, w)
    ensures i + |w| <= |s|
  {
  }

  lemma AtSuffix(s: seq<Byte>, i: nat, w: seq<Byte>)
    requires i <= |s| && s[i..] == w
    ensures At(s, i, w) && i + |w| == |s|
  {
  }

  lemma {:induction false} ReadNames(s: seq<Byte>, fragment: bool, i: nat, names: seq<seq<Byte>>, before: seq<seq<Byte>>)
    requires StringifyNames(fragment, names).Some?
    requires i <= |s| && s[i..] == StringifyNames(fragment, names).value
    ensures i < |s| ==> s[i] == SLASH
    ensures ParseTokens(s, fragment, i, before) == Names(before + names)
    decreases |names|
  {
    hide ParseName, StringifyName, At;
    if names == [] {
      assert before + names == before;
    } else {
      var first := StringifyName(fragment, names[0], 0).value;
      var rest := StringifyNames(fragment, names[1..]).value;
      AtSuffix(s, i, [SLASH] + first + rest);
      AtConcat(s, i, [SLASH] + first, rest);
      AtConcat(s, i, [SLASH], first);
      AtByte(s, i, [SLASH], 0);
      var k := i + 1 + |first|;
      assert s[k..] == rest;
      ReadNames(s, fragment, k, names[1..], before + [names[0]]);
      assert names[0][..0] == [];
      ReadName(s, fragment, i + 1, names[0], 0);
      assert before + [names[0]] + names[1..] == before + names;
    }
  }

  lemma {:induction false} PlainNameSucceeds(name: seq<Byte>, j: nat)
    requires j <= |name|
    ensures StringifyName(false, name, j).Some?
    decreases |name| - j
  {
    if j < |name| {
      PlainNameSucceeds(name, j + 1);
    }
  }

  lemma {:induction false} PlainNamesSucceed(names: seq<seq<Byte>>)
    ensures StringifyNames(false, names).Some?
  {
    if names != [] {
      PlainNameSucceeds(names[0], 0);
      PlainNamesSucceed(names[1..]);
    }
  }

  /** The string form of any token list parses back to the same names, whatever bytes they hold. */
  lemma StringFormRoundTrip(names: seq<seq<Byte>>)
    ensures Stringify(false, names).Some? && Parse(Stringify(false, names).value) == Names(names)
  {
    PlainNamesSucceed(names);
    var s := Stringify(false, names).value;
    assert s == StringifyNames(false, names).value && s[0..] == s;
    ReadNames(s, false, 0, names, []);
    assert [] + names == names;
  }

  /** `Stringify` gives up on a fragment exactly when some name is not valid UTF-8. */
  lemma {:induction false} FragmentNameSucceeds(name: seq<Byte>, j: nat)
    requires j <= |name|
    ensures StringifyName(true, name, j).Some? <==> Utf8.ValidateAll(name, j)
    decreases |name| - j
  {
    hide Utf8.TailsPass, Utf8.TailMasks, Utf8.SkipBytes, PercentEncode;
    if j < |name| {
      FragmentNameSucceeds(name, Utf8.Validate(name, j).next);
      FragmentNameSucceeds(name, j + 1);
    }
  }

  lemma {:induction false} FragmentNamesSucceed(names: seq<seq<Byte>>)
    ensures StringifyNames(true, names).Some? <==> forall n <- names :: Utf8.IsUtf8(n)
  {
    hide Utf8.IsUtf8, StringifyName, Utf8.ValidateAll;
    if names != [] {
      FragmentNameSucceeds(names[0], 0);
      Utf8.ValidateAllIsRfc3629(names[0]);
      FragmentNamesSucceed(names[1..]);
      assert (forall n <- names :: Utf8.IsUtf8(n))
        <==> Utf8.IsUtf8(names[0]) && forall n <- names[1..] :: Utf8.IsUtf8(n) by {
        assert forall n :: n in names <==> n == names[0] || n in names[1..];
      }
    }
  }

  /** The fragment form exists exactly for names in valid UTF-8, and then parses back to them. */
  lemma FragmentRoundTrip(names: seq<seq<Byte>>)
    ensures Stringify(true, names).Some? <==> forall n <- names :: Utf8.IsUtf8(n)
    ensures Stringify(true, names).Some? ==> Parse(Stringify(true, names).value) == Names(names)
  {
    FragmentNamesSucceed(names);
    if Stringify(true, names).Some? {
      var s := Stringify(true, names).value;
      assert s[1..] == StringifyNames(true, names).value;
      ReadNames(s, true, 1, names, []);
      assert [] + names == names;
    }
  }

  // ---------------------------------------------------------------------------------------
  // Writing back what was read
  // ---------------------------------------------------------------------------------------

  /** A piece of the string form is just what is written for what it stands for. */
  lemma WritePiece(s: seq<Byte>, i: nat, name: seq<Byte>)
    requires i < |s| && s[i] != SLASH && ParsePiece(s, false, i).Name?
    ensures var piece := ParsePiece(s, false, i);
            && |piece.name| == 1
            && PieceText(false, name + piece.name, |name|) == Some(s[i..piece.next])
            && PieceEnd(false, name + piece.name, |name|) == |name| + 1
  {
    var piece := ParsePiece(s, false, i);
    assert (name + piece.name)[|name|] == piece.name[0];
    assert s[i..i + 1] == [s[i]];
    if s[i] == TILDE {
      assert s[i..i + 2] == [s[i], s[i + 1]];
    }
  }

  lemma {:induction false} StringifySnoc(name: seq<Byte>, b: Byte, j: nat)
    requires j <= |name|
    ensures StringifyName(false, name, j).Some? && StringifyName(false, name + [b], |name|).Some?
    ensures StringifyName(false, name + [b], j)
         == Some(StringifyName(false, name, j).value + StringifyName(false, name + [b], |name|).value)
    decreases |name| - j
  {
    hide Utf8.Validate, Utf8.TailMasks;
    PlainNameSucceeds(name, j);
    PlainNameSucceeds(name + [b], |name|);
    if j < |name| {
      assert (name + [b])[j] == name[j];
      var piece := PieceText(false, name, j).value;
      assert piece == PieceText(false, name + [b], j).value;
      hide PieceText;
      StringifySnoc(name, b, j + 1);
      var rest, last := StringifyName(false, name, j + 1).value, StringifyName(false, name + [b], |name|).value;
      assert piece + (rest + last) == piece + rest + last;
    } else {
      var last := StringifyName(false, name + [b], |name|).value;
      assert StringifyName(false, name, j) == Some([]) && [] + last == last;
    }
  }

  lemma {:induction false} WriteName(s: seq<Byte>, start: nat, i: nat, name: seq<Byte>)
    requires start <= i <= |s| && StringifyName(false, name, 0) == Some(s[start..i])
    requires ParseName(s, false, i, name).Name?
    ensures StringifyName(false, ParseName(s, false, i, name).name, 0) == Some(s[start..ParseName(s, false, i, name).next])
    decreases |s| - i
  {
    hide PieceText, ParsePiece;
    if i < |s| && s[i] != SLASH {
      var piece := ParsePiece(s, false, i);
      WritePiece(s, i, name);
      assert piece.name == [piece.name[0]];
      var longer := name + piece.name;
      assert StringifyName(false, longer, |longer|) == Some([]);
      assert StringifyName(false, longer, |name|) == Some(s[i..piece.next] + []);
      StringifySnoc(name, piece.name[0], 0);
      assert s[start..i] + (s[i..piece.next] + []) == s[start..piece.next];
      WriteName(s, start, piece.next, longer);
    }
  }

  lemma {:induction false} WriteNames(s: seq<Byte>, i: nat, names: seq<seq<Byte>>)
    requires i <= |s| && (i < |s| ==> s[i] == SLASH) && ParseTokens(s, false, i, names).Names?
    ensures names <= ParseTokens(s, false, i, names).names
    ensures StringifyNames(false, ParseTokens(s, false, i, names).names[|names|..]) == Some(s[i..])
    decreases |s| - i
  {
    hide ParseName, StringifyName;
    if i == |s| {
      assert names[|names|..] == [] && s[i..] == [];
    } else {
      var first := ParseName(s, false, i + 1, []);
      assert ParseTokens(s, false, i, names) == ParseTokens(s, false, first.next, names + [first.name]);
      hide ParseTokens, StringifyNames;
      NoName();
      assert s[i + 1..i + 1] == [];
      WriteName(s, i + 1, i + 1, []);
      WriteNames(s, first.next, names + [first.name]);
      var all := ParseTokens(s, false, i, names).names;
      assert all[|names|] == (names + [first.name])[|names|] == first.name;
      assert all[|names|..] == [first.name] + all[|names| + 1..];
      assert [SLASH] + s[i + 1..first.next] + s[first.next..] == s[i..];
      var rest := all[|names| + 1..];
      assert StringifyNames(false, rest) == Some(s[first.next..]);
      StringifyCons(first.name, rest, s[i + 1..first.next], s[first.next..]);
    }
  }

  lemma StringifyCons(name: seq<Byte>, rest: seq<seq<Byte>>, first: seq<Byte>, text: seq<Byte>)
    requires StringifyName(false, name, 0) == Some(first) && StringifyNames(false, rest) == Some(text)
    ensures StringifyNames(false, [name] + rest) == Some([SLASH] + first + text)
  {
    hide StringifyName;
    assert ([name] + rest)[1..] == rest;
  }

  lemma NoName()
    ensures StringifyName(false, [], 0) == Some([])
  {
  }

  /**
   The string form is one to one: a string not beginning with `#` is read as given names exactly
   when it is what is written for them.
   */
  lemma StringFormIsExact(s: seq<Byte>, names: seq<seq<Byte>>)
    requires Peek(s, 0) != HASH
    ensures Parse(s) == Names(names) <==> Stringify(false, names) == Some(s)
  {
    if Parse(s) == Names(names) {
      WriteNames(s, 0, []);
      assert names[0..] == names && [] + s[0..] == s;
    }
    if Stringify(false, names) == Some(s) {
      StringFormRoundTrip(names);
    }
  }

  lemma PercentCharIsUtf8(s: seq<Byte>, i: nat)
    requires PercentChar(s, i).Some?
    ensures Utf8.IsUtf8Char(PercentChar(s, i).value)
  {
    var bytes := PercentChar(s, i).value;
    hide PercentTake, PercentTakes;
    Utf8.ValidateSound(bytes, 0);
    assert Utf8.Validate(bytes, 0).next == |bytes| by {
      hide Utf8.TailsPass, Utf8.IsUtf8Char, Utf8.TailMasks;
    }
    assert bytes[0..|bytes|] == bytes;
  }

  /** Every piece of a fragment is ASCII or a character of UTF-8. */
  lemma PieceIsUtf8(s: seq<Byte>, i: nat)
    requires i < |s| && ParsePiece(s, true, i).Name?
    ensures Utf8.IsUtf8Char(ParsePiece(s, true, i).name)
  {
    if s[i] == PERCENT {
      PercentCharIsUtf8(s, i);
    }
    hide PercentChar;
  }

  lemma {:induction false} FlattenSnoc(parts: seq<seq<Byte>>, p: seq<Byte>)
    ensures Utf8.Flatten(parts + [p]) == Utf8.Flatten(parts) + p
  {
    if parts == [] {
      assert Utf8.Flatten([p]) == p + Utf8.Flatten([]);
    } else {
      FlattenSnoc(parts[1..], p);
      assert (parts + [p])[1..] == parts[1..] + [p] && (parts + [p])[0] == parts[0];
    }
  }

  lemma Utf8Snoc(s: seq<Byte>, p: seq<Byte>)
    requires Utf8.IsUtf8(s) && Utf8.IsUtf8Char(p)
    ensures Utf8.IsUtf8(s + p)
  {
    hide Utf8.IsUtf8Char;
    var parts :| Utf8.Flatten(parts) == s && forall q <- parts :: Utf8.IsUtf8Char(q);
    FlattenSnoc(parts, p);
    assert forall q <- parts + [p] :: Utf8.IsUtf8Char(q);
  }

  lemma {:induction false} NameIsUtf8(s: seq<Byte>, i: nat, name: seq<Byte>)
    requires i <= |s| && Utf8.IsUtf8(name) && ParseName(s, true, i, name).Name?
    ensures Utf8.IsUtf8(ParseName(s, true, i, name).name)
    decreases |s| - i
  {
    hide ParsePiece, Utf8.IsUtf8, Utf8.IsUtf8Char;
    if i < |s| && s[i] != SLASH {
      var piece := ParsePiece(s, true, i);
      PieceIsUtf8(s, i);
      Utf8Snoc(name, piece.name);
      NameIsUtf8(s, piece.next, name + piece.name);
    }
  }

  lemma {:induction false} NamesAreUtf8(s: seq<Byte>, i: nat, names: seq<seq<Byte>>)
    requires i <= |s| && (i < |s| ==> s[i] == SLASH) && (forall n <- names :: Utf8.IsUtf8(n))
    requires ParseTokens(s, true, i, names).Names?
    ensures forall n <- ParseTokens(s, true, i, names).names :: Utf8.IsUtf8(n)
    decreases |s| - i
  {
    hide ParseName, Utf8.IsUtf8;
    if i < |s| {
      var first := ParseName(s, true, i + 1, []);
      assert Utf8.IsUtf8([]) by {
        NothingIsUtf8();
      }
      NameIsUtf8(s, i + 1, []);
      NamesAreUtf8(s, first.next, names + [first.name]);
    }
  }

  lemma NothingIsUtf8()
    ensures Utf8.IsUtf8([])
  {
    var none: seq<seq<Byte>> := [];
    assert Utf8.Flatten(none) == [];
  }

  /** Whatever a fragment is read as is valid UTF-8, and can be written and read again: `Stringify` normalises it. */
  lemma FragmentIsNormalised(s: seq<Byte>)
    requires Peek(s, 0) == HASH && Parse(s).Names?
    ensures forall n <- Parse(s).names :: Utf8.IsUtf8(n)
    ensures Stringify(true, Parse(s).names).Some? && Parse(Stringify(true, Parse(s).names).value) == Parse(s)
  {
    hide ParseTokens, Utf8.IsUtf8, StringifyNames;
    NamesAreUtf8(s, 1, []);
    FragmentRoundTrip(Parse(s).names);
  }
}
