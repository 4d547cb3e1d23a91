/** pointer.h: the loops of `Parse` and `Stringify`, over a name buffer allocated once. */
module PointerObject {
  import opened Bytes
  import opened Pointer
  import Utf8

  /** A name is a stretch of the name buffer. */
  datatype Token = Token(name: nat, length: nat)

  predicate InBuffer(tokens: seq<Token>, limit: nat) {
    forall t <- tokens :: t.name + t.length <= limit
  }

  function NamesOf(tokens: seq<Token>, buffer: seq<Byte>): (names: seq<seq<Byte>>)
    requires InBuffer(tokens, |buffer|)
    ensures |names| == |tokens|
    ensures forall k | 0 <= k < |tokens| :: names[k] == buffer[tokens[k].name..tokens[k].name + tokens[k].length]
  {
    seq(|tokens|, k requires 0 <= k < |tokens| =>
          assert tokens[k] in tokens; buffer[tokens[k].name..tokens[k].name + tokens[k].length])
  }

  /** The number of `/` from `i` on. */
  function Slashes(s: seq<Byte>, i: nat): nat
    requires i <= |s|
    decreases |s| - i
  {
    if i == |s| then 0 else (if s[i] == SLASH then 1 else 0) + Slashes(s, i + 1)
  }

  predicate NoSlash(s: seq<Byte>, i: nat, j: nat) {
    forall k | i <= k < j && k < |s| :: s[k] != SLASH
  }

  lemma {:induction false} SlashesSkip(s: seq<Byte>, i: nat, j: nat)
    requires i <= j <= |s| && NoSlash(s, i, j)
    ensures Slashes(s, i) == Slashes(s, j)
    decreases j - i
  {
    if i < j {
      SlashesSkip(s, i + 1, j);
    }
  }

  /** The stream that turns `%XY` triplets into bytes, and remembers whether one was malformed. */
  class PercentDecodeStream {
    const source: seq<Byte>
    const head: nat
    var src: nat
    var valid: bool

    constructor (source: seq<Byte>, head: nat)
      requires head <= |source|
      ensures this.source == source && this.head == head && src == head && valid
    {
      this.source, this.head, src, valid := source, head, head, true;
    }

    /** One digit of the two. */
    static method AddHexDigit(c0: Byte, h: Byte) returns (digit: bool, c: Byte)
      ensures digit <==> HexDigit(h).Some?
      ensures digit ==> c == c0 * 16 % 256 + HexDigit(h).value
    {
      digit, c := true, (c0 * 16) % 256;
      if 48 <= h <= 57 {
        c := c + h - 48;
      } else if 65 <= h <= 70 {
        c := c + h - 65 + 10;
      } else if 97 <= h <= 102 {
        c := c + h - 97 + 10;
      } else {
        digit := false;
      }
    }

    method Take() returns (c: Byte)
      requires src <= |source|
      modifies this
      ensures old(src) <= src <= |source|
      ensures valid <==> old(valid) && PercentTake(source, old(src)).Some?
      ensures PercentTake(source, old(src)).Some? ==> PercentTake(source, old(src)) == Some(c) && src == old(src) + 3
      ensures PercentTake(source, old(src)).None? ==> c == 0
    {
      hide HexDigit;
      if Peek(source, src) != PERCENT || src + 3 > |source| {
        valid := false;
        return 0;
      }
      src := src + 1;
      ghost var start := src;
      c := 0;
      var j := 0;
      while j < 2
        invariant 0 <= j <= 2 && src == start + j && start + 2 <= |source|
        invariant valid == old(valid)
        invariant j == 0 ==> c == 0
        invariant j > 0 ==> HexDigit(source[start]).Some?
        invariant j == 1 ==> c == HexDigit(source[start]).value
        invariant j == 2 ==> HexDigit(source[start + 1]).Some?
        invariant j == 2 ==> c == HexDigit(source[start]).value * 16 + HexDigit(source[start + 1]).value
      {
        var digit: bool;
        digit, c := AddHexDigit(c, source[src]);
        if !digit {
          valid := false;
          return 0;
        }
        src := src + 1;
        j := j + 1;
      }
    }
  }

  lemma {:induction false} PercentTakesSnoc(s: seq<Byte>, i: nat, n: nat)
    ensures PercentTakes(s, i, n + 1).Some?
        <==> PercentTakes(s, i, n).Some? && PercentTake(s, i + 3 * n).Some?
    ensures PercentTakes(s, i, n + 1).Some? ==>
              PercentTakes(s, i, n + 1).value == PercentTakes(s, i, n).value + [PercentTake(s, i + 3 * n).value]
    decreases n
  {
    if n == 0 {
      assert PercentTakes(s, i + 3, 0) == Some([]);
    } else {
      PercentTakesSnoc(s, i + 3, n - 1);
      assert i + 3 + 3 * (n - 1) == i + 3 * n;
    }
  }

  lemma {:induction false} TailsPassIsForall(s: seq<Byte>, i: nat, masks: seq<bv8>)
    requires i + |masks| <= |s|
    ensures Utf8.TailsPass(s, i, masks) <==> forall k | 0 <= k < |masks| :: Utf8.Trans(s[i + k], masks[k])
    decreases |masks|
  {
    if masks != [] {
      TailsPassIsForall(s, i + 1, masks[1..]);
      assert (forall k | 0 <= k < |masks[1..]| :: Utf8.Trans(s[i + 1 + k], masks[1..][k]))
        <==> (forall k | 1 <= k < |masks| :: Utf8.Trans(s[i + k], masks[k])) by {
        assert forall k | 1 <= k < |masks| :: masks[k] == masks[1..][k - 1] && s[i + k] == s[i + 1 + (k - 1)];
      }
    }
  }

  /**
   `Validate` from the decoding stream into the buffer: every byte is copied, even those after a
   failure, and still all of them fit.
   */
  method ValidatePercent(s: seq<Byte>, i: nat, buffer: array<Byte>, name: nat) returns (ok: bool, tell: nat, end: nat)
    requires i < |s| == buffer.Length && s[i] == PERCENT && name + 2 <= i
    modifies buffer
    ensures buffer[..name] == old(buffer[..name])
    ensures ok <==> PercentChar(s, i).Some?
    ensures ok ==> tell == 3 * |PercentChar(s, i).value| && end == name + |PercentChar(s, i).value| <= buffer.Length
    ensures ok ==> buffer[name..end] == PercentChar(s, i).value
  {
    hide PercentTake;
    var stream := new PercentDecodeStream(s, i);
    var c := stream.Take();
    buffer[name] := c;
    end := name + 1;
    ok := true;
    PercentTakesSnoc(s, i, 0);
    if c >= 0x80 {
      assert PercentTake(s, i) == Some(c);
      assert i + 3 <= |s| by { PercentTakeFits(s, i); }
      match Utf8.TailMasks(c) {
        case None =>
          ok := false;
        case Some(masks) =>
          ok, end := ValidateTails(stream, c, masks, buffer, name);
      }
    } else if PercentTake(s, i).Some? {
      assert buffer[name..end] == [c];
    }
    ok := ok && stream.valid;
    tell := stream.src - i;
  }

  lemma PercentTakeFits(s: seq<Byte>, i: nat)
    ensures PercentTake(s, i).Some? ==> i + 3 <= |s|
  {
  }

  /** The bytes after the first pass the masks. */
  predicate MasksPass(bytes: seq<Byte>, masks: seq<bv8>)
    requires |bytes| == |masks| + 1
  {
    forall m | 0 <= m < |masks| :: Utf8.Trans(bytes[1 + m], masks[m])
  }

  lemma MasksPassSnoc(bytes: seq<Byte>, masks: seq<bv8>, c: Byte, mask: bv8)
    requires |bytes| == |masks| + 1
    ensures MasksPass(bytes + [c], masks + [mask]) <==> MasksPass(bytes, masks) && Utf8.Trans(c, mask)
  {
    var all, allMasks := bytes + [c], masks + [mask];
    assert Utf8.Trans(all[1 + |masks|], allMasks[|masks|]) == Utf8.Trans(c, mask);
    forall m | 0 <= m < |masks|
      ensures Utf8.Trans(all[1 + m], allMasks[m]) == Utf8.Trans(bytes[1 + m], masks[m])
    {
    }
  }

  method ValidateTails(stream: PercentDecodeStream, lead: Byte, masks: seq<bv8>, buffer: array<Byte>, name: nat)
    returns (ok: bool, end: nat)
    requires stream.head + 3 == stream.src <= |stream.source| == buffer.Length && stream.valid
    requires name + 2 <= stream.head
    requires lead >= 0x80 && Utf8.TailMasks(lead) == Some(masks)
    requires PercentTake(stream.source, stream.head) == Some(lead) && buffer[name] == lead
    modifies stream, buffer
    ensures buffer[..name] == old(buffer[..name])
    ensures end == name + CharLength(lead) <= buffer.Length
    ensures stream.head <= stream.src
    ensures ok && stream.valid <==> PercentChar(stream.source, stream.head).Some?
    ensures ok && stream.valid ==> stream.src == stream.head + 3 * CharLength(lead)
    ensures ok && stream.valid ==> buffer[name..end] == PercentChar(stream.source, stream.head).value
  {
    hide PercentTake, PercentTakes, MasksPass, PercentChar, CharLength, Utf8.Trans, Utf8.TailMasks;
    var s, i := stream.source, stream.head;
    ok := true;
    end := name + 1;
    var k := 0;
    PercentTakesOne(s, i);
    LeadLength(lead);
    assert buffer[name..end] == [lead];
    assert masks[..0] == [] && MasksPass([lead], []) by { MasksPassNone(lead); }
    while k < |masks|
      invariant 0 <= k <= |masks| && end == name + 1 + k && i <= stream.src <= |s|
      invariant buffer[..name] == old(buffer[..name])
      invariant stream.valid <==> PercentTakes(s, i, k + 1).Some?
      invariant stream.valid ==> stream.src == i + 3 * (k + 1)
      invariant stream.valid ==> buffer[name..end] == PercentTakes(s, i, k + 1).value
      invariant stream.valid ==> (ok <==> MasksPass(PercentTakes(s, i, k + 1).value, masks[..k]))
    {
      PercentTakesSnoc(s, i, k + 1);
      var c := stream.Take();
      ghost var before := buffer[name..end];
      buffer[end] := c;
      assert buffer[name..end + 1] == before + [c];
      ok := ok && Utf8.Trans(c, masks[k]);
      if stream.valid {
        MasksPassSnoc(before, masks[..k], c, masks[k]);
        assert masks[..k + 1] == masks[..k] + [masks[k]];
      }
      end := end + 1;
      k := k + 1;
    }
    assert masks[..k] == masks;
    TakesDecide(s, i, masks);
  }

  lemma PercentTakesOne(s: seq<Byte>, i: nat)
    requires PercentTake(s, i).Some?
    ensures PercentTakes(s, i, 1) == Some([PercentTake(s, i).value])
  {
    assert PercentTakes(s, i + 3, 0) == Some([]);
    assert [PercentTake(s, i).value] + [] == [PercentTake(s, i).value];
  }

  lemma LeadLength(lead: Byte)
    requires lead >= 0x80 && Utf8.TailMasks(lead).Some?
    ensures CharLength(lead) == 1 + |Utf8.TailMasks(lead).value|
  {
  }

  lemma MasksPassNone(lead: Byte)
    ensures MasksPass([lead], [])
  {
  }

  /** The character is well formed when its triplets are and the masks pass. */
  lemma TakesDecide(s: seq<Byte>, i: nat, masks: seq<bv8>)
    requires PercentTake(s, i).Some? && PercentTake(s, i).value >= 0x80
    requires Utf8.TailMasks(PercentTake(s, i).value) == Some(masks)
    ensures PercentTakes(s, i, |masks| + 1).None? ==> PercentChar(s, i).None?
    ensures PercentTakes(s, i, |masks| + 1).Some? ==>
              var bytes := PercentTakes(s, i, |masks| + 1).value;
              PercentChar(s, i) == if MasksPass(bytes, masks) then Some(bytes) else None
  {
    hide PercentTake;
    if PercentTakes(s, i, |masks| + 1).Some? {
      TailsPassIsForall(PercentTakes(s, i, |masks| + 1).value, 1, masks);
    }
  }

  /** What a piece of a name consumes holds no `/`. */
  lemma PieceHasNoSlash(s: seq<Byte>, fragment: bool, i: nat)
    requires i < |s| && s[i] != SLASH && ParsePiece(s, fragment, i).Name?
    ensures NoSlash(s, i, ParsePiece(s, fragment, i).next)
  {
    if fragment && s[i] == PERCENT {
      var bytes := PercentChar(s, i).value;
      TripletsHaveNoSlash(s, i, |bytes|);
      if |bytes| == 1 {
        assert ParsePiece(s, fragment, i) == Pointer.Unescape(s, i + 3, bytes[0]);
      }
    }
  }

  lemma {:induction false} TripletsHaveNoSlash(s: seq<Byte>, i: nat, n: nat)
    requires PercentTakes(s, i, n).Some?
    ensures NoSlash(s, i, i + 3 * n)
    decreases n
  {
    if n > 0 {
      assert PercentTake(s, i).Some? && PercentTakes(s, i + 3, n - 1).Some?;
      TripletsHaveNoSlash(s, i + 3, n - 1);
    }
  }

  /**
   One pass of the inner loop.  The byte written never lands beyond the bytes already read, so
   the buffer, as long as the source, is never overrun.
   */
  method ReadTokenPiece(s: seq<Byte>, fragment: bool, i0: nat, buffer: array<Byte>, name0: nat)
    returns (failed: Option<ErrorCode>, i: nat, name: nat)
    requires i0 < |s| == buffer.Length && name0 + (if fragment then 2 else 1) <= i0
    modifies buffer
    ensures buffer[..name0] == old(buffer[..name0])
    ensures ParsePiece(s, fragment, i0).BadName? ==>
              failed == Some(ParsePiece(s, fragment, i0).code) && i == ParsePiece(s, fragment, i0).offset
    ensures ParsePiece(s, fragment, i0).Name? ==>
              && failed == None && i == ParsePiece(s, fragment, i0).next <= |s|
              && name0 <= name && name - name0 <= i - i0
              && buffer[name0..name] == ParsePiece(s, fragment, i0).name
  {
    hide PercentChar;
    i, name, failed := i0, name0, None;
    var c := s[i];
    if fragment {
      if c == PERCENT {
        var ok, tell, end := ValidatePercent(s, i, buffer, name);
        if !ok {
          failed := Some(InvalidPercentEncoding);
          return;
        }
        i := i + tell - 1;
        if end - name == 1 {
          c := buffer[name];
          assert buffer[name..end] == [c];
        } else {
          name := end;
          i := i + 1;
          return;
        }
      } else if NeedPercentEncode(c) {
        failed := Some(CharacterMustPercentEncode);
        return;
      }
    }
    i := i + 1;
    ghost var j, consumed := i, c;
    assert ParsePiece(s, fragment, i0) == Pointer.Unescape(s, j, consumed);
    if c == TILDE {
      if i < |s| {
        c := s[i];
        if c == 48 {
          c := TILDE;
        } else if c == 49 {
          c := SLASH;
        } else {
          failed := Some(InvalidEscape);
          return;
        }
        i := i + 1;
      } else {
        failed := Some(InvalidEscape);
        return;
      }
    }
    buffer[name] := c;
    name := name + 1;
    assert buffer[name0..name] == [c];
  }

  /** The inner loop: one reference token. */
  method ReadToken(s: seq<Byte>, fragment: bool, i0: nat, buffer: array<Byte>, begin: nat)
    returns (failed: Option<ErrorCode>, i: nat, name: nat)
    requires i0 <= |s| == buffer.Length && begin + (if fragment then 2 else 1) <= i0
    modifies buffer
    ensures buffer[..begin] == old(buffer[..begin])
    ensures ParseName(s, fragment, i0, []).BadName? ==>
              failed == Some(ParseName(s, fragment, i0, []).code) && i == ParseName(s, fragment, i0, []).offset
    ensures ParseName(s, fragment, i0, []).Name? ==>
              && failed == None && i == ParseName(s, fragment, i0, []).next
              && begin <= name && name + (if fragment then 2 else 1) <= i && NoSlash(s, i0, i)
              && buffer[begin..name] == ParseName(s, fragment, i0, []).name
  {
    hide ParsePiece;
    i, name, failed := i0, begin, None;
    assert buffer[begin..name] == [];
    while i < |s| && s[i] != SLASH
      invariant i0 <= i <= |s| && begin <= name && name + (if fragment then 2 else 1) <= i
      invariant buffer[..begin] == old(buffer[..begin]) && NoSlash(s, i0, i) && failed == None
      invariant ParseName(s, fragment, i0, []) == ParseName(s, fragment, i, buffer[begin..name])
    {
      ghost var before, from := buffer[begin..name], i;
      ghost var kept, end := buffer[..name], name;
      failed, i, name := ReadTokenPiece(s, fragment, i, buffer, name);
      assert buffer[..begin] == kept[..begin] == buffer[..end][..begin];
      if failed != None {
        return;
      }
      PieceHasNoSlash(s, fragment, from);
      assert buffer[begin..end] == kept[begin..] == buffer[..end][begin..];
      assert buffer[begin..name] == before + buffer[end..name];
    }
  }

  /** The tokens lie below `name`, each followed by a NUL. */
  predicate Terminated(tokens: seq<Token>, buffer: seq<Byte>, name: nat) {
    name <= |buffer| && forall t <- tokens :: t.name + t.length < name && buffer[t.name + t.length] == 0
  }

  /** One pass of the outer loop. */
  method ReadReference(s: seq<Byte>, fragment: bool, i0: nat, nameBuffer: array<Byte>, name0: nat,
                       tokens: array<Token>, token: nat)
    returns (failed: Option<ErrorCode>, i: nat, name: nat)
    requires i0 < |s| == nameBuffer.Length && s[i0] == SLASH && name0 + (if fragment then 1 else 0) <= i0
    requires token + Slashes(s, i0) == tokens.Length
    requires Terminated(tokens[..token], nameBuffer[..], name0)
    modifies nameBuffer, tokens
    ensures failed.Some? ==>
              ParseTokens(s, fragment, i0, old(NamesOf(tokens[..token], nameBuffer[..]))) == Bad(failed.value, i)
    ensures failed.None? ==>
              && i0 < i <= |s| && (i < |s| ==> s[i] == SLASH) && name + (if fragment then 1 else 0) <= i
              && token + 1 + Slashes(s, i) == tokens.Length
              && Terminated(tokens[..token + 1], nameBuffer[..], name)
              && ParseTokens(s, fragment, i0, old(NamesOf(tokens[..token], nameBuffer[..])))
              == ParseTokens(s, fragment, i, NamesOf(tokens[..token + 1], nameBuffer[..]))
  {
    hide ParseName, NamesOf;
    ghost var done, kept := tokens[..token], nameBuffer[..];
    var start := i0 + 1;
    failed, i, name := ReadToken(s, fragment, start, nameBuffer, name0);
    if failed.None? {
      SlashesSkip(s, start, i);
      nameBuffer[name] := 0;
      assert nameBuffer[..name0] == kept[..name0];
      tokens[token] := Token(name0, name - name0);
      assert tokens[..token + 1] == done + [Token(name0, name - name0)];
      ghost var now := nameBuffer[..];
      assert now[..name0] == kept[..name0] && now[name0..name] == ParseName(s, fragment, start, []).name && now[name] == 0;
      hide Terminated, InBuffer, ParseTokens;
      Extended(done, name0, name, kept, now);
      TokensNext(s, fragment, i0, NamesOf(done, kept));
      name := name + 1;
    } else {
      TokensNext(s, fragment, i0, NamesOf(done, kept));
    }
  }

  lemma TokensNext(s: seq<Byte>, fragment: bool, i: nat, names: seq<seq<Byte>>)
    requires i < |s| && s[i] == SLASH
    ensures ParseName(s, fragment, i + 1, []).BadName? ==>
              ParseTokens(s, fragment, i, names)
              == Bad(ParseName(s, fragment, i + 1, []).code, ParseName(s, fragment, i + 1, []).offset)
    ensures ParseName(s, fragment, i + 1, []).Name? ==>
              ParseTokens(s, fragment, i, names)
              == ParseTokens(s, fragment, ParseName(s, fragment, i + 1, []).next,
                             names + [ParseName(s, fragment, i + 1, []).name])
  {
  }

  lemma TokensEnd(s: seq<Byte>, fragment: bool, names: seq<seq<Byte>>)
    ensures ParseTokens(s, fragment, |s|, names) == Names(names)
  {
  }

  class GenericPointer {
    var nameBuffer: array<Byte>
    var tokens: array<Token>
    var parseErrorCode: Option<ErrorCode>
    var parseErrorOffset: nat

    constructor ()
      ensures nameBuffer.Length == 0 && tokens.Length == 0 && parseErrorCode == None
    {
      nameBuffer := new Byte[0];
      tokens := new Token[0];
      parseErrorCode, parseErrorOffset := None, 0;
    }

    /** The first loop of `Parse`. */
    method CountTokens(s: seq<Byte>) returns (tokenCount: nat)
      ensures tokenCount == Slashes(s, 0)
    {
      tokenCount := 0;
      var i := 0;
      while i < |s|
        invariant 0 <= i <= |s| && tokenCount + Slashes(s, i) == Slashes(s, 0)
      {
        if s[i] == SLASH {
          tokenCount := tokenCount + 1;
        }
        i := i + 1;
      }
    }

    /**
     `Parse`.  On every input the name buffer holds `|s|` bytes and every write is within it; the
     tokens read are exactly as many as the `/` counted beforehand; each name is followed by a NUL.
     */
    method Parse(s: seq<Byte>)
      modifies this
      ensures Pointer.Parse(s).Bad? ==>
                && parseErrorCode == Some(Pointer.Parse(s).code) && parseErrorOffset == Pointer.Parse(s).offset
                && tokens.Length == 0 && nameBuffer.Length == 0
      ensures Pointer.Parse(s).Names? ==>
                && parseErrorCode == None && nameBuffer.Length == |s| && tokens.Length == Slashes(s, 0)
                && InBuffer(tokens[..], nameBuffer.Length)
                && NamesOf(tokens[..], nameBuffer[..]) == Pointer.Parse(s).names
                && forall t <- tokens[..] :: t.name + t.length < nameBuffer.Length && nameBuffer[t.name + t.length] == 0
    {
      hide ParseTokens, NamesOf;
      var tokenCount := CountTokens(s);
      tokens := new Token[tokenCount];
      nameBuffer := new Byte[|s|];
      var i: nat, name: nat, token: nat := 0, 0, 0;
      var fragment := false;
      if Peek(s, i) == HASH {
        fragment := true;
        i := i + 1;
        SlashesSkip(s, 0, 1);
      }
      if i != |s| && s[i] != SLASH {
        Fail(TokenMustBeginWithSolidus, i);
        return;
      }
      assert NamesOf(tokens[..token], nameBuffer[..]) == [];
      while i < |s|
        invariant i <= |s| == nameBuffer.Length && (i < |s| ==> s[i] == SLASH)
        invariant fresh(tokens) && fresh(nameBuffer) && tokens.Length == Slashes(s, 0)
        invariant name + (if fragment then 1 else 0) <= i
        invariant token + Slashes(s, i) == tokens.Length
        invariant Terminated(tokens[..token], nameBuffer[..], name)
        invariant Pointer.Parse(s) == ParseTokens(s, fragment, i, NamesOf(tokens[..token], nameBuffer[..]))
      {
        var failed: Option<ErrorCode>;
        failed, i, name := ReadReference(s, fragment, i, nameBuffer, name, tokens, token);
        if failed.Some? {
          Fail(failed.value, i);
          return;
        }
        token := token + 1;
      }
      parseErrorCode := None;
      TokensEnd(s, fragment, NamesOf(tokens[..token], nameBuffer[..]));
      assert tokens[..token] == tokens[..];
    }

    /** What follows `error:`. */
    method Fail(code: ErrorCode, offset: nat)
      modifies this
      ensures parseErrorCode == Some(code) && parseErrorOffset == offset
      ensures tokens.Length == 0 && nameBuffer.Length == 0
    {
      tokens := new Token[0];
      nameBuffer := new Byte[0];
      parseErrorCode, parseErrorOffset := Some(code), offset;
    }
  }

  /** One more token, in a buffer that kept what lies below it. */
  /** Tokens that end before `begin` do not see what changes after it. */
  lemma SameNames(done: seq<Token>, begin: nat, before: seq<Byte>, after: seq<Byte>)
    requires begin <= |after| == |before| && before[..begin] == after[..begin] && Terminated(done, before, begin)
    ensures Terminated(done, after, begin) && InBuffer(done, |before|) && NamesOf(done, after) == NamesOf(done, before)
  {
    hide NamesOf;
    forall t | t in done
      ensures after[t.name..t.name + t.length] == before[t.name..t.name + t.length]
      ensures after[t.name + t.length] == before[t.name + t.length]
    {
      assert after[t.name..t.name + t.length] == after[..begin][t.name..t.name + t.length];
      assert before[t.name..t.name + t.length] == before[..begin][t.name..t.name + t.length];
      assert after[..begin][t.name + t.length] == before[..begin][t.name + t.length];
    }
  }

  lemma NamesSnoc(done: seq<Token>, t: Token, buffer: seq<Byte>)
    requires InBuffer(done, |buffer|) && t.name + t.length <= |buffer|
    ensures InBuffer(done + [t], |buffer|)
    ensures NamesOf(done + [t], buffer) == NamesOf(done, buffer) + [buffer[t.name..t.name + t.length]]
  {
  }

  lemma Extended(done: seq<Token>, begin: nat, name: nat, before: seq<Byte>, after: seq<Byte>)
    requires begin <= name < |after| == |before| && before[..begin] == after[..begin] && after[name] == 0
    requires Terminated(done, before, begin)
    ensures InBuffer(done, |before|) && Terminated(done + [Token(begin, name - begin)], after, name + 1)
    ensures InBuffer(done + [Token(begin, name - begin)], |after|)
    ensures NamesOf(done + [Token(begin, name - begin)], after) == NamesOf(done, before) + [after[begin..name]]
  {
    hide NamesOf;
    SameNames(done, begin, before, after);
    NamesSnoc(done, Token(begin, name - begin), after);
  }

  /** `Stringify<uriFragment>`, written to a stream byte by byte. */
  method Stringify(fragment: bool, names: seq<seq<Byte>>) returns (ok: bool, os: seq<Byte>)
    ensures ok <==> Pointer.Stringify(fragment, names).Some?
    ensures ok ==> os == Pointer.Stringify(fragment, names).value
  {
    hide StringifyName;
    os := if fragment then [HASH] else [];
    var t := 0;
    while t < |names|
      invariant 0 <= t <= |names|
      invariant Prepend(os, StringifyNames(fragment, names[t..])) == Pointer.Stringify(fragment, names)
    {
      ghost var before := os;
      assert names[t..][0] == names[t] && names[t..][1..] == names[t + 1..];
      ok, os := StringifyOne(fragment, names[t], os + [SLASH]);
      if !ok {
        return;
      }
      assert Prepend(os, StringifyNames(fragment, names[t + 1..]))
          == Prepend(before, StringifyNames(fragment, names[t..])) by {
        if StringifyNames(fragment, names[t + 1..]).Some? {
          var first, rest := StringifyName(fragment, names[t], 0).value, StringifyNames(fragment, names[t + 1..]).value;
          assert before + [SLASH] + first + rest == before + ([SLASH] + first + rest);
        }
      }
      t := t + 1;
    }
    ok := true;
    assert names[t..] == [];
    assert os + [] == os;
  }

  function Prepend(before: seq<Byte>, r: Option<seq<Byte>>): Option<seq<Byte>> {
    match r case None => None case Some(text) => Some(before + text)
  }

  /** One turn of the inner loop: a piece of the name. */
  method StringifyPiece(fragment: bool, name: seq<Byte>, j: nat, os0: seq<Byte>)
    returns (ok: bool, os: seq<Byte>, next: nat)
    requires j < |name|
    ensures ok <==> PieceText(fragment, name, j).Some?
    ensures ok ==> os == os0 + PieceText(fragment, name, j).value && next == PieceEnd(fragment, name, j)
  {
    hide Utf8.Validate, PercentEncode;
    os, next, ok := os0, j, true;
    var c := name[j];
    if c == TILDE {
      os := os + [TILDE] + [48];
    } else if c == SLASH {
      os := os + [TILDE] + [49];
    } else if fragment && NeedPercentEncode(c) {
      var checked := Utf8.Validate(name, j);
      os := EncodeBytes(os, name[j..checked.next]);
      if !checked.ok {
        return false, os, j;
      }
      next := checked.next - 1;
    } else {
      os := os + [c];
    }
    next := next + 1;
  }

  method StringifyOne(fragment: bool, name: seq<Byte>, os0: seq<Byte>) returns (ok: bool, os: seq<Byte>)
    ensures ok <==> StringifyName(fragment, name, 0).Some?
    ensures ok ==> os == os0 + StringifyName(fragment, name, 0).value
  {
    hide PieceText, PieceEnd;
    os := os0;
    ok := true;
    var j := 0;
    assert os + [] == os;
    while j < |name|
      invariant 0 <= j <= |name|
      invariant Prepend(os, StringifyName(fragment, name, j)) == Prepend(os0, StringifyName(fragment, name, 0))
    {
      ghost var before, piece := os, PieceText(fragment, name, j);
      ghost var rest := StringifyName(fragment, name, PieceEnd(fragment, name, j));
      ok, os, j := StringifyPiece(fragment, name, j, os);
      if !ok {
        return;
      }
      if rest.Some? {
        assert before + (piece.value + rest.value) == os + rest.value;
      }
    }
    assert os + [] == os;
  }

  /** `PercentEncodeStream::Put`, for each byte that `Validate` copies. */
  method EncodeBytes(os0: seq<Byte>, bytes: seq<Byte>) returns (os: seq<Byte>)
    ensures os == os0 + PercentEncode(bytes)
  {
    os := os0;
    var k := 0;
    assert bytes[0..] == bytes;
    while k < |bytes|
      invariant 0 <= k <= |bytes|
      invariant os + PercentEncode(bytes[k..]) == os0 + PercentEncode(bytes)
    {
      ghost var before := os;
      var u := bytes[k];
      os := os + [PERCENT] + [HexDigitOf(u / 16)] + [HexDigitOf(u % 16)];
      assert bytes[k..][1..] == bytes[k + 1..];
      assert os + PercentEncode(bytes[k + 1..]) == before + PercentEncode(bytes[k..]);
      k := k + 1;
    }
    assert os + [] == os;
  }
}
