/** encodings.h: the codec as it runs over an input and an output stream, byte by byte. */
module Utf8Stream {
  import opened Bytes
  import Utf8

  class InputStream {
    const src: seq<Byte>
    var pos: nat

    constructor (src: seq<Byte>)
      ensures this.src == src && pos == 0
    {
      this.src, pos := src, 0;
    }

    method Take() returns (c: Byte)
      requires pos <= |src|
      modifies this
      ensures c == Peek(src, old(pos)) && pos == Advance(src, old(pos)) <= |src|
    {
      c := if pos < |src| then src[pos] else 0;
      if pos < |src| {
        pos := pos + 1;
      }
    }
  }

  class OutputStream {
    var bytes: seq<Byte>

    constructor ()
      ensures bytes == []
    {
      bytes := [];
    }

    method Put(c: Byte)
      modifies this
      ensures bytes == old(bytes) + [c]
    {
      bytes := bytes + [c];
    }
  }

  /** The bytes that `n` takes give, the NULs past the end included. */
  function Taken(s: seq<Byte>, i: nat, n: nat): seq<Byte>
    decreases n
  {
    if n == 0 then [] else [Peek(s, i)] + Taken(s, Advance(s, i), n - 1)
  }

  lemma {:induction false} TakenWithin(s: seq<Byte>, i: nat, n: nat)
    requires i + n <= |s|
    ensures Taken(s, i, n) == s[i..i + n]
    decreases n
  {
    if n > 0 {
      TakenWithin(s, i + 1, n - 1);
      assert s[i..i + n] == [s[i]] + s[i + 1..i + n];
    }
  }

  /** `Encode`. */
  method Encode(os: OutputStream, codepoint: nat)
    requires codepoint <= 0x10FFFF
    modifies os
    ensures os.bytes == old(os.bytes) + Utf8.Encode(codepoint)
  {
    if codepoint <= 0x7F {
      os.Put(codepoint);
    } else if codepoint <= 0x7FF {
      os.Put(0xC0 + codepoint / 64);
      os.Put(0x80 + codepoint % 64);
    } else if codepoint <= 0xFFFF {
      os.Put(0xE0 + codepoint / 4096);
      os.Put(0x80 + codepoint / 64 % 64);
      os.Put(0x80 + codepoint % 64);
    } else {
      os.Put(0xF0 + codepoint / 262144);
      os.Put(0x80 + codepoint / 4096 % 64);
      os.Put(0x80 + codepoint / 64 % 64);
      os.Put(0x80 + codepoint % 64);
    }
  }

  /** `COPY` and `TRANS(mask)` of the validator. */
  method CopyTrans(input: InputStream, os: OutputStream, mask: bv8, result: bool) returns (r: bool)
    requires input.pos <= |input.src|
    modifies input, os
    ensures input.pos == Advance(input.src, old(input.pos)) <= |input.src|
    ensures os.bytes == old(os.bytes) + [Peek(input.src, old(input.pos))]
    ensures r == (result && Utf8.Trans(Peek(input.src, old(input.pos)), mask))
  {
    var c := input.Take();
    os.Put(c);
    r := result && Utf8.Trans(c, mask);
  }

  lemma OneTail(s: seq<Byte>, i: nat, m1: bv8)
    requires i <= |s|
    ensures Utf8.TailsPass(s, i, [m1]) == Utf8.Trans(Peek(s, i), m1)
    ensures Utf8.SkipBytes(s, i, 1) == Advance(s, i)
    ensures Taken(s, i, 1) == [Peek(s, i)]
  {
  }

  lemma TwoTails(s: seq<Byte>, i: nat, m1: bv8, m2: bv8)
    requires i <= |s|
    ensures Utf8.TailsPass(s, i, [m1, m2]) == (Utf8.Trans(Peek(s, i), m1) && Utf8.Trans(Peek(s, Advance(s, i)), m2))
    ensures Utf8.SkipBytes(s, i, 2) == Advance(s, Advance(s, i))
    ensures Taken(s, i, 2) == [Peek(s, i), Peek(s, Advance(s, i))]
  {
    OneTail(s, Advance(s, i), m2);
    assert [m1, m2][1..] == [m2];
  }

  lemma ThreeTails(s: seq<Byte>, i: nat, m1: bv8, m2: bv8, m3: bv8)
    requires i <= |s|
    ensures Utf8.TailsPass(s, i, [m1, m2, m3])
         == (Utf8.Trans(Peek(s, i), m1) && Utf8.Trans(Peek(s, Advance(s, i)), m2)
             && Utf8.Trans(Peek(s, Advance(s, Advance(s, i))), m3))
    ensures Utf8.SkipBytes(s, i, 3) == Advance(s, Advance(s, Advance(s, i)))
    ensures Taken(s, i, 3) == [Peek(s, i), Peek(s, Advance(s, i)), Peek(s, Advance(s, Advance(s, i)))]
  {
    TwoTails(s, Advance(s, i), m2, m3);
    assert [m1, m2, m3][1..] == [m2, m3];
  }

  method CopyOne(input: InputStream, os: OutputStream, m1: bv8) returns (result: bool)
    requires input.pos <= |input.src|
    modifies input, os
    ensures CopyDone(input, old(input.pos), [m1], result) && os.bytes == old(os.bytes) + Taken(input.src, old(input.pos), 1)
  {
    OneTail(input.src, input.pos, m1);
    hide Utf8.Trans;
    result := CopyTrans(input, os, m1, true);
  }

  method CopyTwo(input: InputStream, os: OutputStream, m1: bv8, m2: bv8) returns (result: bool)
    requires input.pos <= |input.src|
    modifies input, os
    ensures CopyDone(input, old(input.pos), [m1, m2], result) && os.bytes == old(os.bytes) + Taken(input.src, old(input.pos), 2)
  {
    TwoTails(input.src, input.pos, m1, m2);
    hide Utf8.Trans;
    result := CopyTrans(input, os, m1, true);
    result := CopyTrans(input, os, m2, result);
  }

  method CopyThree(input: InputStream, os: OutputStream, m1: bv8, m2: bv8, m3: bv8) returns (result: bool)
    requires input.pos <= |input.src|
    modifies input, os
    ensures CopyDone(input, old(input.pos), [m1, m2, m3], result) && os.bytes == old(os.bytes) + Taken(input.src, old(input.pos), 3)
  {
    ThreeTails(input.src, input.pos, m1, m2, m3);
    hide Utf8.Trans;
    result := CopyTrans(input, os, m1, true);
    result := CopyTrans(input, os, m2, result);
    result := CopyTrans(input, os, m3, result);
  }

  /** The tail bytes are read, and whether they pass is known. */
  predicate CopyDone(input: InputStream, from: nat, masks: seq<bv8>, result: bool)
    requires from <= |input.src|
    reads input
  {
    input.pos == Utf8.SkipBytes(input.src, from, |masks|) && result == Utf8.TailsPass(input.src, from, masks)
  }

  /** `Validate`: says whether a character is well formed, and copies what it reads either way. */
  method Validate(input: InputStream, os: OutputStream) returns (ok: bool)
    requires input.pos <= |input.src|
    modifies input, os
    ensures Utf8.Checked(ok, input.pos) == Utf8.Validate(input.src, old(input.pos))
    ensures ok && old(input.pos) < |input.src| ==> os.bytes == old(os.bytes) + input.src[old(input.pos)..input.pos]
  {
    ghost var start := input.pos;
    var c := input.Take();
    os.Put(c);
    if c < 0x80 {
      return true;
    }
    match Utf8.GetRange(c) {
      case 2 => ok := CopyOne(input, os, 0x70);
      case 3 => ok := CopyTwo(input, os, 0x70, 0x70);
      case 4 => ok := CopyTwo(input, os, 0x50, 0x70);
      case 5 => ok := CopyThree(input, os, 0x10, 0x70, 0x70);
      case 6 => ok := CopyThree(input, os, 0x70, 0x70, 0x70);
      case 10 => ok := CopyTwo(input, os, 0x20, 0x70);
      case 11 => ok := CopyThree(input, os, 0x60, 0x70, 0x70);
      case _ => ok := false;
    }
    if ok {
      CopiedIsCharacter(input.src, start, old(os.bytes), os.bytes);
    }
  }

  /** The byte read past the end is zero and passes no mask, so accepted tails lie within the input. */
  lemma {:induction false} TailsLieWithin(s: seq<Byte>, i: nat, masks: seq<bv8>)
    requires i <= |s| && Utf8.TailsPass(s, i, masks)
    ensures i + |masks| <= |s|
    decreases |masks|
  {
    if masks != [] {
      TailsLieWithin(s, Advance(s, i), masks[1..]);
    }
  }

  /** So what was taken is a slice of the input. */
  lemma CopiedIsCharacter(s: seq<Byte>, i: nat, before: seq<Byte>, after: seq<Byte>)
    requires i < |s| && s[i] >= 0x80 && Utf8.Validate(s, i).ok
    requires after == before + [s[i]] + Taken(s, i + 1, |Utf8.TailMasks(s[i]).value|)
    ensures after == before + s[i..Utf8.Validate(s, i).next]
  {
    hide Utf8.Validate, Utf8.TailMasks, Utf8.TailsPass, Taken;
    ValidHasTails(s, i);
    var n := |Utf8.TailMasks(s[i]).value|;
    TakenWithin(s, i + 1, n);
    SliceGrows(s, i, i + 1 + n, before);
  }

  lemma SliceGrows(s: seq<Byte>, i: nat, j: nat, before: seq<Byte>)
    requires i < j <= |s|
    ensures before + [s[i]] + s[i + 1..j] == before + s[i..j]
  {
    assert s[i..j] == [s[i]] + s[i + 1..j];
  }

  lemma ValidHasTails(s: seq<Byte>, i: nat)
    requires i < |s| && s[i] >= 0x80 && Utf8.Validate(s, i).ok
    ensures Utf8.TailMasks(s[i]).Some?
    ensures Utf8.Validate(s, i).next == i + 1 + |Utf8.TailMasks(s[i]).value| <= |s|
  {
    hide Utf8.TailMasks, Utf8.TailsPass;
    TailsLieWithin(s, i + 1, Utf8.TailMasks(s[i]).value);
  }

  /** `COPY` and `TRANS(mask)` of the decoder, which gathers six bits from the byte. */
  method GatherTrans(input: InputStream, codepoint: nat, mask: bv8, result: bool) returns (r: bool, next: nat)
    requires input.pos <= |input.src|
    modifies input
    ensures input.pos == Advance(input.src, old(input.pos)) <= |input.src|
    ensures next == codepoint * 64 + Peek(input.src, old(input.pos)) % 64
    ensures r == (result && Utf8.Trans(Peek(input.src, old(input.pos)), mask))
  {
    var c := input.Take();
    next := codepoint * 64 + c % 64;
    r := result && Utf8.Trans(c, mask);
  }

  method GatherOne(input: InputStream, codepoint0: nat, m1: bv8) returns (result: bool, codepoint: nat)
    requires input.pos <= |input.src|
    modifies input
    ensures CopyDone(input, old(input.pos), [m1], result)
    ensures codepoint == Utf8.Accumulate(input.src, old(input.pos), 1, codepoint0)
  {
    OneTail(input.src, input.pos, m1);
    hide Utf8.Trans;
    ghost var i := input.pos;
    result, codepoint := GatherTrans(input, codepoint0, m1, true);
    assert Utf8.Accumulate(input.src, i, 1, codepoint0) == Utf8.Accumulate(input.src, Advance(input.src, i), 0, codepoint);
  }

  method GatherTwo(input: InputStream, codepoint0: nat, m1: bv8, m2: bv8) returns (result: bool, codepoint: nat)
    requires input.pos <= |input.src|
    modifies input
    ensures CopyDone(input, old(input.pos), [m1, m2], result)
    ensures codepoint == Utf8.Accumulate(input.src, old(input.pos), 2, codepoint0)
  {
    TwoTails(input.src, input.pos, m1, m2);
    hide Utf8.Trans;
    ghost var i := input.pos;
    result, codepoint := GatherTrans(input, codepoint0, m1, true);
    ghost var first, j := codepoint, input.pos;
    result, codepoint := GatherTrans(input, codepoint, m2, result);
    assert Utf8.Accumulate(input.src, j, 1, first) == Utf8.Accumulate(input.src, Advance(input.src, j), 0, codepoint);
    assert Utf8.Accumulate(input.src, i, 2, codepoint0) == Utf8.Accumulate(input.src, j, 1, first);
  }

  method GatherThree(input: InputStream, codepoint0: nat, m1: bv8, m2: bv8, m3: bv8) returns (result: bool, codepoint: nat)
    requires input.pos <= |input.src|
    modifies input
    ensures CopyDone(input, old(input.pos), [m1, m2, m3], result)
    ensures codepoint == Utf8.Accumulate(input.src, old(input.pos), 3, codepoint0)
  {
    ThreeTails(input.src, input.pos, m1, m2, m3);
    hide Utf8.Trans;
    ghost var i := input.pos;
    result, codepoint := GatherTrans(input, codepoint0, m1, true);
    ghost var first, j := codepoint, input.pos;
    result, codepoint := GatherTrans(input, codepoint, m2, result);
    ghost var second, k := codepoint, input.pos;
    result, codepoint := GatherTrans(input, codepoint, m3, result);
    assert Utf8.Accumulate(input.src, k, 1, second) == Utf8.Accumulate(input.src, Advance(input.src, k), 0, codepoint);
    assert Utf8.Accumulate(input.src, j, 2, first) == Utf8.Accumulate(input.src, k, 1, second);
    assert Utf8.Accumulate(input.src, i, 3, codepoint0) == Utf8.Accumulate(input.src, j, 2, first);
  }

  /** `Decode`. */
  method Decode(input: InputStream) returns (ok: bool, codepoint: nat)
    requires input.pos <= |input.src|
    modifies input
    ensures (Utf8.Checked(ok, input.pos), codepoint) == Utf8.Decode(input.src, old(input.pos))
  {
    var c := input.Take();
    if c < 0x80 {
      return true, c;
    }
    codepoint := c % Utf8.PayloadSize(c);
    match Utf8.GetRange(c) {
      case 2 => ok, codepoint := GatherOne(input, codepoint, 0x70);
      case 3 => ok, codepoint := GatherTwo(input, codepoint, 0x70, 0x70);
      case 4 => ok, codepoint := GatherTwo(input, codepoint, 0x50, 0x70);
      case 5 => ok, codepoint := GatherThree(input, codepoint, 0x10, 0x70, 0x70);
      case 6 => ok, codepoint := GatherThree(input, codepoint, 0x70, 0x70, 0x70);
      case 10 => ok, codepoint := GatherTwo(input, codepoint, 0x20, 0x70);
      case 11 => ok, codepoint := GatherThree(input, codepoint, 0x60, 0x70, 0x70);
      case _ => ok := false;
    }
  }
}
