/**
 The UTF-8 codec of encodings.h: a table of byte classes, a validator and a decoder driven by
 it, and an encoder, checked against the grammar of section 4 of RFC 3629.
 */
module Utf8 {
  import opened Bytes

  /** Byte classes.  Tail bytes carry one bit each, so that one mask can test several classes. */
  function GetRange(c: Byte): bv8 {
    if c < 0x80 then 0
    else if c < 0x90 then 0x10
    else if c < 0xA0 then 0x40
    else if c < 0xC0 then 0x20
    else if c < 0xC2 then 8
    else if c < 0xE0 then 2
    else if c == 0xE0 then 10
    else if c == 0xED then 4
    else if c < 0xF0 then 3
    else if c == 0xF0 then 11
    else if c < 0xF4 then 6
    else if c == 0xF4 then 5
    else 8
  }

  /** The test of `RAPIDJSON_TRANS(mask)`. */
  predicate Trans(c: Byte, mask: bv8) {
    GetRange(c) & mask != 0
  }

  /** The masks a lead byte asks of the bytes after it; none when the lead byte is not one. */
  function TailMasks(lead: Byte): Option<seq<bv8>> {
    match GetRange(lead)
    case 2 => Some([0x70])
    case 3 => Some([0x70, 0x70])
    case 4 => Some([0x50, 0x70])
    case 5 => Some([0x10, 0x70, 0x70])
    case 6 => Some([0x70, 0x70, 0x70])
    case 10 => Some([0x20, 0x70])
    case 11 => Some([0x60, 0x70, 0x70])
    case _ => None
  }

  /** Whether the bytes at `i` pass the masks in turn.  Every byte is read even after a failure. */
  predicate TailsPass(s: seq<Byte>, i: nat, masks: seq<bv8>)
    decreases |masks|
  {
    masks == [] || (Trans(Peek(s, i), masks[0]) && TailsPass(s, Advance(s, i), masks[1..]))
  }

  function SkipBytes(s: seq<Byte>, i: nat, n: nat): (j: nat)
    requires i <= |s|
    ensures i <= j <= |s|
    ensures i + n <= |s| ==> j == i + n
    decreases n
  {
    if n == 0 then i else SkipBytes(s, Advance(s, i), n - 1)
  }

  datatype Checked = Checked(ok: bool, next: nat)

  /** `Validate`: reads one character at `i`, saying whether it is well formed and where it ended. */
  function Validate(s: seq<Byte>, i: nat): (r: Checked)
    requires i <= |s|
    ensures i <= r.next <= |s|
    ensures i < |s| ==> i < r.next
  {
    var c := Peek(s, i);
    if c < 0x80 then Checked(true, Advance(s, i))
    else match TailMasks(c)
      case None => Checked(false, Advance(s, i))
      case Some(masks) =>
        Checked(TailsPass(s, Advance(s, i), masks), SkipBytes(s, Advance(s, i), |masks|))
  }

  /** `0xFF >> type`, as the number of values the lead byte's payload can take. */
  function PayloadSize(lead: Byte): nat {
    match GetRange(lead)
    case 2 => 64
    case 3 => 32
    case 4 => 16
    case 5 => 8
    case 6 => 4
    case _ => 1
  }

  /** `codepoint = (codepoint << 6) | (c & 0x3F)` over the tail bytes. */
  function Accumulate(s: seq<Byte>, i: nat, n: nat, codepoint: nat): nat
    decreases n
  {
    if n == 0 then codepoint
    else Accumulate(s, Advance(s, i), n - 1, codepoint * 64 + Peek(s, i) % 64)
  }

  /** `Decode`: as `Validate`, and the code point the bytes stand for. */
  function Decode(s: seq<Byte>, i: nat): (r: (Checked, nat))
    requires i <= |s|
    ensures r.0 == Validate(s, i)
  {
    var c := Peek(s, i);
    if c < 0x80 then (Checked(true, Advance(s, i)), c)
    else match TailMasks(c)
      case None => (Checked(false, Advance(s, i)), 0)
      case Some(masks) =>
        (Validate(s, i), Accumulate(s, Advance(s, i), |masks|, c % PayloadSize(c)))
  }

  /** `Encode`, for the code points its assertion admits. */
  function Encode(codepoint: nat): (bytes: seq<Byte>)
    requires codepoint <= 0x10FFFF
    ensures 1 <= |bytes| <= 4
  {
    if codepoint <= 0x7F then [codepoint]
    else if codepoint <= 0x7FF then
      [0xC0 + codepoint / 64, 0x80 + codepoint % 64]
    else if codepoint <= 0xFFFF then
      [0xE0 + codepoint / 4096, 0x80 + codepoint / 64 % 64, 0x80 + codepoint % 64]
    else
      [0xF0 + codepoint / 262144, 0x80 + codepoint / 4096 % 64,
       0x80 + codepoint / 64 % 64, 0x80 + codepoint % 64]
  }

  // ---------------------------------------------------------------------------------------
  // The reference: section 4 of RFC 3629
  // ---------------------------------------------------------------------------------------

  predicate Tail(c: Byte) {
    0x80 <= c <= 0xBF
  }

  /** `UTF8-char`, transcribed from the ABNF. */
  predicate IsUtf8Char(b: seq<Byte>) {
    match |b|
    case 1 => b[0] <= 0x7F
    case 2 => 0xC2 <= b[0] <= 0xDF && Tail(b[1])
    case 3 =>
      || (b[0] == 0xE0 && 0xA0 <= b[1] <= 0xBF && Tail(b[2]))
      || (0xE1 <= b[0] <= 0xEC && Tail(b[1]) && Tail(b[2]))
      || (b[0] == 0xED && 0x80 <= b[1] <= 0x9F && Tail(b[2]))
      || (0xEE <= b[0] <= 0xEF && Tail(b[1]) && Tail(b[2]))
    case 4 =>
      || (b[0] == 0xF0 && 0x90 <= b[1] <= 0xBF && Tail(b[2]) && Tail(b[3]))
      || (0xF1 <= b[0] <= 0xF3 && Tail(b[1]) && Tail(b[2]) && Tail(b[3]))
      || (b[0] == 0xF4 && 0x80 <= b[1] <= 0x8F && Tail(b[2]) && Tail(b[3]))
    case _ => false
  }

  function Flatten(parts: seq<seq<Byte>>): seq<Byte> {
    if parts == [] then [] else parts[0] + Flatten(parts[1..])
  }

  /** `s` is `UTF8-octets = *( UTF8-char )`. */
  ghost predicate IsUtf8(s: seq<Byte>) {
    exists parts: seq<seq<Byte>> :: Flatten(parts) == s && forall p <- parts :: IsUtf8Char(p)
  }

  predicate IsScalar(codepoint: nat) {
    codepoint <= 0xD7FF || 0xE000 <= codepoint <= 0x10FFFF
  }

  type Scalar = c: nat | c <= 0xD7FF || 0xE000 <= c <= 0x10FFFF

  function EncodeAll(codepoints: seq<Scalar>): seq<Byte> {
    if codepoints == [] then [] else Encode(codepoints[0]) + EncodeAll(codepoints[1..])
  }

  // ---------------------------------------------------------------------------------------
  // Running the codec over a whole string
  // ---------------------------------------------------------------------------------------

  /** Validate, again and again, until the end or a failure. */
  predicate ValidateAll(s: seq<Byte>, i: nat)
    requires i <= |s|
    decreases |s| - i
  {
    i == |s| || (Validate(s, i).ok && ValidateAll(s, Validate(s, i).next))
  }

  function DecodeAll(s: seq<Byte>, i: nat): Option<seq<Scalar>>
    requires i <= |s|
    decreases |s| - i
  {
    if i == |s| then Some([])
    else
      var (checked, codepoint) := Decode(s, i);
      if !checked.ok then None
      else match DecodeAll(s, checked.next)
        case None => None
        case Some(rest) => DecodeThenEncode(s, i); Some([codepoint] + rest)
  }

  lemma TransIsRange(c: Byte)
    ensures Trans(c, 0x70) <==> 0x80 <= c <= 0xBF
    ensures Trans(c, 0x50) <==> 0x80 <= c <= 0x9F
    ensures Trans(c, 0x10) <==> 0x80 <= c <= 0x8F
    ensures Trans(c, 0x20) <==> 0xA0 <= c <= 0xBF
    ensures Trans(c, 0x60) <==> 0x90 <= c <= 0xBF
  {
  }

  /** What `Validate` accepts is one `UTF8-char` of the grammar. */
  lemma ValidateSound(s: seq<Byte>, i: nat)
    requires i < |s| && Validate(s, i).ok
    ensures IsUtf8Char(s[i..Validate(s, i).next])
  {
  }

  /** `Validate` accepts every `UTF8-char`, consumes it whole and nothing beyond it. */
  lemma ValidateComplete(s: seq<Byte>, i: nat, b: seq<Byte>)
    requires i + |b| <= |s| && s[i..i + |b|] == b && IsUtf8Char(b)
    ensures Validate(s, i) == Checked(true, i + |b|)
  {
    assert forall k | 0 <= k < |b| :: s[i + k] == b[k];
    TransIsRange(Peek(s, i + 1));
    TransIsRange(Peek(s, i + 2));
    TransIsRange(Peek(s, i + 3));
  }

  /** The code point of a well-formed character, as the bit fields of its bytes. */
  function FieldsOf(b: seq<Byte>): int {
    match |b|
    case 1 => b[0] as int
    case 2 => (b[0] as int - 0xC0) * 64 + (b[1] as int - 0x80)
    case 3 => (b[0] as int - 0xE0) * 4096 + (b[1] as int - 0x80) * 64 + (b[2] as int - 0x80)
    case 4 => (b[0] as int - 0xF0) * 262144 + (b[1] as int - 0x80) * 4096
              + (b[2] as int - 0x80) * 64 + (b[3] as int - 0x80)
    case _ => 0
  }

  /** The payload mask of the lead byte keeps just its bit field, or nothing when that is zero. */
  lemma LeadPayload(lead: Byte)
    ensures 0xC2 <= lead <= 0xDF ==> lead % PayloadSize(lead) == lead - 0xC0
    ensures 0xE0 <= lead <= 0xEF ==> lead % PayloadSize(lead) == lead - 0xE0
    ensures 0xF0 <= lead <= 0xF4 ==> lead % PayloadSize(lead) == lead - 0xF0
  {
  }

  lemma AccumulateTails(s: seq<Byte>, i: nat, start: nat)
    ensures i < |s| && Tail(s[i]) ==> Accumulate(s, i, 1, start) == start * 64 + (s[i] - 0x80)
    ensures i + 1 < |s| && Tail(s[i]) && Tail(s[i + 1]) ==>
              Accumulate(s, i, 2, start) == (start * 64 + (s[i] - 0x80)) * 64 + (s[i + 1] - 0x80)
    ensures i + 2 < |s| && Tail(s[i]) && Tail(s[i + 1]) && Tail(s[i + 2]) ==>
              Accumulate(s, i, 3, start)
              == ((start * 64 + (s[i] - 0x80)) * 64 + (s[i + 1] - 0x80)) * 64 + (s[i + 2] - 0x80)
  {
  }

  lemma DecodeIsFields(s: seq<Byte>, i: nat, b: seq<Byte>)
    requires i + |b| <= |s| && s[i..i + |b|] == b && IsUtf8Char(b)
    ensures Decode(s, i).1 == FieldsOf(b)
  {
    assert forall k | 0 <= k < |b| :: s[i + k] == b[k];
    DecodeAccumulates(s, i, b);
    LeadPayload(b[0]);
    AccumulateTails(s, i + 1, b[0] % PayloadSize(b[0]));
    hide Decode, Accumulate, PayloadSize;
  }

  lemma DecodeAccumulates(s: seq<Byte>, i: nat, b: seq<Byte>)
    requires i + |b| <= |s| && IsUtf8Char(b) && s[i] == b[0]
    ensures Decode(s, i).1 == if |b| == 1 then b[0] else Accumulate(s, i + 1, |b| - 1, b[0] % PayloadSize(b[0]))
  {
    hide Accumulate, Validate, PayloadSize;
  }

  lemma EncodeOfFields(b: seq<Byte>)
    requires IsUtf8Char(b)
    ensures 0 <= FieldsOf(b) && IsScalar(FieldsOf(b)) && Encode(FieldsOf(b)) == b
  {
    match |b| {
      case 1 => assert Encode(b[0]) == [b[0]];
      case 2 =>
        hide Encode;
        EncodeOfFields2(b[0] - 0xC0, b[1] - 0x80);
      case 3 =>
        hide Encode;
        FieldsOf3(b);
        hide IsUtf8Char;
        EncodeOfFields3(b[0] - 0xE0, b[1] - 0x80, b[2] - 0x80);
      case 4 =>
        hide Encode;
        FieldsOf4(b);
        hide IsUtf8Char;
        EncodeOfFields4(b[0] - 0xF0, b[1] - 0x80, b[2] - 0x80, b[3] - 0x80);
    }
  }

  lemma FieldsOf3(b: seq<Byte>)
    requires |b| == 3 && IsUtf8Char(b)
    ensures 0xE0 <= b[0] < 0xF0 && 0x80 <= b[1] < 0xC0 && 0x80 <= b[2] < 0xC0
    ensures 0x800 <= FieldsOf(b) && IsScalar(FieldsOf(b))
  {
  }

  lemma FieldsOf4(b: seq<Byte>)
    requires |b| == 4 && IsUtf8Char(b)
    ensures 0xF0 <= b[0] < 0xF5 && 0x80 <= b[1] < 0xC0 && 0x80 <= b[2] < 0xC0 && 0x80 <= b[3] < 0xC0
    ensures 0x1_0000 <= FieldsOf(b) && IsScalar(FieldsOf(b))
  {
  }

  lemma EncodeOfFields2(x: nat, y: nat)
    requires 2 <= x < 32 && y < 64
    ensures Encode(x * 64 + y) == [0xC0 + x, 0x80 + y]
  {
  }

  lemma EncodeOfFields3(x: nat, y: nat, z: nat)
    requires x < 16 && y < 64 && z < 64 && 0x800 <= x * 4096 + y * 64 + z
    ensures Encode(x * 4096 + y * 64 + z) == [0xE0 + x, 0x80 + y, 0x80 + z]
  {
    Split64(x * 64 + y, z);
    Split64(x, y);
    assert (x * 64 + y) * 64 + z == x * 4096 + y * 64 + z;
    Base64(x * 4096 + y * 64 + z);
  }

  lemma Split64(q: nat, r: nat)
    requires r < 64
    ensures (q * 64 + r) / 64 == q && (q * 64 + r) % 64 == r
  {
  }

  lemma EncodeOfFields4(x: nat, y: nat, z: nat, w: nat)
    requires x < 5 && y < 64 && z < 64 && w < 64
    requires 0x1_0000 <= x * 262144 + y * 4096 + z * 64 + w <= 0x10FFFF
    ensures Encode(x * 262144 + y * 4096 + z * 64 + w) == [0xF0 + x, 0x80 + y, 0x80 + z, 0x80 + w]
  {
    Split64((x * 64 + y) * 64 + z, w);
    Split64(x * 64 + y, z);
    Split64(x, y);
    assert ((x * 64 + y) * 64 + z) * 64 + w == x * 262144 + y * 4096 + z * 64 + w;
    Base64(x * 262144 + y * 4096 + z * 64 + w);
  }

  /** Taking a number apart in base 64. */
  lemma Base64(n: nat)
    ensures n == n / 64 * 64 + n % 64
    ensures n / 4096 == n / 64 / 64 && n / 262144 == n / 4096 / 64
    ensures 0 <= n / 64 % 64 < 64 && 0 <= n / 4096 % 64 < 64 && 0 <= n % 64 < 64
  {
  }

  lemma FieldsOfEncode(codepoint: Scalar)
    ensures IsUtf8Char(Encode(codepoint)) && FieldsOf(Encode(codepoint)) == codepoint
  {
    hide IsUtf8Char, FieldsOf;
    Fields64(codepoint);
    var w, x, y, z := codepoint / 262144, codepoint / 4096 % 64, codepoint / 64 % 64, codepoint % 64;
    if codepoint <= 0x7F {
      FieldsOfEncode1(codepoint);
    } else if codepoint <= 0x7FF {
      FieldsOfEncode2(codepoint / 64, z);
    } else if codepoint <= 0xFFFF {
      FieldsOfEncode3(codepoint / 4096, y, z);
    } else {
      FieldsOfEncode4(w, x, y, z);
    }
  }

  lemma Fields64(n: nat)
    ensures n == n / 64 * 64 + n % 64
    ensures n == n / 4096 * 4096 + n / 64 % 64 * 64 + n % 64
    ensures n == n / 262144 * 262144 + n / 4096 % 64 * 4096 + n / 64 % 64 * 64 + n % 64
    ensures n / 64 % 64 < 64 && n / 4096 % 64 < 64
  {
    Base64(n);
    Base64(n / 64);
    Base64(n / 4096);
  }

  lemma FieldsOfEncode1(x: nat)
    requires x < 128
    ensures IsUtf8Char([x]) && FieldsOf([x]) == x
  {
  }

  lemma FieldsOfEncode2(x: nat, y: nat)
    requires 2 <= x < 32 && y < 64
    ensures IsUtf8Char([0xC0 + x, 0x80 + y]) && FieldsOf([0xC0 + x, 0x80 + y]) == x * 64 + y
  {
  }

  lemma FieldsOfEncode3(x: nat, y: nat, z: nat)
    requires x < 16 && y < 64 && z < 64 && IsScalar(x * 4096 + y * 64 + z) && (x == 0 ==> y >= 32)
    ensures IsUtf8Char([0xE0 + x, 0x80 + y, 0x80 + z])
    ensures FieldsOf([0xE0 + x, 0x80 + y, 0x80 + z]) == x * 4096 + y * 64 + z
  {
  }

  lemma FieldsOfEncode4(x: nat, y: nat, z: nat, w: nat)
    requires y < 64 && z < 64 && w < 64
    requires 0x1_0000 <= x * 262144 + y * 4096 + z * 64 + w <= 0x10FFFF
    ensures x <= 4 && IsUtf8Char([0xF0 + x, 0x80 + y, 0x80 + z, 0x80 + w])
    ensures FieldsOf([0xF0 + x, 0x80 + y, 0x80 + z, 0x80 + w]) == x * 262144 + y * 4096 + z * 64 + w
  {
  }

  /** `Decode` computes a scalar value, and `Encode` gives back the very bytes it read. */
  lemma DecodeThenEncode(s: seq<Byte>, i: nat)
    requires i < |s| && Validate(s, i).ok
    ensures var codepoint := Decode(s, i).1;
            IsScalar(codepoint) && Encode(codepoint) == s[i..Validate(s, i).next]
  {
    ValidateSound(s, i);
    hide Decode, Encode, FieldsOf;
    var b := s[i..Validate(s, i).next];
    DecodeIsFields(s, i, b);
    EncodeOfFields(b);
  }

  /** The bytes of `Encode` are well formed and decode to the code point. */
  lemma EncodeThenDecode(s: seq<Byte>, i: nat, codepoint: Scalar)
    requires i + |Encode(codepoint)| <= |s|
    requires s[i..i + |Encode(codepoint)|] == Encode(codepoint)
    ensures IsUtf8Char(Encode(codepoint))
    ensures Decode(s, i) == (Checked(true, i + |Encode(codepoint)|), codepoint)
  {
    FieldsOfEncode(codepoint);
    ValidateComplete(s, i, Encode(codepoint));
    DecodeIsFields(s, i, Encode(codepoint));
  }

  // ---------------------------------------------------------------------------------------
  // Main results
  // ---------------------------------------------------------------------------------------

  lemma {:induction false} ValidateAllSound(s: seq<Byte>, i: nat)
    requires i <= |s| && ValidateAll(s, i)
    ensures IsUtf8(s[i..])
    decreases |s| - i
  {
    hide Validate;
    if i == |s| {
      assert Flatten([]) == s[i..];
    } else {
      var j := Validate(s, i).next;
      ValidateSound(s, i);
      ValidateAllSound(s, j);
      var parts :| Flatten(parts) == s[j..] && forall p <- parts :: IsUtf8Char(p);
      assert ([s[i..j]] + parts)[1..] == parts;
      assert Flatten([s[i..j]] + parts) == s[i..j] + s[j..] == s[i..];
    }
  }

  lemma {:induction false} ValidateAllComplete(s: seq<Byte>, i: nat, parts: seq<seq<Byte>>)
    requires i <= |s| && Flatten(parts) == s[i..] && forall p <- parts :: IsUtf8Char(p)
    ensures ValidateAll(s, i)
    decreases |parts|
  {
    hide Validate;
    if parts != [] {
      var p := parts[0];
      assert s[i..i + |p|] == s[i..][..|p|] == p;
      ValidateComplete(s, i, p);
      assert s[i + |p|..] == s[i..][|p|..];
      ValidateAllComplete(s, i + |p|, parts[1..]);
    }
  }

  /** Repeated `Validate` recognises exactly the strings of section 4 of RFC 3629. */
  lemma ValidateAllIsRfc3629(s: seq<Byte>)
    ensures ValidateAll(s, 0) <==> IsUtf8(s)
  {
    assert s[0..] == s;
    if ValidateAll(s, 0) {
      ValidateAllSound(s, 0);
    }
    if IsUtf8(s) {
      var parts :| Flatten(parts) == s && forall p <- parts :: IsUtf8Char(p);
      ValidateAllComplete(s, 0, parts);
    }
  }

  lemma {:induction false} DecodeAllThenEncodeAll(s: seq<Byte>, i: nat)
    requires i <= |s|
    ensures DecodeAll(s, i).Some? <==> ValidateAll(s, i)
    ensures DecodeAll(s, i).Some? ==> EncodeAll(DecodeAll(s, i).value) == s[i..]
    decreases |s| - i
  {
    hide Encode, Validate;
    if i < |s| && Validate(s, i).ok {
      var j := Validate(s, i).next;
      DecodeAllThenEncodeAll(s, j);
      DecodeThenEncode(s, i);
      if DecodeAll(s, j).Some? {
        var all := DecodeAll(s, i).value;
        assert all[1..] == DecodeAll(s, j).value;
        assert s[i..] == s[i..j] + s[j..];
      }
    }
  }

  lemma {:induction false} EncodeAllThenDecodeAll(s: seq<Byte>, i: nat, codepoints: seq<Scalar>)
    requires i <= |s| && s[i..] == EncodeAll(codepoints)
    ensures DecodeAll(s, i) == Some(codepoints)
    decreases |codepoints|
  {
    hide Encode, Decode, Validate;
    if codepoints != [] {
      var b := Encode(codepoints[0]);
      assert s[i..i + |b|] == s[i..][..|b|] == b;
      EncodeThenDecode(s, i, codepoints[0]);
      assert s[i + |b|..] == s[i..][|b|..] == EncodeAll(codepoints[1..]);
      EncodeAllThenDecodeAll(s, i + |b|, codepoints[1..]);
      assert [codepoints[0]] + codepoints[1..] == codepoints;
    }
  }

  /**
   Repeated `Decode` succeeds exactly on the well-formed strings, and then returns the one and
   only sequence of scalar values that `Encode` turns into the string.
   */
  lemma DecodeAllIsTheInverseOfEncodeAll(s: seq<Byte>, codepoints: seq<Scalar>)
    ensures DecodeAll(s, 0).Some? <==> IsUtf8(s)
    ensures DecodeAll(s, 0) == Some(codepoints) <==> EncodeAll(codepoints) == s
  {
    assert s[0..] == s;
    ValidateAllIsRfc3629(s);
    DecodeAllThenEncodeAll(s, 0);
    if EncodeAll(codepoints) == s {
      EncodeAllThenDecodeAll(s, 0, codepoints);
    }
  }

  /** The bytes read for a character, whether it is well formed or not: as many as its lead byte announces. */
  function Announced(lead: Byte): nat {
    if 0xC2 <= lead <= 0xDF then 2 else if 0xE0 <= lead <= 0xEF then 3 else if 0xF0 <= lead <= 0xF4 then 4 else 1
  }

  lemma ReadsWhatLeadAnnounces(s: seq<Byte>, i: nat)
    requires i < |s|
    ensures Validate(s, i).next == if i + Announced(s[i]) <= |s| then i + Announced(s[i]) else |s|
    ensures Decode(s, i).0.next == Validate(s, i).next
  {
    hide TailsPass, Accumulate;
    SkipsToEnd(s, i + 1, if s[i] < 0x80 || TailMasks(s[i]).None? then 0 else |TailMasks(s[i]).value|);
  }

  lemma {:induction false} SkipsToEnd(s: seq<Byte>, i: nat, n: nat)
    requires i <= |s|
    ensures SkipBytes(s, i, n) == if i + n <= |s| then i + n else |s|
    decreases n
  {
    if n > 0 {
      SkipsToEnd(s, Advance(s, i), n - 1);
    }
  }
}
