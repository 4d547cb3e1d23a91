/** Byte strings, the streams' end-of-input convention, and an option type. */
module Bytes {

  datatype Option<+T> = None | Some(value: T)

  type Byte = b: int | 0 <= b < 256

  /** `Peek` of a memory or file stream: reading at or past the end yields the NUL byte. */
  function Peek(s: seq<Byte>, i: nat): Byte {
    if i < |s| then s[i] else 0
  }

  /** `Take` of a memory or file stream does not move past the end. */
  function Advance(s: seq<Byte>, i: nat): nat {
    if i < |s| then i + 1 else i
  }

  predicate IsDigit(c: Byte) {
    48 <= c <= 57
  }

  /** The value of a hexadecimal digit. */
  function HexDigit(b: Byte): (d: Option<nat>)
    ensures d.Some? ==> d.value < 16
  {
    if 48 <= b <= 57 then Some(b - 48)
    else if 65 <= b <= 70 then Some(b - 55)
    else if 97 <= b <= 102 then Some(b - 87)
    else None
  }

  /** The digit, in upper case, for a value. */
  function HexDigitOf(n: nat): Byte
    requires n < 16
  {
    if n < 10 then 48 + n else 55 + n
  }

  /** The number a string of decimal digits stands for. */
  function Decimal(digits: seq<Byte>): int {
    if digits == [] then 0
    else Decimal(digits[..|digits| - 1]) * 10 + (digits[|digits| - 1] as int - 48)
  }

  /** `w` is in the text at `i`. */
  predicate At(s: seq<Byte>, i: nat, w: seq<Byte>) {
    i + |w| <= |s| && s[i..i + |w|] == w
  }

  lemma AtConcat(s: seq<Byte>, i: nat, a: seq<Byte>, b: seq<Byte>)
    requires At(s, i, a + b)
    ensures At(s, i, a) && At(s, i + |a|, b) && i + |a| + |b| <= |s|
  {
    assert s[i..i + |a|] == s[i..i + |a + b|][..|a|];
    assert s[i + |a|..i + |a + b|] == s[i..i + |a + b|][|a|..];
  }

  lemma AtByte(s: seq<Byte>, i: nat, w: seq<Byte>, k: nat)
    requires At(s, i, w) && k < |w|
    ensures i + k < |s| && Peek(s, i + k) == s[i + k] == w[k]
  {
  }

  lemma AtFirst(s: seq<Byte>, i: nat, w: seq<Byte>)
    requires At(s, i, w) && w != []
    ensures i < |s| && Peek(s, i) == w[0] && At(s, i + 1, w[1..])
  {
  }

  lemma AtJoin(s: seq<Byte>, i: nat, a: seq<Byte>, b: seq<Byte>)
    requires At(s, i, a) && At(s, i + |a|, b)
    ensures At(s, i, a + b)
  {
  }
}
