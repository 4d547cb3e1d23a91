/**
 The grammar of RFC 8259 as concrete syntax trees, with the comments and trailing commas that the
 reader can be told to take besides.  A tree says where the white space is and how every character
 of a string is written; its text is what it spells out, and its events what it means.
 */
module Syntax {
  import Abnf
  import opened Bytes
  import opened Json
  import Utf8

  // ---------------------------------------------------------------------------------------
  // Section 7: strings
  // ---------------------------------------------------------------------------------------

  type Hex4 = h: seq<Byte> | |h| == 4 && forall b <- h :: Abnf.HexDig(b).Some?
    witness [48, 48, 48, 48]

  function HexNumber(h: Hex4): (n: nat)
    ensures n < 0x1_0000
  {
    Abnf.HexDig(h[0]).value * 4096 + Abnf.HexDig(h[1]).value * 256 + Abnf.HexDig(h[2]).value * 16 + Abnf.HexDig(h[3]).value
  }

  type LeadingHex = h: Hex4 | 0xD800 <= HexNumber(h) <= 0xDBFF
    witness [68, 56, 48, 48]

  type TrailingHex = h: Hex4 | 0xDC00 <= HexNumber(h) <= 0xDFFF
    witness [68, 67, 48, 48]

  /** The ways to write a character: as it is, a letter escape, a `\u` escape, or two of those. */
  datatype Character =
    | Plain(bytes: seq<Byte>)
    | Short(letter: Byte)
    | Unit(hex: Hex4)
    | Surrogates(lead: LeadingHex, trail: TrailingHex)

  const ESCAPES: map<Byte, Byte> := map[34 := 34, 92 := 92, 47 := 47, 98 := 8, 102 := 12, 110 := 10, 114 := 13, 116 := 9]

  function CharacterText(ch: Character): seq<Byte> {
    match ch
    case Plain(bytes) => bytes
    case Short(letter) => [0x5C, letter]
    case Unit(hex) => [0x5C, 0x75] + hex
    case Surrogates(lead, trail) => [0x5C, 0x75] + lead + ([0x5C, 0x75] + trail)
  }

  function CharacterValue(ch: Character): seq<Byte> {
    match ch
    case Plain(bytes) => bytes
    case Short(letter) => if letter in ESCAPES then [ESCAPES[letter]] else []
    case Unit(hex) => Utf8.Encode(HexNumber(hex))
    case Surrogates(lead, trail) =>
      Utf8.Encode((HexNumber(lead) - 0xD800) * 0x400 + (HexNumber(trail) - 0xDC00) + 0x1_0000)
  }

  predicate IsUnescaped(b: Byte) {
    0x20 <= b <= 0x21 || 0x23 <= b <= 0x5B || 0x5D <= b
  }

  /**
   The grammar takes any `\u` escape by itself; a leading surrogate is refused here, as it is by
   the reader.  A reader that does not validate takes any bytes for characters.
   */
  predicate IsCharacter(c: Config, ch: Character) {
    match ch
    case Plain(bytes) =>
      (if c.validateEncoding then Utf8.IsUtf8Char(bytes) else |bytes| == 1) && IsUnescaped(bytes[0])
    case Short(letter) => letter in ESCAPES
    case Unit(hex) => !(0xD800 <= HexNumber(hex) <= 0xDBFF)
    case Surrogates(_, _) => true
  }

  function CharactersText(chars: seq<Character>): seq<Byte> {
    if chars == [] then [] else CharacterText(chars[0]) + CharactersText(chars[1..])
  }

  function CharactersValue(chars: seq<Character>): seq<Byte> {
    if chars == [] then [] else CharacterValue(chars[0]) + CharactersValue(chars[1..])
  }

  function QuotedText(chars: seq<Character>): seq<Byte> {
    [0x22] + (CharactersText(chars) + [0x22])
  }

  predicate AreCharacters(c: Config, chars: seq<Character>) {
    forall ch <- chars :: IsCharacter(c, ch)
  }

  // ---------------------------------------------------------------------------------------
  // Section 6: numbers
  // ---------------------------------------------------------------------------------------

  datatype Exponent = Exponent(mark: Byte, sign: seq<Byte>, digits: seq<Byte>)

  datatype Numeral = Numeral(minus: bool, whole: seq<Byte>, fraction: Option<seq<Byte>>, exponent: Option<Exponent>)

  predicate IsDigits(w: seq<Byte>) {
    w != [] && forall d <- w :: Abnf.Digit(d).Some?
  }

  function FractionText(fraction: Option<seq<Byte>>): seq<Byte> {
    match fraction
    case None => []
    case Some(digits) => [0x2E] + digits
  }

  function ExponentText(exponent: Option<Exponent>): seq<Byte> {
    match exponent
    case None => []
    case Some(e) => [e.mark] + (e.sign + e.digits)
  }

  function NumeralText(n: Numeral): seq<Byte> {
    (if n.minus then [0x2D] else []) + (n.whole + (FractionText(n.fraction) + ExponentText(n.exponent)))
  }

  predicate IsExponent(e: Exponent) {
    (e.mark == 0x65 || e.mark == 0x45) && (e.sign == [] || e.sign == [0x2B] || e.sign == [0x2D]) && IsDigits(e.digits)
  }

  predicate IsNumeral(n: Numeral) {
    && IsDigits(n.whole) && (n.whole[0] == 0x30 ==> |n.whole| == 1)
    && (n.fraction.Some? ==> IsDigits(n.fraction.value))
    && (n.exponent.Some? ==> IsExponent(n.exponent.value))
  }

  /** A numeral that nothing need follow is taken as far as it goes: the byte after it does not go on it. */
  predicate Stops(n: Numeral, b: Byte) {
    && (b == 0x2E ==> n.fraction.Some? || n.exponent.Some?)
    && (b == 0x65 || b == 0x45 ==> n.exponent.Some?)
    && (Abnf.Digit(b).Some? ==> n.whole == [0x30] && n.fraction.None? && n.exponent.None?)
  }

  /** The value of a numeral, taken exactly: an integer when it has neither fraction nor exponent. */
  function IntegerValue(n: Numeral): Option<int> {
    if n.fraction.Some? || n.exponent.Some? then None
    else Some(if n.minus then -(Abnf.Whole(n.whole) as int) else Abnf.Whole(n.whole))
  }

  /**
   An integer is reported as such, in the narrowest of the two widths for its sign, when it is in
   `[-2^63, 2^64 - 1]`; any other number as a double, unless it is too big for one.
   */
  function NumeralEvent(c: Config, n: Numeral): Option<Event> {
    match IntegerValue(n)
    case Some(m) =>
      if n.minus && -0x8000_0000 <= m then Some(Int(m))
      else if n.minus && -0x8000_0000_0000_0000 <= m then Some(Int64(m))
      else if !n.minus && m < 0x1_0000_0000 then Some(Uint(m))
      else if !n.minus && m < 0x1_0000_0000_0000_0000 then Some(Uint64(m))
      else DoubleEvent(c, n)
    case None => DoubleEvent(c, n)
  }

  function DoubleEvent(c: Config, n: Numeral): Option<Event> {
    match c.toDouble(NumeralText(n))
    case None => None
    case Some(bits) => Some(Double(bits))
  }

  // ---------------------------------------------------------------------------------------
  // Sections 2 to 5: white space, values, objects and arrays
  // ---------------------------------------------------------------------------------------

  predicate AllSpace(w: seq<Byte>) {
    forall b <- w :: Abnf.Space(b)
  }

  /** Not of the RFC: a comment between its marks, in which the closing mark does not occur. */
  predicate IsBlockComment(w: seq<Byte>) {
    && |w| >= 4 && w[..2] == ['/' as int, '*' as int] && w[|w| - 2..] == ['*' as int, '/' as int] && 0 !in w
    && forall k | 2 <= k < |w| - 2 :: w[k] == '*' as int ==> w[k + 1] != '/' as int
  }

  /** And one that goes on to the end of the line, without that end. */
  predicate IsLineComment(w: seq<Byte>) {
    |w| >= 2 && w[..2] == ['/' as int, '/' as int] && 0 !in w && '\n' as int !in w
  }

  predicate IsComment(w: seq<Byte>) {
    IsBlockComment(w) || (w != [] && w[|w| - 1] == '\n' as int && IsLineComment(w[..|w| - 1]))
  }

  /** What may stand between tokens: white space and, where they are allowed, comments. */
  ghost predicate IsGap(c: Config, w: seq<Byte>)
    decreases |w|
  {
    AllSpace(w) || (c.comments && exists n, m | 0 <= n < m <= |w| :: IsGapWith(c, w, n, m))
  }

  /** White space, then a comment, then more. */
  ghost predicate IsGapWith(c: Config, w: seq<Byte>, n: nat, m: nat)
    requires n < m <= |w|
    decreases |w|, 0
  {
    AllSpace(w[..n]) && IsComment(w[n..m]) && IsGap(c, w[m..])
  }

  /** What may stand at the end of the text: its last line may be a comment. */
  ghost predicate IsLastGap(c: Config, w: seq<Byte>) {
    IsGap(c, w) || (c.comments && exists n | 0 <= n <= |w| :: IsGap(c, w[..n]) && IsLineComment(w[n..]))
  }

  /** `blank` is what an empty bracket holds, `trailing` the white space after a trailing comma. */
  datatype Phrase =
    | Word(word: Event)
    | Number(numeral: Numeral)
    | Quoted(chars: seq<Character>)
    | Array(items: seq<Item>, blank: seq<Byte>, trailing: Option<seq<Byte>>)
    | Object(fields: seq<Field>, blank: seq<Byte>, trailing: Option<seq<Byte>>)

  datatype Item = Item(before: seq<Byte>, phrase: Phrase, after: seq<Byte>)
  datatype Field = Field(before: seq<Byte>, name: seq<Character>, space: seq<Byte>, item: Item)

  function WordText(e: Event): seq<Byte> {
    match e
    case Null => [110, 117, 108, 108]
    case Bool(b) => if b then [116, 114, 117, 101] else [102, 97, 108, 115, 101]
    case _ => []
  }

  function Spell(v: Phrase): seq<Byte>
    decreases v, 2
  {
    match v
    case Word(e) => WordText(e)
    case Number(n) => NumeralText(n)
    case Quoted(chars) => QuotedText(chars)
    case Array(items, blank, trailing) =>
      [0x5B] + if items == [] then blank + [0x5D] else SpellItems(items, trailing)
    case Object(fields, blank, trailing) =>
      [0x7B] + if fields == [] then blank + [0x7D] else SpellFields(fields, trailing)
  }

  function SpellItem(item: Item): seq<Byte>
    decreases item, 3
  {
    item.before + (Spell(item.phrase) + item.after)
  }

  /** The items, with a comma between them, and the end of the array. */
  function SpellItems(items: seq<Item>, trailing: Option<seq<Byte>>): seq<Byte>
    requires items != []
    decreases items, 0
  {
    SpellItem(items[0]) + SpellAfterItem(items[1..], trailing)
  }

  function SpellAfterItem(items: seq<Item>, trailing: Option<seq<Byte>>): seq<Byte>
    decreases items, 1
  {
    if items == [] then Ending(trailing, 0x5D) else [0x2C] + SpellItems(items, trailing)
  }

  function Ending(trailing: Option<seq<Byte>>, bracket: Byte): seq<Byte> {
    match trailing
    case None => [bracket]
    case Some(space) => [0x2C] + (space + [bracket])
  }

  function SpellField(field: Field): seq<Byte>
    decreases field, 3
  {
    field.before + (QuotedText(field.name) + (field.space + ([0x3A] + SpellItem(field.item))))
  }

  function SpellFields(fields: seq<Field>, trailing: Option<seq<Byte>>): seq<Byte>
    requires fields != []
    decreases fields, 0
  {
    SpellField(fields[0]) + SpellAfterField(fields[1..], trailing)
  }

  function SpellAfterField(fields: seq<Field>, trailing: Option<seq<Byte>>): seq<Byte>
    decreases fields, 1
  {
    if fields == [] then Ending(trailing, 0x7D) else [0x2C] + SpellFields(fields, trailing)
  }

  ghost predicate IsTrailing(c: Config, trailing: Option<seq<Byte>>, empty: bool) {
    trailing.Some? ==> c.trailingCommas && !empty && IsGap(c, trailing.value)
  }

  ghost predicate IsPhrase(c: Config, v: Phrase)
    decreases v, 2
  {
    match v
    case Word(e) => e.Null? || e.Bool?
    case Number(n) => IsNumeral(n) && NumeralEvent(c, n).Some?
    case Quoted(chars) => AreCharacters(c, chars)
    case Array(items, blank, trailing) =>
      IsGap(c, blank) && IsTrailing(c, trailing, items == []) && forall item <- items :: IsItem(c, item)
    case Object(fields, blank, trailing) =>
      IsGap(c, blank) && IsTrailing(c, trailing, fields == []) && forall field <- fields :: IsField(c, field)
  }

  ghost predicate IsItem(c: Config, item: Item)
    decreases item, 3
  {
    IsGap(c, item.before) && IsPhrase(c, item.phrase) && IsGap(c, item.after)
  }

  ghost predicate IsField(c: Config, field: Field)
    decreases field, 3
  {
    IsGap(c, field.before) && AreCharacters(c, field.name) && IsGap(c, field.space) && IsItem(c, field.item)
  }

  /** A count, in 32 bits. */
  function CountOf(n: nat): nat {
    n % 0x1_0000_0000
  }

  /** The events of a phrase. */
  function Meaning(c: Config, v: Phrase): seq<Event>
    decreases v, 2
  {
    match v
    case Word(e) => [e]
    case Number(n) => (match NumeralEvent(c, n) case None => [] case Some(e) => [e])
    case Quoted(chars) => [String(CharactersValue(chars))]
    case Array(items, _, _) => [StartArray] + MeaningOfItems(c, items) + [EndArray(CountOf(|items|))]
    case Object(fields, _, _) => [StartObject] + MeaningOfFields(c, fields) + [EndObject(CountOf(|fields|))]
  }

  function MeaningOfItems(c: Config, items: seq<Item>): seq<Event>
    decreases items, 0
  {
    if items == [] then [] else Meaning(c, items[0].phrase) + MeaningOfItems(c, items[1..])
  }

  function MeaningOfFields(c: Config, fields: seq<Field>): seq<Event>
    decreases fields, 0
  {
    if fields == [] then []
    else [Key(CharactersValue(fields[0].name))] + Meaning(c, fields[0].item.phrase) + MeaningOfFields(c, fields[1..])
  }
}
