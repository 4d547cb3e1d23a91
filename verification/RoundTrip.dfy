/** What the writers print is a text of the grammar, so the reader reads it back. */
module RoundTrip {
  import Abnf
  import opened Bytes
  import opened Json
  import opened Lexer
  import opened Grammar
  import opened Trees
  import opened Writer
  import opened Syntax
  import Acceptance
  import Document
  import Utf8

  // ---------------------------------------------------------------------------------------
  // Strings
  // ---------------------------------------------------------------------------------------

  lemma HexDigitIsRead(n: nat)
    requires n < 16
    ensures Abnf.HexDig(HexDigitOf(n)) == Some(n)
  {
    Abnf.HexDigitsAgree(HexDigitOf(n));
    hide Abnf.HexDig;
  }

  /** What the writer puts for a byte is a character of the grammar; a byte by itself need not be valid UTF-8. */
  lemma PrintedByte(c: Config, b: Byte) returns (ch: Character)
    requires b < 0x80 || !c.validateEncoding
    ensures IsCharacter(c, ch) && CharacterText(ch) == EscapeByte(b) && CharacterValue(ch) == [b]
  {
    hide Abnf.HexDig, Abnf.Digit;
    var w := EscapeByte(b);
    if |w| == 6 {
      HexDigitIsRead(b / 16);
      HexDigitIsRead(b % 16);
      HexDigitIsRead(0);
      ch := Unit([48, 48, HexDigitOf(b / 16), HexDigitOf(b % 16)]);
    } else if |w| == 2 {
      ch := Short(w[1]);
    } else {
      ch := Plain([b]);
    }
  }

  lemma {:induction false} PrintedBytes(c: Config, text: seq<Byte>) returns (chars: seq<Character>)
    requires forall b <- text :: b < 0x80 || !c.validateEncoding
    ensures AreCharacters(c, chars) && CharactersText(chars) == Escaped(text) && CharactersValue(chars) == text
    decreases |text|
  {
    hide EscapeByte, IsCharacter, CharacterText, CharacterValue;
    if text == [] {
      chars := [];
    } else {
      assert text[0] in text && forall b <- text[1..] :: b in text;
      var ch := PrintedByte(c, text[0]);
      var more := PrintedBytes(c, text[1..]);
      chars := [ch] + more;
      assert [text[0]] + text[1..] == text;
    }
  }

  lemma {:induction false} EscapedHigh(text: seq<Byte>)
    requires forall b <- text :: b >= 0x80
    ensures Escaped(text) == text
  {
    if text != [] {
      assert text[0] in text && EscapeByte(text[0]) == [text[0]] && forall b <- text[1..] :: b in text;
      hide EscapeByte;
      EscapedHigh(text[1..]);
    }
  }

  lemma EscapedFirst(text: seq<Byte>)
    ensures Escaped(text) == if text == [] then [] else EscapeByte(text[0]) + Escaped(text[1..])
  {
  }

  lemma {:induction false} EscapedConcat(a: seq<Byte>, b: seq<Byte>)
    ensures Escaped(a + b) == Escaped(a) + Escaped(b)
  {
    hide EscapeByte, Escaped;
    EscapedFirst(a);
    if a == [] {
      assert a + b == b;
    } else {
      EscapedFirst(a + b);
      EscapedConcat(a[1..], b);
      assert (a + b)[1..] == a[1..] + b && (a + b)[0] == a[0];
      assert EscapeByte(a[0]) + (Escaped(a[1..]) + Escaped(b)) == EscapeByte(a[0]) + Escaped(a[1..]) + Escaped(b);
    }
  }

  lemma PrintedChar(c: Config, p: seq<Byte>) returns (chars: seq<Character>)
    requires Utf8.IsUtf8Char(p) && c.validateEncoding
    ensures AreCharacters(c, chars) && CharactersText(chars) == Escaped(p) && CharactersValue(chars) == p
  {
    if |p| == 1 {
      chars := PrintedBytes(c, p);
    } else {
      EscapedHigh(p);
      chars := [Plain(p)];
      assert CharactersText([]) == [] && CharactersValue([]) == [];
      assert p + [] == p;
    }
  }

  lemma {:induction false} CharactersConcat(a: seq<Character>, b: seq<Character>)
    ensures CharactersText(a + b) == CharactersText(a) + CharactersText(b)
    ensures CharactersValue(a + b) == CharactersValue(a) + CharactersValue(b)
  {
    hide CharacterText, CharacterValue;
    if a == [] {
      assert a + b == b;
    } else {
      CharactersConcat(a[1..], b);
      assert (a + b)[1..] == a[1..] + b && (a + b)[0] == a[0];
    }
  }

  lemma {:induction false} PrintedChars(c: Config, parts: seq<seq<Byte>>) returns (chars: seq<Character>)
    requires c.validateEncoding && forall p <- parts :: Utf8.IsUtf8Char(p)
    ensures AreCharacters(c, chars)
    ensures CharactersText(chars) == Escaped(Utf8.Flatten(parts)) && CharactersValue(chars) == Utf8.Flatten(parts)
    decreases |parts|
  {
    hide Utf8.IsUtf8Char, Escaped, IsCharacter;
    if parts == [] {
      EscapedHigh([]);
      chars := [];
    } else {
      var p := parts[0];
      assert p in parts && forall q <- parts[1..] :: q in parts;
      var first := PrintedChar(c, p);
      var more := PrintedChars(c, parts[1..]);
      chars := first + more;
      CharactersConcat(first, more);
      EscapedConcat(p, Utf8.Flatten(parts[1..]));
    }
  }

  /** A printed string spells out its bytes. */
  lemma PrintedString(c: Config, text: seq<Byte>) returns (chars: seq<Character>)
    requires c.validateEncoding ==> Utf8.IsUtf8(text)
    ensures AreCharacters(c, chars) && QuotedText(chars) == StringText(text) && CharactersValue(chars) == text
  {
    hide Utf8.IsUtf8Char, Escaped, IsCharacter;
    if c.validateEncoding {
      var parts :| Utf8.Flatten(parts) == text && forall p <- parts :: Utf8.IsUtf8Char(p);
      chars := PrintedChars(c, parts);
    } else {
      chars := PrintedBytes(c, text);
    }
  }

  // ---------------------------------------------------------------------------------------
  // Numbers
  // ---------------------------------------------------------------------------------------

  lemma {:induction false} DigitsAreDigits(n: nat)
    ensures forall d <- Digits(n) :: IsDigit(d)
    ensures Decimal(Digits(n)) == n
    ensures Digits(n)[0] == 48 ==> n == 0
  {
    if n < 10 {
      assert Digits(n)[..0] == [];
      assert Decimal([]) == 0;
    } else {
      DigitsAreDigits(n / 10);
      assert Digits(n)[..|Digits(n)| - 1] == Digits(n / 10);
    }
  }

  lemma DigitsOfGrammar(n: nat)
    ensures IsDigits(Digits(n)) && Abnf.Whole(Digits(n)) == n
    ensures Digits(n)[0] == 48 ==> n == 0
  {
    hide Abnf.Digit, Abnf.Whole, Decimal;
    DigitsAreDigits(n);
    Acceptance.DigitsRead(Digits(n));
    Abnf.DecimalIsWhole(Digits(n));
  }

  /** The event the reader sends for the integer `n`. */
  function ReadEvent(n: int): Event
    requires -0x8000_0000_0000_0000 <= n < 0x1_0000_0000_0000_0000
  {
    NarrowestInteger(n < 0, if n < 0 then -n else n).value
  }

  /** A printed integer is a numeral, of that value. */
  lemma PrintedInteger(c: Config, n: int) returns (numeral: Numeral)
    requires -0x8000_0000_0000_0000 <= n < 0x1_0000_0000_0000_0000
    ensures IsNumeral(numeral) && NumeralText(numeral) == IntegerText(n)
    ensures NumeralEvent(c, numeral) == Some(ReadEvent(n))
  {
    hide Abnf.Digit, Abnf.Whole, Digits, IsDigits;
    var w := Digits(if n < 0 then -n else n);
    DigitsOfGrammar(if n < 0 then -n else n);
    assert w[0] == ZERO ==> w == [48] by {
      if n == 0 {
        assert Digits(0) == [48] by {
          ZeroDigits();
        }
      }
    }
    numeral := Numeral(n < 0, w, None, None);
    assert w + ([] + []) == w;
  }

  lemma ZeroDigits()
    ensures Digits(0) == [48]
  {
  }

  // ---------------------------------------------------------------------------------------
  // Values
  // ---------------------------------------------------------------------------------------

  /** The leaves the writers print exactly: everything but doubles. */
  ghost predicate IsPrintable(c: Config, e: Event) {
    || e.Null? || e.Bool?
    || Document.IsInteger(e)
    || (e.String? && (c.validateEncoding ==> Utf8.IsUtf8(e.str)))
  }

  /** The leaf the reader makes of a printed leaf. */
  function Reread(e: Event): Event {
    if Document.IsInteger(e) then ReadEvent(Document.IntegerOf(e)) else e
  }

  function RereadTree(t: Tree): Tree
    decreases t, 1
  {
    match t
    case Leaf(e) => Leaf(Reread(e))
    case Obj(ms) => Obj(RereadMembers(ms))
    case Arr(ts) => Arr(RereadElements(ts))
  }

  function RereadMembers(ms: seq<Member>): (r: seq<Member>)
    ensures |r| == |ms|
    decreases ms, 0
  {
    if ms == [] then [] else [Member(ms[0].name, RereadTree(ms[0].value))] + RereadMembers(ms[1..])
  }

  function RereadElements(ts: seq<Tree>): (r: seq<Tree>)
    ensures |r| == |ts|
    decreases ts, 0
  {
    if ts == [] then [] else [RereadTree(ts[0])] + RereadElements(ts[1..])
  }

  /** Printable leaves and names, and no more than 2^32 - 1 values in a bracket. */
  ghost predicate IsPrintableTree(c: Config, t: Tree)
    decreases t
  {
    match t
    case Leaf(e) => IsPrintable(c, e)
    case Obj(ms) =>
      && |ms| < SIZE_TYPE
      && forall m <- ms :: IsPrintableTree(c, m.value) && (c.validateEncoding ==> Utf8.IsUtf8(m.name))
    case Arr(ts) => |ts| < SIZE_TYPE && forall u <- ts :: IsPrintableTree(c, u)
  }

  lemma PrintedLeaf(c: Config, e: Event) returns (v: Phrase)
    requires IsPrintable(c, e)
    ensures IsPhrase(c, v) && Spell(v) == LeafText(e) && Meaning(c, v) == [Reread(e)]
  {
    hide ReadEvent, IntegerText, StringText, QuotedText, NumeralText, CharactersValue, AreCharacters, IsNumeral, NumeralEvent;
    match e
    case Null => v := Word(e);
    case Bool(_) => v := Word(e);
    case String(str) =>
      var chars := PrintedString(c, str);
      v := Quoted(chars);
    case _ =>
      var numeral := PrintedInteger(c, Document.IntegerOf(e));
      v := Number(numeral);
  }

  // ---------------------------------------------------------------------------------------
  // Objects and arrays
  // ---------------------------------------------------------------------------------------

  /** The text from the end of member `k - 1` to the closing brace, `ms` being the members left. */
  function MembersTail(style: Style, depth: nat, ms: seq<Member>, k: nat): seq<Byte>
    decreases |ms|
  {
    if ms == [] then BeforeEnd(style, depth, false, 2 * k) + [RBRACE]
    else Before(style, depth + 1, false, 2 * k) + MembersHere(style, depth, ms, k)
  }

  /** The same from the name of member `k` on. */
  function MembersHere(style: Style, depth: nat, ms: seq<Member>, k: nat): seq<Byte>
    requires ms != []
    decreases |ms|, 0
  {
    StringText(ms[0].name) + (Before(style, depth + 1, false, 2 * k + 1)
                              + (Text(style, depth + 1, ms[0].value) + MembersTail(style, depth, ms[1..], k + 1)))
  }

  function ElementsTail(style: Style, depth: nat, ts: seq<Tree>, k: nat): seq<Byte>
    decreases |ts|
  {
    if ts == [] then BeforeEnd(style, depth, true, k) + [RBRACKET]
    else
      Before(style, depth + 1, true, k)
      + (Text(style, depth + 1, ts[0]) + ElementsTail(style, depth, ts[1..], k + 1))
  }

  lemma {:induction false} MembersTailIsText(style: Style, depth: nat, ms: seq<Member>, k: nat)
    ensures MembersTail(style, depth, ms, k)
         == MembersText(style, depth + 1, ms, k) + BeforeEnd(style, depth, false, 2 * (k + |ms|)) + [RBRACE]
    decreases |ms|
  {
    hide Before, BeforeEnd, StringText, Text;
    if ms != [] {
      MembersTailIsText(style, depth, ms[1..], k + 1);
    }
  }

  lemma {:induction false} ElementsTailIsText(style: Style, depth: nat, ts: seq<Tree>, k: nat)
    ensures ElementsTail(style, depth, ts, k)
         == ElementsText(style, depth + 1, ts, k) + BeforeEnd(style, depth, true, k + |ts|) + [RBRACKET]
    decreases |ts|
  {
    hide Before, BeforeEnd, Text;
    if ts != [] {
      ElementsTailIsText(style, depth, ts[1..], k + 1);
    }
  }

  /** Between values the writers put white space, and a comma or colon before it where one is due. */
  lemma GapShape(style: Style, depth: nat, inArray: bool, count: nat)
    requires IsStyle(style)
    ensures var w := Before(style, depth, inArray, count);
            if count == 0 then AllSpace(w)
            else |w| >= 1 && AllSpace(w[1..]) && w[0] == if inArray || count % 2 == 0 then COMMA else COLON
  {
  }

  lemma EndGapShape(style: Style, depth: nat, inArray: bool, count: nat)
    requires IsStyle(style)
    ensures AllSpace(BeforeEnd(style, depth, inArray, count))
  {
  }

  /** What a writer prints for a tree is a phrase that means the tree. */
  lemma {:induction false} PrintedTree(c: Config, style: Style, depth: nat, t: Tree) returns (v: Phrase)
    requires IsStyle(style) && IsPrintableTree(c, t)
    ensures IsPhrase(c, v) && Spell(v) == Text(style, depth, t) && Meaning(c, v) == Events(RereadTree(t))
    decreases t, 1
  {
    match t
    case Leaf(e) => v := PrintedLeaf(c, e);
    case Arr(ts) => v := PrintedArray(c, style, depth, ts);
    case Obj(ms) => v := PrintedObject(c, style, depth, ms);
  }

  lemma ArrayText(style: Style, depth: nat, ts: seq<Tree>)
    ensures Text(style, depth, Arr(ts)) == [LBRACKET] + ElementsTail(style, depth, ts, 0)
  {
    ElementsTailIsText(style, depth, ts, 0);
    assert Text(style, depth, Arr(ts))
        == [LBRACKET] + ElementsText(style, depth + 1, ts, 0) + BeforeEnd(style, depth, true, |ts|) + [RBRACKET];
    hide Text, ElementsText, BeforeEnd, ElementsTail;
    Regroup(LBRACKET, ElementsText(style, depth + 1, ts, 0), BeforeEnd(style, depth, true, |ts|), RBRACKET);
  }

  lemma Regroup(left: Byte, a: seq<Byte>, b: seq<Byte>, right: Byte)
    ensures [left] + a + b + [right] == [left] + (a + b + [right])
  {
  }

  lemma ObjectText(style: Style, depth: nat, ms: seq<Member>)
    ensures Text(style, depth, Obj(ms)) == [LBRACE] + MembersTail(style, depth, ms, 0)
  {
    MembersTailIsText(style, depth, ms, 0);
    assert Text(style, depth, Obj(ms))
        == [LBRACE] + MembersText(style, depth + 1, ms, 0) + BeforeEnd(style, depth, false, 2 * |ms|) + [RBRACE];
    hide Text, MembersText, BeforeEnd, MembersTail;
    Regroup(LBRACE, MembersText(style, depth + 1, ms, 0), BeforeEnd(style, depth, false, 2 * |ms|), RBRACE);
  }

  lemma {:induction false} PrintedArray(c: Config, style: Style, depth: nat, ts: seq<Tree>) returns (v: Phrase)
    requires IsStyle(style) && IsPrintableTree(c, Arr(ts))
    ensures IsPhrase(c, v) && Spell(v) == Text(style, depth, Arr(ts)) && Meaning(c, v) == Events(RereadTree(Arr(ts)))
    decreases ts, 2
  {
    hide Text, ElementsText, Before, BeforeEnd, MeaningOfItems, SpellItems, IsItem, AllSpace, ElementEvents, RereadElements;
    ArrayText(style, depth, ts);
    if ts == [] {
      EndGapShape(style, depth, true, 0);
      v := Array([], BeforeEnd(style, depth, true, 0), None);
      Acceptance.NothingMeant(c);
      NothingSent();
    } else {
      GapShape(style, depth + 1, true, 0);
      var items := PrintedItems(c, style, depth, ts, 0, Before(style, depth + 1, true, 0));
      v := Array(items, [], None);
      Acceptance.NothingIsSpace(c);
    }
  }

  lemma NothingSent()
    ensures MemberEvents([]) == [] && RereadMembers([]) == [] && ElementEvents([]) == [] && RereadElements([]) == []
  {
  }

  /** The elements from number `k` on, `before` being the white space before the first. */
  lemma {:induction false} PrintedItems(c: Config, style: Style, depth: nat, ts: seq<Tree>, k: nat, before: seq<Byte>)
    returns (items: seq<Item>)
    requires IsStyle(style) && ts != [] && AllSpace(before) && forall t <- ts :: IsPrintableTree(c, t)
    ensures |items| == |ts| && forall item <- items :: IsItem(c, item)
    ensures SpellItems(items, None) == before + (Text(style, depth + 1, ts[0]) + ElementsTail(style, depth, ts[1..], k + 1))
    ensures MeaningOfItems(c, items) == ElementEvents(RereadElements(ts))
    decreases ts, 0
  {
    hide Text, ElementsTail, IsPhrase, Spell, Meaning, SpellAfterItem, AllSpace, IsPrintableTree, Events, RereadTree;
    assert ts[0] in ts && forall t <- ts[1..] :: t in ts;
    var v := PrintedTree(c, style, depth + 1, ts[0]);
    var after, rest := PrintedAfterItem(c, style, depth, ts[1..], k + 1);
    var item := Item(before, v, after);
    items := [item] + rest;
    assert items[1..] == rest;
    Rejoin(before, Spell(v), after, SpellAfterItem(rest, None));
  }

  lemma Rejoin(a: seq<Byte>, b: seq<Byte>, c: seq<Byte>, d: seq<Byte>)
    ensures a + (b + c) + d == a + (b + (c + d))
  {
  }

  lemma {:induction false} PrintedAfterItem(c: Config, style: Style, depth: nat, ts: seq<Tree>, k: nat)
    returns (after: seq<Byte>, items: seq<Item>)
    requires IsStyle(style) && k >= 1 && forall t <- ts :: IsPrintableTree(c, t)
    ensures |items| == |ts| && AllSpace(after) && forall item <- items :: IsItem(c, item)
    ensures after + SpellAfterItem(items, None) == ElementsTail(style, depth, ts, k)
    ensures MeaningOfItems(c, items) == ElementEvents(RereadElements(ts))
    decreases ts, 1
  {
    hide Text, Before, BeforeEnd, IsItem, IsPrintableTree, Events, RereadTree, Meaning, SpellItems;
    if ts == [] {
      EndGapShape(style, depth, true, k);
      after, items := BeforeEnd(style, depth, true, k), [];
    } else {
      var comma := Before(style, depth + 1, true, k);
      GapShape(style, depth + 1, true, k);
      after := [];
      items := PrintedItems(c, style, depth, ts, k, comma[1..]);
      var here := Text(style, depth + 1, ts[0]) + ElementsTail(style, depth, ts[1..], k + 1);
      assert [] + ([COMMA] + (comma[1..] + here)) == comma + here;
    }
  }

  lemma {:induction false} PrintedObject(c: Config, style: Style, depth: nat, ms: seq<Member>) returns (v: Phrase)
    requires IsStyle(style) && IsPrintableTree(c, Obj(ms))
    ensures IsPhrase(c, v) && Spell(v) == Text(style, depth, Obj(ms)) && Meaning(c, v) == Events(RereadTree(Obj(ms)))
    decreases ms, 2
  {
    hide Text, MembersText, MembersHere, Before, BeforeEnd, MeaningOfFields, SpellFields, IsField, AllSpace, MemberEvents,
         RereadMembers;
    ObjectText(style, depth, ms);
    if ms == [] {
      EndGapShape(style, depth, false, 0);
      v := Object([], BeforeEnd(style, depth, false, 0), None);
      Acceptance.NothingMeant(c);
      NothingSent();
    } else {
      GapShape(style, depth + 1, false, 0);
      var fields := PrintedFields(c, style, depth, ms, 0, Before(style, depth + 1, false, 0));
      v := Object(fields, [], None);
      Acceptance.NothingIsSpace(c);
    }
  }

  lemma {:induction false} PrintedFields(c: Config, style: Style, depth: nat, ms: seq<Member>, k: nat, before: seq<Byte>)
    returns (fields: seq<Field>)
    requires IsStyle(style) && ms != [] && AllSpace(before)
    requires forall m <- ms :: IsPrintableTree(c, m.value) && (c.validateEncoding ==> Utf8.IsUtf8(m.name))
    ensures |fields| == |ms| && forall field <- fields :: IsField(c, field)
    ensures SpellFields(fields, None) == before + MembersHere(style, depth, ms, k)
    ensures MeaningOfFields(c, fields) == MemberEvents(RereadMembers(ms))
    decreases ms, 0
  {
    hide Text, MembersTail, StringText, QuotedText, IsPhrase, Spell, Meaning, SpellAfterField, AllSpace, IsPrintableTree,
         Events, RereadTree, Before, AreCharacters, CharactersValue, Utf8.IsUtf8;
    var m := ms[0];
    assert m in ms && forall other <- ms[1..] :: other in ms;
    var name := PrintedString(c, m.name);
    var colon := Before(style, depth + 1, false, 2 * k + 1);
    GapShape(style, depth + 1, false, 2 * k + 1);
    assert m.value < m;
    var v := PrintedTree(c, style, depth + 1, m.value);
    var after, rest := PrintedAfterField(c, style, depth, ms[1..], k + 1);
    Acceptance.NothingIsSpace(c);
    var field := Field(before, name, [], Item(colon[1..], v, after));
    fields := [field] + rest;
    assert fields[1..] == rest;
    assert SpellItem(field.item) == colon[1..] + (Spell(v) + after);
    assert SpellFields(fields, None) == SpellField(field) + SpellAfterField(rest, None);
    RejoinField(before, QuotedText(name), colon, Spell(v), after, SpellAfterField(rest, None));
  }

  lemma RejoinField(before: seq<Byte>, name: seq<Byte>, colon: seq<Byte>, v: seq<Byte>, after: seq<Byte>, rest: seq<Byte>)
    requires colon != [] && colon[0] == COLON
    ensures before + (name + ([] + ([COLON] + (colon[1..] + (v + after))))) + rest
         == before + (name + (colon + (v + (after + rest))))
  {
  }

  lemma RejoinComma(comma: seq<Byte>, rest: seq<Byte>)
    requires comma != [] && comma[0] == COMMA
    ensures [] + ([COMMA] + (comma[1..] + rest)) == comma + rest
  {
    assert comma == [COMMA] + comma[1..];
  }

  lemma {:induction false} PrintedAfterField(c: Config, style: Style, depth: nat, ms: seq<Member>, k: nat)
    returns (after: seq<Byte>, fields: seq<Field>)
    requires IsStyle(style) && k >= 1
    requires forall m <- ms :: IsPrintableTree(c, m.value) && (c.validateEncoding ==> Utf8.IsUtf8(m.name))
    ensures |fields| == |ms| && AllSpace(after) && forall field <- fields :: IsField(c, field)
    ensures after + SpellAfterField(fields, None) == MembersTail(style, depth, ms, k)
    ensures MeaningOfFields(c, fields) == MemberEvents(RereadMembers(ms))
    decreases ms, 1
  {
    hide MembersHere, Before, BeforeEnd, IsField, IsPrintableTree, Utf8.IsUtf8, Events, RereadTree, Meaning, SpellFields;
    if ms == [] {
      EndGapShape(style, depth, false, 2 * k);
      after, fields := BeforeEnd(style, depth, false, 2 * k), [];
    } else {
      var comma := Before(style, depth + 1, false, 2 * k);
      GapShape(style, depth + 1, false, 2 * k);
      after := [];
      assert MembersTail(style, depth, ms, k) == comma + MembersHere(style, depth, ms, k);
      fields := PrintedFields(c, style, depth, ms, k, comma[1..]);
      hide MembersTail;
      RejoinComma(comma, MembersHere(style, depth, ms, k));
    }
  }

  // ---------------------------------------------------------------------------------------
  // Main results
  // ---------------------------------------------------------------------------------------

  lemma {:induction false} PrintableIsTree(c: Config, t: Tree)
    requires IsPrintableTree(c, t)
    ensures IsTree(t)
    decreases t
  {
    match t
    case Leaf(_) =>
    case Obj(ms) =>
      forall m <- ms ensures IsTree(m.value) {
        PrintableIsTree(c, m.value);
      }
    case Arr(ts) =>
      forall u <- ts ensures IsTree(u) {
        PrintableIsTree(c, u);
      }
  }

  /**
   Either writer, sent the stream of a tree, prints a text that either reader turns back into the
   stream of the same tree, each integer coming back in the narrowest width for its sign.
   */
  lemma PrintThenParse(c: Config, style: Style, t: Tree)
    requires Acceptance.NeverRefuses(c) && IsStyle(style) && IsPrintableTree(c, t)
    ensures var text := Text(style, 0, t);
            && WriteAll(style, EMPTY, Events(t)) == Some(Output(text, [], true))
            && Parse(c, text) == Done(Point(|text|, Events(RereadTree(t))))
            && IterativeParse(c, text) == Parse(c, text)
  {
    hide Text, Parse, IterativeParse, Events, WriteAll, Acceptance.NeverRefuses, IsPrintableTree, Spell, Meaning, IsPhrase;
    PrintableIsTree(c, t);
    WriteWholeTree(style, t);
    var v := PrintedTree(c, style, 0, t);
    Acceptance.NothingIsSpace(c);
    var whole := Item([], v, []);
    assert SpellItem(whole) == Spell(v) == [] + Spell(v);
    Acceptance.EveryTextIsAccepted(c, Spell(v), whole);
  }

  /** Reading an integer back changes neither its value nor the flags of the value made from it. */
  lemma RereadLeafValue(c: Config, e: Event)
    requires IsPrintable(c, e)
    ensures IsScalar(Reread(e)) && Document.LeafValue(Reread(e)) == Document.LeafValue(e)
  {
  }

  lemma {:induction false} RereadTreeValue(c: Config, t: Tree)
    requires IsPrintableTree(c, t)
    ensures IsTree(RereadTree(t)) && Document.ValueOf(RereadTree(t)) == Document.ValueOf(t)
    decreases t, 1
  {
    match t
    case Leaf(e) => RereadLeafValue(c, e);
    case Obj(ms) => RereadMemberValues(c, ms);
    case Arr(ts) => RereadElementValues(c, ts);
  }

  lemma {:induction false} RereadMemberValues(c: Config, ms: seq<Member>)
    requires forall m <- ms :: IsPrintableTree(c, m.value)
    ensures forall m <- RereadMembers(ms) :: IsTree(m.value)
    ensures Document.EntriesOf(RereadMembers(ms)) == Document.EntriesOf(ms)
    decreases ms, 0
  {
    hide IsPrintableTree;
    if ms != [] {
      RereadTreeValue(c, ms[0].value);
      RereadMemberValues(c, ms[1..]);
      assert RereadMembers(ms)[1..] == RereadMembers(ms[1..]);
    }
  }

  lemma {:induction false} RereadElementValues(c: Config, ts: seq<Tree>)
    requires forall t <- ts :: IsPrintableTree(c, t)
    ensures forall t <- RereadElements(ts) :: IsTree(t)
    ensures Document.ElementsOf(RereadElements(ts)) == Document.ElementsOf(ts)
    decreases ts, 0
  {
    hide IsPrintableTree;
    if ts != [] {
      RereadTreeValue(c, ts[0]);
      RereadElementValues(c, ts[1..]);
      assert RereadElements(ts)[1..] == RereadElements(ts[1..]);
    }
  }

  /**
   A document printed by either writer, in any format, and parsed again is the same document, type
   flags included: indentation never changes meaning.
   */
  lemma DocumentRoundTrip(c: Config, style: Style, v: Document.Value)
    requires Acceptance.NeverRefuses(c) && IsStyle(style)
    requires Document.Canonical(v) && IsPrintableTree(c, Document.TreeOf(v))
    ensures var written := WriteAll(style, EMPTY, Document.Accept(v));
            && written.Some? && written.value.levels == [] && written.value.hasRoot
            && Parse(c, written.value.os).Done?
            && Document.Build([], Parse(c, written.value.os).value.events) == Some([v])
  {
    var t := Document.TreeOf(v);
    Document.AcceptIsTree(v);
    hide Text, Parse, WriteAll, Document.Build, Document.Canonical, IsPrintableTree, Document.TreeOf, Document.Accept;
    PrintThenParse(c, style, t);
    RereadTreeValue(c, t);
    Document.WellNestedLeavesOneValue(RereadTree(t));
  }
}
