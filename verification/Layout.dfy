/**
 What the writers print, laid out from the tree alone: brackets around items that are joined by
 separators, each on a line of its own or not.
 */
module Layout {
  import opened Bytes
  import opened Json
  import opened Trees
  import Abnf
  import Writer

  type Style = Writer.Style

  // ---------------------------------------------------------------------------------------
  // Strings and other scalars
  // ---------------------------------------------------------------------------------------

  /** A character of a string: a short escape, `\u00XY` for other control characters, or itself. */
  function Character(b: Byte): seq<Byte> {
    match b
    case 0x08 => ['\\' as int, 'b' as int]
    case 0x09 => ['\\' as int, 't' as int]
    case 0x0A => ['\\' as int, 'n' as int]
    case 0x0C => ['\\' as int, 'f' as int]
    case 0x0D => ['\\' as int, 'r' as int]
    case 0x22 => ['\\' as int, '"' as int]
    case 0x5C => ['\\' as int, '\\' as int]
    case _ =>
      if b > 0x1F then [b]
      else ['\\' as int, 'u' as int, '0' as int, '0' as int, Abnf.UPPER[b / 16], Abnf.UPPER[b % 16]]
  }

  function Characters(str: seq<Byte>): seq<Byte> {
    if str == [] then [] else Character(str[0]) + Characters(str[1..])
  }

  function Quoted(str: seq<Byte>): seq<Byte> {
    ['"' as int] + Characters(str) + ['"' as int]
  }

  /** The decimal numeral of an integer, without leading zeros. */
  predicate IsInteger(text: seq<Byte>, n: int) {
    if n < 0 then text != [] && text[0] == '-' as int && IsWhole(text[1..], -n)
    else IsWhole(text, n)
  }

  predicate IsWhole(text: seq<Byte>, n: nat) {
    && text != [] && (forall d <- text :: Abnf.Digit(d).Some?) && Abnf.Whole(text) == n
    && (text[0] == '0' as int ==> text == ['0' as int])
  }

  predicate IsScalarText(text: seq<Byte>, e: Event) {
    match e
    case Null => text == ['n' as int, 'u' as int, 'l' as int, 'l' as int]
    case Bool(b) => text == if b then ['t' as int, 'r' as int, 'u' as int, 'e' as int] else ['f' as int, 'a' as int, 'l' as int, 's' as int, 'e' as int]
    case Int(i) => IsInteger(text, i)
    case Uint(u) => IsInteger(text, u)
    case Int64(i64) => IsInteger(text, i64)
    case Uint64(u64) => IsInteger(text, u64)
    case String(str) => text == Quoted(str)
    case _ => text == []
  }

  // ---------------------------------------------------------------------------------------
  // Brackets
  // ---------------------------------------------------------------------------------------

  function Repeat(b: Byte, n: nat): seq<Byte> {
    if n == 0 then [] else [b] + Repeat(b, n - 1)
  }

  /** A line break and the indentation of the new line. */
  function Line(style: Style, depth: nat): seq<Byte>
    requires style.Pretty?
  {
    ['\n' as int] + Repeat(style.indentChar, depth * style.indentCharCount)
  }

  function Joined(items: seq<seq<Byte>>, separator: seq<Byte>): seq<Byte> {
    if items == [] then []
    else if |items| == 1 then items[0]
    else items[0] + separator + Joined(items[1..], separator)
  }

  /** Whether the items of a bracket are on lines of their own. */
  predicate OnLines(style: Style, inArray: bool) {
    style.Pretty? && !(inArray && style.singleLineArray)
  }

  function Separator(style: Style, inArray: bool): seq<Byte> {
    if style.Pretty? && !OnLines(style, inArray) then [',' as int, ' ' as int] else [',' as int]
  }

  /** An item as it stands in a bracket at `depth`. */
  function Placed(style: Style, inArray: bool, depth: nat, item: seq<Byte>): seq<Byte> {
    if OnLines(style, inArray) then Line(style, depth + 1) + item else item
  }

  /** A bracket at `depth` around items that have been placed. */
  function Bracketed(style: Style, inArray: bool, depth: nat, items: seq<seq<Byte>>): seq<Byte> {
    [if inArray then '[' as int else '{' as int]
    + Joined(items, Separator(style, inArray))
    + (if items != [] && OnLines(style, inArray) then Line(style, depth) else [])
    + [if inArray then ']' as int else '}' as int]
  }

  /** `text` is the tree, printed at `depth`. */
  ghost predicate IsLaidOut(style: Style, depth: nat, t: Tree, text: seq<Byte>)
    decreases t, 1
  {
    match t
    case Leaf(e) => IsScalarText(text, e)
    case Obj(ms) =>
      exists items: seq<seq<Byte>> ::
        && |items| == |ms| && text == Bracketed(style, false, depth, items)
        && forall k | 0 <= k < |ms| :: IsMember(style, depth, ms[k], items[k])
    case Arr(ts) =>
      exists items: seq<seq<Byte>> ::
        && |items| == |ts| && text == Bracketed(style, true, depth, items)
        && forall k | 0 <= k < |ts| :: IsElement(style, depth, ts[k], items[k])
  }

  ghost predicate IsMember(style: Style, depth: nat, m: Member, item: seq<Byte>)
    decreases m, 2
  {
    var colon: seq<Byte> := if style.Pretty? then [':' as int, ' ' as int] else [':' as int];
    exists value: seq<Byte> ::
      IsLaidOut(style, depth + 1, m.value, value)
      && item == Placed(style, false, depth, Quoted(m.name) + colon + value)
  }

  ghost predicate IsElement(style: Style, depth: nat, t: Tree, item: seq<Byte>)
    decreases t, 2
  {
    exists value: seq<Byte> ::
      IsLaidOut(style, depth + 1, t, value) && item == Placed(style, true, depth, value)
  }

  // ---------------------------------------------------------------------------------------
  // What is printed is laid out so
  // ---------------------------------------------------------------------------------------

  lemma CharacterIsPrinted(b: Byte)
    ensures Writer.EscapeByte(b) == Character(b)
  {
    hide HexDigitOf;
    if b < 32 {
      Abnf.UpperAgrees(b / 16);
      Abnf.UpperAgrees(b % 16);
    }
  }

  lemma {:induction false} StringIsPrinted(str: seq<Byte>)
    ensures Writer.Escaped(str) == Characters(str)
    decreases |str|
  {
    hide Writer.EscapeByte, Character;
    if str != [] {
      CharacterIsPrinted(str[0]);
      StringIsPrinted(str[1..]);
    }
  }

  lemma {:induction false} DigitsArePrinted(n: nat)
    ensures IsWhole(Writer.Digits(n), n)
    ensures Writer.Digits(n)[0] == '0' as int ==> n == 0
    decreases n
  {
    hide Abnf.Digit;
    var text := Writer.Digits(n);
    Abnf.DigitsAgree(48 + n % 10);
    if n < 10 {
      assert text[..0] == [];
      assert Abnf.Whole(text) == 10 * Abnf.Whole(text[..0]) + n;
    } else {
      DigitsArePrinted(n / 10);
      assert text[..|text| - 1] == Writer.Digits(n / 10);
      assert text[0] == Writer.Digits(n / 10)[0];
    }
  }

  lemma IntegerIsPrinted(n: int)
    ensures IsInteger(Writer.IntegerText(n), n)
  {
    hide Writer.Digits, IsWhole;
    DigitsArePrinted(if n < 0 then -n else n);
    if n < 0 {
      assert Writer.IntegerText(n)[1..] == Writer.Digits(-n);
    }
  }

  lemma ScalarIsPrinted(e: Event)
    ensures IsScalarText(Writer.LeafText(e), e)
  {
    hide Writer.IntegerText, IsInteger, Writer.Escaped, Characters;
    match e
    case Int(n) => IntegerIsPrinted(n);
    case Uint(n) => IntegerIsPrinted(n);
    case Int64(n) => IntegerIsPrinted(n);
    case Uint64(n) => IntegerIsPrinted(n);
    case String(str) => StringIsPrinted(str);
    case _ =>
  }

  lemma {:induction false} RepeatIsFill(b: Byte, n: nat)
    ensures Repeat(b, n) == seq(n, _ => b)
  {
    if n > 0 {
      RepeatIsFill(b, n - 1);
    }
  }

  lemma LineIsPrinted(style: Style, depth: nat)
    requires style.Pretty?
    ensures Line(style, depth) == [NEWLINE] + Writer.Indent(style, depth)
  {
    RepeatIsFill(style.indentChar, depth * style.indentCharCount);
  }

  /** What comes before item number `k` of a bracket at `depth`. */
  function Lead(style: Style, inArray: bool, depth: nat, k: nat): seq<Byte> {
    (if k == 0 then [] else Separator(style, inArray)) + Placed(style, inArray, depth, [])
  }

  lemma LeadIsPrinted(style: Style, inArray: bool, depth: nat, k: nat)
    ensures Writer.Before(style, depth + 1, inArray, if inArray then k else 2 * k) == Lead(style, inArray, depth, k)
  {
    hide Line, Writer.Indent;
    if style.Pretty? {
      LineIsPrinted(style, depth + 1);
    }
  }

  lemma EndIsPrinted(style: Style, inArray: bool, depth: nat, n: nat)
    ensures Writer.BeforeEnd(style, depth, inArray, if inArray then n else 2 * n)
         == if n != 0 && OnLines(style, inArray) then Line(style, depth) else []
  {
    hide Line, Writer.Indent;
    if style.Pretty? {
      LineIsPrinted(style, depth);
    }
  }

  /** The items from number `k` on, each but the very first after a separator. */
  function Continued(style: Style, inArray: bool, k: nat, items: seq<seq<Byte>>): seq<Byte> {
    (if k == 0 || items == [] then [] else Separator(style, inArray)) + Joined(items, Separator(style, inArray))
  }

  lemma NothingContinued(style: Style, inArray: bool, k: nat)
    ensures Continued(style, inArray, k, []) == []
  {
  }

  lemma JoinedCons(first: seq<Byte>, items: seq<seq<Byte>>, separator: seq<Byte>)
    ensures Joined([first] + items, separator)
         == first + ((if items == [] then [] else separator) + Joined(items, separator))
  {
    var all := [first] + items;
    assert all[1..] == items;
    if items == [] {
      assert all == [first] && [] + Joined(items, separator) == [];
    }
  }

  lemma PlacedConcat(style: Style, inArray: bool, depth: nat, item: seq<Byte>)
    ensures Placed(style, inArray, depth, item) == Placed(style, inArray, depth, []) + item
  {
    hide Line;
  }

  lemma Regroup(a: seq<Byte>, b: seq<Byte>, c: seq<Byte>, d: seq<Byte>)
    ensures a + (b + c + d) == a + b + c + d
  {
  }

  lemma ContinuedStep(style: Style, inArray: bool, depth: nat, k: nat, item: seq<Byte>, items: seq<seq<Byte>>)
    ensures Continued(style, inArray, k, [Placed(style, inArray, depth, item)] + items)
         == Lead(style, inArray, depth, k) + item + Continued(style, inArray, k + 1, items)
  {
    var first, rest := Placed(style, inArray, depth, item), Continued(style, inArray, k + 1, items);
    hide Placed, Separator, Joined;
    var start := Placed(style, inArray, depth, []);
    PlacedConcat(style, inArray, depth, item);
    JoinedCons(first, items, Separator(style, inArray));
    Regroup(if k == 0 then [] else Separator(style, inArray), start, item, rest);
  }

  /** What the writers print is the tree laid out, in any format and at any depth. */
  lemma {:induction false} TreeIsPrinted(style: Style, depth: nat, t: Tree)
    ensures IsLaidOut(style, depth, t, Writer.Text(style, depth, t))
    decreases t, 1
  {
    hide IsScalarText, Writer.LeafText, IsMember, IsElement, Bracketed;
    match t
    case Leaf(e) => ScalarIsPrinted(e);
    case Obj(ms) =>
      var items := MembersArePrinted(style, depth, ms, 0);
      ObjectIsPrinted(style, depth, ms, items);
    case Arr(ts) =>
      var items := ElementsArePrinted(style, depth, ts, 0);
      ArrayIsPrinted(style, depth, ts, items);
  }

  lemma ObjectIsPrinted(style: Style, depth: nat, ms: seq<Member>, items: seq<seq<Byte>>)
    requires |items| == |ms| && Writer.MembersText(style, depth + 1, ms, 0) == Continued(style, false, 0, items)
    ensures Writer.Text(style, depth, Obj(ms)) == Bracketed(style, false, depth, items)
  {
    hide Writer.MembersText, Joined, Separator, Line, Writer.BeforeEnd, OnLines;
    EndIsPrinted(style, false, depth, |ms|);
    var joined := Joined(items, Separator(style, false));
    assert Continued(style, false, 0, items) == [] + joined == joined;
  }

  lemma ArrayIsPrinted(style: Style, depth: nat, ts: seq<Tree>, items: seq<seq<Byte>>)
    requires |items| == |ts| && Writer.ElementsText(style, depth + 1, ts, 0) == Continued(style, true, 0, items)
    ensures Writer.Text(style, depth, Arr(ts)) == Bracketed(style, true, depth, items)
  {
    hide Writer.ElementsText, Joined, Separator, Line, Writer.BeforeEnd, OnLines;
    EndIsPrinted(style, true, depth, |ts|);
    var joined := Joined(items, Separator(style, true));
    assert Continued(style, true, 0, items) == [] + joined == joined;
  }

  lemma {:induction false} MembersArePrinted(style: Style, depth: nat, ms: seq<Member>, k: nat)
    returns (items: seq<seq<Byte>>)
    ensures |items| == |ms| && forall j | 0 <= j < |ms| :: IsMember(style, depth, ms[j], items[j])
    ensures Writer.MembersText(style, depth + 1, ms, k) == Continued(style, false, k, items)
    decreases ms, 0
  {
    hide Lead, Continued, Writer.Before, Writer.MemberText, IsMember;
    if ms == [] {
      items := [];
      NothingContinued(style, false, k);
    } else {
      var item := MemberIsPrinted(style, depth, ms[0], k);
      var rest := MembersArePrinted(style, depth, ms[1..], k + 1);
      items := [Placed(style, false, depth, item)] + rest;
      ContinuedStep(style, false, depth, k, item, rest);
    }
  }

  lemma {:induction false} MemberIsPrinted(style: Style, depth: nat, m: Member, k: nat) returns (item: seq<Byte>)
    ensures IsMember(style, depth, m, Placed(style, false, depth, item))
    ensures Writer.MemberText(style, depth + 1, m, k) == Lead(style, false, depth, k) + item
    decreases m, 2
  {
    hide Lead, IsLaidOut, Placed, Writer.Escaped, Characters, Writer.Text;
    var value := Writer.Text(style, depth + 1, m.value);
    var colon: seq<Byte> := if style.Pretty? then [':' as int, ' ' as int] else [':' as int];
    item := Quoted(m.name) + colon + value;
    TreeIsPrinted(style, depth + 1, m.value);
    LeadIsPrinted(style, false, depth, k);
    StringIsPrinted(m.name);
    assert Writer.Before(style, depth + 1, false, 2 * k + 1) == colon;
    assert Lead(style, false, depth, k) + Quoted(m.name) + colon + value == Lead(style, false, depth, k) + item;
  }

  lemma {:induction false} ElementsArePrinted(style: Style, depth: nat, ts: seq<Tree>, k: nat)
    returns (items: seq<seq<Byte>>)
    ensures |items| == |ts| && forall j | 0 <= j < |ts| :: IsElement(style, depth, ts[j], items[j])
    ensures Writer.ElementsText(style, depth + 1, ts, k) == Continued(style, true, k, items)
    decreases ts, 0
  {
    hide Lead, Continued, Writer.Before, Writer.Text, IsLaidOut;
    if ts == [] {
      items := [];
      NothingContinued(style, true, k);
    } else {
      var item := Writer.Text(style, depth + 1, ts[0]);
      TreeIsPrinted(style, depth + 1, ts[0]);
      LeadIsPrinted(style, true, depth, k);
      var rest := ElementsArePrinted(style, depth, ts[1..], k + 1);
      items := [Placed(style, true, depth, item)] + rest;
      ContinuedStep(style, true, depth, k, item, rest);
    }
  }
}
