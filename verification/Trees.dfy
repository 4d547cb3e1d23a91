/** Well-nested event streams: the streams that spell out a tree. */
module Trees {
  import opened Bytes
  import opened Json
  import opened Lexer
  import opened Grammar

  datatype Tree = Leaf(event: Event) | Obj(members: seq<Member>) | Arr(elements: seq<Tree>)
  datatype Member = Member(name: seq<Byte>, value: Tree)

  predicate IsScalar(e: Event) {
    !(e.Key? || e.StartObject? || e.EndObject? || e.StartArray? || e.EndArray?)
  }

  /** The stream of a tree, with the count of each bracket's contents at its end. */
  function Events(t: Tree): (r: seq<Event>)
    ensures |r| >= 1
    decreases t, 1
  {
    match t
    case Leaf(e) => [e]
    case Obj(ms) => [StartObject] + MemberEvents(ms) + [EndObject(|ms|)]
    case Arr(ts) => [StartArray] + ElementEvents(ts) + [EndArray(|ts|)]
  }

  function MemberEvents(ms: seq<Member>): seq<Event>
    decreases ms, 0
  {
    if ms == [] then [] else [Key(ms[0].name)] + Events(ms[0].value) + MemberEvents(ms[1..])
  }

  function ElementEvents(ts: seq<Tree>): seq<Event>
    decreases ts, 0
  {
    if ts == [] then [] else Events(ts[0]) + ElementEvents(ts[1..])
  }

  /** Every leaf satisfies `p`. */
  ghost predicate Leaves(t: Tree, p: Event -> bool)
    decreases t
  {
    match t
    case Leaf(e) => p(e)
    case Obj(ms) => forall m <- ms :: Leaves(m.value, p)
    case Arr(ts) => forall u <- ts :: Leaves(u, p)
  }

  ghost predicate IsTree(t: Tree) {
    Leaves(t, IsScalar)
  }

  // ---------------------------------------------------------------------------------------
  // A parse that succeeds sends the stream of a tree
  // ---------------------------------------------------------------------------------------

  lemma NumberEventIsScalar(c: Config, s: seq<Byte>, i: nat)
    requires i <= |s| && ParseNumber(c, s, i).Lexeme?
    ensures IsScalar(ParseNumber(c, s, i).event)
  {
    hide ScanNumber, Decimal;
  }

  lemma ScalarEvent(c: Config, s: seq<Byte>, i: nat)
    requires i <= |s| && ParseScalar(c, s, i).Lexeme?
    ensures IsScalar(ParseScalar(c, s, i).event)
  {
    hide ParseNumber, ParseStringBody, MatchedPrefix;
    if ParseNumber(c, s, i).Lexeme? {
      NumberEventIsScalar(c, s, i);
    }
  }

  lemma KeyEvent(c: Config, s: seq<Byte>, i: nat)
    requires i < |s| && ParseString(c, s, i, true).Lexeme?
    ensures ParseString(c, s, i, true).event.Key?
  {
  }

  lemma {:induction false} ParsedValue(c: Config, s: seq<Byte>, i: nat, events: seq<Event>) returns (t: Tree)
    requires i <= |s| < SIZE_TYPE && ParseValue(c, s, i, events).Done?
    ensures IsTree(t)
    ensures ParseValue(c, s, i, events).value.events == events + Events(t)
    decreases |s| - i, 2
  {
    hide ParseString, ParseNumber, ParseLiteral, ParseMembers, ParseElements, Skip;
    if Peek(s, i) == LBRACE {
      var j := Skip(c, s, i + 1, events + [StartObject]).value;
      if Peek(s, j) == RBRACE {
        t := Obj([]);
      } else {
        var ms := ParsedMembers(c, s, j, events + [StartObject], 0);
        t := Obj(ms);
      }
    } else if Peek(s, i) == LBRACKET {
      var j := Skip(c, s, i + 1, events + [StartArray]).value;
      if Peek(s, j) == RBRACKET {
        t := Arr([]);
      } else {
        var ts := ParsedElements(c, s, j, events + [StartArray], 0);
        t := Arr(ts);
      }
    } else {
      ScalarEvent(c, s, i);
      t := Leaf(ParseScalar(c, s, i).event);
    }
  }

  lemma {:induction false} ParsedMembers(c: Config, s: seq<Byte>, i: nat, events: seq<Event>, n: nat)
    returns (ms: seq<Member>)
    requires n <= i <= |s| < SIZE_TYPE && ParseMembers(c, s, i, events, n).Done?
    ensures forall m <- ms :: IsTree(m.value)
    ensures ParseMembers(c, s, i, events, n).value.events
         == events + MemberEvents(ms) + [EndObject(n + |ms|)]
    decreases |s| - i, 1
  {
    hide ParseString, ParseAfterMember, ParseValue, Skip;
    KeyEvent(c, s, i);
    var key := Report(c, ParseString(c, s, i, true), events).value;
    var name := ParseString(c, s, i, true).event.key;
    var colon := Skip(c, s, key.pos, key.events).value;
    var start := Skip(c, s, colon + 1, key.events).value;
    var t := ParsedValue(c, s, start, key.events);
    var value := ParseValue(c, s, start, key.events).value;
    var rest := ParsedAfterMember(c, s, value, n);
    ms := [Member(name, t)] + rest;
    assert ms[1..] == rest;
  }

  lemma {:induction false} ParsedAfterMember(c: Config, s: seq<Byte>, value: Point, n: nat)
    returns (ms: seq<Member>)
    requires n < value.pos <= |s| < SIZE_TYPE && ParseAfterMember(c, s, value, n).Done?
    ensures forall m <- ms :: IsTree(m.value)
    ensures ParseAfterMember(c, s, value, n).value.events
         == value.events + MemberEvents(ms) + [EndObject(n + 1 + |ms|)]
    decreases |s| - value.pos, 2
  {
    hide ParseMembers, Skip;
    var j := Skip(c, s, value.pos, value.events).value;
    ms := [];
    assert value.events + MemberEvents([]) == value.events;
    if Peek(s, j) == COMMA {
      var k := Skip(c, s, j + 1, value.events).value;
      if !(c.trailingCommas && Peek(s, k) == RBRACE) {
        ms := ParsedMembers(c, s, k, value.events, n + 1);
      }
    }
  }

  lemma {:induction false} ParsedElements(c: Config, s: seq<Byte>, i: nat, events: seq<Event>, n: nat)
    returns (ts: seq<Tree>)
    requires n <= i <= |s| < SIZE_TYPE && ParseElements(c, s, i, events, n).Done?
    ensures forall t <- ts :: IsTree(t)
    ensures ParseElements(c, s, i, events, n).value.events
         == events + ElementEvents(ts) + [EndArray(n + |ts|)]
    decreases |s| - i, 3
  {
    hide ParseAfterElement, ParseValue;
    var t := ParsedValue(c, s, i, events);
    var value := ParseValue(c, s, i, events).value;
    var rest := ParsedAfterElement(c, s, value, n);
    ts := [t] + rest;
    assert ts[1..] == rest;
  }

  lemma {:induction false} ParsedAfterElement(c: Config, s: seq<Byte>, value: Point, n: nat)
    returns (ts: seq<Tree>)
    requires n < value.pos <= |s| < SIZE_TYPE && ParseAfterElement(c, s, value, n).Done?
    ensures forall t <- ts :: IsTree(t)
    ensures ParseAfterElement(c, s, value, n).value.events
         == value.events + ElementEvents(ts) + [EndArray(n + 1 + |ts|)]
    decreases |s| - value.pos, 2
  {
    hide ParseElements, Skip;
    var j := Skip(c, s, value.pos, value.events).value;
    ts := [];
    assert value.events + ElementEvents([]) == value.events;
    if Peek(s, j) == COMMA {
      var k := Skip(c, s, j + 1, value.events).value;
      if !(c.trailingCommas && Peek(s, k) == RBRACKET) {
        ts := ParsedElements(c, s, k, value.events, n + 1);
      }
    }
  }

  /** A text that parses sends exactly one tree, whatever the flags. */
  lemma ParseSendsOneTree(c: Config, s: seq<Byte>) returns (t: Tree)
    requires |s| < SIZE_TYPE && Parse(c, s).Done?
    ensures IsTree(t) && Parse(c, s).value.events == Events(t)
  {
    hide ParseValue;
    var i := Skip(c, s, 0, []).value;
    t := ParsedValue(c, s, i, []);
  }
}
