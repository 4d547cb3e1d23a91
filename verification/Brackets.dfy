/** The automaton's stack encodes the brackets that are open, and how many values each of them holds. */
module Brackets {
  import opened Bytes
  import opened Json
  import opened Lexer
  import opened Grammar
  import Refinement
  import Trees

  datatype Kind = ObjectBracket | ArrayBracket

  /** An open bracket: the values complete in it, and whether a name in it waits for its value. */
  datatype Open = Open(kind: Kind, values: nat, named: bool)

  /** What a stream amounts to: the values complete outside all brackets, and the brackets open, outermost first. */
  datatype Nesting = Nesting(roots: nat, open: seq<Open>) {
    function Innermost(): Open
      requires open != []
    {
      open[|open| - 1]
    }

    function Outside(): Nesting
      requires open != []
    {
      Nesting(roots, open[..|open| - 1])
    }

    function Inside(b: Open): Nesting {
      Nesting(roots, open + [b])
    }

    predicate TakesValue() {
      if open == [] then roots == 0 else Innermost().kind.ArrayBracket? || Innermost().named
    }

    /** One more value is complete in the innermost bracket, or outside all. */
    function Complete(): Nesting {
      if open == [] then Nesting(roots + 1, [])
      else Outside().Inside(Open(Innermost().kind, Innermost().values + 1, false))
    }
  }

  /** One more event; none where it does not belong, or gives the wrong count. */
  function Nest(n: Nesting, e: Event): Option<Nesting> {
    match e
    case StartObject => if n.TakesValue() then Some(n.Inside(Open(ObjectBracket, 0, false))) else None
    case StartArray => if n.TakesValue() then Some(n.Inside(Open(ArrayBracket, 0, false))) else None
    case Key(_) =>
      if n.open != [] && n.Innermost().kind.ObjectBracket? && !n.Innermost().named then
        Some(n.Outside().Inside(n.Innermost().(named := true)))
      else None
    case EndObject(count) => End(n, ObjectBracket, count)
    case EndArray(count) => End(n, ArrayBracket, count)
    case _ => if n.TakesValue() then Some(n.Complete()) else None
  }

  function End(n: Nesting, kind: Kind, count: nat): Option<Nesting> {
    if n.open != [] && n.Innermost() == Open(kind, n.Innermost().values, false)
       && count == n.Innermost().values % SIZE_TYPE
    then Some(n.Outside().Complete())
    else None
  }

  function Nested(events: seq<Event>): Option<Nesting> {
    if events == [] then Some(Nesting(0, []))
    else match Nested(events[..|events| - 1])
      case None => None
      case Some(n) => Nest(n, events[|events| - 1])
  }

  function KindOf(state: State): Kind {
    if state.ArrayInitial? || state.Element? || state.ElementDelimiter? then ArrayBracket else ObjectBracket
  }

  /** The values in the bracket of a frame: its count, and the last value if no comma has come after it. */
  function Counted(state: State, count: nat): nat {
    if state.MemberValue? || state.Element? then CountUp(count) else count
  }

  predicate NameWaits(state: State) {
    state.MemberKey? || state.KeyValueDelimiter?
  }

  /**
   The state and the stack say of every open bracket its kind, how many values it holds, in 32 bits,
   and whether a name waits.  When a bracket is open inside, the state is the one to return to, and
   the value it will be is not complete.
   */
  predicate Encodes(state: State, stack: seq<Cell>, n: Nesting, openInside: bool)
    requires Framed(state, stack)
    decreases |stack|
  {
    if !NeedsFrame(state) then n == Nesting(if state.Finish? then 1 else 0, [])
    else
      && n.open != [] && n.Innermost().kind == KindOf(state)
      && n.Innermost().named == (if openInside then KindOf(state).ObjectBracket? else NameWaits(state))
      && n.Innermost().values % SIZE_TYPE
         == (if openInside then stack[|stack| - 1].count else Counted(state, stack[|stack| - 1].count))
      && Encodes(stack[|stack| - 2].state, stack[..|stack| - 2], n.Outside(), true)
  }

  predicate StackEncodesBrackets(m: Machine) {
    && Framed(m.state, m.stack) && Nested(m.at.events).Some?
    && Encodes(m.state, m.stack, Nested(m.at.events).value, false)
  }

  lemma NestedStep(events: seq<Event>, e: Event)
    requires Nested(events).Some?
    ensures Nested(events + [e]) == Nest(Nested(events).value, e)
  {
    assert (events + [e])[..|events|] == events;
  }

  lemma OutsideInside(n: Nesting, b: Open)
    ensures n.Inside(b).open != [] && n.Inside(b).Outside() == n && n.Inside(b).Innermost() == b
  {
    assert (n.open + [b])[..|n.open|] == n.open;
  }

  /** Before a value or a bracket: it may come here, and inside it the state to return to encodes the same. */
  lemma ReturnEncodes(state: State, stack: seq<Cell>, n: Nesting)
    requires PredictsBracket(state) && Framed(state, stack) && Encodes(state, stack, n, false)
    ensures n.TakesValue() && Framed(ReturnState(state), stack) && Encodes(ReturnState(state), stack, n, true)
  {
  }

  lemma CountNext(n: nat)
    ensures (n + 1) % SIZE_TYPE == CountUp(n % SIZE_TYPE)
  {
  }

  /** After it: one more value is complete. */
  lemma CompleteEncodes(state: State, stack: seq<Cell>, n: Nesting)
    requires state.Start? || state.Element? || state.MemberValue?
    requires Framed(state, stack) && Encodes(state, stack, n, true)
    ensures Framed(Closed(state), stack) && Encodes(Closed(state), stack, n.Complete(), false)
  {
    hide CountUp;
    if !state.Start? {
      var b := n.Innermost();
      CountNext(b.values);
      OutsideInside(n.Outside(), Open(b.kind, b.values + 1, false));
    }
  }

  lemma ScalarKeepsBrackets(c: Config, s: seq<Byte>, m: Machine)
    requires StackEncodesBrackets(m) && m.at.pos < |s| && PredictsBracket(m.state)
    requires var b := s[m.at.pos]; b != 0 && !Refinement.IsCloser(b) && b != LBRACE && b != LBRACKET
    requires Transit(c, s, m).Done?
    ensures StackEncodesBrackets(Transit(c, s, m).value)
  {
    var n := Nested(m.at.events).value;
    ScalarTransit(c, s, m);
    hide Transit, ParseScalar, Encodes, Nest, Framed;
    var e := ParseScalar(c, s, m.at.pos).event;
    Trees.ScalarEvent(c, s, m.at.pos);
    NestedStep(m.at.events, e);
    ReturnEncodes(m.state, m.stack, n);
    CompleteEncodes(ReturnState(m.state), m.stack, n);
    ScalarNests(n, e);
  }

  lemma ScalarTransit(c: Config, s: seq<Byte>, m: Machine)
    requires m.at.pos < |s| && Framed(m.state, m.stack) && PredictsBracket(m.state)
    requires var b := s[m.at.pos]; b != 0 && !Refinement.IsCloser(b) && b != LBRACE && b != LBRACKET
    requires Transit(c, s, m).Done?
    ensures ParseScalar(c, s, m.at.pos).Lexeme?
    ensures Transit(c, s, m).value
         == Machine(Closed(ReturnState(m.state)), m.stack,
                    Point(ParseScalar(c, s, m.at.pos).pos, m.at.events + [ParseScalar(c, s, m.at.pos).event]))
  {
    hide ParseScalar, Framed;
  }

  lemma ScalarNests(n: Nesting, e: Event)
    requires Trees.IsScalar(e) && n.TakesValue()
    ensures Nest(n, e) == Some(n.Complete())
  {
  }

  lemma OpenEncodes(state: State, stack: seq<Cell>, n: Nesting, dst: State)
    requires PredictsBracket(state) && Framed(state, stack) && Encodes(state, stack, n, false)
    requires dst.ObjectInitial? || dst.ArrayInitial?
    ensures var inner := stack + [Return(ReturnState(state)), Count(0)];
            && Framed(dst, inner) && Encodes(dst, inner, n.Inside(Open(KindOf(dst), 0, false)), false)
  {
    var inner := stack + [Return(ReturnState(state)), Count(0)];
    ReturnEncodes(state, stack, n);
    assert inner[..|inner| - 2] == stack;
    OutsideInside(n, Open(KindOf(dst), 0, false));
  }

  lemma OpenedFrame(c: Config, m: Machine, dst: State, e: Event)
    requires Framed(m.state, m.stack) && PredictsBracket(m.state) && (dst.ObjectInitial? || dst.ArrayInitial?)
    requires OpenFrame(c, m, dst, e).Done?
    ensures OpenFrame(c, m, dst, e).value
         == Machine(dst, m.stack + [Return(ReturnState(m.state)), Count(0)], Point(m.at.pos + 1, m.at.events + [e]))
  {
    hide Framed;
  }

  lemma OpenNests(n: Nesting, dst: State, e: Event)
    requires n.TakesValue() && ((dst.ObjectInitial? && e.StartObject?) || (dst.ArrayInitial? && e.StartArray?))
    ensures Nest(n, e) == Some(n.Inside(Open(KindOf(dst), 0, false)))
  {
  }

  lemma OpenKeepsBrackets(c: Config, m: Machine, dst: State, e: Event)
    requires StackEncodesBrackets(m) && PredictsBracket(m.state)
    requires (dst.ObjectInitial? && e.StartObject?) || (dst.ArrayInitial? && e.StartArray?)
    requires OpenFrame(c, m, dst, e).Done?
    ensures StackEncodesBrackets(OpenFrame(c, m, dst, e).value)
  {
    hide OpenFrame, Encodes, Framed, Nested, Nest, KindOf, PredictsBracket;
    var n := Nested(m.at.events).value;
    OpenedFrame(c, m, dst, e);
    NestedStep(m.at.events, e);
    ReturnEncodes(m.state, m.stack, n);
    OpenNests(n, dst, e);
    OpenEncodes(m.state, m.stack, n, dst);
  }

  /** The end of a bracket: the count on the stack is right, and the bracket is a complete value. */
  lemma CloseEncodes(state: State, stack: seq<Cell>, n: Nesting)
    requires NeedsFrame(state) && !NameWaits(state) && Framed(state, stack) && Encodes(state, stack, n, false)
    ensures var outer, below := stack[|stack| - 2].state, stack[..|stack| - 2];
            && End(n, KindOf(state), Counted(state, stack[|stack| - 1].count)) == Some(n.Outside().Complete())
            && Framed(Closed(outer), below) && Encodes(Closed(outer), below, n.Outside().Complete(), false)
  {
    var outer, below := stack[|stack| - 2].state, stack[..|stack| - 2];
    assert Framed(outer, below) && Encodes(outer, below, n.Outside(), true);
    CompleteEncodes(outer, below, n.Outside());
  }

  lemma ClosedFrame(c: Config, m: Machine, isObject: bool)
    requires NeedsFrame(m.state) && Framed(m.state, m.stack) && CloseFrame(c, m, isObject).Done?
    requires isObject == KindOf(m.state).ObjectBracket?
    ensures var count := Counted(m.state, m.stack[|m.stack| - 1].count);
            CloseFrame(c, m, isObject).value
            == Machine(Closed(m.stack[|m.stack| - 2].state), m.stack[..|m.stack| - 2],
                       Point(m.at.pos + 1, m.at.events + [if isObject then EndObject(count) else EndArray(count)]))
  {
    hide CountUp;
  }

  lemma CloseKeepsBrackets(c: Config, m: Machine, isObject: bool)
    requires StackEncodesBrackets(m) && NeedsFrame(m.state) && !NameWaits(m.state)
    requires isObject == KindOf(m.state).ObjectBracket?
    requires CloseFrame(c, m, isObject).Done?
    ensures StackEncodesBrackets(CloseFrame(c, m, isObject).value)
  {
    FramedFrom(m);
    var count := Counted(m.state, m.stack[|m.stack| - 1].count);
    hide CloseFrame, Encodes, Nested, End, Counted;
    ClosedFrame(c, m, isObject);
    NestedStep(m.at.events, if isObject then EndObject(count) else EndArray(count));
    CloseEncodes(m.state, m.stack, Nested(m.at.events).value);
    hide Framed;
  }

  lemma CommaKeepsBrackets(m: Machine, dst: State)
    requires StackEncodesBrackets(m)
    requires (m.state.MemberValue? && dst.MemberDelimiter?) || (m.state.Element? && dst.ElementDelimiter?)
    ensures StackEncodesBrackets(CountComma(m, dst))
  {
    hide Nested;
    var stack := CountComma(m, dst).stack;
    assert stack[..|stack| - 2] == m.stack[..|m.stack| - 2];
  }

  lemma KeyEncodes(state: State, stack: seq<Cell>, n: Nesting, name: seq<Byte>)
    requires Framed(state, stack) && Encodes(state, stack, n, false)
    requires state.ObjectInitial? || state.MemberDelimiter?
    ensures Nest(n, Key(name)).Some? && Framed(MemberKey, stack) && Encodes(MemberKey, stack, Nest(n, Key(name)).value, false)
  {
    OutsideInside(n.Outside(), n.Innermost().(named := true));
  }

  lemma KeyTransit(c: Config, s: seq<Byte>, m: Machine)
    requires Framed(m.state, m.stack) && m.at.pos < |s| && s[m.at.pos] == QUOTE
    requires m.state.ObjectInitial? || m.state.MemberDelimiter?
    requires Transit(c, s, m).Done?
    ensures ParseString(c, s, m.at.pos, true).Lexeme?
    ensures Transit(c, s, m).value
         == Machine(MemberKey, m.stack,
                    Point(ParseString(c, s, m.at.pos, true).pos, m.at.events + [ParseString(c, s, m.at.pos, true).event]))
  {
    hide ParseString, Framed;
  }

  lemma KeyKeepsBrackets(c: Config, s: seq<Byte>, m: Machine)
    requires StackEncodesBrackets(m) && m.at.pos < |s| && s[m.at.pos] == QUOTE
    requires m.state.ObjectInitial? || m.state.MemberDelimiter?
    requires Transit(c, s, m).Done?
    ensures StackEncodesBrackets(Transit(c, s, m).value)
  {
    hide Transit, ParseString, Encodes, Nest, Framed, Nested;
    KeyTransit(c, s, m);
    var e := ParseString(c, s, m.at.pos, true).event;
    Trees.KeyEvent(c, s, m.at.pos);
    NestedStep(m.at.events, e);
    KeyEncodes(m.state, m.stack, Nested(m.at.events).value, e.key);
  }

  /** What the table says of the state it is asked about. */
  lemma PredictFrom(state: State, token: Token)
    requires !Predict(state, token).Error?
    ensures match Predict(state, token)
            case ObjectInitial => PredictsBracket(state) && token.LeftCurlyBracket?
            case ArrayInitial => PredictsBracket(state) && token.LeftBracket?
            case ObjectFinish => state.ObjectInitial? || state.MemberValue? || state.MemberDelimiter?
            case ArrayFinish => state.ArrayInitial? || state.Element? || state.ElementDelimiter?
            case MemberDelimiter => state.MemberValue?
            case ElementDelimiter => state.Element?
            case MemberKey => (state.ObjectInitial? || state.MemberDelimiter?) && token.StringToken?
            case KeyValueDelimiter => state.MemberKey?
            case _ => PredictsBracket(state) && (token.StringToken? || token.NumberToken? || token.NullToken?
                                                 || token.TrueToken? || token.FalseToken?)
  {
  }

  /** Every step of the automaton keeps the encoding, so it holds throughout every run. */
  lemma TransitKeepsBrackets(c: Config, s: seq<Byte>, m: Machine)
    requires StackEncodesBrackets(m) && m.at.pos < |s| && s[m.at.pos] != 0
    requires Transit(c, s, m).Done?
    ensures StackEncodesBrackets(Transit(c, s, m).value)
  {
    FramedFrom(m);
    var b := s[m.at.pos];
    var dst := Predict(m.state, Tokenize(b));
    hide StackEncodesBrackets, Framed, Encodes, OpenFrame, CloseFrame, CountComma, ParseValue, ParseString, Predict, Nested;
    assert !dst.Error?;
    PredictFrom(m.state, Tokenize(b));
    match dst
    case ObjectInitial => OpenKeepsBrackets(c, m, ObjectInitial, StartObject);
    case ArrayInitial => OpenKeepsBrackets(c, m, ArrayInitial, StartArray);
    case ObjectFinish => CloseKeepsBrackets(c, m, true);
    case ArrayFinish => CloseKeepsBrackets(c, m, false);
    case MemberDelimiter => CommaKeepsBrackets(m, MemberDelimiter);
    case ElementDelimiter => CommaKeepsBrackets(m, ElementDelimiter);
    case MemberKey => KeyKeepsBrackets(c, s, m);
    case KeyValueDelimiter => ColonKeepsBrackets(m);
    case _ =>
      hide Transit;
      ScalarKeepsBrackets(c, s, m);
  }

  lemma FramedFrom(m: Machine)
    requires StackEncodesBrackets(m)
    ensures Framed(m.state, m.stack)
  {
  }

  lemma ColonKeepsBrackets(m: Machine)
    requires StackEncodesBrackets(m) && m.state.MemberKey?
    ensures StackEncodesBrackets(m.(state := KeyValueDelimiter, at := m.at.(pos := m.at.pos + 1)))
  {
  }

  lemma StartEncodes(pos: nat)
    ensures StackEncodesBrackets(Machine(Start, [], Point(pos, [])))
  {
  }

  lemma SkippingKeepsBrackets(m: Machine, pos: nat)
    requires StackEncodesBrackets(m)
    ensures StackEncodesBrackets(m.(at := Point(pos, m.at.events)))
  {
  }

  lemma FinishIsNested(m: Machine)
    requires StackEncodesBrackets(m) && m.state.Finish?
    ensures Nested(m.at.events) == Some(Nesting(1, []))
  {
  }

  lemma {:induction false} RunIsNested(c: Config, s: seq<Byte>, m: Machine)
    requires m.at.pos <= |s| && Framed(m.state, m.stack) && StackEncodesBrackets(m) && Run(c, s, m).Done?
    ensures Nested(Run(c, s, m).value.events) == Some(Nesting(1, []))
    decreases |s| - m.at.pos
  {
    hide Transit, Framed, StackEncodesBrackets, Skip, Nested;
    if Peek(s, m.at.pos) == 0 {
      FinishIsNested(m);
    } else {
      TransitKeepsBrackets(c, s, m);
      var next := Transit(c, s, m).value;
      if c.stopWhenDone && next.state.Finish? {
        FinishIsNested(next);
      } else {
        var j := Skip(c, s, next.at.pos, next.at.events).value;
        SkippingKeepsBrackets(next, j);
        RunIsNested(c, s, next.(at := next.at.(pos := j)));
      }
    }
  }

  /**
   Whatever the length of the text, the flags and the handler: a parse that succeeds has sent one
   complete value, every bracket closed with the count of what was in it, in 32 bits.
   */
  lemma ParsedStreamIsNested(c: Config, s: seq<Byte>)
    ensures IterativeParse(c, s).Done? ==> Nested(IterativeParse(c, s).value.events) == Some(Nesting(1, []))
    ensures Parse(c, s).Done? ==> Nested(Parse(c, s).value.events) == Some(Nesting(1, []))
  {
    hide Run, Parse, Skip, StackEncodesBrackets, Nested;
    if IterativeParse(c, s).Done? {
      var i := Skip(c, s, 0, []).value;
      StartEncodes(i);
      RunIsNested(c, s, Machine(Start, [], Point(i, [])));
    }
    Refinement.IterativeRefinesRecursive(c, s);
  }
}
