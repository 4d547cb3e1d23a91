/** The two parsers of reader.h as functions: recursive descent, and the table-driven automaton. */
module Grammar {
  import opened Bytes
  import opened Json
  import opened Lexer

  // ---------------------------------------------------------------------------------------
  // Recursive descent
  // ---------------------------------------------------------------------------------------

  /** Sends the event of a scalar and moves past it. */
  function Report(c: Config, r: Lexeme, events: seq<Event>): Outcome<Point> {
    match r
    case Bad(code, offset) => Stop(Failure(code, offset, events))
    case Lexeme(j, e, refusedAt) =>
      var sent :- Emit(c, events, e, refusedAt);
      Done(Point(j, sent))
  }

  function ParseValue(c: Config, s: seq<Byte>, i: nat, events: seq<Event>): (r: Outcome<Point>)
    requires i <= |s|
    ensures r.Done? ==> i < r.value.pos <= |s|
    decreases |s| - i, 2
  {
    if Peek(s, i) == LBRACE then ParseObject(c, s, i, events)
    else if Peek(s, i) == LBRACKET then ParseArray(c, s, i, events)
    else Report(c, ParseScalar(c, s, i), events)
  }

  function ParseObject(c: Config, s: seq<Byte>, i: nat, events: seq<Event>): (r: Outcome<Point>)
    requires i < |s|
    ensures r.Done? ==> i < r.value.pos <= |s|
    decreases |s| - i, 1
  {
    var begun :- Emit(c, events, StartObject, i + 1);
    var j :- Skip(c, s, i + 1, begun);
    if Peek(s, j) == RBRACE then
      var closed :- Emit(c, begun, EndObject(0), j + 1);
      Done(Point(j + 1, closed))
    else ParseMembers(c, s, j, begun, 0)
  }

  /** The loop of `ParseObject`, after `n` members. */
  function ParseMembers(c: Config, s: seq<Byte>, i: nat, events: seq<Event>, n: nat): (r: Outcome<Point>)
    requires i <= |s|
    ensures r.Done? ==> i < r.value.pos <= |s|
    decreases |s| - i, 1
  {
    var value :- ParseMember(c, s, i, events);
    ParseAfterMember(c, s, value, n)
  }

  /** A name, a colon and a value. */
  function ParseMember(c: Config, s: seq<Byte>, i: nat, events: seq<Event>): (r: Outcome<Point>)
    requires i <= |s|
    ensures r.Done? ==> i < r.value.pos <= |s|
    decreases |s| - i, 0
  {
    if Peek(s, i) != QUOTE then Stop(Failure(ObjectMissName, i, events))
    else
      var key :- Report(c, ParseString(c, s, i, true), events);
      var colon :- Skip(c, s, key.pos, key.events);
      if Peek(s, colon) != COLON then Stop(Failure(ObjectMissColon, colon, key.events))
      else
        var start :- Skip(c, s, colon + 1, key.events);
        ParseValue(c, s, start, key.events)
  }

  /** The loop body of `ParseObject` after a member's value. */
  function ParseAfterMember(c: Config, s: seq<Byte>, value: Point, n: nat): (r: Outcome<Point>)
    requires value.pos <= |s|
    ensures r.Done? ==> value.pos < r.value.pos <= |s|
    decreases |s| - value.pos, 2
  {
    var j :- Skip(c, s, value.pos, value.events);
    if Peek(s, j) == COMMA then
      var k :- Skip(c, s, j + 1, value.events);
      if c.trailingCommas && Peek(s, k) == RBRACE then
        var closed :- Emit(c, value.events, EndObject(CountUp(n)), k);
        Done(Point(k + 1, closed))
      else ParseMembers(c, s, k, value.events, CountUp(n))
    else if Peek(s, j) == RBRACE then
      var closed :- Emit(c, value.events, EndObject(CountUp(n)), j + 1);
      Done(Point(j + 1, closed))
    else Stop(Failure(ObjectMissCommaOrCurlyBracket, j, value.events))
  }

  function ParseArray(c: Config, s: seq<Byte>, i: nat, events: seq<Event>): (r: Outcome<Point>)
    requires i < |s|
    ensures r.Done? ==> i < r.value.pos <= |s|
    decreases |s| - i, 1
  {
    var begun :- Emit(c, events, StartArray, i + 1);
    var j :- Skip(c, s, i + 1, begun);
    if Peek(s, j) == RBRACKET then
      var closed :- Emit(c, begun, EndArray(0), j + 1);
      Done(Point(j + 1, closed))
    else ParseElements(c, s, j, begun, 0)
  }

  /** The loop of `ParseArray`, after `n` elements. */
  function ParseElements(c: Config, s: seq<Byte>, i: nat, events: seq<Event>, n: nat): (r: Outcome<Point>)
    requires i <= |s|
    ensures r.Done? ==> i < r.value.pos <= |s|
    decreases |s| - i, 3
  {
    var value :- ParseValue(c, s, i, events);
    ParseAfterElement(c, s, value, n)
  }

  /** The loop body of `ParseArray` after an element. */
  function ParseAfterElement(c: Config, s: seq<Byte>, value: Point, n: nat): (r: Outcome<Point>)
    requires value.pos <= |s|
    ensures r.Done? ==> value.pos < r.value.pos <= |s|
    decreases |s| - value.pos, 2
  {
    var j :- Skip(c, s, value.pos, value.events);
    if Peek(s, j) == COMMA then
      var k :- Skip(c, s, j + 1, value.events);
      if c.trailingCommas && Peek(s, k) == RBRACKET then
        var closed :- Emit(c, value.events, EndArray(CountUp(n)), k);
        Done(Point(k + 1, closed))
      else ParseElements(c, s, k, value.events, CountUp(n))
    else if Peek(s, j) == RBRACKET then
      var closed :- Emit(c, value.events, EndArray(CountUp(n)), j + 1);
      Done(Point(j + 1, closed))
    else Stop(Failure(ArrayMissCommaOrSquareBracket, j, value.events))
  }

  /** `Parse` without the iterative flag. */
  function Parse(c: Config, s: seq<Byte>): Outcome<Point> {
    var i :- Skip(c, s, 0, []);
    if Peek(s, i) == 0 then Stop(Failure(DocumentEmpty, i, []))
    else
      var root :- ParseValue(c, s, i, []);
      if c.stopWhenDone then Done(root)
      else
        var j :- Skip(c, s, root.pos, root.events);
        if Peek(s, j) != 0 then Stop(Failure(DocumentRootNotSingular, j, root.events))
        else Done(Point(j, root.events))
  }

  // ---------------------------------------------------------------------------------------
  // The automaton
  // ---------------------------------------------------------------------------------------

  datatype State =
    | Finish
    | Error
    | Start
    | ObjectInitial
    | MemberKey
    | MemberValue
    | ObjectFinish
    | ArrayInitial
    | Element
    | ArrayFinish
    | Value
    | ElementDelimiter
    | MemberDelimiter
    | KeyValueDelimiter

  datatype Token =
    | LeftBracket
    | RightBracket
    | LeftCurlyBracket
    | RightCurlyBracket
    | Comma
    | Colon
    | StringToken
    | FalseToken
    | TrueToken
    | NullToken
    | NumberToken

  function Tokenize(b: Byte): Token {
    if b == LBRACKET then LeftBracket
    else if b == RBRACKET then RightBracket
    else if b == LBRACE then LeftCurlyBracket
    else if b == RBRACE then RightCurlyBracket
    else if b == COMMA then Comma
    else if b == COLON then Colon
    else if b == QUOTE then StringToken
    else if b == LOWER_F then FalseToken
    else if b == LOWER_T then TrueToken
    else if b == LOWER_N then NullToken
    else NumberToken
  }

  /** A row of the table for the places where a value may begin. */
  function PredictValue(token: Token, scalar: State, close: State): State {
    match token
    case LeftBracket => ArrayInitial
    case LeftCurlyBracket => ObjectInitial
    case RightBracket => close
    case RightCurlyBracket => Error
    case Comma => Error
    case Colon => Error
    case _ => scalar
  }

  function Predict(state: State, token: Token): State {
    match state
    case Start => PredictValue(token, Value, Error)
    case ObjectInitial =>
      if token.RightCurlyBracket? then ObjectFinish else if token.StringToken? then MemberKey else Error
    case MemberKey => if token.Colon? then KeyValueDelimiter else Error
    case MemberValue =>
      if token.RightCurlyBracket? then ObjectFinish else if token.Comma? then MemberDelimiter else Error
    case ArrayInitial => PredictValue(token, Element, ArrayFinish)
    case Element =>
      if token.RightBracket? then ArrayFinish else if token.Comma? then ElementDelimiter else Error
    case ElementDelimiter => PredictValue(token, Element, ArrayFinish)
    case MemberDelimiter =>
      if token.RightCurlyBracket? then ObjectFinish else if token.StringToken? then MemberKey else Error
    case KeyValueDelimiter => PredictValue(token, MemberValue, Error)
    case _ => Error
  }

  /** The stack holds, for each open bracket, the state to return to and a count. */
  datatype Cell = Return(state: State) | Count(count: nat)

  /** A configuration of the automaton: its state, its stack, the next byte, the events sent. */
  datatype Machine = Machine(state: State, stack: seq<Cell>, at: Point)

  /** What `HandleError` reports when nothing more specific has been. */
  function HandleError(src: State, at: Point): Failure {
    var code := match src
      case Start => DocumentEmpty
      case Finish => DocumentRootNotSingular
      case ObjectInitial => ObjectMissName
      case MemberDelimiter => ObjectMissName
      case MemberKey => ObjectMissColon
      case MemberValue => ObjectMissCommaOrCurlyBracket
      case KeyValueDelimiter => ValueInvalid
      case ArrayInitial => ValueInvalid
      case ElementDelimiter => ValueInvalid
      case _ => ArrayMissCommaOrSquareBracket;
    Failure(code, at.pos, at.events)
  }

  /** The state to return to when the bracket about to be opened in `src` is closed. */
  function ReturnState(src: State): State {
    match src
    case ArrayInitial => Element
    case ElementDelimiter => Element
    case KeyValueDelimiter => MemberValue
    case _ => src
  }

  function Closed(state: State): State {
    if state.Start? then Finish else state
  }

  predicate EndsInFrame(stack: seq<Cell>) {
    |stack| >= 2 && stack[|stack| - 1].Count? && stack[|stack| - 2].Return?
  }

  /** The states inside a bracket. */
  predicate NeedsFrame(state: State) {
    !state.Start? && !state.Finish?
  }

  /**
   The shape of the stack: one frame for each open bracket, each saying which state the bracket
   around it was in.
   */
  predicate Framed(state: State, stack: seq<Cell>)
    decreases |stack|
  {
    if !NeedsFrame(state) then stack == []
    else
      && !(state.Error? || state.ObjectFinish? || state.ArrayFinish? || state.Value?)
      && EndsInFrame(stack)
      && var outer := stack[|stack| - 2].state;
      && (outer.Start? || outer.Element? || outer.MemberValue?)
      && Framed(outer, stack[..|stack| - 2])
  }

  /** Pops a count and a state and reports the end of an object or array. */
  function CloseFrame(c: Config, m: Machine, isObject: bool): (r: Outcome<Machine>)
    requires NeedsFrame(m.state) && Framed(m.state, m.stack)
    ensures r.Done? ==> r.value.at.pos == m.at.pos + 1 && Framed(r.value.state, r.value.stack)
  {
    var top := m.stack[|m.stack| - 1].count;
    var outer := m.stack[|m.stack| - 2].state;
    assert Framed(outer, m.stack[..|m.stack| - 2]);
    var last := if isObject then m.state.MemberValue? else m.state.Element?;
    var count := if last then CountUp(top) else top;
    var sent :- Emit(c, m.at.events, if isObject then EndObject(count) else EndArray(count), m.at.pos);
    Done(Machine(Closed(outer), m.stack[..|m.stack| - 2], Point(m.at.pos + 1, sent)))
  }

  /** Pushes the state to return to and a count of zero, and reports the start of the bracket. */
  function OpenFrame(c: Config, m: Machine, dst: State, e: Event): (r: Outcome<Machine>)
    requires dst.ObjectInitial? || dst.ArrayInitial?
    requires Framed(m.state, m.stack) && PredictsBracket(m.state)
    ensures r.Done? ==> r.value.at.pos == m.at.pos + 1 && Framed(r.value.state, r.value.stack)
  {
    var stack := m.stack + [Return(ReturnState(m.state)), Count(0)];
    assert stack[..|stack| - 2] == m.stack;
    var sent :- Emit(c, m.at.events, e, m.at.pos);
    Done(Machine(dst, stack, Point(m.at.pos + 1, sent)))
  }

  predicate PredictsBracket(state: State) {
    state.Start? || state.ArrayInitial? || state.ElementDelimiter? || state.KeyValueDelimiter?
  }

  /** Moves past a comma and counts the member or element before it. */
  function CountComma(m: Machine, dst: State): (r: Machine)
    requires dst.MemberDelimiter? || dst.ElementDelimiter?
    requires NeedsFrame(m.state) && Framed(m.state, m.stack)
    ensures r.at.pos == m.at.pos + 1 && Framed(r.state, r.stack)
  {
    var top := m.stack[|m.stack| - 1].count;
    var stack := m.stack[..|m.stack| - 1] + [Count(CountUp(top))];
    assert stack[..|stack| - 2] == m.stack[..|m.stack| - 2];
    Machine(dst, stack, m.at.(pos := m.at.pos + 1))
  }

  /** The state predicted goes with the same stack, up to a bracket. */
  lemma PredictFrames(state: State, token: Token, stack: seq<Cell>)
    requires Framed(state, stack)
    ensures var dst := Predict(state, token);
            && (dst.ObjectInitial? || dst.ArrayInitial? ==> PredictsBracket(state))
            && (dst.ObjectFinish? || dst.ArrayFinish? || dst.MemberDelimiter? || dst.ElementDelimiter? ==> NeedsFrame(state))
            && (dst.MemberKey? || dst.KeyValueDelimiter? || dst.MemberValue? || dst.Element? ==> Framed(dst, stack))
            && (dst.Value? || dst.Start? || dst.Finish? ==> Framed(Finish, stack))
  {
  }

  /** `Transit` to the state the table predicts, and `HandleError` when that is the error state. */
  function Transit(c: Config, s: seq<Byte>, m: Machine): (r: Outcome<Machine>)
    requires m.at.pos < |s| && Framed(m.state, m.stack)
    ensures r.Done? ==> m.at.pos < r.value.at.pos <= |s| && Framed(r.value.state, r.value.stack)
  {
    hide Framed, Predict, Tokenize, ParseValue;
    PredictFrames(m.state, Tokenize(s[m.at.pos]), m.stack);
    var i := m.at.pos;
    var dst := Predict(m.state, Tokenize(s[i]));
    match dst
    case Error => Stop(HandleError(m.state, m.at))
    case ObjectInitial => OpenFrame(c, m, dst, StartObject)
    case ArrayInitial => OpenFrame(c, m, dst, StartArray)
    case MemberKey =>
      var at :- Report(c, ParseString(c, s, i, true), m.at.events);
      Done(m.(state := dst, at := at))
    case KeyValueDelimiter => Done(m.(state := dst, at := m.at.(pos := i + 1)))
    case MemberValue =>
      var at :- ParseValue(c, s, i, m.at.events);
      Done(m.(state := dst, at := at))
    case Element =>
      var at :- ParseValue(c, s, i, m.at.events);
      Done(m.(state := dst, at := at))
    case MemberDelimiter => Done(CountComma(m, dst))
    case ElementDelimiter => Done(CountComma(m, dst))
    case ObjectFinish =>
      if !c.trailingCommas && m.state.MemberDelimiter? then Stop(Failure(ObjectMissName, i, m.at.events))
      else CloseFrame(c, m, true)
    case ArrayFinish =>
      if !c.trailingCommas && m.state.ElementDelimiter? then Stop(Failure(ValueInvalid, i, m.at.events))
      else CloseFrame(c, m, false)
    case _ =>
      var at :- ParseValue(c, s, i, m.at.events);
      Done(m.(state := Finish, at := at))
  }

  /** The loop of `IterativeParse`. */
  function Run(c: Config, s: seq<Byte>, m: Machine): Outcome<Point>
    requires m.at.pos <= |s| && Framed(m.state, m.stack)
    decreases |s| - m.at.pos, 1
  {
    if Peek(s, m.at.pos) == 0 then
      if m.state.Finish? then Done(m.at) else Stop(HandleError(m.state, m.at))
    else
      var next :- Transit(c, s, m);
      Resume(c, s, next)
  }

  /** The end of the loop body. */
  function Resume(c: Config, s: seq<Byte>, m: Machine): Outcome<Point>
    requires m.at.pos <= |s| && Framed(m.state, m.stack)
    decreases |s| - m.at.pos, 2
  {
    if c.stopWhenDone && m.state.Finish? then Done(m.at)
    else
      var j :- Skip(c, s, m.at.pos, m.at.events);
      Run(c, s, m.(at := m.at.(pos := j)))
  }

  function IterativeParse(c: Config, s: seq<Byte>): Outcome<Point> {
    var i :- Skip(c, s, 0, []);
    Run(c, s, Machine(Start, [], Point(i, [])))
  }
}
