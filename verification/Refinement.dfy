/** The automaton refines the recursive parser. */
module Refinement {
  import opened Bytes
  import opened Json
  import opened Lexer
  import opened Grammar

  /**
   Equal results; only where the handler refused an event may the reported offsets differ, since
   one parser takes a bracket before reporting it and the other after.
   */
  predicate Same(a: Outcome<Point>, b: Outcome<Point>) {
    || a == b
    || (a.Stop? && b.Stop? && a.failure.code.Termination? && a.failure == b.failure.(offset := a.failure.offset))
  }

  /** Carries on with the automaton where the recursive parser left off. */
  function Then(c: Config, s: seq<Byte>, r: Outcome<Point>, state: State, stack: seq<Cell>): Outcome<Point>
    requires Framed(state, stack) && (r.Done? ==> r.value.pos <= |s|)
  {
    match r
    case Stop(f) => Stop(f)
    case Done(p) => Resume(c, s, Machine(state, stack, p))
  }

  /** The bytes no value begins with, but a token the table knows. */
  predicate IsCloser(b: Byte) {
    b == COMMA || b == COLON || b == RBRACKET || b == RBRACE
  }

  function After(src: State): State {
    Closed(ReturnState(src))
  }

  lemma NoScalar(c: Config, s: seq<Byte>, i: nat)
    requires i <= |s| && (Peek(s, i) == 0 || IsCloser(Peek(s, i)))
    ensures ParseScalar(c, s, i) == Bad(ValueInvalid, i)
  {
  }

  // ---------------------------------------------------------------------------------------
  // The steps of the automaton
  // ---------------------------------------------------------------------------------------

  /** What the automaton does with the outcome of a transition. */
  function Continue(c: Config, s: seq<Byte>, r: Outcome<Machine>): Outcome<Point>
    requires r.Done? ==> r.value.at.pos <= |s| && Framed(r.value.state, r.value.stack)
  {
    match r
    case Stop(f) => Stop(f)
    case Done(m) => Resume(c, s, m)
  }

  lemma StepOpen(c: Config, s: seq<Byte>, m: Machine)
    requires m.at.pos < |s| && Framed(m.state, m.stack) && PredictsBracket(m.state)
    ensures s[m.at.pos] == LBRACE ==>
              Run(c, s, m) == Continue(c, s, OpenFrame(c, m, ObjectInitial, StartObject))
    ensures s[m.at.pos] == LBRACKET ==>
              Run(c, s, m) == Continue(c, s, OpenFrame(c, m, ArrayInitial, StartArray))
  {
    hide OpenFrame, CloseFrame, CountComma, ParseValue, Resume, ParseString;
  }

  lemma StepScalar(c: Config, s: seq<Byte>, m: Machine)
    requires m.at.pos < |s| && Framed(m.state, m.stack) && PredictsBracket(m.state)
    requires var b := s[m.at.pos]; b != 0 && !IsCloser(b) && b != LBRACE && b != LBRACKET
    ensures Framed(After(m.state), m.stack)
    ensures Run(c, s, m)
         == Then(c, s, Report(c, ParseScalar(c, s, m.at.pos), m.at.events), After(m.state), m.stack)
  {
    hide OpenFrame, CloseFrame, CountComma, ParseScalar, Resume, ParseString;
  }

  lemma StepNoValue(c: Config, s: seq<Byte>, m: Machine)
    requires m.at.pos <= |s| && Framed(m.state, m.stack) && PredictsBracket(m.state) && !m.state.Start?
    requires var b := Peek(s, m.at.pos); b == 0 || IsCloser(b)
    requires Peek(s, m.at.pos) == RBRACKET ==>
               m.state.KeyValueDelimiter? || (m.state.ElementDelimiter? && !c.trailingCommas)
    ensures Run(c, s, m) == Stop(Failure(ValueInvalid, m.at.pos, m.at.events))
  {
  }

  lemma StepCloseObject(c: Config, s: seq<Byte>, m: Machine)
    requires m.at.pos < |s| && Framed(m.state, m.stack) && s[m.at.pos] == RBRACE
    requires m.state.ObjectInitial? || m.state.MemberValue? || (m.state.MemberDelimiter? && c.trailingCommas)
    ensures Run(c, s, m) == Continue(c, s, CloseFrame(c, m, true))
  {
  }

  lemma StepCloseArray(c: Config, s: seq<Byte>, m: Machine)
    requires m.at.pos < |s| && Framed(m.state, m.stack) && s[m.at.pos] == RBRACKET
    requires m.state.ArrayInitial? || m.state.Element? || (m.state.ElementDelimiter? && c.trailingCommas)
    ensures Run(c, s, m) == Continue(c, s, CloseFrame(c, m, false))
  {
  }

  lemma StepComma(c: Config, s: seq<Byte>, m: Machine)
    requires m.at.pos < |s| && Framed(m.state, m.stack) && s[m.at.pos] == COMMA
    ensures m.state.MemberValue? ==> Run(c, s, m) == Resume(c, s, CountComma(m, MemberDelimiter))
    ensures m.state.Element? ==> Run(c, s, m) == Resume(c, s, CountComma(m, ElementDelimiter))
  {
  }

  lemma StepKey(c: Config, s: seq<Byte>, m: Machine)
    requires m.at.pos <= |s| && Framed(m.state, m.stack) && (m.state.ObjectInitial? || m.state.MemberDelimiter?)
    requires Peek(s, m.at.pos) == RBRACE ==> m.state.MemberDelimiter? && !c.trailingCommas
    ensures Framed(MemberKey, m.stack)
    ensures Peek(s, m.at.pos) == QUOTE ==>
              Run(c, s, m)
              == Then(c, s, Report(c, ParseString(c, s, m.at.pos, true), m.at.events), MemberKey, m.stack)
    ensures Peek(s, m.at.pos) != QUOTE ==>
              Run(c, s, m) == Stop(Failure(ObjectMissName, m.at.pos, m.at.events))
  {
  }

  lemma StepColon(c: Config, s: seq<Byte>, m: Machine)
    requires m.at.pos <= |s| && Framed(m.state, m.stack) && m.state.MemberKey?
    ensures Framed(KeyValueDelimiter, m.stack)
    ensures Peek(s, m.at.pos) == COLON ==>
              Run(c, s, m) == Resume(c, s, Machine(KeyValueDelimiter, m.stack, m.at.(pos := m.at.pos + 1)))
    ensures Peek(s, m.at.pos) != COLON ==>
              Run(c, s, m) == Stop(Failure(ObjectMissColon, m.at.pos, m.at.events))
  {
  }

  lemma StepNoSeparator(c: Config, s: seq<Byte>, m: Machine)
    requires m.at.pos <= |s| && Framed(m.state, m.stack) && Peek(s, m.at.pos) != COMMA
    ensures m.state.MemberValue? && Peek(s, m.at.pos) != RBRACE ==>
              Run(c, s, m) == Stop(Failure(ObjectMissCommaOrCurlyBracket, m.at.pos, m.at.events))
    ensures m.state.Element? && Peek(s, m.at.pos) != RBRACKET ==>
              Run(c, s, m) == Stop(Failure(ArrayMissCommaOrSquareBracket, m.at.pos, m.at.events))
  {
  }

  /** Inside a bracket the loop goes on to the next token. */
  lemma ResumeInside(c: Config, s: seq<Byte>, m: Machine)
    requires m.at.pos <= |s| && Framed(m.state, m.stack) && !m.state.Finish?
    ensures Skip(c, s, m.at.pos, m.at.events).Stop? ==>
              Resume(c, s, m) == Stop(Skip(c, s, m.at.pos, m.at.events).failure)
    ensures Skip(c, s, m.at.pos, m.at.events).Done? ==>
              Resume(c, s, m)
              == Run(c, s, m.(at := Point(Skip(c, s, m.at.pos, m.at.events).value, m.at.events)))
  {
  }

  /** The frame of a bracket opened on top of a stack. */
  function Frame(stack: seq<Cell>, outer: State, n: nat): seq<Cell> {
    stack + [Return(outer), Count(n)]
  }

  predicate IsOuter(state: State) {
    state.Start? || state.Element? || state.MemberValue?
  }

  predicate IsInner(state: State) {
    || state.ObjectInitial? || state.MemberKey? || state.MemberValue? || state.MemberDelimiter?
    || state.KeyValueDelimiter? || state.ArrayInitial? || state.Element? || state.ElementDelimiter?
  }

  lemma FrameIsFramed(stack: seq<Cell>, outer: State, n: nat, inner: State)
    requires Framed(outer, stack) && IsOuter(outer) && IsInner(inner)
    ensures Framed(inner, Frame(stack, outer, n)) && Framed(Closed(outer), stack)
  {
  }

  lemma OpenIsFrame(c: Config, m: Machine, dst: State, e: Event)
    requires dst.ObjectInitial? || dst.ArrayInitial?
    requires Framed(m.state, m.stack) && PredictsBracket(m.state)
    ensures IsOuter(ReturnState(m.state)) && Framed(ReturnState(m.state), m.stack)
    ensures Framed(After(m.state), m.stack)
    ensures OpenFrame(c, m, dst, e)
         == if c.accepts(m.at.events + [e])
            then Done(Machine(dst, Frame(m.stack, ReturnState(m.state), 0),
                              Point(m.at.pos + 1, m.at.events + [e])))
            else Stop(Failure(Termination, m.at.pos, m.at.events + [e]))
  {
  }

  lemma CommaOnFrame(stack: seq<Cell>, outer: State, n: nat, state: State, dst: State, at: Point)
    requires Framed(outer, stack) && IsOuter(outer) && IsInner(state)
    requires dst.MemberDelimiter? || dst.ElementDelimiter?
    ensures Framed(state, Frame(stack, outer, n))
    ensures CountComma(Machine(state, Frame(stack, outer, n), at), dst)
         == Machine(dst, Frame(stack, outer, CountUp(n)), at.(pos := at.pos + 1))
  {
    FrameIsFramed(stack, outer, n, state);
  }

  lemma CloseOnFrame(c: Config, stack: seq<Cell>, outer: State, n: nat, state: State, at: Point, isObject: bool)
    requires Framed(outer, stack) && IsOuter(outer) && IsInner(state)
    ensures Framed(state, Frame(stack, outer, n)) && Framed(Closed(outer), stack)
    ensures var last := if isObject then state.MemberValue? else state.Element?;
            var count := if last then CountUp(n) else n;
            var events := at.events + [if isObject then EndObject(count) else EndArray(count)];
            (CloseFrame(c, Machine(state, Frame(stack, outer, n), at), isObject)
             == if c.accepts(events) then Done(Machine(Closed(outer), stack, Point(at.pos + 1, events)))
                else Stop(Failure(Termination, at.pos, events)))
  {
    FrameIsFramed(stack, outer, n, state);
    assert Frame(stack, outer, n)[..|stack|] == stack;
  }

  // ---------------------------------------------------------------------------------------
  // The simulation
  // ---------------------------------------------------------------------------------------

  /** Where a value may begin, the automaton does what `ParseValue` does and comes back. */
  lemma {:induction false} SimulateValue(c: Config, s: seq<Byte>, src: State, stack: seq<Cell>, at: Point)
    requires at.pos <= |s| && Framed(src, stack) && PredictsBracket(src)
    requires src.Start? ==> Peek(s, at.pos) != 0 && !IsCloser(Peek(s, at.pos))
    requires src.ArrayInitial? ==> Peek(s, at.pos) != RBRACKET
    requires src.ElementDelimiter? && c.trailingCommas ==> Peek(s, at.pos) != RBRACKET
    ensures Framed(After(src), stack)
    ensures Same(Run(c, s, Machine(src, stack, at)),
                 Then(c, s, ParseValue(c, s, at.pos, at.events), After(src), stack))
    decreases |s| - at.pos, 2
  {
    hide Run, Resume;
    var b := Peek(s, at.pos);
    var m := Machine(src, stack, at);
    if b == 0 || IsCloser(b) {
      NoScalar(c, s, at.pos);
      StepNoValue(c, s, m);
    } else if b == LBRACE {
      SimulateObject(c, s, m);
    } else if b == LBRACKET {
      SimulateArray(c, s, m);
    } else {
      StepScalar(c, s, m);
    }
  }

  lemma {:induction false} SimulateObject(c: Config, s: seq<Byte>, m: Machine)
    requires m.at.pos < |s| && Framed(m.state, m.stack) && PredictsBracket(m.state)
    requires Peek(s, m.at.pos) == LBRACE
    ensures Framed(After(m.state), m.stack)
    ensures Same(Run(c, s, m),
                 Then(c, s, ParseObject(c, s, m.at.pos, m.at.events), After(m.state), m.stack))
    decreases |s| - m.at.pos, 1
  {
    hide Run, Resume, ParseMembers, Framed, OpenFrame, CloseFrame;
    StepOpen(c, s, m);
    OpenIsFrame(c, m, ObjectInitial, StartObject);
    var outer := ReturnState(m.state);
    var inner := Machine(ObjectInitial, Frame(m.stack, outer, 0),
                         Point(m.at.pos + 1, m.at.events + [StartObject]));
    if c.accepts(m.at.events + [StartObject]) {
      FrameIsFramed(m.stack, outer, 0, ObjectInitial);
      ResumeInside(c, s, inner);
      var j := Skip(c, s, m.at.pos + 1, inner.at.events);
      if j.Done? {
        var p := Point(j.value, inner.at.events);
        if Peek(s, p.pos) == RBRACE {
          StepCloseObject(c, s, inner.(at := p));
          CloseOnFrame(c, m.stack, outer, 0, ObjectInitial, p, true);
        } else {
          SimulateMembers(c, s, ObjectInitial, m.stack, outer, 0, p);
        }
      }
    }
  }

  /** In the loop over members, the count on the stack is the number of members before the last comma. */
  lemma {:induction false} SimulateMembers(c: Config, s: seq<Byte>, src: State, stack: seq<Cell>, outer: State,
                                           n: nat, at: Point)
    requires at.pos <= |s| && (src.ObjectInitial? || src.MemberDelimiter?)
    requires IsOuter(outer) && Framed(outer, stack)
    requires Peek(s, at.pos) == RBRACE ==> src.MemberDelimiter? && !c.trailingCommas
    ensures Framed(src, Frame(stack, outer, n)) && Framed(Closed(outer), stack)
    ensures Same(Run(c, s, Machine(src, Frame(stack, outer, n), at)),
                 Then(c, s, ParseMembers(c, s, at.pos, at.events, n), Closed(outer), stack))
    decreases |s| - at.pos, 1
  {
    hide Run, Resume, ParseValue, ParseAfterMember, Framed, Frame, ParseString;
    var frame := Frame(stack, outer, n);
    FrameIsFramed(stack, outer, n, src);
    StepKey(c, s, Machine(src, frame, at));
    if Peek(s, at.pos) != QUOTE {
      return;
    }
    var key := Report(c, ParseString(c, s, at.pos, true), at.events);
    if key.Stop? {
      return;
    }
    FrameIsFramed(stack, outer, n, MemberKey);
    ResumeInside(c, s, Machine(MemberKey, frame, key.value));
    var colon := Skip(c, s, key.value.pos, key.value.events);
    if colon.Stop? {
      return;
    }
    StepColon(c, s, Machine(MemberKey, frame, Point(colon.value, key.value.events)));
    if Peek(s, colon.value) != COLON {
      return;
    }
    FrameIsFramed(stack, outer, n, KeyValueDelimiter);
    ResumeInside(c, s, Machine(KeyValueDelimiter, frame, Point(colon.value + 1, key.value.events)));
    var start := Skip(c, s, colon.value + 1, key.value.events);
    if start.Stop? {
      return;
    }
    SimulateValue(c, s, KeyValueDelimiter, frame, Point(start.value, key.value.events));
    var value := ParseValue(c, s, start.value, key.value.events);
    if value.Done? {
      SimulateAfterMember(c, s, stack, outer, n, value.value);
    }
  }

  lemma {:induction false} SimulateAfterMember(c: Config, s: seq<Byte>, stack: seq<Cell>, outer: State, n: nat, value: Point)
    requires value.pos <= |s| && IsOuter(outer) && Framed(outer, stack)
    ensures Framed(MemberValue, Frame(stack, outer, n)) && Framed(Closed(outer), stack)
    ensures Same(Resume(c, s, Machine(MemberValue, Frame(stack, outer, n), value)),
                 Then(c, s, ParseAfterMember(c, s, value, n), Closed(outer), stack))
    decreases |s| - value.pos, 3
  {
    hide Run, Resume, ParseMembers, Framed, Frame, CloseFrame, CountComma;
    var frame := Frame(stack, outer, n);
    FrameIsFramed(stack, outer, n, MemberValue);
    ResumeInside(c, s, Machine(MemberValue, frame, value));
    var j := Skip(c, s, value.pos, value.events);
    if j.Stop? {
      return;
    }
    var p := Point(j.value, value.events);
    var m := Machine(MemberValue, frame, p);
    if Peek(s, p.pos) == COMMA {
      StepComma(c, s, m);
      CommaOnFrame(stack, outer, n, MemberValue, MemberDelimiter, p);
      FrameIsFramed(stack, outer, CountUp(n), MemberDelimiter);
      var next := Machine(MemberDelimiter, Frame(stack, outer, CountUp(n)), Point(p.pos + 1, p.events));
      ResumeInside(c, s, next);
      var k := Skip(c, s, p.pos + 1, p.events);
      if k.Done? {
        var q := Point(k.value, p.events);
        if c.trailingCommas && Peek(s, q.pos) == RBRACE {
          StepCloseObject(c, s, next.(at := q));
          CloseOnFrame(c, stack, outer, CountUp(n), MemberDelimiter, q, true);
        } else {
          SimulateMembers(c, s, MemberDelimiter, stack, outer, CountUp(n), q);
        }
      }
    } else if Peek(s, p.pos) == RBRACE {
      StepCloseObject(c, s, m);
      CloseOnFrame(c, stack, outer, n, MemberValue, p, true);
    } else {
      StepNoSeparator(c, s, m);
    }
  }

  lemma {:induction false} SimulateArray(c: Config, s: seq<Byte>, m: Machine)
    requires m.at.pos < |s| && Framed(m.state, m.stack) && PredictsBracket(m.state)
    requires Peek(s, m.at.pos) == LBRACKET
    ensures Framed(After(m.state), m.stack)
    ensures Same(Run(c, s, m),
                 Then(c, s, ParseArray(c, s, m.at.pos, m.at.events), After(m.state), m.stack))
    decreases |s| - m.at.pos, 1
  {
    hide Run, Resume, ParseElements, Framed, OpenFrame, CloseFrame;
    StepOpen(c, s, m);
    OpenIsFrame(c, m, ArrayInitial, StartArray);
    var outer := ReturnState(m.state);
    var inner := Machine(ArrayInitial, Frame(m.stack, outer, 0),
                         Point(m.at.pos + 1, m.at.events + [StartArray]));
    if c.accepts(m.at.events + [StartArray]) {
      FrameIsFramed(m.stack, outer, 0, ArrayInitial);
      ResumeInside(c, s, inner);
      var j := Skip(c, s, m.at.pos + 1, inner.at.events);
      if j.Done? {
        var p := Point(j.value, inner.at.events);
        if Peek(s, p.pos) == RBRACKET {
          StepCloseArray(c, s, inner.(at := p));
          CloseOnFrame(c, m.stack, outer, 0, ArrayInitial, p, false);
        } else {
          SimulateElements(c, s, ArrayInitial, m.stack, outer, 0, p);
        }
      }
    }
  }

  lemma {:induction false} SimulateElements(c: Config, s: seq<Byte>, src: State, stack: seq<Cell>, outer: State,
                                            n: nat, at: Point)
    requires at.pos <= |s| && (src.ArrayInitial? || src.ElementDelimiter?)
    requires IsOuter(outer) && Framed(outer, stack)
    requires Peek(s, at.pos) == RBRACKET ==> src.ElementDelimiter? && !c.trailingCommas
    ensures Framed(src, Frame(stack, outer, n)) && Framed(Closed(outer), stack)
    ensures Same(Run(c, s, Machine(src, Frame(stack, outer, n), at)),
                 Then(c, s, ParseElements(c, s, at.pos, at.events, n), Closed(outer), stack))
    decreases |s| - at.pos, 3
  {
    hide Run, Resume, ParseValue, ParseAfterElement, Framed, Frame;
    FrameIsFramed(stack, outer, n, src);
    SimulateValue(c, s, src, Frame(stack, outer, n), at);
    var value := ParseValue(c, s, at.pos, at.events);
    if value.Done? {
      SimulateAfterElement(c, s, stack, outer, n, value.value);
    }
  }

  lemma {:induction false} SimulateAfterElement(c: Config, s: seq<Byte>, stack: seq<Cell>, outer: State, n: nat, value: Point)
    requires value.pos <= |s| && IsOuter(outer) && Framed(outer, stack)
    ensures Framed(Element, Frame(stack, outer, n)) && Framed(Closed(outer), stack)
    ensures Same(Resume(c, s, Machine(Element, Frame(stack, outer, n), value)),
                 Then(c, s, ParseAfterElement(c, s, value, n), Closed(outer), stack))
    decreases |s| - value.pos, 4
  {
    hide Run, Resume, ParseElements, Framed, Frame, CloseFrame, CountComma;
    var frame := Frame(stack, outer, n);
    FrameIsFramed(stack, outer, n, Element);
    ResumeInside(c, s, Machine(Element, frame, value));
    var j := Skip(c, s, value.pos, value.events);
    if j.Stop? {
      return;
    }
    var p := Point(j.value, value.events);
    var m := Machine(Element, frame, p);
    if Peek(s, p.pos) == COMMA {
      StepComma(c, s, m);
      CommaOnFrame(stack, outer, n, Element, ElementDelimiter, p);
      FrameIsFramed(stack, outer, CountUp(n), ElementDelimiter);
      var next := Machine(ElementDelimiter, Frame(stack, outer, CountUp(n)), Point(p.pos + 1, p.events));
      ResumeInside(c, s, next);
      var k := Skip(c, s, p.pos + 1, p.events);
      if k.Done? {
        var q := Point(k.value, p.events);
        if c.trailingCommas && Peek(s, q.pos) == RBRACKET {
          StepCloseArray(c, s, next.(at := q));
          CloseOnFrame(c, stack, outer, CountUp(n), ElementDelimiter, q, false);
        } else {
          SimulateElements(c, s, ElementDelimiter, stack, outer, CountUp(n), q);
        }
      }
    } else if Peek(s, p.pos) == RBRACKET {
      StepCloseArray(c, s, m);
      CloseOnFrame(c, stack, outer, n, Element, p, false);
    } else {
      StepNoSeparator(c, s, m);
    }
  }

  /**
   For every text, flags and handler: the two parsers give the same result, the same events with
   the same counts, and the same error at the same place, unless the text begins with a closing
   bracket, a comma or a colon, which both refuse but name differently.
   */
  lemma IterativeRefinesRecursive(c: Config, s: seq<Byte>)
    ensures var start := Skip(c, s, 0, []);
            if start.Done? && IsCloser(Peek(s, start.value)) then
              && Parse(c, s) == Stop(Failure(ValueInvalid, start.value, []))
              && IterativeParse(c, s) == Stop(Failure(DocumentEmpty, start.value, []))
            else Same(Parse(c, s), IterativeParse(c, s))
  {
    hide ParseValue;
    var start := Skip(c, s, 0, []);
    if start.Done? {
      var at := Point(start.value, []);
      if IsCloser(Peek(s, at.pos)) {
        RootCloser(c, s, at);
      } else if Peek(s, at.pos) != 0 {
        SimulateValue(c, s, Start, [], at);
        var root := ParseValue(c, s, at.pos, []);
        if root.Done? {
          FinishRoot(c, s, root.value);
        }
      }
    }
  }

  lemma RootCloser(c: Config, s: seq<Byte>, at: Point)
    requires at.pos < |s| && IsCloser(s[at.pos])
    ensures ParseValue(c, s, at.pos, at.events) == Stop(Failure(ValueInvalid, at.pos, at.events))
    ensures Run(c, s, Machine(Start, [], at)) == Stop(Failure(DocumentEmpty, at.pos, at.events))
  {
  }

  /** What either parser does after the root value. */
  function AfterRoot(c: Config, s: seq<Byte>, root: Point): Outcome<Point>
    requires root.pos <= |s|
  {
    if c.stopWhenDone then Done(root)
    else
      var j :- Skip(c, s, root.pos, root.events);
      if Peek(s, j) != 0 then Stop(Failure(DocumentRootNotSingular, j, root.events))
      else Done(Point(j, root.events))
  }

  lemma FinishRoot(c: Config, s: seq<Byte>, root: Point)
    requires root.pos <= |s|
    ensures Resume(c, s, Machine(Finish, [], root)) == AfterRoot(c, s, root)
  {
  }
}
