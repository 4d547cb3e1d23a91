/** writer.h and prettywriter.h: printing an event stream, compact or indented. */
module Writer {
  import opened Bytes
  import opened Json
  import opened Trees

  /** The two writers, and the format options of the pretty one. */
  datatype Style = Compact | Pretty(indentChar: Byte, indentCharCount: nat, singleLineArray: bool)

  /** The assertion of `SetIndent`. */
  predicate IsStyle(style: Style) {
    style.Pretty? ==> style.indentChar == 32 || style.indentChar == 9 || style.indentChar == 10 || style.indentChar == 13
  }

  // ---------------------------------------------------------------------------------------
  // Scalars
  // ---------------------------------------------------------------------------------------

  /** The writer's escape table, and the escape it leads to. */
  function EscapeByte(b: Byte): (r: seq<Byte>)
    ensures |r| >= 1
  {
    if b == 8 then [92, 98]
    else if b == 9 then [92, 116]
    else if b == 10 then [92, 110]
    else if b == 12 then [92, 102]
    else if b == 13 then [92, 114]
    else if b == 34 || b == 92 then [92, b]
    else if b < 32 then [92, 117, 48, 48, HexDigitOf(b / 16), HexDigitOf(b % 16)]
    else [b]
  }

  function Escaped(str: seq<Byte>): seq<Byte> {
    if str == [] then [] else EscapeByte(str[0]) + Escaped(str[1..])
  }

  function StringText(str: seq<Byte>): seq<Byte> {
    [QUOTE] + Escaped(str) + [QUOTE]
  }

  function Digits(n: nat): (r: seq<Byte>)
    ensures |r| >= 1
  {
    if n < 10 then [48 + n] else Digits(n / 10) + [48 + n % 10]
  }

  function IntegerText(n: int): (r: seq<Byte>)
    ensures |r| >= 1
  {
    if n < 0 then [MINUS] + Digits(-n) else Digits(n)
  }

  function LeafText(e: Event): seq<Byte> {
    match e
    case Null => [110, 117, 108, 108]
    case Bool(b) => if b then [116, 114, 117, 101] else [102, 97, 108, 115, 101]
    case Int(i) => IntegerText(i)
    case Uint(u) => IntegerText(u)
    case Int64(i64) => IntegerText(i64)
    case Uint64(u64) => IntegerText(u64)
    case String(str) => StringText(str)
    case _ => []
  }

  // ---------------------------------------------------------------------------------------
  // The writer's state
  // ---------------------------------------------------------------------------------------

  datatype Level = Level(valueCount: nat, inArray: bool)

  /** What has been written, the open brackets, and whether there has been a root. */
  datatype Output = Output(os: seq<Byte>, levels: seq<Level>, hasRoot: bool)

  function Indent(style: Style, depth: nat): seq<Byte>
    requires style.Pretty?
  {
    seq(depth * style.indentCharCount, _ => style.indentChar)
  }

  /** What `Prefix` or `PrettyPrefix` puts before the value number `count` of a bracket at `depth`. */
  function Before(style: Style, depth: nat, inArray: bool, count: nat): seq<Byte> {
    match style
    case Compact =>
      if count == 0 then []
      else if inArray || count % 2 == 0 then [COMMA]
      else [COLON]
    case Pretty(_, _, singleLineArray) =>
      if inArray then
        if singleLineArray then (if count > 0 then [COMMA, SPACE] else [])
        else (if count > 0 then [COMMA] else []) + [NEWLINE] + Indent(style, depth)
      else if count % 2 == 1 then [COLON, SPACE]
      else (if count > 0 then [COMMA] else []) + [NEWLINE] + Indent(style, depth)
  }

  /** What `EndObject` or `EndArray` puts before the bracket, `depth` being that outside it. */
  function BeforeEnd(style: Style, depth: nat, inArray: bool, count: nat): seq<Byte> {
    if style.Compact? || count == 0 || (inArray && style.singleLineArray) then []
    else [NEWLINE] + Indent(style, depth)
  }

  /** The prefix of a value of which `isString` says whether it may be a name; none if it may not come here. */
  function Prefix(style: Style, out: Output, isString: bool): Option<Output> {
    if out.levels == [] then
      if out.hasRoot then None else Some(out.(hasRoot := true))
    else
      var n := |out.levels| - 1;
      var level := out.levels[n];
      if !level.inArray && level.valueCount % 2 == 0 && !isString then None
      else Some(out.(os := out.os + Before(style, |out.levels|, level.inArray, level.valueCount),
                     levels := out.levels[n := level.(valueCount := level.valueCount + 1)]))
  }

  function Put(out: Output, text: seq<Byte>): Output {
    out.(os := out.os + text)
  }

  /** One handler call; none where an assertion of the writer fails. */
  function Write(style: Style, out: Output, e: Event): Option<Output> {
    match e
    case StartObject =>
      (match Prefix(style, out, false)
       case None => None
       case Some(p) => Some(Put(p, [LBRACE]).(levels := p.levels + [Level(0, false)])))
    case StartArray =>
      (match Prefix(style, out, false)
       case None => None
       case Some(p) => Some(Put(p, [LBRACKET]).(levels := p.levels + [Level(0, true)])))
    case EndObject(_) =>
      if out.levels == [] then None
      else
        var n := |out.levels| - 1;
        var level := out.levels[n];
        if level.inArray || level.valueCount % 2 == 1 then None
        else Some(Put(out, BeforeEnd(style, n, false, level.valueCount) + [RBRACE]).(levels := out.levels[..n]))
    case EndArray(_) =>
      if out.levels == [] then None
      else
        var n := |out.levels| - 1;
        var level := out.levels[n];
        if !level.inArray then None
        else Some(Put(out, BeforeEnd(style, n, true, level.valueCount) + [RBRACKET]).(levels := out.levels[..n]))
    case Key(name) =>
      (match Prefix(style, out, true)
       case None => None
       case Some(p) => Some(Put(p, StringText(name))))
    case _ =>
      match Prefix(style, out, e.String?)
      case None => None
      case Some(p) => Some(Put(p, LeafText(e)))
  }

  function WriteAll(style: Style, out: Output, events: seq<Event>): Option<Output>
    decreases |events|
  {
    if events == [] then Some(out)
    else match Write(style, out, events[0])
      case None => None
      case Some(next) => WriteAll(style, next, events[1..])
  }

  const EMPTY: Output := Output([], [], false)

  // ---------------------------------------------------------------------------------------
  // The text of a tree
  // ---------------------------------------------------------------------------------------

  function Text(style: Style, depth: nat, t: Tree): seq<Byte>
    decreases t, 1
  {
    match t
    case Leaf(e) => LeafText(e)
    case Obj(ms) =>
      [LBRACE] + MembersText(style, depth + 1, ms, 0) + BeforeEnd(style, depth, false, 2 * |ms|) + [RBRACE]
    case Arr(ts) =>
      [LBRACKET] + ElementsText(style, depth + 1, ts, 0) + BeforeEnd(style, depth, true, |ts|) + [RBRACKET]
  }

  /** The members from number `k` on. */
  function MembersText(style: Style, depth: nat, ms: seq<Member>, k: nat): seq<Byte>
    decreases ms, 0
  {
    if ms == [] then []
    else MemberText(style, depth, ms[0], k) + MembersText(style, depth, ms[1..], k + 1)
  }

  function MemberText(style: Style, depth: nat, m: Member, k: nat): seq<Byte>
    decreases m, 2
  {
    Before(style, depth, false, 2 * k) + StringText(m.name)
    + Before(style, depth, false, 2 * k + 1) + Text(style, depth, m.value)
  }

  function ElementsText(style: Style, depth: nat, ts: seq<Tree>, k: nat): seq<Byte>
    decreases ts, 0
  {
    if ts == [] then []
    else Before(style, depth, true, k) + Text(style, depth, ts[0]) + ElementsText(style, depth, ts[1..], k + 1)
  }

  // ---------------------------------------------------------------------------------------
  // Writing a tree
  // ---------------------------------------------------------------------------------------

  /** A value may be written next. */
  predicate Ready(out: Output) {
    if out.levels == [] then !out.hasRoot
    else
      var level := out.levels[|out.levels| - 1];
      level.inArray || level.valueCount % 2 == 1
  }

  /** The state after the prefix of the value that comes next. */
  function Prefixed(style: Style, out: Output): Output {
    if out.levels == [] then out.(hasRoot := true)
    else
      var n := |out.levels| - 1;
      var level := out.levels[n];
      out.(os := out.os + Before(style, |out.levels|, level.inArray, level.valueCount),
           levels := out.levels[n := level.(valueCount := level.valueCount + 1)])
  }

  lemma WriteStep(style: Style, out: Output, e: Event, rest: seq<Event>)
    ensures WriteAll(style, out, [e] + rest)
         == match Write(style, out, e) case None => None case Some(next) => WriteAll(style, next, rest)
  {
  }

  lemma WriteKey(style: Style, out: Output, name: seq<Byte>, rest: seq<Event>)
    requires out.levels != [] && !out.levels[|out.levels| - 1].inArray
    ensures WriteAll(style, out, [Key(name)] + rest)
         == WriteAll(style, Put(Prefixed(style, out), StringText(name)), rest)
  {
  }

  function Begun(style: Style, out: Output, inArray: bool): Output {
    var p := Prefixed(style, out);
    Put(p, [if inArray then LBRACKET else LBRACE]).(levels := p.levels + [Level(0, inArray)])
  }

  lemma WriteStart(style: Style, out: Output, inArray: bool, rest: seq<Event>)
    requires Ready(out)
    ensures WriteAll(style, out, [if inArray then StartArray else StartObject] + rest)
         == WriteAll(style, Begun(style, out, inArray), rest)
  {
  }

  lemma WriteEnd(style: Style, out: Output, outer: seq<Level>, level: Level, n: nat, rest: seq<Event>)
    requires out.levels == outer + [level] && (level.inArray || level.valueCount % 2 == 0)
    ensures WriteAll(style, out, [if level.inArray then EndArray(n) else EndObject(n)] + rest)
         == WriteAll(style,
                     Put(out, BeforeEnd(style, |outer|, level.inArray, level.valueCount)
                              + [if level.inArray then RBRACKET else RBRACE]).(levels := outer),
                     rest)
  {
  }

  /** The stream of a tree writes the prefix and the tree's text, and closes all it opened. */
  lemma {:induction false} WriteTree(style: Style, out: Output, t: Tree, rest: seq<Event>)
    requires IsTree(t) && Ready(out)
    ensures WriteAll(style, out, Events(t) + rest)
         == WriteAll(style, Put(Prefixed(style, out), Text(style, |out.levels|, t)), rest)
    decreases t, 2
  {
    match t
    case Leaf(e) => WriteStep(style, out, e, rest);
    case Obj(ms) => WriteObject(style, out, ms, rest);
    case Arr(ts) => WriteArray(style, out, ts, rest);
  }

  lemma {:induction false} WriteObject(style: Style, out: Output, ms: seq<Member>, rest: seq<Event>)
    requires Ready(out) && forall m <- ms :: IsTree(m.value)
    ensures WriteAll(style, out, Events(Obj(ms)) + rest)
         == WriteAll(style, Put(Prefixed(style, out), Text(style, |out.levels|, Obj(ms))), rest)
    decreases ms, 2
  {
    hide WriteAll, Prefixed, Before, BeforeEnd, MembersText, MemberEvents, Ready, Leaves;
    var p := Prefixed(style, out);
    PrefixedLevels(style, out);
    var begun := Begun(style, out, false);
    var tail := [EndObject(|ms|)] + rest;
    assert Events(Obj(ms)) + rest == [StartObject] + (MemberEvents(ms) + tail);
    WriteStart(style, out, false, MemberEvents(ms) + tail);
    WriteMembers(style, begun, ms, 0, tail);
    var full := WithMembers(style, begun, ms, 0);
    assert full.levels == p.levels + [Level(2 * |ms|, false)];
    WriteEnd(style, full, p.levels, Level(2 * |ms|, false), |ms|, rest);
    assert Put(p, Text(style, |out.levels|, Obj(ms))).os
        == full.os + (BeforeEnd(style, |out.levels|, false, 2 * |ms|) + [RBRACE]);
  }

  lemma {:induction false} WriteArray(style: Style, out: Output, ts: seq<Tree>, rest: seq<Event>)
    requires Ready(out) && forall t <- ts :: IsTree(t)
    ensures WriteAll(style, out, Events(Arr(ts)) + rest)
         == WriteAll(style, Put(Prefixed(style, out), Text(style, |out.levels|, Arr(ts))), rest)
    decreases ts, 2
  {
    hide WriteAll, Prefixed, Before, BeforeEnd, ElementsText, ElementEvents, Ready, Leaves;
    var p := Prefixed(style, out);
    PrefixedLevels(style, out);
    var begun := Begun(style, out, true);
    var tail := [EndArray(|ts|)] + rest;
    assert Events(Arr(ts)) + rest == [StartArray] + (ElementEvents(ts) + tail);
    WriteStart(style, out, true, ElementEvents(ts) + tail);
    WriteElements(style, begun, ts, 0, tail);
    var full := WithElements(style, begun, ts, 0);
    assert full.levels == p.levels + [Level(|ts|, true)];
    WriteEnd(style, full, p.levels, Level(|ts|, true), |ts|, rest);
    assert Put(p, Text(style, |out.levels|, Arr(ts))).os
        == full.os + (BeforeEnd(style, |out.levels|, true, |ts|) + [RBRACKET]);
  }

  lemma PrefixedLevels(style: Style, out: Output)
    ensures |Prefixed(style, out).levels| == |out.levels|
  {
  }

  /** The state once the members from number `k` on have been written in the innermost bracket. */
  function WithMembers(style: Style, out: Output, ms: seq<Member>, k: nat): Output
    requires out.levels != []
  {
    Put(out, MembersText(style, |out.levels|, ms, k))
      .(levels := out.levels[|out.levels| - 1 := Level(2 * (k + |ms|), false)])
  }

  function WithElements(style: Style, out: Output, ts: seq<Tree>, k: nat): Output
    requires out.levels != []
  {
    Put(out, ElementsText(style, |out.levels|, ts, k))
      .(levels := out.levels[|out.levels| - 1 := Level(k + |ts|, true)])
  }

  function WithMember(style: Style, out: Output, m: Member, k: nat): Output
    requires out.levels != []
  {
    Put(out, MemberText(style, |out.levels|, m, k))
      .(levels := out.levels[|out.levels| - 1 := Level(2 * (k + 1), false)])
  }

  lemma WithMembersStep(style: Style, out: Output, ms: seq<Member>, k: nat)
    requires out.levels != [] && ms != []
    ensures WithMembers(style, out, ms, k) == WithMembers(style, WithMember(style, out, ms[0], k), ms[1..], k + 1)
  {
  }

  lemma {:induction false} WriteMember(style: Style, out: Output, m: Member, k: nat, rest: seq<Event>)
    requires IsTree(m.value)
    requires out.levels != [] && out.levels[|out.levels| - 1] == Level(2 * k, false)
    ensures WriteAll(style, out, [Key(m.name)] + Events(m.value) + rest)
         == WriteAll(style, WithMember(style, out, m, k), rest)
    decreases m, 3
  {
    hide WriteAll, Before, StringText, Text, Events, Leaves;
    var named := Put(Prefixed(style, out), StringText(m.name));
    assert [Key(m.name)] + Events(m.value) + rest == [Key(m.name)] + (Events(m.value) + rest);
    WriteKey(style, out, m.name, Events(m.value) + rest);
    WriteTree(style, named, m.value, rest);
    assert Put(Prefixed(style, named), Text(style, |out.levels|, m.value)) == WithMember(style, out, m, k);
  }

  lemma {:induction false} WriteMembers(style: Style, out: Output, ms: seq<Member>, k: nat, rest: seq<Event>)
    requires forall m <- ms :: IsTree(m.value)
    requires out.levels != [] && out.levels[|out.levels| - 1] == Level(2 * k, false)
    ensures WriteAll(style, out, MemberEvents(ms) + rest) == WriteAll(style, WithMembers(style, out, ms, k), rest)
    decreases ms, 1
  {
    hide WriteAll, MemberText, Events, Leaves;
    if ms == [] {
      assert MemberEvents(ms) + rest == rest;
      assert WithMembers(style, out, ms, k) == out;
    } else {
      var more := MemberEvents(ms[1..]) + rest;
      assert MemberEvents(ms) + rest == [Key(ms[0].name)] + Events(ms[0].value) + more;
      WriteMember(style, out, ms[0], k, more);
      WriteMembers(style, WithMember(style, out, ms[0], k), ms[1..], k + 1, rest);
      WithMembersStep(style, out, ms, k);
    }
  }

  lemma {:induction false} WriteElements(style: Style, out: Output, ts: seq<Tree>, k: nat, rest: seq<Event>)
    requires forall t <- ts :: IsTree(t)
    requires out.levels != [] && out.levels[|out.levels| - 1] == Level(k, true)
    ensures WriteAll(style, out, ElementEvents(ts) + rest) == WriteAll(style, WithElements(style, out, ts, k), rest)
    decreases ts, 1
  {
    hide WriteAll, Before, Text, Events, Leaves;
    if ts == [] {
      assert ElementEvents(ts) + rest == rest;
      assert WithElements(style, out, ts, k) == out;
    } else {
      var more := ElementEvents(ts[1..]) + rest;
      var next := Put(Prefixed(style, out), Text(style, |out.levels|, ts[0]));
      assert ElementEvents(ts) + rest == Events(ts[0]) + more;
      WriteTree(style, out, ts[0], more);
      WriteElements(style, next, ts[1..], k + 1, rest);
      assert WithElements(style, next, ts[1..], k + 1) == WithElements(style, out, ts, k);
    }
  }

  /** A fresh writer sent the stream of a tree prints its text, and is then complete. */
  lemma WriteWholeTree(style: Style, t: Tree)
    requires IsTree(t)
    ensures WriteAll(style, EMPTY, Events(t)) == Some(Output(Text(style, 0, t), [], true))
  {
    WriteTree(style, EMPTY, t, []);
    assert Events(t) + [] == Events(t);
    assert [] + Text(style, 0, t) == Text(style, 0, t);
  }

  // ---------------------------------------------------------------------------------------
  // The writers as they run
  // ---------------------------------------------------------------------------------------

  /** Both writers: they share the stream, the level stack and everything but the prefixes and ends. */
  class StreamWriter {
    const style: Style
    var os_: seq<Byte>
    var level_stack_: seq<Level>
    var hasRoot_: bool

    constructor (style: Style)
      ensures this.style == style && State() == EMPTY
    {
      this.style := style;
      os_, level_stack_, hasRoot_ := [], [], false;
    }

    function State(): Output
      reads this
    {
      Output(os_, level_stack_, hasRoot_)
    }

    method PutN(b: Byte, n: nat)
      modifies this`os_
      ensures os_ == old(os_) + seq(n, _ => b)
    {
      for i := 0 to n
        invariant os_ == old(os_) + seq(i, _ => b)
      {
        os_ := os_ + [b];
      }
    }

    method WriteIndent()
      requires style.Pretty?
      modifies this`os_
      ensures os_ == old(os_) + Indent(style, |level_stack_|)
    {
      PutN(style.indentChar, |level_stack_| * style.indentCharCount);
    }

    /** One byte of a string, escaped where the table says so. */
    method PutEscaped(c: Byte)
      modifies this`os_
      ensures os_ == old(os_) + EscapeByte(c)
    {
      if c < 32 || c == 34 || c == 92 {
        os_ := os_ + [BACKSLASH];
        if |EscapeByte(c)| == 2 {
          os_ := os_ + [EscapeByte(c)[1]];
        } else {
          os_ := os_ + [LOWER_U, ZERO, ZERO, HexDigitOf(c / 16), HexDigitOf(c % 16)];
        }
      } else {
        os_ := os_ + [c];
      }
    }

    method WriteString(str: seq<Byte>)
      modifies this`os_
      ensures os_ == old(os_) + StringText(str)
    {
      hide EscapeByte;
      os_ := os_ + [QUOTE];
      var i := 0;
      while i < |str|
        invariant 0 <= i <= |str|
        invariant os_ + Escaped(str[i..]) == old(os_) + [QUOTE] + Escaped(str)
      {
        ghost var before := os_;
        assert str[i..][1..] == str[i + 1..];
        PutEscaped(str[i]);
        assert before + Escaped(str[i..]) == os_ + Escaped(str[i + 1..]);
        i := i + 1;
      }
      assert os_ + Escaped(str[i..]) == os_;
      os_ := os_ + [QUOTE];
    }

    /** `Prefix` of the compact writer. */
    method PlainPrefix(isString: bool)
      requires style.Compact? && Prefix(style, State(), isString).Some?
      modifies this
      ensures Prefix(style, old(State()), isString) == Some(State())
    {
      if level_stack_ != [] {
        var n := |level_stack_| - 1;
        var level := level_stack_[n];
        if level.valueCount > 0 {
          if level.inArray {
            os_ := os_ + [COMMA];
          } else {
            os_ := os_ + [if level.valueCount % 2 == 0 then COMMA else COLON];
          }
        }
        assert os_ == old(os_) + Before(style, n + 1, level.inArray, level.valueCount);
        level_stack_ := level_stack_[n := level.(valueCount := level.valueCount + 1)];
      } else {
        hasRoot_ := true;
      }
    }

    /** `PrettyPrefix`. */
    method PrettyPrefix(isString: bool)
      requires style.Pretty? && Prefix(style, State(), isString).Some?
      modifies this
      ensures Prefix(style, old(State()), isString) == Some(State())
    {
      if level_stack_ != [] {
        var n := |level_stack_| - 1;
        var level := level_stack_[n];
        if level.inArray {
          if level.valueCount > 0 {
            os_ := os_ + [COMMA];
            if style.singleLineArray {
              os_ := os_ + [SPACE];
            }
          }
          if !style.singleLineArray {
            os_ := os_ + [NEWLINE];
            WriteIndent();
          }
        } else {
          if level.valueCount > 0 {
            if level.valueCount % 2 == 0 {
              os_ := os_ + [COMMA];
              os_ := os_ + [NEWLINE];
            } else {
              os_ := os_ + [COLON];
              os_ := os_ + [SPACE];
            }
          } else {
            os_ := os_ + [NEWLINE];
          }
          if level.valueCount % 2 == 0 {
            WriteIndent();
          }
        }
        assert os_ == old(os_) + Before(style, n + 1, level.inArray, level.valueCount);
        level_stack_ := level_stack_[n := level.(valueCount := level.valueCount + 1)];
      } else {
        hasRoot_ := true;
      }
    }

    method WritePrefix(isString: bool)
      requires Prefix(style, State(), isString).Some?
      modifies this
      ensures Prefix(style, old(State()), isString) == Some(State())
    {
      if style.Compact? {
        PlainPrefix(isString);
      } else {
        PrettyPrefix(isString);
      }
    }

    /** `Null`, `Bool`, `Int`, `Uint`, `Int64`, `Uint64` and `String`. */
    method Scalar(e: Event)
      requires IsScalar(e) && Write(style, State(), e).Some?
      modifies this
      ensures Write(style, old(State()), e) == Some(State())
    {
      WritePrefix(e.String?);
      if e.String? {
        WriteString(e.str);
      } else {
        os_ := os_ + LeafText(e);
      }
    }

    method Key(name: seq<Byte>)
      requires Write(style, State(), Event.Key(name)).Some?
      modifies this
      ensures Write(style, old(State()), Event.Key(name)) == Some(State())
    {
      WritePrefix(true);
      WriteString(name);
    }

    method StartObject()
      requires Write(style, State(), Event.StartObject).Some?
      modifies this
      ensures Write(style, old(State()), Event.StartObject) == Some(State())
    {
      WritePrefix(false);
      level_stack_ := level_stack_ + [Level(0, false)];
      os_ := os_ + [LBRACE];
    }

    method StartArray()
      requires Write(style, State(), Event.StartArray).Some?
      modifies this
      ensures Write(style, old(State()), Event.StartArray) == Some(State())
    {
      WritePrefix(false);
      level_stack_ := level_stack_ + [Level(0, true)];
      os_ := os_ + [LBRACKET];
    }

    method EndObject(memberCount: nat)
      requires Write(style, State(), Event.EndObject(memberCount)).Some?
      modifies this
      ensures Write(style, old(State()), Event.EndObject(memberCount)) == Some(State())
    {
      var count := level_stack_[|level_stack_| - 1].valueCount;
      var empty := count == 0;
      level_stack_ := level_stack_[..|level_stack_| - 1];
      if style.Pretty? && !empty {
        os_ := os_ + [NEWLINE];
        WriteIndent();
      }
      os_ := os_ + [RBRACE];
      assert os_ == old(os_) + (BeforeEnd(style, |level_stack_|, false, count) + [RBRACE]);
    }

    method EndArray(elementCount: nat)
      requires Write(style, State(), Event.EndArray(elementCount)).Some?
      modifies this
      ensures Write(style, old(State()), Event.EndArray(elementCount)) == Some(State())
    {
      var count := level_stack_[|level_stack_| - 1].valueCount;
      var empty := count == 0;
      level_stack_ := level_stack_[..|level_stack_| - 1];
      if style.Pretty? && !empty && !style.singleLineArray {
        os_ := os_ + [NEWLINE];
        WriteIndent();
      }
      os_ := os_ + [RBRACKET];
      assert os_ == old(os_) + (BeforeEnd(style, |level_stack_|, true, count) + [RBRACKET]);
    }
  }
}
