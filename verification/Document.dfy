/** document.h: values and their type flags, the events of a value, and building one from events. */
module Document {
  import opened Bytes
  import opened Json
  import opened Lexer
  import opened Grammar
  import opened Trees

  // ---------------------------------------------------------------------------------------
  // Numbers and their flags
  // ---------------------------------------------------------------------------------------

  type Flags = bv16

  const NUMBER_TYPE: Flags := 0x0006
  const NUMBER: Flags := 0x0010
  const INT: Flags := 0x0020
  const UINT: Flags := 0x0040
  const INT64: Flags := 0x0080
  const UINT64: Flags := 0x0100

  const NUMBER_INT: Flags := NUMBER_TYPE | NUMBER | INT | INT64
  const NUMBER_UINT: Flags := NUMBER_TYPE | NUMBER | UINT | UINT64 | INT64
  const NUMBER_INT64: Flags := NUMBER_TYPE | NUMBER | INT64
  const NUMBER_UINT64: Flags := NUMBER_TYPE | NUMBER | UINT64

  const TWO31: int := 0x8000_0000
  const TWO32: int := 0x1_0000_0000
  const TWO63: int := 0x8000_0000_0000_0000
  const TWO64: int := 0x1_0000_0000_0000_0000

  /** The 64-bit word that stores `n`. */
  function Word(n: int): int {
    n % TWO64
  }

  /** An integer value: its flags, and the 64-bit word it is stored in. */
  datatype Number = Number(flags: Flags, word: int)

  // One function for each integer constructor; the arguments are in the range of their C++ type.

  function FromInt(i: int): Number {
    Number(if i >= 0 then NUMBER_INT | UINT | UINT64 else NUMBER_INT, Word(i))
  }

  function FromUint(u: int): Number {
    Number(if u >= TWO31 then NUMBER_UINT else NUMBER_UINT | INT | INT64, Word(u))
  }

  function FromInt64(i64: int): Number {
    Number(
      if i64 >= 0 then
        (if i64 < TWO32 then UINT else 0) | (if i64 < TWO31 then INT else 0) | NUMBER_INT64 | NUMBER_UINT64
      else if i64 >= -TWO31 then NUMBER_INT64 | INT
      else NUMBER_INT64,
      Word(i64))
  }

  function FromUint64(u64: int): Number {
    Number(
      (if u64 < TWO63 then INT64 else 0) | (if u64 < TWO32 then UINT else 0)
      | (if u64 < TWO31 then INT else 0) | NUMBER_UINT64,
      Word(u64))
  }

  /** The type tests. */
  predicate Has(flags: Flags, flag: Flags) {
    flags & flag != 0
  }

  /** The low half of the word, and the signed readings of a half and of the whole. */
  function AsInt(word: int): int {
    var low := word % TWO32;
    if low < TWO31 then low else low - TWO32
  }

  function AsInt64(word: int): int {
    if word < TWO63 then word else word - TWO64
  }

  /** The event `Accept` sends for an integer. */
  function NumberEvent(n: Number): Event {
    if Has(n.flags, INT) then Int(AsInt(n.word))
    else if Has(n.flags, UINT) then Uint(n.word % TWO32)
    else if Has(n.flags, INT64) then Int64(AsInt64(n.word))
    else Uint64(n.word)
  }

  /** The integer an event carries, and whether it is in the range of its type. */
  predicate IsInteger(e: Event) {
    match e
    case Int(i) => -TWO31 <= i < TWO31
    case Uint(u) => 0 <= u < TWO32
    case Int64(i64) => -TWO63 <= i64 < TWO63
    case Uint64(u64) => 0 <= u64 < TWO64
    case _ => false
  }

  function IntegerOf(e: Event): int {
    match e
    case Int(i) => i
    case Uint(u) => u
    case Int64(i64) => i64
    case Uint64(u64) => u64
    case _ => 0
  }

  function NumberOf(e: Event): Number {
    match e
    case Int(i) => FromInt(i)
    case Uint(u) => FromUint(u)
    case Int64(i64) => FromInt64(i64)
    case Uint64(u64) => FromUint64(u64)
    case _ => Number(0, 0)
  }

  /** The flags a number must have: one for each of the four types that can hold it. */
  predicate HasFlagsOf(flags: Flags, n: int) {
    && (Has(flags, INT) <==> -TWO31 <= n < TWO31)
    && (Has(flags, UINT) <==> 0 <= n < TWO32)
    && (Has(flags, INT64) <==> -TWO63 <= n < TWO63)
    && (Has(flags, UINT64) <==> 0 <= n < TWO64)
    && flags & !(INT | UINT | INT64 | UINT64) == NUMBER_TYPE | NUMBER
  }

  /** Every constructor says exactly which of the four integer types can hold its argument. */
  lemma ConstructorsSetTheFlags(e: Event)
    requires IsInteger(e)
    ensures HasFlagsOf(NumberOf(e).flags, IntegerOf(e))
    ensures NumberOf(e).word == Word(IntegerOf(e))
  {
  }

  /** Flags and word depend on the number only, not on which constructor made the value. */
  lemma FlagsDependOnTheNumberOnly(e: Event, f: Event)
    requires IsInteger(e) && IsInteger(f) && IntegerOf(e) == IntegerOf(f)
    ensures NumberOf(e) == NumberOf(f)
  {
  }

  /** What `Accept` sends for a number is an event of a type that holds it, and carries it. */
  lemma NumberEventCarriesTheNumber(e: Event)
    requires IsInteger(e)
    ensures IsInteger(NumberEvent(NumberOf(e)))
    ensures IntegerOf(NumberEvent(NumberOf(e))) == IntegerOf(e)
    ensures NumberOf(NumberEvent(NumberOf(e))) == NumberOf(e)
    ensures var n := IntegerOf(e);
            NumberEvent(NumberOf(e)) == if -0x8000_0000 <= n < 0x8000_0000 then Int(n)
                                        else if 0 <= n < 0x1_0000_0000 then Uint(n)
                                        else if -0x8000_0000_0000_0000 <= n < 0x8000_0000_0000_0000 then Int64(n)
                                        else Uint64(n)
  {
    ConstructorsSetTheFlags(e);
    WordReadings(IntegerOf(e));
    FlagsDependOnTheNumberOnly(e, NumberEvent(NumberOf(e)));
  }

  lemma WordReadings(n: int)
    ensures -TWO31 <= n < TWO31 ==> AsInt(Word(n)) == n
    ensures 0 <= n < TWO32 ==> Word(n) % TWO32 == n
    ensures -TWO63 <= n < TWO63 ==> AsInt64(Word(n)) == n
    ensures 0 <= n < TWO64 ==> Word(n) == n
  {
  }

  // ---------------------------------------------------------------------------------------
  // Values
  // ---------------------------------------------------------------------------------------

  datatype Value =
    | NullValue
    | BoolValue(b: bool)
    | NumberValue(n: Number)
    | DoubleValue(bits: nat)
    | StringValue(str: seq<Byte>)
    | ObjectValue(entries: seq<Entry>)
    | ArrayValue(elements: seq<Value>)

  datatype Entry = Entry(name: Value, value: Value)

  /** What the constructors and `SetObjectRaw` guarantee: honest flags, string names, 32-bit sizes. */
  ghost predicate Canonical(v: Value)
    decreases v
  {
    match v
    case NumberValue(n) => exists e :: IsInteger(e) && n == NumberOf(e)
    case ObjectValue(es) => |es| < SIZE_TYPE && forall e <- es :: e.name.StringValue? && Canonical(e.value)
    case ArrayValue(vs) => |vs| < SIZE_TYPE && forall u <- vs :: Canonical(u)
    case _ => true
  }

  /** `Accept`. */
  function Accept(v: Value): seq<Event>
    decreases v, 1
  {
    match v
    case NullValue => [Null]
    case BoolValue(b) => [Bool(b)]
    case NumberValue(n) => [NumberEvent(n)]
    case DoubleValue(bits) => [Double(bits)]
    case StringValue(str) => [String(str)]
    case ObjectValue(es) => [StartObject] + AcceptEntries(es) + [EndObject(|es| % SIZE_TYPE)]
    case ArrayValue(vs) => [StartArray] + AcceptElements(vs) + [EndArray(|vs| % SIZE_TYPE)]
  }

  function AcceptEntries(es: seq<Entry>): seq<Event>
    decreases es, 0
  {
    if es == [] then []
    else
      var Entry(name, value) := es[0];
      assert es[0].value < es[0];
      [Key(if name.StringValue? then name.str else [])] + Accept(value) + AcceptEntries(es[1..])
  }

  function AcceptElements(vs: seq<Value>): seq<Event>
    decreases vs, 0
  {
    if vs == [] then [] else Accept(vs[0]) + AcceptElements(vs[1..])
  }

  // ---------------------------------------------------------------------------------------
  // Building
  // ---------------------------------------------------------------------------------------

  function LeafValue(e: Event): Value {
    match e
    case Bool(b) => BoolValue(b)
    case Double(bits) => DoubleValue(bits)
    case String(str) => StringValue(str)
    case Null => NullValue
    case _ => NumberValue(NumberOf(e))
  }

  /** The popped cells, read as members. */
  function Pairs(cells: seq<Value>): (es: seq<Entry>)
    ensures |es| == |cells| / 2
  {
    if |cells| < 2 then [] else [Entry(cells[0], cells[1])] + Pairs(cells[2..])
  }

  /** One handler call on the build stack; none where popping would underflow. */
  function Handle(stack: seq<Value>, e: Event): Option<seq<Value>> {
    match e
    case Key(name) => Some(stack + [StringValue(name)])
    case StartObject => Some(stack + [ObjectValue([])])
    case StartArray => Some(stack + [ArrayValue([])])
    case EndObject(n) =>
      if |stack| < 2 * n + 1 then None
      else Some(stack[..|stack| - 2 * n - 1] + [ObjectValue(Pairs(stack[|stack| - 2 * n..]))])
    case EndArray(n) =>
      if |stack| < n + 1 then None
      else Some(stack[..|stack| - n - 1] + [ArrayValue(stack[|stack| - n..])])
    case _ => Some(stack + [LeafValue(e)])
  }

  function Build(stack: seq<Value>, events: seq<Event>): Option<seq<Value>>
    decreases |events|
  {
    if events == [] then Some(stack)
    else match Handle(stack, events[0])
      case None => None
      case Some(next) => Build(next, events[1..])
  }

  function ValueOf(t: Tree): Value
    decreases t, 1
  {
    match t
    case Leaf(e) => LeafValue(e)
    case Obj(ms) => ObjectValue(EntriesOf(ms))
    case Arr(ts) => ArrayValue(ElementsOf(ts))
  }

  function EntriesOf(ms: seq<Member>): (es: seq<Entry>)
    ensures |es| == |ms|
    decreases ms, 0
  {
    if ms == [] then [] else [Entry(StringValue(ms[0].name), ValueOf(ms[0].value))] + EntriesOf(ms[1..])
  }

  function ElementsOf(ts: seq<Tree>): (vs: seq<Value>)
    ensures |vs| == |ts|
    decreases ts, 0
  {
    if ts == [] then [] else [ValueOf(ts[0])] + ElementsOf(ts[1..])
  }

  function Cells(es: seq<Entry>): (cells: seq<Value>)
    ensures |cells| == 2 * |es|
  {
    if es == [] then [] else [es[0].name, es[0].value] + Cells(es[1..])
  }

  lemma {:induction false} PairsOfCells(es: seq<Entry>)
    ensures Pairs(Cells(es)) == es
  {
    if es != [] {
      PairsOfCells(es[1..]);
      assert Cells(es)[2..] == Cells(es[1..]);
    }
  }

  lemma BuildStep(stack: seq<Value>, e: Event, rest: seq<Event>)
    ensures Build(stack, [e] + rest)
         == match Handle(stack, e) case None => None case Some(next) => Build(next, rest)
  {
  }

  lemma BuildKey(stack: seq<Value>, name: seq<Byte>, rest: seq<Event>)
    ensures Build(stack, [Key(name)] + rest) == Build(stack + [StringValue(name)], rest)
  {
  }

  /** The stream of a tree pushes exactly the tree's value, whatever is below it on the stack. */
  lemma {:induction false} BuildTree(stack: seq<Value>, t: Tree, rest: seq<Event>)
    requires IsTree(t)
    ensures Build(stack, Events(t) + rest) == Build(stack + [ValueOf(t)], rest)
    decreases t, 1
  {
    hide Build, Cells, EntriesOf, ElementsOf, MemberEvents, ElementEvents;
    match t
    case Leaf(e) => BuildStep(stack, e, rest);
    case Obj(ms) =>
      var begun := stack + [ObjectValue([])];
      var end := EndObject(|ms|);
      assert Events(t) + rest == [StartObject] + (MemberEvents(ms) + ([end] + rest));
      BuildStep(stack, StartObject, MemberEvents(ms) + ([end] + rest));
      BuildMembers(begun, ms, [end] + rest);
      var full := begun + Cells(EntriesOf(ms));
      BuildStep(full, end, rest);
      assert full[..|full| - 2 * |ms| - 1] == stack;
      assert full[|full| - 2 * |ms|..] == Cells(EntriesOf(ms));
      PairsOfCells(EntriesOf(ms));
    case Arr(ts) =>
      var begun := stack + [ArrayValue([])];
      var end := EndArray(|ts|);
      assert Events(t) + rest == [StartArray] + (ElementEvents(ts) + ([end] + rest));
      BuildStep(stack, StartArray, ElementEvents(ts) + ([end] + rest));
      BuildElements(begun, ts, [end] + rest);
      var full := begun + ElementsOf(ts);
      BuildStep(full, end, rest);
      assert full[..|full| - |ts| - 1] == stack;
      assert full[|full| - |ts|..] == ElementsOf(ts);
  }

  lemma FirstMember(stack: seq<Value>, ms: seq<Member>, rest: seq<Event>)
    requires ms != []
    ensures MemberEvents(ms) + rest == [Key(ms[0].name)] + (Events(ms[0].value) + (MemberEvents(ms[1..]) + rest))
    ensures stack + [StringValue(ms[0].name)] + [ValueOf(ms[0].value)] + Cells(EntriesOf(ms[1..]))
         == stack + Cells(EntriesOf(ms))
  {
    hide ValueOf, Events;
    var key, v, es := StringValue(ms[0].name), ValueOf(ms[0].value), EntriesOf(ms[1..]);
    assert EntriesOf(ms) == [Entry(key, v)] + es;
    FirstCells(stack, Entry(key, v), es);
    hide *;
    Regroup([Key(ms[0].name)], Events(ms[0].value), MemberEvents(ms[1..]), rest);
  }

  lemma Regroup<T>(a: seq<T>, b: seq<T>, c: seq<T>, d: seq<T>)
    ensures a + b + c + d == a + (b + (c + d))
  {
  }

  lemma FirstCells(stack: seq<Value>, e: Entry, es: seq<Entry>)
    ensures stack + [e.name] + [e.value] + Cells(es) == stack + Cells([e] + es)
  {
    assert ([e] + es)[1..] == es;
    assert Cells([e] + es) == [e.name, e.value] + Cells(es);
  }

  lemma {:induction false} BuildMembers(stack: seq<Value>, ms: seq<Member>, rest: seq<Event>)
    requires forall m <- ms :: IsTree(m.value)
    ensures Build(stack, MemberEvents(ms) + rest) == Build(stack + Cells(EntriesOf(ms)), rest)
    decreases ms, 0
  {
    hide Build, Handle, ValueOf, Events, Leaves;
    if ms == [] {
      assert MemberEvents(ms) + rest == rest;
      assert stack + Cells(EntriesOf(ms)) == stack;
    } else {
      var m := ms[0];
      var key := StringValue(m.name);
      var more := MemberEvents(ms[1..]) + rest;
      FirstMember(stack, ms, rest);
      hide MemberEvents, Cells, EntriesOf;
      BuildKey(stack, m.name, Events(m.value) + more);
      BuildTree(stack + [key], m.value, more);
      BuildMembers(stack + [key] + [ValueOf(m.value)], ms[1..], rest);
    }
  }

  lemma {:induction false} BuildElements(stack: seq<Value>, ts: seq<Tree>, rest: seq<Event>)
    requires forall t <- ts :: IsTree(t)
    ensures Build(stack, ElementEvents(ts) + rest) == Build(stack + ElementsOf(ts), rest)
    decreases ts, 0
  {
    hide Build, Handle, ValueOf, Events, Leaves;
    if ts == [] {
      assert ElementEvents(ts) + rest == rest;
      assert stack + ElementsOf(ts) == stack;
    } else {
      var more := ElementEvents(ts[1..]) + rest;
      assert ElementEvents(ts) + rest == Events(ts[0]) + more;
      BuildTree(stack, ts[0], more);
      BuildElements(stack + [ValueOf(ts[0])], ts[1..], rest);
      assert stack + [ValueOf(ts[0])] + ElementsOf(ts[1..]) == stack + ElementsOf(ts);
    }
  }

  /** Every well-nested stream leaves exactly one value, that of its tree. */
  lemma WellNestedLeavesOneValue(t: Tree)
    requires IsTree(t)
    ensures Build([], Events(t)) == Some([ValueOf(t)])
  {
    BuildTree([], t, []);
    assert Events(t) + [] == Events(t);
    assert [] + [ValueOf(t)] == [ValueOf(t)];
  }

  /** A text that parses leaves one value on the build stack: the assertion of `ParseStream`. */
  lemma ParsedTextLeavesOneValue(c: Config, s: seq<Byte>)
    requires |s| < SIZE_TYPE && Parse(c, s).Done?
    ensures exists v :: Build([], Parse(c, s).value.events) == Some([v])
  {
    var t := ParseSendsOneTree(c, s);
    WellNestedLeavesOneValue(t);
  }

  // ---------------------------------------------------------------------------------------
  // Replaying a value
  // ---------------------------------------------------------------------------------------

  /** The tree a value spells out. */
  function TreeOf(v: Value): Tree
    decreases v, 1
  {
    match v
    case NullValue => Leaf(Null)
    case BoolValue(b) => Leaf(Bool(b))
    case NumberValue(n) => Leaf(NumberEvent(n))
    case DoubleValue(bits) => Leaf(Double(bits))
    case StringValue(str) => Leaf(String(str))
    case ObjectValue(es) => Obj(MembersOf(es))
    case ArrayValue(vs) => Arr(TreesOf(vs))
  }

  function MembersOf(es: seq<Entry>): (ms: seq<Member>)
    ensures |ms| == |es|
    decreases es, 0
  {
    if es == [] then []
    else
      var Entry(name, value) := es[0];
      assert es[0].value < es[0];
      [Member(if name.StringValue? then name.str else [], TreeOf(value))] + MembersOf(es[1..])
  }

  function TreesOf(vs: seq<Value>): (ts: seq<Tree>)
    ensures |ts| == |vs|
    decreases vs, 0
  {
    if vs == [] then [] else [TreeOf(vs[0])] + TreesOf(vs[1..])
  }

  lemma {:induction false} AcceptIsLeaf(v: Value)
    requires Canonical(v) && !v.ObjectValue? && !v.ArrayValue?
    ensures IsTree(TreeOf(v)) && Accept(v) == Events(TreeOf(v)) && ValueOf(TreeOf(v)) == v
  {
    hide NumberOf, NumberEvent, IntegerOf;
    if v.NumberValue? {
      var e :| IsInteger(e) && v.n == NumberOf(e);
      NumberEventCarriesTheNumber(e);
    }
  }

  lemma {:induction false} AcceptIsObject(es: seq<Entry>)
    requires Canonical(ObjectValue(es))
    ensures var v := ObjectValue(es);
            IsTree(TreeOf(v)) && Accept(v) == Events(TreeOf(v)) && ValueOf(TreeOf(v)) == v
    decreases es, 1
  {
    hide LeafValue, IsScalar, AcceptEntries, MemberEvents, EntriesOf, MembersOf;
    AcceptIsMembers(es);
  }

  lemma {:induction false} AcceptIsArray(vs: seq<Value>)
    requires Canonical(ArrayValue(vs))
    ensures var v := ArrayValue(vs);
            IsTree(TreeOf(v)) && Accept(v) == Events(TreeOf(v)) && ValueOf(TreeOf(v)) == v
    decreases vs, 1
  {
    hide LeafValue, IsScalar, AcceptElements, ElementEvents, ElementsOf, TreesOf;
    AcceptIsElements(vs);
  }

  /** `Accept` sends a well-nested stream, and that stream stands for the very value. */
  lemma {:induction false} AcceptIsTree(v: Value)
    requires Canonical(v)
    ensures IsTree(TreeOf(v)) && Accept(v) == Events(TreeOf(v)) && ValueOf(TreeOf(v)) == v
    decreases v, 1
  {
    hide Accept, Events, ValueOf, TreeOf, Canonical, Leaves;
    match v
    case ObjectValue(es) => AcceptIsObject(es);
    case ArrayValue(vs) => AcceptIsArray(vs);
    case _ => AcceptIsLeaf(v);
  }

  lemma {:induction false} AcceptIsMembers(es: seq<Entry>)
    requires forall e <- es :: e.name.StringValue? && Canonical(e.value)
    ensures forall m <- MembersOf(es) :: IsTree(m.value)
    ensures AcceptEntries(es) == MemberEvents(MembersOf(es)) && EntriesOf(MembersOf(es)) == es
    decreases es, 0
  {
    if es != [] {
      var Entry(name, value) := es[0];
      assert es[0] in es && es[0].value < es[0];
      AcceptIsTree(value);
      AcceptIsMembers(es[1..]);
      assert MembersOf(es)[1..] == MembersOf(es[1..]);
    }
  }

  lemma {:induction false} AcceptIsElements(vs: seq<Value>)
    requires forall v <- vs :: Canonical(v)
    ensures forall t <- TreesOf(vs) :: IsTree(t)
    ensures AcceptElements(vs) == ElementEvents(TreesOf(vs)) && ElementsOf(TreesOf(vs)) == vs
    decreases vs, 0
  {
    if vs != [] {
      AcceptIsTree(vs[0]);
      AcceptIsElements(vs[1..]);
      assert TreesOf(vs)[1..] == TreesOf(vs[1..]);
    }
  }

  /** Replaying a value's events into a document rebuilds the value, flags and all. */
  lemma ReplayRebuildsTheValue(v: Value)
    requires Canonical(v)
    ensures Build([], Accept(v)) == Some([v])
  {
    AcceptIsTree(v);
    WellNestedLeavesOneValue(TreeOf(v));
  }

  // ---------------------------------------------------------------------------------------
  // The document as a handler
  // ---------------------------------------------------------------------------------------

  /** The build stack, and the handler calls that push and pop it. */
  class GenericDocument {
    var stack_: seq<Value>

    constructor ()
      ensures stack_ == []
    {
      stack_ := [];
    }

    method Push(v: Value)
      modifies this
      ensures stack_ == old(stack_) + [v]
    {
      stack_ := stack_ + [v];
    }

    method Pop(count: nat) returns (cells: seq<Value>)
      requires count <= |stack_|
      modifies this
      ensures old(stack_) == stack_ + cells && |cells| == count
    {
      cells := stack_[|stack_| - count..];
      stack_ := stack_[..|stack_| - count];
    }

    /** `Null`, `Bool`, the integers, `Double` and `String`. */
    method Scalar(e: Event)
      requires IsScalar(e)
      modifies this
      ensures Handle(old(stack_), e) == Some(stack_)
    {
      match e
      case Null => Push(NullValue);
      case Bool(b) => Push(BoolValue(b));
      case Int(i) => Push(NumberValue(FromInt(i)));
      case Uint(u) => Push(NumberValue(FromUint(u)));
      case Int64(i64) => Push(NumberValue(FromInt64(i64)));
      case Uint64(u64) => Push(NumberValue(FromUint64(u64)));
      case Double(bits) => Push(DoubleValue(bits));
      case String(str) => Push(StringValue(str));
      case _ =>
    }

    method Key(name: seq<Byte>)
      modifies this
      ensures Handle(old(stack_), Event.Key(name)) == Some(stack_)
    {
      Push(StringValue(name));
    }

    method StartObject()
      modifies this
      ensures Handle(old(stack_), Event.StartObject) == Some(stack_)
    {
      Push(ObjectValue([]));
    }

    method StartArray()
      modifies this
      ensures Handle(old(stack_), Event.StartArray) == Some(stack_)
    {
      Push(ArrayValue([]));
    }

    method EndObject(memberCount: nat)
      requires 2 * memberCount < |stack_|
      modifies this
      ensures Handle(old(stack_), Event.EndObject(memberCount)) == Some(stack_)
    {
      var members := Pop(2 * memberCount);
      assert old(stack_)[|old(stack_)| - 2 * memberCount..] == members;
      assert old(stack_)[..|old(stack_)| - 2 * memberCount - 1] == stack_[..|stack_| - 1];
      stack_ := stack_[|stack_| - 1 := ObjectValue(Pairs(members))];
      assert stack_ == stack_[..|stack_| - 1] + [ObjectValue(Pairs(members))];
    }

    method EndArray(elementCount: nat)
      requires elementCount < |stack_|
      modifies this
      ensures Handle(old(stack_), Event.EndArray(elementCount)) == Some(stack_)
    {
      var elements := Pop(elementCount);
      assert old(stack_)[|old(stack_)| - elementCount..] == elements;
      assert old(stack_)[..|old(stack_)| - elementCount - 1] == stack_[..|stack_| - 1];
      stack_ := stack_[|stack_| - 1 := ArrayValue(elements)];
      assert stack_ == stack_[..|stack_| - 1] + [ArrayValue(elements)];
    }

    /** `Populate`: the handler calls of a well-nested stream leave the one value it stands for. */
    method Populate(t: Tree, events: seq<Event>) returns (root: Value)
      requires IsTree(t) && events == Events(t) && stack_ == []
      modifies this
      ensures root == ValueOf(t) && stack_ == []
    {
      WellNestedLeavesOneValue(t);
      var i := 0;
      while i < |events|
        invariant 0 <= i <= |events|
        invariant Build(stack_, events[i..]) == Some([ValueOf(t)])
      {
        assert events[i..][1..] == events[i + 1..];
        var e := events[i];
        match e {
          case Key(name) => Key(name);
          case StartObject => StartObject();
          case StartArray => StartArray();
          case EndObject(n) => EndObject(n);
          case EndArray(n) => EndArray(n);
          case _ => Scalar(e);
        }
        i := i + 1;
      }
      assert stack_ == [ValueOf(t)];
      var last := Pop(1);
      assert last == [ValueOf(t)];
      root := last[0];
    }
  }
}
