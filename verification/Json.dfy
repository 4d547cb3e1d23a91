/** What the reader reports to its handler, how it fails, and how it is configured. */
module Json {
  import opened Bytes

  /** The SAX events of the Handler concept.  A double is carried as its bit pattern. */
  datatype Event =
    | Null
    | Bool(b: bool)
    | Int(i: int)
    | Uint(u: int)
    | Int64(i64: int)
    | Uint64(u64: int)
    | Double(bits: nat)
    | String(str: seq<Byte>)
    | Key(key: seq<Byte>)
    | StartObject
    | EndObject(memberCount: nat)
    | StartArray
    | EndArray(elementCount: nat)

  datatype ErrorCode =
    | DocumentEmpty
    | DocumentRootNotSingular
    | ValueInvalid
    | ObjectMissName
    | ObjectMissColon
    | ObjectMissCommaOrCurlyBracket
    | ArrayMissCommaOrSquareBracket
    | StringUnicodeEscapeInvalidHex
    | StringUnicodeSurrogateInvalid
    | StringEscapeInvalid
    | StringMissQuotationMark
    | StringInvalidEncoding
    | NumberTooBig
    | NumberMissFraction
    | NumberMissExponent
    | Termination
    | UnspecificSyntaxError

  /**
   The parse flags, the conversion of a number literal to a double (none when it is too big), and
   the handler, which refuses an event or not depending on everything it has been sent.
   */
  datatype Config = Config(
    trailingCommas: bool,
    comments: bool,
    stopWhenDone: bool,
    validateEncoding: bool,
    toDouble: seq<Byte> -> Option<nat>,
    accepts: seq<Event> -> bool)

  /** A parse that stopped: the error, where, and the events the handler had received. */
  datatype Failure = Failure(code: ErrorCode, offset: nat, events: seq<Event>)

  datatype Outcome<+T> = Done(value: T) | Stop(failure: Failure) {
    predicate IsFailure() {
      Stop?
    }

    function PropagateFailure<U>(): Outcome<U>
      requires Stop?
    {
      Stop(failure)
    }

    function Extract(): T
      requires Done?
    {
      value
    }
  }

  /** A position in the text and the events sent so far. */
  datatype Point = Point(pos: nat, events: seq<Event>)

  /** Sends one event; `offset` is what the reader reports if the handler refuses it. */
  function Emit(c: Config, events: seq<Event>, e: Event, offset: nat): Outcome<seq<Event>> {
    if c.accepts(events + [e]) then Done(events + [e])
    else Stop(Failure(Termination, offset, events + [e]))
  }

  const QUOTE: Byte := 34
  const PLUS: Byte := 43
  const COMMA: Byte := 44
  const MINUS: Byte := 45
  const DOT: Byte := 46
  const SLASH: Byte := 47
  const STAR: Byte := 42
  const ZERO: Byte := 48
  const COLON: Byte := 58
  const UPPER_E: Byte := 69
  const LBRACKET: Byte := 91
  const BACKSLASH: Byte := 92
  const RBRACKET: Byte := 93
  const LOWER_E: Byte := 101
  const LOWER_F: Byte := 102
  const LOWER_N: Byte := 110
  const LOWER_T: Byte := 116
  const LOWER_U: Byte := 117
  const LBRACE: Byte := 123
  const RBRACE: Byte := 125
  const NEWLINE: Byte := 10
  const SPACE: Byte := 32

  /** `SizeType` is 32 bits wide. */
  const SIZE_TYPE: nat := 0x1_0000_0000

  function CountUp(n: nat): (r: nat)
    ensures r < SIZE_TYPE
  {
    (n + 1) % SIZE_TYPE
  }
}
