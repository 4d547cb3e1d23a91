/**
 livox_lidar_callback.cpp: on a connection event the driver asks a configured lidar for up to four
 settings, one bit each in `set_bits`; the answers come later, in any order, and when no bit is
 left the lidar counts as sampling.
 */
module Handshake {
  import opened Bytes
  import opened LidarConfig

  datatype Setting = DataType | ScanPattern | BlindSpot | DualEmit

  predicate Requested(c: Config, s: Setting) {
    match s
    case DataType => c.pclDataType != -1
    case ScanPattern => c.patternMode != -1
    case BlindSpot => c.blindSpotSet != -1
    case DualEmit => c.dualEmitEn != -1
  }

  /** `LivoxLidarConfigCodeBit`. */
  function Bit(s: Setting): bv32 {
    match s
    case DataType => 1
    case ScanPattern => 2
    case BlindSpot => 4
    case DualEmit => 8
  }

  function And(a: bv32, b: bv32): bv32 {
    a & b
  }

  function Or(a: bv32, b: bv32): bv32 {
    a | b
  }

  predicate Outstanding(bits: bv32, s: Setting) {
    And(bits, Bit(s)) != 0
  }

  /** `set_bits |= bit`. */
  function Set(bits: bv32, s: Setting): bv32 {
    Or(bits, Bit(s))
  }

  /** `set_bits &= ~bit`. */
  function Clear(bits: bv32, s: Setting): bv32 {
    And(bits, !Bit(s))
  }

  /** No bit but the four is ever set. */
  predicate OnlySettings(bits: bv32) {
    And(bits, 0xFFFF_FFF0) == 0
  }

  lemma SetBit1(bits: bv32)
    ensures And(Or(bits, 1), 1) != 0
    ensures And(Or(bits, 1), 2) == And(bits, 2)
    ensures And(Or(bits, 1), 4) == And(bits, 4)
    ensures And(Or(bits, 1), 8) == And(bits, 8)
    ensures And(Or(bits, 1), 0xFFFF_FFF0) == And(bits, 0xFFFF_FFF0)
  {
  }

  lemma SetBit2(bits: bv32)
    ensures And(Or(bits, 2), 2) != 0
    ensures And(Or(bits, 2), 1) == And(bits, 1)
    ensures And(Or(bits, 2), 4) == And(bits, 4)
    ensures And(Or(bits, 2), 8) == And(bits, 8)
    ensures And(Or(bits, 2), 0xFFFF_FFF0) == And(bits, 0xFFFF_FFF0)
  {
  }

  lemma SetBit4(bits: bv32)
    ensures And(Or(bits, 4), 4) != 0
    ensures And(Or(bits, 4), 1) == And(bits, 1)
    ensures And(Or(bits, 4), 2) == And(bits, 2)
    ensures And(Or(bits, 4), 8) == And(bits, 8)
    ensures And(Or(bits, 4), 0xFFFF_FFF0) == And(bits, 0xFFFF_FFF0)
  {
  }

  lemma SetBit8(bits: bv32)
    ensures And(Or(bits, 8), 8) != 0
    ensures And(Or(bits, 8), 1) == And(bits, 1)
    ensures And(Or(bits, 8), 2) == And(bits, 2)
    ensures And(Or(bits, 8), 4) == And(bits, 4)
    ensures And(Or(bits, 8), 0xFFFF_FFF0) == And(bits, 0xFFFF_FFF0)
  {
  }

  lemma ClearBit1(bits: bv32)
    ensures And(And(bits, !1), 1) == 0
    ensures And(And(bits, !1), 2) == And(bits, 2)
    ensures And(And(bits, !1), 4) == And(bits, 4)
    ensures And(And(bits, !1), 8) == And(bits, 8)
    ensures And(And(bits, !1), 0xFFFF_FFF0) == And(bits, 0xFFFF_FFF0)
  {
  }

  lemma ClearBit2(bits: bv32)
    ensures And(And(bits, !2), 2) == 0
    ensures And(And(bits, !2), 1) == And(bits, 1)
    ensures And(And(bits, !2), 4) == And(bits, 4)
    ensures And(And(bits, !2), 8) == And(bits, 8)
    ensures And(And(bits, !2), 0xFFFF_FFF0) == And(bits, 0xFFFF_FFF0)
  {
  }

  lemma ClearBit4(bits: bv32)
    ensures And(And(bits, !4), 4) == 0
    ensures And(And(bits, !4), 1) == And(bits, 1)
    ensures And(And(bits, !4), 2) == And(bits, 2)
    ensures And(And(bits, !4), 8) == And(bits, 8)
    ensures And(And(bits, !4), 0xFFFF_FFF0) == And(bits, 0xFFFF_FFF0)
  {
  }

  lemma ClearBit8(bits: bv32)
    ensures And(And(bits, !8), 8) == 0
    ensures And(And(bits, !8), 1) == And(bits, 1)
    ensures And(And(bits, !8), 2) == And(bits, 2)
    ensures And(And(bits, !8), 4) == And(bits, 4)
    ensures And(And(bits, !8), 0xFFFF_FFF0) == And(bits, 0xFFFF_FFF0)
  {
  }

  lemma SetOne(bits: bv32, s: Setting, t: Setting)
    ensures Outstanding(Set(bits, s), t) <==> t == s || Outstanding(bits, t)
    ensures OnlySettings(bits) ==> OnlySettings(Set(bits, s))
  {
    hide And, Or;
    match s {
      case DataType => SetBit1(bits);
      case ScanPattern => SetBit2(bits);
      case BlindSpot => SetBit4(bits);
      case DualEmit => SetBit8(bits);
    }
  }

  lemma ClearOne(bits: bv32, s: Setting, t: Setting)
    ensures Outstanding(Clear(bits, s), t) <==> t != s && Outstanding(bits, t)
    ensures OnlySettings(bits) ==> OnlySettings(Clear(bits, s))
  {
    hide And, Or;
    match s {
      case DataType => ClearBit1(bits);
      case ScanPattern => ClearBit2(bits);
      case BlindSpot => ClearBit4(bits);
      case DualEmit => ClearBit8(bits);
    }
  }

  lemma NoneOutstanding(bits: bv32)
    requires OnlySettings(bits)
    ensures bits == 0 <==> forall s: Setting :: !Outstanding(bits, s)
  {
    if bits != 0 {
      assert Outstanding(bits, DataType) || Outstanding(bits, ScanPattern)
          || Outstanding(bits, BlindSpot) || Outstanding(bits, DualEmit);
    }
  }

  // ---------------------------------------------------------------------------------------
  // Runs
  // ---------------------------------------------------------------------------------------

  /** Where the connection event is: not running, before setting `next` (4 at the end), or between
      setting its bit and sending the request. */
  datatype Place = Idle | Before(next: nat) | Sending(setting: Setting)

  function Order(k: nat): Setting
    requires k < 4
  {
    match k case 0 => DataType case 1 => ScanPattern case 2 => BlindSpot case _ => DualEmit
  }

  function Index(s: Setting): (k: nat)
    ensures k < 4 && Order(k) == s
  {
    match s case DataType => 0 case ScanPattern => 1 case BlindSpot => 2 case DualEmit => 3
  }

  /**
   `inFlight` are the requests not yet answered, `arrived` the positive answers whose callback has
   yet to take the lock, `acknowledged` and `failed` the settings answered so at least once.
   */
  datatype State = State(setBits: bv32, sampling: bool, connected: bool, place: Place,
                         inFlight: multiset<Setting>, arrived: multiset<Setting>,
                         acknowledged: set<Setting>, failed: set<Setting>)

  datatype Step =
    | Connect               // LidarInfoChangeCallback begins
    | Advance               // and goes on
    | Succeed(s: Setting)   // an answer comes in
    | TimeOut(s: Setting)
    | Fail(s: Setting)
    | Acknowledge(s: Setting) // and its callback runs

  /** The connection event holds the lock from beginning to end. */
  predicate Locked(s: State) {
    !s.place.Idle?
  }

  /** `locking` is false for a driver without the lock. */
  predicate Enabled(locking: bool, s: State, step: Step) {
    match step
    case Connect => s.place.Idle?
    case Advance => s.place.Sending? || (s.place.Before? && s.place.next <= 4)
    case Succeed(t) => t in s.inFlight
    case TimeOut(t) => t in s.inFlight
    case Fail(t) => t in s.inFlight
    case Acknowledge(t) => t in s.arrived && (locking ==> !Locked(s))
  }

  function Next(c: Config, locking: bool, s: State, step: Step): State
    requires Enabled(locking, s, step)
  {
    match step
    case Connect => s.(place := Before(0))
    case Advance =>
      if s.place.Sending? then
        s.(inFlight := s.inFlight + multiset{s.place.setting}, place := Before(Index(s.place.setting) + 1))
      else if s.place.next == 4 then
        s.(sampling := s.sampling || s.setBits == 0, connected := true, place := Idle)
      else
        var t := Order(s.place.next);
        if Requested(c, t) then s.(setBits := Set(s.setBits, t), place := Sending(t))
        else s.(place := Before(s.place.next + 1))
    case Succeed(t) => s.(inFlight := s.inFlight - multiset{t}, arrived := s.arrived + multiset{t})
    case TimeOut(t) => s // asked again
    case Fail(t) => s.(inFlight := s.inFlight - multiset{t}, failed := s.failed + {t})
    case Acknowledge(t) =>
      var bits := Clear(s.setBits, t);
      s.(setBits := bits, sampling := s.sampling || bits == 0,
         arrived := s.arrived - multiset{t}, acknowledged := s.acknowledged + {t})
  }

  function Initial(): State {
    State(0, false, false, Idle, multiset{}, multiset{}, {}, {})
  }

  // ---------------------------------------------------------------------------------------
  // The invariant
  // ---------------------------------------------------------------------------------------

  /** Whether the running connection event has dealt with a setting, or an earlier one has. */
  predicate Asked(s: State, t: Setting) {
    || s.connected
    || (s.place.Before? && Index(t) < s.place.next)
    || (s.place.Sending? && Index(t) <= Index(s.place.setting))
  }

  predicate SettingOk(c: Config, s: State, t: Setting) {
    // A requested setting that was asked for is outstanding until it is acknowledged.
    && (Requested(c, t) && Asked(s, t) ==> Outstanding(s.setBits, t) || t in s.acknowledged)
    // An outstanding one is requested, and has a request or an answer on its way, or has failed.
    && (Outstanding(s.setBits, t) ==>
          && Requested(c, t)
          && (t in s.inFlight || t in s.arrived || t in s.failed || s.place == Sending(t)))
    && (s.sampling && Requested(c, t) ==> t in s.acknowledged)
  }

  predicate PlaceOk(s: State) {
    && OnlySettings(s.setBits)
    && (s.place.Before? ==> s.place.next <= 4)
    && (s.connected && s.place.Idle? && s.setBits == 0 ==> s.sampling)
    && (!s.connected && s.place.Idle? ==> s.arrived == multiset{} && s.inFlight == multiset{})
  }

  predicate Invariant(c: Config, s: State) {
    PlaceOk(s) && forall t: Setting :: SettingOk(c, s, t)
  }

  lemma AdvanceKeeps(c: Config, s: State)
    requires Invariant(c, s) && Enabled(true, s, Advance)
    ensures Invariant(c, Next(c, true, s, Advance))
  {
    NoneOutstanding(s.setBits);
    AdvancePlace(c, s);
    hide PlaceOk, Outstanding, SettingOk, Next, Enabled;
    forall t: Setting
      ensures SettingOk(c, Next(c, true, s, Advance), t)
    {
      AdvanceSetting(c, s, t);
    }
  }

  lemma AdvancePlace(c: Config, s: State)
    requires PlaceOk(s) && Enabled(true, s, Advance)
    ensures PlaceOk(Next(c, true, s, Advance))
  {
    hide Outstanding, OnlySettings, Set, Requested, Index, Order, And, Or, Bit;
    if s.place.Before? && s.place.next < 4 {
      SetOne(s.setBits, Order(s.place.next), Order(s.place.next));
    }
  }

  lemma AdvanceSetting(c: Config, s: State, t: Setting)
    requires SettingOk(c, s, t) && Enabled(true, s, Advance)
    requires s.place.Before? && s.place.next == 4 && s.setBits == 0 ==> !Outstanding(s.setBits, t)
    ensures SettingOk(c, Next(c, true, s, Advance), t)
  {
    hide SettingOk, Outstanding;
    if s.place.Sending? {
      SendSetting(c, s, t);
    } else if s.place.next == 4 {
      FinishSetting(c, s, t);
    } else {
      SetSetting(c, s, t);
    }
  }

  lemma SendSetting(c: Config, s: State, t: Setting)
    requires SettingOk(c, s, t) && s.place.Sending?
    ensures SettingOk(c, Next(c, true, s, Advance), t)
  {
    hide Outstanding, OnlySettings, Set, Clear, Requested, Index, Order;
  }

  lemma FinishSetting(c: Config, s: State, t: Setting)
    requires SettingOk(c, s, t) && s.place == Before(4)
    requires s.setBits == 0 ==> !Outstanding(s.setBits, t)
    ensures SettingOk(c, Next(c, true, s, Advance), t)
  {
    hide Outstanding, OnlySettings, Set, Clear, Requested, Order;
  }

  lemma SetSetting(c: Config, s: State, t: Setting)
    requires SettingOk(c, s, t) && s.place.Before? && s.place.next < 4
    ensures SettingOk(c, Next(c, true, s, Advance), t)
  {
    hide Outstanding, OnlySettings, Set, Clear, Requested, Index, Order;
    IndexOfOrder(s.place.next);
    SetOne(s.setBits, Order(s.place.next), t);
  }

  lemma IndexOfOrder(k: nat)
    requires k < 4
    ensures Index(Order(k)) == k
  {
  }

  lemma AcknowledgeKeeps(c: Config, s: State, t: Setting)
    requires Invariant(c, s) && Enabled(true, s, Acknowledge(t))
    ensures Invariant(c, Next(c, true, s, Acknowledge(t)))
  {
    var u := Next(c, true, s, Acknowledge(t));
    ClearOne(s.setBits, t, t);
    NoneOutstanding(u.setBits);
    hide Outstanding, OnlySettings, Bit, Set, Clear, And, Or;
    forall r: Setting
      ensures SettingOk(c, u, r)
    {
      assert SettingOk(c, s, r);
      ClearOne(s.setBits, t, r);
    }
  }

  lemma StepKeepsInvariant(c: Config, s: State, step: Step)
    requires Invariant(c, s) && Enabled(true, s, step)
    ensures Invariant(c, Next(c, true, s, step))
  {
    hide Invariant, Enabled, Next;
    if step.Advance? {
      AdvanceKeeps(c, s);
    } else if step.Acknowledge? {
      AcknowledgeKeeps(c, s, step.s);
    } else {
      AnswerKeeps(c, s, step);
    }
  }

  lemma AnswerKeeps(c: Config, s: State, step: Step)
    requires Invariant(c, s) && Enabled(true, s, step) && !step.Advance? && !step.Acknowledge?
    ensures Invariant(c, Next(c, true, s, step))
  {
    hide Outstanding, OnlySettings, Set, Clear, Requested, Index, Order;
    forall t: Setting
      ensures SettingOk(c, Next(c, true, s, step), t)
    {
      assert SettingOk(c, s, t);
    }
  }

  predicate IsRun(c: Config, locking: bool, s: State, steps: seq<Step>)
    decreases |steps|
  {
    steps == [] || (Enabled(locking, s, steps[0]) && IsRun(c, locking, Next(c, locking, s, steps[0]), steps[1..]))
  }

  function After(c: Config, locking: bool, s: State, steps: seq<Step>): State
    requires IsRun(c, locking, s, steps)
    decreases |steps|
  {
    if steps == [] then s else After(c, locking, Next(c, locking, s, steps[0]), steps[1..])
  }

  lemma {:induction false} RunKeepsInvariant(c: Config, s: State, steps: seq<Step>)
    requires Invariant(c, s) && IsRun(c, true, s, steps)
    ensures Invariant(c, After(c, true, s, steps))
    decreases |steps|
  {
    if steps != [] {
      StepKeepsInvariant(c, s, steps[0]);
      hide Invariant, Enabled, Next;
      RunKeepsInvariant(c, Next(c, true, s, steps[0]), steps[1..]);
    }
  }

  lemma InitialInvariant(c: Config)
    ensures Invariant(c, Initial())
  {
    forall t: Setting
      ensures SettingOk(c, Initial(), t)
    {
      assert !Outstanding(0, t);
    }
  }

  /**
   In every run, with any order of answers, timeouts, retries and connection events: a sampling
   lidar has acknowledged every setting that its configuration does not leave alone; after a connection event a
   lidar with no bit outstanding is sampling; and an outstanding bit means a request under way, an
   answer waiting for the lock, or a failure.
   */
  lemma SamplingMeansConfigured(c: Config, steps: seq<Step>)
    requires IsRun(c, true, Initial(), steps)
    ensures var s := After(c, true, Initial(), steps);
            && (s.sampling && c.pclDataType != -1 ==> DataType in s.acknowledged)
            && (s.sampling && c.patternMode != -1 ==> ScanPattern in s.acknowledged)
            && (s.sampling && c.blindSpotSet != -1 ==> BlindSpot in s.acknowledged)
            && (s.sampling && c.dualEmitEn != -1 ==> DualEmit in s.acknowledged)
            && (s.connected && s.place.Idle? && s.setBits == 0 ==> s.sampling)
            && forall t: Setting | Outstanding(s.setBits, t) && s.place.Idle? ::
                 t in s.inFlight || t in s.arrived || t in s.failed
  {
    InitialInvariant(c);
    RunKeepsInvariant(c, Initial(), steps);
    var s := After(c, true, Initial(), steps);
    hide Outstanding;
    assert SettingOk(c, s, DataType) && SettingOk(c, s, ScanPattern);
    assert SettingOk(c, s, BlindSpot) && SettingOk(c, s, DualEmit);
    forall t: Setting | Outstanding(s.setBits, t) && s.place.Idle?
      ensures t in s.inFlight || t in s.arrived || t in s.failed
    {
      assert SettingOk(c, s, t);
    }
  }

  /** Nothing else was ever under way: a setting asked of the lidar is one that its configuration has. */
  ghost predicate AsksOnly(c: Config, s: State) {
    && (s.place.Sending? ==> Requested(c, s.place.setting))
    && forall t: Setting | t in s.inFlight || t in s.arrived || t in s.failed || t in s.acknowledged :: Requested(c, t)
  }

  lemma StepAsksOnly(c: Config, s: State, step: Step)
    requires AsksOnly(c, s) && Enabled(true, s, step)
    ensures AsksOnly(c, Next(c, true, s, step))
  {
    hide AsksOnly, Next, Enabled;
    match step
    case Connect => ConnectAsksOnly(c, s);
    case Advance => AdvanceAsksOnly(c, s);
    case Succeed(t) => AnswerAsksOnly(c, s, step);
    case Fail(t) => AnswerAsksOnly(c, s, step);
    case Acknowledge(t) => AnswerAsksOnly(c, s, step);
    case TimeOut(t) => TimeOutKeeps(c, s, t);
  }

  lemma ConnectAsksOnly(c: Config, s: State)
    requires AsksOnly(c, s) && Enabled(true, s, Connect)
    ensures AsksOnly(c, Next(c, true, s, Connect))
  {
    hide Requested;
  }

  lemma TimeOutKeeps(c: Config, s: State, t: Setting)
    requires Enabled(true, s, TimeOut(t))
    ensures Next(c, true, s, TimeOut(t)) == s
  {
  }

  lemma AdvanceAsksOnly(c: Config, s: State)
    requires AsksOnly(c, s) && Enabled(true, s, Advance)
    ensures AsksOnly(c, Next(c, true, s, Advance))
  {
    hide Requested, Set, Index, Order;
    var u := Next(c, true, s, Advance);
    if s.place.Sending? {
      forall t: Setting | t in u.inFlight
        ensures Requested(c, t)
      {
        assert t in s.inFlight || s.place == Sending(t);
      }
    }
  }

  /** An answer moves on, and nothing else is asked. */
  lemma AnswerAsksOnly(c: Config, s: State, step: Step)
    requires AsksOnly(c, s) && Enabled(true, s, step) && (step.Succeed? || step.Fail? || step.Acknowledge?)
    ensures AsksOnly(c, Next(c, true, s, step))
  {
    hide Requested, Clear;
    var u := Next(c, true, s, step);
    assert forall t: Setting :: t in u.inFlight ==> t in s.inFlight;
    assert forall t: Setting :: t in u.arrived ==> t in s.arrived || t in s.inFlight;
  }

  lemma {:induction false} RunAsksOnly(c: Config, s: State, steps: seq<Step>)
    requires AsksOnly(c, s) && IsRun(c, true, s, steps)
    ensures AsksOnly(c, After(c, true, s, steps))
    decreases |steps|
  {
    if steps != [] {
      StepAsksOnly(c, s, steps[0]);
      hide AsksOnly, Next, Enabled;
      RunAsksOnly(c, Next(c, true, s, steps[0]), steps[1..]);
    }
  }

  /** In every run a setting that is on its way, refused or acknowledged has a field that is not -1. */
  lemma OnlyConfiguredIsAsked(c: Config, steps: seq<Step>, t: Setting)
    requires IsRun(c, true, Initial(), steps)
    requires var s := After(c, true, Initial(), steps);
             t in s.inFlight || t in s.arrived || t in s.failed || t in s.acknowledged
    ensures match t
            case DataType => c.pclDataType != -1
            case ScanPattern => c.patternMode != -1
            case BlindSpot => c.blindSpotSet != -1
            case DualEmit => c.dualEmitEn != -1
  {
    RunAsksOnly(c, Initial(), steps);
  }

  /** From the file: a sampling lidar has acknowledged its scan pattern, unless the key is missing or 255 modulo 256. */
  lemma FileIsAskedFor(e: FileEntry, c: Config, steps: seq<Step>, n: int)
    requires HoldsEntry(c, e) && IsRun(c, true, Initial(), steps) && n % 256 != 255
    ensures var s := After(c, true, Initial(), steps);
            && (s.sampling && e.pclDataType == Some(n) ==> DataType in s.acknowledged)
            && (s.sampling && e.patternMode == Some(n) ==> ScanPattern in s.acknowledged)
            && (s.sampling && e.blindSpotSet == Some(n) ==> BlindSpot in s.acknowledged)
            && (s.sampling && e.dualEmitEn == Some(n) ==> DualEmit in s.acknowledged)
  {
    SamplingMeansConfigured(c, steps);
    forall field: int | Holds(field, Some(n))
      ensures field != -1
    {
      KeyIsLostIff(field, n);
    }
    hide IsRun, After, Holds;
  }

  /** Without the lock a lidar can count as sampling before it is asked for all its settings. */
  lemma WithoutLock(c: Config)
    requires c.pclDataType != -1 && c.patternMode != -1
    ensures var steps := [Connect, Advance, Advance, Succeed(DataType), Acknowledge(DataType)];
            && IsRun(c, false, Initial(), steps)
            && After(c, false, Initial(), steps).sampling
            && ScanPattern !in After(c, false, Initial(), steps).acknowledged
  {
    var s0 := Initial();
    var s1 := Next(c, false, s0, Connect);
    var s2 := Next(c, false, s1, Advance);
    var s3 := Next(c, false, s2, Advance);
    var s4 := Next(c, false, s3, Succeed(DataType));
    var s5 := Next(c, false, s4, Acknowledge(DataType));
    assert s2.setBits == 1 && s5.setBits == 0;
    RunFrom(c, s4, Acknowledge(DataType), []);
    RunFrom(c, s3, Succeed(DataType), [Acknowledge(DataType)]);
    RunFrom(c, s2, Advance, [Succeed(DataType), Acknowledge(DataType)]);
    RunFrom(c, s1, Advance, [Advance, Succeed(DataType), Acknowledge(DataType)]);
    RunFrom(c, s0, Connect, [Advance, Advance, Succeed(DataType), Acknowledge(DataType)]);
    assert [Connect, Advance, Advance, Succeed(DataType), Acknowledge(DataType)]
        == [Connect] + [Advance, Advance, Succeed(DataType), Acknowledge(DataType)];
    assert [Advance, Advance, Succeed(DataType), Acknowledge(DataType)]
        == [Advance] + [Advance, Succeed(DataType), Acknowledge(DataType)];
    assert [Advance, Succeed(DataType), Acknowledge(DataType)] == [Advance] + [Succeed(DataType), Acknowledge(DataType)];
    assert [Succeed(DataType), Acknowledge(DataType)] == [Succeed(DataType)] + [Acknowledge(DataType)];
    assert [Acknowledge(DataType)] == [Acknowledge(DataType)] + [];
  }

  lemma RunFrom(c: Config, s: State, step: Step, rest: seq<Step>)
    requires Enabled(false, s, step) && IsRun(c, false, Next(c, false, s, step), rest)
    ensures IsRun(c, false, s, [step] + rest)
    ensures After(c, false, s, [step] + rest) == After(c, false, Next(c, false, s, step), rest)
  {
    hide Enabled, Next;
    assert ([step] + rest)[1..] == rest;
  }

  // ---------------------------------------------------------------------------------------
  // The callbacks
  // ---------------------------------------------------------------------------------------

  datatype ConnectState = Off | On | Configuring | Sampling
  datatype Status = Success | Timeout | Failure

  /** The bits that the connection event sets. */
  function WithRequested(c: Config, bits: bv32, k: nat): bv32
    requires k <= 4
  {
    if k == 0 then bits
    else if Requested(c, Order(k - 1)) then Set(WithRequested(c, bits, k - 1), Order(k - 1))
    else WithRequested(c, bits, k - 1)
  }

  /** A request, with the value asked for; the dual emission is on or off. */
  datatype Request = Request(setting: Setting, value: int)

  function Ask(c: Config, s: Setting): Request {
    match s
    case DataType => Request(DataType, c.pclDataType)
    case ScanPattern => Request(ScanPattern, c.patternMode)
    case BlindSpot => Request(BlindSpot, c.blindSpotSet)
    case DualEmit => Request(DualEmit, if c.dualEmitEn == 0 then 0 else 1)
  }

  /** The requests it sends, in order. */
  function RequestsTo(c: Config, k: nat): seq<Request>
    requires k <= 4
  {
    if k == 0 then []
    else if Requested(c, Order(k - 1)) then RequestsTo(c, k - 1) + [Ask(c, Order(k - 1))]
    else RequestsTo(c, k - 1)
  }

  /** Exactly the settings whose field is not -1, each once. */
  lemma ConnectAsks(c: Config)
    ensures RequestsTo(c, 4)
         == (if c.pclDataType != -1 then [Request(DataType, c.pclDataType)] else [])
            + (if c.patternMode != -1 then [Request(ScanPattern, c.patternMode)] else [])
            + (if c.blindSpotSet != -1 then [Request(BlindSpot, c.blindSpotSet)] else [])
            + (if c.dualEmitEn != -1 then [Request(DualEmit, if c.dualEmitEn == 0 then 0 else 1)] else [])
  {
    assert RequestsTo(c, 0) == [];
    RequestedNext(c, 0, 0);
    RequestedNext(c, 0, 1);
    RequestedNext(c, 0, 2);
    RequestedNext(c, 0, 3);
    hide RequestsTo, WithRequested;
  }

  lemma ConnectSets(c: Config, bits: bv32)
    ensures WithRequested(c, bits, 4)
         == Or(Or(Or(Or(bits, if c.pclDataType != -1 then 1 else 0), if c.patternMode != -1 then 2 else 0),
                  if c.blindSpotSet != -1 then 4 else 0), if c.dualEmitEn != -1 then 8 else 0)
  {
    hide RequestsTo, WithRequested, Or;
    NothingRequested(c, bits);
    var b1, b2, b3 := WithRequested(c, bits, 1), WithRequested(c, bits, 2), WithRequested(c, bits, 3);
    RequestedNext(c, bits, 0);
    RequestedNext(c, bits, 1);
    RequestedNext(c, bits, 2);
    RequestedNext(c, bits, 3);
    OrNothing(bits);
    OrNothing(b1);
    OrNothing(b2);
    OrNothing(b3);
  }

  lemma OrNothing(bits: bv32)
    ensures Or(bits, 0) == bits
  {
  }

  lemma NothingRequested(c: Config, bits: bv32)
    ensures WithRequested(c, bits, 0) == bits && RequestsTo(c, 0) == []
  {
  }

  lemma RequestedNext(c: Config, bits: bv32, k: nat)
    requires k < 4
    ensures WithRequested(c, bits, k + 1)
         == if Requested(c, Order(k)) then Set(WithRequested(c, bits, k), Order(k)) else WithRequested(c, bits, k)
    ensures RequestsTo(c, k + 1) == RequestsTo(c, k) + if Requested(c, Order(k)) then [Ask(c, Order(k))] else []
  {
    hide Set, Requested, Order;
  }

  lemma {:induction false} RequestedAreSet(c: Config, bits: bv32, k: nat, t: Setting)
    requires k <= 4
    ensures Outstanding(WithRequested(c, bits, k), t) <==>
              Outstanding(bits, t) || (Requested(c, t) && Index(t) < k)
    ensures OnlySettings(bits) ==> OnlySettings(WithRequested(c, bits, k))
    decreases k
  {
    if k > 0 {
      RequestedAreSet(c, bits, k - 1, t);
      SetOne(WithRequested(c, bits, k - 1), Order(k - 1), t);
      hide Outstanding, OnlySettings, Set, Requested;
    }
  }

  /** Afterwards just the requested settings are outstanding, besides those that were. */
  lemma RequestedAreOutstanding(c: Config, bits: bv32, k: nat, t: Setting)
    requires k <= 4
    ensures Outstanding(WithRequested(c, bits, k), t) <==>
              || Outstanding(bits, t)
              || (Index(t) < k
                  && match t
                     case DataType => c.pclDataType != -1
                     case ScanPattern => c.patternMode != -1
                     case BlindSpot => c.blindSpotSet != -1
                     case DualEmit => c.dualEmitEn != -1)
    ensures OnlySettings(bits) ==> OnlySettings(WithRequested(c, bits, k))
  {
    hide Outstanding, OnlySettings, WithRequested, Index;
    RequestedAreSet(c, bits, k, t);
  }

  lemma Chained(sent: seq<Request>, a: seq<Request>, b: seq<Request>, c: seq<Request>, d: seq<Request>)
    ensures sent + (a + b + c + d) == sent + a + b + c + d
  {
  }

  class LidarDevice {
    const config: Config
    var setBits: bv32
    var connectState: ConnectState
    /** Every request sent to the lidar. */
    var requests: seq<Request>

    constructor (config: Config)
      ensures this.config == config && setBits == 0 && connectState == Off && requests == []
    {
      this.config := config;
      setBits, connectState, requests := 0, Off, [];
    }

    method Send(s: Setting)
      modifies `requests
      ensures requests == old(requests) + [Ask(config, s)]
    {
      requests := requests + [Ask(config, s)];
    }

    /** One of the four blocks: the bit is set before the request goes out. */
    method AskNext(k: nat, ghost bits: bv32, ghost sent: seq<Request>)
      requires k < 4 && setBits == WithRequested(config, bits, k) && requests == sent + RequestsTo(config, k)
      modifies `setBits, `requests
      ensures setBits == WithRequested(config, bits, k + 1) && requests == sent + RequestsTo(config, k + 1)
    {
      RequestedNext(config, bits, k);
      hide WithRequested, RequestsTo, Or, Bit, Order;
      var s := Order(k);
      if Requested(config, s) {
        setBits := Or(setBits, Bit(s));
        Send(s);
      }
    }

    /** The locked part of `LidarInfoChangeCallback`. */
    method LidarInfoChange()
      modifies this
      ensures requests == old(requests)
                          + (if config.pclDataType != -1 then [Request(DataType, config.pclDataType)] else [])
                          + (if config.patternMode != -1 then [Request(ScanPattern, config.patternMode)] else [])
                          + (if config.blindSpotSet != -1 then [Request(BlindSpot, config.blindSpotSet)] else [])
                          + (if config.dualEmitEn != -1 then
                               [Request(DualEmit, if config.dualEmitEn == 0 then 0 else 1)] else [])
      ensures setBits == WithRequested(config, old(setBits), 4)
      ensures setBits == Or(Or(Or(Or(old(setBits), if config.pclDataType != -1 then 1 else 0),
                                  if config.patternMode != -1 then 2 else 0),
                               if config.blindSpotSet != -1 then 4 else 0), if config.dualEmitEn != -1 then 8 else 0)
      ensures connectState == if setBits == 0 then Sampling else old(connectState)
    {
      hide WithRequested, RequestsTo, Or;
      ghost var bits, sent := setBits, requests;
      NothingRequested(config, bits);
      ConnectAsks(config);
      ConnectSets(config, bits);
      AskNext(0, bits, sent);
      AskNext(1, bits, sent);
      AskNext(2, bits, sent);
      AskNext(3, bits, sent);
      Chained(sent, if config.pclDataType != -1 then [Request(DataType, config.pclDataType)] else [],
              if config.patternMode != -1 then [Request(ScanPattern, config.patternMode)] else [],
              if config.blindSpotSet != -1 then [Request(BlindSpot, config.blindSpotSet)] else [],
              if config.dualEmitEn != -1 then [Request(DualEmit, if config.dualEmitEn == 0 then 0 else 1)] else []);
      if setBits == 0 {
        connectState := Sampling;
      }
    }

    /** The four callbacks, which differ in their bit and in what they ask for again. */
    method SetCallback(s: Setting, status: Status)
      modifies this
      ensures status.Success? ==> setBits == Clear(old(setBits), s) && requests == old(requests)
      ensures status.Success? ==>
                setBits == And(old(setBits), match s case DataType => 0xFFFF_FFFE case ScanPattern => 0xFFFF_FFFD
                                                     case BlindSpot => 0xFFFF_FFFB case DualEmit => 0xFFFF_FFF7)
      ensures status.Success? ==> connectState == if setBits == 0 then Sampling else old(connectState)
      ensures status.Timeout? ==> requests == old(requests) + [Ask(config, s)]
      ensures status.Failure? ==> requests == old(requests)
      ensures !status.Success? ==> setBits == old(setBits) && connectState == old(connectState)
    {
      if status == Success {
        setBits := And(setBits, !Bit(s));
        if setBits == 0 {
          connectState := Sampling;
        }
      } else if status == Timeout {
        Send(s);
      }
    }
  }
}
