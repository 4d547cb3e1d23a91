/**
 Which calls the writers take: exactly those that spell out one tree, a name being any string and the
 counts of the ends being ignored.
 */
module Streams {
  import opened Bytes
  import opened Json
  import opened Trees
  import opened Writer

  import Layout

  /** A call as the writers tell it from others. */
  function Heard(e: Event): Event {
    match e
    case Key(name) => String(name)
    case EndObject(_) => EndObject(0)
    case EndArray(_) => EndArray(0)
    case _ => e
  }

  function AllHeard(events: seq<Event>): (heard: seq<Event>)
    ensures |heard| == |events| && forall k | 0 <= k < |events| :: heard[k] == Heard(events[k])
  {
    seq(|events|, k requires 0 <= k < |events| => Heard(events[k]))
  }

  lemma HeardConcat(a: seq<Event>, b: seq<Event>)
    ensures AllHeard(a + b) == AllHeard(a) + AllHeard(b)
  {
  }

  lemma {:induction false} HeardAlike(style: Style, out: Output, a: seq<Event>, b: seq<Event>)
    requires AllHeard(a) == AllHeard(b)
    ensures WriteAll(style, out, a) == WriteAll(style, out, b)
    decreases |a|
  {
    hide Prefix, Put, BeforeEnd, StringText, IntegerText;
    if a != [] {
      assert AllHeard(a)[0] == AllHeard(b)[0];
      assert Write(style, out, a[0]) == Write(style, out, b[0]);
      assert AllHeard(a[1..]) == AllHeard(a)[1..] == AllHeard(b)[1..] == AllHeard(b[1..]);
      if Write(style, out, a[0]).Some? {
        HeardAlike(style, Write(style, out, a[0]).value, a[1..], b[1..]);
      }
    }
  }

  /** The calls are written, and the writer is then complete. */
  predicate Completes(style: Style, out: Output, events: seq<Event>) {
    var r := WriteAll(style, out, events);
    r.Some? && r.value.levels == [] && r.value.hasRoot
  }

  predicate Alike(a: Output, b: Output) {
    a.levels == b.levels && a.hasRoot == b.hasRoot
  }

  lemma FirstIsWritten(style: Style, out: Output, events: seq<Event>)
    requires Completes(style, out, events) && events != []
    ensures Write(style, out, events[0]).Some? && Completes(style, Write(style, out, events[0]).value, events[1..])
  {
    hide Write;
  }

  lemma NotYetComplete(style: Style, out: Output, events: seq<Event>)
    requires Completes(style, out, events) && out.levels != []
    ensures events != []
  {
  }

  /** A call where a value may come is not an end, and begins or writes the value. */
  lemma ValueIsTaken(style: Style, out: Output, e: Event)
    requires Ready(out) && Write(style, out, e).Some? && !e.EndArray?
    ensures !e.EndObject?
    ensures var next, p := Write(style, out, e).value, Prefixed(style, out);
            && next.hasRoot == p.hasRoot
            && next.levels == match e
                              case StartObject => p.levels + [Level(0, false)]
                              case StartArray => p.levels + [Level(0, true)]
                              case _ => p.levels
  {
    hide Before, BeforeEnd, StringText, LeafText;
  }

  /** A call where a name may come is a string, or ends the object. */
  lemma NameIsTaken(style: Style, out: Output, e: Event, k: nat)
    requires out.levels != [] && out.levels[|out.levels| - 1] == Level(2 * k, false) && Write(style, out, e).Some?
    ensures e.EndObject? || Heard(e).String?
    ensures var next, n := Write(style, out, e).value, |out.levels| - 1;
            && next.hasRoot == out.hasRoot
            && next.levels == if e.EndObject? then out.levels[..n] else out.levels[n := Level(2 * k + 1, false)]
  {
    hide Before, BeforeEnd, StringText, LeafText;
  }

  lemma PrefixedShape(style: Style, out: Output)
    requires out.levels != []
    ensures var p, n := Prefixed(style, out), |out.levels| - 1;
            && p.hasRoot == out.hasRoot
            && p.levels == out.levels[n := out.levels[n].(valueCount := out.levels[n].valueCount + 1)]
  {
    hide Before;
  }

  lemma {:induction false} ReadValue(style: Style, out: Output, events: seq<Event>)
    returns (t: Tree, rest: seq<Event>, next: Output)
    requires Completes(style, out, events) && Ready(out) && events != [] && !events[0].EndArray?
    ensures IsTree(t) && |rest| < |events| && AllHeard(events) == AllHeard(Events(t) + rest)
    ensures Completes(style, next, rest) && Alike(next, Prefixed(style, out))
    decreases |events|, 1
  {
    hide WriteAll, Write, Prefixed, Ready, Completes, AllHeard, Events;
    FirstIsWritten(style, out, events);
    var first, more := events[0], events[1..];
    ValueIsTaken(style, out, first);
    next := Write(style, out, first).value;
    assert events == [first] + more;
    if first.StartObject? {
      var ms;
      ms, rest, next := ReadMembers(style, next, more, 0);
      t := Obj(ms);
      ObjectIsHeard(ms, more, rest);
    } else if first.StartArray? {
      var ts;
      ts, rest, next := ReadElements(style, next, more);
      t := Arr(ts);
      ArrayIsHeard(ts, more, rest);
    } else {
      t, rest := Leaf(Heard(first)), more;
      LeafIsHeard(first, more);
    }
  }

  lemma LeafIsHeard(first: Event, more: seq<Event>)
    ensures AllHeard([first] + more) == AllHeard(Events(Leaf(Heard(first))) + more)
  {
  }

  lemma EndIsHeard(end: Event, more: seq<Event>)
    requires end.EndObject?
    ensures AllHeard([end] + more) == AllHeard(MemberEvents([]) + [EndObject(0)] + more)
  {
    assert MemberEvents([]) + [EndObject(0)] + more == [EndObject(0)] + more;
  }

  lemma ObjectIsHeard(ms: seq<Member>, more: seq<Event>, rest: seq<Event>)
    requires AllHeard(more) == AllHeard(MemberEvents(ms) + [EndObject(0)] + rest)
    ensures AllHeard([StartObject] + more) == AllHeard(Events(Obj(ms)) + rest)
  {
    HeardConcat([StartObject], more);
    HeardConcat([StartObject], MemberEvents(ms) + [EndObject(0)] + rest);
    assert [StartObject] + (MemberEvents(ms) + [EndObject(0)] + rest)
        == [StartObject] + MemberEvents(ms) + ([EndObject(0)] + rest);
    HeardConcat([StartObject] + MemberEvents(ms), [EndObject(0)] + rest);
    HeardConcat([StartObject] + MemberEvents(ms), [EndObject(|ms|)] + rest);
    assert AllHeard([EndObject(0)] + rest) == AllHeard([EndObject(|ms|)] + rest);
    assert Events(Obj(ms)) + rest == [StartObject] + MemberEvents(ms) + ([EndObject(|ms|)] + rest);
  }

  lemma ArrayIsHeard(ts: seq<Tree>, more: seq<Event>, rest: seq<Event>)
    requires AllHeard(more) == AllHeard(ElementEvents(ts) + [EndArray(0)] + rest)
    ensures AllHeard([StartArray] + more) == AllHeard(Events(Arr(ts)) + rest)
  {
    HeardConcat([StartArray], more);
    HeardConcat([StartArray], ElementEvents(ts) + [EndArray(0)] + rest);
    assert [StartArray] + (ElementEvents(ts) + [EndArray(0)] + rest)
        == [StartArray] + ElementEvents(ts) + ([EndArray(0)] + rest);
    HeardConcat([StartArray] + ElementEvents(ts), [EndArray(0)] + rest);
    HeardConcat([StartArray] + ElementEvents(ts), [EndArray(|ts|)] + rest);
    assert AllHeard([EndArray(0)] + rest) == AllHeard([EndArray(|ts|)] + rest);
    assert Events(Arr(ts)) + rest == [StartArray] + ElementEvents(ts) + ([EndArray(|ts|)] + rest);
  }

  lemma EndOfArrayIsRefused(style: Style, out: Output, e: Event)
    requires out.levels != [] && !out.levels[|out.levels| - 1].inArray && Write(style, out, e).Some?
    ensures !e.EndArray?
  {
    hide Prefix, Put;
  }

  lemma {:induction false} ReadMembers(style: Style, out: Output, events: seq<Event>, k: nat)
    returns (ms: seq<Member>, rest: seq<Event>, next: Output)
    requires Completes(style, out, events) && out.levels != []
    requires out.levels[|out.levels| - 1] == Level(2 * k, false)
    ensures (forall m <- ms :: IsTree(m.value)) && |rest| < |events|
    ensures AllHeard(events) == AllHeard(MemberEvents(ms) + [EndObject(0)] + rest)
    ensures Completes(style, next, rest)
    ensures next.levels == out.levels[..|out.levels| - 1] && next.hasRoot == out.hasRoot
    decreases |events|, 0
  {
    hide WriteAll, Write, Prefixed, Completes, IsTree, AllHeard, MemberEvents;
    NotYetComplete(style, out, events);
    FirstIsWritten(style, out, events);
    var first, more := events[0], events[1..];
    NameIsTaken(style, out, first, k);
    next := Write(style, out, first).value;
    assert events == [first] + more;
    if first.EndObject? {
      ms, rest := [], more;
      EndIsHeard(first, more);
      return;
    }
    var name := if first.Key? then first.key else first.str;
    NotYetComplete(style, next, more);
    FirstIsWritten(style, next, more);
    PrefixedShape(style, next);
    EndOfArrayIsRefused(style, next, more[0]);
    var value, afterValue, named;
    value, afterValue, named := ReadValue(style, next, more);
    ms, rest, next := ReadMembers(style, named, afterValue, k + 1);
    MemberIsHeard(first, name, value, more, afterValue, ms, rest);
    ms := [Member(name, value)] + ms;
  }

  lemma MemberIsHeard(first: Event, name: seq<Byte>, value: Tree, more: seq<Event>, afterValue: seq<Event>,
                      ms: seq<Member>, rest: seq<Event>)
    requires Heard(first) == String(name)
    requires AllHeard(more) == AllHeard(Events(value) + afterValue)
    requires AllHeard(afterValue) == AllHeard(MemberEvents(ms) + [EndObject(0)] + rest)
    ensures AllHeard([first] + more) == AllHeard(MemberEvents([Member(name, value)] + ms) + [EndObject(0)] + rest)
  {
    var all := [Member(name, value)] + ms;
    var tail := MemberEvents(ms) + [EndObject(0)] + rest;
    assert AllHeard([first]) == AllHeard([Key(name)]);
    MemberEventsCons(name, value, ms, rest);
    hide Events, MemberEvents, AllHeard;
    HeardConcat([first], more);
    HeardConcat(Events(value), afterValue);
    HeardConcat(Events(value), tail);
    HeardConcat([Key(name)], Events(value) + tail);
  }

  lemma MemberEventsCons(name: seq<Byte>, value: Tree, ms: seq<Member>, rest: seq<Event>)
    ensures MemberEvents([Member(name, value)] + ms) + [EndObject(0)] + rest
         == [Key(name)] + (Events(value) + (MemberEvents(ms) + [EndObject(0)] + rest))
  {
    hide Events;
    var all := [Member(name, value)] + ms;
    assert all[1..] == ms && MemberEvents(all) == [Key(name)] + Events(value) + MemberEvents(ms);
    hide MemberEvents;
    var es := Events(value);
    assert [Key(name)] + es + MemberEvents(ms) + [EndObject(0)] + rest
        == [Key(name)] + (es + (MemberEvents(ms) + [EndObject(0)] + rest));
  }

  lemma {:induction false} ReadElements(style: Style, out: Output, events: seq<Event>)
    returns (ts: seq<Tree>, rest: seq<Event>, next: Output)
    requires Completes(style, out, events) && out.levels != []
    requires out.levels[|out.levels| - 1].inArray
    ensures (forall t <- ts :: IsTree(t)) && |rest| < |events|
    ensures AllHeard(events) == AllHeard(ElementEvents(ts) + [EndArray(0)] + rest)
    ensures Completes(style, next, rest)
    ensures next.levels == out.levels[..|out.levels| - 1] && next.hasRoot == out.hasRoot
    decreases |events|, 2
  {
    hide WriteAll, Before, BeforeEnd, StringText, LeafText, Completes, IsTree;
    NotYetComplete(style, out, events);
    PrefixedShape(style, out);
    if events[0].EndArray? {
      FirstIsWritten(style, out, events);
      next := Write(style, out, events[0]).value;
      ts, rest := [], events[1..];
      assert ElementEvents(ts) + [EndArray(0)] + rest == [EndArray(0)] + events[1..];
      return;
    }
    var t, more, between;
    t, more, between := ReadValue(style, out, events);
    ts, rest, next := ReadElements(style, between, more);
    ElementIsHeard(t, events, more, ts, rest);
    ts := [t] + ts;
  }

  lemma ElementIsHeard(t: Tree, events: seq<Event>, more: seq<Event>, ts: seq<Tree>, rest: seq<Event>)
    requires AllHeard(events) == AllHeard(Events(t) + more)
    requires AllHeard(more) == AllHeard(ElementEvents(ts) + [EndArray(0)] + rest)
    ensures AllHeard(events) == AllHeard(ElementEvents([t] + ts) + [EndArray(0)] + rest)
  {
    var all := [t] + ts;
    var tail := ElementEvents(ts) + [EndArray(0)] + rest;
    ElementEventsCons(t, ts, rest);
    hide Events, ElementEvents, AllHeard;
    HeardConcat(Events(t), more);
    HeardConcat(Events(t), tail);
  }

  lemma ElementEventsCons(t: Tree, ts: seq<Tree>, rest: seq<Event>)
    ensures ElementEvents([t] + ts) + [EndArray(0)] + rest
         == Events(t) + (ElementEvents(ts) + [EndArray(0)] + rest)
  {
    hide Events;
    var all := [t] + ts;
    assert all[1..] == ts && ElementEvents(all) == Events(t) + ElementEvents(ts);
    hide ElementEvents;
    assert Events(t) + ElementEvents(ts) + [EndArray(0)] + rest
        == Events(t) + (ElementEvents(ts) + [EndArray(0)] + rest);
  }

  /** Only one value is taken at the root. */
  lemma NothingAfterRoot(style: Style, out: Output, events: seq<Event>)
    requires Completes(style, out, events) && out.levels == [] && out.hasRoot
    ensures events == []
  {
    if events != [] {
      FirstIsWritten(style, out, events);
      assert false;
    }
  }

  /**
   The assertions of a fresh writer hold and it is complete at the end exactly when the calls spell out
   a tree, and what it has then printed is that tree laid out.
   */
  lemma TakesExactlyTrees(style: Style, events: seq<Event>)
    ensures Completes(style, EMPTY, events)
       <==> exists t :: IsTree(t) && AllHeard(events) == AllHeard(Events(t))
    ensures Completes(style, EMPTY, events) ==>
              exists t :: IsTree(t) && AllHeard(events) == AllHeard(Events(t))
                          && Layout.IsLaidOut(style, 0, t, WriteAll(style, EMPTY, events).value.os)
  {
    hide WriteAll, AllHeard, IsTree, Layout.IsLaidOut;
    forall t | IsTree(t) && AllHeard(events) == AllHeard(Events(t))
      ensures Completes(style, EMPTY, events) && Layout.IsLaidOut(style, 0, t, WriteAll(style, EMPTY, events).value.os)
    {
      HeardAlike(style, EMPTY, events, Events(t));
      WriteWholeTree(style, t);
      Layout.TreeIsPrinted(style, 0, t);
    }
    if Completes(style, EMPTY, events) {
      assert events != [] by {
        FreshIsNotComplete(style);
      }
      var t, rest, next := RootValue(style, events);
      NothingAfterRoot(style, next, rest);
      assert Events(t) + rest == Events(t);
    }
  }

  lemma FreshIsNotComplete(style: Style)
    ensures !Completes(style, EMPTY, [])
  {
  }

  lemma RootValue(style: Style, events: seq<Event>) returns (t: Tree, rest: seq<Event>, next: Output)
    requires Completes(style, EMPTY, events) && events != []
    ensures IsTree(t) && AllHeard(events) == AllHeard(Events(t) + rest)
    ensures Completes(style, next, rest) && next.levels == [] && next.hasRoot
  {
    hide Completes, IsTree, AllHeard;
    FirstIsWritten(style, EMPTY, events);
    t, rest, next := ReadValue(style, EMPTY, events);
  }
}
