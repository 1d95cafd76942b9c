/** The message queue of libburn/libdax_msgs.c as a sequence of messages. */
module MsgQueue {

  datatype Option<T> = None | Some(value: T)

  datatype Message = Message(origin: int, errorCode: int, severity: int, priority: int, text: string, osErrno: int)

  predicate Wanted(m: Message, severity: int, priority: int) {
    m.severity >= severity && m.priority >= priority
  }

  /** The messages of sufficient severity in their sequence. */
  function Severe(q: seq<Message>, severity: int): (r: seq<Message>)
    ensures |r| <= |q|
  {
    if q == [] then []
    else
      var n := |q| - 1;
      Severe(q[..n], severity) + if q[n].severity >= severity then [q[n]] else []
  }

  /** The position of the oldest wanted message, or |q| if there is none. */
  function Oldest(q: seq<Message>, severity: int, priority: int): (k: nat)
    ensures k <= |q|
    ensures forall i :: 0 <= i < k ==> !Wanted(q[i], severity, priority)
    ensures k < |q| ==> Wanted(q[k], severity, priority)
  {
    if q == [] || Wanted(q[0], severity, priority) then 0 else 1 + Oldest(q[1..], severity, priority)
  }

  function Obtained(q: seq<Message>, severity: int, priority: int): Option<Message> {
    var k := Oldest(q, severity, priority);
    if k < |q| then Some(q[k]) else None
  }

  /** Messages of too low severity are lost if they are older than the obtained one. Others stay. */
  function Remaining(q: seq<Message>, severity: int, priority: int): seq<Message> {
    var k := Oldest(q, severity, priority);
    Severe(q[..k], severity) + if k < |q| then q[k + 1..] else []
  }

  /** The search has passed d messages and come to the one at position i of what is left. */
  ghost predicate Searching(q: seq<Message>, left: seq<Message>, severity: int, priority: int, d: nat, i: nat) {
    && d <= |q| && left == Severe(q[..d], severity) + q[d..] && i == |Severe(q[..d], severity)|
    && forall k :: 0 <= k < d ==> !Wanted(q[k], severity, priority)
  }

  lemma SearchStarts(q: seq<Message>, severity: int, priority: int)
    ensures Searching(q, q, severity, priority, 0, 0)
  {
    assert q[..0] == [];
  }

  lemma SearchAt(q: seq<Message>, left: seq<Message>, severity: int, priority: int, d: nat, i: nat)
    requires Searching(q, left, severity, priority, d, i)
    ensures i <= |left| && d <= |q| && (i == |left| <==> d == |q|) && (d < |q| ==> left[i] == q[d])
  {}

  /** A message of too low severity gets deleted. */
  lemma SearchDeletes(q: seq<Message>, left: seq<Message>, severity: int, priority: int, d: nat, i: nat)
    requires Searching(q, left, severity, priority, d, i) && d < |q| && q[d].severity < severity
    ensures i < |left| && Searching(q, left[..i] + left[i + 1..], severity, priority, d + 1, i)
  {
    SearchAt(q, left, severity, priority, d, i);
    assert q[..d + 1][..d] == q[..d];
    assert left[..i] == Severe(q[..d], severity) && left[i + 1..] == q[d + 1..];
  }

  /** A message of too low priority stays. */
  lemma SearchPasses(q: seq<Message>, left: seq<Message>, severity: int, priority: int, d: nat, i: nat)
    requires Searching(q, left, severity, priority, d, i) && d < |q|
    requires q[d].severity >= severity && q[d].priority < priority
    ensures Searching(q, left, severity, priority, d + 1, i + 1)
  {
    assert q[..d + 1][..d] == q[..d];
    assert q[d..] == [q[d]] + q[d + 1..];
  }

  lemma {:induction false} OldestIs(q: seq<Message>, severity: int, priority: int, d: nat)
    requires d <= |q| && (forall k :: 0 <= k < d ==> !Wanted(q[k], severity, priority))
    requires d < |q| ==> Wanted(q[d], severity, priority)
    ensures Oldest(q, severity, priority) == d
  {
    hide Wanted;
    if d > 0 {
      OldestIs(q[1..], severity, priority, d - 1);
    }
  }

  /** The end of a search. */
  lemma SearchEnds(q: seq<Message>, left: seq<Message>, severity: int, priority: int, d: nat, i: nat)
    requires Searching(q, left, severity, priority, d, i) && (d < |q| ==> Wanted(q[d], severity, priority))
    ensures if i < |left| then
        && Obtained(q, severity, priority) == Some(left[i])
        && Remaining(q, severity, priority) == left[..i] + left[i + 1..]
      else Obtained(q, severity, priority) == None && Remaining(q, severity, priority) == left
  {
    hide Oldest, Severe;
    SearchAt(q, left, severity, priority, d, i);
    OldestIs(q, severity, priority, d);
  }

  /** The outcome of a request by the oldest message and the rest of the queue. */
  lemma ObtainByOldest(m: Message, rest: seq<Message>, severity: int, priority: int)
    ensures Obtained([], severity, priority) == None && Remaining([], severity, priority) == []
    ensures var q := [m] + rest;
      if m.severity >= severity && m.priority >= priority then
        Obtained(q, severity, priority) == Some(m) && Remaining(q, severity, priority) == rest
      else
        && Obtained(q, severity, priority) == Obtained(rest, severity, priority)
        && Remaining(q, severity, priority)
             == (if m.severity >= severity then [m] else []) + Remaining(rest, severity, priority)
  {
    hide Oldest, Severe, Wanted;
    var q, k := [m] + rest, Oldest(rest, severity, priority);
    OldestNext(m, rest, severity, priority);
    SevereConcat([m], rest[..k], severity);
    SevereSingle(m, severity);
    assert q[..0] == [] && q[..1 + k] == [m] + rest[..k] && q[1..] == rest;
  }

  lemma OldestNext(m: Message, rest: seq<Message>, severity: int, priority: int)
    ensures Oldest([], severity, priority) == 0
    ensures Oldest([m] + rest, severity, priority)
      == if m.severity >= severity && m.priority >= priority then 0 else 1 + Oldest(rest, severity, priority)
  {
    assert ([m] + rest)[1..] == rest;
  }

  // ---------- any run of submissions and requests

  datatype Event = Submit(message: Message) | Obtain(severity: int, priority: int)

  /** What is in the queue, what has been submitted to it and what has been obtained. */
  datatype History = History(queue: seq<Message>, submitted: seq<Message>, obtained: seq<Message>)

  function Run(events: seq<Event>): History {
    if events == [] then History([], [], [])
    else
      var h := Run(events[..|events| - 1]);
      match events[|events| - 1]
      case Submit(m) => h.(queue := h.queue + [m], submitted := h.submitted + [m])
      case Obtain(severity, priority) =>
        var got := Obtained(h.queue, severity, priority);
        History(Remaining(h.queue, severity, priority), h.submitted,
                h.obtained + if got.Some? then [got.value] else [])
  }

  /** No request demands a higher severity than the given one. */
  predicate RequestsUpTo(events: seq<Event>, severity: int) {
    forall k :: 0 <= k < |events| && events[k].Obtain? ==> events[k].severity <= severity
  }

  /** All requests are the same. */
  predicate SameRequests(events: seq<Event>, severity: int, priority: int) {
    forall k :: 0 <= k < |events| && events[k].Obtain? ==> events[k] == Obtain(severity, priority)
  }

  /** The wanted messages in their sequence. */
  function AllWanted(q: seq<Message>, severity: int, priority: int): seq<Message> {
    if q == [] then []
    else
      var n := |q| - 1;
      AllWanted(q[..n], severity, priority) + if Wanted(q[n], severity, priority) then [q[n]] else []
  }

  lemma {:induction false} SevereConcat(p: seq<Message>, q: seq<Message>, severity: int)
    ensures Severe(p + q, severity) == Severe(p, severity) + Severe(q, severity)
  {
    if q == [] {
      assert p + q == p;
    } else {
      var n := |q| - 1;
      assert (p + q)[..|p| + n] == p + q[..n];
      SevereConcat(p, q[..n], severity);
    }
  }

  lemma {:induction false} SevereTwice(q: seq<Message>, low: int, high: int)
    requires low <= high
    ensures Severe(Severe(q, low), high) == Severe(q, high)
  {
    if q != [] {
      var n := |q| - 1;
      SevereTwice(q[..n], low, high);
      SevereConcat(Severe(q[..n], low), if q[n].severity >= low then [q[n]] else [], high);
      SevereSingle(q[n], high);
    }
  }

  lemma SevereSingle(m: Message, severity: int)
    ensures Severe([m], severity) == if m.severity >= severity then [m] else []
    ensures Severe([], severity) == []
  {
    assert [m][..0] == [];
  }

  lemma {:induction false} WantedConcat(p: seq<Message>, q: seq<Message>, severity: int, priority: int)
    ensures AllWanted(p + q, severity, priority) == AllWanted(p, severity, priority) + AllWanted(q, severity, priority)
  {
    if q == [] {
      assert p + q == p;
    } else {
      var n := |q| - 1;
      assert (p + q)[..|p| + n] == p + q[..n];
      WantedConcat(p, q[..n], severity, priority);
    }
  }

  lemma {:induction false} NoneWanted(q: seq<Message>, severity: int, priority: int)
    requires forall k :: 0 <= k < |q| ==> !Wanted(q[k], severity, priority)
    ensures AllWanted(q, severity, priority) == []
  {
    if q != [] {
      NoneWanted(q[..|q| - 1], severity, priority);
    }
  }

  lemma {:induction false} SevereIsPart(q: seq<Message>, severity: int, m: Message)
    requires m in Severe(q, severity)
    ensures m in q && m.severity >= severity
  {
    var n := |q| - 1;
    if m in Severe(q[..n], severity) {
      SevereIsPart(q[..n], severity, m);
    }
  }

  /** A request splits the queue around the obtained message. */
  lemma SplitQueue(q: seq<Message>, k: nat)
    requires k < |q|
    ensures q == q[..k] + [q[k]] + q[k + 1..]
  {}

  lemma ObtainKeepsSevere(q: seq<Message>, severity: int, priority: int, limit: int)
    requires severity <= limit
    ensures var got := Obtained(q, severity, priority);
      multiset(Severe(q, limit)) == multiset(Severe(Remaining(q, severity, priority), limit))
        + multiset(Severe(if got.Some? then [got.value] else [], limit))
  {
    hide Oldest, Severe;
    var k := Oldest(q, severity, priority);
    SevereSingle(if k < |q| then q[k] else Message(0, 0, 0, 0, "", 0), limit);
    SevereTwice(q[..k], severity, limit);
    if k < |q| {
      SplitQueue(q, k);
      SevereConcat(q[..k] + [q[k]], q[k + 1..], limit);
      SevereConcat(q[..k], [q[k]], limit);
      SevereConcat(Severe(q[..k], severity), q[k + 1..], limit);
    } else {
      assert q[..k] == q && Severe(q, severity) + [] == Severe(q, severity);
    }
  }

  /** No message gets lost or doubled, if it is severe enough for all requests. */
  lemma {:induction false} SevereAreKept(events: seq<Event>, severity: int)
    requires RequestsUpTo(events, severity)
    ensures var h := Run(events);
      multiset(Severe(h.submitted, severity)) == multiset(Severe(h.obtained, severity))
        + multiset(Severe(h.queue, severity))
  {
    hide Severe, Remaining, Obtained;
    if events == [] {
      SevereSingle(Message(0, 0, 0, 0, "", 0), severity);
    } else {
      var n := |events| - 1;
      SevereAreKept(events[..n], severity);
      var h := Run(events[..n]);
      match events[n]
      case Submit(m) =>
        SevereConcat(h.queue, [m], severity);
        SevereConcat(h.submitted, [m], severity);
      case Obtain(s, p) =>
        var got := Obtained(h.queue, s, p);
        ObtainKeepsSevere(h.queue, s, p, severity);
        SevereConcat(h.obtained, if got.Some? then [got.value] else [], severity);
    }
  }

  lemma ObtainInOrder(q: seq<Message>, severity: int, priority: int)
    ensures var got := Obtained(q, severity, priority);
      AllWanted(q, severity, priority)
        == (if got.Some? then [got.value] else []) + AllWanted(Remaining(q, severity, priority), severity, priority)
  {
    hide Oldest, AllWanted, Wanted, Severe;
    var k := Oldest(q, severity, priority);
    var older := Severe(q[..k], severity);
    forall i | 0 <= i < |older|
      ensures !Wanted(older[i], severity, priority)
    {
      SevereIsPart(q[..k], severity, older[i]);
    }
    NoneWanted(q[..k], severity, priority);
    NoneWanted(older, severity, priority);
    if k < |q| {
      SplitQueue(q, k);
      WantedConcat(q[..k] + [q[k]], q[k + 1..], severity, priority);
      WantedConcat(q[..k], [q[k]], severity, priority);
      WantedConcat(older, q[k + 1..], severity, priority);
      WantedSingle(q[k], severity, priority);
    } else {
      assert q[..k] == q && older + [] == older;
    }
  }

  lemma WantedSingle(m: Message, severity: int, priority: int)
    ensures AllWanted([m], severity, priority) == if Wanted(m, severity, priority) then [m] else []
  {
    assert [m][..0] == [];
  }

  /** If all requests are the same, then the wanted messages are obtained in the sequence of their submission. */
  lemma {:induction false} FirstInFirstOut(events: seq<Event>, severity: int, priority: int)
    requires SameRequests(events, severity, priority)
    ensures var h := Run(events);
      AllWanted(h.submitted, severity, priority) == h.obtained + AllWanted(h.queue, severity, priority)
  {
    hide Remaining, Obtained, Wanted;
    if events != [] {
      var n := |events| - 1;
      FirstInFirstOut(events[..n], severity, priority);
      var h := Run(events[..n]);
      match events[n]
      case Submit(m) =>
        WantedConcat(h.queue, [m], severity, priority);
        WantedConcat(h.submitted, [m], severity, priority);
      case Obtain(_, _) =>
        ObtainInOrder(h.queue, severity, priority);
    }
  }
}
