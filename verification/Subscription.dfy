/** One subscription: its queues, its publishing cycle and its retransmission store. */
module Subscription {
  import opened Wrappers

  /** The two kinds of notification that monitored items queue. */
  datatype Kind = DataChange | EventField

  type Queues<V> = map<nat, seq<V>>

  /** A notification message; the order between the items of one message is not modelled. */
  datatype Message<+V> = Message(
    sequenceNumber: nat,
    datachanges: map<nat, seq<V>>,
    events: map<nat, seq<V>>,
    status: Option<nat>)
  {
    predicate HasData() {
      datachanges.Keys != {} || events.Keys != {} || status.Some?
    }

    function Batch(kind: Kind, mid: nat): seq<V> {
      var queues := if kind.DataChange? then datachanges else events;
      if mid in queues then queues[mid] else []
    }
  }

  datatype PublishResult<+V> = PublishResult(message: Message<V>, available: set<nat>)

  datatype State<+V> = State(
    lifetimeCount: nat,
    maxKeepAliveCount: nat,
    datachanges: map<nat, seq<V>>,
    events: map<nat, seq<V>>,
    statuses: seq<nat>,
    notificationSeq: nat,
    notAcknowledged: map<nat, PublishResult<V>>,
    startup: bool,
    keepAliveCount: nat,
    publishCyclesCount: nat,
    stopped: bool)
  {
    function Pending(kind: Kind, mid: nat): seq<V> {
      var queues := if kind.DataChange? then datachanges else events;
      if mid in queues then queues[mid] else []
    }

    // The counter is only raised while it is at most the maximum.
    predicate Valid() {
      keepAliveCount <= maxKeepAliveCount + 1
    }
  }

  const BAD_TIMEOUT: nat := 0x800A0000

  function Fresh<V>(lifetimeCount: nat, maxKeepAliveCount: nat): (s: State<V>)
    ensures s.Valid()
  {
    State(lifetimeCount, maxKeepAliveCount, map[], map[], [], 1, map[], true, 0, 0, false)
  }

  /** A full queue drops its oldest entry; size 0 means no limit. */
  function Enqueue<V>(queues: Queues<V>, mid: nat, v: V, size: nat): Queues<V> {
    if mid !in queues then queues[mid := [v]]
    else if size != 0 && |queues[mid]| >= size && queues[mid] != [] then queues[mid := queues[mid][1..] + [v]]
    else queues[mid := queues[mid] + [v]]
  }

  predicate Publishes<V>(s: State<V>) {
    s.startup || s.datachanges.Keys != {} || s.events.Keys != {} || s.keepAliveCount > s.maxKeepAliveCount
  }

  function Pop<V>(s: State<V>): (State<V>, PublishResult<V>) {
    var status := if s.statuses == [] then None else Some(s.statuses[0]);
    var message := Message(s.notificationSeq, s.datachanges, s.events, status);
    var keys := if message.HasData() then s.notAcknowledged.Keys + {s.notificationSeq} else s.notAcknowledged.Keys;
    var result := PublishResult(message, keys);
    (s.(datachanges := map[], events := map[], statuses := if s.statuses == [] then [] else s.statuses[1..],
        keepAliveCount := 0, startup := false,
        notificationSeq := if message.HasData() then s.notificationSeq + 1 else s.notificationSeq,
        notAcknowledged := if message.HasData() then s.notAcknowledged[s.notificationSeq := result]
                           else s.notAcknowledged),
     result)
  }

  /** One call of publish_results, with what it hands to the callback. */
  function Tick<V>(s: State<V>): (State<V>, Option<PublishResult<V>>) {
    var expired := s.publishCyclesCount > s.lifetimeCount;
    var s1 := if expired then s.(statuses := s.statuses + [BAD_TIMEOUT], stopped := true) else s;
    if Publishes(s1) then
      var (s2, result) := Pop(s1.(publishCyclesCount := s1.publishCyclesCount + 1));
      (s2, Some(result))
    else (s1.(keepAliveCount := s1.keepAliveCount + 1), None)
  }

  function Acknowledge<V>(s: State<V>, acks: seq<nat>): State<V> {
    s.(publishCyclesCount := 0, notAcknowledged := s.notAcknowledged - set n | n in acks)
  }

  /** A number that is not stored gives the empty message (number 0). */
  function Republish<V>(s: State<V>, n: nat): Message<V> {
    if n in s.notAcknowledged then s.notAcknowledged[n].message else Message(0, map[], map[], None)
  }

  // ----- The object -----

  class InternalSubscription<V> {
    const lifetimeCount: nat
    const maxKeepAliveCount: nat
    var datachanges: map<nat, seq<V>>
    var events: map<nat, seq<V>>
    var statuses: seq<nat>
    var notificationSeq: nat
    var notAcknowledged: map<nat, PublishResult<V>>
    var startup: bool
    var keepAliveCount: nat
    var publishCyclesCount: nat
    var stopped: bool

    function Model(): State<V>
      reads this
    {
      State(lifetimeCount, maxKeepAliveCount, datachanges, events, statuses, notificationSeq, notAcknowledged,
            startup, keepAliveCount, publishCyclesCount, stopped)
    }

    constructor (lifetimeCount: nat, maxKeepAliveCount: nat)
      ensures Model() == Fresh(lifetimeCount, maxKeepAliveCount)
    {
      this.lifetimeCount, this.maxKeepAliveCount := lifetimeCount, maxKeepAliveCount;
      datachanges, events, statuses := map[], map[], [];
      notificationSeq, notAcknowledged := 1, map[];
      startup, keepAliveCount, publishCyclesCount, stopped := true, 0, 0, false;
    }

    method HasPublishedResults() returns (b: bool)
      modifies this`keepAliveCount
      ensures b == Publishes(old(Model()))
      ensures keepAliveCount == old(keepAliveCount) + if b then 0 else 1
    {
      if startup || datachanges.Keys != {} || events.Keys != {} {
        return true;
      }
      if keepAliveCount > maxKeepAliveCount {
        return true;
      }
      keepAliveCount := keepAliveCount + 1;
      return false;
    }

    method PublishResults() returns (result: Option<PublishResult<V>>)
      modifies this
      ensures (Model(), result) == Tick(old(Model()))
    {
      if publishCyclesCount > lifetimeCount {
        EnqueueStatusChange(BAD_TIMEOUT);
        stopped := true;
      }
      result := None;
      var ready := HasPublishedResults();
      if ready {
        publishCyclesCount := publishCyclesCount + 1;
        var r := PopPublishResult();
        result := Some(r);
      }
    }

    method PopPublishResult() returns (result: PublishResult<V>)
      modifies this
      ensures (Model(), result) == Pop(old(Model()))
    {
      var data, evts, status := map[], map[], None;
      if datachanges.Keys != {} {
        data := datachanges;
        datachanges := map[];
      }
      if events.Keys != {} {
        evts := events;
        events := map[];
      }
      if statuses != [] {
        status := Some(statuses[0]);
        statuses := statuses[1..];
      }
      keepAliveCount := 0;
      startup := false;
      var message := Message(notificationSeq, data, evts, status);
      assert data == old(datachanges) && evts == old(events);
      if message.HasData() {
        notificationSeq := notificationSeq + 1;
        result := PublishResult(message, notAcknowledged.Keys + {message.sequenceNumber});
        notAcknowledged := notAcknowledged[message.sequenceNumber := result];
      } else {
        result := PublishResult(message, notAcknowledged.Keys);
      }
    }

    method Publish(acks: seq<nat>)
      modifies this`publishCyclesCount, this`notAcknowledged
      ensures Model() == Acknowledge(old(Model()), acks)
    {
      publishCyclesCount := 0;
      for i := 0 to |acks|
        invariant publishCyclesCount == 0
        invariant notAcknowledged == old(notAcknowledged) - set n | n in acks[..i]
      {
        assert acks[..i + 1] == acks[..i] + [acks[i]];
        if acks[i] in notAcknowledged {
          notAcknowledged := notAcknowledged - {acks[i]};
        }
      }
      assert acks[..|acks|] == acks;
    }

    method RepublishMessage(n: nat) returns (m: Message<V>)
      ensures m == Republish(Model(), n)
    {
      if n in notAcknowledged {
        m := notAcknowledged[n].message;
      } else {
        m := Message(0, map[], map[], None);
      }
    }

    method EnqueueEvent(kind: Kind, mid: nat, v: V, maxSize: nat)
      modifies this`datachanges, this`events
      ensures Model() == if kind.DataChange?
                         then old(Model()).(datachanges := Enqueue(old(datachanges), mid, v, maxSize))
                         else old(Model()).(events := Enqueue(old(events), mid, v, maxSize))
    {
      var queue := if kind.DataChange? then datachanges else events;
      if mid !in queue {
        queue := queue[mid := [v]];
      } else {
        if maxSize != 0 {
          if |queue[mid]| >= maxSize {
            queue := queue[mid := queue[mid][1..]];
          }
        }
        queue := queue[mid := queue[mid] + [v]];
      }
      if kind.DataChange? {
        datachanges := queue;
      } else {
        events := queue;
      }
    }

    method EnqueueStatusChange(code: nat)
      modifies this`statuses
      ensures statuses == old(statuses) + [code]
    {
      statuses := statuses + [code];
    }
  }

  // ----- Runs -----

  datatype Action<+V> =
    | Clock                                               // the loop timer fires
    | Queue(kind: Kind, mid: nat, value: V, size: nat)
    | StatusChange(code: nat)
    | PublishRequest(acks: seq<nat>)
    | Stop

  /** The loop timer calls publish_results only while the subscription is not stopped. */
  function Apply<V>(s: State<V>, a: Action<V>): (State<V>, Option<PublishResult<V>>) {
    match a
    case Clock => if s.stopped then (s, None) else Tick(s)
    case Queue(kind, mid, v, size) =>
      (if kind.DataChange? then s.(datachanges := Enqueue(s.datachanges, mid, v, size))
       else s.(events := Enqueue(s.events, mid, v, size)), None)
    case StatusChange(code) => (s.(statuses := s.statuses + [code]), None)
    case PublishRequest(acks) => (Acknowledge(s, acks), None)
    case Stop => (s.(stopped := true), None)
  }

  function Run<V>(s: State<V>, actions: seq<Action<V>>): (r: (State<V>, seq<Option<PublishResult<V>>>))
    ensures |r.1| == |actions|
  {
    if actions == [] then (s, [])
    else
      var n := |actions| - 1;
      var (before, outs) := Run(s, actions[..n]);
      var (after, out) := Apply(before, actions[n]);
      (after, outs + [out])
  }

  function Clocks<V>(actions: seq<Action<V>>): nat {
    if actions == [] then 0
    else Clocks(actions[..|actions| - 1]) + if actions[|actions| - 1].Clock? then 1 else 0
  }

  function Handed<V>(outs: seq<Option<PublishResult<V>>>): nat {
    if outs == [] then 0
    else Handed(outs[..|outs| - 1]) + if outs[|outs| - 1].Some? then 1 else 0
  }

  // ----- Bounded expiry -----

  /** Timer calls that can still happen before the subscription stops, without a publish request. */
  function Remaining<V>(s: State<V>): int {
    if s.stopped then 0
    else if s.publishCyclesCount > s.lifetimeCount then 1
    else (s.lifetimeCount - s.publishCyclesCount) * (s.maxKeepAliveCount + 2) + UntilResult(s) + 1
  }

  /** Timer calls until the next result if nothing is queued. */
  function UntilResult<V>(s: State<V>): int {
    if s.startup then 1 else s.maxKeepAliveCount + 2 - s.keepAliveCount
  }

  /** Results that can still be handed to the callback. */
  function Budget<V>(s: State<V>): int {
    if s.stopped then 0
    else if s.publishCyclesCount > s.lifetimeCount then 1
    else s.lifetimeCount - s.publishCyclesCount + 2
  }

  lemma StepProgress<V>(s: State<V>, a: Action<V>)
    requires s.Valid() && !a.PublishRequest?
    ensures var (after, out) := Apply(s, a);
            && after.Valid()
            && Budget(after) + (if out.Some? then 1 else 0) <= Budget(s)
            && (after.stopped || Remaining(after) + (if a.Clock? then 1 else 0) <= Remaining(s))
            && (out.None? && !after.stopped ==> after.keepAliveCount == s.keepAliveCount + if a.Clock? then 1 else 0)
  {
    hide Enqueue, Tick, Budget, Remaining;
    if a.Clock? && !s.stopped {
      TickCounters(s);
      var (after, out) := Tick(s);
      CycleProgress(s, after, out.Some?);
    } else {
      var (after, _) := Apply(s, a);
      SameCounters(s, after);
    }
  }

  /** What one timer call does to the counters. */
  predicate CountersMove<V>(s: State<V>, after: State<V>, result: bool) {
    && after.lifetimeCount == s.lifetimeCount && after.maxKeepAliveCount == s.maxKeepAliveCount
    && after.stopped == (s.stopped || s.publishCyclesCount > s.lifetimeCount)
    && (if result then after.publishCyclesCount == s.publishCyclesCount + 1 && after.keepAliveCount == 0
        && !after.startup
        else && after.publishCyclesCount == s.publishCyclesCount && !s.startup && !after.startup
             && s.keepAliveCount <= s.maxKeepAliveCount && after.keepAliveCount == s.keepAliveCount + 1)
  }

  lemma TickCounters<V>(s: State<V>)
    ensures CountersMove(s, Tick(s).0, Tick(s).1.Some?)
  {
    hide Pop;
    PopClears(s);
  }

  lemma CycleProgress<V>(s: State<V>, after: State<V>, result: bool)
    requires s.Valid() && !s.stopped && CountersMove(s, after, result)
    ensures after.Valid() && Budget(after) + (if result then 1 else 0) <= Budget(s)
    ensures after.stopped || Remaining(after) + 1 <= Remaining(s)
  {
    OneCycleLess(s.lifetimeCount - s.publishCyclesCount, s.lifetimeCount - after.publishCyclesCount,
                 s.maxKeepAliveCount + 2);
  }

  lemma OneCycleLess(left: int, next: int, step: nat)
    ensures next == left - 1 ==> next * step + step == left * step
  {
  }

  lemma SameCounters<V>(s: State<V>, after: State<V>)
    requires after.lifetimeCount == s.lifetimeCount && after.maxKeepAliveCount == s.maxKeepAliveCount
    requires after.publishCyclesCount == s.publishCyclesCount && after.keepAliveCount == s.keepAliveCount
    requires after.startup == s.startup && s.Valid() && (s.stopped ==> after.stopped)
    ensures after.Valid() && Budget(after) <= Budget(s) && (after.stopped || Remaining(after) <= Remaining(s))
  {
  }

  /** The counters after a result, whatever else the state holds. */
  lemma PopClears<V>(s: State<V>)
    ensures forall t: State<V> {:trigger Pop(t)} ::
              var (after, _) := Pop(t);
              after.keepAliveCount == 0 && !after.startup && after.publishCyclesCount == t.publishCyclesCount
              && after.lifetimeCount == t.lifetimeCount && after.maxKeepAliveCount == t.maxKeepAliveCount
                 && after.stopped == t.stopped
  {
  }

  lemma {:induction false} RunProgress<V>(s: State<V>, actions: seq<Action<V>>)
    requires s.Valid() && forall a | a in actions :: !a.PublishRequest?
    ensures var (after, outs) := Run(s, actions);
            && after.Valid()
            && Budget(after) + Handed(outs) <= Budget(s)
            && (after.stopped || Remaining(after) + Clocks(actions) <= Remaining(s))
  {
    if actions != [] {
      var n := |actions| - 1;
      RunProgress(s, actions[..n]);
      var (before, outs) := Run(s, actions[..n]);
      var (_, out) := Apply(before, actions[n]);
      assert (outs + [out])[..n] == outs;
      hide Remaining, Budget;
      StepProgress(before, actions[n]);
      StoppedStays(before, actions[n]);
    }
  }

  lemma StoppedStays<V>(s: State<V>, a: Action<V>)
    ensures s.stopped ==> Apply(s, a).0.stopped
  {
  }

  /** Without publish requests a subscription stops in time, whatever is queued meanwhile. */
  lemma BoundedExpiry<V>(lifetime: nat, keepAlive: nat, actions: seq<Action<V>>)
    requires forall a | a in actions :: !a.PublishRequest?
    ensures var (after, outs) := Run(Fresh(lifetime, keepAlive), actions);
            && (Clocks(actions) >= lifetime * (keepAlive + 2) + 2 ==> after.stopped)
            && Handed(outs) <= lifetime + 2
  {
    var s := Fresh<V>(lifetime, keepAlive);
    RunProgress(s, actions);
    var (after, _) := Run(s, actions);
    if !after.stopped {
      RemainingPositive(after);
    }
    assert Budget(after) >= 0;
  }

  lemma RemainingPositive<V>(s: State<V>)
    requires s.Valid() && !s.stopped
    ensures Remaining(s) >= 1
  {
  }

  /** The bound is met: with nothing queued the subscription is still running one timer call earlier. */
  lemma ExpiryIsTight<V>(lifetime: nat, keepAlive: nat)
    ensures !Run(Fresh<V>(lifetime, keepAlive), seq(lifetime * (keepAlive + 2) + 1, i => Action<V>.Clock)).0.stopped
  {
    IdleCountdown(Fresh<V>(lifetime, keepAlive), lifetime * (keepAlive + 2) + 1);
  }

  predicate Idle<V>(s: State<V>) {
    !s.stopped && s.datachanges.Keys == {} && s.events.Keys == {}
  }

  lemma {:induction false} IdleCountdown<V>(s: State<V>, n: nat)
    requires s.Valid() && Idle(s) && n < Remaining(s)
    ensures var (after, _) := Run(s, seq(n, i => Clock));
            after.Valid() && Idle(after) && Remaining(after) == Remaining(s) - n
            && after.lifetimeCount == s.lifetimeCount && after.maxKeepAliveCount == s.maxKeepAliveCount
  {
    if n > 0 {
      var actions := seq(n, i => Action<V>.Clock);
      assert actions[..n - 1] == seq(n - 1, i => Action<V>.Clock);
      IdleCountdown(s, n - 1);
      var (before, _) := Run(s, actions[..n - 1]);
      IdleStep(before);
    }
  }

  lemma IdleStep<V>(s: State<V>)
    requires s.Valid() && Idle(s) && Remaining(s) > 1
    ensures var (after, _) := Tick(s);
            after.Valid() && Idle(after) && Remaining(after) == Remaining(s) - 1
            && after.lifetimeCount == s.lifetimeCount && after.maxKeepAliveCount == s.maxKeepAliveCount
  {
    var left, step := s.lifetimeCount - s.publishCyclesCount, s.maxKeepAliveCount + 2;
    if left >= 1 {
      assert left * step == (left - 1) * step + step;
    }
  }

  /** While it runs, at most maxKeepAliveCount + 1 timer calls in a row give nothing. */
  lemma {:induction false} SilentTicks<V>(s: State<V>, actions: seq<Action<V>>)
    requires s.Valid() && !Run(s, actions).0.stopped && forall out | out in Run(s, actions).1 :: out.None?
    ensures Run(s, actions).0.Valid()
    ensures Run(s, actions).0.keepAliveCount == s.keepAliveCount + Clocks(actions)
    ensures Clocks(actions) <= s.maxKeepAliveCount + 1 - s.keepAliveCount
  {
    if actions != [] {
      var n := |actions| - 1;
      var (before, outs) := Run(s, actions[..n]);
      var (after, out) := Apply(before, actions[n]);
      assert Run(s, actions) == (after, outs + [out]);
      assert forall o | o in outs :: o in outs + [out];
      assert out in outs + [out];
      hide Apply, Run;
      StoppedStays(before, actions[n]);
      SilentTicks(s, actions[..n]);
      SilentStep(before, actions[n]);
      ParametersKept(s, actions);
    }
  }

  lemma SilentStep<V>(s: State<V>, a: Action<V>)
    requires s.Valid() && !Apply(s, a).0.stopped && Apply(s, a).1.None?
    ensures Apply(s, a).0.Valid() && Apply(s, a).0.keepAliveCount == s.keepAliveCount + if a.Clock? then 1 else 0
    ensures Apply(s, a).0.maxKeepAliveCount == s.maxKeepAliveCount
  {
    hide Enqueue, Tick;
    TickCounters(s);
  }

  lemma ApplyKeepsParameters<V>(s: State<V>, a: Action<V>)
    ensures Apply(s, a).0.lifetimeCount == s.lifetimeCount && Apply(s, a).0.maxKeepAliveCount == s.maxKeepAliveCount
  {
  }

  lemma {:induction false} ParametersKept<V>(s: State<V>, actions: seq<Action<V>>)
    ensures Run(s, actions).0.lifetimeCount == s.lifetimeCount
            && Run(s, actions).0.maxKeepAliveCount == s.maxKeepAliveCount
  {
    hide Apply;
    if actions != [] {
      var n := |actions| - 1;
      ParametersKept(s, actions[..n]);
      ApplyKeepsParameters(Run(s, actions[..n]).0, actions[n]);
    }
  }

  // ----- Expiry happens for no other reason -----

  /** Results handed out since the last publish request. */
  function HandedSince<V>(actions: seq<Action<V>>, outs: seq<Option<PublishResult<V>>>): nat
    requires |actions| == |outs|
  {
    if actions == [] then 0
    else
      var n := |actions| - 1;
      if actions[n].PublishRequest? then 0
      else HandedSince(actions[..n], outs[..n]) + if outs[n].Some? then 1 else 0
  }

  /** The timer call that expires the subscription: too many results since the last request. */
  predicate Expires<V>(lifetime: nat, actions: seq<Action<V>>, outs: seq<Option<PublishResult<V>>>, i: nat)
    requires |actions| == |outs| && i < |actions|
  {
    actions[i].Clock? && HandedSince(actions[..i], outs[..i]) > lifetime
  }

  /** On every run: stopped exactly when it was told to stop or a timer call expired it. */
  lemma {:induction false} ExpiresExactly<V>(lifetime: nat, keepAlive: nat, actions: seq<Action<V>>)
    ensures var (after, outs) := Run(Fresh(lifetime, keepAlive), actions);
            && after.publishCyclesCount == HandedSince(actions, outs)
            && (after.stopped <==>
                exists i :: 0 <= i < |actions| && (actions[i].Stop? || Expires(lifetime, actions, outs, i)))
  {
    if actions != [] {
      var s := Fresh<V>(lifetime, keepAlive);
      var n := |actions| - 1;
      ExpiresExactly(lifetime, keepAlive, actions[..n]);
      ParametersKept(s, actions[..n]);
      var (before, outs) := Run(s, actions[..n]);
      var (after, all) := Run(s, actions);
      assert all[..n] == outs;
      StepExpires(before, actions[n]);
      assert after.stopped <==> before.stopped || actions[n].Stop? || Expires(lifetime, actions, all, n);
      forall i | 0 <= i < n
        ensures Expires(lifetime, actions, all, i) <==> Expires(lifetime, actions[..n], outs, i)
      {
        assert actions[..n][..i] == actions[..i] && all[..i] == outs[..i];
      }
    }
  }

  lemma StepExpires<V>(s: State<V>, a: Action<V>)
    ensures var (after, out) := Apply(s, a);
            && (after.stopped <==> s.stopped || a.Stop? || (a.Clock? && s.publishCyclesCount > s.lifetimeCount))
            && after.publishCyclesCount ==
               (if a.PublishRequest? then 0 else s.publishCyclesCount + if out.Some? then 1 else 0)
  {
  }

  // ----- Retransmission -----

  predicate Sent<V>(outs: seq<Option<PublishResult<V>>>, i: nat, n: nat)
    requires i < |outs|
  {
    outs[i].Some? && outs[i].value.message.HasData() && outs[i].value.message.sequenceNumber == n
  }

  predicate UnacknowledgedSince<V>(actions: seq<Action<V>>, i: nat, n: nat) {
    forall j | i < j < |actions| && actions[j].PublishRequest? :: n !in actions[j].acks
  }

  /** Message number n was sent at step i and has not been acknowledged since. */
  predicate Outstanding<V>(actions: seq<Action<V>>, outs: seq<Option<PublishResult<V>>>, i: nat, n: nat)
    requires |outs| == |actions|
  {
    i < |actions| && Sent(outs, i, n) && UnacknowledgedSince(actions, i, n)
  }

  function DataMessages<V>(outs: seq<Option<PublishResult<V>>>): nat {
    if outs == [] then 0
    else
      var last := outs[|outs| - 1];
      DataMessages(outs[..|outs| - 1]) + if last.Some? && last.value.message.HasData() then 1 else 0
  }

  /** The store holds exactly the outstanding messages, each as it was sent. */
  ghost predicate StoreMatches<V>(s: State<V>, actions: seq<Action<V>>, outs: seq<Option<PublishResult<V>>>)
    requires |outs| == |actions|
  {
    && (forall n: nat :: n in s.notAcknowledged <==> exists i: nat :: Outstanding(actions, outs, i, n))
    && (forall i: nat, n: nat | Outstanding(actions, outs, i, n) ::
        n in s.notAcknowledged && s.notAcknowledged[n] == outs[i].value)
  }

  /** Every result carries the number that follows the data messages sent before it. */
  lemma {:induction false} GaplessNumbers<V>(lifetime: nat, keepAlive: nat, actions: seq<Action<V>>)
    ensures var (after, outs) := Run(Fresh(lifetime, keepAlive), actions);
            && after.notificationSeq == 1 + DataMessages(outs)
            && (forall i | 0 <= i < |outs| && outs[i].Some? ::
                outs[i].value.message.sequenceNumber == 1 + DataMessages(outs[..i]))
            && (forall n | n in after.notAcknowledged :: n < after.notificationSeq)
  {
    if actions != [] {
      var n := |actions| - 1;
      GaplessNumbers(lifetime, keepAlive, actions[..n]);
      var (before, outs) := Run(Fresh(lifetime, keepAlive), actions[..n]);
      var (after, all) := Run(Fresh(lifetime, keepAlive), actions);
      assert all == outs + [Apply(before, actions[n]).1] && after == Apply(before, actions[n]).0;
      assert all[..n] == outs;
      assert DataMessages(all) == DataMessages(outs) + if all[n].Some? && all[n].value.message.HasData() then 1 else 0;
      hide Apply, Run, DataMessages, Message.HasData;
      StoreStep(before, actions[n]);
      forall i | 0 <= i < n && all[i].Some?
        ensures all[i].value.message.sequenceNumber == 1 + DataMessages(all[..i])
      {
        assert all[i] == outs[i] && all[..i] == outs[..i];
      }
    }
  }

  lemma {:induction false} RetransmissionStore<V>(lifetime: nat, keepAlive: nat, actions: seq<Action<V>>)
    ensures var (after, outs) := Run(Fresh(lifetime, keepAlive), actions);
            StoreMatches(after, actions, outs)
  {
    if actions != [] {
      var n := |actions| - 1;
      RetransmissionStore(lifetime, keepAlive, actions[..n]);
      GaplessNumbers(lifetime, keepAlive, actions[..n]);
      var (before, outs) := Run(Fresh(lifetime, keepAlive), actions[..n]);
      var (after, all) := Run(Fresh(lifetime, keepAlive), actions);
      assert all[..n] == outs;
      StoreStep(before, actions[n]);
      hide Apply, Run;
      StoreMatchesStep(before, after, actions, all);
    }
  }

  /** One more step keeps the store in agreement, since the number it may add is new. */
  lemma StoreMatchesStep<V>(s: State<V>, after: State<V>, actions: seq<Action<V>>, outs: seq<Option<PublishResult<V>>>)
    requires |outs| == |actions| > 0
    requires var n := |actions| - 1;
             var stores := outs[n].Some? && outs[n].value.message.HasData();
             && StoreMatches(s, actions[..n], outs[..n])
             && s.notificationSeq !in s.notAcknowledged
             && (stores ==> outs[n].value.message.sequenceNumber == s.notificationSeq && !actions[n].PublishRequest?)
             && after.notAcknowledged == (if stores then s.notAcknowledged[s.notificationSeq := outs[n].value]
                                          else if actions[n].PublishRequest?
                                                  then s.notAcknowledged - set k | k in actions[n].acks
                                          else s.notAcknowledged)
    ensures StoreMatches(after, actions, outs)
  {
    var n := |actions| - 1;
    var previous, earlier := actions[..n], outs[..n];
    forall i: nat, k: nat | i < n
      ensures Outstanding(actions, outs, i, k) <==>
              Outstanding(previous, earlier, i, k) && !(actions[n].PublishRequest? && k in actions[n].acks)
    {
      OutstandingStep(actions, outs, i, k);
    }
    hide UnacknowledgedSince;
    forall k: nat
      ensures Outstanding(actions, outs, n, k) <==> Sent(outs, n, k)
    {
      LastIsUnacknowledged(actions, outs, k);
    }
    forall k: nat
      ensures k in after.notAcknowledged <==> exists i: nat :: Outstanding(actions, outs, i, k)
    {
      if k in after.notAcknowledged {
        if Sent(outs, n, k) {
          assert Outstanding(actions, outs, n, k);
        } else {
          var i: nat :| Outstanding(previous, earlier, i, k);
          assert Outstanding(actions, outs, i, k);
        }
      }
      if i: nat :| Outstanding(actions, outs, i, k) {
        assert i < n ==> Outstanding(previous, earlier, i, k);
      }
    }
  }

  lemma LastIsUnacknowledged<V>(actions: seq<Action<V>>, outs: seq<Option<PublishResult<V>>>, k: nat)
    requires |outs| == |actions| > 0
    ensures Outstanding(actions, outs, |actions| - 1, k) <==> Sent(outs, |actions| - 1, k)
  {
  }

  lemma OutstandingStep<V>(actions: seq<Action<V>>, outs: seq<Option<PublishResult<V>>>, i: nat, n: nat)
    requires |outs| == |actions| && i < |actions| - 1
    ensures var m := |actions| - 1;
            Outstanding(actions, outs, i, n) <==>
              Outstanding(actions[..m], outs[..m], i, n) && !(actions[m].PublishRequest? && n in actions[m].acks)
  {
  }

  /** What one step does to the store. */
  lemma StoreStep<V>(s: State<V>, a: Action<V>)
    ensures var (after, out) := Apply(s, a);
            var stores := out.Some? && out.value.message.HasData();
            && (out.Some? ==> out.value.message.sequenceNumber == s.notificationSeq && a.Clock?)
            && after.notificationSeq == s.notificationSeq + (if stores then 1 else 0)
            && after.notAcknowledged == (if stores then s.notAcknowledged[s.notificationSeq := out.value]
                                         else if a.PublishRequest? then s.notAcknowledged - set n | n in a.acks
                                         else s.notAcknowledged)
  {
  }

  /** So a stored message is sent again as it was sent first. */
  lemma RepublishReturnsSent<V>(lifetime: nat, keepAlive: nat, actions: seq<Action<V>>, i: nat, n: nat)
    requires Outstanding(actions, Run(Fresh(lifetime, keepAlive), actions).1, i, n)
    ensures var (after, outs) := Run(Fresh(lifetime, keepAlive), actions);
            Republish(after, n) == outs[i].value.message
  {
    RetransmissionStore(lifetime, keepAlive, actions);
  }

  // ----- Conservation of notifications -----

  function LastN<V>(values: seq<V>, n: nat): seq<V> {
    if n == 0 || |values| <= n then values else values[|values| - n..]
  }

  /** What was queued for an item since the last result was handed out. */
  function QueuedSince<V>(actions: seq<Action<V>>, outs: seq<Option<PublishResult<V>>>, kind: Kind, mid: nat): seq<V>
    requires |actions| == |outs|
  {
    if actions == [] then []
    else
      var n := |actions| - 1;
      if outs[n].Some? then []
      else QueuedSince(actions[..n], outs[..n], kind, mid) + Added(actions[n], kind, mid)
  }

  function Added<V>(a: Action<V>, kind: Kind, mid: nat): seq<V> {
    if a.Queue? && a.kind == kind && a.mid == mid then [a.value] else []
  }

  ghost predicate FixedSize<V>(actions: seq<Action<V>>, kind: Kind, mid: nat, size: nat) {
    forall a | a in actions && a.Queue? && a.kind == kind && a.mid == mid :: a.size == size
  }

  /** Each result carries the last `size` values queued since the result before, and the rest is pending. */
  lemma {:induction false} NotificationConservation<V>(s: State<V>, actions: seq<Action<V>>, kind: Kind, mid: nat,
                                                       size: nat)
    requires s.datachanges == map[] && s.events == map[] && FixedSize(actions, kind, mid, size)
    ensures var (after, outs) := Run(s, actions);
            && after.Pending(kind, mid) == LastN(QueuedSince(actions, outs, kind, mid), size)
            && (mid in (if kind.DataChange? then after.datachanges else after.events) <==>
                after.Pending(kind, mid) != [])
            && forall i | 0 <= i < |outs| && outs[i].Some? ::
                 outs[i].value.message.Batch(kind, mid) == LastN(QueuedSince(actions[..i], outs[..i], kind, mid), size)
  {
    if actions != [] {
      var n := |actions| - 1;
      NotificationConservation(s, actions[..n], kind, mid, size);
      var (before, outs) := Run(s, actions[..n]);
      var (after, all) := Run(s, actions);
      assert all[..n] == outs && all == outs + [Apply(before, actions[n]).1] && after == Apply(before, actions[n]).0;
      assert actions[n] in actions;
      assert QueuedSince(actions, all, kind, mid) ==
             if all[n].Some? then [] else QueuedSince(actions[..n], outs, kind, mid) + Added(actions[n], kind, mid);
      hide Apply, Run, LastN, QueuedSince, State.Pending, Message.Batch;
      QueueStep(before, actions[n], kind, mid, size, QueuedSince(actions[..n], outs, kind, mid));
      NothingLeft<V>(size);
      forall i | 0 <= i < n && all[i].Some?
        ensures all[i].value.message.Batch(kind, mid) == LastN(QueuedSince(actions[..i], all[..i], kind, mid), size)
      {
        assert all[i] == outs[i] && all[..i] == outs[..i] && actions[..n][..i] == actions[..i];
      }
    }
  }

  lemma NothingLeft<V>(size: nat)
    ensures LastN<V>([], size) == []
  {
  }

  lemma QueueStep<V>(s: State<V>, a: Action<V>, kind: Kind, mid: nat, size: nat, queued: seq<V>)
    requires s.Pending(kind, mid) == LastN(queued, size)
    requires mid in (if kind.DataChange? then s.datachanges else s.events) <==> s.Pending(kind, mid) != []
    requires a.Queue? && a.kind == kind && a.mid == mid ==> a.size == size
    ensures var (after, out) := Apply(s, a);
            && (out.Some? ==>
                  && out.value.message.Batch(kind, mid) == LastN(queued, size)
                  && after.Pending(kind, mid) == [] && a.Clock?)
            && (out.None? ==> after.Pending(kind, mid) == LastN(queued + Added(a, kind, mid), size))
            && (mid in (if kind.DataChange? then after.datachanges else after.events) <==>
                after.Pending(kind, mid) != [])
  {
    assert queued + [] == queued;
    if a.Queue? {
      hide LastN, Enqueue;
      EnqueueElsewhere(if a.kind.DataChange? then s.datachanges else s.events, a.mid, a.value, a.size, mid);
      if a.kind == kind && a.mid == mid {
        EnqueueKeepsLast(if kind.DataChange? then s.datachanges else s.events, mid, a.value, size, queued);
      }
    } else {
      hide LastN;
    }
  }

  lemma EnqueueKeepsLast<V>(queues: Queues<V>, mid: nat, v: V, size: nat, queued: seq<V>)
    requires if mid in queues then queues[mid] == LastN(queued, size) != [] else LastN(queued, size) == []
    ensures mid in Enqueue(queues, mid, v, size)
            && Enqueue(queues, mid, v, size)[mid] == LastN(queued + [v], size) != []
  {
    var all := queued + [v];
    if mid !in queues {
      assert queued == [];
    } else if size != 0 && |queued| >= size {
      assert LastN(queued, size) == queued[|queued| - size..];
      assert LastN(all, size) == all[|all| - size..] == queued[|queued| - size..][1..] + [v];
    }
  }

  lemma EnqueueElsewhere<V>(queues: Queues<V>, mid: nat, v: V, size: nat, other: nat)
    ensures other != mid ==> (other in Enqueue(queues, mid, v, size) <==> other in queues)
    ensures other != mid && other in queues ==> Enqueue(queues, mid, v, size)[other] == queues[other]
  {
  }

  function AllQueued<V>(actions: seq<Action<V>>, kind: Kind, mid: nat): seq<V> {
    if actions == [] then []
    else AllQueued(actions[..|actions| - 1], kind, mid) + Added(actions[|actions| - 1], kind, mid)
  }

  function AllHanded<V>(outs: seq<Option<PublishResult<V>>>, kind: Kind, mid: nat): seq<V> {
    if outs == [] then []
    else
      var last := outs[|outs| - 1];
      AllHanded(outs[..|outs| - 1], kind, mid) + if last.Some? then last.value.message.Batch(kind, mid) else []
  }

  /** Without a size limit nothing is ever lost, repeated or reordered. */
  lemma {:induction false} UnlimitedQueueLosesNothing<V>(s: State<V>, actions: seq<Action<V>>, kind: Kind, mid: nat)
    requires s.datachanges == map[] && s.events == map[] && FixedSize(actions, kind, mid, 0)
    ensures var (after, outs) := Run(s, actions);
            AllHanded(outs, kind, mid) + after.Pending(kind, mid) == AllQueued(actions, kind, mid)
  {
    if actions != [] {
      var n := |actions| - 1;
      UnlimitedQueueLosesNothing(s, actions[..n], kind, mid);
      NotificationConservation(s, actions[..n], kind, mid, 0);
      var (before, outs) := Run(s, actions[..n]);
      var (after, all) := Run(s, actions);
      assert all[..n] == outs && actions[n] in actions;
      assert Apply(before, actions[n]) == (after, all[n]);
      var queued := QueuedSince(actions[..n], outs, kind, mid);
      QueueStep(before, actions[n], kind, mid, 0, queued);
      hide Apply, Run, QueuedSince, State.Pending, Message.Batch;
      var handed, added := AllHanded(outs, kind, mid), Added(actions[n], kind, mid);
      AllHandedStep(all, kind, mid);
      AllQueuedStep(actions, kind, mid);
      hide AllHanded, AllQueued, Added, LastN;
      assert LastN(queued, 0) == queued by { NoLimit(queued); }
      NoLimit(queued + added);
      Conserved(handed, queued, added, all[n].Some?, AllHanded(all, kind, mid), after.Pending(kind, mid),
                AllQueued(actions[..n], kind, mid), AllQueued(actions, kind, mid));
    }
  }

  lemma NoLimit<V>(values: seq<V>)
    ensures LastN(values, 0) == values
  {
  }

  lemma Conserved<V>(handed: seq<V>, queued: seq<V>, added: seq<V>, some: bool, handed': seq<V>, pending': seq<V>,
                     total: seq<V>, total': seq<V>)
    requires handed + queued == total && total' == total + added
    requires if some then handed' == handed + queued && pending' == [] && added == []
             else handed' == handed + [] && pending' == queued + added
    ensures handed' + pending' == total'
  {
  }

  lemma AllHandedStep<V>(outs: seq<Option<PublishResult<V>>>, kind: Kind, mid: nat)
    requires outs != []
    ensures var n := |outs| - 1;
            AllHanded(outs, kind, mid) ==
              AllHanded(outs[..n], kind, mid) + if outs[n].Some? then outs[n].value.message.Batch(kind, mid) else []
  {
  }

  lemma AllQueuedStep<V>(actions: seq<Action<V>>, kind: Kind, mid: nat)
    requires actions != []
    ensures var n := |actions| - 1;
            AllQueued(actions, kind, mid) == AllQueued(actions[..n], kind, mid) + Added(actions[n], kind, mid)
    ensures actions[|actions| - 1].Clock? ==>
            AllQueued(actions, kind, mid) == AllQueued(actions[..|actions| - 1], kind, mid)
  {
  }
}
