/** What has been queued for an item is in the result of the next timer call; nothing is held back. */
module Promptness {
  import opened NodeIds
  import opened MonitoredItems
  import opened Engine
  import opened Notifications
  import R = MonitoredRuns
  import S = Subscription

  /** A running subscription with something queued for an item publishes at its timer call. */
  lemma TimerPublishes(e: Engine, sub: nat, mid: nat, ear: Ear, t: Template, queued: seq<Content>)
    requires Holds(e, sub, mid, ear, t, queued) && queued != [] && !e.subs[sub].stopped
    ensures Publishes(Step(e, Timer(sub)).1, sub)
  {
    hide Sound, Listens, ItemIs;
    var s := e.subs[sub];
    assert s.Pending(ear.Kind(), mid) != [];
    assert mid in (if ear.Attribute? then s.datachanges else s.events);
  }

  lemma OnlyTimersPublish(e: Engine, c: Call, sub: nat)
    requires c != Timer(sub)
    ensures !Publishes(Step(e, c).1, sub)
  {
    hide R.Step, QueuesAfter, S.Apply;
  }

  /** Until the next timer call what should be sent only grows. */
  lemma {:induction false} SinceGrows(e: Engine, calls: seq<Call>, i: nat, sub: nat, t: Template, ear: Ear,
                                      first: seq<Content>)
    returns (later: seq<Content>)
    requires i <= |calls| && forall k | i <= k < |calls| :: calls[k] != Timer(sub)
    ensures Since(e, calls, sub, t, ear, first) == Since(e, calls[..i], sub, t, ear, first) + later
    decreases |calls|
  {
    hide Run, Step, Passed, Publishes;
    if i == |calls| {
      assert calls[..i] == calls;
      later := [];
    } else {
      var n := |calls| - 1;
      var before := Run(e, calls[..n]).0;
      OnlyTimersPublish(before, calls[n], sub);
      var more := SinceGrows(e, calls[..n], i, sub, t, ear, first);
      assert calls[..n][..i] == calls[..i];
      later := more + Passed(before, calls[n], t, ear);
    }
  }

  /** What a call queues for the item, and what is queued behind it, is what should be sent at the next timer call. */
  lemma SinceHasPassed(e: Engine, calls: seq<Call>, i: nat, sub: nat, t: Template, ear: Ear, first: seq<Content>)
    returns (older: seq<Content>, later: seq<Content>)
    requires i < |calls| && forall k | i <= k < |calls| :: calls[k] != Timer(sub)
    ensures Since(e, calls, sub, t, ear, first) == older + Passed(Run(e, calls[..i]).0, calls[i], t, ear) + later
  {
    later := SinceGrows(e, calls, i + 1, sub, t, ear, first);
    hide Run, Step, Passed, Publishes;
    older := Since(e, calls[..i], sub, t, ear, first);
    assert calls[..i + 1][..i] == calls[..i];
    OnlyTimersPublish(Run(e, calls[..i]).0, calls[i], sub);
  }

  /** A result of the subscription with the last of these for the item. */
  predicate Brings(out: Out, sub: nat, mid: nat, ear: Ear, t: Template, queued: seq<Content>) {
    Publishes(out, sub) && out.value.1.message.Batch(ear.Kind(), mid) == S.LastN(queued, t.queueSize)
  }

  /** Running at this step of the run. */
  predicate Runs(e: Engine, calls: seq<Call>, sub: nat) {
    var after := Run(e, calls).0;
    sub in after.subs && !after.subs[sub].stopped
  }

  /**
   On every run that does not delete the item: what a call should send to it is in the result of the next timer
   call of its subscription, if that is running then, up to what the size of the queue drops.
   */
  lemma CauseIsInNextResult(e: Engine, calls: seq<Call>, i: nat, j: nat, sub: nat, mid: nat, ear: Ear, t: Template,
                            first: seq<Content>)
    returns (older: seq<Content>, later: seq<Content>)
    requires Holds(e, sub, mid, ear, t, first) && forall c | c in calls :: Spares(c, sub, mid)
    requires i < j < |calls| && calls[j] == Timer(sub) && forall k | i <= k < j :: calls[k] != Timer(sub)
    requires Runs(e, calls[..j], sub) && Passed(Run(e, calls[..i]).0, calls[i], t, ear) != []
    ensures Brings(Run(e, calls).1[j], sub, mid, ear, t, older + Passed(Run(e, calls[..i]).0, calls[i], t, ear) + later)
  {
    hide Holds, Spares, Carries, Passed, Step, Since;
    assert calls[..j][..i] == calls[..i];
    older, later := SinceHasPassed(e, calls[..j], i, sub, t, ear, first);
    var queued := Since(e, calls[..j], sub, t, ear, first);
    assert queued != [];
    forall c | c in calls[..j] ensures Spares(c, sub, mid) {
      assert c in calls;
    }
    CausesReachResults(e, calls[..j], sub, mid, ear, t, first);
    CausesReachResults(e, calls, sub, mid, ear, t, first);
    RunAt(e, calls, j);
    hide Run;
    TimerBrings(Run(e, calls[..j]).0, sub, mid, ear, t, queued);
  }

  lemma TimerBrings(e: Engine, sub: nat, mid: nat, ear: Ear, t: Template, queued: seq<Content>)
    requires Holds(e, sub, mid, ear, t, queued) && queued != [] && sub in e.subs && !e.subs[sub].stopped
    ensures Brings(Step(e, Timer(sub)).1, sub, mid, ear, t, queued)
  {
    hide Holds, Step;
    TimerPublishes(e, sub, mid, ear, t, queued) by { assert Holds(e, sub, mid, ear, t, queued); }
    TimerHolds(e, sub, sub, mid, ear, t, queued);
  }

  lemma {:induction false} RunAt(e: Engine, calls: seq<Call>, j: nat)
    requires j < |calls|
    ensures Run(e, calls).1[j] == Step(Run(e, calls[..j]).0, calls[j]).1
    decreases |calls|
  {
    hide Step;
    var n := |calls| - 1;
    if j < n {
      RunAt(e, calls[..n], j);
      assert calls[..n][..j] == calls[..j];
    }
  }

  /**
   From a new server: a write that changes the attribute and passes the filter of a data-change item is in the
   result of the next timer call of the item's running subscription.
   */
  lemma WriteIsInNextResult(start: Engine, before: seq<Call>, sub: nat, key: Key, template: Template, calls: seq<Call>,
                            i: nat, v: Value, j: nat)
    returns (older: seq<Content>, later: seq<Content>)
    requires Initial(start)
    requires var e := Run(start, before).0;
             && sub in e.subs && e.sys.space.StatusOf(key) == Good
             && sub in e.sys.services && forall c | c in calls :: Spares(c, sub, e.sys.services[sub].counter + 1)
    requires i < j < |calls| && calls[i] == Request(R.Write(key, v)) && calls[j] == Timer(sub)
    requires forall k | i <= k < j :: calls[k] != Timer(sub)
    requires var created := Step(Run(start, before).0, Request(R.CreateDataItem(sub, key, template))).0;
             && Runs(created, calls[..j], sub)
             && var space := Run(created, calls[..i]).0.sys.space;
             && key in space.attributes && space.attributes[key].value != v
             && PassesFilter(v, space.attributes[key].value, template.filter)
    ensures var e := Run(start, before).0;
            var created := Step(e, Request(R.CreateDataItem(sub, key, template))).0;
            Brings(Run(created, calls).1[j], sub, e.sys.services[sub].counter + 1,
                   Ear.Attribute(e.sys.space.callbackCounter + 1, key), template,
                   older + [Change(template.clientHandle, v)] + later)
  {
    hide Run, Step, Sound, Holds, Spares, PassesFilter, Brings, Runs;
    RunsFromStartAreSound(start, before);
    var e := Run(start, before).0;
    NewDataItemHolds(e, sub, key, template);
    var created := Step(e, Request(R.CreateDataItem(sub, key, template))).0;
    var ear := Ear.Attribute(e.sys.space.callbackCounter + 1, key);
    assert Passed(Run(created, calls[..i]).0, calls[i], template, ear) == [Change(template.clientHandle, v)];
    older, later := CauseIsInNextResult(created, calls, i, j, sub, e.sys.services[sub].counter + 1, ear, template,
                                        [Change(template.clientHandle, e.sys.space.attributes[key].value)]);
  }

  /** The same for an event triggered at the node of an event item. */
  lemma EventIsInNextResult(start: Engine, before: seq<Call>, sub: nat, node: NodeId, template: Template,
                            calls: seq<Call>, i: nat, event: nat, j: nat)
    returns (older: seq<Content>, later: seq<Content>)
    requires Initial(start)
    requires var e := Run(start, before).0;
             && sub in e.subs && NotifiesEvents(e.sys.space, node)
             && sub in e.sys.services && forall c | c in calls :: Spares(c, sub, e.sys.services[sub].counter + 1)
    requires i < j < |calls| && calls[i] == Request(R.TriggerEvent(node, event)) && calls[j] == Timer(sub)
    requires forall k | i <= k < j :: calls[k] != Timer(sub)
    requires var created := Step(Run(start, before).0, Request(R.CreateEventItem(sub, node, template, true))).0;
             Runs(created, calls[..j], sub)
    ensures var e := Run(start, before).0;
            var created := Step(e, Request(R.CreateEventItem(sub, node, template, true))).0;
            Brings(Run(created, calls).1[j], sub, e.sys.services[sub].counter + 1, Events(node), template,
                   older + [Occurrence(template.clientHandle, event)] + later)
  {
    hide Run, Step, Sound, Holds, Spares, NotifiesEvents, Brings, Runs;
    RunsFromStartAreSound(start, before);
    var e := Run(start, before).0;
    NewEventItemHolds(e, sub, node, template);
    var created := Step(e, Request(R.CreateEventItem(sub, node, template, true))).0;
    assert Passed(Run(created, calls[..i]).0, calls[i], template, Events(node)) ==
           [Occurrence(template.clientHandle, event)];
    older, later := CauseIsInNextResult(created, calls, i, j, sub, e.sys.services[sub].counter + 1, Events(node),
                                        template, []);
  }

  /** A queue of size 0 drops nothing, and any other only what has as many behind it. */
  lemma WhatLastNKeeps(older: seq<Content>, c: Content, later: seq<Content>, q: nat)
    requires q == 0 || |later| < q
    ensures c in S.LastN(older + [c] + later, q)
  {
    var all := older + [c] + later;
    assert all[|older|] == c;
    if q > 0 && |all| > q {
      assert all[|all| - q..][|older| - (|all| - q)] == c;
    }
  }
}
