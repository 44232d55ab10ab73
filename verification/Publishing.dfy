/** When a subscription hands out a result, on every run, and which status codes and numbers the results carry. */
module Publishing {
  import opened Wrappers
  import opened Subscription

  // ----- Steps of a run -----

  lemma RunStep<V>(s: State<V>, actions: seq<Action<V>>)
    requires actions != []
    ensures var n := |actions| - 1;
            var (before, outs) := Run(s, actions[..n]);
            var (after, all) := Run(s, actions);
            && (after, all[n]) == Apply(before, actions[n]) && all[..n] == outs
  {
    hide Apply;
  }

  /** What is handed out up to a step does not depend on what comes after. */
  lemma {:induction false} RunPrefix<V>(s: State<V>, actions: seq<Action<V>>, i: nat)
    requires i <= |actions|
    ensures Run(s, actions).1[..i] == Run(s, actions[..i]).1
    decreases |actions|
  {
    if i < |actions| {
      var n := |actions| - 1;
      RunStep(s, actions);
      RunPrefix(s, actions[..n], i);
      assert actions[..n][..i] == actions[..i];
      hide Run;
      var (all, outs) := (Run(s, actions).1, Run(s, actions[..n]).1);
      assert all[..n][..i] == all[..i];
    } else {
      assert actions[..i] == actions;
    }
  }

  lemma StepAt<V>(s: State<V>, actions: seq<Action<V>>, i: nat)
    requires i < |actions|
    ensures var (before, outs) := Run(s, actions[..i]);
            && Run(s, actions[..i + 1]).0 == Apply(before, actions[i]).0
            && Run(s, actions).1[i] == Apply(before, actions[i]).1
            && Run(s, actions).1[..i] == outs
  {
    hide Run, Apply;
    RunPrefix(s, actions, i + 1);
    RunPrefix(s, actions, i);
    RunStep(s, actions[..i + 1]);
    assert actions[..i + 1][..i] == actions[..i];
    var all := Run(s, actions).1;
    assert all[..i + 1][i] == all[i];
  }

  // ----- When there is a result -----

  /** Timer calls since the last result. */
  function SilentCalls<V>(actions: seq<Action<V>>, outs: seq<Option<PublishResult<V>>>): nat
    requires |actions| == |outs|
  {
    if actions == [] then 0
    else
      var n := |actions| - 1;
      if outs[n].Some? then 0 else SilentCalls(actions[..n], outs[..n]) + if actions[n].Clock? then 1 else 0
  }

  /** A data change or an event has been queued at step j, and no result handed out since. */
  predicate WaitsSince<V>(actions: seq<Action<V>>, outs: seq<Option<PublishResult<V>>>, j: nat)
    requires |actions| == |outs|
  {
    j < |actions| && actions[j].Queue? && forall k | j <= k < |actions| :: outs[k].None?
  }

  ghost predicate SomethingWaits<V>(actions: seq<Action<V>>, outs: seq<Option<PublishResult<V>>>)
    requires |actions| == |outs|
  {
    exists j :: WaitsSince(actions, outs, j)
  }

  lemma WaitsStep<V>(actions: seq<Action<V>>, outs: seq<Option<PublishResult<V>>>)
    requires |actions| == |outs| > 0
    ensures var n := |actions| - 1;
            SomethingWaits(actions, outs) <==>
              outs[n].None? && (actions[n].Queue? || SomethingWaits(actions[..n], outs[..n]))
  {
    var n := |actions| - 1;
    if outs[n].None? && actions[n].Queue? {
      assert WaitsSince(actions, outs, n);
    }
    if outs[n].None? && SomethingWaits(actions[..n], outs[..n]) {
      var j: nat :| WaitsSince(actions[..n], outs[..n], j);
      assert WaitsSince(actions, outs, j);
    }
    if SomethingWaits(actions, outs) {
      var j: nat :| WaitsSince(actions, outs, j);
      if j < n {
        assert WaitsSince(actions[..n], outs[..n], j);
      }
    }
  }

  predicate Waiting<V>(s: State<V>) {
    s.datachanges != map[] || s.events != map[]
  }

  lemma StepWaits<V>(s: State<V>, a: Action<V>)
    ensures var (after, out) := Apply(s, a);
            Waiting(after) <==> out.None? && (a.Queue? || Waiting(s))
  {
    if a.Queue? {
      var queues := if a.kind.DataChange? then s.datachanges else s.events;
      assert a.mid in Enqueue(queues, a.mid, a.value, a.size);
    }
  }

  lemma StepCounts<V>(s: State<V>, a: Action<V>)
    requires !Apply(s, a).0.stopped || !s.stopped
    ensures var (after, out) := Apply(s, a);
            && after.startup == (s.startup && !a.Clock?)
            && after.maxKeepAliveCount == s.maxKeepAliveCount
            && after.keepAliveCount == (if out.Some? then 0 else s.keepAliveCount + if a.Clock? then 1 else 0)
  {
    hide Enqueue;
  }

  /** What the fields of a running subscription say about its run. */
  lemma {:induction false} FieldsSay<V>(lifetime: nat, keepAlive: nat, actions: seq<Action<V>>)
    ensures var (after, outs) := Run(Fresh(lifetime, keepAlive), actions);
            && (Waiting(after) <==> SomethingWaits(actions, outs))
            && (!after.stopped ==>
                  && (after.startup <==> Clocks(actions) == 0)
                  && after.maxKeepAliveCount == keepAlive
                  && after.keepAliveCount == SilentCalls(actions, outs))
  {
    var s := Fresh<V>(lifetime, keepAlive);
    if actions != [] {
      var n := |actions| - 1;
      FieldsSay(lifetime, keepAlive, actions[..n]);
      RunStep(s, actions);
      var (before, outs) := Run(s, actions[..n]);
      var (after, all) := Run(s, actions);
      WaitsStep(actions, all);
      StepWaits(before, actions[n]);
      StoppedStays(before, actions[n]);
      hide Run, Apply, SomethingWaits, Waiting, Fresh;
      if !before.stopped {
        StepCounts(before, actions[n]);
      }
    }
  }

  /**
   On every run, a timer call of a subscription that is not stopped hands out a result if and only if it is the
   first one, or a data change or event has been queued since the last result, or more timer calls than the
   keep-alive count have been silent since then. A stopped one hands out nothing.
   */
  lemma PublishesExactly<V>(lifetime: nat, keepAlive: nat, actions: seq<Action<V>>, i: nat)
    requires i < |actions| && actions[i].Clock?
    ensures var s := Fresh<V>(lifetime, keepAlive);
            var (before, outs) := Run(s, actions[..i]);
            Run(s, actions).1[i].Some? <==>
              && !before.stopped
              && (Clocks(actions[..i]) == 0 || SomethingWaits(actions[..i], outs)
                  || SilentCalls(actions[..i], outs) > keepAlive)
  {
    var s := Fresh<V>(lifetime, keepAlive);
    StepAt(s, actions, i);
    FieldsSay(lifetime, keepAlive, actions[..i]);
    hide Run, SomethingWaits, Clocks, SilentCalls;
  }

  /** Nothing but a timer call hands out a result. */
  lemma OnlyTimerPublishes<V>(s: State<V>, actions: seq<Action<V>>, i: nat)
    requires i < |actions| && !actions[i].Clock?
    ensures Run(s, actions).1[i].None?
  {
    StepAt(s, actions, i);
    hide Run;
  }

  // ----- Which numbers a result offers -----

  ghost predicate IsOutstanding<V>(actions: seq<Action<V>>, outs: seq<Option<PublishResult<V>>>, n: nat)
    requires |actions| == |outs|
  {
    exists j: nat :: Outstanding(actions, outs, j, n)
  }

  /** A message counts as data, and is numbered and stored, unless it is entirely empty. */
  lemma OnlyEmptyIsNoData<V>(m: Message<V>)
    ensures m.HasData() <==> m != Message(m.sequenceNumber, map[], map[], None)
  {
  }

  /** A result lists exactly the messages that are outstanding then, its own among them. */
  lemma AvailableExactly<V>(lifetime: nat, keepAlive: nat, actions: seq<Action<V>>, i: nat, n: nat)
    requires i < |actions| && Run(Fresh(lifetime, keepAlive), actions).1[i].Some?
    ensures var outs := Run(Fresh<V>(lifetime, keepAlive), actions).1;
            n in outs[i].value.available <==> IsOutstanding(actions[..i + 1], outs[..i + 1], n)
  {
    var s := Fresh<V>(lifetime, keepAlive);
    StepAt(s, actions, i);
    RunPrefix(s, actions, i + 1);
    AvailableIsStored(Run(s, actions[..i]).0, actions[i]);
    hide Run, Apply, Outstanding;
    RetransmissionStore(lifetime, keepAlive, actions[..i + 1]);
  }

  lemma AvailableIsStored<V>(s: State<V>, a: Action<V>)
    ensures var (after, out) := Apply(s, a);
            out.Some? ==> out.value.available == after.notAcknowledged.Keys
  {
  }

  /** A number that is not outstanding is answered with the empty message. */
  lemma RepublishUnknown<V>(lifetime: nat, keepAlive: nat, actions: seq<Action<V>>, n: nat)
    requires forall j: nat :: !Outstanding(actions, Run(Fresh(lifetime, keepAlive), actions).1, j, n)
    ensures Republish(Run(Fresh<V>(lifetime, keepAlive), actions).0, n) == Message(0, map[], map[], None)
  {
    RetransmissionStore(lifetime, keepAlive, actions);
  }

  // ----- Status codes -----

  /** The timer call that expires the subscription, which it can do once. */
  predicate ExpiresAt<V>(lifetime: nat, keepAlive: nat, actions: seq<Action<V>>, i: nat)
    requires i < |actions|
  {
    var (before, outs) := Run(Fresh(lifetime, keepAlive), actions[..i]);
    !before.stopped && actions[i].Clock? && HandedSince(actions[..i], outs) > lifetime
  }

  /** The codes that were queued: those of status changes, and BadTimeout at the expiry. */
  function CodesQueued<V>(lifetime: nat, keepAlive: nat, actions: seq<Action<V>>): seq<nat> {
    if actions == [] then []
    else
      var n := |actions| - 1;
      CodesQueued(lifetime, keepAlive, actions[..n])
      + (if actions[n].StatusChange? then [actions[n].code]
         else if ExpiresAt(lifetime, keepAlive, actions, n) then [BAD_TIMEOUT] else [])
  }

  function CodesHanded<V>(outs: seq<Option<PublishResult<V>>>): seq<nat> {
    if outs == [] then []
    else
      var last := outs[|outs| - 1];
      CodesHanded(outs[..|outs| - 1])
      + if last.Some? && last.value.message.status.Some? then [last.value.message.status.value] else []
  }

  function CodeOf<V>(out: Option<PublishResult<V>>): seq<nat> {
    if out.Some? && out.value.message.status.Some? then [out.value.message.status.value] else []
  }

  lemma CodeStep<V>(s: State<V>, a: Action<V>)
    ensures var (after, out) := Apply(s, a);
            var expires := !s.stopped && a.Clock? && s.publishCyclesCount > s.lifetimeCount;
            && s.statuses + (if a.StatusChange? then [a.code] else if expires then [BAD_TIMEOUT] else []) ==
               CodeOf(out) + after.statuses
            && (out.Some? && out.value.message.status.None? ==> after.statuses == [])
  {
    if s.statuses != [] {
      assert s.statuses == [s.statuses[0]] + s.statuses[1..];
    }
  }

  /** Codes are handed out one with a result, in the order they were queued, and none is lost. */
  lemma {:induction false} CodesInOrder<V>(lifetime: nat, keepAlive: nat, actions: seq<Action<V>>)
    ensures var (after, outs) := Run(Fresh(lifetime, keepAlive), actions);
            && CodesHanded(outs) + after.statuses == CodesQueued(lifetime, keepAlive, actions)
            && after.publishCyclesCount == HandedSince(actions, outs) && after.lifetimeCount == lifetime
  {
    var s := Fresh<V>(lifetime, keepAlive);
    ExpiresExactly(lifetime, keepAlive, actions);
    ParametersKept(s, actions);
    if actions != [] {
      var n := |actions| - 1;
      CodesInOrder(lifetime, keepAlive, actions[..n]);
      RunStep(s, actions);
      var (before, outs) := Run(s, actions[..n]);
      var (after, all) := Run(s, actions);
      CodeStep(before, actions[n]);
      hide Run, Apply, HandedSince, Fresh;
      var queued := if actions[n].StatusChange? then [actions[n].code]
                    else if ExpiresAt(lifetime, keepAlive, actions, n) then [BAD_TIMEOUT] else [];
      assert CodesHanded(all) == CodesHanded(outs) + CodeOf(all[n]);
      assert before.statuses + queued == CodeOf(all[n]) + after.statuses;
      Conserved(CodesHanded(outs), before.statuses, queued, CodeOf(all[n]), after.statuses);
    }
  }

  lemma Conserved(handed: seq<nat>, before: seq<nat>, queued: seq<nat>, code: seq<nat>, after: seq<nat>)
    requires before + queued == code + after
    ensures (handed + before) + queued == (handed + code) + after
  {
    assert (handed + before) + queued == handed + (before + queued);
    assert (handed + code) + after == handed + (code + after);
  }

  /** A result carries a code whenever one has been queued and not handed out. */
  lemma CodeIsNotHeldBack<V>(lifetime: nat, keepAlive: nat, actions: seq<Action<V>>, i: nat)
    requires i < |actions| && Run(Fresh(lifetime, keepAlive), actions).1[i].Some?
    requires Run(Fresh<V>(lifetime, keepAlive), actions).1[i].value.message.status.None?
    ensures CodesHanded(Run(Fresh<V>(lifetime, keepAlive), actions).1[..i + 1]) ==
            CodesQueued(lifetime, keepAlive, actions[..i + 1])
  {
    var s := Fresh<V>(lifetime, keepAlive);
    StepAt(s, actions, i);
    RunPrefix(s, actions, i + 1);
    CodeStep(Run(s, actions[..i]).0, actions[i]);
    hide Run, Apply;
    CodesInOrder(lifetime, keepAlive, actions[..i + 1]);
    var (handed, left) := (CodesHanded(Run(s, actions[..i + 1]).1), Run(s, actions[..i + 1]).0.statuses);
    assert handed + left == handed;
  }
}
