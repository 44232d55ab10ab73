/** The whole subscription engine: writes and events on one side, published notifications on the other. */
module Engine {
  import opened Wrappers
  import opened NodeIds
  import opened MonitoredItems
  import R = MonitoredRuns
  import S = Subscription

  datatype Content = Change(clientHandle: nat, value: Value) | Occurrence(clientHandle: nat, event: nat)

  /** Every subscription has its items in the system and its queues and counters here. */
  datatype Engine = Engine(sys: R.System, subs: map<nat, S.State<Content>>)

  datatype Call =
    | Request(request: R.Request)
    | Timer(sub: nat)
    | Publish(acks: seq<(nat, nat)>)   // subscription and sequence number

  type Out = Option<(nat, S.PublishResult<Content>)>

  // ----- What a call does -----

  /** The items that listen under one of the handles and let the value through. */
  function WriteNotices(s: Service, hs: set<nat>, v: Value): map<nat, Notice> {
    map mid | mid in s.items && HandlesOf(s.datachange, mid) * hs != {}
      && NoticeFor(mid, Observe(s.items[mid], v)).Some?
      :: NoticeFor(mid, Observe(s.items[mid], v)).value
  }

  /** Each notice is queued for its own item. */
  function Deliver(queues: S.Queues<Content>, notices: map<nat, Notice>): S.Queues<Content> {
    map mid | mid in queues.Keys + notices.Keys ::
      if mid in notices
      then S.Enqueue(queues, mid, Change(notices[mid].clientHandle, notices[mid].value), notices[mid].size)[mid]
      else queues[mid]
  }

  /** An event is queued for every item of its node; the where clauses are taken to hold. */
  function DeliverEvent(queues: S.Queues<Content>, s: Service, node: NodeId, event: nat): S.Queues<Content> {
    var listed := if node in s.events then set mid | mid in s.events[node] && mid in s.items else {};
    map mid | mid in queues.Keys + listed ::
      if mid in listed
      then S.Enqueue(queues, mid, Occurrence(s.items[mid].clientHandle, event), s.items[mid].queueSize)[mid]
      else queues[mid]
  }

  function QueuesAfter(e: Engine, r: R.Request): map<nat, S.State<Content>> {
    match r
    case CreateSubscription(lifetime, keepAlive) =>
      e.subs[e.sys.subscriptionCounter + 1 := S.Fresh(lifetime, keepAlive)]
    case DeleteSubscription(sub) => e.subs - {sub}
    case CreateDataItem(sub, k, template) =>
      if sub !in e.subs || sub !in e.sys.services then e.subs
      else
        var notice := CreateDataChange(e.sys.space, e.sys.services[sub], sub, k, template).2.notice;
        if notice.None? then e.subs
        else
          var queues := Deliver(e.subs[sub].datachanges, map[notice.value.mid := notice.value]);
          e.subs[sub := e.subs[sub].(datachanges := queues)]
    case Write(k, v) =>
      if e.sys.space.StatusOf(k) != Good || e.sys.space.attributes[k].value == v then e.subs
      else
        var hs := e.sys.space.attributes[k].callbacks.Keys;
        map sub | sub in e.subs ::
          if sub in e.sys.services
          then e.subs[sub].(datachanges := Deliver(e.subs[sub].datachanges, WriteNotices(e.sys.services[sub], hs, v)))
          else e.subs[sub]
    case TriggerEvent(node, event) =>
      map sub | sub in e.subs ::
        if sub in e.sys.services
        then e.subs[sub].(events := DeliverEvent(e.subs[sub].events, e.sys.services[sub], node, event))
        else e.subs[sub]
    case _ => e.subs
  }

  function AcksFor(acks: seq<(nat, nat)>, sub: nat): seq<nat> {
    if acks == [] then []
    else (if acks[0].0 == sub then [acks[0].1] else []) + AcksFor(acks[1..], sub)
  }

  lemma {:induction false} AcksForExactly(acks: seq<(nat, nat)>, sub: nat, n: nat)
    ensures n in AcksFor(acks, sub) <==> (sub, n) in acks
  {
    if acks != [] {
      AcksForExactly(acks[1..], sub, n);
    }
  }

  function Step(e: Engine, c: Call): (Engine, Out) {
    match c
    case Request(r) => (Engine(R.Step(e.sys, r), QueuesAfter(e, r)), None)
    case Timer(sub) =>
      if sub !in e.subs then (e, None)
      else
        var (after, out) := S.Apply(e.subs[sub], S.Clock);
        (e.(subs := e.subs[sub := after]), if out.Some? then Some((sub, out.value)) else None)
    case Publish(acks) =>
      (e.(subs := map sub | sub in e.subs :: S.Acknowledge(e.subs[sub], AcksFor(acks, sub))), None)
  }

  /**
   A publish request takes from each subscription the messages it acknowledges there, and tells every one
   that the client is alive; queues, numbers and items stay.
   */
  lemma PublishAcknowledges(e: Engine, acks: seq<(nat, nat)>, sub: nat, n: nat)
    requires sub in e.subs
    ensures var after := Step(e, Publish(acks)).0;
            && after.sys == e.sys && sub in after.subs
            && (n in after.subs[sub].notAcknowledged <==> n in e.subs[sub].notAcknowledged && (sub, n) !in acks)
            && after.subs[sub] == e.subs[sub].(publishCyclesCount := 0,
                                               notAcknowledged := after.subs[sub].notAcknowledged)
  {
    AcksForExactly(acks, sub, n);
  }

  function Run(e: Engine, calls: seq<Call>): (r: (Engine, seq<Out>))
    ensures |r.1| == |calls|
  {
    if calls == [] then (e, [])
    else
      var n := |calls| - 1;
      var (before, outs) := Run(e, calls[..n]);
      var (after, out) := Step(before, calls[n]);
      (after, outs + [out])
  }

  // ----- Every item knows its attribute's value -----

  predicate ItemAt(sys: R.System, sub: nat, mid: nat, h: nat, k: Key) {
    && sub in sys.services && mid in sys.services[sub].items
    && At(sys.services[sub], mid, UnderHandle(h))
    && h in sys.space.handles && sys.space.handles[h] == k && k in sys.space.attributes
  }

  ghost predicate Current(sys: R.System) {
    forall sub, mid, h, k | ItemAt(sys, sub, mid, h, k) ::
      sys.services[sub].items[mid].current == sys.space.attributes[k].value
  }

  /** In a consistent system an item's handle is among the callbacks of its attribute, and of no other. */
  lemma HandleIsThere(sys: R.System, sub: nat, mid: nat, h: nat, k: Key, k2: Key)
    requires R.Consistent(sys) && ItemAt(sys, sub, mid, h, k) && k2 in sys.space.attributes
    ensures HandlesOf(sys.services[sub].datachange, mid) * sys.space.attributes[k2].callbacks.Keys != {} <==> k2 == k
    ensures k.node in sys.space.nodes && mid <= sys.services[sub].counter && h <= sys.space.callbackCounter
  {
    var s := sys.services[sub];
    assert h in HandlesOf(s.datachange, mid);
    forall h' | h' in HandlesOf(s.datachange, mid)
      ensures h' == h
    {
      assert At(s, mid, UnderHandle(h'));
    }
    if k2 == k {
      assert h in HandlesOf(s.datachange, mid) * sys.space.attributes[k2].callbacks.Keys;
    }
  }

  lemma WriteKeepsCurrent(sys: R.System, k: Key, v: Value)
    requires R.Consistent(sys) && Current(sys)
    ensures Current(R.WriteValue(sys, k, v))
  {
    var sys' := R.WriteValue(sys, k, v);
    forall sub, mid, h, k2 | ItemAt(sys', sub, mid, h, k2)
      ensures sys'.services[sub].items[mid].current == sys'.space.attributes[k2].value
    {
      assert ItemAt(sys, sub, mid, h, k2);
      if sys.space.StatusOf(k) == Good {
        HandleIsThere(sys, sub, mid, h, k2, k);
      }
    }
  }

  /** An item that is there after a request was there before with the same values, or has just been given the value. */
  predicate SameValues(sys: R.System, sys': R.System, sub: nat, mid: nat, h: nat, k: Key) {
    ItemAt(sys', sub, mid, h, k) ==>
      || sys'.services[sub].items[mid].current == sys'.space.attributes[k].value
      || (&& ItemAt(sys, sub, mid, h, k)
          && sys'.services[sub].items[mid].current == sys.services[sub].items[mid].current
          && sys'.space.attributes[k].value == sys.space.attributes[k].value)
  }

  lemma DeleteSame(sys: R.System, at: nat, gone: nat, sub: nat, mid: nat, h: nat, k: Key)
    requires R.Consistent(sys)
    ensures SameValues(sys, R.Step(sys, R.DeleteItem(at, gone)), sub, mid, h, k)
  {
  }

  lemma DeleteSubscriptionSame(sys: R.System, at: nat, sub: nat, mid: nat, h: nat, k: Key)
    requires R.Consistent(sys)
    ensures SameValues(sys, R.Step(sys, R.DeleteSubscription(at)), sub, mid, h, k)
  {
  }

  lemma CreateSame(sys: R.System, at: nat, key: Key, template: Template, sub: nat, mid: nat, h: nat, k: Key)
    requires R.Consistent(sys)
    ensures SameValues(sys, R.Step(sys, R.CreateDataItem(at, key, template)), sub, mid, h, k)
  {
    if sub in sys.services {
      HandlesAreOld(sys, sub);
    }
    hide R.Consistent, Space.Valid;
    if at in sys.services {
      CreatedAttribute(sys.space, sys.services[at], at, key, template, k);
      CreatedHandle(sys.space, sys.services[at], at, key, template, h);
      if sub == at && mid in sys.services[at].items && h in sys.services[at].datachange
         && sys.services[at].datachange[h] == mid {
        KnownItem(sys.space, sys.services[at], at, key, template, mid, h);
      }
      hide CreateDataChange;
    }
  }

  /** Creating an item gives no attribute a new value, and moves no handle. */
  lemma CreatedAttribute(space: Space, s: Service, sub: nat, key: Key, template: Template, k: Key)
    ensures var space' := CreateDataChange(space, s, sub, key, template).0;
            && (k in space'.attributes <==> k in space.attributes)
            && (k in space.attributes ==> space'.attributes[k].value == space.attributes[k].value)
  {
  }

  lemma CreatedHandle(space: Space, s: Service, sub: nat, key: Key, template: Template, h: nat)
    ensures var (space', s', _) := CreateDataChange(space, s, sub, key, template);
            && (h <= space.callbackCounter && h in space'.handles ==>
                h in space.handles && space'.handles[h] == space.handles[h])
            && (h in s'.datachange ==>
                  || (h in s.datachange && s'.datachange[h] == s.datachange[h])
                  || (&& h > space.callbackCounter && h in space'.handles && space'.handles[h] == key
                      && key in space.attributes
                      && s'.datachange[h] == s.counter + 1 && s.counter + 1 in s'.items
                      && s'.items[s.counter + 1].current == space.attributes[key].value))
  {
  }

  lemma KnownItem(space: Space, s: Service, sub: nat, key: Key, template: Template, mid: nat, h: nat)
    requires mid in s.items && mid <= s.counter && h <= space.callbackCounter && h in s.datachange
             && s.datachange[h] == mid
    ensures var s' := CreateDataChange(space, s, sub, key, template).1;
            mid in s'.items && s'.items[mid] == s.items[mid] && h in s'.datachange && s'.datachange[h] == mid
  {
  }

  /** Handles and item ids in use are not above the counters. */
  lemma HandlesAreOld(sys: R.System, sub: nat)
    requires R.Consistent(sys) && sub in sys.services
    ensures forall h | h in sys.services[sub].datachange ::
              h <= sys.space.callbackCounter && h in sys.space.handles
                && sys.services[sub].datachange[h] in sys.services[sub].items
    ensures forall mid | mid in sys.services[sub].items :: mid <= sys.services[sub].counter
  {
    forall h | h in sys.services[sub].datachange
      ensures h <= sys.space.callbackCounter && h in sys.space.handles
              && sys.services[sub].datachange[h] in sys.services[sub].items
    {
      assert sys.space.OwnedBy(h, sub);
      assert At(sys.services[sub], sys.services[sub].datachange[h], UnderHandle(h));
    }
  }

  lemma CreateEventSame(sys: R.System, at: nat, node: NodeId, template: Template, hasFilter: bool, sub: nat, mid: nat,
                        h: nat, k: Key)
    requires R.Consistent(sys)
    ensures SameValues(sys, R.Step(sys, R.CreateEventItem(at, node, template, hasFilter)), sub, mid, h, k)
  {
    if at in sys.services && sub == at
       && ItemAt(R.Step(sys, R.CreateEventItem(at, node, template, hasFilter)), sub, mid, h, k) {
      HandlesAreOld(sys, at);
      assert At(sys.services[sub], mid, UnderHandle(h));
    }
  }

  lemma AddNodeSame(sys: R.System, node: NodeId, values: map<nat, Value>, sub: nat, mid: nat, h: nat, k: Key)
    requires R.Consistent(sys)
    ensures SameValues(sys, R.Step(sys, R.AddNode(node, values)), sub, mid, h, k)
  {
  }

  lemma RequestSame(sys: R.System, r: R.Request, sub: nat, mid: nat, h: nat, k: Key)
    requires R.Consistent(sys) && !r.Write?
    ensures SameValues(sys, R.Step(sys, r), sub, mid, h, k)
  {
    hide SameValues, R.Consistent, R.Step;
    match r
    case CreateSubscription(l, a) => CreateSubscriptionSame(sys, l, a, sub, mid, h, k);
    case DeleteSubscription(at) => DeleteSubscriptionSame(sys, at, sub, mid, h, k);
    case CreateDataItem(at, key, template) => CreateSame(sys, at, key, template, sub, mid, h, k);
    case CreateEventItem(at, node, template, hasFilter) =>
      CreateEventSame(sys, at, node, template, hasFilter, sub, mid, h, k);
    case DeleteItem(at, gone) => DeleteSame(sys, at, gone, sub, mid, h, k);
    case TriggerEvent(node, event) => TriggerSame(sys, node, event, sub, mid, h, k);
    case AddNode(node, values) => AddNodeSame(sys, node, values, sub, mid, h, k);
  }

  lemma CreateSubscriptionSame(sys: R.System, lifetime: nat, keepAlive: nat, sub: nat, mid: nat, h: nat, k: Key)
    ensures SameValues(sys, R.Step(sys, R.CreateSubscription(lifetime, keepAlive)), sub, mid, h, k)
  {
  }

  lemma TriggerSame(sys: R.System, node: NodeId, event: nat, sub: nat, mid: nat, h: nat, k: Key)
    ensures SameValues(sys, R.Step(sys, R.TriggerEvent(node, event)), sub, mid, h, k)
  {
  }

  lemma RequestKeepsCurrent(sys: R.System, r: R.Request)
    requires R.Consistent(sys) && Current(sys)
    ensures Current(R.Step(sys, r))
  {
    if r.Write? {
      WriteKeepsCurrent(sys, r.key, r.value);
    } else {
      var sys' := R.Step(sys, r);
      hide R.Step, R.Consistent, ItemAt;
      forall sub, mid, h, k | ItemAt(sys', sub, mid, h, k)
        ensures sub in sys'.services && mid in sys'.services[sub].items && k in sys'.space.attributes
        ensures sys'.services[sub].items[mid].current == sys'.space.attributes[k].value
      {
        ItemIsThere(sys', sub, mid, h, k);
        RequestSame(sys, r, sub, mid, h, k);
      }
    }
  }

  lemma ItemIsThere(sys: R.System, sub: nat, mid: nat, h: nat, k: Key)
    requires ItemAt(sys, sub, mid, h, k)
    ensures sub in sys.services && mid in sys.services[sub].items && k in sys.space.attributes
  {
  }

  /** On every run, an item that listens to an attribute knows the attribute's value. */
  lemma {:induction false} ItemsAreCurrent(sys: R.System, requests: seq<R.Request>)
    requires R.Consistent(sys) && Current(sys)
    ensures R.Consistent(R.Run(sys, requests)) && Current(R.Run(sys, requests))
    decreases |requests|
  {
    hide R.Step, R.Consistent, Current;
    if requests != [] {
      R.StepKeeps(sys, requests[0]);
      RequestKeepsCurrent(sys, requests[0]);
      ItemsAreCurrent(R.Step(sys, requests[0]), requests[1..]);
    }
  }

  // ----- From writes to publications -----

  ghost predicate Sound(e: Engine) {
    && R.Consistent(e.sys) && Current(e.sys)
    && e.subs.Keys == e.sys.services.Keys
    && (forall sub | sub in e.subs :: Filled(e.subs[sub].datachanges) && Filled(e.subs[sub].events))
    && Counted(e)
  }

  /** Nothing is queued for an item id that has not been given out. */
  ghost predicate Counted(e: Engine) {
    forall sub | sub in e.subs && sub in e.sys.services ::
      Known(e.subs[sub].datachanges, e.sys.services[sub].counter)
        && Known(e.subs[sub].events, e.sys.services[sub].counter)
  }

  predicate Known(queues: S.Queues<Content>, counter: nat) {
    forall mid | mid in queues :: mid <= counter
  }

  lemma DeliverKnown(queues: S.Queues<Content>, notices: map<nat, Notice>, counter: nat)
    requires Known(queues, counter) && forall mid | mid in notices :: mid <= counter
    ensures Known(Deliver(queues, notices), counter)
  {
  }

  lemma DeliverEventKnown(queues: S.Queues<Content>, s: Service, node: NodeId, event: nat)
    requires Known(queues, s.counter) && forall mid | mid in s.items :: mid <= s.counter
    ensures Known(DeliverEvent(queues, s, node, event), s.counter)
  {
  }

  lemma KnownGrows(queues: S.Queues<Content>, a: nat, b: nat)
    requires Known(queues, a) && a <= b
    ensures Known(queues, b)
  {
  }

  predicate Filled(queues: S.Queues<Content>) {
    forall mid | mid in queues :: queues[mid] != []
  }

  lemma DeliverFilled(queues: S.Queues<Content>, notices: map<nat, Notice>)
    requires Filled(queues)
    ensures Filled(Deliver(queues, notices))
  {
  }

  lemma DeliverEventFilled(queues: S.Queues<Content>, s: Service, node: NodeId, event: nat)
    requires Filled(queues)
    ensures Filled(DeliverEvent(queues, s, node, event))
  {
  }

  /** The engine before any subscription. */
  ghost predicate Initial(e: Engine) {
    R.Initial(e.sys) && e.subs == map[]
  }

  lemma InitialIsSound(e: Engine)
    requires Initial(e)
    ensures Sound(e)
  {
    assert forall h, sub :: !e.sys.space.OwnedBy(h, sub);
  }

  lemma RequestServices(sys: R.System, r: R.Request)
    ensures R.Step(sys, r).services.Keys ==
            match r
            case CreateSubscription(_, _) => sys.services.Keys + {sys.subscriptionCounter + 1}
            case DeleteSubscription(sub) => sys.services.Keys - {sub}
            case _ => sys.services.Keys
  {
  }

  lemma QueuesStayFilled(e: Engine, r: R.Request)
    requires Sound(e)
    ensures forall sub | sub in QueuesAfter(e, r) ::
            Filled(QueuesAfter(e, r)[sub].datachanges) && Filled(QueuesAfter(e, r)[sub].events)
  {
    hide R.Consistent, Current, Deliver, DeliverEvent, Filled, WriteNotices, CreateDataChange;
    forall queues: S.Queues<Content>, notices: map<nat, Notice> | Filled(queues)
      ensures Filled(Deliver(queues, notices))
    {
      DeliverFilled(queues, notices);
    }
    forall queues: S.Queues<Content>, s: Service, node: NodeId, event: nat | Filled(queues)
      ensures Filled(DeliverEvent(queues, s, node, event))
    {
      DeliverEventFilled(queues, s, node, event);
    }
    NothingIsFilled();
  }

  lemma NothingIsFilled()
    ensures Filled(map[])
  {
  }

  lemma ApplyFilled(s: S.State<Content>)
    requires Filled(s.datachanges) && Filled(s.events)
    ensures var after := S.Apply(s, S.Clock).0;
            Filled(after.datachanges) && Filled(after.events)
  {
  }

  lemma StepKeepsSound(e: Engine, c: Call)
    requires Sound(e)
    ensures Sound(Step(e, c).0)
  {
    hide Sound;
    match c
    case Request(r) => RequestKeepsSound(e, r);
    case Timer(sub) => TimerKeepsSound(e, sub);
    case Publish(acks) => PublishKeepsSound(e, acks);
  }

  lemma TimerKeepsSound(e: Engine, sub: nat)
    requires Sound(e)
    ensures Sound(Step(e, Timer(sub)).0)
  {
    hide R.Consistent, Current;
    if sub in e.subs {
      ApplyFilled(e.subs[sub]);
      ApplyKnown(e.subs[sub], e.sys.services[sub].counter);
      hide Filled, Known, S.Apply;
    }
  }

  lemma ApplyKnown(s: S.State<Content>, counter: nat)
    requires Known(s.datachanges, counter) && Known(s.events, counter)
    ensures var after := S.Apply(s, S.Clock).0; Known(after.datachanges, counter) && Known(after.events, counter)
  {
  }

  lemma PublishKeepsSound(e: Engine, acks: seq<(nat, nat)>)
    requires Sound(e)
    ensures Sound(Step(e, Publish(acks)).0)
  {
    hide R.Consistent, Current, Filled, Known;
  }

  lemma WriteAfter(e: Engine, key: Key, v: Value, sub: nat)
    requires sub in e.subs && sub in e.sys.services
    ensures var after := QueuesAfter(e, R.Write(key, v));
            sub in after &&
            if e.sys.space.StatusOf(key) == Good && e.sys.space.attributes[key].value != v
            then after[sub] == e.subs[sub].(datachanges := Deliver(e.subs[sub].datachanges,
                   WriteNotices(e.sys.services[sub], e.sys.space.attributes[key].callbacks.Keys, v)))
            else after[sub] == e.subs[sub]
  {
    hide Deliver, WriteNotices;
  }

  lemma EventAfter(e: Engine, node: NodeId, event: nat, sub: nat)
    requires sub in e.subs && sub in e.sys.services
    ensures var after := QueuesAfter(e, R.TriggerEvent(node, event));
            sub in after &&
            after[sub] == e.subs[sub].(events := DeliverEvent(e.subs[sub].events, e.sys.services[sub], node, event))
  {
    hide DeliverEvent;
  }

  lemma CreatedAfter(e: Engine, at: nat, key: Key, template: Template, sub: nat)
    requires sub in e.subs && sub in e.sys.services
    ensures var after := QueuesAfter(e, R.CreateDataItem(at, key, template));
            var counter := R.Step(e.sys, R.CreateDataItem(at, key, template)).services[sub].counter;
            && sub in after
            && (after[sub] == e.subs[sub] ||
                exists notices: map<nat, Notice> :: (forall mid | mid in notices :: mid <= counter) &&
                  after[sub] == e.subs[sub].(datachanges := Deliver(e.subs[sub].datachanges, notices)))
  {
    hide Deliver;
    if at == sub {
      var notice := CreateDataChange(e.sys.space, e.sys.services[at], at, key, template).2.notice;
      if notice.Some? {
        var notices := map[notice.value.mid := notice.value];
        assert forall mid | mid in notices ::
               mid <= R.Step(e.sys, R.CreateDataItem(at, key, template)).services[sub].counter;
      }
    }
  }

  lemma UntouchedAfter(e: Engine, r: R.Request, sub: nat)
    requires sub in e.subs && sub in QueuesAfter(e, r)
             && !(r.CreateSubscription? && sub == e.sys.subscriptionCounter + 1)
    requires !r.Write? && !r.TriggerEvent? && !r.CreateDataItem?
    ensures QueuesAfter(e, r)[sub] == e.subs[sub]
  {
  }

  /** The queues of one subscription after a request, and its counter. */
  lemma KnownAfter(e: Engine, r: R.Request, sub: nat)
    requires Sound(e) && sub in QueuesAfter(e, r) && sub in R.Step(e.sys, r).services
    ensures var (after, counter) := (QueuesAfter(e, r)[sub], R.Step(e.sys, r).services[sub].counter);
            Known(after.datachanges, counter) && Known(after.events, counter)
  {
    hide Sound;
    if r.CreateSubscription? && sub == e.sys.subscriptionCounter + 1 {
      hide R.Step;
    } else {
      KnownBefore(e, r, sub);
      R.CountersGrow(e.sys, r);
      hide Known, Deliver, DeliverEvent, WriteNotices, QueuesAfter, R.Step;
      var (s, counter) := (e.sys.services[sub], R.Step(e.sys, r).services[sub].counter);
      KnownGrows(e.subs[sub].datachanges, s.counter, counter);
      KnownGrows(e.subs[sub].events, s.counter, counter);
      if r.Write? {
        WriteAfter(e, r.key, r.value, sub);
        if e.sys.space.StatusOf(r.key) == Good {
          var hs := e.sys.space.attributes[r.key].callbacks.Keys;
          NoticesKnown(s, hs, r.value);
          DeliverKnown(e.subs[sub].datachanges, WriteNotices(s, hs, r.value), counter);
        }
      } else if r.TriggerEvent? {
        EventAfter(e, r.node, r.event, sub);
        DeliverEventKnown(e.subs[sub].events, s, r.node, r.event);
        KnownGrows(DeliverEvent(e.subs[sub].events, s, r.node, r.event), s.counter, counter);
      } else if r.CreateDataItem? {
        CreatedAfter(e, r.sub, r.key, r.template, sub);
        var after := QueuesAfter(e, r)[sub];
        if after != e.subs[sub] {
          var notices: map<nat, Notice> :| (forall mid | mid in notices :: mid <= counter) &&
            after == e.subs[sub].(datachanges := Deliver(e.subs[sub].datachanges, notices));
          DeliverKnown(e.subs[sub].datachanges, notices, counter);
        }
      } else {
        UntouchedAfter(e, r, sub);
      }
    }
  }

  lemma NoticesKnown(s: Service, hs: set<nat>, v: Value)
    requires forall mid | mid in s.items :: mid <= s.counter
    ensures forall mid | mid in WriteNotices(s, hs, v) :: mid <= s.counter
  {
  }

  lemma KnownBefore(e: Engine, r: R.Request, sub: nat)
    requires Sound(e) && sub in QueuesAfter(e, r) && !(r.CreateSubscription? && sub == e.sys.subscriptionCounter + 1)
    ensures sub in e.subs && sub in e.sys.services && sub <= e.sys.subscriptionCounter
    ensures Known(e.subs[sub].datachanges, e.sys.services[sub].counter)
            && Known(e.subs[sub].events, e.sys.services[sub].counter)
    ensures forall mid | mid in e.sys.services[sub].items :: mid <= e.sys.services[sub].counter
  {
    hide Known, Deliver, DeliverEvent, WriteNotices, CreateDataChange;
    assert sub in e.subs;
    HandlesAreOld(e.sys, sub);
  }

  lemma RequestKeepsCounted(e: Engine, r: R.Request)
    requires Sound(e)
    ensures Counted(Engine(R.Step(e.sys, r), QueuesAfter(e, r)))
  {
    hide Sound, R.Step, QueuesAfter, Known;
    forall sub | sub in QueuesAfter(e, r) && sub in R.Step(e.sys, r).services
      ensures var (after, counter) := (QueuesAfter(e, r)[sub], R.Step(e.sys, r).services[sub].counter);
              Known(after.datachanges, counter) && Known(after.events, counter)
    {
      KnownAfter(e, r, sub);
    }
  }

  lemma RequestKeepsSound(e: Engine, r: R.Request)
    requires Sound(e)
    ensures Sound(Engine(R.Step(e.sys, r), QueuesAfter(e, r)))
  {
    RequestKeepsCounted(e, r);
    hide R.Consistent, Current, R.Step, Filled, QueuesAfter, Counted;
    R.StepKeeps(e.sys, r);
    RequestKeepsCurrent(e.sys, r);
    QueuesStayFilled(e, r);
    QueueKeys(e, r);
  }

  lemma QueueKeys(e: Engine, r: R.Request)
    requires e.subs.Keys == e.sys.services.Keys
    ensures QueuesAfter(e, r).Keys == R.Step(e.sys, r).services.Keys
  {
    RequestServices(e.sys, r);
    hide R.Step, Deliver, DeliverEvent, WriteNotices, CreateDataChange;
  }

  lemma {:induction false} RunIsSound(e: Engine, calls: seq<Call>)
    requires Sound(e)
    ensures Sound(Run(e, calls).0)
  {
    hide Sound, Step;
    if calls != [] {
      var n := |calls| - 1;
      RunIsSound(e, calls[..n]);
      StepKeepsSound(Run(e, calls[..n]).0, calls[n]);
    }
  }

  /** Every run of the engine from its start is sound. */
  lemma RunsFromStartAreSound(e: Engine, calls: seq<Call>)
    requires Initial(e)
    ensures Sound(Run(e, calls).0)
  {
    hide Sound, Run;
    InitialIsSound(e);
    RunIsSound(e, calls);
  }
}
