/** What one item is sent: from the writes and events it listens to, to the results of its subscription. */
module Notifications {
  import opened Wrappers
  import opened NodeIds
  import opened MonitoredItems
  import opened Engine
  import R = MonitoredRuns
  import S = Subscription

  // ----- What an item listens to -----

  /** An attribute, through a handle, or the events of a node. */
  datatype Ear = Attribute(handle: nat, key: Key) | Events(node: NodeId) {
    function Kind(): S.Kind {
      if Attribute? then S.DataChange else S.EventField
    }
  }

  predicate Listens(sys: R.System, sub: nat, mid: nat, ear: Ear) {
    match ear
    case Attribute(h, k) => ItemAt(sys, sub, mid, h, k)
    case Events(n) =>
      sub in sys.services && mid in sys.services[sub].items && At(sys.services[sub], mid, InList(n))
  }

  lemma ListenerIsThere(sys: R.System, sub: nat, mid: nat, ear: Ear)
    requires Listens(sys, sub, mid, ear)
    ensures sub in sys.services && mid in sys.services[sub].items
  {
  }

  /** The item is the one that was asked for: its client handle, its filter and the size of its queue. */
  predicate ItemIs(sys: R.System, sub: nat, mid: nat, t: Template) {
    && sub in sys.services && mid in sys.services[sub].items
    && var item := sys.services[sub].items[mid];
    && item.clientHandle == t.clientHandle && item.filter == t.filter && item.queueSize == t.queueSize
  }

  /** A call that does not delete the item, nor its subscription. */
  predicate Spares(c: Call, sub: nat, mid: nat) {
    c.Request? ==> c.request != R.DeleteItem(sub, mid) && c.request != R.DeleteSubscription(sub)
  }

  /** The item is still there under its handle, with the filter and the sizes it was created with. */
  predicate Stays(sys: R.System, sys': R.System, sub: nat, mid: nat, h: nat, k: Key)
    requires ItemAt(sys, sub, mid, h, k)
  {
    && ItemAt(sys', sub, mid, h, k)
    && var (item, item') := (sys.services[sub].items[mid], sys'.services[sub].items[mid]);
    && item' == item.(current := item'.current, previous := item'.previous)
  }

  lemma StaysDelete(sys: R.System, at: nat, gone: nat, sub: nat, mid: nat, h: nat, k: Key)
    requires R.Consistent(sys) && ItemAt(sys, sub, mid, h, k) && !(at == sub && gone == mid)
    ensures Stays(sys, R.Step(sys, R.DeleteItem(at, gone)), sub, mid, h, k)
  {
    OnlyThere(sys, at, sub, mid, h, k);
  }

  /** No other item or subscription has the handle. */
  lemma OnlyThere(sys: R.System, at: nat, sub: nat, mid: nat, h: nat, k: Key)
    requires R.Consistent(sys) && ItemAt(sys, sub, mid, h, k)
    ensures at in sys.services && at != sub ==> h !in sys.services[at].datachange
    ensures h <= sys.space.callbackCounter && mid <= sys.services[sub].counter && k.node in sys.space.nodes
    ensures h in sys.space.attributes[k].callbacks
  {
    assert sys.space.OwnedBy(h, sub);
    if at in sys.services && h in sys.services[at].datachange {
      assert sys.space.OwnedBy(h, at);
    }
  }

  lemma StaysDeleteSubscription(sys: R.System, at: nat, sub: nat, mid: nat, h: nat, k: Key)
    requires R.Consistent(sys) && ItemAt(sys, sub, mid, h, k) && at != sub
    ensures Stays(sys, R.Step(sys, R.DeleteSubscription(at)), sub, mid, h, k)
  {
    OnlyThere(sys, at, sub, mid, h, k);
  }

  lemma StaysCreate(sys: R.System, at: nat, key: Key, template: Template, sub: nat, mid: nat, h: nat, k: Key)
    requires R.Consistent(sys) && ItemAt(sys, sub, mid, h, k)
    ensures Stays(sys, R.Step(sys, R.CreateDataItem(at, key, template)), sub, mid, h, k)
  {
    OnlyThere(sys, at, sub, mid, h, k);
    hide R.Consistent;
    if at in sys.services {
      KnownHandle(sys.space, sys.services[at], at, key, template, h, k);
      if at == sub {
        KnownItem(sys.space, sys.services[at], at, key, template, mid, h);
      }
      hide CreateDataChange;
    }
  }

  lemma KnownHandle(space: Space, s: Service, sub: nat, key: Key, template: Template, h: nat, k: Key)
    requires h in space.handles && h <= space.callbackCounter && space.handles[h] == k && k in space.attributes
    ensures var space' := CreateDataChange(space, s, sub, key, template).0;
            h in space'.handles && space'.handles[h] == k && k in space'.attributes
  {
  }

  lemma StaysCreateEvent(sys: R.System, at: nat, node: NodeId, template: Template, hasFilter: bool, sub: nat, mid: nat,
                         h: nat, k: Key)
    requires R.Consistent(sys) && ItemAt(sys, sub, mid, h, k)
    ensures Stays(sys, R.Step(sys, R.CreateEventItem(at, node, template, hasFilter)), sub, mid, h, k)
  {
    OnlyThere(sys, at, sub, mid, h, k);
    hide R.Consistent;
  }

  lemma StaysAddNode(sys: R.System, node: NodeId, values: map<nat, Value>, sub: nat, mid: nat, h: nat, k: Key)
    requires R.Consistent(sys) && ItemAt(sys, sub, mid, h, k)
    ensures Stays(sys, R.Step(sys, R.AddNode(node, values)), sub, mid, h, k)
  {
    OnlyThere(sys, sub, sub, mid, h, k);
    hide R.Consistent;
  }

  lemma StaysWrite(sys: R.System, key: Key, v: Value, sub: nat, mid: nat, h: nat, k: Key)
    requires ItemAt(sys, sub, mid, h, k)
    ensures Stays(sys, R.Step(sys, R.Write(key, v)), sub, mid, h, k)
  {
  }

  lemma StaysCreateSubscription(sys: R.System, lifetime: nat, keepAlive: nat, sub: nat, mid: nat, h: nat, k: Key)
    requires R.Consistent(sys) && ItemAt(sys, sub, mid, h, k)
    ensures Stays(sys, R.Step(sys, R.CreateSubscription(lifetime, keepAlive)), sub, mid, h, k)
  {
  }

  // ----- An event item stays -----

  /** The item is still in the node's list, as it was created. */
  predicate StaysInList(sys: R.System, sys': R.System, sub: nat, mid: nat, n: NodeId)
    requires Listens(sys, sub, mid, Events(n))
  {
    && Listens(sys', sub, mid, Events(n))
    && var (item, item') := (sys.services[sub].items[mid], sys'.services[sub].items[mid]);
    && item' == item.(current := item'.current, previous := item'.previous)
  }

  lemma InListFacts(sys: R.System, sub: nat, mid: nat, n: NodeId)
    requires R.Consistent(sys) && Listens(sys, sub, mid, Events(n))
    ensures mid <= sys.services[sub].counter && NoDuplicates(sys.services[sub].events[n])
            && sub <= sys.subscriptionCounter
  {
  }

  lemma InListDelete(sys: R.System, at: nat, gone: nat, sub: nat, mid: nat, n: NodeId)
    requires R.Consistent(sys) && Listens(sys, sub, mid, Events(n)) && !(at == sub && gone == mid)
    ensures StaysInList(sys, R.Step(sys, R.DeleteItem(at, gone)), sub, mid, n)
  {
    InListFacts(sys, sub, mid, n);
    RemoveFromList(sys.services[sub].events[n], gone);
    hide R.Consistent, Remove;
  }

  lemma InListStays(sys: R.System, r: R.Request, sub: nat, mid: nat, n: NodeId)
    requires R.Consistent(sys) && Listens(sys, sub, mid, Events(n)) && Spares(Request(r), sub, mid)
    ensures StaysInList(sys, R.Step(sys, r), sub, mid, n)
  {
    hide R.Consistent;
    InListFacts(sys, sub, mid, n);
    match r
    case DeleteItem(at, gone) => InListDelete(sys, at, gone, sub, mid, n);
    case CreateDataItem(at, key, template) => InListCreate(sys, at, key, template, sub, mid, n);
    case CreateEventItem(at, node, template, hasFilter) =>
      InListCreateEvent(sys, at, node, template, hasFilter, sub, mid, n);
    case CreateSubscription(_, _) =>
    case DeleteSubscription(_) =>
    case Write(_, _) =>
    case TriggerEvent(_, _) =>
    case AddNode(_, _) =>
  }

  lemma InListCreate(sys: R.System, at: nat, key: Key, template: Template, sub: nat, mid: nat, n: NodeId)
    requires Listens(sys, sub, mid, Events(n)) && mid <= sys.services[sub].counter
    ensures StaysInList(sys, R.Step(sys, R.CreateDataItem(at, key, template)), sub, mid, n)
  {
  }

  lemma InListCreateEvent(sys: R.System, at: nat, node: NodeId, template: Template, hasFilter: bool, sub: nat, mid: nat,
                          n: NodeId)
    requires Listens(sys, sub, mid, Events(n)) && mid <= sys.services[sub].counter
    ensures StaysInList(sys, R.Step(sys, R.CreateEventItem(at, node, template, hasFilter)), sub, mid, n)
  {
  }

  lemma AttributeStays(sys: R.System, r: R.Request, sub: nat, mid: nat, h: nat, k: Key)
    requires R.Consistent(sys) && ItemAt(sys, sub, mid, h, k) && Spares(Request(r), sub, mid)
    ensures Stays(sys, R.Step(sys, r), sub, mid, h, k)
  {
    match r
    case CreateSubscription(l, a) =>
      hide ItemAt;
      StaysCreateSubscription(sys, l, a, sub, mid, h, k);
    case DeleteSubscription(at) => StaysDeleteSubscription(sys, at, sub, mid, h, k);
    case CreateDataItem(at, key, template) => StaysCreate(sys, at, key, template, sub, mid, h, k);
    case CreateEventItem(at, node, template, hasFilter) =>
      StaysCreateEvent(sys, at, node, template, hasFilter, sub, mid, h, k);
    case DeleteItem(at, gone) => StaysDelete(sys, at, gone, sub, mid, h, k);
    case Write(key, v) => StaysWrite(sys, key, v, sub, mid, h, k);
    case TriggerEvent(node, event) =>
    case AddNode(node, values) => StaysAddNode(sys, node, values, sub, mid, h, k);
  }

  /** The item listens on, with its client handle, its filter and the size of its queue. */
  lemma ListenerStays(sys: R.System, r: R.Request, sub: nat, mid: nat, ear: Ear)
    requires R.Consistent(sys) && Listens(sys, sub, mid, ear) && Spares(Request(r), sub, mid)
    ensures Listens(R.Step(sys, r), sub, mid, ear)
    ensures forall t :: ItemIs(sys, sub, mid, t) ==> ItemIs(R.Step(sys, r), sub, mid, t)
  {
    hide R.Consistent, R.Step, ItemAt, At;
    match ear
    case Attribute(h, k) =>
      AttributeStays(sys, r, sub, mid, h, k);
      ItemIsThere(sys, sub, mid, h, k);
      ItemIsThere(R.Step(sys, r), sub, mid, h, k);
    case Events(n) => InListStays(sys, r, sub, mid, n);
  }

  // ----- What a call should queue -----

  /** An absolute deadband holds back what is no further from the value before; nothing else holds back any. */
  predicate PassesFilter(now: Value, was: Value, filter: Option<Deadband>) {
    filter.Some? && filter.value.Absolute? && was.Some? ==>
      && now.Some?
      && ((now.value - was.value) as real > filter.value.value || (was.value - now.value) as real > filter.value.value)
  }

  lemma DeadbandIsFilter(now: Value, was: Value, filter: Option<Deadband>)
    ensures DeadbandPasses(now, was, filter) <==> PassesFilter(now, was, filter)
  {
  }

  /**
   For an attribute, the new value of a write there that changes it and passes the deadband; for the
   events of a node, every event triggered there. Both name the client's handle.
   */
  function Passed(e: Engine, c: Call, t: Template, ear: Ear): seq<Content> {
    if !c.Request? then []
    else
      var r := c.request;
      match ear
      case Attribute(_, k) =>
        if !r.Write? || r.key != k || k !in e.sys.space.attributes then []
        else
          var was := e.sys.space.attributes[k].value;
          if r.value != was && PassesFilter(r.value, was, t.filter) then [Change(t.clientHandle, r.value)] else []
      case Events(n) =>
        if r.TriggerEvent? && r.node == n then [Occurrence(t.clientHandle, r.event)] else []
  }

  function Pending(e: Engine, sub: nat, mid: nat, kind: S.Kind): seq<Content>
    requires sub in e.subs
  {
    e.subs[sub].Pending(kind, mid)
  }

  lemma DeliverOne(queues: S.Queues<Content>, notices: map<nat, Notice>, mid: nat, queued: seq<Content>, q: nat)
    requires Filled(queues) && (if mid in queues then queues[mid] else []) == S.LastN(queued, q)
    requires mid in notices ==> notices[mid].size == q
    ensures var after := Deliver(queues, notices);
            var more := if mid in notices then [Change(notices[mid].clientHandle, notices[mid].value)] else [];
            (if mid in after then after[mid] else []) == S.LastN(queued + more, q)
  {
    if mid in notices {
      S.EnqueueKeepsLast(queues, mid, Change(notices[mid].clientHandle, notices[mid].value), q, queued);
    } else {
      assert queued + [] == queued;
    }
  }

  lemma DeliverEventOne(queues: S.Queues<Content>, s: Service, node: NodeId, event: nat, mid: nat, queued: seq<Content>)
    requires mid in s.items && Filled(queues)
    requires (if mid in queues then queues[mid] else []) == S.LastN(queued, s.items[mid].queueSize)
    ensures var after := DeliverEvent(queues, s, node, event);
            var listed := node in s.events && mid in s.events[node];
            var more := if listed then [Occurrence(s.items[mid].clientHandle, event)] else [];
            (if mid in after then after[mid] else []) == S.LastN(queued + more, s.items[mid].queueSize)
  {
    if node in s.events && mid in s.events[node] {
      S.EnqueueKeepsLast(queues, mid, Occurrence(s.items[mid].clientHandle, event), s.items[mid].queueSize, queued);
    } else {
      assert queued + [] == queued;
    }
  }

  lemma NoticeOfItem(s: Service, hs: set<nat>, v: Value, mid: nat)
    requires mid in s.items
    ensures var notices := WriteNotices(s, hs, v);
            && (mid in notices <==>
                  && HandlesOf(s.datachange, mid) * hs != {}
                  && DeadbandPasses(v, s.items[mid].current, s.items[mid].filter))
            && (mid in notices ==> notices[mid] == Notice(mid, s.items[mid].clientHandle, v, s.items[mid].queueSize))
  {
  }

  /** What soundness says of one item. */
  lemma SoundItem(e: Engine, sub: nat, mid: nat, h: nat, k: Key, key: Key)
    requires Sound(e) && ItemAt(e.sys, sub, mid, h, k)
    ensures sub in e.subs && sub in e.sys.services && mid in e.sys.services[sub].items && k in e.sys.space.attributes
    ensures Filled(e.subs[sub].datachanges)
    ensures e.sys.services[sub].items[mid].current == e.sys.space.attributes[k].value
    ensures key in e.sys.space.attributes ==>
              (HandlesOf(e.sys.services[sub].datachange, mid) * e.sys.space.attributes[key].callbacks.Keys != {} <==>
               key == k)
    ensures k.node in e.sys.space.nodes
  {
    HandleIsThere(e.sys, sub, mid, h, k, if key in e.sys.space.attributes then key else k);
  }

  lemma WriteQueues(e: Engine, key: Key, v: Value, sub: nat, mid: nat, h: nat, k: Key, t: Template,
                    queued: seq<Content>)
    requires Sound(e) && ItemAt(e.sys, sub, mid, h, k) && ItemIs(e.sys, sub, mid, t)
    requires sub in e.subs && Pending(e, sub, mid, S.DataChange) == S.LastN(queued, t.queueSize)
    ensures var after := QueuesAfter(e, R.Write(key, v));
            sub in after && after[sub].Pending(S.DataChange, mid) ==
              S.LastN(queued + Passed(e, Request(R.Write(key, v)), t, Ear.Attribute(h, k)), t.queueSize)
  {
    hide Sound, Deliver, Filled, S.LastN, WriteNotices, HandlesOf, DeadbandPasses, PassesFilter, QueuesAfter;
    SoundItem(e, sub, mid, h, k, key);
    WriteAfter(e, key, v, sub);
    var (s, item) := (e.sys.services[sub], e.sys.services[sub].items[mid]);
    if e.sys.space.StatusOf(key) == Good && e.sys.space.attributes[key].value != v {
      var hs := e.sys.space.attributes[key].callbacks.Keys;
      NoticeOfItem(s, hs, v, mid);
      DeadbandIsFilter(v, item.current, item.filter);
      DeliverOne(e.subs[sub].datachanges, WriteNotices(s, hs, v), mid, queued, item.queueSize);
    } else {
      assert queued + [] == queued;
    }
  }

  lemma CreateAfter(e: Engine, at: nat, key: Key, template: Template, sub: nat, mid: nat)
    requires sub in e.subs && sub in e.sys.services && mid <= e.sys.services[sub].counter
    ensures var after := QueuesAfter(e, R.CreateDataItem(at, key, template));
            sub in after &&
            (after[sub] == e.subs[sub] ||
             exists notices: map<nat, Notice> :: mid !in notices &&
               after[sub] == e.subs[sub].(datachanges := Deliver(e.subs[sub].datachanges, notices)))
  {
    hide Deliver;
    if at == sub {
      var notice := CreateDataChange(e.sys.space, e.sys.services[at], at, key, template).2.notice;
      if notice.Some? {
        assert mid !in map[notice.value.mid := notice.value];
      }
    }
  }

  lemma CreateQueues(e: Engine, at: nat, key: Key, template: Template, sub: nat, mid: nat, queued: seq<Content>, q: nat)
    requires sub in e.subs && sub in e.sys.services && mid <= e.sys.services[sub].counter
             && Filled(e.subs[sub].datachanges)
    requires Pending(e, sub, mid, S.DataChange) == S.LastN(queued, q)
    ensures var after := QueuesAfter(e, R.CreateDataItem(at, key, template));
            sub in after && after[sub].Pending(S.DataChange, mid) == S.LastN(queued, q)
  {
    hide Deliver, Filled, S.LastN, QueuesAfter;
    CreateAfter(e, at, key, template, sub, mid);
    var after := QueuesAfter(e, R.CreateDataItem(at, key, template));
    if after[sub] != e.subs[sub] {
      var notices: map<nat, Notice> :| mid !in notices &&
        after[sub] == e.subs[sub].(datachanges := Deliver(e.subs[sub].datachanges, notices));
      DeliverOne(e.subs[sub].datachanges, notices, mid, queued, q);
      assert queued + [] == queued;
    }
  }

  /** What soundness says of any item that listens. */
  lemma SoundListener(e: Engine, sub: nat, mid: nat, ear: Ear)
    requires Sound(e) && Listens(e.sys, sub, mid, ear)
    ensures sub in e.subs && sub in e.sys.services && mid in e.sys.services[sub].items && R.Consistent(e.sys)
    ensures mid <= e.sys.services[sub].counter && sub <= e.sys.subscriptionCounter
    ensures Filled(e.subs[sub].datachanges) && Filled(e.subs[sub].events)
  {
  }

  /** Its place in a list is its only one. */
  lemma OneList(e: Engine, sub: nat, mid: nat, n: NodeId, node: NodeId)
    requires Sound(e) && Listens(e.sys, sub, mid, Events(n))
    ensures node in e.sys.services[sub].events && mid in e.sys.services[sub].events[node] <==> node == n
  {
    if node in e.sys.services[sub].events && mid in e.sys.services[sub].events[node] {
      assert At(e.sys.services[sub], mid, InList(node));
    }
  }

  lemma EventQueues(e: Engine, node: NodeId, event: nat, sub: nat, mid: nat, n: NodeId, t: Template,
                    queued: seq<Content>)
    requires Sound(e) && Listens(e.sys, sub, mid, Events(n)) && ItemIs(e.sys, sub, mid, t)
    requires sub in e.subs && Pending(e, sub, mid, S.EventField) == S.LastN(queued, t.queueSize)
    ensures var after := QueuesAfter(e, R.TriggerEvent(node, event));
            sub in after && after[sub].Pending(S.EventField, mid) ==
              S.LastN(queued + Passed(e, Request(R.TriggerEvent(node, event)), t, Events(n)), t.queueSize)
  {
    hide Sound, DeliverEvent, Filled, S.LastN, R.Consistent;
    SoundListener(e, sub, mid, Events(n));
    OneList(e, sub, mid, n, node);
    DeliverEventOne(e.subs[sub].events, e.sys.services[sub], node, event, mid, queued);
  }

  /** A request that says nothing to the item leaves its queue alone. */
  lemma OtherQueues(e: Engine, r: R.Request, sub: nat, mid: nat, ear: Ear, t: Template)
    requires sub in e.subs && sub in e.sys.services && sub <= e.sys.subscriptionCounter
             && r != R.DeleteSubscription(sub)
    requires !r.CreateDataItem? && (ear.Attribute? ==> !r.Write?) && (ear.Events? ==> !r.TriggerEvent?)
    ensures sub in QueuesAfter(e, r)
            && QueuesAfter(e, r)[sub].Pending(ear.Kind(), mid) == e.subs[sub].Pending(ear.Kind(), mid)
    ensures Passed(e, Request(r), t, ear) == []
  {
    hide Deliver, DeliverEvent, WriteNotices, CreateDataChange;
  }

  lemma CreateElsewhere(e: Engine, at: nat, key: Key, template: Template, sub: nat, mid: nat)
    requires sub in e.subs
    ensures var after := QueuesAfter(e, R.CreateDataItem(at, key, template));
            sub in after && after[sub].Pending(S.EventField, mid) == e.subs[sub].Pending(S.EventField, mid)
  {
    hide Deliver, CreateDataChange;
  }

  /** After a request the item's queue is what it was, with what the request should queue. */
  lemma RequestQueues(e: Engine, r: R.Request, sub: nat, mid: nat, ear: Ear, t: Template, queued: seq<Content>)
    requires Sound(e) && Listens(e.sys, sub, mid, ear) && ItemIs(e.sys, sub, mid, t) && Spares(Request(r), sub, mid)
    requires sub in e.subs && Pending(e, sub, mid, ear.Kind()) == S.LastN(queued, t.queueSize)
    ensures sub in QueuesAfter(e, r) && QueuesAfter(e, r)[sub].Pending(ear.Kind(), mid) ==
              S.LastN(queued + Passed(e, Request(r), t, ear), t.queueSize)
  {
    hide Sound, S.LastN, QueuesAfter, R.Consistent, Filled;
    SoundListener(e, sub, mid, ear);
    assert queued + [] == queued;
    if r.CreateDataItem? {
      if ear.Attribute? {
        CreateQueues(e, r.sub, r.key, r.template, sub, mid, queued, t.queueSize);
      } else {
        CreateElsewhere(e, r.sub, r.key, r.template, sub, mid);
      }
    } else if r.Write? && ear.Attribute? {
      WriteQueues(e, r.key, r.value, sub, mid, ear.handle, ear.key, t, queued);
    } else if r.TriggerEvent? && ear.Events? {
      EventQueues(e, r.node, r.event, sub, mid, ear.node, t, queued);
    } else {
      OtherQueues(e, r, sub, mid, ear, t);
    }
  }

  // ----- From causes to results -----

  /** The result that a call hands to the callback of this subscription. */
  predicate Publishes(out: Out, sub: nat) {
    out.Some? && out.value.0 == sub
  }

  /** The item listens and its queue holds the last of these. */
  ghost predicate Holds(e: Engine, sub: nat, mid: nat, ear: Ear, t: Template, queued: seq<Content>) {
    && Sound(e) && Listens(e.sys, sub, mid, ear) && sub in e.subs
    && ItemIs(e.sys, sub, mid, t)
    && Pending(e, sub, mid, ear.Kind()) == S.LastN(queued, t.queueSize)
  }

  /** A result of the subscription carries the last of these for the item. */
  predicate Carries(out: Out, sub: nat, mid: nat, ear: Ear, t: Template, queued: seq<Content>) {
    Publishes(out, sub) ==> out.value.1.message.Batch(ear.Kind(), mid) == S.LastN(queued, t.queueSize)
  }

  lemma TimerQueues(s: S.State<Content>, mid: nat, kind: S.Kind, q: nat, queued: seq<Content>)
    requires Filled(s.datachanges) && Filled(s.events) && s.Pending(kind, mid) == S.LastN(queued, q)
    ensures var (after, out) := S.Apply(s, S.Clock);
            if out.Some? then out.value.message.Batch(kind, mid) == S.LastN(queued, q) && after.Pending(kind, mid) == []
            else after.Pending(kind, mid) == S.LastN(queued, q)
  {
    hide S.Apply, S.LastN;
    var tick: S.Action<Content> := S.Clock;
    S.QueueStep(s, tick, kind, mid, q, queued);
    assert S.Added(tick, kind, mid) == [];
    assert queued + S.Added(tick, kind, mid) == queued;
    var (after, out) := S.Apply(s, tick);
    assert out.None? ==> after.Pending(kind, mid) == S.LastN(queued + S.Added(tick, kind, mid), q);
  }

  lemma TimerHolds(e: Engine, at: nat, sub: nat, mid: nat, ear: Ear, t: Template, queued: seq<Content>)
    requires Holds(e, sub, mid, ear, t, queued)
    ensures var (after, out) := Step(e, Timer(at));
            && Carries(out, sub, mid, ear, t, queued)
            && Holds(after, sub, mid, ear, t, if Publishes(out, sub) then [] else queued)
  {
    hide Sound, S.LastN, Listens, S.Apply, Filled, R.Consistent;
    StepKeepsSound(e, Timer(at));
    SoundListener(e, sub, mid, ear);
    NothingIsLast(t.queueSize);
    if at == sub {
      TimerQueues(e.subs[sub], mid, ear.Kind(), t.queueSize, queued);
    }
  }

  lemma RequestHolds(e: Engine, r: R.Request, sub: nat, mid: nat, ear: Ear, t: Template, queued: seq<Content>)
    requires Holds(e, sub, mid, ear, t, queued) && Spares(Request(r), sub, mid)
    ensures Holds(Step(e, Request(r)).0, sub, mid, ear, t, queued + Passed(e, Request(r), t, ear))
  {
    hide Sound, S.LastN, Listens, QueuesAfter, R.Step, R.Consistent, Passed, Spares;
    StepKeepsSound(e, Request(r));
    SoundListener(e, sub, mid, ear);
    RequestQueues(e, r, sub, mid, ear, t, queued);
    ListenerStays(e.sys, r, sub, mid, ear);
    ListenerIsThere(R.Step(e.sys, r), sub, mid, ear);
  }

  lemma PublishHolds(e: Engine, acks: seq<(nat, nat)>, sub: nat, mid: nat, ear: Ear, t: Template, queued: seq<Content>)
    requires Holds(e, sub, mid, ear, t, queued)
    ensures Holds(Step(e, Publish(acks)).0, sub, mid, ear, t, queued)
  {
    hide Sound, S.LastN, Listens, R.Consistent;
    StepKeepsSound(e, Publish(acks));
    SoundListener(e, sub, mid, ear);
  }

  /** One call: a result carries what was queued, and anything else queues what it should. */
  lemma CallHolds(e: Engine, c: Call, sub: nat, mid: nat, ear: Ear, t: Template, queued: seq<Content>)
    requires Holds(e, sub, mid, ear, t, queued) && Spares(c, sub, mid)
    ensures var (after, out) := Step(e, c);
            && Carries(out, sub, mid, ear, t, queued)
            && Holds(after, sub, mid, ear, t, if Publishes(out, sub) then [] else queued + Passed(e, c, t, ear))
  {
    hide Holds;
    assert queued + [] == queued;
    match c
    case Request(r) => RequestHolds(e, r, sub, mid, ear, t, queued);
    case Timer(at) => TimerHolds(e, at, sub, mid, ear, t, queued);
    case Publish(acks) => PublishHolds(e, acks, sub, mid, ear, t, queued);
  }

  /** What should be queued since the last result of the subscription; before any result it begins with `first`. */
  function Since(e: Engine, calls: seq<Call>, sub: nat, t: Template, ear: Ear, first: seq<Content>): seq<Content> {
    if calls == [] then first
    else
      var n := |calls| - 1;
      var before := Run(e, calls[..n]).0;
      if Publishes(Step(before, calls[n]).1, sub) then []
      else Since(e, calls[..n], sub, t, ear, first) + Passed(before, calls[n], t, ear)
  }

  predicate AllCarry(e: Engine, calls: seq<Call>, outs: seq<Out>, sub: nat, mid: nat, ear: Ear, t: Template,
                     first: seq<Content>)
    requires |outs| == |calls|
  {
    forall i | 0 <= i < |outs| :: Carries(outs[i], sub, mid, ear, t, Since(e, calls[..i], sub, t, ear, first))
  }

  lemma CallsHold(e: Engine, calls: seq<Call>, sub: nat, mid: nat, ear: Ear, t: Template, first: seq<Content>)
    requires calls != [] && Spares(calls[|calls| - 1], sub, mid)
    requires var before := calls[..|calls| - 1];
             Holds(Run(e, before).0, sub, mid, ear, t, Since(e, before, sub, t, ear, first))
    ensures var n := |calls| - 1;
            && Holds(Run(e, calls).0, sub, mid, ear, t, Since(e, calls, sub, t, ear, first))
            && Carries(Run(e, calls).1[n], sub, mid, ear, t, Since(e, calls[..n], sub, t, ear, first))
  {
    var n := |calls| - 1;
    var before := Run(e, calls[..n]).0;
    var queued := Since(e, calls[..n], sub, t, ear, first);
    assert Run(e, calls) == (Step(before, calls[n]).0, Run(e, calls[..n]).1 + [Step(before, calls[n]).1]);
    assert Since(e, calls, sub, t, ear, first) ==
           if Publishes(Step(before, calls[n]).1, sub) then [] else queued + Passed(before, calls[n], t, ear);
    hide Run, Step, Holds, Carries, Passed, Since, Spares;
    CallHolds(before, calls[n], sub, mid, ear, t, queued);
  }

  lemma NoCallsHold(e: Engine, sub: nat, mid: nat, ear: Ear, t: Template, first: seq<Content>)
    requires Holds(e, sub, mid, ear, t, first)
    ensures Holds(Run(e, []).0, sub, mid, ear, t, Since(e, [], sub, t, ear, first))
    ensures AllCarry(e, [], Run(e, []).1, sub, mid, ear, t, first)
  {
    hide Holds, Carries;
  }

  lemma SentStays(e: Engine, calls: seq<Call>)
    requires calls != []
    ensures Run(e, calls).1[..|calls| - 1] == Run(e, calls[..|calls| - 1]).1
  {
    hide Step;
  }

  lemma AllCarryExtends(e: Engine, calls: seq<Call>, sub: nat, mid: nat, ear: Ear, t: Template, first: seq<Content>)
    requires calls != []
    requires var n := |calls| - 1;
             && AllCarry(e, calls[..n], Run(e, calls[..n]).1, sub, mid, ear, t, first)
             && Carries(Run(e, calls).1[n], sub, mid, ear, t, Since(e, calls[..n], sub, t, ear, first))
    ensures AllCarry(e, calls, Run(e, calls).1, sub, mid, ear, t, first)
  {
    hide Carries, Since, Run;
    var n := |calls| - 1;
    var (outs, sent) := (Run(e, calls).1, Run(e, calls[..n]).1);
    SentStays(e, calls);
    forall i | 0 <= i < |outs| ensures Carries(outs[i], sub, mid, ear, t, Since(e, calls[..i], sub, t, ear, first)) {
      if i < n {
        assert outs[i] == sent[i] && calls[..n][..i] == calls[..i];
      }
    }
  }

  /**
   For an item whose queue holds the last `q` of a list, on every run that does not delete it: each
   result of its subscription carries for it exactly the last `q` of what should have been queued since
   the result before, in order, the first one counting the list as well; and the last `q` of what should
   have been queued since the last result are pending.
   */
  lemma {:induction false} CausesReachResults(e: Engine, calls: seq<Call>, sub: nat, mid: nat, ear: Ear, t: Template,
                                              first: seq<Content>)
    requires Holds(e, sub, mid, ear, t, first)
    requires forall c | c in calls :: Spares(c, sub, mid)
    ensures Holds(Run(e, calls).0, sub, mid, ear, t, Since(e, calls, sub, t, ear, first))
    ensures AllCarry(e, calls, Run(e, calls).1, sub, mid, ear, t, first)
  {
    hide Holds, Carries, Spares, Step, Run, Since, AllCarry;
    if calls == [] {
      NoCallsHold(e, sub, mid, ear, t, first);
    } else {
      var n := |calls| - 1;
      assert calls[n] in calls && forall c | c in calls[..n] :: c in calls;
      CausesReachResults(e, calls[..n], sub, mid, ear, t, first);
      CallsHold(e, calls, sub, mid, ear, t, first);
      AllCarryExtends(e, calls, sub, mid, ear, t, first);
    }
  }

  lemma NothingIsLast(q: nat)
    ensures S.LastN<Content>([], q) == []
  {
  }

  // ----- Items created in a run -----

  /** Nothing is queued yet for the next item of a subscription. */
  lemma NextItem(e: Engine, sub: nat)
    requires Sound(e) && sub in e.subs
    ensures sub in e.sys.services
    ensures var mid := e.sys.services[sub].counter + 1;
            mid !in e.subs[sub].datachanges && mid !in e.subs[sub].events
  {
    hide R.Consistent, Current, Filled;
  }

  lemma NewDataItemQueue(e: Engine, sub: nat, key: Key, template: Template)
    requires sub in e.subs && sub in e.sys.services && e.sys.space.StatusOf(key) == Good
    requires e.sys.services[sub].counter + 1 !in e.subs[sub].datachanges
    ensures var c := R.CreateDataItem(sub, key, template);
            var mid := e.sys.services[sub].counter + 1;
            && sub in QueuesAfter(e, c)
            && QueuesAfter(e, c)[sub].Pending(S.DataChange, mid) ==
               [Change(template.clientHandle, e.sys.space.attributes[key].value)]
  {
    var (mid, v) := (e.sys.services[sub].counter + 1, e.sys.space.attributes[key].value);
    var notice := CreateDataChange(e.sys.space, e.sys.services[sub], sub, key, template).2.notice;
    assert notice == Some(Notice(mid, template.clientHandle, v, template.queueSize));
    assert mid in map[mid := notice.value];
  }

  lemma NewDataItemListens(sys: R.System, sub: nat, key: Key, template: Template)
    requires sub in sys.services && sys.space.StatusOf(key) == Good
    ensures var sys' := R.Step(sys, R.CreateDataItem(sub, key, template));
            var mid := sys.services[sub].counter + 1;
            && Listens(sys', sub, mid, Ear.Attribute(sys.space.callbackCounter + 1, key))
            && ItemIs(sys', sub, mid, template)
  {
  }

  /** A new data-change item listens to its attribute, with the attribute's value queued. */
  lemma NewDataItemHolds(e: Engine, sub: nat, key: Key, template: Template)
    requires Sound(e) && sub in e.subs && e.sys.space.StatusOf(key) == Good
    ensures sub in e.sys.services
    ensures Holds(Step(e, Request(R.CreateDataItem(sub, key, template))).0, sub, e.sys.services[sub].counter + 1,
                  Ear.Attribute(e.sys.space.callbackCounter + 1, key), template,
                  [Change(template.clientHandle, e.sys.space.attributes[key].value)])
  {
    hide Sound, R.Step, QueuesAfter, Listens, S.LastN;
    StepKeepsSound(e, Request(R.CreateDataItem(sub, key, template)));
    NextItem(e, sub);
    NewDataItemQueue(e, sub, key, template);
    NewDataItemListens(e.sys, sub, key, template);
    ListenerIsThere(R.Step(e.sys, R.CreateDataItem(sub, key, template)), sub, e.sys.services[sub].counter + 1,
                    Ear.Attribute(e.sys.space.callbackCounter + 1, key));
    OneIsLast(Change(template.clientHandle, e.sys.space.attributes[key].value), template.queueSize);
  }

  lemma OneIsLast(c: Content, q: nat)
    ensures S.LastN([c], q) == [c]
  {
  }

  /** The lowest bit of the node's event notifier is set. */
  predicate NotifiesEvents(space: Space, node: NodeId) {
    var k := Key(node, EVENT_NOTIFIER);
    node in space.nodes && k in space.attributes &&
    space.attributes[k].value.Some? && space.attributes[k].value.value % 2 == 1
  }

  /** A new event item listens to its node, with nothing queued. */
  lemma NewEventItemHolds(e: Engine, sub: nat, node: NodeId, template: Template)
    requires Sound(e) && sub in e.subs && NotifiesEvents(e.sys.space, node)
    ensures sub in e.sys.services
    ensures Holds(Step(e, Request(R.CreateEventItem(sub, node, template, true))).0, sub,
                  e.sys.services[sub].counter + 1,
                  Events(node), template, [])
  {
    hide Sound, S.LastN, R.Step, Listens;
    StepKeepsSound(e, Request(R.CreateEventItem(sub, node, template, true)));
    NextItem(e, sub);
    NewEventItemListens(e.sys, sub, node, template);
    ListenerIsThere(R.Step(e.sys, R.CreateEventItem(sub, node, template, true)), sub, e.sys.services[sub].counter + 1,
                    Events(node));
    NothingIsLast(template.queueSize);
  }

  lemma NewEventItemListens(sys: R.System, sub: nat, node: NodeId, template: Template)
    requires sub in sys.services && NotifiesEvents(sys.space, node)
    ensures var sys' := R.Step(sys, R.CreateEventItem(sub, node, template, true));
            var mid := sys.services[sub].counter + 1;
            && Listens(sys', sub, mid, Events(node))
            && ItemIs(sys', sub, mid, template)
  {
  }

  /**
   From the start of the engine: a data-change item created in a run. Its first result begins with the
   attribute's value at its creation; from then on every result of the subscription carries the last
   `queueSize` of the values written to the attribute since the result before that changed it and passed
   the deadband.
   */
  lemma WritesReachPublish(start: Engine, before: seq<Call>, sub: nat, key: Key, template: Template, calls: seq<Call>)
    requires Initial(start)
    requires var e := Run(start, before).0;
             && sub in e.subs && e.sys.space.StatusOf(key) == Good
             && sub in e.sys.services && forall c | c in calls :: Spares(c, sub, e.sys.services[sub].counter + 1)
    ensures var e := Run(start, before).0;
            var created := Step(e, Request(R.CreateDataItem(sub, key, template))).0;
            var mid := e.sys.services[sub].counter + 1;
            var ear := Ear.Attribute(e.sys.space.callbackCounter + 1, key);
            var first := [Change(template.clientHandle, e.sys.space.attributes[key].value)];
            && Holds(Run(created, calls).0, sub, mid, ear, template,
                     Since(created, calls, sub, template, ear, first))
            && AllCarry(created, calls, Run(created, calls).1, sub, mid, ear, template, first)
  {
    hide Run, Step, Sound, Holds, Spares, AllCarry;
    RunsFromStartAreSound(start, before);
    var e := Run(start, before).0;
    NewDataItemHolds(e, sub, key, template);
    CausesReachResults(Step(e, Request(R.CreateDataItem(sub, key, template))).0, calls, sub,
                       e.sys.services[sub].counter + 1,
                       Ear.Attribute(e.sys.space.callbackCounter + 1, key), template,
                       [Change(template.clientHandle, e.sys.space.attributes[key].value)]);
  }

  /**
   An event item created in a run: every result of its subscription carries the last `queueSize` of the
   events triggered at its node since the result before.
   */
  lemma EventsReachPublish(start: Engine, before: seq<Call>, sub: nat, node: NodeId, template: Template,
                           calls: seq<Call>)
    requires Initial(start)
    requires var e := Run(start, before).0;
             && sub in e.subs && NotifiesEvents(e.sys.space, node)
             && sub in e.sys.services && forall c | c in calls :: Spares(c, sub, e.sys.services[sub].counter + 1)
    ensures var e := Run(start, before).0;
            var created := Step(e, Request(R.CreateEventItem(sub, node, template, true))).0;
            var mid := e.sys.services[sub].counter + 1;
            && Holds(Run(created, calls).0, sub, mid, Events(node), template,
                     Since(created, calls, sub, template, Events(node), []))
            && AllCarry(created, calls, Run(created, calls).1, sub, mid, Events(node), template, [])
  {
    hide Run, Step, Sound, Holds, Spares, AllCarry;
    RunsFromStartAreSound(start, before);
    var e := Run(start, before).0;
    NewEventItemHolds(e, sub, node, template);
    CausesReachResults(Step(e, Request(R.CreateEventItem(sub, node, template, true))).0, calls, sub,
                       e.sys.services[sub].counter + 1, Events(node), template, []);
  }
}
