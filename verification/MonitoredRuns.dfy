/** All subscriptions of a server over one address space, and their runs. */
module MonitoredRuns {
  import opened NodeIds
  import opened MonitoredItems

  datatype System = System(space: Space, services: map<nat, Service>, subscriptionCounter: nat)

  datatype Request =
    | CreateSubscription(lifetimeCount: nat, maxKeepAliveCount: nat)
    | DeleteSubscription(sub: nat)
    | CreateDataItem(sub: nat, key: Key, template: Template)
    | CreateEventItem(sub: nat, node: NodeId, template: Template, hasFilter: bool)
    | DeleteItem(sub: nat, mid: nat)
    | Write(key: Key, value: Value)
    | TriggerEvent(node: NodeId, event: nat)
    | AddNode(node: NodeId, values: map<nat, Value>)

  /** The items under one of the handles see the new value. */
  function Fire(s: Service, hs: set<nat>, v: Value): Service {
    s.(items := map mid | mid in s.items ::
       if HandlesOf(s.datachange, mid) * hs != {} then Observe(s.items[mid], v) else s.items[mid])
  }

  /** Callbacks are called only when the value changes. */
  function WriteValue(sys: System, k: Key, v: Value): System {
    if sys.space.StatusOf(k) != Good then sys
    else
      var a := sys.space.attributes[k];
      sys.(space := SetValue(sys.space, k, v),
           services := if a.value == v then sys.services
                       else map sub | sub in sys.services :: Fire(sys.services[sub], a.callbacks.Keys, v))
  }

  function Step(sys: System, r: Request): System {
    match r
    case CreateSubscription(_, _) =>
      var sub := sys.subscriptionCounter + 1;
      sys.(services := sys.services[sub := EMPTY_SERVICE], subscriptionCounter := sub)
    case DeleteSubscription(sub) =>
      if sub !in sys.services then sys
      else sys.(space := DeleteAll(sys.space, sys.services[sub]).0, services := sys.services - {sub})
    case CreateDataItem(sub, k, template) =>
      if sub !in sys.services then sys
      else
        var (space, s, _) := CreateDataChange(sys.space, sys.services[sub], sub, k, template);
        sys.(space := space, services := sys.services[sub := s])
    case CreateEventItem(sub, node, template, hasFilter) =>
      if sub !in sys.services then sys
      else
        sys.(services := sys.services[sub := CreateEvents(sys.space, sys.services[sub], node, template, hasFilter).0])
    case DeleteItem(sub, mid) =>
      if sub !in sys.services then sys
      else
        var (space, s, _) := Delete(sys.space, sys.services[sub], mid);
        sys.(space := space, services := sys.services[sub := s])
    case Write(k, v) => WriteValue(sys, k, v)
    case TriggerEvent(_, _) => sys
    case AddNode(node, values) => sys.(space := AddAttributes(sys.space, node, values))
  }

  function Run(sys: System, requests: seq<Request>): System
    decreases |requests|
  {
    if requests == [] then sys else Run(Step(sys, requests[0]), requests[1..])
  }

  /** The server before any subscription. */
  ghost predicate Initial(sys: System) {
    sys.space.Valid() && sys.space.handles == map[] && sys.services == map[]
  }

  ghost predicate Consistent(sys: System) {
    && sys.space.Valid()
    && (forall sub | sub in sys.services ::
          sub <= sys.subscriptionCounter && Placed(sys.services[sub]) && Linked(sys.space, sys.services[sub], sub))
    && (forall h, sub | sys.space.OwnedBy(h, sub) :: sub in sys.services)
  }

  /** The services and the space change for one subscription only. */
  lemma OneChanges(sys: System, space': Space, sub: nat, s': Service)
    requires Consistent(sys) && sub in sys.services
    requires space'.Valid() && Placed(s') && Linked(space', s', sub)
    requires forall h, other | other != sub :: space'.OwnedBy(h, other) <==> sys.space.OwnedBy(h, other)
    ensures Consistent(sys.(space := space', services := sys.services[sub := s']))
  {
    hide Placed, Space.Valid, Space.OwnedBy;
  }

  lemma SetValueKeeps(space: Space, k: Key, v: Value)
    requires space.Valid() && k in space.attributes
    ensures SetValue(space, k, v).Valid()
    ensures forall h, sub :: SetValue(space, k, v).OwnedBy(h, sub) <==> space.OwnedBy(h, sub)
  {
  }

  lemma FireKeeps(s: Service, hs: set<nat>, v: Value)
    requires Placed(s)
    ensures Placed(Fire(s, hs, v)) && Fire(s, hs, v).datachange == s.datachange
  {
    hide Placed;
    PlacedSame(s, Fire(s, hs, v));
  }

  lemma WriteKeeps(sys: System, k: Key, v: Value)
    requires Consistent(sys)
    ensures Consistent(WriteValue(sys, k, v))
  {
    if sys.space.StatusOf(k) == Good {
      hide Space.Valid, Space.OwnedBy, Placed, SetValue, Fire;
      SetValueKeeps(sys.space, k, v);
      forall s, hs | Placed(s)
        ensures Placed(Fire(s, hs, v)) && Fire(s, hs, v).datachange == s.datachange
      {
        FireKeeps(s, hs, v);
      }
    }
  }

  lemma AddNodeKeeps(sys: System, node: NodeId, values: map<nat, Value>)
    requires Consistent(sys)
    ensures Consistent(Step(sys, AddNode(node, values)))
  {
    hide Space.Valid, Space.OwnedBy, Placed, Linked, AddAttributes, Consistent;
    assert sys.space.Valid() by { SpaceIsValid(sys); }
    AddAttributesKeeps(sys.space, node, values);
    SpaceChanges(sys, AddAttributes(sys.space, node, values));
  }

  lemma SpaceIsValid(sys: System)
    requires Consistent(sys)
    ensures sys.space.Valid()
  {
  }

  /** Only the space changes, and no callback in it. */
  lemma SpaceChanges(sys: System, space': Space)
    requires Consistent(sys) && space'.Valid()
    requires forall h, sub :: space'.OwnedBy(h, sub) <==> sys.space.OwnedBy(h, sub)
    ensures Consistent(sys.(space := space'))
  {
    hide Space.Valid, Space.OwnedBy, Placed;
  }

  lemma AddAttributesKeeps(space: Space, node: NodeId, values: map<nat, Value>)
    requires space.Valid()
    ensures AddAttributes(space, node, values).Valid()
    ensures forall h, sub :: AddAttributes(space, node, values).OwnedBy(h, sub) <==> space.OwnedBy(h, sub)
  {
    var space' := AddAttributes(space, node, values);
    forall k
      ensures k in space.attributes ==> k in space'.attributes && space'.attributes[k] == space.attributes[k]
      ensures k in space'.attributes && k !in space.attributes ==>
              space'.attributes[k].callbacks == map[] && k.node in space'.nodes
    {
    }
    hide AddAttributes;
    assert space'.handles == space.handles && space'.callbackCounter == space.callbackCounter
           && space.nodes <= space'.nodes by {
      AddAttributesSame(space, node, values);
    }
  }

  lemma AddAttributesSame(space: Space, node: NodeId, values: map<nat, Value>)
    ensures var space' := AddAttributes(space, node, values);
            space'.handles == space.handles && space'.callbackCounter == space.callbackCounter
              && space.nodes <= space'.nodes
  {
  }

  lemma CreateSubscriptionKeeps(sys: System, lifetimeCount: nat, maxKeepAliveCount: nat)
    requires Consistent(sys)
    ensures Consistent(Step(sys, CreateSubscription(lifetimeCount, maxKeepAliveCount)))
  {
    hide Space.Valid;
    assert Placed(EMPTY_SERVICE);
  }

  lemma DeleteSubscriptionKeeps(sys: System, sub: nat)
    requires Consistent(sys)
    ensures Consistent(Step(sys, DeleteSubscription(sub)))
  {
    if sub in sys.services {
      DropHandlesKeeps(sys.space, sys.services[sub].datachange.Keys);
      hide Space.Valid, Space.OwnedBy, Placed, DropHandles;
    }
  }

  lemma StepKeeps(sys: System, r: Request)
    requires Consistent(sys)
    ensures Consistent(Step(sys, r))
  {
    match r
    case CreateSubscription(l, k) => CreateSubscriptionKeeps(sys, l, k);
    case DeleteSubscription(sub) => DeleteSubscriptionKeeps(sys, sub);
    case CreateDataItem(sub, k, template) =>
      if sub in sys.services {
        CreateDataChangeKeeps(sys.space, sys.services[sub], sub, k, template);
        hide CreateDataChange, Consistent;
        var (space', s', _) := CreateDataChange(sys.space, sys.services[sub], sub, k, template);
        OneChanges(sys, space', sub, s');
      }
    case CreateEventItem(sub, node, template, hasFilter) =>
      if sub in sys.services {
        CreateEventsKeepsPlaced(sys.space, sys.services[sub], node, template, hasFilter);
        var s' := CreateEvents(sys.space, sys.services[sub], node, template, hasFilter).0;
        OneChanges(sys, sys.space, sub, s');
      }
    case DeleteItem(sub, mid) =>
      if sub in sys.services {
        DeleteKeeps(sys.space, sys.services[sub], sub, mid);
        hide Delete, Consistent;
        var (space', s', _) := Delete(sys.space, sys.services[sub], mid);
        OneChanges(sys, space', sub, s');
      }
    case Write(k, v) => WriteKeeps(sys, k, v);
    case TriggerEvent(_, _) =>
    case AddNode(node, values) => AddNodeKeeps(sys, node, values);
  }

  /** On every run from a server without subscriptions, all five maps agree. */
  lemma {:induction false} RunKeeps(sys: System, requests: seq<Request>)
    requires Consistent(sys)
    ensures Consistent(Run(sys, requests))
    decreases |requests|
  {
    hide Consistent, Step;
    if requests != [] {
      StepKeeps(sys, requests[0]);
      RunKeeps(Step(sys, requests[0]), requests[1..]);
    }
  }

  lemma AlwaysConsistent(sys: System, requests: seq<Request>)
    requires Initial(sys)
    ensures Consistent(Run(sys, requests))
  {
    assert Consistent(sys);
    RunKeeps(sys, requests);
  }

  /** Stopping a subscription takes exactly its own callbacks out of the space. */
  lemma StopRemovesOwnCallbacks(sys: System, sub: nat)
    requires Consistent(sys) && sub in sys.services
    ensures var after := Step(sys, DeleteSubscription(sub));
            && after.services == sys.services - {sub}
            && DeleteAll(sys.space, sys.services[sub]).1 ==
               sys.services[sub].(items := map[], events := map[], datachange := map[])
            && (forall h, owner :: after.space.OwnedBy(h, owner) <==> sys.space.OwnedBy(h, owner) && owner != sub)
            && (forall k | k in sys.space.attributes ::
                k in after.space.attributes && after.space.attributes[k].value == sys.space.attributes[k].value)
  {
    DropHandlesKeeps(sys.space, sys.services[sub].datachange.Keys);
    forall h, owner
      ensures sys.space.OwnedBy(h, owner) && h !in sys.services[sub].datachange.Keys <==>
              sys.space.OwnedBy(h, owner) && owner != sub
    {
      assert h in sys.services[sub].datachange <==> sys.space.OwnedBy(h, sub);
    }
  }

  /** A write that changes the value reaches exactly the items registered at that attribute. */
  lemma WriteReachesRegistered(sys: System, k: Key, v: Value, sub: nat, mid: nat)
    requires Consistent(sys) && sub in sys.services && mid in sys.services[sub].items
    requires sys.space.StatusOf(k) == Good && sys.space.attributes[k].value != v
    ensures var s, s' := sys.services[sub], WriteValue(sys, k, v).services[sub];
            && mid in s'.items
            && s'.items[mid] == if exists h ::
               At(s, mid, UnderHandle(h)) && h in sys.space.handles && sys.space.handles[h] == k
                                then s.items[mid].(previous := s.items[mid].current, current := v) else s.items[mid]
  {
    var s := sys.services[sub];
    var hs := sys.space.attributes[k].callbacks.Keys;
    if h :| At(s, mid, UnderHandle(h)) && h in sys.space.handles && sys.space.handles[h] == k {
      assert h in HandlesOf(s.datachange, mid) * hs;
    }
  }

  /** A write elsewhere than at an attribute, or of the value that is there, changes nothing and reaches no item. */
  lemma WriteOfSameValue(sys: System, k: Key, v: Value)
    requires k.node !in sys.space.nodes || k !in sys.space.attributes || sys.space.attributes[k].value == v
    ensures WriteValue(sys, k, v) == sys
  {
    if k in sys.space.attributes && k.node in sys.space.nodes {
      var a := sys.space.attributes[k];
      assert sys.space.attributes[k := a.(value := v)] == sys.space.attributes;
    }
  }

  /** A new node has the attributes it is added with, and no callbacks; a node that is there keeps its own. */
  lemma AddedAttributes(sys: System, node: NodeId, values: map<nat, Value>, k: Key)
    ensures var after := Step(sys, AddNode(node, values));
            && after.services == sys.services && after.space.handles == sys.space.handles
            && (node in sys.space.nodes ==> after == sys)
            && (node !in sys.space.nodes ==>
                  && after.space.nodes == sys.space.nodes + {node}
                  && (k.node == node && k.attribute in values ==>
                        && k in after.space.attributes
                        && after.space.attributes[k] == Attribute(values[k.attribute], map[]))
                  && (k.node != node ==>
                        && (k in after.space.attributes <==> k in sys.space.attributes)
                        && (k in sys.space.attributes ==> after.space.attributes[k] == sys.space.attributes[k])))
  {
  }

  // ----- Ids are never used twice -----

  /** An item id that has been given out and is not in use. */
  predicate GoneItem(sys: System, sub: nat, mid: nat) {
    && sub <= sys.subscriptionCounter
    && (sub in sys.services ==> mid <= sys.services[sub].counter && mid !in sys.services[sub].items)
  }

  predicate GoneHandle(sys: System, h: nat) {
    h <= sys.space.callbackCounter && h !in sys.space.handles
  }

  lemma GoneForGood(sys: System, r: Request, sub: nat, mid: nat, h: nat)
    ensures GoneItem(sys, sub, mid) ==> GoneItem(Step(sys, r), sub, mid)
    ensures GoneHandle(sys, h) ==> GoneHandle(Step(sys, r), h)
  {
  }

  lemma {:induction false} GoneOnRuns(sys: System, requests: seq<Request>, sub: nat, mid: nat, h: nat)
    ensures GoneItem(sys, sub, mid) ==> GoneItem(Run(sys, requests), sub, mid)
    ensures GoneHandle(sys, h) ==> GoneHandle(Run(sys, requests), h)
    decreases |requests|
  {
    hide GoneItem, GoneHandle, Step;
    if requests != [] {
      GoneForGood(sys, requests[0], sub, mid, h);
      GoneOnRuns(Step(sys, requests[0]), requests[1..], sub, mid, h);
    }
  }

  predicate HasItem(sys: System, sub: nat, mid: nat) {
    sub in sys.services && mid in sys.services[sub].items
  }

  lemma CountersGrow(sys: System, r: Request)
    ensures Step(sys, r).subscriptionCounter >= sys.subscriptionCounter
    ensures Step(sys, r).space.callbackCounter >= sys.space.callbackCounter
    ensures forall sub | sub in sys.services && sub in Step(sys, r).services && sub <= sys.subscriptionCounter ::
              Step(sys, r).services[sub].counter >= sys.services[sub].counter
  {
  }

  /** What an id means never changes: once deleted, an item id or a handle does not come back. */
  lemma {:induction false} NeverReused(sys: System, first: seq<Request>, second: seq<Request>, sub: nat, mid: nat,
                                       h: nat)
    requires Consistent(sys)
    ensures HasItem(sys, sub, mid) && !HasItem(Run(sys, first), sub, mid) ==>
            !HasItem(Run(Run(sys, first), second), sub, mid)
    ensures h in sys.space.handles && h !in Run(sys, first).space.handles ==>
            h !in Run(Run(sys, first), second).space.handles
    decreases |first|
  {
    if first == [] {
    } else {
      var next := Step(sys, first[0]);
      StepKeeps(sys, first[0]);
      DeletedIsGone(sys, first[0], sub, mid, h);
      hide Step, Consistent;
      if (HasItem(sys, sub, mid) && !HasItem(next, sub, mid)) || (h in sys.space.handles && h !in next.space.handles) {
        GoneOnRuns(next, first[1..], sub, mid, h);
        GoneOnRuns(Run(sys, first), second, sub, mid, h);
      }
      NeverReused(next, first[1..], second, sub, mid, h);
    }
  }

  lemma DeletedIsGone(sys: System, r: Request, sub: nat, mid: nat, h: nat)
    requires Consistent(sys)
    ensures HasItem(sys, sub, mid) && !HasItem(Step(sys, r), sub, mid) ==> GoneItem(Step(sys, r), sub, mid)
    ensures h in sys.space.handles && h !in Step(sys, r).space.handles ==> GoneHandle(Step(sys, r), h)
  {
    CountersGrow(sys, r);
    assert h in sys.space.handles ==> h <= sys.space.callbackCounter;
  }
}
