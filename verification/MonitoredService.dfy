/** The objects whose steps MonitoredItems describes: the callback registry and one item service. */
module MonitoredService {
  import opened Wrappers
  import opened NodeIds
  import opened MonitoredItems

  /** The attributes and handles of an AddressSpace. */
  class CallbackRegistry {
    var nodes: set<NodeId>
    var attributes: map<Key, Attribute>
    var callbackCounter: nat
    var handles: map<nat, Key>

    function Model(): Space
      reads this
    {
      Space(nodes, attributes, callbackCounter, handles)
    }

    constructor (nodes: set<NodeId>, attributes: map<Key, Attribute>)
      ensures Model() == Space(nodes, attributes, 200, map[])
    {
      this.nodes, this.attributes := nodes, attributes;
      callbackCounter, handles := 200, map[];
    }

    method AddDatachangeCallback(k: Key, sub: nat) returns (status: Status, handle: nat)
      modifies this`attributes, this`callbackCounter, this`handles
      ensures (Model(), status, handle) == Register(old(Model()), k, sub)
    {
      if k.node !in nodes {
        return BadNodeIdUnknown, 0;
      }
      if k !in attributes {
        return BadAttributeIdInvalid, 0;
      }
      callbackCounter := callbackCounter + 1;
      handle := callbackCounter;
      attributes := attributes[k := attributes[k].(callbacks := attributes[k].callbacks[handle := sub])];
      handles := handles[handle := k];
      status := Good;
    }

    /** The handle is in one attribute at most, so taking it out there takes it out everywhere. */
    method DeleteDatachangeCallback(h: nat)
      requires Model().Valid()
      modifies this`attributes, this`handles
      ensures Model() == DropHandles(old(Model()), {h})
    {
      DropOne(Model(), h);
      if h in handles {
        var k := handles[h];
        handles := handles - {h};
        attributes := attributes[k := attributes[k].(callbacks := attributes[k].callbacks - {h})];
      }
    }

    /** The callbacks to call afterwards: all of the attribute's, if the value changed. */
    method SetAttributeValue(k: Key, v: Value) returns (status: Status, fired: map<nat, nat>)
      modifies this`attributes
      ensures status == old(Model()).StatusOf(k)
      ensures status == Good ==> Model() == SetValue(old(Model()), k, v)
      ensures status == Good ==> fired == if old(attributes[k]).value == v then map[] else old(attributes[k]).callbacks
      ensures status != Good ==> Model() == old(Model()) && fired == map[]
    {
      fired := map[];
      if k.node !in nodes {
        return BadNodeIdUnknown, fired;
      }
      if k !in attributes {
        return BadAttributeIdInvalid, fired;
      }
      var before := attributes[k];
      attributes := attributes[k := before.(value := v)];
      if before.value != v {
        fired := before.callbacks;
      }
      status := Good;
    }
  }

  lemma DropOne(space: Space, h: nat)
    requires space.Valid()
    ensures DropHandles(space, {h}) ==
              if h in space.handles
              then var k := space.handles[h];
                   var callbacks := space.attributes[k].callbacks - {h};
                   space.(attributes := space.attributes[k := space.attributes[k].(callbacks := callbacks)],
                          handles := space.handles - {h})
              else space
  {
    var dropped := DropHandles(space, {h});
    forall k | k in space.attributes && !(h in space.handles && k == space.handles[h])
      ensures dropped.attributes[k] == space.attributes[k]
    {
      assert space.attributes[k].callbacks - {h} == space.attributes[k].callbacks;
    }
    if h !in space.handles {
      assert dropped.attributes == space.attributes && dropped.handles == space.handles;
    } else {
      var k := space.handles[h];
      assert dropped.attributes ==
             space.attributes[k := space.attributes[k].(callbacks := space.attributes[k].callbacks - {h})];
    }
  }

  class MonitoredItemService {
    const aspace: CallbackRegistry
    const sub: nat
    var items: map<nat, Item>
    var events: map<NodeId, seq<nat>>
    var datachange: map<nat, nat>
    var counter: nat

    function Model(): Service
      reads this
    {
      Service(items, events, datachange, counter)
    }

    /** The maps agree with each other and with the registry. */
    ghost predicate Valid()
      reads this, aspace
    {
      aspace.Model().Valid() && Placed(Model()) && Linked(aspace.Model(), Model(), sub)
    }

    constructor (aspace: CallbackRegistry, sub: nat)
      ensures this.aspace == aspace && this.sub == sub && Model() == EMPTY_SERVICE
    {
      this.aspace, this.sub := aspace, sub;
      items, events, datachange, counter := map[], map[], map[], 111;
    }

    method CreateEventsItem(node: NodeId, template: Template, hasFilter: bool) returns (r: Created)
      modifies this
      ensures (Model(), r) == CreateEvents(aspace.Model(), old(Model()), node, template, hasFilter)
    {
      counter := counter + 1;
      var mid := counter;
      if !SubscribesToEvents(aspace.Model().Get(Key(node, EVENT_NOTIFIER))) {
        return Created(BadServiceUnsupported, mid, None);
      }
      if !hasFilter {
        return Created(Raised, mid, None);
      }
      items := items[mid := NewItem(template)];
      counter := counter + 1;
      if node !in events {
        events := events[node := []];
      }
      events := events[node := events[node] + [mid]];
      assert events == old(events)[node := (if node in old(events) then old(events)[node] else []) + [mid]];
      r := Created(Good, mid, None);
    }

    method CreateDataChangeItem(k: Key, template: Template) returns (r: Created)
      requires Valid()
      modifies this, aspace
      ensures Valid()
      ensures (aspace.Model(), Model(), r) == CreateDataChange(old(aspace.Model()), old(Model()), sub, k, template)
    {
      CreateDataChangeKeeps(aspace.Model(), Model(), sub, k, template);
      RegisterKeepsValue(aspace.Model(), k, sub);
      hide Placed, Linked, Space.Valid, Register, Space.Get;
      counter := counter + 1;
      var mid := counter;
      var status, handle := aspace.AddDatachangeCallback(k, sub);
      if status != Good {
        return Created(status, mid, None);
      }
      var notice := Commit(k, mid, handle, template);
      r := Created(Good, mid, notice);
    }

    /** The new item enters both maps and is given the attribute's value at once. */
    method Commit(k: Key, mid: nat, handle: nat, template: Template) returns (notice: Option<Notice>)
      modifies this`items, this`datachange, this`counter
      ensures var item := Observe(NewItem(template), aspace.Model().Get(k));
              && items == old(items)[mid := item] && notice == NoticeFor(mid, item)
              && datachange == old(datachange)[handle := mid] && counter == old(counter) + 1
    {
      items := items[mid := NewItem(template)];
      counter := counter + 1;
      datachange := datachange[handle := mid];
      notice := DatachangeCallback(handle, aspace.Model().Get(k));
      assert items == old(items)[mid := Observe(NewItem(template), aspace.Model().Get(k))];
    }

    method DatachangeCallback(handle: nat, v: Value) returns (notice: Option<Notice>)
      requires handle in datachange && datachange[handle] in items
      modifies this`items
      ensures var mid := datachange[handle];
              items == old(items)[mid := Observe(old(items)[mid], v)] && notice == NoticeFor(mid, items[mid])
    {
      var mid := datachange[handle];
      items := items[mid := Observe(items[mid], v)];
      notice := NoticeFor(mid, items[mid]);
    }

    /** The scans stop at the first place found; there is no second one. */
    method DeleteItem(mid: nat) returns (status: Status)
      requires Valid()
      modifies this`items, this`events, this`datachange, aspace
      ensures Valid()
      ensures (aspace.Model(), Model(), status) == Delete(old(aspace.Model()), old(Model()), mid)
    {
      DeleteKeeps(aspace.Model(), Model(), sub, mid);
      if mid !in items {
        return BadMonitoredItemIdInvalid;
      }
      OneHandle(Model(), mid);
      hide Placed, Linked, Space.Valid;
      RemoveFromEvents(mid);
      RemoveFromHandles(mid);
      items := items - {mid};
      status := Good;
    }

    method RemoveFromEvents(mid: nat)
      requires Placed(Model())
      modifies this`events
      ensures events == WithoutMid(old(events), mid)
    {
      var keys := events.Keys;
      while keys != {}
        invariant keys <= events.Keys && events == old(events)
        invariant forall n | n in events && n !in keys :: mid !in events[n]
      {
        var n :| n in keys;
        keys := keys - {n};
        if mid in events[n] {
          RemovedAt(Model(), mid, n);
          var v := Remove(events[n], mid);
          events := if v == [] then events - {n} else events[n := v];
          return;
        }
      }
      RemovedNowhere(events, mid);
    }

    method RemoveFromHandles(mid: nat)
      requires aspace.Model().Valid() && forall h, h' | h in HandlesOf(datachange, mid)
               && h' in HandlesOf(datachange, mid) :: h == h'
      modifies this`datachange, aspace
      ensures datachange == old(datachange) - HandlesOf(old(datachange), mid)
      ensures aspace.Model() == DropHandles(old(aspace.Model()), HandlesOf(old(datachange), mid))
    {
      var keys := datachange.Keys;
      while keys != {}
        invariant keys <= datachange.Keys && datachange == old(datachange) && aspace.Model() == old(aspace.Model())
        invariant forall h | h in datachange && h !in keys :: datachange[h] != mid
      {
        var h :| h in keys;
        keys := keys - {h};
        if datachange[h] == mid {
          assert h in HandlesOf(datachange, mid);
          assert HandlesOf(datachange, mid) == {h};
          aspace.DeleteDatachangeCallback(h);
          datachange := datachange - {h};
          return;
        }
      }
      assert HandlesOf(datachange, mid) == {};
      DropNone(aspace.Model());
    }

    /** What stop does to the items: every one is deleted in turn. */
    method DeleteAllItems()
      requires Valid()
      modifies this`items, this`events, this`datachange, aspace
      ensures Valid()
      ensures (aspace.Model(), Model()) == DeleteAll(old(aspace.Model()), old(Model()))
    {
      hide Placed, Linked, Space.Valid, DropHandles, WithoutMid;
      var ids := items.Keys;
      ghost var gone: set<nat> := {};
      DropNone(aspace.Model());
      while ids != {}
        invariant Valid() && ids == items.Keys && counter == old(counter)
        invariant gone <= old(datachange).Keys && datachange == old(datachange) - gone
        invariant aspace.Model() == DropHandles(old(aspace.Model()), gone)
      {
        var mid :| mid in ids;
        ghost var hs := HandlesOf(datachange, mid);
        var _ := DeleteItem(mid);
        DropTwice(old(aspace.Model()), gone, hs);
        gone := gone + hs;
        ids := ids - {mid};
      }
      NoItemsNoPlaces(Model());
      assert datachange.Keys == old(datachange).Keys - gone;
      assert gone == old(datachange).Keys;
    }
  }

  lemma RegisterKeepsValue(space: Space, k: Key, sub: nat)
    ensures Register(space, k, sub).0.Get(k) == space.Get(k)
  {
  }

  lemma OneHandle(s: Service, mid: nat)
    requires Placed(s)
    ensures forall h, h' | h in HandlesOf(s.datachange, mid) && h' in HandlesOf(s.datachange, mid) :: h == h'
  {
    forall h, h' | h in HandlesOf(s.datachange, mid) && h' in HandlesOf(s.datachange, mid)
      ensures h == h'
    {
      assert At(s, mid, UnderHandle(h)) && At(s, mid, UnderHandle(h'));
    }
  }

  lemma RemovedAt(s: Service, mid: nat, n: NodeId)
    requires Placed(s) && n in s.events && mid in s.events[n]
    ensures WithoutMid(s.events, mid) ==
            var v := Remove(s.events[n], mid);
            if v == [] then s.events - {n} else s.events[n := v]
  {
    assert At(s, mid, InList(n));
    forall m | m in s.events && m != n
      ensures Remove(s.events[m], mid) == s.events[m]
    {
      assert !At(s, mid, InList(m));
      RemoveFromList(s.events[m], mid);
    }
  }

  lemma RemovedNowhere(events: map<NodeId, seq<nat>>, mid: nat)
    requires ListsValid(events) && forall n | n in events :: mid !in events[n]
    ensures WithoutMid(events, mid) == events
  {
    forall n | n in events
      ensures Remove(events[n], mid) == events[n]
    {
      RemoveFromList(events[n], mid);
    }
  }

  lemma DropNone(space: Space)
    ensures DropHandles(space, {}) == space
  {
    var dropped := DropHandles(space, {});
    forall k | k in space.attributes
      ensures dropped.attributes[k] == space.attributes[k]
    {
      assert space.attributes[k].callbacks - {} == space.attributes[k].callbacks;
    }
    assert dropped.attributes == space.attributes && dropped.handles == space.handles;
  }

  lemma DropTwice(space: Space, a: set<nat>, b: set<nat>)
    ensures DropHandles(DropHandles(space, a), b) == DropHandles(space, a + b)
  {
    var twice, once := DropHandles(DropHandles(space, a), b), DropHandles(space, a + b);
    forall k | k in space.attributes
      ensures twice.attributes[k] == once.attributes[k]
    {
      assert space.attributes[k].callbacks - a - b == space.attributes[k].callbacks - (a + b);
    }
    assert twice.attributes == once.attributes && twice.handles == once.handles;
  }

  lemma NoItemsNoPlaces(s: Service)
    requires Placed(s) && s.items.Keys == {}
    ensures s.items == map[] && s.events == map[] && s.datachange == map[]
  {
    forall n | n in s.events
      ensures false
    {
      assert s.events[n][0] in s.events[n];
      assert At(s, s.events[n][0], InList(n));
    }
    forall h | h in s.datachange
      ensures false
    {
      assert At(s, s.datachange[h], UnderHandle(h));
    }
  }
}
