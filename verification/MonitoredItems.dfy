/**
 Monitored items of many subscriptions, and the callbacks they register in the address space.
 Each service keeps three maps; together they must agree with the two that the space keeps.
 */
module MonitoredItems {
  import opened Wrappers
  import opened NodeIds

  type Value = Option<int>
  datatype Key = Key(node: NodeId, attribute: nat)
  const EVENT_NOTIFIER: nat := 12

  datatype Status = Good | BadNodeIdUnknown | BadAttributeIdInvalid | BadServiceUnsupported | BadMonitoredItemIdInvalid
    | Raised   // AttributeError: an event item without a filter

  // ----- The part of the address space that knows callbacks -----

  /** A value and, by handle, the subscription each callback belongs to. */
  datatype Attribute = Attribute(value: Value, callbacks: map<nat, nat>)

  datatype Space = Space(nodes: set<NodeId>, attributes: map<Key, Attribute>, callbackCounter: nat,
                         handles: map<nat, Key>) {
    /** Attributes belong to nodes; handles and callbacks are two views of the same registrations. */
    ghost predicate Valid() {
      && (forall k | k in attributes :: k.node in nodes)
      && (forall h | h in handles ::
          h <= callbackCounter && handles[h] in attributes && h in attributes[handles[h]].callbacks)
      && (forall k, h | k in attributes && h in attributes[k].callbacks :: h in handles && handles[h] == k)
    }

    predicate OwnedBy(h: nat, sub: nat) {
      h in handles && handles[h] in attributes && h in attributes[handles[h]].callbacks
        && attributes[handles[h]].callbacks[h] == sub
    }

    function Get(k: Key): Value {
      if k.node in nodes && k in attributes then attributes[k].value else None
    }

    function StatusOf(k: Key): Status {
      if k.node !in nodes then BadNodeIdUnknown else if k !in attributes then BadAttributeIdInvalid else Good
    }
  }

  function Register(space: Space, k: Key, sub: nat): (r: (Space, Status, nat))
  {
    if space.StatusOf(k) != Good then (space, space.StatusOf(k), 0)
    else
      var h := space.callbackCounter + 1;
      var a := space.attributes[k];
      (space.(attributes := space.attributes[k := a.(callbacks := a.callbacks[h := sub])],
              callbackCounter := h, handles := space.handles[h := k]), Good, h)
  }

  function DropHandles(space: Space, hs: set<nat>): Space {
    space.(attributes := map k | k in space.attributes ::
           space.attributes[k].(callbacks := space.attributes[k].callbacks - hs),
           handles := space.handles - hs)
  }

  /** A node enters the space with its attributes, to which nobody listens yet. */
  function AddAttributes(space: Space, node: NodeId, values: map<nat, Value>): Space {
    if node in space.nodes then space
    else
      space.(nodes := space.nodes + {node},
             attributes := space.attributes + map a | a in values :: Key(node, a) := Attribute(values[a], map[]))
  }

  function SetValue(space: Space, k: Key, v: Value): Space
    requires k in space.attributes
  {
    space.(attributes := space.attributes[k := space.attributes[k].(value := v)])
  }

  // ----- One subscription's items -----

  datatype Deadband = NoDeadband | Absolute(value: real) | Percent

  datatype Item = Item(clientHandle: nat, filter: Option<Deadband>, current: Value, previous: Value, queueSize: nat)

  /** What a request asks for; the item starts without a value. */
  datatype Template = Template(clientHandle: nat, filter: Option<Deadband>, queueSize: nat)

  function NewItem(t: Template): Item {
    Item(t.clientHandle, t.filter, None, None, t.queueSize)
  }

  datatype Service = Service(
    items: map<nat, Item>,
    events: map<NodeId, seq<nat>>,
    datachange: map<nat, nat>,
    counter: nat)

  const EMPTY_SERVICE: Service := Service(map[], map[], map[], 111)

  /** What an item asks its subscription to queue. */
  datatype Notice = Notice(mid: nat, clientHandle: nat, value: Value, size: nat)

  function Abs(x: int): nat {
    if x < 0 then -x else x
  }

  /** Comparing a missing value with a number raises, which the writer logs; nothing is queued then. */
  predicate DeadbandPasses(current: Value, previous: Value, filter: Option<Deadband>) {
    match filter
    case None => true
    case Some(NoDeadband) => true
    case Some(Percent) => true
    case Some(Absolute(limit)) =>
      previous.None? || (current.Some? && Abs(current.value - previous.value) as real > limit)
  }

  function Observe(item: Item, v: Value): Item {
    item.(previous := item.current, current := v)
  }

  function NoticeFor(mid: nat, item: Item): Option<Notice> {
    if DeadbandPasses(item.current, item.previous, item.filter)
    then Some(Notice(mid, item.clientHandle, item.current, item.queueSize)) else None
  }

  datatype Created = Created(status: Status, mid: nat, notice: Option<Notice>)

  function CreateDataChange(space: Space, s: Service, sub: nat, k: Key, template: Template)
    : (r: (Space, Service, Created))
  {
    var mid := s.counter + 1;
    var (space', status, h) := Register(space, k, sub);
    if status != Good then (space', s.(counter := mid), Created(status, mid, None))
    else
      var item := Observe(NewItem(template), space.Get(k));
      (space', s.(items := s.items[mid := item], datachange := s.datachange[h := mid], counter := mid + 1),
       Created(Good, mid, NoticeFor(mid, item)))
  }

  predicate SubscribesToEvents(v: Value) {
    v.Some? && v.value % 2 == 1
  }

  function CreateEvents(space: Space, s: Service, node: NodeId, template: Template, hasFilter: bool)
    : (r: (Service, Created))
  {
    var mid := s.counter + 1;
    if !SubscribesToEvents(space.Get(Key(node, EVENT_NOTIFIER)))
    then (s.(counter := mid), Created(BadServiceUnsupported, mid, None))
    else if !hasFilter then (s.(counter := mid), Created(Raised, mid, None))
    else
      var list := if node in s.events then s.events[node] else [];
      (s.(items := s.items[mid := NewItem(template)], events := s.events[node := list + [mid]], counter := mid + 1),
       Created(Good, mid, None))
  }

  /** list.remove, which takes out the first occurrence. */
  function Remove(list: seq<nat>, mid: nat): seq<nat> {
    if list == [] then [] else if list[0] == mid then list[1..] else [list[0]] + Remove(list[1..], mid)
  }

  function WithoutMid(events: map<NodeId, seq<nat>>, mid: nat): map<NodeId, seq<nat>> {
    map n | n in events && Remove(events[n], mid) != [] :: Remove(events[n], mid)
  }

  function HandlesOf(datachange: map<nat, nat>, mid: nat): set<nat> {
    set h | h in datachange && datachange[h] == mid
  }

  function Delete(space: Space, s: Service, mid: nat): (r: (Space, Service, Status))
  {
    if mid !in s.items then (space, s, BadMonitoredItemIdInvalid)
    else
      (DropHandles(space, HandlesOf(s.datachange, mid)),
       s.(items := s.items - {mid}, events := WithoutMid(s.events, mid),
          datachange := s.datachange - HandlesOf(s.datachange, mid)), Good)
  }

  function DeleteAll(space: Space, s: Service): (r: (Space, Service))
  {
    (DropHandles(space, s.datachange.Keys), s.(items := map[], events := map[], datachange := map[]))
  }

  // ----- What a request answers -----

  /**
   A data-change item is refused for an unknown node or attribute, and then uses up an id and nothing else.
   A new one uses up two, gets the first of them and the next handle, holds the value and the request's handle,
     filter and queue size, and
   sends the value at once.
   */
  lemma CreateOutcome(space: Space, s: Service, sub: nat, k: Key, template: Template)
    ensures var (space', s', created) := CreateDataChange(space, s, sub, k, template);
            var (mid, h) := (s.counter + 1, space.callbackCounter + 1);
            && created.mid == mid && s'.events == s.events
               && s'.counter == (if created.status == Good then mid + 1 else mid)
            && created.status == (if k.node !in space.nodes then BadNodeIdUnknown
                                  else if k !in space.attributes then BadAttributeIdInvalid else Good)
            && (created.status != Good ==> space' == space && s' == s.(counter := mid) && created.notice == None)
            && (created.status == Good ==>
                  var v := space.attributes[k].value;
                  && created.notice == Some(Notice(mid, template.clientHandle, v, template.queueSize))
                  && s'.items == s.items[mid := Item(template.clientHandle, template.filter, v, None,
                                                     template.queueSize)]
                  && s'.datachange == s.datachange[h := mid]
                  && space'.callbackCounter == h && space'.handles == space.handles[h := k]
                  && space'.nodes == space.nodes
                  && space'.attributes ==
                     space.attributes[k := Attribute(v, space.attributes[k].callbacks[h := sub])])
  {
  }

  /** An event item is refused without the lowest bit of the event notifier, and raises without a filter. */
  lemma CreateEventsOutcome(space: Space, s: Service, node: NodeId, template: Template, hasFilter: bool)
    ensures var (s', created) := CreateEvents(space, s, node, template, hasFilter);
            var (mid, k) := (s.counter + 1, Key(node, EVENT_NOTIFIER));
            var notifies := node in space.nodes && k in space.attributes && space.attributes[k].value.Some?
                            && space.attributes[k].value.value % 2 == 1;
            && created == Created(if !notifies then BadServiceUnsupported else if !hasFilter then Raised
                                                                               else Good, mid, None)
            && s'.counter == (if created.status == Good then mid + 1 else mid) && s'.datachange == s.datachange
            && (created.status != Good ==> s' == s.(counter := mid))
            && (created.status == Good ==>
                  && s'.items == s.items[mid := Item(template.clientHandle, template.filter, None, None,
                                                     template.queueSize)]
                  && s'.events == s.events[node := (if node in s.events then s.events[node] else []) + [mid]])
  {
  }

  /** Deleting an unknown item is refused and changes nothing; deleting any other takes away it and its handles. */
  lemma DeleteOutcome(space: Space, s: Service, mid: nat)
    ensures var (space', s', status) := Delete(space, s, mid);
            && status == (if mid in s.items then Good else BadMonitoredItemIdInvalid)
            && (status != Good ==> space' == space && s' == s)
            && (status == Good ==>
                  && s'.items == s.items - {mid} && s'.counter == s.counter
                  && (forall h :: h in s'.datachange <==> h in s.datachange && s.datachange[h] != mid)
                  && (forall h | h in s'.datachange :: s'.datachange[h] == s.datachange[h])
                  && (forall h :: h in space'.handles <==>
                      h in space.handles && !(h in s.datachange && s.datachange[h] == mid)))
  {
  }

  // ----- The invariant of one service -----

  /** Where an item can be found: in a node's event list, or under a data-change handle. */
  datatype Place = InList(node: NodeId) | UnderHandle(handle: nat)

  predicate At(s: Service, mid: nat, p: Place) {
    match p
    case InList(n) => n in s.events && mid in s.events[n]
    case UnderHandle(h) => h in s.datachange && s.datachange[h] == mid
  }

  predicate NoDuplicates(list: seq<nat>) {
    forall i, j | 0 <= i < j < |list| :: list[i] != list[j]
  }

  predicate ListsValid(events: map<NodeId, seq<nat>>) {
    forall n | n in events :: events[n] != [] && NoDuplicates(events[n])
  }

  /** Every item is in exactly one place, nothing else is in any place, and ids stay below the counter. */
  ghost predicate Placed(s: Service) {
    && ListsValid(s.events)
    && (forall mid | mid in s.items :: mid <= s.counter && exists p :: At(s, mid, p))
    && (forall mid, p | At(s, mid, p) :: mid in s.items)
    && (forall mid, p, q | At(s, mid, p) && At(s, mid, q) :: p == q)
  }

  /** Its handles are exactly those registered for it in the space. */
  ghost predicate Linked(space: Space, s: Service, sub: nat) {
    forall h :: h in s.datachange <==> space.OwnedBy(h, sub)
  }

  lemma PlacedAdd(s: Service, s': Service, mid: nat, p: Place)
    requires Placed(s) && mid == s.counter + 1 && s'.counter == mid + 1
    requires s'.items.Keys == s.items.Keys + {mid} && ListsValid(s'.events)
    requires forall m, q :: At(s', m, q) <==> At(s, m, q) || (m == mid && q == p)
    ensures Placed(s')
  {
    hide At, ListsValid;
    assert At(s', mid, p);
    forall m | m in s'.items && m != mid
      ensures m <= s'.counter && exists q :: At(s', m, q)
    {
      var q :| At(s, m, q);
      assert At(s', m, q);
    }
  }

  lemma PlacedRemove(s: Service, s': Service, mid: nat)
    requires Placed(s) && s'.counter == s.counter
    requires s'.items.Keys == s.items.Keys - {mid} && ListsValid(s'.events)
    requires forall m, q :: At(s', m, q) <==> At(s, m, q) && m != mid
    ensures Placed(s')
  {
    hide At, ListsValid;
    forall m | m in s'.items
      ensures m <= s'.counter && exists q :: At(s', m, q)
    {
      var q :| At(s, m, q);
      assert At(s', m, q);
    }
  }

  lemma PlacedSame(s: Service, s': Service)
    requires Placed(s) && s'.counter >= s.counter && s'.items.Keys == s.items.Keys
    requires s'.events == s.events && s'.datachange == s.datachange
    ensures Placed(s')
  {
    assert forall m, q :: At(s', m, q) <==> At(s, m, q);
    hide At;
    forall m | m in s'.items
      ensures m <= s'.counter && exists q :: At(s', m, q)
    {
      var q :| At(s, m, q);
      assert At(s', m, q);
    }
  }

  lemma CreateEventsKeepsPlaced(space: Space, s: Service, node: NodeId, template: Template, hasFilter: bool)
    requires Placed(s)
    ensures Placed(CreateEvents(space, s, node, template, hasFilter).0)
  {
    var s' := CreateEvents(space, s, node, template, hasFilter).0;
    var mid := s.counter + 1;
    if mid in s'.items {
      var list := if node in s.events then s.events[node] else [];
      forall i | 0 <= i < |list|
        ensures list[i] <= s.counter
      {
        assert At(s, list[i], InList(node));
      }
      assert s'.events[node] == list + [mid] && NoDuplicates(list + [mid]);
      forall m, q
        ensures At(s', m, q) <==> At(s, m, q) || (m == mid && q == InList(node))
      {
      }
      PlacedAdd(s, s', mid, InList(node));
    } else {
      PlacedSame(s, s');
    }
  }

  lemma CreateDataChangeKeeps(space: Space, s: Service, sub: nat, k: Key, template: Template)
    requires space.Valid() && Placed(s) && Linked(space, s, sub)
    ensures var (space', s', _) := CreateDataChange(space, s, sub, k, template);
            && space'.Valid() && Placed(s') && Linked(space', s', sub)
            && forall h, other | other != sub :: space'.OwnedBy(h, other) <==> space.OwnedBy(h, other)
  {
    var (space', s', _) := CreateDataChange(space, s, sub, k, template);
    if space.StatusOf(k) == Good {
      var h := space.callbackCounter + 1;
      assert !space.OwnedBy(h, sub);
      hide Placed, Space.OwnedBy, Space.Valid;
      RegisterKeeps(space, k, sub);
      UnderHandleKeepsPlaced(s, s', s.counter + 1, h);
      hide Register;
    } else {
      PlacedSame(s, s');
    }
  }

  lemma UnderHandleKeepsPlaced(s: Service, s': Service, mid: nat, h: nat)
    requires Placed(s) && h !in s.datachange && mid == s.counter + 1 && s'.counter == mid + 1
    requires s'.items.Keys == s.items.Keys + {mid} && s'.events == s.events && s'.datachange == s.datachange[h := mid]
    ensures Placed(s')
  {
    assert forall m, q :: At(s', m, q) <==> At(s, m, q) || (m == mid && q == UnderHandle(h));
    PlacedAdd(s, s', mid, UnderHandle(h));
  }

  lemma RegisterKeeps(space: Space, k: Key, sub: nat)
    requires space.Valid() && space.StatusOf(k) == Good
    ensures var (space', _, h') := Register(space, k, sub);
            && space'.Valid()
            && forall h, owner :: space'.OwnedBy(h, owner) <==> space.OwnedBy(h, owner) || (h == h' && owner == sub)
  {
    var (space', _, h') := Register(space, k, sub);
    forall k2, h | k2 in space'.attributes && h in space'.attributes[k2].callbacks
      ensures h in space'.handles && space'.handles[h] == k2
    {
      if k2 != k || h != h' {
        assert h in space.attributes[k2].callbacks;
        assert h in space.handles && h != h';
      }
    }
  }

  lemma {:induction false} RemoveFromList(list: seq<nat>, mid: nat)
    requires NoDuplicates(list)
    ensures NoDuplicates(Remove(list, mid))
    ensures forall m :: m in Remove(list, mid) <==> m in list && m != mid
    ensures mid !in list ==> Remove(list, mid) == list
  {
    if list != [] {
      var first, rest := list[0], list[1..];
      assert list == [first] + rest;
      RemoveFromList(rest, mid);
      assert forall m :: m in list <==> m == first || m in rest;
      assert first !in rest;
      if first != mid {
        assert first !in Remove(rest, mid);
      }
    }
  }

  lemma DropHandlesKeeps(space: Space, hs: set<nat>)
    requires space.Valid()
    ensures DropHandles(space, hs).Valid()
    ensures forall h, owner :: DropHandles(space, hs).OwnedBy(h, owner) <==> space.OwnedBy(h, owner) && h !in hs
  {
  }

  lemma DeleteKeeps(space: Space, s: Service, sub: nat, mid: nat)
    requires space.Valid() && Placed(s) && Linked(space, s, sub)
    ensures var (space', s', _) := Delete(space, s, mid);
            && space'.Valid() && Placed(s') && Linked(space', s', sub)
            && forall h, other | other != sub :: space'.OwnedBy(h, other) <==> space.OwnedBy(h, other)
  {
    if mid in s.items {
      DropHandlesKeeps(space, HandlesOf(s.datachange, mid));
      DeleteKeepsPlaced(space, s, mid);
      assert forall h | h in HandlesOf(s.datachange, mid) :: space.OwnedBy(h, sub);
    }
  }

  lemma DeleteKeepsPlaced(space: Space, s: Service, mid: nat)
    requires Placed(s) && mid in s.items
    ensures Placed(Delete(space, s, mid).1)
  {
    var s' := Delete(space, s, mid).1;
    forall n | n in s.events
      ensures NoDuplicates(Remove(s.events[n], mid)) && forall m :: m in Remove(s.events[n], mid) <==>
              m in s.events[n] && m != mid
    {
      RemoveFromList(s.events[n], mid);
    }
    forall m, q
      ensures At(s', m, q) <==> At(s, m, q) && m != mid
    {
    }
    PlacedRemove(s, s', mid);
  }
}
