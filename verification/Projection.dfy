/** Each subscription of the engine, seen alone: its whole history is a run of one subscription. */
module Projection {
  import opened Wrappers
  import opened NodeIds
  import opened MonitoredItems
  import opened Engine
  import opened Publishing
  import R = MonitoredRuns
  import S = Subscription

  type Action = S.Action<Content>
  type Result = Option<S.PublishResult<Content>>

  // ----- What a call means to one subscription -----

  /** What is to be queued for each item, with the size of its queue. */
  type Posts = map<nat, (Content, nat)>

  /** One by one, in the order of the item ids, up to n. */
  function Queueing(kind: S.Kind, posts: Posts, n: nat): seq<Action> {
    if n == 0 then []
    else
      Queueing(kind, posts, n - 1)
      + (if n - 1 in posts then [S.Queue(kind, n - 1, posts[n - 1].0, posts[n - 1].1)] else [])
  }

  function Changes(notices: map<nat, Notice>): Posts {
    map mid | mid in notices :: (Change(notices[mid].clientHandle, notices[mid].value), notices[mid].size)
  }

  function Occurrences(s: Service, node: NodeId, event: nat): Posts {
    map mid | node in s.events && mid in s.events[node] && mid in s.items ::
      (Occurrence(s.items[mid].clientHandle, event), s.items[mid].queueSize)
  }

  function ActionsOf(e: Engine, c: Call, sub: nat): seq<Action>
    requires sub in e.sys.services
  {
    var s := e.sys.services[sub];
    match c
    case Timer(at) => if at == sub then [S.Clock] else []
    case Publish(acks) => [S.PublishRequest(AcksFor(acks, sub))]
    case Request(CreateDataItem(at, k, template)) =>
      if at != sub then []
      else
        var notice := CreateDataChange(e.sys.space, s, sub, k, template).2.notice;
        if notice.None? then []
        else Queueing(S.DataChange, Changes(map[notice.value.mid := notice.value]), notice.value.mid + 1)
    case Request(Write(k, v)) =>
      if e.sys.space.StatusOf(k) != Good || e.sys.space.attributes[k].value == v then []
      else
        var notices := WriteNotices(s, e.sys.space.attributes[k].callbacks.Keys, v);
        Queueing(S.DataChange, Changes(notices), s.counter + 1)
    case Request(TriggerEvent(node, event)) => Queueing(S.EventField, Occurrences(s, node, event), s.counter + 1)
    case Request(_) => []
  }

  // ----- Queues one by one -----

  lemma {:induction false} RunAppend(s: S.State<Content>, a: seq<Action>, b: seq<Action>)
    ensures var (middle, first) := S.Run(s, a);
            var (last, second) := S.Run(middle, b);
            S.Run(s, a + b) == (last, first + second)
    decreases |b|
  {
    hide S.Apply;
    if b == [] {
      assert a + b == a;
      assert S.Run(s, a).1 + [] == S.Run(s, a).1;
    } else {
      var n := |b| - 1;
      RunAppend(s, a, b[..n]);
      assert (a + b)[..|a + b| - 1] == a + b[..n] && (a + b)[|a + b| - 1] == b[n];
      var (middle, first) := S.Run(s, a);
      var (before, second) := S.Run(middle, b[..n]);
      var (last, out) := S.Apply(before, b[n]);
      assert S.Run(s, a + b) == (last, S.Run(s, a + b[..n]).1 + [out]);
      assert first + (second + [out]) == first + second + [out];
    }
  }

  predicate AllSilent(outs: seq<Result>) {
    forall i | 0 <= i < |outs| :: outs[i] == None
  }

  lemma RunOne(s: S.State<Content>, a: Action)
    ensures S.Run(s, [a]) == (S.Apply(s, a).0, [S.Apply(s, a).1])
  {
    hide S.Apply;
    assert [a][..0] == [];
    assert S.Run(s, []) == (s, []);
    assert [] + [S.Apply(s, a).1] == [S.Apply(s, a).1];
  }

  /** The queues with each post of an item below n put in. */
  ghost predicate PostedBelow(queues: S.Queues<Content>, posts: Posts, n: nat, after: S.Queues<Content>) {
    && (forall mid :: mid in after <==> mid in queues || (mid in posts && mid < n))
    && (forall mid | mid in queues && !(mid in posts && mid < n) :: after[mid] == queues[mid])
    && (forall mid | mid in posts && mid < n :: after[mid] == S.Enqueue(queues, mid, posts[mid].0, posts[mid].1)[mid])
  }

  lemma PostNext(queues: S.Queues<Content>, posts: Posts, m: nat, before: S.Queues<Content>)
    requires PostedBelow(queues, posts, m, before)
    ensures PostedBelow(queues, posts, m + 1,
                        if m in posts then S.Enqueue(before, m, posts[m].0, posts[m].1) else before)
  {
    if m in posts {
      assert m in before <==> m in queues;
      EnqueueOnly(before, queues, m, posts[m].0, posts[m].1);
      hide S.Enqueue;
      var next := before[m := S.Enqueue(queues, m, posts[m].0, posts[m].1)[m]];
      forall mid | mid in posts && mid < m + 1
        ensures next[mid] == S.Enqueue(queues, mid, posts[mid].0, posts[mid].1)[mid]
      {
      }
    }
  }

  lemma EnqueueOnly(queues: S.Queues<Content>, other: S.Queues<Content>, mid: nat, c: Content, size: nat)
    requires mid in queues <==> mid in other
    requires mid in queues ==> queues[mid] == other[mid]
    ensures mid in S.Enqueue(other, mid, c, size)
    ensures S.Enqueue(queues, mid, c, size) == queues[mid := S.Enqueue(other, mid, c, size)[mid]]
  {
  }

  function QueuesOf(s: S.State<Content>, kind: S.Kind): S.Queues<Content> {
    if kind.DataChange? then s.datachanges else s.events
  }

  function WithQueues(s: S.State<Content>, kind: S.Kind, queues: S.Queues<Content>): S.State<Content> {
    if kind.DataChange? then s.(datachanges := queues) else s.(events := queues)
  }

  lemma {:induction false} QueueingPosts(s: S.State<Content>, kind: S.Kind, posts: Posts, n: nat)
    ensures var (after, outs) := S.Run(s, Queueing(kind, posts, n));
            && after == WithQueues(s, kind, QueuesOf(after, kind)) && AllSilent(outs)
            && PostedBelow(QueuesOf(s, kind), posts, n, QueuesOf(after, kind))
  {
    if n > 0 {
      var m := n - 1;
      QueueingPosts(s, kind, posts, m);
      var (before, outs) := S.Run(s, Queueing(kind, posts, m));
      PostNext(QueuesOf(s, kind), posts, m, QueuesOf(before, kind));
      if m in posts {
        var a: Action := S.Queue(kind, m, posts[m].0, posts[m].1);
        RunAppend(s, Queueing(kind, posts, m), [a]);
        RunOne(before, a);
        hide S.Run, S.Enqueue, PostedBelow, Queueing;
      } else {
        assert Queueing(kind, posts, n) == Queueing(kind, posts, m);
      }
    }
  }

  lemma PostedIsUnique(queues: S.Queues<Content>, posts: Posts, n: nat, a: S.Queues<Content>, b: S.Queues<Content>)
    requires PostedBelow(queues, posts, n, a) && PostedBelow(queues, posts, n, b)
    ensures a == b
  {
    hide S.Enqueue;
    assert forall mid :: mid in a <==> mid in b;
  }

  lemma DeliverPosts(queues: S.Queues<Content>, notices: map<nat, Notice>, n: nat)
    requires forall mid | mid in notices :: mid < n
    ensures PostedBelow(queues, Changes(notices), n, Deliver(queues, notices))
  {
    hide S.Enqueue;
  }

  lemma DeliverEventPosts(queues: S.Queues<Content>, s: Service, node: NodeId, event: nat, n: nat)
    requires forall mid | mid in s.items :: mid < n
    ensures PostedBelow(queues, Occurrences(s, node, event), n, DeliverEvent(queues, s, node, event))
  {
    hide S.Enqueue;
  }

  // ----- One call -----

  /** What was handed out, in order. */
  function Results(outs: seq<Result>): seq<S.PublishResult<Content>> {
    if outs == [] then []
    else Results(outs[..|outs| - 1]) + if outs[|outs| - 1].Some? then [outs[|outs| - 1].value] else []
  }

  function ResultOf(out: Out, sub: nat): seq<S.PublishResult<Content>> {
    if out.Some? && out.value.0 == sub then [out.value.1] else []
  }

  lemma {:induction false} SilentGivesNothing(outs: seq<Result>)
    requires AllSilent(outs)
    ensures Results(outs) == []
  {
    if outs != [] {
      SilentGivesNothing(outs[..|outs| - 1]);
    }
  }

  /** The call does to the subscription what its actions do, and hands out the same. */
  predicate Projects(e: Engine, c: Call, sub: nat)
    requires sub in e.subs && sub in e.sys.services
  {
    var (after, outs) := S.Run(e.subs[sub], ActionsOf(e, c, sub));
    && sub in Step(e, c).0.subs && Step(e, c).0.subs[sub] == after
    && Results(outs) == ResultOf(Step(e, c).1, sub)
  }

  lemma TimerProjects(e: Engine, at: nat, sub: nat)
    requires sub in e.subs && sub in e.sys.services
    ensures Projects(e, Timer(at), sub)
  {
    hide S.Apply;
    RunOne(e.subs[sub], S.Clock);
    var outs: seq<Result> := [S.Apply(e.subs[sub], S.Clock).1];
    assert outs[..0] == [] && Results(outs[..0]) == [];
    assert S.Run(e.subs[sub], []) == (e.subs[sub], []);
  }

  lemma PublishProjects(e: Engine, acks: seq<(nat, nat)>, sub: nat)
    requires sub in e.subs && sub in e.sys.services
    ensures Projects(e, Publish(acks), sub)
  {
    var a: Action := S.PublishRequest(AcksFor(acks, sub));
    RunOne(e.subs[sub], a);
    SilentGivesNothing([S.Apply(e.subs[sub], a).1]);
    hide S.Run, AcksFor;
  }

  /** A request that queues exactly these posts for the subscription. */
  lemma QueueingProjects(e: Engine, r: R.Request, sub: nat, kind: S.Kind, posts: Posts, n: nat,
                         posted: S.Queues<Content>)
    requires sub in e.subs && sub in e.sys.services && sub in QueuesAfter(e, r)
    requires ActionsOf(e, Request(r), sub) == Queueing(kind, posts, n)
    requires PostedBelow(QueuesOf(e.subs[sub], kind), posts, n, posted)
    requires QueuesAfter(e, r)[sub] == WithQueues(e.subs[sub], kind, posted)
    ensures Projects(e, Request(r), sub)
  {
    hide S.Run, Queueing, QueuesAfter, ActionsOf, PostedBelow, R.Step;
    QueueingPosts(e.subs[sub], kind, posts, n);
    var (after, outs) := S.Run(e.subs[sub], Queueing(kind, posts, n));
    PostedIsUnique(QueuesOf(e.subs[sub], kind), posts, n, posted, QueuesOf(after, kind));
    SilentGivesNothing(outs);
  }

  lemma NothingProjects(e: Engine, r: R.Request, sub: nat)
    requires sub in e.subs && sub in e.sys.services && sub in QueuesAfter(e, r)
    requires ActionsOf(e, Request(r), sub) == [] && QueuesAfter(e, r)[sub] == e.subs[sub]
    ensures Projects(e, Request(r), sub)
  {
    hide QueuesAfter, ActionsOf, R.Step;
    assert S.Run(e.subs[sub], []) == (e.subs[sub], []);
  }

  lemma KnownItems(e: Engine, sub: nat)
    requires Sound(e) && sub in e.subs
    ensures sub in e.sys.services && sub <= e.sys.subscriptionCounter
    ensures forall mid | mid in e.sys.services[sub].items :: mid <= e.sys.services[sub].counter
  {
  }

  lemma NewItemQueues(e: Engine, k: Key, template: Template, sub: nat, notices: map<nat, Notice>, n: nat)
    requires sub in e.subs && sub in e.sys.services
    requires var notice := CreateDataChange(e.sys.space, e.sys.services[sub], sub, k, template).2.notice;
             notice.Some? && notices == map[notice.value.mid := notice.value] && n == notice.value.mid + 1
    ensures var r := R.CreateDataItem(sub, k, template);
            && ActionsOf(e, Request(r), sub) == Queueing(S.DataChange, Changes(notices), n)
            && QueuesAfter(e, r) == e.subs[sub := e.subs[sub].(datachanges := Deliver(e.subs[sub].datachanges,
                                                                                      notices))]
  {
    hide CreateDataChange, Deliver, Queueing, Changes;
  }

  lemma CreateProjects(e: Engine, at: nat, k: Key, template: Template, sub: nat)
    requires Sound(e) && sub in e.subs
    ensures sub in e.sys.services && Projects(e, Request(R.CreateDataItem(at, k, template)), sub)
  {
    hide Sound, Projects, Deliver, CreateDataChange, Queueing, PostedBelow, Changes;
    KnownItems(e, sub);
    var r := R.CreateDataItem(at, k, template);
    var notice := CreateDataChange(e.sys.space, e.sys.services[sub], sub, k, template).2.notice;
    if at == sub && notice.Some? {
      var (notices, n) := (map[notice.value.mid := notice.value], notice.value.mid + 1);
      NewItemQueues(e, k, template, sub, notices, n);
      hide QueuesAfter, ActionsOf;
      DeliverPosts(e.subs[sub].datachanges, notices, n);
      QueueingProjects(e, r, sub, S.DataChange, Changes(notices), n, Deliver(e.subs[sub].datachanges, notices));
    } else {
      NothingProjects(e, r, sub);
    }
  }

  lemma WriteActions(e: Engine, k: Key, v: Value, sub: nat, notices: map<nat, Notice>)
    requires sub in e.subs && sub in e.sys.services
    requires e.sys.space.StatusOf(k) == Good && e.sys.space.attributes[k].value != v
    requires notices == WriteNotices(e.sys.services[sub], e.sys.space.attributes[k].callbacks.Keys, v)
    ensures ActionsOf(e, Request(R.Write(k, v)), sub) ==
            Queueing(S.DataChange, Changes(notices), e.sys.services[sub].counter + 1)
    ensures sub in QueuesAfter(e, R.Write(k, v))
    ensures QueuesAfter(e, R.Write(k, v))[sub] == e.subs[sub].(datachanges := Deliver(e.subs[sub].datachanges, notices))
  {
    hide WriteNotices, Deliver, Queueing, Changes;
  }

  lemma WriteProjects(e: Engine, k: Key, v: Value, sub: nat)
    requires Sound(e) && sub in e.subs
    ensures sub in e.sys.services && Projects(e, Request(R.Write(k, v)), sub)
  {
    hide Sound, Projects, Deliver, Queueing, PostedBelow, NoticeFor, HandlesOf, Changes;
    KnownItems(e, sub);
    var (r, s) := (R.Write(k, v), e.sys.services[sub]);
    if e.sys.space.StatusOf(k) == Good && e.sys.space.attributes[k].value != v {
      var notices := WriteNotices(s, e.sys.space.attributes[k].callbacks.Keys, v);
      assert forall mid | mid in notices :: mid in s.items;
      WriteActions(e, k, v, sub, notices);
      hide WriteNotices, QueuesAfter, ActionsOf;
      DeliverPosts(e.subs[sub].datachanges, notices, s.counter + 1);
      QueueingProjects(e, r, sub, S.DataChange, Changes(notices), s.counter + 1,
                       Deliver(e.subs[sub].datachanges, notices));
    } else {
      NothingProjects(e, r, sub);
    }
  }

  lemma EventActions(e: Engine, node: NodeId, event: nat, sub: nat)
    requires sub in e.subs && sub in e.sys.services
    ensures var (r, s) := (R.TriggerEvent(node, event), e.sys.services[sub]);
            && ActionsOf(e, Request(r), sub) == Queueing(S.EventField, Occurrences(s, node, event), s.counter + 1)
            && sub in QueuesAfter(e, r)
            && QueuesAfter(e, r)[sub] == e.subs[sub].(events := DeliverEvent(e.subs[sub].events, s, node, event))
  {
    hide DeliverEvent, Queueing, Occurrences;
  }

  lemma EventProjects(e: Engine, node: NodeId, event: nat, sub: nat)
    requires Sound(e) && sub in e.subs
    ensures sub in e.sys.services && Projects(e, Request(R.TriggerEvent(node, event)), sub)
  {
    hide Sound, Projects, DeliverEvent, Queueing, PostedBelow, Occurrences;
    KnownItems(e, sub);
    var (r, s) := (R.TriggerEvent(node, event), e.sys.services[sub]);
    EventActions(e, node, event, sub);
    hide QueuesAfter, ActionsOf;
    DeliverEventPosts(e.subs[sub].events, s, node, event, s.counter + 1);
    QueueingProjects(e, r, sub, S.EventField, Occurrences(s, node, event), s.counter + 1,
                     DeliverEvent(e.subs[sub].events, s, node, event));
  }

  lemma CallProjects(e: Engine, c: Call, sub: nat)
    requires Sound(e) && sub in e.subs && c != Request(R.DeleteSubscription(sub))
    ensures sub in e.sys.services && Projects(e, c, sub)
  {
    KnownItems(e, sub);
    hide Sound, Projects, Deliver, DeliverEvent, WriteNotices, CreateDataChange;
    match c
    case Timer(at) => TimerProjects(e, at, sub);
    case Publish(acks) => PublishProjects(e, acks, sub);
    case Request(CreateDataItem(at, k, template)) => CreateProjects(e, at, k, template, sub);
    case Request(Write(k, v)) => WriteProjects(e, k, v, sub);
    case Request(TriggerEvent(node, event)) => EventProjects(e, node, event, sub);
    case Request(r) => NothingProjects(e, r, sub);
  }

  // ----- Runs -----

  /** All that the calls mean to the subscription. */
  function AllActions(e: Engine, calls: seq<Call>, sub: nat): seq<Action> {
    if calls == [] then []
    else
      var n := |calls| - 1;
      var before := Run(e, calls[..n]).0;
      AllActions(e, calls[..n], sub) + if sub in before.sys.services then ActionsOf(before, calls[n], sub) else []
  }

  /** What the engine handed out for the subscription, in order. */
  function HandedTo(outs: seq<Out>, sub: nat): seq<S.PublishResult<Content>> {
    if outs == [] then [] else HandedTo(outs[..|outs| - 1], sub) + ResultOf(outs[|outs| - 1], sub)
  }

  lemma {:induction false} ResultsAppend(a: seq<Result>, b: seq<Result>)
    ensures Results(a + b) == Results(a) + Results(b)
    decreases |b|
  {
    if b == [] {
      assert a + b == a && Results(a) + [] == Results(a);
    } else {
      var n := |b| - 1;
      ResultsAppend(a, b[..n]);
      assert (a + b)[..|a + b| - 1] == a + b[..n] && (a + b)[|a + b| - 1] == b[n];
      var last := if b[n].Some? then [b[n].value] else [];
      assert Results(a) + (Results(b[..n]) + last) == Results(a) + Results(b[..n]) + last;
    }
  }

  /**
   Until it is deleted, a subscription of the engine is in the state its own actions lead to, and hands out
   the same.
   */
  lemma {:induction false} RunProjects(e: Engine, calls: seq<Call>, sub: nat)
    requires Sound(e) && sub in e.subs && forall c | c in calls :: c != Request(R.DeleteSubscription(sub))
    ensures var (after, outs) := Run(e, calls);
            var (alone, results) := S.Run(e.subs[sub], AllActions(e, calls, sub));
            && sub in after.subs && after.subs[sub] == alone
            && HandedTo(outs, sub) == Results(results)
  {
    hide Sound, Step, ActionsOf, S.Apply;
    if calls != [] {
      var n := |calls| - 1;
      assert calls[n] in calls && forall c | c in calls[..n] :: c in calls;
      RunProjects(e, calls[..n], sub);
      RunIsSound(e, calls[..n]);
      var (before, outs) := Run(e, calls[..n]);
      var (after, out) := Step(before, calls[n]);
      CallProjects(before, calls[n], sub);
      var actions := AllActions(e, calls[..n], sub);
      var (alone, results) := S.Run(e.subs[sub], actions);
      var more := ActionsOf(before, calls[n], sub);
      RunAppend(e.subs[sub], actions, more);
      ResultsAppend(results, S.Run(alone, more).1);
      assert Run(e, calls) == (after, outs + [out]);
      assert (outs + [out])[..n] == outs;
      hide Run, S.Run, AllActions;
    }
  }

  /** A new subscription starts fresh, with the counts of its request. */
  lemma NewSubscription(e: Engine, lifetime: nat, keepAlive: nat)
    requires Sound(e)
    ensures var (after, sub) := (Step(e, Request(R.CreateSubscription(lifetime, keepAlive))).0,
                                 e.sys.subscriptionCounter + 1);
            && sub !in e.subs && after.subs == e.subs[sub := S.Fresh(lifetime, keepAlive)]
            && sub in after.sys.services && after.sys.services[sub].items == map[]
  {
  }

  /** The subscription is where a run of its own actions leads, and the engine hands out for it what that run does. */
  predicate IsAlone(e: Engine, calls: seq<Call>, sub: nat, lifetime: nat, keepAlive: nat) {
    var (after, outs) := Run(e, calls);
    var (alone, results) := S.Run(S.Fresh(lifetime, keepAlive), AllActions(e, calls, sub));
    && sub in after.subs && after.subs[sub] == alone
    && HandedTo(outs, sub) == Results(results)
  }

  /**
   On every run from a new server, a subscription created in it is a run of one subscription on its own, with
   the counts it was created with: the engine mixes up no two of them, and every law of such runs holds of it.
   */
  lemma SubscriptionIsRun(start: Engine, before: seq<Call>, lifetime: nat, keepAlive: nat, calls: seq<Call>)
    requires Initial(start)
    requires var sub := Run(start, before).0.sys.subscriptionCounter + 1;
             forall c | c in calls :: c != Request(R.DeleteSubscription(sub))
    ensures var e := Run(start, before).0;
            var sub := e.sys.subscriptionCounter + 1;
            IsAlone(Step(e, Request(R.CreateSubscription(lifetime, keepAlive))).0, calls, sub, lifetime, keepAlive)
  {
    hide Run, Step, Sound, AllActions, S.Run, S.Fresh;
    RunsFromStartAreSound(start, before);
    var e := Run(start, before).0;
    NewSubscription(e, lifetime, keepAlive);
    StepKeepsSound(e, Request(R.CreateSubscription(lifetime, keepAlive)));
    RunProjects(Step(e, Request(R.CreateSubscription(lifetime, keepAlive))).0, calls, e.sys.subscriptionCounter + 1);
  }

  // ----- Two of the laws, of the engine -----

  function TimerCalls(calls: seq<Call>, sub: nat): nat {
    if calls == [] then 0
    else TimerCalls(calls[..|calls| - 1], sub) + if calls[|calls| - 1] == Timer(sub) then 1 else 0
  }

  lemma {:induction false} ClocksAppend(a: seq<Action>, b: seq<Action>)
    ensures S.Clocks(a + b) == S.Clocks(a) + S.Clocks(b)
    decreases |b|
  {
    if b == [] {
      assert a + b == a;
    } else {
      assert (a + b)[..|a + b| - 1] == a + b[..|b| - 1];
      ClocksAppend(a, b[..|b| - 1]);
    }
  }

  lemma {:induction false} QueueingIsQuiet(kind: S.Kind, posts: Posts, n: nat)
    ensures S.Clocks(Queueing(kind, posts, n)) == 0
    ensures forall a | a in Queueing(kind, posts, n) :: a.Queue?
  {
    if n > 0 {
      QueueingIsQuiet(kind, posts, n - 1);
      var last: seq<Action> := if n - 1 in posts then [S.Queue(kind, n - 1, posts[n - 1].0, posts[n - 1].1)] else [];
      ClocksAppend(Queueing(kind, posts, n - 1), last);
      assert last != [] ==> last[..0] == [];
    }
  }

  lemma CallClocks(e: Engine, c: Call, sub: nat)
    requires sub in e.sys.services
    ensures S.Clocks(ActionsOf(e, c, sub)) == if c == Timer(sub) then 1 else 0
    ensures !c.Publish? ==> forall a | a in ActionsOf(e, c, sub) :: !a.PublishRequest?
  {
    var actions := ActionsOf(e, c, sub);
    if |actions| == 1 {
      assert actions[..0] == [];
    }
    forall kind, posts, n
      ensures S.Clocks(Queueing(kind, posts, n)) == 0
      ensures forall a | a in Queueing(kind, posts, n) :: a.Queue?
    {
      QueueingIsQuiet(kind, posts, n);
    }
    hide Queueing, WriteNotices, CreateDataChange;
  }

  lemma {:induction false} AllClocks(e: Engine, calls: seq<Call>, sub: nat)
    requires Sound(e) && sub in e.subs && forall c | c in calls :: c != Request(R.DeleteSubscription(sub))
    ensures S.Clocks(AllActions(e, calls, sub)) == TimerCalls(calls, sub)
    ensures (forall c | c in calls :: !c.Publish?) ==> forall a | a in AllActions(e, calls, sub) :: !a.PublishRequest?
  {
    hide Sound, Run, ActionsOf;
    if calls != [] {
      var n := |calls| - 1;
      assert calls[n] in calls && forall c | c in calls[..n] :: c in calls;
      AllClocks(e, calls[..n], sub);
      RunProjects(e, calls[..n], sub);
      RunIsSound(e, calls[..n]);
      var before := Run(e, calls[..n]).0;
      KnownItems(before, sub);
      CallClocks(before, calls[n], sub);
      ClocksAppend(AllActions(e, calls[..n], sub), ActionsOf(before, calls[n], sub));
    }
  }

  /**
   Without publish requests a subscription of the engine stops in time, whatever is written, triggered, created
   and deleted around it.
   */
  lemma SubscriptionsExpire(start: Engine, before: seq<Call>, lifetime: nat, keepAlive: nat, calls: seq<Call>)
    requires Initial(start)
    requires var sub := Run(start, before).0.sys.subscriptionCounter + 1;
             && (forall c | c in calls :: c != Request(R.DeleteSubscription(sub)) && !c.Publish?)
             && TimerCalls(calls, sub) >= lifetime * (keepAlive + 2) + 2
    ensures var e := Run(start, before).0;
            var sub := e.sys.subscriptionCounter + 1;
            var after := Run(Step(e, Request(R.CreateSubscription(lifetime, keepAlive))).0, calls).0;
            sub in after.subs && after.subs[sub].stopped
  {
    hide Run, Step, Sound, AllActions, TimerCalls, IsAlone;
    SubscriptionIsRun(start, before, lifetime, keepAlive, calls);
    RunsFromStartAreSound(start, before);
    var e := Run(start, before).0;
    NewSubscription(e, lifetime, keepAlive);
    StepKeepsSound(e, Request(R.CreateSubscription(lifetime, keepAlive)));
    var created := Step(e, Request(R.CreateSubscription(lifetime, keepAlive))).0;
    AllClocks(created, calls, e.sys.subscriptionCounter + 1);
    AloneExpires(created, calls, e.sys.subscriptionCounter + 1, lifetime, keepAlive);
  }

  lemma AloneExpires(e: Engine, calls: seq<Call>, sub: nat, lifetime: nat, keepAlive: nat)
    requires IsAlone(e, calls, sub, lifetime, keepAlive)
    requires S.Clocks(AllActions(e, calls, sub)) >= lifetime * (keepAlive + 2) + 2
    requires forall a | a in AllActions(e, calls, sub) :: !a.PublishRequest?
    ensures sub in Run(e, calls).0.subs && Run(e, calls).0.subs[sub].stopped
  {
    hide Run, AllActions, S.Run, S.Fresh, S.Clocks, HandedTo, Results;
    S.BoundedExpiry(lifetime, keepAlive, AllActions(e, calls, sub));
  }

  function DataCount(results: seq<S.PublishResult<Content>>): nat {
    if results == [] then 0
    else
      var m := results[|results| - 1].message;
      DataCount(results[..|results| - 1]) + if m == S.Message(m.sequenceNumber, map[], map[], None) then 0 else 1
  }

  /** Each result carries the number that follows the non-empty ones handed out before it. */
  predicate NumberedInOrder(results: seq<S.PublishResult<Content>>) {
    forall i | 0 <= i < |results| :: results[i].message.sequenceNumber == 1 + DataCount(results[..i])
  }

  predicate OutsNumbered(outs: seq<Result>) {
    forall i | 0 <= i < |outs| && outs[i].Some? ::
      outs[i].value.message.sequenceNumber == 1 + S.DataMessages(outs[..i])
  }

  lemma NumberedBefore(outs: seq<Result>)
    requires outs != [] && OutsNumbered(outs)
    ensures OutsNumbered(outs[..|outs| - 1])
  {
    var front := outs[..|outs| - 1];
    forall i | 0 <= i < |front| && front[i].Some?
      ensures front[i].value.message.sequenceNumber == 1 + S.DataMessages(front[..i])
    {
      assert front[..i] == outs[..i] && front[i] == outs[i];
    }
  }

  lemma OneMoreOut(outs: seq<Result>)
    requires outs != []
    ensures var (front, last) := (outs[..|outs| - 1], outs[|outs| - 1]);
            && Results(outs) == Results(front) + (if last.Some? then [last.value] else [])
            && (last.None? ==> S.DataMessages(outs) == S.DataMessages(front))
            && (last.Some? ==>
                  var m := last.value.message;
                  S.DataMessages(outs) ==
                  S.DataMessages(front) + if m == S.Message(m.sequenceNumber, map[], map[], None) then 0 else 1)
  {
    if outs[|outs| - 1].Some? {
      OnlyEmptyIsNoData(outs[|outs| - 1].value.message);
    }
    hide S.Message.HasData;
  }

  lemma {:induction false} ResultsAreNumbered(outs: seq<Result>)
    requires OutsNumbered(outs)
    ensures NumberedInOrder(Results(outs)) && DataCount(Results(outs)) == S.DataMessages(outs)
  {
    if outs != [] {
      hide Results, S.DataMessages, NumberedInOrder, DataCount;
      var n := |outs| - 1;
      NumberedBefore(outs);
      ResultsAreNumbered(outs[..n]);
      OneMoreOut(outs);
      if outs[n].Some? {
        NumberedNext(Results(outs[..n]), outs[n].value);
      } else {
        assert Results(outs) == Results(outs[..n]);
      }
    }
  }

  lemma NumberedNext(before: seq<S.PublishResult<Content>>, last: S.PublishResult<Content>)
    requires NumberedInOrder(before) && last.message.sequenceNumber == 1 + DataCount(before)
    ensures NumberedInOrder(before + [last])
    ensures DataCount(before + [last]) ==
            DataCount(before)
            + if last.message == S.Message(last.message.sequenceNumber, map[], map[], None) then 0 else 1
  {
    var all := before + [last];
    assert all[..|before|] == before;
    forall i | 0 <= i < |all|
      ensures all[i].message.sequenceNumber == 1 + DataCount(all[..i])
    {
      if i < |before| {
        assert all[..i] == before[..i];
      }
    }
  }

  /** The results of a subscription of the engine are numbered without a gap, whatever else it serves. */
  lemma EngineNumbers(start: Engine, before: seq<Call>, lifetime: nat, keepAlive: nat, calls: seq<Call>)
    requires Initial(start)
    requires var sub := Run(start, before).0.sys.subscriptionCounter + 1;
             forall c | c in calls :: c != Request(R.DeleteSubscription(sub))
    ensures var e := Run(start, before).0;
            var created := Step(e, Request(R.CreateSubscription(lifetime, keepAlive))).0;
            NumberedInOrder(HandedTo(Run(created, calls).1, e.sys.subscriptionCounter + 1))
  {
    hide Run, Step, IsAlone, HandedTo, NumberedInOrder;
    SubscriptionIsRun(start, before, lifetime, keepAlive, calls);
    var e := Run(start, before).0;
    var created := Step(e, Request(R.CreateSubscription(lifetime, keepAlive))).0;
    AloneIsNumbered(created, calls, e.sys.subscriptionCounter + 1, lifetime, keepAlive);
  }

  lemma AloneIsNumbered(e: Engine, calls: seq<Call>, sub: nat, lifetime: nat, keepAlive: nat)
    requires IsAlone(e, calls, sub, lifetime, keepAlive)
    ensures NumberedInOrder(HandedTo(Run(e, calls).1, sub))
  {
    hide Run, AllActions, S.Run, S.Fresh, S.DataMessages, HandedTo, Results, NumberedInOrder;
    S.GaplessNumbers(lifetime, keepAlive, AllActions(e, calls, sub));
    ResultsAreNumbered(S.Run(S.Fresh(lifetime, keepAlive), AllActions(e, calls, sub)).1);
  }
}
