/** The list of loaded objects that debuggers read (src/utils/debug.rs): nodes linked both ways, the head in
    the debug structure, the tail kept beside it. */
module LinkMapList {

  class LinkMap {
    var lNext: LinkMap?
    var lPrev: LinkMap?
    var lReal: LinkMap?

    constructor ()
      ensures lNext == null && lPrev == null
    {
      lNext, lPrev, lReal := null, null, null;
    }
  }

  datatype RtState = Consistent | Adding | Deleting

  function Without<T>(s: seq<T>, k: nat): seq<T>
    requires k < |s|
  {
    s[..k] + s[k + 1..]
  }

  /** `attached`: there is a debug structure; `ownsNamespace`: it is the loader's own, not the host's. */
  class DebugList {
    var attached: bool
    var ownsNamespace: bool
    var head: LinkMap?
    var tail: LinkMap?
    var state: RtState
    ghost var nodes: seq<LinkMap>

    /** Following `lNext` from the head gives `nodes`, following `lPrev` from the end gives them backwards. */
    ghost predicate Chained()
      reads this, nodes
    {
      && (forall i, j :: 0 <= i < j < |nodes| ==> nodes[i] != nodes[j])
      && (forall i {:trigger nodes[i].lNext} :: 0 <= i < |nodes| ==>
            nodes[i].lNext == if i + 1 < |nodes| then nodes[i + 1] else null)
      && (forall i {:trigger nodes[i].lPrev} :: 0 <= i < |nodes| ==>
            nodes[i].lPrev == if i > 0 then nodes[i - 1] else null)
      && head == if nodes == [] then null else nodes[0]
    }

    ghost predicate Valid()
      reads this, nodes
    {
      Chained() && tail == if nodes == [] then null else nodes[|nodes| - 1]
    }

    constructor ()
      ensures Valid() && nodes == [] && attached && ownsNamespace
    {
      attached, ownsNamespace, head, tail, state, nodes := true, true, null, null, Consistent, [];
    }

    /** The debugger is told the new state; it stops there and reads the list, so it must find it well
        formed. */
    method CallDebugState(now: RtState)
      requires Valid()
      modifies this`state
      ensures Valid() && state == now
    {
      state := now;
    }

    /** Taking over the host's list: the tail is found by walking it. */
    method AdoptHostList(ghost host: seq<LinkMap>)
      requires Chained() && nodes == host
      modifies this`attached, this`ownsNamespace, this`tail
      ensures Valid() && nodes == host && attached && !ownsNamespace
    {
      attached, ownsNamespace := true, false;
      var cur := head;
      if cur != null {
        ghost var k := 0;
        while cur.lNext != null
          invariant 0 <= k < |nodes| && cur == nodes[k]
          decreases |nodes| - k
        {
          cur, k := cur.lNext, k + 1;
        }
      }
      tail := cur;
    }

    method Add(node: LinkMap)
      requires Valid() && node !in nodes
      modifies this, nodes, node
      ensures Valid() && attached == old(attached)
      ensures nodes == if attached then old(nodes) + [node] else old(nodes)
      ensures attached ==> state == Consistent
    {
      if !attached {
        return;
      }
      if ownsNamespace && node.lReal == null {
        node.lReal := node;
      } else if !ownsNamespace {
        node.lReal := null;
      }
      LinkLast(node);
      CallDebugState(Adding);
      CallDebugState(Consistent);
    }

    method LinkLast(node: LinkMap)
      requires Valid() && node !in nodes
      modifies this, nodes, node
      ensures Valid() && nodes == old(nodes) + [node]
      ensures attached == old(attached) && state == old(state)
    {
      node.lPrev := tail;
      node.lNext := null;
      if tail == null {
        head := node;
      } else {
        tail.lNext := node;
      }
      tail := node;
      nodes := nodes + [node];
    }

    /** Dropping a library's node: `k` is its place. */
    method Unlink(node: LinkMap, ghost k: nat)
      requires Valid() && k < |nodes| && nodes[k] == node
      modifies this, nodes
      ensures Valid() && nodes == Without(old(nodes), k)
      ensures attached == old(attached) && state == old(state)
    {
      if head == node && tail == node {
        head, tail := null, null;
      } else if head == node {
        head := node.lNext;
        node.lNext.lPrev := null;
      } else if tail == node {
        var prev := node.lPrev;
        prev.lNext := null;
        tail := prev;
      } else {
        var prev, next := node.lPrev, node.lNext;
        prev.lNext := next;
        next.lPrev := prev;
      }
      nodes := Without(nodes, k);
    }

    /** A node that was never added is recognised by its missing `lPrev`. */
    method Drop(node: LinkMap)
      requires Valid() && (node in nodes || node.lPrev == null)
      modifies this, nodes
      ensures Valid() && attached == old(attached)
      ensures !old(attached) || node !in old(nodes) ==> nodes == old(nodes) && state == old(state)
      ensures old(attached) && node in old(nodes) ==>
                state == Consistent &&
                exists k :: 0 <= k < |old(nodes)| && old(nodes)[k] == node && nodes == Without(old(nodes), k)
    {
      if !attached {
        return;
      }
      if head != node && node.lPrev == null {
        return;
      }
      assert node in nodes;
      ghost var k :| 0 <= k < |nodes| && nodes[k] == node;
      CallDebugState(Deleting);
      Unlink(node, k);
      CallDebugState(Consistent);
    }
  }

  // ---------------------------------------------------------------- runs

  datatype Event<T> = Added(node: T) | Dropped(node: T)

  /** What the list should hold after a history of additions and drops: the added nodes that were not
      dropped, in the order of addition. */
  function Expected<T(==)>(history: seq<Event<T>>): (r: seq<T>) {
    if history == [] then []
    else
      var before := Expected(history[..|history| - 1]);
      match history[|history| - 1]
      case Added(n) => before + [n]
      case Dropped(n) => Filtered(before, n)
  }

  function Filtered<T(==)>(s: seq<T>, n: T): (r: seq<T>)
    ensures forall x :: x in r ==> x in s && x != n
    ensures forall x :: x in s && x != n ==> x in r
  {
    if s == [] then [] else (if s[0] == n then [] else [s[0]]) + Filtered(s[1..], n)
  }

  /** Removing one place and filtering one node are the same where nodes are distinct. */
  lemma {:induction false} FilteredIsWithout<T>(s: seq<T>, k: nat)
    requires k < |s| && forall i, j :: 0 <= i < j < |s| ==> s[i] != s[j]
    ensures Filtered(s, s[k]) == Without(s, k)
  {
    if k == 0 {
      FilteredAbsent(s[1..], s[0]);
    } else {
      FilteredIsWithout(s[1..], k - 1);
      assert Without(s, k) == [s[0]] + Without(s[1..], k - 1);
    }
  }

  lemma {:induction false} FilteredAbsent<T>(s: seq<T>, n: T)
    requires n !in s
    ensures Filtered(s, n) == s
  {
    if s != [] {
      FilteredAbsent(s[1..], n);
    }
  }

  /** A node is added at most once, and dropped at most once, never before it is added. */
  ghost predicate Proper<T>(history: seq<Event<T>>) {
    forall i, j :: 0 <= i < j < |history| && history[i].node == history[j].node ==>
                   history[i].Added? && history[j].Dropped?
  }

  ghost function AllNodes<T>(history: seq<Event<T>>): set<T> {
    set e | e in history :: e.node
  }

  lemma {:induction false} FilteredAfter<T>(front: seq<T>, s: seq<T>, n: T)
    requires n !in front
    ensures Filtered(front + s, n) == front + Filtered(s, n)
  {
    if front == [] {
      assert front + s == s;
    } else {
      assert (front + s)[1..] == front[1..] + s;
      FilteredAfter(front[1..], s, n);
    }
  }

  lemma {:induction false} ExpectedNodes<T>(history: seq<Event<T>>)
    ensures forall x :: x in Expected(history) ==> x in AllNodes(history)
  {
    hide Filtered;
    if history != [] {
      var n := |history| - 1;
      ExpectedNodes(history[..n]);
      NodesGrow(history, n);
      assert history[n] in history;
    }
  }

  lemma NodesGrow<T>(history: seq<Event<T>>, n: nat)
    requires n <= |history|
    ensures AllNodes(history[..n]) <= AllNodes(history)
  {
    assert forall e :: e in history[..n] ==> e in history;
  }

  /** What is needed of the event at n: its node is new if it is added, and comes from the history. */
  lemma EventAt<T>(history: seq<Event<T>>, n: nat)
    requires Proper(history) && n < |history|
    ensures history[n].node in AllNodes(history)
    ensures history[n].Added? ==> history[n].node !in Expected(history[..n])
    ensures forall x :: x in Expected(history[..n]) ==> x in AllNodes(history)
    ensures history[n].Dropped? ==> forall j :: n < j < |history| ==> history[j].node != history[n].node
  {
    ExpectedNodes(history[..n]);
    NodesGrow(history, n);
    assert history[n] in history;
    if history[n].Added? {
      assert history[n].node !in AllNodes(history[..n]);
    }
    hide Expected;
  }

  lemma ExpectedNext<T>(history: seq<Event<T>>, n: nat)
    requires n < |history|
    ensures var before, node := Expected(history[..n]), history[n].node;
            Expected(history[..n + 1]) == if history[n].Added? then before + [node] else Filtered(before, node)
  {
    assert history[..n + 1][..n] == history[..n];
  }

  /** One drop, seen from the nodes behind the ones the list started with. */
  lemma DropBehind(host: seq<LinkMap>, own: seq<LinkMap>, node: LinkMap, after: seq<LinkMap>)
    requires node !in host && forall i, j :: 0 <= i < j < |host + own| ==> (host + own)[i] != (host + own)[j]
    requires node !in host + own ==> after == host + own
    requires node in host + own ==>
               exists k :: 0 <= k < |host + own| && (host + own)[k] == node && after == Without(host + own, k)
    ensures after == host + Filtered(own, node)
  {
    hide Filtered, Without;
    FilteredAfter(host, own, node);
    if node in host + own {
      var k :| 0 <= k < |host + own| && (host + own)[k] == node && after == Without(host + own, k);
      FilteredIsWithout(host + own, k);
    } else {
      FilteredAbsent(host + own, node);
    }
  }

  /** One event on a list that holds `host` and then `own`. */
  method ReplayOne(list: DebugList, event: Event<LinkMap>, ghost host: seq<LinkMap>, ghost own: seq<LinkMap>)
    requires list.Valid() && list.attached && list.nodes == host + own && event.node !in host
    requires event.Added? ==> event.node !in own
    requires event.node !in list.nodes ==> event.node.lPrev == null
    modifies list, list.nodes, event.node
    ensures list.Valid() && list.attached
    ensures list.nodes == host + if event.Added? then own + [event.node] else Filtered(own, event.node)
    ensures forall x :: x in old(list.nodes) && x != event.node ==> x in list.nodes
    ensures event.Added? ==> event.node in list.nodes
  {
    hide Filtered, Without;
    match event {
      case Added(node) =>
        list.Add(node);
      case Dropped(node) =>
        list.Drop(node);
        DropBehind(host, own, node, list.nodes);
    }
  }

  /** Any proper history, node by node, on any list that is attached, such as one taken over from the host:
      the list is valid throughout and ends up as what it held, followed by the added nodes as expected. Nodes
      that are dropped without having been added must come with an empty `lPrev`, as they are constructed. */
  method Replay(list: DebugList, history: seq<Event<LinkMap>>)
    requires list.Valid() && list.attached && Proper(history)
    requires forall x :: x in list.nodes ==> x !in AllNodes(history)
    requires forall i :: 0 <= i < |history| ==> history[i].node.lPrev == null
    modifies list, AllNodes(history), list.nodes
    ensures list.Valid() && list.attached && list.nodes == old(list.nodes) + Expected(history)
  {
    ghost var host := list.nodes;
    hide DebugList.Valid, DebugList.Chained, Filtered;
    for n := 0 to |history|
      invariant list.Valid() && list.attached
      invariant list.nodes == host + Expected(history[..n])
      invariant forall j :: n <= j < |history| && history[j].node !in list.nodes ==> history[j].node.lPrev == null
    {
      ExpectedNext(history, n);
      EventAt(history, n);
      hide AllNodes, Expected, Proper;
      ghost var before := list.nodes;
      ReplayOne(list, history[n], host, Expected(history[..n]));
      forall j | n < j < |history| && history[j].node !in list.nodes
        ensures history[j].node.lPrev == null
      {
        assert history[j].node !in before && history[j].node != history[n].node;
      }
    }
    assert history[..|history|] == history;
  }
}
