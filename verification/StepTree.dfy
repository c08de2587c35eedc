/** The step tree of a session: nodes shared through a map of step keys, built by
    pushing each node into the list of its parent, then rendered recursively. */
module StepTree {

  import opened Collections

  datatype Trace = Trace(traceId: string, stepName: string, parentStepId: string)

  function Key(t: Trace): string {
    if t.stepName != "" then t.stepName else t.traceId
  }

  /** The trace whose node the map ends up holding under a key: the last one. */
  function Owner(traces: seq<Trace>, key: string): (o: Option<nat>)
    ensures o.Some? ==> o.value < |traces| && Key(traces[o.value]) == key
    ensures forall i :: 0 <= i < |traces| && Key(traces[i]) == key ==> o.Some? && i <= o.value
  {
    if traces == [] then None
    else if Key(traces[|traces| - 1]) == key then Some(|traces| - 1)
    else Owner(traces[..|traces| - 1], key)
  }

  /** The node pushed for trace i. */
  function Slot(traces: seq<Trace>, i: nat): (s: nat)
    requires i < |traces|
    ensures i <= s < |traces| && Key(traces[s]) == Key(traces[i])
  {
    Owner(traces, Key(traces[i])).value
  }

  /** None: the node of trace i goes to the roots. */
  function Parent(traces: seq<Trace>, i: nat): (p: Option<nat>)
    requires i < |traces|
    ensures p.Some? ==> p.value < |traces|
  {
    if traces[i].parentStepId == "" then None else Owner(traces, traces[i].parentStepId)
  }

  /** Where the second pass puts a node: the node of slot goes under that of parent,
      or to the roots. */
  datatype Link = Link(slot: nat, parent: Option<nat>)

  type Links = links: seq<Link> |
    forall i :: 0 <= i < |links| ==>
      links[i].slot < |links| && (links[i].parent.Some? ==> links[i].parent.value < |links|)

  function LinksOf(traces: seq<Trace>): (links: Links)
    ensures |links| == |traces|
    ensures forall i :: 0 <= i < |traces| ==> links[i] == Link(Slot(traces, i), Parent(traces, i))
  {
    seq(|traces|, i requires 0 <= i < |traces| => Link(Slot(traces, i), Parent(traces, i)))
  }

  /** What the first n traces push into the list of p, or into the roots. */
  function Placed(links: Links, n: nat, p: Option<nat>): (list: seq<nat>)
    requires n <= |links|
    ensures forall i :: 0 <= i < |list| ==> list[i] < |links|
  {
    if n == 0 then []
    else if links[n - 1].parent == p then Placed(links, n - 1, p) + [links[n - 1].slot]
    else Placed(links, n - 1, p)
  }

  // ---- Building the shared nodes -------------------------------------------

  class StepNode {
    const trace: Trace
    var children: seq<StepNode>

    constructor (trace: Trace)
      ensures this.trace == trace && children == []
    {
      this.trace, children := trace, [];
    }
  }

  ghost function Pick(nodes: seq<StepNode>, list: seq<nat>): seq<StepNode>
    requires forall i :: 0 <= i < |list| ==> list[i] < |nodes|
  {
    seq(|list|, i requires 0 <= i < |list| => nodes[list[i]])
  }

  ghost predicate Distinct(nodes: seq<StepNode>) {
    forall i, j :: 0 <= i < j < |nodes| ==> nodes[i] != nodes[j]
  }

  /** nodes[i] is the node made for trace i; the map keeps the last under each key. */
  ghost predicate Holds(traces: seq<Trace>, byKey: map<string, StepNode>, nodes: seq<StepNode>)
  {
    && |nodes| == |traces| && Distinct(nodes)
    && (forall i :: 0 <= i < |traces| ==> nodes[i].trace == traces[i])
    && (forall k :: k in byKey <==> Owner(traces, k).Some?)
    && (forall k :: k in byKey ==> byKey[k] == nodes[Owner(traces, k).value])
  }

  lemma HoldsOneMore(
      traces: seq<Trace>, n: nat, byKey: map<string, StepNode>, nodes: seq<StepNode>, node: StepNode)
    requires n < |traces| && Holds(traces[..n], byKey, nodes) && node !in nodes && node.trace == traces[n]
    ensures Holds(traces[..n + 1], byKey[Key(traces[n]) := node], nodes + [node])
  {
    assert traces[..n + 1][..n] == traces[..n];
  }

  /** The first pass of buildTree. */
  method MakeNodes(traces: seq<Trace>) returns (byKey: map<string, StepNode>, ghost nodes: seq<StepNode>)
    ensures Holds(traces, byKey, nodes) && fresh(nodes)
    ensures forall i :: 0 <= i < |nodes| ==> nodes[i].children == []
  {
    byKey, nodes := map[], [];
    for n := 0 to |traces|
      invariant Holds(traces[..n], byKey, nodes) && fresh(nodes)
      invariant forall i :: 0 <= i < n ==> nodes[i].children == []
    {
      var node := new StepNode(traces[n]);
      HoldsOneMore(traces, n, byKey, nodes, node);
      byKey := byKey[Key(traces[n]) := node];
      nodes := nodes + [node];
    }
    assert traces[..|traces|] == traces;
  }

  ghost predicate Linked(links: Links, n: nat, nodes: seq<StepNode>)
    requires n <= |links| == |nodes|
    reads nodes
  {
    forall p :: 0 <= p < |nodes| ==> nodes[p].children == Pick(nodes, Placed(links, n, Some(p)))
  }

  lemma PickAppended(nodes: seq<StepNode>, list: seq<nat>, c: nat)
    requires c < |nodes| && forall i :: 0 <= i < |list| ==> list[i] < |nodes|
    ensures Pick(nodes, list + [c]) == Pick(nodes, list) + [nodes[c]]
  {
  }

  method Push(parent: StepNode, node: StepNode, ghost nodes: seq<StepNode>, ghost p: nat)
    requires p < |nodes| && nodes[p] == parent && Distinct(nodes)
    modifies parent
    ensures parent.children == old(parent.children) + [node]
    ensures forall q :: 0 <= q < |nodes| && q != p ==> nodes[q].children == old(nodes[q].children)
  {
    parent.children := parent.children + [node];
  }

  /** The body of the second pass: the node of trace n goes to the roots, or to the
      list of its parent. */
  method PlaceNode(
      traces: seq<Trace>, n: nat, byKey: map<string, StepNode>, roots: seq<StepNode>,
      ghost links: Links, ghost nodes: seq<StepNode>)
    returns (roots': seq<StepNode>)
    requires n < |traces| && links == LinksOf(traces) && Holds(traces, byKey, nodes) && Linked(links, n, nodes)
    requires roots == Pick(nodes, Placed(links, n, None))
    modifies nodes
    ensures Linked(links, n + 1, nodes) && roots' == Pick(nodes, Placed(links, n + 1, None))
    ensures traces[n].parentStepId == "" || traces[n].parentStepId !in byKey ==>
              roots' == roots + [byKey[Key(traces[n])]]
              && forall q :: 0 <= q < |nodes| ==> nodes[q].children == old(nodes[q].children)
    ensures traces[n].parentStepId != "" && traces[n].parentStepId in byKey ==>
              var parent := byKey[traces[n].parentStepId];
              roots' == roots && parent.children == old(parent.children) + [byKey[Key(traces[n])]]
              && forall q :: 0 <= q < |nodes| && nodes[q] != parent ==> nodes[q].children == old(nodes[q].children)
  {
    var node := byKey[Key(traces[n])];
    assert node == nodes[links[n].slot];
    var parent := traces[n].parentStepId;
    if parent == "" || parent !in byKey {
      PickAppended(nodes, Placed(links, n, None), links[n].slot);
      roots' := roots + [node];
    } else {
      ghost var p := links[n].parent.value;
      PickAppended(nodes, Placed(links, n, Some(p)), links[n].slot);
      Push(byKey[parent], node, nodes, p);
      roots' := roots;
    }
  }

  lemma NothingLinkedYet(links: Links, nodes: seq<StepNode>)
    requires |links| == |nodes| && forall i :: 0 <= i < |nodes| ==> nodes[i].children == []
    ensures Linked(links, 0, nodes) && Pick(nodes, Placed(links, 0, None)) == []
  {
  }

  // ---- The lists in terms of the traces ------------------------------------

  /** The step name of the trace is the key, or its id is when it has no step name. */
  ghost predicate HasKey(t: Trace, key: string) {
    (t.stepName != "" && t.stepName == key) || (t.stepName == "" && t.traceId == key)
  }

  /** Trace s is the last one with the key. */
  ghost predicate LastWith(traces: seq<Trace>, key: string, s: nat) {
    s < |traces| && HasKey(traces[s], key) && forall j :: s < j < |traces| ==> !HasKey(traces[j], key)
  }

  /** The trace names no parent, or one that is not there. */
  ghost predicate IsRoot(traces: seq<Trace>, i: nat)
    requires i < |traces|
  {
    traces[i].parentStepId == "" || forall j :: 0 <= j < |traces| ==> !HasKey(traces[j], traces[i].parentStepId)
  }

  /** The parent that the trace names is p, the last trace with that key. */
  ghost predicate IsChild(traces: seq<Trace>, i: nat, p: nat)
    requires i < |traces|
  {
    traces[i].parentStepId != "" && LastWith(traces, traces[i].parentStepId, p)
  }

  ghost predicate IsNodeOf(traces: seq<Trace>, nodes: seq<StepNode>, i: nat, node: StepNode, s: nat)
    requires |nodes| == |traces| && i < |traces|
  {
    s < |nodes| && node == nodes[s] && exists key :: HasKey(traces[i], key) && LastWith(traces, key, s)
  }

  /** The node is that of the last trace with the key of trace i. */
  ghost predicate IsNodeFor(traces: seq<Trace>, nodes: seq<StepNode>, i: nat, node: StepNode)
    requires |nodes| == |traces| && i < |traces|
  {
    exists s :: IsNodeOf(traces, nodes, i, node, s)
  }

  /** The list holds one node for each of the traces at, in their order: that of the last
      trace with the same key. */
  ghost predicate PushedInOrder(traces: seq<Trace>, nodes: seq<StepNode>, list: seq<StepNode>, at: seq<nat>)
    requires |nodes| == |traces|
  {
    && |at| == |list| && (forall k, l :: 0 <= k < l < |at| ==> at[k] < at[l])
    && forall k :: 0 <= k < |at| ==> at[k] < |traces| && IsNodeFor(traces, nodes, at[k], list[k])
  }

  /** The roots are those of exactly the traces without a known parent. */
  ghost predicate RootsAreRight(traces: seq<Trace>, nodes: seq<StepNode>, roots: seq<StepNode>)
    requires |nodes| == |traces|
  {
    exists at :: PushedInOrder(traces, nodes, roots, at)
                 && forall i :: 0 <= i < |traces| ==> (i in at <==> IsRoot(traces, i))
  }

  /** The children of node p are those of exactly the traces that name it. */
  ghost predicate ChildrenAreRight(traces: seq<Trace>, nodes: seq<StepNode>, children: seq<StepNode>, p: nat)
    requires |nodes| == |traces|
  {
    exists at :: PushedInOrder(traces, nodes, children, at)
                 && forall i :: 0 <= i < |traces| ==> (i in at <==> IsChild(traces, i, p))
  }

  /** The positions of the links that lead to q. */
  ghost function LinkedTo(links: Links, n: nat, q: Option<nat>): (at: seq<nat>)
    requires n <= |links|
    ensures forall i :: i in at <==> 0 <= i < n && links[i].parent == q
    ensures forall k :: 0 <= k < |at| ==> at[k] < n
    ensures forall k, l :: 0 <= k < l < |at| ==> at[k] < at[l]
  {
    if n == 0 then [] else LinkedTo(links, n - 1, q) + if links[n - 1].parent == q then [n - 1] else []
  }

  lemma OneMoreLink(links: Links, m: nat, q: Option<nat>)
    requires m < |links|
    ensures LinkedTo(links, m + 1, q) == LinkedTo(links, m, q) + if links[m].parent == q then [m] else []
    ensures Placed(links, m + 1, q) == Placed(links, m, q) + if links[m].parent == q then [links[m].slot] else []
  {
  }

  /** Each entry of the list is the slot of the link at the same place. */
  ghost predicate SlotsAt(links: Links, list: seq<nat>, at: seq<nat>) {
    |list| == |at| && forall k :: 0 <= k < |at| ==> at[k] < |links| && list[k] == links[at[k]].slot
  }

  lemma {:induction false} PlacedAt(links: Links, n: nat, q: Option<nat>)
    requires n <= |links|
    ensures SlotsAt(links, Placed(links, n, q), LinkedTo(links, n, q))
    decreases n
  {
    if n == 0 {
    } else {
      hide Placed, LinkedTo;
      PlacedAt(links, n - 1, q);
      OneMoreLink(links, n - 1, q);
    }
  }

  lemma SlotIsLast(traces: seq<Trace>, i: nat)
    requires i < |traces|
    ensures LastWith(traces, Key(traces[i]), LinksOf(traces)[i].slot)
  {
  }

  lemma ParentIsNamed(traces: seq<Trace>, i: nat)
    requires i < |traces|
    ensures LinksOf(traces)[i].parent == None <==> IsRoot(traces, i)
    ensures forall p: nat :: LinksOf(traces)[i].parent == Some(p) <==> IsChild(traces, i, p)
  {
    var key := traces[i].parentStepId;
    assert Owner(traces, key).Some? ==> LastWith(traces, key, Owner(traces, key).value);
  }

  lemma SlotIsNodeOf(traces: seq<Trace>, nodes: seq<StepNode>, i: nat)
    requires |nodes| == |traces| && i < |traces|
    ensures IsNodeFor(traces, nodes, i, nodes[LinksOf(traces)[i].slot])
  {
    hide LastWith;
    var s := LinksOf(traces)[i].slot;
    SlotIsLast(traces, i);
    assert HasKey(traces[i], Key(traces[i]));
    assert IsNodeOf(traces, nodes, i, nodes[s], s);
  }

  lemma ListIsRight(traces: seq<Trace>, nodes: seq<StepNode>, q: Option<nat>)
    requires |nodes| == |traces|
    ensures var links := LinksOf(traces);
            PushedInOrder(traces, nodes, Pick(nodes, Placed(links, |links|, q)), LinkedTo(links, |links|, q))
  {
    hide IsNodeFor, Placed, LinkedTo, LinksOf;
    var links := LinksOf(traces);
    var at, list := LinkedTo(links, |links|, q), Pick(nodes, Placed(links, |links|, q));
    PlacedAt(links, |links|, q);
    assert |list| == |at|;
    forall k | 0 <= k < |at|
      ensures at[k] < |traces| && IsNodeFor(traces, nodes, at[k], list[k])
    {
      SlotIsNodeOf(traces, nodes, at[k]);
      assert list[k] == nodes[Placed(links, |links|, q)[k]] == nodes[links[at[k]].slot];
    }
  }

  lemma LinkedChildren(links: Links, n: nat, nodes: seq<StepNode>, p: nat)
    requires n <= |links| == |nodes| && Linked(links, n, nodes) && p < |nodes|
    ensures nodes[p].children == Pick(nodes, Placed(links, n, Some(p)))
  {
  }

  lemma TreeIsRight(traces: seq<Trace>, nodes: seq<StepNode>)
    requires |nodes| == |traces|
    ensures RootsAreRight(traces, nodes, Pick(nodes, Placed(LinksOf(traces), |traces|, None)))
    ensures forall p :: 0 <= p < |traces| ==>
                          ChildrenAreRight(traces, nodes, Pick(nodes, Placed(LinksOf(traces), |traces|, Some(p))), p)
  {
    hide Pick, Placed, IsRoot, IsChild, PushedInOrder, LinkedTo;
    var links := LinksOf(traces);
    forall i | 0 <= i < |traces|
      ensures links[i].parent == None <==> IsRoot(traces, i)
      ensures forall p: nat :: links[i].parent == Some(p) <==> IsChild(traces, i, p)
    {
      ParentIsNamed(traces, i);
    }
    ListIsRight(traces, nodes, None);
    forall p | 0 <= p < |traces|
      ensures ChildrenAreRight(traces, nodes, Pick(nodes, Placed(links, |traces|, Some(p))), p)
    {
      ListIsRight(traces, nodes, Some(p));
    }
  }

  method BuildTree(traces: seq<Trace>) returns (roots: seq<StepNode>, ghost nodes: seq<StepNode>)
    ensures |nodes| == |traces| && fresh(nodes) && Distinct(nodes)
    ensures forall i :: 0 <= i < |traces| ==> nodes[i].trace == traces[i]
    ensures roots == Pick(nodes, Placed(LinksOf(traces), |traces|, None))
    ensures Linked(LinksOf(traces), |traces|, nodes)
  {
    var byKey;
    hide Holds, Linked, Pick, Placed, LinksOf;
    byKey, nodes := MakeNodes(traces);
    ghost var links := LinksOf(traces);
    roots := [];
    NothingLinkedYet(links, nodes);
    for n := 0 to |traces|
      invariant Linked(links, n, nodes) && roots == Pick(nodes, Placed(links, n, None))
    {
      roots := PlaceNode(traces, n, byKey, roots, links, nodes);
    }
    TreeIsRight(traces, nodes);
    forall p | 0 <= p < |traces|
      ensures ChildrenAreRight(traces, nodes, nodes[p].children, p)
    {
      LinkedChildren(links, |traces|, nodes, p);
    }
  }

  // ---- Rendering -----------------------------------------------------------

  /** The traces shown by the column of p, top to bottom, with at most fuel levels
      of recursion; None when that is not enough. */
  function Render(links: Links, p: nat, fuel: nat): Option<seq<nat>>
    requires p < |links|
    decreases fuel, 0
  {
    if fuel == 0 then None
    else
      match RenderList(links, Placed(links, |links|, Some(p)), fuel - 1)
      case None => None
      case Some(below) => Some([p] + below)
  }

  function RenderList(links: Links, list: seq<nat>, fuel: nat): Option<seq<nat>>
    requires forall i :: 0 <= i < |list| ==> list[i] < |links|
    decreases fuel, |list| + 1
  {
    if list == [] then Some([])
    else
      match (RenderList(links, list[..|list| - 1], fuel), Render(links, list[|list| - 1], fuel))
      case (Some(a), Some(b)) => Some(a + b)
      case _ => None
  }

  /** Everything StepTree shows. */
  function Shown(links: Links, fuel: nat): Option<seq<nat>> {
    RenderList(links, Placed(links, |links|, None), fuel)
  }

  ghost predicate DistinctKeys(traces: seq<Trace>) {
    forall i, j :: 0 <= i < j < |traces| ==> Key(traces[i]) != Key(traces[j])
  }

  /** A trace keeps its own node exactly when no later trace has its key. */
  lemma OwnNodeIffLastOfItsKey(traces: seq<Trace>, i: nat)
    requires i < |traces|
    ensures LinksOf(traces)[i].slot == i <==> forall j :: i < j < |traces| ==> Key(traces[j]) != Key(traces[i])
  {
    assert Owner(traces, Key(traces[i])).Some?;
  }

  ghost predicate OwnSlots(links: Links) {
    forall i :: 0 <= i < |links| ==> links[i].slot == i
  }

  lemma DistinctKeysOwnSlots(traces: seq<Trace>)
    requires DistinctKeys(traces)
    ensures OwnSlots(LinksOf(traces))
  {
    forall i | 0 <= i < |traces|
      ensures LinksOf(traces)[i].slot == i
    {
      OwnNodeIffLastOfItsKey(traces, i);
    }
  }

  /** The k-th ancestor of i. */
  ghost function Up(links: Links, i: nat, k: nat): (u: Option<nat>)
    requires i < |links|
    ensures u.Some? ==> u.value < |links|
  {
    if k == 0 then Some(i)
    else
      match Up(links, i, k - 1)
      case None => None
      case Some(u) => links[u].parent
  }

  /** How many of the first fuel ancestors of i are p. */
  ghost function Hits(links: Links, i: nat, p: nat, fuel: nat): nat
    requires i < |links|
  {
    if fuel == 0 then 0
    else Hits(links, i, p, fuel - 1) + if Up(links, i, fuel - 1) == Some(p) then 1 else 0
  }

  /** The same for the ancestors below n that are placed under q. */
  ghost function HitsUnder(links: Links, i: nat, n: nat, q: Option<nat>, fuel: nat): nat
    requires i < |links| && n <= |links|
  {
    if fuel == 0 then 0
    else
      var u := Up(links, i, fuel - 1);
      HitsUnder(links, i, n, q, fuel - 1) + if u.Some? && u.value < n && links[u.value].parent == q then 1 else 0
  }

  ghost function HitsInList(links: Links, i: nat, list: seq<nat>, fuel: nat): nat
    requires i < |links|
  {
    if list == [] then 0
    else HitsInList(links, i, list[..|list| - 1], fuel) + Hits(links, i, list[|list| - 1], fuel)
  }

  lemma {:induction false} OneMoreCandidate(links: Links, i: nat, n: nat, q: Option<nat>, fuel: nat)
    requires i < |links| && n < |links|
    ensures HitsUnder(links, i, n + 1, q, fuel)
         == HitsUnder(links, i, n, q, fuel) + if links[n].parent == q then Hits(links, i, n, fuel) else 0
    decreases fuel
  {
    if fuel == 0 {
    } else {
      OneMoreCandidate(links, i, n, q, fuel - 1);
    }
  }

  lemma HitsAppended(links: Links, i: nat, list: seq<nat>, c: nat, fuel: nat)
    requires i < |links|
    ensures HitsInList(links, i, list + [c], fuel) == HitsInList(links, i, list, fuel) + Hits(links, i, c, fuel)
  {
    assert (list + [c])[..|list + [c]| - 1] == list;
  }

  lemma PlacedStep(links: Links, n: nat, q: Option<nat>)
    requires OwnSlots(links) && n < |links|
    ensures Placed(links, n + 1, q) == if links[n].parent == q then Placed(links, n, q) + [n] else Placed(links, n, q)
  {
  }

  lemma NothingPlacedYet(links: Links, q: Option<nat>)
    ensures Placed(links, 0, q) == []
  {
  }

  lemma ListHitsStep(
      links: Links, i: nat, m: nat, q: Option<nat>, fuel: nat, before: seq<nat>, after: seq<nat>)
    requires i < |links| && m < |links|
    requires HitsInList(links, i, before, fuel) == HitsUnder(links, i, m, q, fuel)
    requires after == if links[m].parent == q then before + [m] else before
    ensures HitsInList(links, i, after, fuel) == HitsUnder(links, i, m + 1, q, fuel)
  {
    OneMoreCandidate(links, i, m, q, fuel);
    HitsAppended(links, i, before, m, fuel);
  }

  lemma {:induction false} NoCandidates(links: Links, i: nat, q: Option<nat>, fuel: nat)
    requires i < |links|
    ensures HitsUnder(links, i, 0, q, fuel) == 0
    decreases fuel
  {
    if fuel == 0 {
    } else {
      NoCandidates(links, i, q, fuel - 1);
    }
  }

  lemma {:induction false} ListHits(links: Links, i: nat, n: nat, q: Option<nat>, fuel: nat)
    requires OwnSlots(links) && i < |links| && n <= |links|
    ensures HitsInList(links, i, Placed(links, n, q), fuel) == HitsUnder(links, i, n, q, fuel)
    decreases n
  {
    if n == 0 {
      NoCandidates(links, i, q, fuel);
    } else {
      var m := n - 1;
      ListHits(links, i, m, q, fuel);
      PlacedStep(links, m, q);
      var before, after := Placed(links, m, q), Placed(links, n, q);
      ListHitsStep(links, i, m, q, fuel, before, after);
    }
  }

  /** One level down is one ancestor less. */
  lemma {:induction false} HitsAreBelow(links: Links, i: nat, p: nat, fuel: nat)
    requires i < |links|
    ensures Hits(links, i, p, fuel + 1) == HitsUnder(links, i, |links|, Some(p), fuel) + if i == p then 1 else 0
    decreases fuel
  {
    if fuel > 0 {
      HitsAreBelow(links, i, p, fuel - 1);
    } else {
      assert Hits(links, i, p, 0) == 0;
    }
  }

  lemma CountFirst(p: nat, below: seq<nat>, i: nat)
    ensures multiset([p] + below)[i] == multiset(below)[i] + if i == p then 1 else 0
  {
  }

  lemma {:induction false} RenderCounts(links: Links, i: nat, p: nat, fuel: nat)
    requires OwnSlots(links) && i < |links| && p < |links| && Render(links, p, fuel).Some?
    ensures multiset(Render(links, p, fuel).value)[i] == Hits(links, i, p, fuel)
    decreases fuel, 0
  {
    var list := Placed(links, |links|, Some(p));
    var below := RenderList(links, list, fuel - 1);
    assert multiset(below.value)[i] == HitsUnder(links, i, |links|, Some(p), fuel - 1) by {
      RenderListCounts(links, i, list, fuel - 1);
      ListHits(links, i, |links|, Some(p), fuel - 1);
    }
    HitsAreBelow(links, i, p, fuel - 1);
    CountFirst(p, below.value, i);
  }

  lemma {:induction false} RenderListCounts(links: Links, i: nat, list: seq<nat>, fuel: nat)
    requires forall j :: 0 <= j < |list| ==> list[j] < |links|
    requires OwnSlots(links) && i < |links| && RenderList(links, list, fuel).Some?
    ensures multiset(RenderList(links, list, fuel).value)[i] == HitsInList(links, i, list, fuel)
    decreases fuel, |list| + 1
  {
    if list == [] {
    } else {
      RenderListCounts(links, i, list[..|list| - 1], fuel);
      RenderCounts(links, i, list[|list| - 1], fuel);
    }
  }

  // ---- Rendering ends ------------------------------------------------------

  /** The ancestor k steps up from i is a root. */
  ghost predicate RootAt(links: Links, i: nat, k: nat)
    requires i < |links|
  {
    var u := Up(links, i, k);
    u.Some? && links[u.value].parent == None
  }

  ghost predicate ReachesRoot(links: Links, i: nat)
    requires i < |links|
  {
    exists k :: RootAt(links, i, k)
  }

  lemma {:induction false} RootIsLast(links: Links, i: nat, k: nat, m: nat)
    requires i < |links| && RootAt(links, i, k) && k < m
    ensures Up(links, i, m) == None
    decreases m
  {
    if k == m - 1 {
    } else {
      RootIsLast(links, i, k, m - 1);
    }
  }

  lemma {:induction false} UpFromParent(links: Links, i: nat, k: nat)
    requires i < |links| && links[i].parent.Some?
    ensures Up(links, i, k + 1) == Up(links, links[i].parent.value, k)
    decreases k
  {
    if k > 0 {
      UpFromParent(links, i, k - 1);
    } else {
      assert Up(links, i, 0) == Some(i);
    }
  }

  /** The nodes on the way from i up to a root, at distances up to k. */
  lemma {:induction false} WayUp(links: Links, i: nat, k: nat) returns (way: set<nat>)
    requires i < |links| && RootAt(links, i, k)
    ensures |way| == k + 1
    ensures forall x :: x in way ==> x < |links| && exists m :: 0 <= m <= k && RootAt(links, x, m)
    decreases k
  {
    if k == 0 {
      way := {i};
    } else {
      if links[i].parent == None {
        assert RootAt(links, i, 0);
        RootIsLast(links, i, 0, k);
      }
      var p := links[i].parent.value;
      UpFromParent(links, i, k - 1);
      way := WayUp(links, p, k - 1);
      if i in way {
        var m: nat :| 0 <= m <= k - 1 && RootAt(links, i, m);
        RootIsLast(links, i, m, k);
      }
      way := way + {i};
    }
  }

  lemma RootIsNear(links: Links, i: nat, k: nat)
    requires i < |links| && RootAt(links, i, k)
    ensures k < |links|
  {
    var way := WayUp(links, i, k);
    SubsetOfRange(way, |links|);
  }

  lemma {:induction false} PlacedUnder(links: Links, n: nat, q: Option<nat>)
    requires OwnSlots(links) && n <= |links|
    ensures forall c: nat :: c in Placed(links, n, q) <==> c < n && links[c].parent == q
    decreases n
  {
    if n == 0 {
    } else {
      PlacedUnder(links, n - 1, q);
    }
  }

  lemma CountStep(before: seq<nat>, after: seq<nat>, m: nat, here: bool, i: nat)
    requires after == if here then before + [m] else before
    ensures multiset(after)[i] == multiset(before)[i] + if here && i == m then 1 else 0
  {
  }

  /** With distinct keys the node of trace i is in the list its parent key names,
      the roots when it names none, exactly once, and in no other list. */
  lemma {:induction false} PlacedOnce(links: Links, n: nat, q: Option<nat>, i: nat)
    requires OwnSlots(links) && n <= |links| && i < |links|
    ensures multiset(Placed(links, n, q))[i] == if i < n && links[i].parent == q then 1 else 0
    decreases n
  {
    hide Placed;
    if n == 0 {
      NothingPlacedYet(links, q);
    } else {
      PlacedOnce(links, n - 1, q, i);
      PlacedStep(links, n - 1, q);
      CountStep(Placed(links, n - 1, q), Placed(links, n, q), n - 1, links[n - 1].parent == q, i);
    }
  }

  /** Rendering that runs out of fuel has gone that many levels down. */
  lemma {:induction false} OutOfFuel(links: Links, p: nat, fuel: nat) returns (i: nat)
    requires OwnSlots(links) && p < |links| && Render(links, p, fuel) == None
    ensures i < |links| && Up(links, i, fuel) == Some(p)
    decreases fuel, 0
  {
    if fuel == 0 {
      i := p;
    } else {
      var list := Placed(links, |links|, Some(p));
      var c;
      i, c := ListOutOfFuel(links, list, fuel - 1);
      PlacedUnder(links, |links|, Some(p));
    }
  }

  lemma {:induction false} ListOutOfFuel(links: Links, list: seq<nat>, fuel: nat) returns (i: nat, c: nat)
    requires forall j :: 0 <= j < |list| ==> list[j] < |links|
    requires OwnSlots(links) && RenderList(links, list, fuel) == None
    ensures i < |links| && c in list && Up(links, i, fuel) == Some(c)
    decreases fuel, |list| + 1
  {
    if RenderList(links, list[..|list| - 1], fuel) == None {
      i, c := ListOutOfFuel(links, list[..|list| - 1], fuel);
    } else {
      c := list[|list| - 1];
      i := OutOfFuel(links, c, fuel);
    }
  }

  /** With distinct keys rendering ends within as many levels as there are traces,
      for every input, cycles among the parents included. */
  lemma RenderingEnds(links: Links, fuel: nat)
    requires OwnSlots(links) && fuel >= |links|
    ensures Shown(links, fuel).Some?
  {
    if Shown(links, fuel) == None {
      var i, r := ListOutOfFuel(links, Placed(links, |links|, None), fuel);
      PlacedUnder(links, |links|, None);
      RootIsNear(links, i, fuel);
    }
  }

  // ---- Every step once -----------------------------------------------------

  ghost predicate RootBefore(links: Links, i: nat, fuel: nat)
    requires i < |links|
  {
    exists k: nat :: k < fuel && RootAt(links, i, k)
  }

  lemma RootBeforeStep(links: Links, i: nat, k: nat)
    requires i < |links|
    ensures RootBefore(links, i, k + 1) <==> RootBefore(links, i, k) || RootAt(links, i, k)
    ensures RootAt(links, i, k) ==> !RootBefore(links, i, k)
  {
    if j: nat :| j < k && RootAt(links, i, j) {
      RootIsLast(links, i, j, k);
    }
  }

  lemma {:induction false} RootHits(links: Links, i: nat, fuel: nat)
    requires i < |links|
    ensures HitsUnder(links, i, |links|, None, fuel) == if RootBefore(links, i, fuel) then 1 else 0
    decreases fuel
  {
    if fuel == 0 {
    } else {
      RootHits(links, i, fuel - 1);
      RootBeforeStep(links, i, fuel - 1);
    }
  }

  /** A step is shown once when its chain of parents ends at a root, and never when
      it runs into a cycle. */
  lemma ShownOnce(links: Links, i: nat, fuel: nat)
    requires OwnSlots(links) && i < |links| && fuel >= |links|
    ensures Shown(links, fuel).Some?
    ensures multiset(Shown(links, fuel).value)[i] == if ReachesRoot(links, i) then 1 else 0
  {
    RenderingEnds(links, fuel);
    RenderListCounts(links, i, Placed(links, |links|, None), fuel);
    ListHits(links, i, |links|, None, fuel);
    RootHits(links, i, fuel);
    if k: nat :| RootAt(links, i, k) {
      RootIsNear(links, i, k);
    }
  }

  lemma {:induction false} RenderInRange(links: Links, p: nat, fuel: nat)
    requires p < |links| && Render(links, p, fuel).Some?
    ensures forall x :: x in Render(links, p, fuel).value ==> x < |links|
    decreases fuel, 0
  {
    ListInRange(links, Placed(links, |links|, Some(p)), fuel - 1);
  }

  lemma {:induction false} ListInRange(links: Links, list: seq<nat>, fuel: nat)
    requires forall j :: 0 <= j < |list| ==> list[j] < |links|
    requires RenderList(links, list, fuel).Some?
    ensures forall x :: x in RenderList(links, list, fuel).value ==> x < |links|
    decreases fuel, |list| + 1
  {
    if list == [] {
    } else {
      ListInRange(links, list[..|list| - 1], fuel);
      RenderInRange(links, list[|list| - 1], fuel);
    }
  }

  ghost function Indices(n: nat): multiset<nat> {
    if n == 0 then multiset{} else Indices(n - 1) + multiset{n - 1}
  }

  lemma OneMoreIndex(m: multiset<nat>, n: nat)
    requires forall x: nat :: m[x] == if x < n then 1 else 0
    ensures forall x: nat :: (m + multiset{n})[x] == if x < n + 1 then 1 else 0
  {
  }

  lemma {:induction false} IndicesOnce(n: nat)
    ensures |Indices(n)| == n && forall x: nat :: Indices(n)[x] == if x < n then 1 else 0
  {
    if n == 0 {
    } else {
      IndicesOnce(n - 1);
      OneMoreIndex(Indices(n - 1), n - 1);
    }
  }

  ghost predicate Acyclic(links: Links, rank: nat -> nat) {
    forall i :: 0 <= i < |links| && links[i].parent.Some? ==> rank(links[i].parent.value) < rank(i)
  }

  lemma {:induction false} AcyclicReachesRoot(links: Links, rank: nat -> nat, i: nat)
    requires Acyclic(links, rank) && i < |links|
    ensures ReachesRoot(links, i)
    decreases rank(i)
  {
    if links[i].parent == None {
      assert RootAt(links, i, 0);
    } else {
      var p := links[i].parent.value;
      AcyclicReachesRoot(links, rank, p);
      var k: nat :| RootAt(links, p, k);
      UpFromParent(links, i, k);
      assert RootAt(links, i, k + 1);
    }
  }

  lemma AcyclicCount(links: Links, rank: nat -> nat, x: nat)
    requires OwnSlots(links) && Acyclic(links, rank) && Shown(links, |links|).Some?
    ensures multiset(Shown(links, |links|).value)[x] == if x < |links| then 1 else 0
  {
    if x < |links| {
      AcyclicReachesRoot(links, rank, x);
      ShownOnce(links, x, |links|);
    } else {
      ListInRange(links, Placed(links, |links|, None), |links|);
      assert x !in Shown(links, |links|).value;
    }
  }

  /** When the parent links have no cycle, the tree shows every trace exactly once
      and its size is their number. */
  lemma AllShown(links: Links, rank: nat -> nat)
    requires OwnSlots(links) && Acyclic(links, rank)
    ensures Shown(links, |links|).Some?
    ensures |Shown(links, |links|).value| == |links|
    ensures multiset(Shown(links, |links|).value) == Indices(|links|)
  {
    RenderingEnds(links, |links|);
    var out: seq<nat> := Shown(links, |links|).value;
    var counts: multiset<nat> := multiset(out);
    IndicesOnce(|links|);
    forall x: nat
      ensures counts[x] == Indices(|links|)[x]
    {
      AcyclicCount(links, rank, x);
    }
    assert counts == Indices(|links|);
    assert |out| == |counts|;
  }

  // ---- Parents first -------------------------------------------------------

  ghost predicate IsChildIn(links: Links, p: nat, c: nat) {
    c in Placed(links, |links|, Some(p))
  }

  /** Position b of what is shown is a child of the step at some earlier position. */
  ghost predicate BelowEarlier(links: Links, shown: seq<nat>, b: nat)
    requires b < |shown|
  {
    exists a :: 0 <= a < b && IsChildIn(links, shown[a], shown[b])
  }

  lemma {:induction false} ColumnStartsWithStep(links: Links, p: nat, fuel: nat)
    requires p < |links| && Render(links, p, fuel).Some?
    ensures var shown := Render(links, p, fuel).value;
            && shown != [] && shown[0] == p
            && forall b :: 0 < b < |shown| ==> BelowEarlier(links, shown, b)
    decreases fuel, 0
  {
    var list := Placed(links, |links|, Some(p));
    ListParentsFirst(links, list, fuel - 1);
    var below, shown := RenderList(links, list, fuel - 1).value, Render(links, p, fuel).value;
    assert shown == [p] + below;
    forall b | 0 < b < |shown|
      ensures BelowEarlier(links, shown, b)
    {
      if below[b - 1] in list {
        assert IsChildIn(links, shown[0], shown[b]);
      } else {
        assert BelowEarlier(links, below, b - 1);
        var a :| 0 <= a < b - 1 && IsChildIn(links, below[a], below[b - 1]);
        assert IsChildIn(links, shown[a + 1], shown[b]);
      }
    }
  }

  lemma AppendParentsFirst(links: Links, list: seq<nat>, before: seq<nat>, column: seq<nat>)
    requires list != [] && column != [] && column[0] == list[|list| - 1]
    requires forall b :: 0 <= b < |before| ==> before[b] in list[..|list| - 1] || BelowEarlier(links, before, b)
    requires forall b :: 0 < b < |column| ==> BelowEarlier(links, column, b)
    ensures forall b :: 0 <= b < |before + column| ==>
                          (before + column)[b] in list || BelowEarlier(links, before + column, b)
  {
    var shown := before + column;
    forall b | 0 <= b < |shown| && shown[b] !in list
      ensures BelowEarlier(links, shown, b)
    {
      if b < |before| {
        assert BelowEarlier(links, before, b);
        var a :| 0 <= a < b && IsChildIn(links, before[a], before[b]);
        assert IsChildIn(links, shown[a], shown[b]);
      } else {
        assert BelowEarlier(links, column, b - |before|);
        var a :| 0 <= a < b - |before| && IsChildIn(links, column[a], column[b - |before|]);
        assert IsChildIn(links, shown[a + |before|], shown[b]);
      }
    }
  }

  /** Of a row of columns every shown step is one of the row or comes after its parent. */
  lemma {:induction false} ListParentsFirst(links: Links, list: seq<nat>, fuel: nat)
    requires forall j :: 0 <= j < |list| ==> list[j] < |links|
    requires RenderList(links, list, fuel).Some?
    ensures var shown := RenderList(links, list, fuel).value;
            forall b :: 0 <= b < |shown| ==> shown[b] in list || BelowEarlier(links, shown, b)
    decreases fuel, |list| + 1
  {
    if list == [] {
    } else {
      var front, last := list[..|list| - 1], list[|list| - 1];
      ListParentsFirst(links, front, fuel);
      ColumnStartsWithStep(links, last, fuel);
      var before, column := RenderList(links, front, fuel).value, Render(links, last, fuel).value;
      AppendParentsFirst(links, list, before, column);
    }
  }

  /** Whatever the keys: every step that is shown is a root or stands after a step that
      it is a child of. */
  lemma ParentsFirst(links: Links, fuel: nat)
    requires Shown(links, fuel).Some?
    ensures var shown := Shown(links, fuel).value;
            forall b :: 0 <= b < |shown| ==> shown[b] in Placed(links, |links|, None) || BelowEarlier(links, shown, b)
  {
    ListParentsFirst(links, Placed(links, |links|, None), fuel);
  }

  // ---- The tree of a session -----------------------------------------------

  /** With distinct step keys rendering ends for every input, and a step is shown
      once or, when its chain of parents runs into a cycle, not at all. */
  lemma EachStepShownOnce(traces: seq<Trace>, i: nat, fuel: nat)
    requires DistinctKeys(traces) && i < |traces| && fuel >= |traces|
    ensures Shown(LinksOf(traces), fuel).Some?
    ensures multiset(Shown(LinksOf(traces), fuel).value)[i] == if ReachesRoot(LinksOf(traces), i) then 1 else 0
  {
    DistinctKeysOwnSlots(traces);
    ShownOnce(LinksOf(traces), i, fuel);
  }

  /** Without cycles the tree has as many nodes as the session has traces. */
  lemma TreeHasAllSteps(traces: seq<Trace>, rank: nat -> nat)
    requires DistinctKeys(traces) && Acyclic(LinksOf(traces), rank)
    ensures Shown(LinksOf(traces), |traces|).Some?
    ensures |Shown(LinksOf(traces), |traces|).value| == |traces|
  {
    DistinctKeysOwnSlots(traces);
    AllShown(LinksOf(traces), rank);
  }

  // ---- Repeated keys -------------------------------------------------------

  /** A walk from parent to child through the finished child lists. */
  ghost predicate Walk(links: Links, w: seq<nat>) {
    && w != [] && (forall k :: 0 <= k < |w| ==> w[k] < |links|)
    && (forall k :: 0 <= k < |w| - 1 ==> w[k + 1] in Placed(links, |links|, Some(w[k])))
  }

  ghost predicate MeetsTwice(w: seq<nat>, a: nat, b: nat) {
    a < b < |w| && w[a] == w[b]
  }

  /** Some walk down from a root comes back to a node it has been at. */
  ghost predicate CycleBelowRoot(links: Links) {
    exists w, a, b :: Walk(links, w) && w[0] in Placed(links, |links|, None) && MeetsTwice(w, a, b)
  }

  lemma {:induction false} ListFails(links: Links, list: seq<nat>, c: nat, fuel: nat)
    requires forall j :: 0 <= j < |list| ==> list[j] < |links|
    requires c in list && Render(links, c, fuel) == None
    ensures RenderList(links, list, fuel) == None
    decreases |list|
  {
    if list[|list| - 1] == c {
    } else {
      ListFails(links, list[..|list| - 1], c, fuel);
    }
  }

  lemma {:induction false} SomeChildFails(links: Links, list: seq<nat>, fuel: nat) returns (c: nat)
    requires forall j :: 0 <= j < |list| ==> list[j] < |links|
    requires RenderList(links, list, fuel) == None
    ensures c in list && Render(links, c, fuel) == None
    decreases |list|
  {
    if Render(links, list[|list| - 1], fuel) == None {
      c := list[|list| - 1];
    } else {
      c := SomeChildFails(links, list[..|list| - 1], fuel);
    }
  }

  /** A walk longer than the fuel cannot be rendered, and only such a walk cannot. */
  lemma {:induction false} LongWalkFails(links: Links, w: seq<nat>, fuel: nat)
    requires Walk(links, w) && |w| > fuel
    ensures Render(links, w[0], fuel) == None
    decreases fuel
  {
    if fuel == 0 {
    } else {
      LongWalkFails(links, w[1..], fuel - 1);
      ListFails(links, Placed(links, |links|, Some(w[0])), w[1], fuel - 1);
    }
  }

  lemma {:induction false} FailureHasLongWalk(links: Links, p: nat, fuel: nat) returns (w: seq<nat>)
    requires p < |links| && Render(links, p, fuel) == None
    ensures Walk(links, w) && w[0] == p && |w| == fuel + 1
    decreases fuel
  {
    if fuel == 0 {
      w := [p];
    } else {
      var c := SomeChildFails(links, Placed(links, |links|, Some(p)), fuel - 1);
      var below := FailureHasLongWalk(links, c, fuel - 1);
      w := [p] + below;
      forall k | 0 <= k < |w| - 1
        ensures w[k + 1] in Placed(links, |links|, Some(w[k]))
      {
        assert w[k + 1] == below[k] && (k > 0 ==> w[k] == below[k - 1]);
      }
    }
  }

  /** Going round the cycle once more. */
  lemma {:induction false} LongerWalk(links: Links, w: seq<nat>, a: nat, b: nat, n: nat) returns (v: seq<nat>)
    requires Walk(links, w) && MeetsTwice(w, a, b)
    ensures Walk(links, v) && v[0] == w[0] && |v| > n
    decreases n - |w|
  {
    if |w| > n {
      v := w;
    } else {
      var u := w[..b] + w[a..];
      assert forall k :: 0 <= k < |u| ==> u[k] == if k < b then w[k] else w[k - b + a];
      forall k | 0 <= k < |u| - 1
        ensures u[k + 1] in Placed(links, |links|, Some(u[k]))
      {
        var j := if k < b then k else k - b + a;
        assert u[k] == w[j] && u[k + 1] == w[j + 1];
      }
      v := LongerWalk(links, u, a, b, n);
    }
  }

  lemma {:induction false} DistinctSize(w: seq<nat>, seen: set<nat>)
    requires forall x :: x in seen <==> x in w
    requires forall a, b :: !MeetsTwice(w, a, b)
    ensures |seen| == |w|
    decreases |w|
  {
    if w == [] {
      assert seen == {};
    } else {
      var front, last := w[..|w| - 1], w[|w| - 1];
      forall a, b
        ensures !MeetsTwice(front, a, b)
      {
        assert !MeetsTwice(w, a, b);
      }
      forall k | 0 <= k < |front|
        ensures front[k] != last
      {
        assert !MeetsTwice(w, k, |w| - 1);
      }
      DistinctSize(front, seen - {last});
    }
  }

  lemma DistinctAreFew(w: seq<nat>, n: nat)
    requires forall k :: 0 <= k < |w| ==> w[k] < n
    requires forall a, b :: !MeetsTwice(w, a, b)
    ensures |w| <= n
  {
    var seen: set<nat> := set k | 0 <= k < |w| :: w[k];
    DistinctSize(w, seen);
    SubsetOfRange(seen, n);
  }

  /** For every input, repeated keys included: rendering ends exactly when no walk
      down from a root meets a node twice. */
  lemma EndsIffNoCycleBelowRoot(links: Links)
    ensures (exists fuel: nat :: Shown(links, fuel).Some?) <==> !CycleBelowRoot(links)
  {
    var roots := Placed(links, |links|, None);
    if Shown(links, |links|) == None {
      var c := SomeChildFails(links, roots, |links|);
      var w := FailureHasLongWalk(links, c, |links|);
      if forall a, b :: !MeetsTwice(w, a, b) {
        DistinctAreFew(w, |links|);
      }
    }
    if fuel: nat, w, a, b :|
      Shown(links, fuel).Some? && Walk(links, w) && w[0] in roots && MeetsTwice(w, a, b)
    {
      var v := LongerWalk(links, w, a, b, fuel);
      LongWalkFails(links, v, fuel);
      ListFails(links, roots, v[0], fuel);
    }
  }

  // ---- Exactly the sessions without repeated keys --------------------------

  ghost predicate InNoOther(links: Links, i: nat, q: Option<nat>) {
    forall other :: other != q ==> i !in Placed(links, |links|, other)
  }

  /** Node i is pushed into one list, the roots or that of some parent, once. */
  ghost predicate InOneListOnce(links: Links, i: nat) {
    exists q :: multiset(Placed(links, |links|, q))[i] == 1 && InNoOther(links, i, q)
  }

  ghost predicate IsSlot(links: Links, i: nat) {
    exists k :: 0 <= k < |links| && links[k].slot == i
  }

  lemma {:induction false} PlacedIsSlot(links: Links, n: nat, q: Option<nat>, i: nat)
    requires n <= |links| && i in Placed(links, n, q)
    ensures IsSlot(links, i)
    decreases n
  {
    if links[n - 1].parent == q && links[n - 1].slot == i {
    } else {
      PlacedIsSlot(links, n - 1, q, i);
    }
  }

  /** When every trace's node is a slot, no two traces share a key. */
  lemma AllSlotsDistinctKeys(traces: seq<Trace>)
    requires forall i :: 0 <= i < |traces| ==> IsSlot(LinksOf(traces), i)
    ensures DistinctKeys(traces)
  {
    forall i, j | 0 <= i < j < |traces|
      ensures Key(traces[i]) != Key(traces[j])
    {
      assert IsSlot(LinksOf(traces), i);
      var k :| 0 <= k < |traces| && LinksOf(traces)[k].slot == i;
      assert Key(traces[k]) == Key(traces[i]);
    }
  }

  /** Every node is in exactly one list, once, if and only if no two traces share a key. */
  lemma PlacedOnceIffDistinct(traces: seq<Trace>)
    ensures (forall i :: 0 <= i < |traces| ==> InOneListOnce(LinksOf(traces), i)) <==> DistinctKeys(traces)
  {
    var links := LinksOf(traces);
    if DistinctKeys(traces) {
      DistinctKeysOwnSlots(traces);
      forall i | 0 <= i < |traces|
        ensures InOneListOnce(links, i)
      {
        var q := links[i].parent;
        PlacedOnce(links, |links|, q, i);
        forall other | other != q
          ensures i !in Placed(links, |links|, other)
        {
          PlacedOnce(links, |links|, other, i);
        }
        assert InNoOther(links, i, q);
      }
    }
    if forall i :: 0 <= i < |traces| ==> InOneListOnce(links, i) {
      forall i | 0 <= i < |traces|
        ensures IsSlot(links, i)
      {
        assert InOneListOnce(links, i);
        var q :| multiset(Placed(links, |links|, q))[i] == 1 && InNoOther(links, i, q);
        PlacedIsSlot(links, |links|, q, i);
      }
      AllSlotsDistinctKeys(traces);
    }
  }

  lemma {:induction false} RenderShowsSlots(links: Links, p: nat, fuel: nat)
    requires p < |links| && IsSlot(links, p) && Render(links, p, fuel).Some?
    ensures forall x :: x in Render(links, p, fuel).value ==> IsSlot(links, x)
    decreases fuel, 0
  {
    var list := Placed(links, |links|, Some(p));
    forall c | c in list
      ensures IsSlot(links, c)
    {
      PlacedIsSlot(links, |links|, Some(p), c);
    }
    ListShowsSlots(links, list, fuel - 1);
  }

  lemma {:induction false} ListShowsSlots(links: Links, list: seq<nat>, fuel: nat)
    requires forall j :: 0 <= j < |list| ==> list[j] < |links|
    requires forall c :: c in list ==> IsSlot(links, c)
    requires RenderList(links, list, fuel).Some?
    ensures forall x :: x in RenderList(links, list, fuel).value ==> IsSlot(links, x)
    decreases fuel, |list| + 1
  {
    if list == [] {
    } else {
      ListShowsSlots(links, list[..|list| - 1], fuel);
      RenderShowsSlots(links, list[|list| - 1], fuel);
    }
  }

  lemma ShownAreSlots(links: Links, fuel: nat)
    requires Shown(links, fuel).Some?
    ensures forall x :: x in Shown(links, fuel).value ==> IsSlot(links, x)
  {
    var roots := Placed(links, |links|, None);
    forall c | c in roots
      ensures IsSlot(links, c)
    {
      PlacedIsSlot(links, |links|, None, c);
    }
    ListShowsSlots(links, roots, fuel);
  }

  /** Rendering ends and shows every trace exactly once. */
  ghost predicate ShowsEachOnce(links: Links, fuel: nat) {
    Shown(links, fuel).Some? && forall i: nat :: i < |links| ==> multiset(Shown(links, fuel).value)[i] == 1
  }

  /** A trace that was shown once, no two sharing a key, reaches a root. */
  lemma ShownReachesRoot(links: Links, fuel: nat, i: nat)
    requires OwnSlots(links) && ShowsEachOnce(links, fuel) && i < |links|
    ensures ReachesRoot(links, i)
  {
    RenderListCounts(links, i, Placed(links, |links|, None), fuel);
    ListHits(links, i, |links|, None, fuel);
    RootHits(links, i, fuel);
  }

  /** Rendering ends and shows every step exactly once if and only if no two traces
      share a key and every chain of parents ends at a root. */
  lemma EachShownOnceIff(traces: seq<Trace>)
    ensures (exists fuel: nat :: ShowsEachOnce(LinksOf(traces), fuel))
       <==> DistinctKeys(traces) && forall i :: 0 <= i < |traces| ==> ReachesRoot(LinksOf(traces), i)
  {
    var links := LinksOf(traces);
    if fuel: nat :| ShowsEachOnce(links, fuel) {
      ShownAreSlots(links, fuel);
      forall i | 0 <= i < |traces|
        ensures IsSlot(links, i)
      {
        assert multiset(Shown(links, fuel).value)[i] == 1;
        assert i in Shown(links, fuel).value;
      }
      AllSlotsDistinctKeys(traces);
      DistinctKeysOwnSlots(traces);
      forall i | 0 <= i < |traces|
        ensures ReachesRoot(links, i)
      {
        ShownReachesRoot(links, fuel, i);
      }
    }
    if DistinctKeys(traces) && forall i :: 0 <= i < |traces| ==> ReachesRoot(links, i) {
      DistinctKeysOwnSlots(traces);
      RenderingEnds(links, |links|);
      forall i: nat | i < |links|
        ensures multiset(Shown(links, |links|).value)[i] == 1
      {
        ShownOnce(links, i, |links|);
      }
      assert ShowsEachOnce(links, |links|);
    }
  }

  lemma RenderAppended(links: Links, list: seq<nat>, c: nat, fuel: nat, shown: seq<nat>, below: seq<nat>)
    requires c < |links| && forall j :: 0 <= j < |list| ==> list[j] < |links|
    requires RenderList(links, list, fuel) == Some(shown) && Render(links, c, fuel) == Some(below)
    ensures RenderList(links, list + [c], fuel) == Some(shown + below)
  {
    assert (list + [c])[..|list|] == list;
  }

  /** Of two root traces with one key the second is shown twice, the first never. */
  lemma RepeatedKeyLosesStep(fuel: nat)
    requires fuel > 0
    ensures var traces := [Trace("t1", "plan", ""), Trace("t2", "plan", "")];
            Shown(LinksOf(traces), fuel) == Some([1, 1])
  {
    var traces := [Trace("t1", "plan", ""), Trace("t2", "plan", "")];
    var links := LinksOf(traces);
    assert Owner(traces, "plan") == Some(1);
    assert links[0] == Link(1, None) && links[1] == Link(1, None);
    assert Placed(links, 0, None) == [] && Placed(links, 1, None) == [1] && Placed(links, 2, None) == [1] + [1];
    assert Placed(links, 0, Some(1)) == Placed(links, 1, Some(1)) == Placed(links, 2, Some(1)) == [];
    assert RenderList(links, [], fuel - 1) == Some([]) && Render(links, 1, fuel) == Some([1] + []);
    assert RenderList(links, [], fuel) == Some([]) && [] + [1] == [1] + [] == [1] && [1] + [1] == [1, 1];
    RenderAppended(links, [], 1, fuel, [], [1]);
    RenderAppended(links, [1], 1, fuel, [1], [1]);
  }

  lemma {:induction false} SelfChildNeverEnds(links: Links, p: nat, fuel: nat)
    requires p < |links| && Placed(links, |links|, Some(p)) == [p]
    ensures Render(links, p, fuel) == None && RenderList(links, [p], fuel) == None
    decreases fuel
  {
    if fuel == 0 {
    } else {
      SelfChildNeverEnds(links, p, fuel - 1);
    }
    assert [p][..0] == [];
  }

  /** With a repeated key rendering can go on for ever: the last trace of the key
      is a root through the first trace and a child of itself. */
  lemma RepeatedKeyNeverEnds(fuel: nat)
    ensures var traces := [Trace("t1", "plan", ""), Trace("t2", "plan", "plan")];
            Shown(LinksOf(traces), fuel) == None
  {
    var traces := [Trace("t1", "plan", ""), Trace("t2", "plan", "plan")];
    var links := LinksOf(traces);
    assert Owner(traces, "plan") == Some(1);
    assert links[0] == Link(1, None) && links[1] == Link(1, Some(1));
    assert Placed(links, 0, None) == [] && Placed(links, 1, None) == [1] && Placed(links, 2, None) == [1];
    assert Placed(links, 0, Some(1)) == [] && Placed(links, 1, Some(1)) == [];
    assert Placed(links, 2, Some(1)) == [] + [1];
    SelfChildNeverEnds(links, 1, fuel);
  }
}
