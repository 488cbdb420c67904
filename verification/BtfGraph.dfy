/** Type graphs of BTF, the debug type format, and what it means for a type to need another
    type's full definition first. */
module BtfGraph {
  datatype Kind =
    | Void
    | Scalar
    | Ptr(target: nat)
    | Array(element: nat)
    | Composite(named: bool, members: seq<nat>)
    | Enumeration(named: bool)
    | Typedef(target: nat)
    | Modifier(target: nat)
    | FuncProto(result: nat, params: seq<nat>)
    | Other
    | Unknown

  /** The types by id.  `Ok` is the hypothesis on the input: a rank can be given that falls along
      every edge that does not leave a struct or union. */
  datatype Graph = Graph(types: seq<Kind>, rank: seq<nat>) {
    ghost predicate Ok() {
      && |rank| == |types|
      && forall id {:trigger types[id]} :: 0 <= id < |types| ==> IdOk(id)
    }

    ghost predicate IdOk(id: nat)
      requires id < |types| == |rank|
    {
      match types[id]
      case Ptr(t) => t < |types| && rank[t] < rank[id]
      case Array(e) => e < |types| && rank[e] < rank[id]
      case Typedef(t) => t < |types| && rank[t] < rank[id]
      case Modifier(t) => t < |types| && rank[t] < rank[id]
      case Composite(_, members) => forall i :: 0 <= i < |members| ==> members[i] < |types|
      case FuncProto(result, params) =>
        && result < |types| && rank[result] < rank[id]
        && forall i :: 0 <= i < |params| ==> params[i] < |types| && rank[params[i]] < rank[id]
      case _ => true
    }
  }

  /** A type as it is reached: directly, or behind a pointer. */
  datatype Node = Node(id: nat, behindPtr: bool)

  /** A named struct or union behind a pointer can be declared forward. */
  predicate Weak(g: Graph, node: Node)
    requires node.id < |g.types|
  {
    g.types[node.id].Composite? && g.types[node.id].named && node.behindPtr
  }

  /** From `from`, the C rules make `to` part of the definition. */
  ghost predicate Strong(g: Graph, from: Node, to: Node) {
    && from.id < |g.types| && to.id < |g.types|
    && match g.types[from.id]
       case Composite(_, members) => !Weak(g, from) && to.id in members && !to.behindPtr
       case Ptr(t) => to == Node(t, true)
       case Array(e) => to == Node(e, false)
       case Typedef(t) => to == Node(t, from.behindPtr)
       case Modifier(t) => to == Node(t, from.behindPtr)
       case _ => false
  }

  /** The traversal also goes through the types of a function prototype. */
  ghost predicate Step(g: Graph, from: Node, to: Node) {
    || Strong(g, from, to)
    || (from.id < |g.types| && to.id < |g.types| && g.types[from.id].FuncProto? && to.behindPtr == from.behindPtr &&
        (to.id == g.types[from.id].result || to.id in g.types[from.id].params))
  }

  /** A node whose own definition is needed in full. */
  predicate Demanded(g: Graph, node: Node) {
    && node.id < |g.types|
    && match g.types[node.id]
       case Composite(_, _) => !Weak(g, node)
       case Enumeration(_) => true
       case Typedef(_) => !node.behindPtr
       case _ => false
  }

  ghost predicate StrongPath(g: Graph, p: seq<Node>) {
    |p| >= 1 && p[0].id < |g.types| && forall i :: 0 <= i < |p| - 1 ==> Strong(g, p[i], p[i + 1])
  }

  ghost predicate Walk(g: Graph, p: seq<Node>) {
    |p| >= 1 && p[0].id < |g.types| && forall i :: 0 <= i < |p| - 1 ==> Step(g, p[i], p[i + 1])
  }

  predicate IsDefinition(k: Kind) {
    k.Composite? || k.Enumeration? || k.Typedef?
  }

  // ---------------------------------------------------------------- being ready

  /** With the definitions in `done` available, everything that a node strongly needs is. */
  ghost predicate Ready(g: Graph, done: seq<nat>, id: nat, behindPtr: bool)
    requires g.Ok() && id < |g.types|
    decreases g.rank[id]
  {
    assert g.IdOk(id);
    match g.types[id]
    case Ptr(t) => Ready(g, done, t, true)
    case Array(e) => Ready(g, done, e, false)
    case Modifier(t) => Ready(g, done, t, behindPtr)
    case Typedef(t) => id in done || (behindPtr && Ready(g, done, t, true))
    case Composite(named, _) => id in done || (behindPtr && named)
    case Enumeration(_) => id in done
    case _ => true
  }

  /** Everything that a definition is made of is ready. */
  ghost predicate PartsReady(g: Graph, done: seq<nat>, id: nat)
    requires g.Ok() && id < |g.types|
  {
    assert g.IdOk(id);
    match g.types[id]
    case Composite(_, members) => forall i :: 0 <= i < |members| ==> Ready(g, done, members[i], false)
    case Typedef(t) => Ready(g, done, t, false)
    case _ => true
  }

  /** The definitions stand in an order that C accepts, each once. */
  ghost predicate Topological(g: Graph, done: seq<nat>)
    requires g.Ok()
  {
    && (forall k :: 0 <= k < |done| ==> done[k] < |g.types| && IsDefinition(g.types[done[k]]))
    && (forall j, k :: 0 <= j < k < |done| ==> done[j] != done[k])
    && (forall k {:trigger done[k]} :: 0 <= k < |done| ==> PartsReady(g, done[..k], done[k]))
  }

  lemma {:induction false} ReadyMonotone(g: Graph, done: seq<nat>, done': seq<nat>, id: nat, behindPtr: bool)
    requires g.Ok() && id < |g.types| && Ready(g, done, id, behindPtr)
    requires forall x :: x in done ==> x in done'
    ensures Ready(g, done', id, behindPtr)
    decreases g.rank[id]
  {
    assert g.IdOk(id);
    match g.types[id] {
      case Ptr(t) => ReadyMonotone(g, done, done', t, true);
      case Array(e) => ReadyMonotone(g, done, done', e, false);
      case Modifier(t) => ReadyMonotone(g, done, done', t, behindPtr);
      case Typedef(t) =>
        if id !in done {
          ReadyMonotone(g, done, done', t, true);
        }
      case _ =>
    }
  }

  /** What is ready to be used directly is ready behind a pointer. */
  lemma {:induction false} ReadyBehindPtr(g: Graph, done: seq<nat>, id: nat)
    requires g.Ok() && id < |g.types| && Ready(g, done, id, false)
    ensures Ready(g, done, id, true)
    decreases g.rank[id]
  {
    assert g.IdOk(id);
    match g.types[id] {
      case Modifier(t) => ReadyBehindPtr(g, done, t);
      case _ =>
    }
  }

  lemma SubPath(g: Graph, p: seq<Node>, i: nat, j: nat)
    requires StrongPath(g, p) && i < j <= |p|
    ensures StrongPath(g, p[i..j])
  {
    var q := p[i..j];
    assert i > 0 ==> Strong(g, p[i - 1], p[i - 1 + 1]);
    forall k | 0 <= k < |q| - 1
      ensures Strong(g, q[k], q[k + 1])
    {
      assert Strong(g, p[i + k], p[i + k + 1]);
    }
  }

  /** Along every strong path from a ready node, whatever is demanded is among the
      definitions. */
  lemma {:induction false} ReadyReaches(g: Graph, done: seq<nat>, k: nat, p: seq<Node>)
    requires g.Ok() && Topological(g, done) && k <= |done|
    requires StrongPath(g, p) && Ready(g, done[..k], p[0].id, p[0].behindPtr)
    requires Demanded(g, p[|p| - 1])
    ensures p[|p| - 1].id in done[..k]
    decreases |p|
  {
    if |p| == 1 {
      return;
    }
    var id, rest := p[0].id, p[1..];
    assert g.IdOk(id) && Strong(g, p[0], p[1]);
    SubPath(g, p, 1, |p|);
    if g.types[id].Composite? || (g.types[id].Typedef? && id in done[..k]) {
      var j :| 0 <= j < k && done[j] == id;
      assert PartsReady(g, done[..j], done[j]);
      if g.types[id].Typedef? && p[0].behindPtr {
        ReadyBehindPtr(g, done[..j], g.types[id].target);
      }
      ReadyReaches(g, done, j, rest);
      assert forall x :: x in done[..j] ==> x in done[..k];
    } else {
      ReadyReaches(g, done, k, rest);
    }
  }

  /** In a topological order everything that a definition strongly needs comes before it. */
  lemma NeedsComeFirst(g: Graph, done: seq<nat>, k: nat, p: seq<Node>)
    requires g.Ok() && Topological(g, done) && k < |done|
    requires StrongPath(g, p) && |p| >= 2 && p[0].id == done[k] && Demanded(g, p[0]) && Demanded(g, p[|p| - 1])
    ensures p[|p| - 1].id in done[..k]
  {
    var id, rest := p[0].id, p[1..];
    assert g.IdOk(id) && Strong(g, p[0], p[1]) && PartsReady(g, done[..k], done[k]);
    SubPath(g, p, 1, |p|);
    ReadyReaches(g, done, k, rest);
  }

  /** A topological order leaves no room for a strong cycle. */
  lemma NoStrongCycle(g: Graph, done: seq<nat>, p: seq<Node>)
    requires g.Ok() && Topological(g, done)
    requires StrongPath(g, p) && |p| >= 2 && p[0].id in done && Demanded(g, p[0]) && Demanded(g, p[|p| - 1])
    ensures p[|p| - 1].id != p[0].id
  {
    var k :| 0 <= k < |done| && done[k] == p[0].id;
    NeedsComeFirst(g, done, k, p);
  }

  /** One more definition at the end of a topological order. */
  lemma AppendTopological(g: Graph, done: seq<nat>, id: nat)
    requires g.Ok() && Topological(g, done) && id < |g.types| && IsDefinition(g.types[id])
    requires id !in done && PartsReady(g, done, id)
    ensures Topological(g, done + [id])
  {
    var done' := done + [id];
    forall k | 0 <= k < |done'|
      ensures PartsReady(g, done'[..k], done'[k])
    {
      assert done'[..k] == if k < |done| then done[..k] else done;
    }
  }
}
