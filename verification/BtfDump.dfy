/** The ordering pass of the BTF dumper: a depth-first walk that marks types and appends the
    definitions to be emitted to a queue.  Ghost fields record every definition in the order
    in which it was completed, over all calls, and every entry that was ever queued. */
module BtfDump {
  import opened BtfGraph

  const ELOOP := 40
  const EINVAL := 22

  datatype Order = NotOrdered | Ordering | Ordered

  /** A queued id and the number of definitions completed before it. */
  datatype Push = Push(id: nat, mark: nat)

  /** Definitions that are emitted as declarations of their own. */
  predicate Emitted(g: Graph, referenced: seq<bool>, id: nat)
    requires id < |g.types| == |referenced|
  {
    match g.types[id]
    case Composite(named, _) => named
    case Enumeration(named) => named || !referenced[id]
    case Typedef(_) => true
    case _ => false
  }

  // ---------------------------------------------------------------- the state

  ghost predicate Marked(g: Graph, state: seq<Order>, done: seq<nat>)
    requires g.Ok()
  {
    && |state| == |g.types|
    && Topological(g, done)
    && (forall id :: 0 <= id < |state| ==> (IsDefinition(g.types[id]) && state[id] == Ordered <==> id in done))
    && (forall id :: 0 <= id < |state| && state[id] == Ordering ==> g.types[id].Composite?)
    && (forall id :: 0 <= id < |state| && g.types[id].Void? ==> state[id] == Ordered)
    && (forall id :: 0 <= id < |state| && (g.types[id].Array? || g.types[id].Modifier?) ==> state[id] == NotOrdered)
    && (forall id {:trigger PtrOk(g, state, done, id)} :: 0 <= id < |state| ==> PtrOk(g, state, done, id))
  }

  ghost predicate PtrOk(g: Graph, state: seq<Order>, done: seq<nat>, id: nat)
    requires g.Ok() && id < |state| == |g.types|
  {
    assert g.IdOk(id);
    g.types[id].Ptr? && state[id] == Ordered ==> Ready(g, done, g.types[id].target, true)
  }

  /** Structs, unions and enums enter the queue when they are completed, so once each; every
      emitted definition enters the queue when it is completed. */
  ghost predicate QueueOk(g: Graph, referenced: seq<bool>, done: seq<nat>, history: seq<Push>)
    requires |referenced| == |g.types|
    requires forall k :: 0 <= k < |done| ==> done[k] < |g.types|
  {
    && (forall k {:trigger PushOk(g, done, history[k])} :: 0 <= k < |history| ==> PushOk(g, done, history[k]))
    && (forall j, k {:trigger InOrder(g, history[j], history[k])} ::
          0 <= j < k < |history| ==> InOrder(g, history[j], history[k]))
    && (forall j {:trigger done[j]} ::
          0 <= j < |done| && Emitted(g, referenced, done[j]) ==> Push(done[j], j) in history)
  }

  ghost predicate PushOk(g: Graph, done: seq<nat>, e: Push) {
    && e.id < |g.types| && IsDefinition(g.types[e.id]) && e.mark <= |done|
    && (!g.types[e.id].Typedef? ==> e.mark < |done| && done[e.mark] == e.id)
    && CompletedBy(done, e.id, e.mark)
  }

  /** A definition was completed at or before a mark; a typedef may be queued again later. */
  ghost predicate CompletedBy(done: seq<nat>, id: nat, mark: nat) {
    exists i :: 0 <= i <= mark && i < |done| && done[i] == id
  }

  ghost predicate InOrder(g: Graph, e: Push, f: Push) {
    e.id < |g.types| && e.mark <= f.mark && (!g.types[e.id].Typedef? ==> e.mark < f.mark)
  }

  /** The types under way are the structs and unions on the path from the root. */
  ghost predicate StackOk(g: Graph, state: seq<Order>, stack: seq<Node>) {
    && |state| == |g.types| && Walk(g, stack)
    && forall id :: 0 <= id < |state| && state[id] == Ordering ==> OnStack(g, stack, id)
  }

  ghost predicate OnStack(g: Graph, stack: seq<Node>, id: nat) {
    exists i :: 0 <= i < |stack| - 1 && stack[i].id == id && Demanded(g, stack[i])
  }

  /** A walk from a node that comes back to a struct or union whose definition it needs. */
  ghost predicate Loops(g: Graph, root: Node) {
    exists p :: Walk(g, p) && p[0] == root && Closes(g, p)
  }

  ghost predicate Closes(g: Graph, p: seq<Node>) {
    |p| >= 2 && Demanded(g, p[|p| - 1]) && g.types[p[|p| - 1].id].Composite? && OnStack(g, p, p[|p| - 1].id)
  }

  ghost predicate HasUnknown(g: Graph) {
    exists id :: 0 <= id < |g.types| && g.types[id].Unknown?
  }

  /** The structs and unions not yet started. */
  ghost function Pending(g: Graph, state: seq<Order>): set<nat> {
    set id | 0 <= id < |state| && id < |g.types| && g.types[id].Composite? && state[id] == NotOrdered
  }

  // ---------------------------------------------------------------- completing a definition

  lemma ReadyGrows(g: Graph, done: seq<nat>, x: nat, id: nat, behindPtr: bool)
    requires g.Ok() && id < |g.types| && Ready(g, done, id, behindPtr)
    ensures Ready(g, done + [x], id, behindPtr)
  {
    ReadyMonotone(g, done, done + [x], id, behindPtr);
  }

  lemma CompleteKeeps(g: Graph, state: seq<Order>, done: seq<nat>, id: nat)
    requires g.Ok() && Marked(g, state, done) && id < |state| && IsDefinition(g.types[id])
    requires state[id] != Ordered && PartsReady(g, done, id)
    ensures Marked(g, state[id := Ordered], done + [id])
  {
    AppendTopological(g, done, id);
    var state', done' := state[id := Ordered], done + [id];
    forall x | 0 <= x < |state'|
      ensures PtrOk(g, state', done', x)
    {
      assert PtrOk(g, state, done, x) && g.IdOk(x);
      if g.types[x].Ptr? && state[x] == Ordered {
        ReadyGrows(g, done, id, g.types[x].target, true);
      }
    }
  }

  lemma OrderedIsReady(g: Graph, state: seq<Order>, done: seq<nat>, id: nat)
    requires g.Ok() && Marked(g, state, done) && id < |state| && state[id] == Ordered
    ensures Ready(g, done, id, false) && Ready(g, done, id, true)
  {
    assert PtrOk(g, state, done, id) && g.IdOk(id);
    ReadyBehindPtr(g, done, id);
  }

  /** Marking a type that is not a definition. */
  lemma MarkKeeps(g: Graph, state: seq<Order>, done: seq<nat>, id: nat)
    requires g.Ok() && Marked(g, state, done) && id < |state| && g.IdOk(id)
    requires g.types[id].Scalar? || g.types[id].Other? || (g.types[id].Ptr? && Ready(g, done, g.types[id].target, true))
    ensures Marked(g, state[id := Ordered], done)
  {
    var state' := state[id := Ordered];
    forall x | 0 <= x < |state'|
      ensures PtrOk(g, state', done, x)
    {
      assert PtrOk(g, state, done, x);
    }
  }

  /** Putting a struct or union under way. */
  lemma StartKeeps(g: Graph, state: seq<Order>, done: seq<nat>, id: nat)
    requires g.Ok() && Marked(g, state, done) && id < |state| && g.types[id].Composite? && state[id] == NotOrdered
    ensures Marked(g, state[id := Ordering], done)
    ensures Pending(g, state[id := Ordering]) < Pending(g, state)
  {
    var state' := state[id := Ordering];
    assert id in Pending(g, state) && id !in Pending(g, state');
    forall x | 0 <= x < |state'|
      ensures PtrOk(g, state', done, x)
    {
      assert PtrOk(g, state, done, x);
    }
  }

  lemma PushOkGrows(g: Graph, done: seq<nat>, x: nat, e: Push)
    requires PushOk(g, done, e)
    ensures PushOk(g, done + [x], e)
  {
    var i :| 0 <= i <= e.mark && i < |done| && done[i] == e.id;
    assert (done + [x])[i] == e.id;
  }

  /** Completing a definition that has no declaration of its own. */
  lemma CompleteKeepsQueue(g: Graph, referenced: seq<bool>, done: seq<nat>, history: seq<Push>, id: nat)
    requires |referenced| == |g.types| && id < |g.types| && !Emitted(g, referenced, id)
    requires forall k :: 0 <= k < |done| ==> done[k] < |g.types|
    requires QueueOk(g, referenced, done, history)
    ensures QueueOk(g, referenced, done + [id], history)
  {
    forall k | 0 <= k < |history|
      ensures PushOk(g, done + [id], history[k])
    {
      PushOkGrows(g, done, id, history[k]);
    }
    assert forall j :: 0 <= j < |done| ==> (done + [id])[j] == done[j];
  }

  /** Queueing a definition as it is completed, or a typedef again. */
  lemma PushKeepsQueue(g: Graph, referenced: seq<bool>, done: seq<nat>, done': seq<nat>, history: seq<Push>, id: nat)
    requires |referenced| == |g.types| && id < |g.types| && IsDefinition(g.types[id])
    requires forall k :: 0 <= k < |done| ==> done[k] < |g.types|
    requires QueueOk(g, referenced, done, history)
    requires done' == done + [id] || (done' == done && g.types[id].Typedef? && id in done)
    ensures QueueOk(g, referenced, done', history + [Push(id, |done|)])
  {
    var e := Push(id, |done|);
    var history' := history + [e];
    assert CompletedBy(done', id, |done|) by {
      if done' == done {
        var i :| 0 <= i < |done| && done[i] == id;
      } else {
        assert done'[|done|] == id;
      }
    }
    forall k | 0 <= k < |history'|
      ensures PushOk(g, done', history'[k])
    {
      if k < |history| {
        assert history'[k] == history[k] && PushOk(g, done, history[k]);
        if done' != done {
          PushOkGrows(g, done, id, history[k]);
        }
      }
    }
    forall j, k | 0 <= j < k < |history'|
      ensures InOrder(g, history'[j], history'[k])
    {
      assert PushOk(g, done, history[j]);
      if k < |history| {
        assert InOrder(g, history[j], history[k]);
      }
    }
    forall j | 0 <= j < |done'| && Emitted(g, referenced, done'[j])
      ensures Push(done'[j], j) in history'
    {
      if j < |done| {
        assert done'[j] == done[j];
      } else {
        assert history'[|history|] == e;
      }
    }
  }

  /** Marking a typedef starts or finishes no struct or union. */
  lemma MarkTypedef(g: Graph, state: seq<Order>, id: nat)
    requires id < |state| == |g.types| && g.types[id].Typedef?
    ensures Pending(g, state[id := Ordered]) == Pending(g, state)
  {
  }

  // ---------------------------------------------------------------- what a call does

  /** A call that succeeds only adds, leaves the same types under way, and makes its type
      ready; one that fails has met a loop or an unknown kind. */
  ghost predicate CallOk(g: Graph, state0: seq<Order>, done0: seq<nat>, history0: seq<Push>,
                         state: seq<Order>, done: seq<nat>, history: seq<Push>, stack: seq<Node>, r: int)
    requires g.Ok() && |stack| >= 1 && stack[|stack| - 1].id < |g.types|
  {
    if r < 0 then
      && |state| == |state0|
      && ((r == -ELOOP && Loops(g, stack[0])) || (r == -EINVAL && HasUnknown(g)))
    else
      var node := stack[|stack| - 1];
      && r <= 1 && |state| == |state0|
      && done0 <= done && history0 <= history
      && (forall x :: 0 <= x < |state| ==> (state[x] == Ordering <==> state0[x] == Ordering))
      && Pending(g, state) <= Pending(g, state0)
      && Ready(g, done, node.id, node.behindPtr)
      && (r == 1 ==> Ready(g, done, node.id, false))
  }

  /** The child of a node that is being visited may be visited. */
  lemma PushNode(g: Graph, state: seq<Order>, stack: seq<Node>, to: Node)
    requires StackOk(g, state, stack) && Step(g, stack[|stack| - 1], to)
    ensures StackOk(g, state, stack + [to])
  {
    var stack' := stack + [to];
    forall i | 0 <= i < |stack'| - 1
      ensures Step(g, stack'[i], stack'[i + 1])
    {
    }
    forall id | 0 <= id < |state| && state[id] == Ordering
      ensures OnStack(g, stack', id)
    {
      assert OnStack(g, stack, id);
      var i :| 0 <= i < |stack| - 1 && stack[i].id == id && Demanded(g, stack[i]);
      assert stack'[i].id == id && Demanded(g, stack'[i]);
    }
  }

  /** A struct or union may be put under way when its members are visited. */
  lemma PushMember(g: Graph, state: seq<Order>, stack: seq<Node>, m: nat)
    requires StackOk(g, state, stack)
    requires var node := stack[|stack| - 1];
             && node.id < |g.types| && g.types[node.id].Composite? && Demanded(g, node)
             && m in g.types[node.id].members && m < |g.types|
    ensures StackOk(g, state[stack[|stack| - 1].id := Ordering], stack + [Node(m, false)])
  {
    var stack' := stack + [Node(m, false)];
    PushNode(g, state, stack, Node(m, false));
    var n := |stack| - 1;
    assert stack'[n].id == stack[n].id && Demanded(g, stack'[n]);
    assert OnStack(g, stack', stack[n].id);
  }

  lemma SameStack(g: Graph, state: seq<Order>, state': seq<Order>, stack: seq<Node>)
    requires StackOk(g, state, stack) && |state'| == |state|
    requires forall x :: 0 <= x < |state| ==> (state'[x] == Ordering <==> state[x] == Ordering)
    ensures StackOk(g, state', stack)
  {
  }

  /** While its members are visited, a struct or union is under way beside those on the stack. */
  lemma MemberStack(g: Graph, state: seq<Order>, state': seq<Order>, stack: seq<Node>, m: nat)
    requires StackOk(g, state, stack) && |state'| == |state|
    requires var node := stack[|stack| - 1];
             && node.id < |g.types| && g.types[node.id].Composite? && Demanded(g, node)
             && m in g.types[node.id].members && m < |g.types|
             && forall x :: 0 <= x < |state| ==> (state'[x] == Ordering <==> state[x] == Ordering || x == node.id)
    ensures StackOk(g, state', stack + [Node(m, false)])
  {
    PushMember(g, state, stack, m);
    SameStack(g, state[stack[|stack| - 1].id := Ordering], state', stack + [Node(m, false)]);
  }

  /** A struct or union that was under way is no longer. */
  lemma CompositeDone(g: Graph, state0: seq<Order>, state1: seq<Order>, state: seq<Order>, id: nat)
    requires id < |state0| == |state1| == |state| == |g.types|
    requires state0[id] == NotOrdered && state == state1[id := Ordered]
    requires forall x :: 0 <= x < |state1| ==> (state1[x] == Ordering <==> state0[id := Ordering][x] == Ordering)
    requires Pending(g, state1) <= Pending(g, state0[id := Ordering])
    ensures forall x :: 0 <= x < |state| ==> (state[x] == Ordering <==> state0[x] == Ordering)
    ensures Pending(g, state) <= Pending(g, state0)
  {
    forall x | x in Pending(g, state)
      ensures x in Pending(g, state0)
    {
      assert x in Pending(g, state1);
    }
  }

  /** The queue of the current call is the end of the history. */
  ghost predicate QueueIsTail(queue: seq<nat>, history: seq<Push>) {
    |queue| <= |history| && forall k :: 0 <= k < |queue| ==> history[|history| - |queue| + k].id == queue[k]
  }

  lemma QueueGrows(queue: seq<nat>, history: seq<Push>, id: nat, mark: nat)
    requires QueueIsTail(queue, history)
    ensures QueueIsTail(queue + [id], history + [Push(id, mark)])
  {
  }

  class Dump {
    const g: Graph
    const referenced: seq<bool>
    var state: seq<Order>
    var queue: seq<nat>
    ghost var done: seq<nat>
    ghost var history: seq<Push>

    ghost predicate Valid()
      reads this
    {
      && g.Ok() && |referenced| == |g.types|
      && Marked(g, state, done)
      && QueueOk(g, referenced, done, history)
      && QueueIsTail(queue, history)
    }

    constructor (g: Graph, referenced: seq<bool>)
      requires g.Ok() && |referenced| == |g.types|
      ensures Valid() && this.g == g && this.referenced == referenced
      ensures done == [] && history == [] && forall id :: 0 <= id < |state| ==> state[id] != Ordering
    {
      this.g := g;
      this.referenced := referenced;
      state := seq(|g.types|, i requires 0 <= i < |g.types| => if g.types[i].Void? then Ordered else NotOrdered);
      queue, done, history := [], [], [];
    }

    /** Append to the emit queue. */
    method AddEmitQueueId(id: nat)
      modifies this`queue, this`history
      ensures queue == old(queue) + [id] && history == old(history) + [Push(id, |done|)]
    {
      queue := queue + [id];
      history := history + [Push(id, |done|)];
    }

    /** Queue a definition if it stands on its own, and mark it. */
    method Complete(id: nat)
      requires Valid() && id < |g.types| && IsDefinition(g.types[id])
      requires state[id] != Ordered && PartsReady(g, done, id)
      modifies this
      ensures Valid() && done == old(done) + [id] && old(history) <= history
      ensures state == old(state)[id := Ordered]
    {
      CompleteKeeps(g, state, done, id);
      QueueGrows(queue, history, id, |done|);
      if Emitted(g, referenced, id) {
        PushKeepsQueue(g, referenced, done, done + [id], history, id);
        AddEmitQueueId(id);
      } else {
        CompleteKeepsQueue(g, referenced, done, history, id);
      }
      state := state[id := Ordered];
      done := done + [id];
    }

    /** Mark a type that is not a definition. */
    method Mark(id: nat)
      requires Valid() && id < |g.types| && g.IdOk(id)
      requires
        || g.types[id].Scalar?
        || g.types[id].Other?
        || (g.types[id].Ptr? && Ready(g, done, g.types[id].target, true))
      modifies this`state
      ensures Valid() && state == old(state)[id := Ordered]
    {
      MarkKeeps(g, state, done, id);
      state := state[id := Ordered];
    }

    /** Visit a type that is reached along the stack. */
    method OrderType(id: nat, behindPtr: bool, ghost stack: seq<Node>) returns (r: int)
      requires Valid() && id < |g.types|
      requires StackOk(g, state, stack) && stack[|stack| - 1] == Node(id, behindPtr)
      modifies this
      ensures r >= 0 ==> Valid()
      ensures CallOk(g, old(state), old(done), old(history), state, done, history, stack, r)
      decreases Pending(g, state), g.rank[id], 1
    {
      assert g.IdOk(id);
      if state[id] == Ordered {
        OrderedIsReady(g, state, done, id);
        return 1;
      }
      if state[id] == Ordering {
        if g.types[id].Composite? && behindPtr && g.types[id].named {
          return 0;
        }
        assert Closes(g, stack);
        return -ELOOP;
      }
      match g.types[id] {
        case Scalar =>
          Mark(id);
          return 0;
        case Other =>
          Mark(id);
          return 0;
        case Composite(named, _) =>
          if behindPtr && named {
            return 0;
          }
          r := OrderComposite(id, behindPtr, stack);
        case Enumeration(_) =>
          Complete(id);
          return 1;
        case Typedef(_) =>
          r := OrderTypedef(id, behindPtr, stack);
        case FuncProto(_, _) =>
          r := OrderFuncProto(id, behindPtr, stack);
        case Unknown =>
          return -EINVAL;
        case Void =>
          return -EINVAL;
        case _ =>
          r := OrderThrough(id, behindPtr, stack);
      }
    }

    /** Pointers, arrays and modifiers hand on to the type behind them. */
    method OrderThrough(id: nat, behindPtr: bool, ghost stack: seq<Node>) returns (r: int)
      requires Valid() && id < |g.types| && g.IdOk(id) && state[id] == NotOrdered
      requires g.types[id].Ptr? || g.types[id].Array? || g.types[id].Modifier?
      requires StackOk(g, state, stack) && stack[|stack| - 1] == Node(id, behindPtr)
      modifies this
      ensures r >= 0 ==> Valid()
      ensures CallOk(g, old(state), old(done), old(history), state, done, history, stack, r)
      decreases Pending(g, state), g.rank[id], 0
    {
      match g.types[id] {
        case Ptr(target) =>
          PushNode(g, state, stack, Node(target, true));
          r := OrderType(target, true, stack + [Node(target, true)]);
          if r >= 0 {
            Mark(id);
          } else {
            state := state[id := Ordered];
          }
        case Array(element) =>
          PushNode(g, state, stack, Node(element, false));
          r := OrderType(element, false, stack + [Node(element, false)]);
        case Modifier(target) =>
          PushNode(g, state, stack, Node(target, behindPtr));
          r := OrderType(target, behindPtr, stack + [Node(target, behindPtr)]);
      }
    }

    /** A typedef is a definition once its type is; behind a pointer that is not yet needed if
        its type can be declared forward. */
    method OrderTypedef(id: nat, behindPtr: bool, ghost stack: seq<Node>) returns (r: int)
      requires Valid() && id < |g.types| && g.IdOk(id) && g.types[id].Typedef?
      requires StackOk(g, state, stack) && stack[|stack| - 1] == Node(id, behindPtr)
      modifies this
      ensures r >= 0 ==> Valid()
      ensures CallOk(g, old(state), old(done), old(history), state, done, history, stack, r)
      decreases Pending(g, state), g.rank[id], 0
    {
      var target := g.types[id].target;
      PushNode(g, state, stack, Node(target, behindPtr));
      var strong := OrderType(target, behindPtr, stack + [Node(target, behindPtr)]);
      if strong < 0 {
        return strong;
      }
      if behindPtr && strong == 0 {
        return 0;
      }
      CompleteTypedef(id);
      return 1;
    }

    /** Queue a typedef once more. */
    method QueueAgain(id: nat)
      requires Valid() && id < |g.types| && g.types[id].Typedef? && id in done
      modifies this`queue, this`history
      ensures Valid() && old(history) <= history
    {
      PushKeepsQueue(g, referenced, done, done, history, id);
      QueueGrows(queue, history, id, |done|);
      AddEmitQueueId(id);
    }

    /** Queue and mark a typedef, even if it was completed in the meantime. */
    method CompleteTypedef(id: nat)
      requires Valid() && id < |g.types| && g.types[id].Typedef? && PartsReady(g, done, id)
      modifies this
      ensures Valid() && old(done) <= done && id in done && old(history) <= history
      ensures state == old(state)[id := Ordered]
      ensures Pending(g, state) == Pending(g, old(state))
    {
      MarkTypedef(g, state, id);
      if state[id] != Ordered {
        Complete(id);
        assert done[|done| - 1] == id;
      } else {
        assert state == state[id := Ordered];
        QueueAgain(id);
      }
    }

    /** The members of a struct or union come before it. */
    method OrderComposite(id: nat, behindPtr: bool, ghost stack: seq<Node>) returns (r: int)
      requires Valid() && id < |g.types| && g.IdOk(id) && g.types[id].Composite? && state[id] == NotOrdered
      requires StackOk(g, state, stack) && stack[|stack| - 1] == Node(id, behindPtr) && Demanded(g, Node(id, behindPtr))
      modifies this
      ensures r >= 0 ==> Valid()
      ensures CallOk(g, old(state), old(done), old(history), state, done, history, stack, r)
      decreases Pending(g, state), g.rank[id], 0
    {
      StartKeeps(g, state, done, id);
      state := state[id := Ordering];
      r := OrderMembers(id, stack, old(state));
      if r < 0 {
        return;
      }
      ghost var state2, done2 := state, done;
      Complete(id);
      CompositeDone(g, old(state), state2, state, id);
      return 1;
    }

    /** Visit the members of a struct or union that is under way; state0 is the state before. */
    method OrderMembers(id: nat, ghost stack: seq<Node>, ghost state0: seq<Order>) returns (r: int)
      requires Valid() && id < |g.types| && g.IdOk(id) && g.types[id].Composite?
      requires StackOk(g, state0, stack) && stack[|stack| - 1].id == id && Demanded(g, stack[|stack| - 1])
      requires id < |state0| && state == state0[id := Ordering]
      modifies this
      ensures |state| == |state0|
      ensures r < 0 ==> (r == -ELOOP && Loops(g, stack[0])) || (r == -EINVAL && HasUnknown(g))
      ensures r >= 0 ==> Valid() && PartsReady(g, done, id) && old(done) <= done && old(history) <= history
      ensures r >= 0 ==> forall x :: 0 <= x < |state| ==> (state[x] == Ordering <==> old(state)[x] == Ordering)
      ensures r >= 0 ==> Pending(g, state) <= Pending(g, old(state))
      decreases Pending(g, state)
    {
      r := 0;
      var members := g.types[id].members;
      for i := 0 to |members|
        invariant Valid() && r >= 0 && old(done) <= done && old(history) <= history
        invariant |state| == |old(state)|
        invariant forall x :: 0 <= x < |state| ==> (state[x] == Ordering <==> old(state)[x] == Ordering)
        invariant Pending(g, state) <= Pending(g, old(state))
        invariant forall j :: 0 <= j < i ==> Ready(g, done, members[j], false)
      {
        MemberStack(g, state0, state, stack, members[i]);
        ghost var done1 := done;
        r := OrderType(members[i], false, stack + [Node(members[i], false)]);
        if r < 0 {
          return;
        }
        forall j | 0 <= j < i
          ensures Ready(g, done, members[j], false)
        {
          ReadyMonotone(g, done1, done, members[j], false);
        }
      }
    }

    /** The result and the parameters of a prototype are visited in turn. */
    method OrderFuncProto(id: nat, behindPtr: bool, ghost stack: seq<Node>) returns (r: int)
      requires Valid() && id < |g.types| && g.IdOk(id) && g.types[id].FuncProto?
      requires StackOk(g, state, stack) && stack[|stack| - 1] == Node(id, behindPtr)
      modifies this
      ensures r >= 0 ==> Valid()
      ensures CallOk(g, old(state), old(done), old(history), state, done, history, stack, r)
      decreases Pending(g, state), g.rank[id], 0
    {
      var result, params := g.types[id].result, g.types[id].params;
      PushNode(g, state, stack, Node(result, behindPtr));
      r := OrderType(result, behindPtr, stack + [Node(result, behindPtr)]);
      if r < 0 {
        return;
      }
      var strong := r > 0;
      for i := 0 to |params|
        invariant Valid() && |state| == |old(state)| && old(done) <= done && old(history) <= history
        invariant forall x :: 0 <= x < |state| ==> (state[x] == Ordering <==> old(state)[x] == Ordering)
        invariant Pending(g, state) <= Pending(g, old(state))
      {
        SameStack(g, old(state), state, stack);
        PushNode(g, state, stack, Node(params[i], behindPtr));
        r := OrderType(params[i], behindPtr, stack + [Node(params[i], behindPtr)]);
        if r < 0 {
          return;
        }
        if r > 0 {
          strong := true;
        }
      }
      return if strong then 1 else 0;
    }

    /** Order a type and what it needs.  The types under way are none, before and after a
        success.  A strong loop makes the call fail; it fails with ELOOP only if the walk
        comes back, and without function prototypes these are the same. */
    method DumpType(id: nat) returns (r: int)
      requires Valid() && forall x :: 0 <= x < |state| ==> state[x] != Ordering
      modifies this
      ensures id >= |g.types| ==> r == -EINVAL && state == old(state) && queue == old(queue)
      ensures r >= 0 ==>
        && Valid() && (forall x :: 0 <= x < |state| ==> state[x] != Ordering)
        && old(done) <= done && old(history) <= history
        && Ready(g, done, id, false)
        && !StrongLoops(g, Node(id, false))
      ensures r < 0 && id < |g.types| ==> (r == -ELOOP && Loops(g, Node(id, false))) || (r == -EINVAL && HasUnknown(g))
      ensures id < |g.types| && !HasUnknown(g) && !HasFuncProto(g) ==> (r == -ELOOP <==> Loops(g, Node(id, false)))
    {
      if id >= |g.types| {
        return -EINVAL;
      }
      queue := [];
      var root := Node(id, false);
      r := OrderType(id, false, [root]);
      if r >= 0 {
        NoLoopWhenReady(g, done, root);
        if !HasFuncProto(g) && Loops(g, root) {
          LoopIsStrong(g, root);
        }
        r := 0;
      }
    }
  }

  // ---------------------------------------------------------------- loops

  ghost predicate HasFuncProto(g: Graph) {
    exists id :: 0 <= id < |g.types| && g.types[id].FuncProto?
  }

  /** A strong path that comes back to a struct or union whose definition it needs. */
  ghost predicate StrongLoops(g: Graph, root: Node) {
    exists p :: StrongPath(g, p) && p[0] == root && Closes(g, p)
  }

  lemma LoopIsStrong(g: Graph, root: Node)
    requires Loops(g, root) && !HasFuncProto(g)
    ensures StrongLoops(g, root)
  {
  }

  /** What has been made ready is not on a strong loop. */
  lemma NoLoopWhenReady(g: Graph, done: seq<nat>, root: Node)
    requires g.Ok() && Topological(g, done) && root.id < |g.types| && Ready(g, done, root.id, root.behindPtr)
    ensures !StrongLoops(g, root)
  {
    forall p: seq<Node> | StrongPath(g, p) && p[0] == root
      ensures !Closes(g, p)
    {
      if Closes(g, p) {
        var i :| 0 <= i < |p| - 1 && p[i].id == p[|p| - 1].id && Demanded(g, p[i]);
        SubPath(g, p, 0, i + 1);
        assert done[..|done|] == done;
        ReadyReaches(g, done, |done|, p[0..i + 1]);
        SubPath(g, p, i, |p|);
        NoStrongCycle(g, done, p[i..]);
      }
    }
  }

  // ---------------------------------------------------------------- the emitted order

  /** Over all calls, a struct, union or enum is queued at most once. */
  lemma QueuedOnce(g: Graph, referenced: seq<bool>, state: seq<Order>, done: seq<nat>, history: seq<Push>, j: nat,
                   k: nat)
    requires g.Ok() && |referenced| == |g.types| && Marked(g, state, done) && QueueOk(g, referenced, done, history)
    requires j < |history| && k < |history| && history[j].id == history[k].id
    requires history[j].id < |g.types| && !g.types[history[j].id].Typedef?
    ensures j == k
  {
    assert PushOk(g, done, history[j]) && PushOk(g, done, history[k]);
    assert j < k ==> InOrder(g, history[j], history[k]);
    assert k < j ==> InOrder(g, history[k], history[j]);
  }

  /** When a definition is queued, for the first time or again, every definition with a declaration
      of its own that it strongly needs has been queued before, in this call or an earlier one. */
  lemma NeedsQueuedFirst(g: Graph, referenced: seq<bool>, state: seq<Order>, done: seq<nat>, history: seq<Push>,
                         k: nat, p: seq<Node>)
    requires g.Ok() && |referenced| == |g.types| && Marked(g, state, done) && QueueOk(g, referenced, done, history)
    requires k < |history| && StrongPath(g, p) && |p| >= 2 && p[0] == Node(history[k].id, false)
    requires Demanded(g, p[|p| - 1]) && Emitted(g, referenced, p[|p| - 1].id)
    ensures exists j :: 0 <= j < k && history[j].id == p[|p| - 1].id
  {
    assert PushOk(g, done, history[k]);
    var y := p[|p| - 1].id;
    var m :| 0 <= m <= history[k].mark && m < |done| && done[m] == history[k].id;
    NeedsComeFirst(g, done, m, p);
    var i :| 0 <= i < m && done[i] == y;
    assert Push(done[i], i) in history;
    var j :| 0 <= j < |history| && history[j] == Push(y, i);
    assert k < j ==> InOrder(g, history[k], history[j]);
  }
}
