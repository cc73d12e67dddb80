/**
  The active object the samples build around a `StateManager`: a queue of
  events, a slot `m_next_state` that handlers write the requested target into,
  and a worker loop that pops one event, offers it to the active states and
  then carries out the requested transition, if any.

  The handlers of a concrete actor are given as one function `decide`: for a
  node and an event it yields the code the node's `process_event` returns and
  the state it stores into `m_next_state`, if it stores one.
 */
module Actors {
  import opened StateTree
  import opened Transition
  import opened Dispatch
  import opened Balance
  import opened ThreadSafeQueue
  import StateManagement

  /** The effect of one `process_event` call: its return code and its write to `m_next_state`. */
  datatype Decision = Decision(code: int, next: Option<Node>)

  /** A handler only ever names a state of its own tree as the next state (never the root, never `end()`). */
  ghost predicate TableValid<E(!new)>(t: Tree, decide: (Node, E) -> Decision) {
    forall n: Node, e: E :: decide(n, e).next.Some? ==> t.IsState(decide(n, e).next.value)
  }

  /** The return codes of the handlers for one event, as `processEvent` sees them. */
  function Verdict<E>(decide: (Node, E) -> Decision, e: E): (verdict: Node -> int)
    ensures forall n :: verdict(n) == decide(n, e).code
  {
    (n: Node) => decide(n, e).code
  }

  /**
    `m_next_state` after the handlers of `offered` ran in order on `e`, starting
    from `slot`: each handler that names a target overwrites the slot.
   */
  function Pending<E>(offered: seq<Node>, decide: (Node, E) -> Decision, e: E, slot: Option<Node>): (r: Option<Node>)
    ensures r == slot || exists i :: 0 <= i < |offered| && r == decide(offered[i], e).next
  {
    if offered == [] then slot
    else
      var written := decide(offered[0], e).next;
      var r := Pending(offered[1..], decide, e, if written.Some? then written else slot);
      assert r != slot && r != written ==> exists i :: 1 <= i < |offered| && r == decide(offered[i], e).next by {
        if r != slot && r != written {
          var k :| 0 <= k < |offered[1..]| && r == decide(offered[1..][k], e).next;
          assert offered[1..][k] == offered[k + 1];
        }
      }
      r
  }

  /**
    The last handler that names a target wins: the slot ends on its target, and it
    is left as it was when no handler names one.
   */
  lemma {:induction false} PendingLastWrite<E>(offered: seq<Node>, decide: (Node, E) -> Decision, e: E, slot: Option<Node>)
    ensures (forall i :: 0 <= i < |offered| ==> decide(offered[i], e).next == None) ==>
              Pending(offered, decide, e, slot) == slot
    ensures (exists i :: 0 <= i < |offered| && decide(offered[i], e).next.Some?) ==>
              exists i :: 0 <= i < |offered| && Pending(offered, decide, e, slot) == decide(offered[i], e).next &&
                          decide(offered[i], e).next.Some? &&
                          forall j :: i < j < |offered| ==> decide(offered[j], e).next == None
    decreases |offered|
  {
    if offered != [] {
      var written := decide(offered[0], e).next;
      var slot' := if written.Some? then written else slot;
      var rest := offered[1..];
      PendingLastWrite(rest, decide, e, slot');
      forall i | 0 <= i < |rest| ensures rest[i] == offered[i + 1] { }
      if exists i :: 0 <= i < |rest| && decide(rest[i], e).next.Some? {
        var k :| 0 <= k < |rest| && Pending(rest, decide, e, slot') == decide(rest[k], e).next &&
                 decide(rest[k], e).next.Some? &&
                 forall j :: k < j < |rest| ==> decide(rest[j], e).next == None;
        assert forall j :: k + 1 < j < |offered| ==> offered[j] == rest[j - 1];
      } else {
        assert forall j :: 0 < j < |offered| ==> offered[j] == rest[j - 1];
      }
    }
  }

  /** The observable state of an actor between two events: its cursor and the handler calls so far. */
  datatype Config = Config(current: Node, calls: seq<Call>)

  /**
    One pass of the worker loop on event `e`: offer `e` along the active chain,
    then, if a handler asked for a target, transition to it.
   */
  function Step<E(!new)>(t: Tree, decide: (Node, E) -> Decision, c: Config, e: E): (r: Config)
    requires t.Valid() && t.IsState(c.current) && TableValid(t, decide)
    ensures t.IsState(r.current)
    ensures c.calls <= r.calls
  {
    var offered := Bubble(t, c.current, Verdict(decide, e));
    var afterOffers := c.calls + Offers(offered);
    match Pending(offered, decide, e, None)
    case None => Config(c.current, afterOffers)
    case Some(target) => Config(target, afterOffers + TransitionCalls(t, c.current, target))
  }

  /** The worker loop fed `events` one at a time. */
  function Steps<E(!new)>(t: Tree, decide: (Node, E) -> Decision, c: Config, events: seq<E>): (r: Config)
    requires t.Valid() && t.IsState(c.current) && TableValid(t, decide)
    ensures t.IsState(r.current)
    ensures c.calls <= r.calls
    decreases |events|
  {
    if events == [] then c else Steps(t, decide, Step(t, decide, c, events[0]), events[1..])
  }

  /**
    A step worked out piece by piece: the states offered the event, the slot they
    leave, and the transition calls to the target if there is one.
   */
  lemma StepFromParts<E(!new)>(t: Tree, decide: (Node, E) -> Decision, c: Config, e: E,
                               offered: seq<Node>, next: Option<Node>, moves: seq<Call>)
    requires t.Valid() && t.IsState(c.current) && TableValid(t, decide)
    requires Bubble(t, c.current, Verdict(decide, e)) == offered
    requires Pending(offered, decide, e, None) == next
    requires next.Some? ==> TransitionCalls(t, c.current, next.value) == moves
    requires next.None? ==> moves == []
    ensures Step(t, decide, c, e) ==
            Config(if next.Some? then next.value else c.current, c.calls + Offers(offered) + moves)
  {
  }

  /**
    The step moves the cursor exactly when some offered handler named a target,
    and then onto the target named last; otherwise it only adds the offers.
   */
  lemma StepOutcome<E(!new)>(t: Tree, decide: (Node, E) -> Decision, c: Config, e: E)
    requires t.Valid() && t.IsState(c.current) && TableValid(t, decide)
    ensures var offered := Bubble(t, c.current, Verdict(decide, e));
            var r := Step(t, decide, c, e);
            (forall i :: 0 <= i < |offered| ==> decide(offered[i], e).next == None) ==>
              r == Config(c.current, c.calls + Offers(offered))
    ensures var offered := Bubble(t, c.current, Verdict(decide, e));
            var r := Step(t, decide, c, e);
            (exists i :: 0 <= i < |offered| && decide(offered[i], e).next.Some?) ==>
              exists i :: 0 <= i < |offered| && decide(offered[i], e).next == Some(r.current) &&
                          r.calls == c.calls + Offers(offered) + TransitionCalls(t, c.current, r.current) &&
                          forall j :: i < j < |offered| ==> decide(offered[j], e).next == None
  {
    PendingLastWrite(Bubble(t, c.current, Verdict(decide, e)), decide, e, None);
  }

  /** A step keeps every state's entries and exits alternating, with exactly the active chain entered. */
  lemma StepKeepsBalance<E(!new)>(t: Tree, decide: (Node, E) -> Decision, c: Config, e: E)
    requires t.Valid() && t.IsState(c.current) && TableValid(t, decide)
    requires Balanced(t, c.calls, c.current)
    ensures Balanced(t, Step(t, decide, c, e).calls, Step(t, decide, c, e).current)
  {
    var offered := Bubble(t, c.current, Verdict(decide, e));
    OffersKeepBalance(t, c.calls, c.current, offered);
    var p := Pending(offered, decide, e, None);
    if p.Some? {
      TransitionKeepsBalance(t, c.calls + Offers(offered), c.current, p.value);
    }
  }

  /** Balance holds after any sequence of events when it held before the first. */
  lemma {:induction false} StepsKeepBalance<E(!new)>(t: Tree, decide: (Node, E) -> Decision, c: Config, events: seq<E>)
    requires t.Valid() && t.IsState(c.current) && TableValid(t, decide)
    requires Balanced(t, c.calls, c.current)
    ensures Balanced(t, Steps(t, decide, c, events).calls, Steps(t, decide, c, events).current)
    decreases |events|
  {
    if events != [] {
      StepKeepsBalance(t, decide, c, events[0]);
      StepsKeepBalance(t, decide, Step(t, decide, c, events[0]), events[1..]);
    }
  }

  /** When the cursor starts in `s` and every target a handler can name lies in `s`, the cursor never leaves `s`. */
  lemma {:induction false} StepsStayAmong<E(!new)>(t: Tree, decide: (Node, E) -> Decision, c: Config, events: seq<E>, s: set<Node>)
    requires t.Valid() && t.IsState(c.current) && TableValid(t, decide)
    requires c.current in s
    requires forall n: Node, e: E :: decide(n, e).next.Some? ==> decide(n, e).next.value in s
    ensures Steps(t, decide, c, events).current in s
    decreases |events|
  {
    if events != [] {
      var offered := Bubble(t, c.current, Verdict(decide, events[0]));
      var p := Pending(offered, decide, events[0], None);
      assert p.Some? ==> p.value in s;
      StepsStayAmong(t, decide, Step(t, decide, c, events[0]), events[1..], s);
    }
  }

  /** Feeding two batches one after the other is feeding their concatenation. */
  lemma {:induction false} StepsAppend<E(!new)>(t: Tree, decide: (Node, E) -> Decision, c: Config, a: seq<E>, b: seq<E>)
    requires t.Valid() && t.IsState(c.current) && TableValid(t, decide)
    ensures Steps(t, decide, c, a + b) == Steps(t, decide, Steps(t, decide, c, a), b)
    decreases |a|
  {
    if a != [] {
      assert (a + b)[0] == a[0] && (a + b)[1..] == a[1..] + b;
      assert Steps(t, decide, c, a + b) == Steps(t, decide, Step(t, decide, c, a[0]), a[1..] + b);
      StepsAppend(t, decide, Step(t, decide, c, a[0]), a[1..], b);
    } else {
      assert a + b == b;
    }
  }

  /** What one handler call does beyond returning 0: the effect of an entry or an exit, none for an offer. */
  function Effect<A>(c: Call, onEntry: Node -> Option<A>, onExit: Node -> Option<A>): Option<A> {
    match c
    case Entry(n) => onEntry(n)
    case Exit(n) => onExit(n)
    case Offer(_) => None
  }

  /**
    What the `on_entry` and `on_exit` handlers do beyond returning 0, in call
    order: `onEntry(n)` and `onExit(n)` are the effect of node `n`'s handlers, if any.
   */
  function Effects<A>(calls: seq<Call>, onEntry: Node -> Option<A>, onExit: Node -> Option<A>): (r: seq<A>)
    ensures |r| <= |calls|
  {
    if calls == [] then []
    else
      var a := Effect(calls[0], onEntry, onExit);
      (if a.Some? then [a.value] else []) + Effects(calls[1..], onEntry, onExit)
  }

  /**
    Every effect comes from some call of the log, every call with an effect
    contributes it, and there are none exactly when no call has one.
   */
  lemma {:induction false} EffectsTrace<A>(calls: seq<Call>, onEntry: Node -> Option<A>, onExit: Node -> Option<A>)
    ensures var r := Effects(calls, onEntry, onExit);
            && (r == [] <==> forall j :: 0 <= j < |calls| ==> Effect(calls[j], onEntry, onExit).None?)
            && (forall k :: 0 <= k < |r| ==> exists j :: 0 <= j < |calls| && Effect(calls[j], onEntry, onExit) == Some(r[k]))
            && (forall j :: 0 <= j < |calls| && Effect(calls[j], onEntry, onExit).Some? ==>
                  Effect(calls[j], onEntry, onExit).value in r)
  {
    if calls != [] {
      EffectsTrace(calls[1..], onEntry, onExit);
      assert forall j :: 0 < j < |calls| ==> calls[j] == calls[1..][j - 1];
    }
  }

  lemma {:induction false} EffectsAppend<A>(a: seq<Call>, b: seq<Call>, onEntry: Node -> Option<A>, onExit: Node -> Option<A>)
    ensures Effects(a + b, onEntry, onExit) == Effects(a, onEntry, onExit) + Effects(b, onEntry, onExit)
  {
    if a != [] {
      assert (a + b)[0] == a[0] && (a + b)[1..] == a[1..] + b;
      EffectsAppend(a[1..], b, onEntry, onExit);
    } else {
      assert a + b == b;
    }
  }

  class Actor<E(!new)> {
    const tree: Tree
    const decide: (Node, E) -> Decision
    /** `m_state_manager`. */
    const sm: StateManagement.StateManager
    /** `m_queue`. */
    const queue: EventQueue<E>
    /** `m_next_state`; `None` is `m_states[UNKNOWN]`, the tree's `end()`. */
    var nextState: Option<Node>
    /** `m_running`. */
    var running: bool

    /** Between two events the slot is empty and the manager works on this actor's tree. */
    ghost predicate Valid()
      reads this, sm
    {
      sm.tree == tree && sm.Valid() && TableValid(tree, decide) && nextState == None
    }

    /** The cursor and the call log, as a value. */
    ghost function Snapshot(): Config
      reads this, sm
    {
      Config(sm.current, sm.calls)
    }

    /** The constructor: builds the tree, empties the slot and hands the tree and the initial state to a new manager. */
    constructor (stateTree: Tree, initial: Node, handlers: (Node, E) -> Decision)
      requires stateTree.Valid() && stateTree.IsState(initial) && TableValid(stateTree, handlers)
      ensures Valid() && fresh(sm) && fresh(queue)
      ensures tree == stateTree && decide == handlers && !running
      ensures Snapshot() == Config(initial, []) && queue.items == []
    {
      tree := stateTree;
      decide := handlers;
      sm := new StateManagement.StateManager(stateTree, initial);
      queue := new EventQueue<E>();
      nextState := None;
      running := false;
    }

    /** `start`: enters the initial state and marks the actor running; the worker thread itself is not modelled. */
    method Start()
      requires Valid()
      modifies this, sm
      ensures Valid() && running
      ensures Snapshot() == Config(old(sm.current), old(sm.calls) + [Entry(old(sm.current))])
    {
      sm.Init();
      running := true;
    }

    /** `callback_IEvent`: queues an event for the worker. */
    method CallbackEvent(e: E)
      modifies queue
      ensures queue.items == old(queue.items) + [e]
    {
      queue.Put(e);
    }

    /** `stop`: a no-op unless running; otherwise clears the flag and drops every pending event. */
    method Stop()
      modifies this, queue
      ensures !running
      ensures old(running) ==> queue.items == []
      ensures !old(running) ==> queue.items == old(queue.items)
      ensures nextState == old(nextState)
    {
      if !running {
        return;
      }
      running := false;
      queue.Clear();
    }

    /** The body of the worker's `do … while` loop: one event, offered and then acted upon. */
    method Iterate()
      requires Valid() && queue.items != []
      modifies this, sm, queue
      ensures Valid() && running == old(running)
      ensures queue.items == old(queue.items)[1..]
      ensures Snapshot() == Step(tree, decide, old(Snapshot()), old(queue.items)[0])
    {
      var e := queue.WaitAndPop();
      var from := sm.current;
      sm.ProcessEvent(Verdict(decide, e));
      nextState := Pending(Bubble(tree, from, Verdict(decide, e)), decide, e, nextState);
      if nextState.Some? {
        sm.TransitionTo(nextState.value);
        nextState := None;
      }
    }

    /** `run_once`: clears `m_running` so that the worker loop stops after one event. */
    method RunOnce()
      requires Valid() && queue.items != []
      modifies this, sm, queue
      ensures Valid() && !running
      ensures queue.items == old(queue.items)[1..]
      ensures Snapshot() == Step(tree, decide, old(Snapshot()), old(queue.items)[0])
    {
      running := false;
      Iterate();
    }

    /**
      `run`: handles one event, then keeps going while the actor is running.
      When running it works through every queued event; the source then blocks in
      `wait_and_pop` until another thread queues more, which the model does not follow.
     */
    method Run()
      requires Valid() && queue.items != []
      modifies this, sm, queue
      ensures Valid() && running == old(running)
      ensures old(running) ==> queue.items == [] && Snapshot() == Steps(tree, decide, old(Snapshot()), old(queue.items))
      ensures !old(running) ==>
                queue.items == old(queue.items)[1..] &&
                Snapshot() == Step(tree, decide, old(Snapshot()), old(queue.items)[0])
    {
      ghost var start := Snapshot();
      ghost var all := queue.items;
      Iterate();
      while running && queue.items != []
        invariant Valid() && running == old(running)
        invariant old(running) ==> |queue.items| < |all| && queue.items == all[|all| - |queue.items|..]
        invariant old(running) ==>
                    Steps(tree, decide, Snapshot(), queue.items) == Steps(tree, decide, start, all)
        invariant !old(running) ==>
                    queue.items == all[1..] && Snapshot() == Step(tree, decide, start, all[0])
        decreases |queue.items|
      {
        Iterate();
      }
    }
  }
}
