/**
  The toaster sample: a heating super-state with toasting and baking below it,
  and a door-open state beside it. Handlers switch the heater, the lamp, the
  toasting timer and the baking temperature on entry and exit, and request
  transitions through `m_next_state`.
 */
module Toaster {
  import opened StateTree
  import opened Transition
  import opened Dispatch
  import opened Balance
  import opened ThreadSafeQueue
  import opened Actors

  /** The state nodes, numbered in the order the constructor appends them. */
  const RootState: Node := 0
  const HeatingState: Node := 1
  const DoorOpenState: Node := 2
  const ToastingState: Node := 3
  const BakingState: Node := 4

  /** Heating and door-open below the root; toasting and baking below heating. */
  const ToasterTree := Tree([0, 0, 0, HeatingState, HeatingState])

  /** The six event classes of the sample; their payloads (a timeout, a temperature) are never read. */
  datatype Event = DoorOpen | DoorClose | DoToasting | DoBaking | Timeout | Shutdown

  /** The actor methods the handlers call. */
  datatype Action =
    | HeaterOn | HeaterOff
    | LampOn | LampOff
    | ArmTimeEvent | DisarmTimeEvent
    | SetTemperature | ResetTemperature

  /**
    `process_event` of each state. The super-state and baking handle everything
    without naming a target; heating handles the door and the two programs; the
    door-open state handles closing; toasting handles its timeout.
   */
  function Decide(n: Node, e: Event): (d: Decision)
    ensures d.next.Some? ==> d.code == 0 && ToasterTree.IsState(d.next.value)
    ensures d.code == 0 || d.code == -1
  {
    if n == HeatingState then
      match e
      case DoorOpen => Decision(0, Some(DoorOpenState))
      case DoToasting => Decision(0, Some(ToastingState))
      case DoBaking => Decision(0, Some(BakingState))
      case _ => Decision(-1, None)
    else if n == DoorOpenState then
      if e == DoorClose then Decision(0, Some(HeatingState)) else Decision(-1, None)
    else if n == ToastingState then
      if e == Timeout then Decision(0, Some(HeatingState)) else Decision(-1, None)
    else
      Decision(0, None)
  }

  /** `on_entry` of each state: the actor method it calls, if any. */
  function EntryAction(n: Node): (r: Option<Action>)
    ensures r.Some? <==> ToasterTree.IsState(n)
    ensures r.Some? ==> r.value in {HeaterOn, LampOn, ArmTimeEvent, SetTemperature}
  {
    if n == HeatingState then Some(HeaterOn)
    else if n == DoorOpenState then Some(LampOn)
    else if n == ToastingState then Some(ArmTimeEvent)
    else if n == BakingState then Some(SetTemperature)
    else None
  }

  /** `on_exit` of each state: the actor method it calls, if any. */
  function ExitAction(n: Node): (r: Option<Action>)
    ensures r.Some? <==> ToasterTree.IsState(n)
    ensures r.Some? ==> r.value in {HeaterOff, LampOff, DisarmTimeEvent, ResetTemperature}
  {
    if n == HeatingState then Some(HeaterOff)
    else if n == DoorOpenState then Some(LampOff)
    else if n == ToastingState then Some(DisarmTimeEvent)
    else if n == BakingState then Some(ResetTemperature)
    else None
  }

  /** The actor methods a log of handler calls performs, in order. */
  function Actions(calls: seq<Call>): seq<Action> {
    Effects(calls, EntryAction, ExitAction)
  }

  /** The ancestor chains of the four states, leaf first (`Up`) and root first (`Down`). */
  lemma ToasterTreeValid()
    ensures ToasterTree.Valid()
    ensures Up(ToasterTree, ToastingState) == [ToastingState, HeatingState]
    ensures Up(ToasterTree, BakingState) == [BakingState, HeatingState]
    ensures Up(ToasterTree, HeatingState) == [HeatingState]
    ensures Up(ToasterTree, DoorOpenState) == [DoorOpenState]
    ensures Down(ToasterTree, HeatingState) == [HeatingState]
    ensures Down(ToasterTree, DoorOpenState) == [DoorOpenState]
    ensures Down(ToasterTree, BakingState) == [HeatingState, BakingState]
  {
    UpOfToasting();
    UpOfBaking();
    UpOfHeating();
    UpOfDoorOpen();
    DownOfHeating();
    DownOfDoorOpen();
    DownOfBaking();
  }

  lemma UpOfHeating()
    ensures ToasterTree.Valid() && Up(ToasterTree, HeatingState) == [HeatingState]
  {
    assert ToasterTree.Valid();
    assert Up(ToasterTree, Root) == [];
  }

  lemma DownOfHeating()
    ensures ToasterTree.Valid() && Down(ToasterTree, HeatingState) == [HeatingState]
  {
    assert ToasterTree.Valid();
    assert Down(ToasterTree, Root) == [];
  }

  lemma UpOfDoorOpen()
    ensures ToasterTree.Valid() && Up(ToasterTree, DoorOpenState) == [DoorOpenState]
  {
    assert ToasterTree.Valid();
    assert Up(ToasterTree, Root) == [];
  }

  lemma DownOfDoorOpen()
    ensures ToasterTree.Valid() && Down(ToasterTree, DoorOpenState) == [DoorOpenState]
  {
    assert ToasterTree.Valid();
    assert Down(ToasterTree, Root) == [];
  }

  lemma UpOfToasting()
    ensures ToasterTree.Valid() && Up(ToasterTree, ToastingState) == [ToastingState, HeatingState]
  {
    assert ToasterTree.Valid();
    assert Up(ToasterTree, Root) == [];
    assert Up(ToasterTree, HeatingState) == [HeatingState];
  }

  lemma UpOfBaking()
    ensures ToasterTree.Valid() && Up(ToasterTree, BakingState) == [BakingState, HeatingState]
  {
    assert ToasterTree.Valid();
    assert Up(ToasterTree, Root) == [];
    assert Up(ToasterTree, HeatingState) == [HeatingState];
  }

  lemma DownOfBaking()
    ensures ToasterTree.Valid() && Down(ToasterTree, BakingState) == [HeatingState, BakingState]
  {
    assert ToasterTree.Valid();
    assert Down(ToasterTree, Root) == [];
    assert Down(ToasterTree, HeatingState) == [HeatingState];
  }

  /** Every target a toaster handler names is a state of the toaster tree. */
  lemma DecideValid()
    ensures ToasterTree.Valid() && TableValid(ToasterTree, Decide)
  {
  }

  /** The log right after `init`: the initial state heating is entered, which switches the heater on. */
  const Started := Config(HeatingState, [Entry(HeatingState)])

  /** After `init` every toaster state is balanced, and the only action so far is `heater_on`. */
  lemma StartBalanced()
    ensures ToasterTree.Valid() && Balanced(ToasterTree, Started.calls, Started.current)
    ensures Actions(Started.calls) == [HeaterOn]
  {
    InitBalanced(ToasterTree, HeatingState);
  }

  /** An event toasting refuses climbs to heating, which takes it; heating's target is the one pending. */
  lemma ClimbsToHeating(e: Event)
    requires e == DoorOpen || e == DoToasting
    ensures ToasterTree.Valid() && ToasterTree.IsState(ToastingState)
    ensures Bubble(ToasterTree, ToastingState, Verdict(Decide, e)) == [ToastingState, HeatingState]
    ensures Pending([ToastingState, HeatingState], Decide, e, None) == Decide(HeatingState, e).next
    ensures Decide(HeatingState, e).next.Some?
  {
    var verdict := Verdict(Decide, e);
    assert ToasterTree.Valid();
    assert ToasterTree.parent[ToastingState] == HeatingState;
    assert Decide(ToastingState, e) == Decision(-1, None);
    assert Decide(HeatingState, e).code == 0 && verdict(HeatingState) == 0;
    BubbleTakenAt(ToasterTree, HeatingState, verdict);
    BubblePassedOn(ToasterTree, ToastingState, verdict);
    assert [ToastingState, HeatingState][1..] == [HeatingState] && [HeatingState][1..] == [];
  }

  /** An event the state it is offered to handles stops there; that state's target is the one pending. */
  lemma TakenWhere(s: Node, e: Event)
    requires ToasterTree.IsState(s) && Decide(s, e).code == 0
    ensures ToasterTree.Valid()
    ensures Bubble(ToasterTree, s, Verdict(Decide, e)) == [s]
    ensures Pending([s], Decide, e, None) == Decide(s, e).next
  {
    assert ToasterTree.Valid();
    BubbleTakenAt(ToasterTree, s, Verdict(Decide, e));
    assert [s][1..] == [];
  }

  /** From toasting to the door-open state: the chains share nothing, so toasting and heating are exited. */
  lemma MoveToastingToDoorOpen()
    ensures ToasterTree.Valid()
    ensures TransitionCalls(ToasterTree, ToastingState, DoorOpenState) ==
            [Exit(ToastingState), Exit(HeatingState), Entry(DoorOpenState)]
  {
    UpOfToasting();
    DownOfDoorOpen();
    assert FirstShared([ToastingState, HeatingState], [DoorOpenState]) == 2;
    TransitionFromChains(ToasterTree, ToastingState, DoorOpenState, [ToastingState, HeatingState], [DoorOpenState], 2, 0);
  }

  /** From toasting to its parent heating: only toasting is exited. */
  lemma MoveToastingToHeating()
    ensures ToasterTree.Valid()
    ensures TransitionCalls(ToasterTree, ToastingState, HeatingState) == [Exit(ToastingState)]
  {
    UpOfToasting();
    DownOfHeating();
    ToastingHeatingShared();
    TransitionFromChains(ToasterTree, ToastingState, HeatingState, [ToastingState, HeatingState], [HeatingState], 1, 1);
  }

  /** Toasting's chain meets heating's at its second entry, which heads heating's chain. */
  lemma ToastingHeatingShared()
    ensures FirstShared([ToastingState, HeatingState], [HeatingState]) == 1
    ensures [HeatingState][IndexOf([HeatingState], HeatingState) + 1..] == []
    ensures Exits([ToastingState, HeatingState][..1]) == [Exit(ToastingState)]
  {
    assert IndexOf([HeatingState], HeatingState) == 0;
    assert [ToastingState, HeatingState][..1] == [ToastingState];
  }

  /** From heating to its child baking: nothing is exited and baking is entered. */
  lemma MoveHeatingToBaking()
    ensures ToasterTree.Valid()
    ensures TransitionCalls(ToasterTree, HeatingState, BakingState) == [Entry(BakingState)]
  {
    UpOfHeating();
    DownOfBaking();
    assert FirstShared([HeatingState], [HeatingState, BakingState]) == 0;
    assert IndexOf([HeatingState, BakingState], HeatingState) == 0;
    assert [HeatingState, BakingState][1..] == [BakingState];
    TransitionFromChains(ToasterTree, HeatingState, BakingState, [HeatingState], [HeatingState, BakingState], 0, 1);
  }

  /** From the door-open state to heating: the chains share nothing. */
  lemma MoveDoorOpenToHeating()
    ensures ToasterTree.Valid()
    ensures TransitionCalls(ToasterTree, DoorOpenState, HeatingState) == [Exit(DoorOpenState), Entry(HeatingState)]
  {
    UpOfDoorOpen();
    DownOfHeating();
    assert FirstShared([DoorOpenState], [HeatingState]) == 1;
    TransitionFromChains(ToasterTree, DoorOpenState, HeatingState, [DoorOpenState], [HeatingState], 1, 0);
  }

  /**
    Opening the door while toasting: toasting refuses the event, heating takes it
    and names the door-open state; toasting and then heating are exited and the
    door-open state entered, so the timer is disarmed, the heater switched off
    and the lamp switched on.
   */
  lemma DoorOpenWhileToasting(calls: seq<Call>)
    ensures ToasterTree.Valid() && TableValid(ToasterTree, Decide)
    ensures var r := Step(ToasterTree, Decide, Config(ToastingState, calls), DoorOpen);
            && r.current == DoorOpenState
            && r.calls == calls + [Offer(ToastingState), Offer(HeatingState),
                                   Exit(ToastingState), Exit(HeatingState), Entry(DoorOpenState)]
            && Actions(r.calls) == Actions(calls) + [DisarmTimeEvent, HeaterOff, LampOn]
  {
    var added := [Offer(ToastingState), Offer(HeatingState), Exit(ToastingState), Exit(HeatingState), Entry(DoorOpenState)];
    DoorOpenStep(calls, added);
    TransitionActions(added);
    EffectsAppend(calls, added, EntryAction, ExitAction);
  }

  /** The step of `DoorOpenWhileToasting`, without its device calls. */
  lemma DoorOpenStep(calls: seq<Call>, added: seq<Call>)
    requires added == [Offer(ToastingState), Offer(HeatingState), Exit(ToastingState), Exit(HeatingState), Entry(DoorOpenState)]
    ensures ToasterTree.Valid() && TableValid(ToasterTree, Decide)
    ensures Step(ToasterTree, Decide, Config(ToastingState, calls), DoorOpen) == Config(DoorOpenState, calls + added)
  {
    DecideValid();
    ClimbsToHeating(DoorOpen);
    MoveToastingToDoorOpen();
    var moves := [Exit(ToastingState), Exit(HeatingState), Entry(DoorOpenState)];
    StepFromParts(ToasterTree, Decide, Config(ToastingState, calls), DoorOpen,
                  [ToastingState, HeatingState], Some(DoorOpenState), moves);
    assert Offers([ToastingState, HeatingState]) == [Offer(ToastingState), Offer(HeatingState)];
    assert calls + Offers([ToastingState, HeatingState]) + moves == calls + added;
  }

  lemma TransitionActions(added: seq<Call>)
    requires added == [Offer(ToastingState), Offer(HeatingState), Exit(ToastingState), Exit(HeatingState), Entry(DoorOpenState)]
    ensures Actions(added) == [DisarmTimeEvent, HeaterOff, LampOn]
  {
    assert Actions(added[5..]) == [];
    assert Actions(added[4..]) == [LampOn];
    assert Actions(added[3..]) == [HeaterOff, LampOn];
    assert Actions(added[2..]) == [DisarmTimeEvent, HeaterOff, LampOn];
    assert Actions(added[1..]) == [DisarmTimeEvent, HeaterOff, LampOn];
  }

  /** Toasting's timer fires: toasting takes the event and names heating; only toasting is exited. */
  lemma TimeoutWhileToasting(calls: seq<Call>)
    ensures ToasterTree.Valid() && TableValid(ToasterTree, Decide)
    ensures Step(ToasterTree, Decide, Config(ToastingState, calls), Timeout) ==
            Config(HeatingState, calls + [Offer(ToastingState), Exit(ToastingState)])
  {
    DecideValid();
    TakenWhere(ToastingState, Timeout);
    MoveToastingToHeating();
    StepFromParts(ToasterTree, Decide, Config(ToastingState, calls), Timeout,
                  [ToastingState], Some(HeatingState), [Exit(ToastingState)]);
  }

  /**
    Asking to toast while toasting: toasting refuses, heating names toasting, and
    the self-transition exits and re-enters toasting, re-arming the timer.
   */
  lemma ToastAgainWhileToasting(calls: seq<Call>)
    ensures ToasterTree.Valid() && TableValid(ToasterTree, Decide)
    ensures Step(ToasterTree, Decide, Config(ToastingState, calls), DoToasting) ==
            Config(ToastingState, calls + [Offer(ToastingState), Offer(HeatingState),
                                           Exit(ToastingState), Entry(ToastingState)])
  {
    DecideValid();
    ClimbsToHeating(DoToasting);
    StepFromParts(ToasterTree, Decide, Config(ToastingState, calls), DoToasting,
                  [ToastingState, HeatingState], Some(ToastingState), [Exit(ToastingState), Entry(ToastingState)]);
  }

  /** Starting to bake from plain heating enters baking and exits nothing. */
  lemma BakeFromHeating(calls: seq<Call>)
    ensures ToasterTree.Valid() && TableValid(ToasterTree, Decide)
    ensures Step(ToasterTree, Decide, Config(HeatingState, calls), DoBaking) ==
            Config(BakingState, calls + [Offer(HeatingState), Entry(BakingState)])
  {
    DecideValid();
    TakenWhere(HeatingState, DoBaking);
    MoveHeatingToBaking();
    StepFromParts(ToasterTree, Decide, Config(HeatingState, calls), DoBaking,
                  [HeatingState], Some(BakingState), [Entry(BakingState)]);
  }

  /** Closing the door leaves the door-open state and enters heating again. */
  lemma CloseDoor(calls: seq<Call>)
    ensures ToasterTree.Valid() && TableValid(ToasterTree, Decide)
    ensures Step(ToasterTree, Decide, Config(DoorOpenState, calls), DoorClose) ==
            Config(HeatingState, calls + [Offer(DoorOpenState), Exit(DoorOpenState), Entry(HeatingState)])
  {
    DecideValid();
    TakenWhere(DoorOpenState, DoorClose);
    MoveDoorOpenToHeating();
    StepFromParts(ToasterTree, Decide, Config(DoorOpenState, calls), DoorClose,
                  [DoorOpenState], Some(HeatingState), [Exit(DoorOpenState), Entry(HeatingState)]);
  }

  /**
    Baking handles every event itself without naming a target, so once baking
    the toaster stays baking whatever arrives, even an opened door.
   */
  lemma BakingIsFinal(calls: seq<Call>, e: Event)
    ensures ToasterTree.Valid() && TableValid(ToasterTree, Decide)
    ensures Step(ToasterTree, Decide, Config(BakingState, calls), e) ==
            Config(BakingState, calls + [Offer(BakingState)])
  {
    DecideValid();
    TakenWhere(BakingState, e);
    StepFromParts(ToasterTree, Decide, Config(BakingState, calls), e, [BakingState], None, []);
  }

  /**
    An event heating does not handle (a door closing that is already closed, a
    stray timeout, `Shutdown`) climbs to the super-state, which takes it; nothing moves.
   */
  lemma UnhandledInHeating(calls: seq<Call>, e: Event)
    requires e == DoorClose || e == Timeout || e == Shutdown
    ensures ToasterTree.Valid() && TableValid(ToasterTree, Decide)
    ensures Step(ToasterTree, Decide, Config(HeatingState, calls), e) ==
            Config(HeatingState, calls + [Offer(HeatingState), Offer(RootState)])
  {
    DecideValid();
    var verdict := Verdict(Decide, e);
    assert Decide(HeatingState, e) == Decision(-1, None);
    assert Decide(RootState, e) == Decision(0, None);
    assert ToasterTree.parent[HeatingState] == RootState;
    BubbleTakenAt(ToasterTree, RootState, verdict);
    BubblePassedOn(ToasterTree, HeatingState, verdict);
    assert [HeatingState, RootState][1..] == [RootState] && [RootState][1..] == [];
    assert Pending([HeatingState, RootState], Decide, e, None) == None;
    StepFromParts(ToasterTree, Decide, Config(HeatingState, calls), e, [HeatingState, RootState], None, []);
    assert Offers([HeatingState, RootState]) == [Offer(HeatingState), Offer(RootState)];
  }

  /** No handler names a target for `Shutdown`. */
  lemma NoTargetOnShutdown()
    ensures forall n :: Decide(n, Shutdown).next == None
  {
  }

  /** No state names a target for `Shutdown`: it is offered up to the super-state and nothing moves. */
  lemma ShutdownIsIgnored(calls: seq<Call>, s: Node)
    requires ToasterTree.IsState(s)
    ensures ToasterTree.Valid() && TableValid(ToasterTree, Decide)
    ensures Step(ToasterTree, Decide, Config(s, calls), Shutdown).current == s
    ensures var offered := Bubble(ToasterTree, s, Verdict(Decide, Shutdown));
            Step(ToasterTree, Decide, Config(s, calls), Shutdown).calls == calls + Offers(offered)
  {
    DecideValid();
    var offered := Bubble(ToasterTree, s, Verdict(Decide, Shutdown));
    NoTargetOnShutdown();
    PendingLastWrite(offered, Decide, Shutdown, None);
    StepFromParts(ToasterTree, Decide, Config(s, calls), Shutdown, offered, None, []);
  }

  /** The on/off switches of one device in a list of actions, in order: `true` for `on`, `false` for `off`. */
  function Switches(actions: seq<Action>, on: Action, off: Action): (s: seq<bool>)
    ensures |s| <= |actions|
  {
    if actions == [] then []
    else
      (if actions[0] == on then [true] else if actions[0] == off then [false] else []) +
      Switches(actions[1..], on, off)
  }

  /** A device's history holds an `on` exactly when `on` was called, and an `off` exactly when `off` was. */
  lemma {:induction false} SwitchesTrace(actions: seq<Action>, on: Action, off: Action)
    requires on != off
    ensures true in Switches(actions, on, off) <==> on in actions
    ensures false in Switches(actions, on, off) <==> off in actions
  {
    if actions != [] {
      SwitchesTrace(actions[1..], on, off);
      assert forall x :: x in actions <==> x == actions[0] || x in actions[1..];
    }
  }

  /** The device was switched on last. */
  predicate SwitchedOn(s: seq<bool>) {
    s != [] && s[|s| - 1]
  }

  lemma {:induction false} SwitchesAppend(a: seq<Action>, b: seq<Action>, on: Action, off: Action)
    ensures Switches(a + b, on, off) == Switches(a, on, off) + Switches(b, on, off)
  {
    if a != [] {
      assert (a + b)[0] == a[0] && (a + b)[1..] == a[1..] + b;
      SwitchesAppend(a[1..], b, on, off);
    } else {
      assert a + b == b;
    }
  }

  /**
    Each device is driven by the handlers of one state only, so its switches are
    exactly that state's entries (`on`) and exits (`off`).
   */
  lemma {:induction false} SwitchesAreLog(calls: seq<Call>, n: Node)
    requires ToasterTree.IsState(n)
    ensures EntryAction(n).Some? && ExitAction(n).Some?
    ensures Switches(Actions(calls), EntryAction(n).value, ExitAction(n).value) == Log(calls, n)
  {
    if calls != [] {
      var on, off := EntryAction(n).value, ExitAction(n).value;
      var first := Actions([calls[0]]);
      assert [calls[0]][1..] == [];
      assert Actions(calls) == first + Actions(calls[1..]);
      SwitchesAppend(first, Actions(calls[1..]), on, off);
      assert Switches(first, on, off) == Mark(calls[0], n);
      SwitchesAreLog(calls[1..], n);
    }
  }

  /** An alternating on/off list that starts with `on` ends on `on` exactly when it is odd. */
  lemma AlternatingLast(s: seq<bool>)
    requires Alternating(s)
    ensures SwitchedOn(s) <==> |s| % 2 == 1
  {
  }

  /**
    Over any run from `init`: each device is switched on and off alternately,
    starting with on; the heater is on exactly while heating, toasting or baking,
    the lamp exactly while the door is open, the timer exactly while toasting and
    the baking temperature exactly while baking.
   */
  lemma DevicesFollowState(events: seq<Event>)
    ensures ToasterTree.Valid() && TableValid(ToasterTree, Decide)
    ensures var c := Steps(ToasterTree, Decide, Started, events);
            var heater := Switches(Actions(c.calls), HeaterOn, HeaterOff);
            var lamp := Switches(Actions(c.calls), LampOn, LampOff);
            var timer := Switches(Actions(c.calls), ArmTimeEvent, DisarmTimeEvent);
            var oven := Switches(Actions(c.calls), SetTemperature, ResetTemperature);
            && Alternating(heater) && (SwitchedOn(heater) <==> c.current != DoorOpenState)
            && Alternating(lamp) && (SwitchedOn(lamp) <==> c.current == DoorOpenState)
            && Alternating(timer) && (SwitchedOn(timer) <==> c.current == ToastingState)
            && Alternating(oven) && (SwitchedOn(oven) <==> c.current == BakingState)
  {
    DecideValid();
    UpOfHeating();
    UpOfDoorOpen();
    UpOfToasting();
    UpOfBaking();
    StartBalanced();
    StepsKeepBalance(ToasterTree, Decide, Started, events);
    var c := Steps(ToasterTree, Decide, Started, events);
    forall x | ToasterTree.IsState(x)
      ensures Alternating(Log(c.calls, x))
      ensures SwitchedOn(Log(c.calls, x)) <==> x in Up(ToasterTree, c.current)
    {
      AlternatingLast(Log(c.calls, x));
    }
    SwitchesAreLog(c.calls, HeatingState);
    SwitchesAreLog(c.calls, DoorOpenState);
    SwitchesAreLog(c.calls, ToastingState);
    SwitchesAreLog(c.calls, BakingState);
  }

  /**
    `main`: builds the toaster and runs `init` on its manager directly (the worker
    thread is never started); then each chosen event is queued and handled by
    `run_once`.
   */
  method Console(events: seq<Event>) returns (toaster: Actor<Event>)
    ensures toaster.Valid() && toaster.tree == ToasterTree && !toaster.running
    ensures toaster.queue.items == []
    ensures toaster.Snapshot() == Steps(ToasterTree, Decide, Started, events)
  {
    DecideValid();
    toaster := new Actor(ToasterTree, HeatingState, Decide);
    toaster.sm.Init();
    assert toaster.Snapshot() == Started;
    assert events[0..] == events;
    var k := 0;
    while k < |events|
      invariant k <= |events|
      invariant toaster.Valid() && toaster.tree == ToasterTree && toaster.decide == Decide && !toaster.running
      invariant toaster.queue.items == []
      invariant Steps(ToasterTree, Decide, toaster.Snapshot(), events[k..]) ==
                Steps(ToasterTree, Decide, Started, events)
    {
      ghost var before := toaster.Snapshot();
      assert events[k..][0] == events[k] && events[k..][1..] == events[k + 1..];
      toaster.CallbackEvent(events[k]);
      toaster.RunOnce();
      assert toaster.Snapshot() == Step(ToasterTree, Decide, before, events[k]);
      k := k + 1;
    }
  }
}
