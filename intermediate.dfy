/**
  The events of the intermediate sample. `getTypeHash` reports the dynamic type
  through a virtual call, and the handlers then `dynamic_pointer_cast` the event
  to the class the hash named; an event therefore carries the type it reports
  (`tag`) and the object actually behind the pointer (`body`), and the cast
  succeeds exactly when the two agree.
 */
module Evts {
  datatype Kind = Blue | Green | Shutdown

  /** The object behind the pointer: `EventBlue` with its timeout, `EventGreen` with its data, or a shutdown. */
  datatype Payload = BlueData(timeout: int) | GreenData(data: seq<int>) | NoData

  datatype Event = Event(tag: Kind, body: Payload)

  function BlueEvent(timeout: int): Event {
    Event(Blue, BlueData(timeout))
  }

  function GreenEvent(data: seq<int>): Event {
    Event(Green, GreenData(data))
  }

  /** The hash says `EventGreen` and the downcast to `EventGreen` succeeds. */
  predicate IsGreen(e: Event) {
    e.tag == Green && e.body.GreenData?
  }

  /** The hash says `EventBlue` and the downcast to `EventBlue` succeeds. */
  predicate IsBlue(e: Event) {
    e.tag == Blue && e.body.BlueData?
  }
}

/**
  `ActorFoo`: A with C and the chain D, F, G below it, and B with E below it.
  A, G and E react to green events; the other states take every event without
  naming a target. Entering A, G or E publishes a blue event on `m_signal`.
 */
module Foo {
  import opened StateTree
  import opened Transition
  import opened Dispatch
  import opened Balance
  import opened ThreadSafeQueue
  import opened Actors
  import opened Evts

  /** The state nodes, numbered in the order the constructor appends them. */
  const StateA: Node := 1
  const StateC: Node := 2
  const StateD: Node := 3
  const StateF: Node := 4
  const StateG: Node := 5
  const StateB: Node := 6
  const StateE: Node := 7

  const FooTree := Tree([0, 0, StateA, StateA, StateD, StateF, 0, StateB])

  /**
    `process_event` of each state. A takes a green event (moving to G) and a blue
    one (staying); G takes a green event (moving to E); E takes a green event
    (moving to A). A hash naming green whose object is not green fails the cast
    and falls through to "unhandled". The super-state, C, D, F and B take everything.
   */
  function Decide(n: Node, e: Event): (d: Decision)
    ensures d.next.Some? ==> d.code == 0 && IsGreen(e) && d.next.value in {StateA, StateG, StateE}
    ensures d.code == 0 || d.code == -1
  {
    if n == StateA then
      if e.tag == Green then
        if e.body.GreenData? then Decision(0, Some(StateG)) else Decision(-1, None)
      else if e.tag == Blue then Decision(0, None)
      else Decision(-1, None)
    else if n == StateG then
      if IsGreen(e) then Decision(0, Some(StateE)) else Decision(-1, None)
    else if n == StateE then
      if IsGreen(e) then Decision(0, Some(StateA)) else Decision(-1, None)
    else
      Decision(0, None)
  }

  /** `on_entry` of A, G and E publishes a blue event whose timeout is 11, 22 and 33. */
  function OnEntry(n: Node): (r: Option<Event>)
    ensures r.Some? <==> n in {StateA, StateG, StateE}
    ensures r.Some? ==> IsBlue(r.value)
  {
    if n == StateA then Some(BlueEvent(11))
    else if n == StateG then Some(BlueEvent(22))
    else if n == StateE then Some(BlueEvent(33))
    else None
  }

  /** No `on_exit` of Foo publishes anything. */
  function OnExit(n: Node): (r: Option<Event>)
    ensures r.None?
  {
    None
  }

  /** The events Foo's handlers publish, in order. */
  function Emitted(calls: seq<Call>): seq<Event> {
    Effects(calls, OnEntry, OnExit)
  }

  lemma TreeShape()
    ensures FooTree.Valid()
    ensures Up(FooTree, StateA) == [StateA] && Down(FooTree, StateA) == [StateA]
    ensures Up(FooTree, StateG) == [StateG, StateF, StateD, StateA]
    ensures Down(FooTree, StateG) == [StateA, StateD, StateF, StateG]
    ensures Up(FooTree, StateE) == [StateE, StateB] && Down(FooTree, StateE) == [StateB, StateE]
  {
    UpOfA();
    DownOfA();
    UpOfG();
    DownOfG();
    UpOfE();
    DownOfE();
  }

  lemma UpOfA()
    ensures FooTree.Valid() && Up(FooTree, StateA) == [StateA]
  {
    assert FooTree.Valid();
    assert Up(FooTree, Root) == [];
  }

  lemma DownOfA()
    ensures FooTree.Valid() && Down(FooTree, StateA) == [StateA]
  {
    assert FooTree.Valid();
    assert Down(FooTree, Root) == [];
  }

  lemma UpOfG()
    ensures FooTree.Valid() && Up(FooTree, StateG) == [StateG, StateF, StateD, StateA]
  {
    UpOfA();
    assert Up(FooTree, StateD) == [StateD, StateA];
    assert Up(FooTree, StateF) == [StateF, StateD, StateA];
  }

  lemma DownOfG()
    ensures FooTree.Valid() && Down(FooTree, StateG) == [StateA, StateD, StateF, StateG]
  {
    DownOfF();
    assert Down(FooTree, StateG) == Down(FooTree, StateF) + [StateG];
  }

  lemma DownOfF()
    ensures FooTree.Valid() && Down(FooTree, StateF) == [StateA, StateD, StateF]
  {
    DownOfA();
    assert Down(FooTree, StateD) == Down(FooTree, StateA) + [StateD];
    assert Down(FooTree, StateF) == Down(FooTree, StateD) + [StateF];
  }

  lemma UpOfE()
    ensures FooTree.Valid() && Up(FooTree, StateE) == [StateE, StateB]
  {
    assert FooTree.Valid();
    assert Up(FooTree, Root) == [];
    assert Up(FooTree, StateB) == [StateB];
  }

  lemma DownOfE()
    ensures FooTree.Valid() && Down(FooTree, StateE) == [StateB, StateE]
  {
    assert FooTree.Valid();
    assert Down(FooTree, Root) == [];
    assert Down(FooTree, StateB) == [StateB];
  }

  lemma DecideValid()
    ensures FooTree.Valid() && TableValid(FooTree, Decide)
  {
  }

  /** Right after `init`: A entered, nothing else. */
  const Started := Config(StateA, [Entry(StateA)])

  /** After `init` Foo is balanced, and A has published its blue event. */
  lemma StartBalanced()
    ensures FooTree.Valid() && Balanced(FooTree, Started.calls, Started.current)
    ensures Emitted(Started.calls) == [BlueEvent(11)]
  {
    InitBalanced(FooTree, StateA);
    assert Started.calls[1..] == [];
  }

  /** Green in A: A is the common ancestor, so nothing is exited and D, F, G are entered from the top. */
  lemma GreenInA(calls: seq<Call>, data: seq<int>)
    ensures FooTree.Valid() && TableValid(FooTree, Decide)
    ensures Step(FooTree, Decide, Config(StateA, calls), GreenEvent(data)) ==
            Config(StateG, calls + [Offer(StateA), Entry(StateD), Entry(StateF), Entry(StateG)])
  {
    DecideValid();
    GreenTaken(StateA, data);
    MoveAToG();
    StepFromParts(FooTree, Decide, Config(StateA, calls), GreenEvent(data),
                  [StateA], Some(StateG), [Entry(StateD), Entry(StateF), Entry(StateG)]);
  }

  /** Green in G: no common ancestor below the root, so G, F, D, A are exited and B, E entered. */
  lemma GreenInG(calls: seq<Call>, data: seq<int>)
    ensures FooTree.Valid() && TableValid(FooTree, Decide)
    ensures Step(FooTree, Decide, Config(StateG, calls), GreenEvent(data)) ==
            Config(StateE, calls + [Offer(StateG), Exit(StateG), Exit(StateF), Exit(StateD), Exit(StateA),
                                    Entry(StateB), Entry(StateE)])
  {
    DecideValid();
    GreenTaken(StateG, data);
    MoveGToE();
    StepFromParts(FooTree, Decide, Config(StateG, calls), GreenEvent(data),
                  [StateG], Some(StateE),
                  [Exit(StateG), Exit(StateF), Exit(StateD), Exit(StateA), Entry(StateB), Entry(StateE)]);
  }

  /** Green in E: E and B are exited and A entered. */
  lemma GreenInE(calls: seq<Call>, data: seq<int>)
    ensures FooTree.Valid() && TableValid(FooTree, Decide)
    ensures Step(FooTree, Decide, Config(StateE, calls), GreenEvent(data)) ==
            Config(StateA, calls + [Offer(StateE), Exit(StateE), Exit(StateB), Entry(StateA)])
  {
    DecideValid();
    GreenTaken(StateE, data);
    MoveEToA();
    StepFromParts(FooTree, Decide, Config(StateE, calls), GreenEvent(data),
                  [StateE], Some(StateA), [Exit(StateE), Exit(StateB), Entry(StateA)]);
  }

  /** The state a green event leads to from each of A, G and E. */
  function NextOnGreen(s: Node): Node {
    if s == StateA then StateG else if s == StateG then StateE else StateA
  }

  /** A green event is taken by A, G or E when offered to it, and each names its successor. */
  lemma GreenTaken(s: Node, data: seq<int>)
    requires s in {StateA, StateG, StateE}
    ensures FooTree.Valid() && FooTree.IsState(s)
    ensures Bubble(FooTree, s, Verdict(Decide, GreenEvent(data))) == [s]
    ensures Pending([s], Decide, GreenEvent(data), None) == Some(NextOnGreen(s))
  {
    assert Decide(s, GreenEvent(data)) == Decision(0, Some(NextOnGreen(s)));
    assert [s][1..] == [];
  }

  /** From A to G: A is shared, so nothing is exited and D, F, G are entered. */
  lemma MoveAToG()
    ensures FooTree.Valid()
    ensures TransitionCalls(FooTree, StateA, StateG) == [Entry(StateD), Entry(StateF), Entry(StateG)]
  {
    UpOfA();
    DownOfG();
    assert FirstShared([StateA], [StateA, StateD, StateF, StateG]) == 0;
    assert IndexOf([StateA, StateD, StateF, StateG], StateA) == 0;
    assert [StateA, StateD, StateF, StateG][1..] == [StateD, StateF, StateG];
    TransitionFromChains(FooTree, StateA, StateG, [StateA], [StateA, StateD, StateF, StateG], 0, 1);
  }

  /** From G to E: the chains share nothing, so all of G's chain is exited and all of E's entered. */
  lemma MoveGToE()
    ensures FooTree.Valid()
    ensures TransitionCalls(FooTree, StateG, StateE) ==
            [Exit(StateG), Exit(StateF), Exit(StateD), Exit(StateA), Entry(StateB), Entry(StateE)]
  {
    UpOfG();
    DownOfE();
    assert FirstShared([StateG, StateF, StateD, StateA], [StateB, StateE]) == 4;
    TransitionFromChains(FooTree, StateG, StateE, [StateG, StateF, StateD, StateA], [StateB, StateE], 4, 0);
  }

  /** From E to A: the chains share nothing, so E and B are exited and A is entered. */
  lemma MoveEToA()
    ensures FooTree.Valid()
    ensures TransitionCalls(FooTree, StateE, StateA) == [Exit(StateE), Exit(StateB), Entry(StateA)]
  {
    UpOfE();
    DownOfA();
    assert FirstShared([StateE, StateB], [StateA]) == 2;
    TransitionFromChains(FooTree, StateE, StateA, [StateE, StateB], [StateA], 2, 0);
  }

  /** G and E refuse a blue event; their parents F and B take it, and nothing moves. */
  lemma BlueAbsorbedAbove(calls: seq<Call>, timeout: int)
    ensures FooTree.Valid() && TableValid(FooTree, Decide)
    ensures Step(FooTree, Decide, Config(StateG, calls), BlueEvent(timeout)) ==
            Config(StateG, calls + [Offer(StateG), Offer(StateF)])
    ensures Step(FooTree, Decide, Config(StateE, calls), BlueEvent(timeout)) ==
            Config(StateE, calls + [Offer(StateE), Offer(StateB)])
  {
    DecideValid();
    BlueClimbsOne(StateG, timeout);
    BlueClimbsOne(StateE, timeout);
    StepFromParts(FooTree, Decide, Config(StateG, calls), BlueEvent(timeout), [StateG, StateF], None, []);
    StepFromParts(FooTree, Decide, Config(StateE, calls), BlueEvent(timeout), [StateE, StateB], None, []);
  }

  /** A blue event offered to G or E is refused there and taken by the parent, which names no target. */
  lemma BlueClimbsOne(s: Node, timeout: int)
    requires s in {StateG, StateE}
    ensures FooTree.Valid() && FooTree.IsState(s)
    ensures Bubble(FooTree, s, Verdict(Decide, BlueEvent(timeout))) == [s, FooTree.parent[s]]
    ensures Pending([s, FooTree.parent[s]], Decide, BlueEvent(timeout), None) == None
  {
    var e := BlueEvent(timeout);
    var p := FooTree.parent[s];
    assert p == StateF || p == StateB;
    assert Decide(s, e) == Decision(-1, None);
    assert Decide(p, e) == Decision(0, None);
    BubbleTakenAt(FooTree, p, Verdict(Decide, e));
    BubblePassedOn(FooTree, s, Verdict(Decide, e));
    assert [s, p][1..] == [p] && [p][1..] == [];
  }

  /**
    An event whose hash says green but whose object is not fails A's downcast:
    A reports it unhandled and the super-state takes it.
   */
  lemma FailedDowncastInA(calls: seq<Call>, body: Payload)
    requires !body.GreenData?
    ensures FooTree.Valid() && TableValid(FooTree, Decide)
    ensures Decide(StateA, Event(Green, body)).code == -1
    ensures Step(FooTree, Decide, Config(StateA, calls), Event(Green, body)) ==
            Config(StateA, calls + [Offer(StateA), Offer(Root)])
  {
    DecideValid();
    var e := Event(Green, body);
    assert Decide(StateA, e) == Decision(-1, None) && Decide(Root, e) == Decision(0, None);
    assert Bubble(FooTree, Root, Verdict(Decide, e)) == [Root];
    assert Bubble(FooTree, StateA, Verdict(Decide, e)) == [StateA, Root];
    assert [StateA, Root][1..] == [Root] && [Root][1..] == [];
    assert Pending([StateA, Root], Decide, e, None) == None;
    StepFromParts(FooTree, Decide, Config(StateA, calls), e, [StateA, Root], None, []);
  }

  /** Moving from A to G publishes G's blue event (timeout 22) and nothing else. */
  lemma EmitsEnteringG()
    ensures Emitted([Offer(StateA), Entry(StateD), Entry(StateF), Entry(StateG)]) == [BlueEvent(22)]
  {
    var d := [Offer(StateA), Entry(StateD), Entry(StateF), Entry(StateG)];
    assert Emitted(d[4..]) == [];
    assert Emitted(d[3..]) == [BlueEvent(22)];
    assert Emitted(d[2..]) == [BlueEvent(22)];
    assert Emitted(d[1..]) == [BlueEvent(22)];
  }

  /** Moving from G to E publishes E's blue event (timeout 33) and nothing else. */
  lemma EmitsEnteringE()
    ensures Emitted([Offer(StateG), Exit(StateG), Exit(StateF), Exit(StateD), Exit(StateA),
                     Entry(StateB), Entry(StateE)]) == [BlueEvent(33)]
  {
    var d := [Offer(StateG), Exit(StateG), Exit(StateF), Exit(StateD), Exit(StateA), Entry(StateB), Entry(StateE)];
    assert Emitted(d[7..]) == [];
    assert Emitted(d[6..]) == [BlueEvent(33)];
    assert Emitted(d[5..]) == [BlueEvent(33)];
    assert Emitted(d[4..]) == [BlueEvent(33)];
    assert Emitted(d[3..]) == [BlueEvent(33)];
    assert Emitted(d[2..]) == [BlueEvent(33)];
    assert Emitted(d[1..]) == [BlueEvent(33)];
  }

  /** Moving from E back to A publishes A's blue event (timeout 11) and nothing else. */
  lemma EmitsEnteringA()
    ensures Emitted([Offer(StateE), Exit(StateE), Exit(StateB), Entry(StateA)]) == [BlueEvent(11)]
  {
    var d := [Offer(StateE), Exit(StateE), Exit(StateB), Entry(StateA)];
    assert Emitted(d[4..]) == [];
    assert Emitted(d[3..]) == [BlueEvent(11)];
    assert Emitted(d[2..]) == [BlueEvent(11)];
    assert Emitted(d[1..]) == [BlueEvent(11)];
  }

  /** Only a green event that passes its downcast ever moves Foo. */
  lemma OnlyGreenMoves(calls: seq<Call>, s: Node, e: Event)
    requires FooTree.IsState(s) && !IsGreen(e)
    ensures FooTree.Valid() && TableValid(FooTree, Decide)
    ensures Step(FooTree, Decide, Config(s, calls), e).current == s
  {
    DecideValid();
    var offered := Bubble(FooTree, s, Verdict(Decide, e));
    assert forall n :: Decide(n, e).next == None;
    PendingLastWrite(offered, Decide, e, None);
  }

  /**
    Over any run from `init`, only A, G and E are ever current (C is never
    entered, D, F and B only as ancestors), and every state's entries and exits
    alternate, with exactly the current chain entered.
   */
  lemma RunInvariant(events: seq<Event>)
    ensures FooTree.Valid() && TableValid(FooTree, Decide)
    ensures Steps(FooTree, Decide, Started, events).current in {StateA, StateG, StateE}
    ensures Balanced(FooTree, Steps(FooTree, Decide, Started, events).calls, Steps(FooTree, Decide, Started, events).current)
  {
    DecideValid();
    StartBalanced();
    StepsStayAmong(FooTree, Decide, Started, events, {StateA, StateG, StateE});
    StepsKeepBalance(FooTree, Decide, Started, events);
  }
}

/**
  `ActorBar`: states 1 and 2 below the root, and 3 below 1. Each of 1, 2, 3
  reacts to a blue event by moving on (1 to 2, 2 to 3, 3 to 1). Entering 2 or 3
  and leaving 3 publish green events.
 */
module Bar {
  import opened StateTree
  import opened Transition
  import opened Dispatch
  import opened Balance
  import opened ThreadSafeQueue
  import opened Actors
  import opened Evts

  const State1: Node := 1
  const State2: Node := 2
  const State3: Node := 3

  const BarTree := Tree([0, 0, 0, State1])

  /** `process_event`: 1, 2 and 3 each take a blue event that passes its downcast and name the next state. */
  function Decide(n: Node, e: Event): (d: Decision)
    ensures d.next.Some? ==> d.code == 0 && IsBlue(e) && BarTree.IsState(d.next.value)
    ensures d.code == 0 || d.code == -1
  {
    if n == State1 then
      if IsBlue(e) then Decision(0, Some(State2)) else Decision(-1, None)
    else if n == State2 then
      if IsBlue(e) then Decision(0, Some(State3)) else Decision(-1, None)
    else if n == State3 then
      if IsBlue(e) then Decision(0, Some(State1)) else Decision(-1, None)
    else
      Decision(0, None)
  }

  /** Entering 2 publishes green `[1, 2, 3]`, entering 3 publishes green `[4, 5, 6]`. */
  function OnEntry(n: Node): (r: Option<Event>)
    ensures r.Some? <==> n in {State2, State3}
    ensures r.Some? ==> IsGreen(r.value)
  {
    if n == State2 then Some(GreenEvent([1, 2, 3]))
    else if n == State3 then Some(GreenEvent([4, 5, 6]))
    else None
  }

  /** Leaving 3 publishes green `[7, 8, 9]`. */
  function OnExit(n: Node): (r: Option<Event>)
    ensures r.Some? <==> n == State3
    ensures r.Some? ==> IsGreen(r.value)
  {
    if n == State3 then Some(GreenEvent([7, 8, 9])) else None
  }

  function Emitted(calls: seq<Call>): seq<Event> {
    Effects(calls, OnEntry, OnExit)
  }

  lemma TreeShape()
    ensures BarTree.Valid()
    ensures Up(BarTree, State1) == [State1] && Down(BarTree, State1) == [State1]
    ensures Up(BarTree, State2) == [State2] && Down(BarTree, State2) == [State2]
    ensures Up(BarTree, State3) == [State3, State1] && Down(BarTree, State3) == [State1, State3]
  {
    UpOf1();
    DownOf1();
    UpOf2();
    DownOf2();
    UpOf3();
    DownOf3();
  }

  lemma UpOf1()
    ensures BarTree.Valid() && Up(BarTree, State1) == [State1]
  {
    assert BarTree.Valid();
    assert Up(BarTree, Root) == [];
  }

  lemma DownOf1()
    ensures BarTree.Valid() && Down(BarTree, State1) == [State1]
  {
    assert BarTree.Valid();
    assert Down(BarTree, Root) == [];
  }

  lemma UpOf2()
    ensures BarTree.Valid() && Up(BarTree, State2) == [State2]
  {
    assert BarTree.Valid();
    assert Up(BarTree, Root) == [];
  }

  lemma DownOf2()
    ensures BarTree.Valid() && Down(BarTree, State2) == [State2]
  {
    assert BarTree.Valid();
    assert Down(BarTree, Root) == [];
  }

  lemma UpOf3()
    ensures BarTree.Valid() && Up(BarTree, State3) == [State3, State1]
  {
    assert BarTree.Valid();
    assert Up(BarTree, Root) == [];
    assert Up(BarTree, State1) == [State1];
  }

  lemma DownOf3()
    ensures BarTree.Valid() && Down(BarTree, State3) == [State1, State3]
  {
    assert BarTree.Valid();
    assert Down(BarTree, Root) == [];
    assert Down(BarTree, State1) == [State1];
  }

  lemma DecideValid()
    ensures BarTree.Valid() && TableValid(BarTree, Decide)
  {
  }

  const Started := Config(State1, [Entry(State1)])

  /** Blue in 1: 1 is exited and 2 entered. */
  lemma BlueIn1(calls: seq<Call>, timeout: int)
    ensures BarTree.Valid() && TableValid(BarTree, Decide)
    ensures Step(BarTree, Decide, Config(State1, calls), BlueEvent(timeout)) ==
            Config(State2, calls + [Offer(State1), Exit(State1), Entry(State2)])
  {
    DecideValid();
    BlueTaken(State1, timeout);
    MoveOneToTwo();
    StepFromParts(BarTree, Decide, Config(State1, calls), BlueEvent(timeout),
                  [State1], Some(State2), [Exit(State1), Entry(State2)]);
  }

  /** Blue in 2: 2 is exited, then 1 and 3 are entered from the top. */
  lemma BlueIn2(calls: seq<Call>, timeout: int)
    ensures BarTree.Valid() && TableValid(BarTree, Decide)
    ensures Step(BarTree, Decide, Config(State2, calls), BlueEvent(timeout)) ==
            Config(State3, calls + [Offer(State2), Exit(State2), Entry(State1), Entry(State3)])
  {
    DecideValid();
    BlueTaken(State2, timeout);
    MoveTwoToThree();
    StepFromParts(BarTree, Decide, Config(State2, calls), BlueEvent(timeout),
                  [State2], Some(State3), [Exit(State2), Entry(State1), Entry(State3)]);
  }

  /** Blue in 3: the target 1 is an ancestor, so only 3 is exited and nothing is entered. */
  lemma BlueIn3(calls: seq<Call>, timeout: int)
    ensures BarTree.Valid() && TableValid(BarTree, Decide)
    ensures Step(BarTree, Decide, Config(State3, calls), BlueEvent(timeout)) ==
            Config(State1, calls + [Offer(State3), Exit(State3)])
  {
    DecideValid();
    BlueTaken(State3, timeout);
    LeaveThree();
    StepFromParts(BarTree, Decide, Config(State3, calls), BlueEvent(timeout),
                  [State3], Some(State1), [Exit(State3)]);
  }

  /** The state a blue event leads to from each of 1, 2 and 3. */
  function NextOnBlue(s: Node): Node {
    if s == State1 then State2 else if s == State2 then State3 else State1
  }

  /** A blue event is taken by the state it is offered to, which names its successor. */
  lemma BlueTaken(s: Node, timeout: int)
    requires s in {State1, State2, State3}
    ensures BarTree.Valid() && BarTree.IsState(s)
    ensures Bubble(BarTree, s, Verdict(Decide, BlueEvent(timeout))) == [s]
    ensures Pending([s], Decide, BlueEvent(timeout), None) == Some(NextOnBlue(s))
  {
    assert Decide(s, BlueEvent(timeout)) == Decision(0, Some(NextOnBlue(s)));
    assert [s][1..] == [];
  }

  /** From 1 to 2: the chains share nothing, so 1 is exited and 2 entered. */
  lemma MoveOneToTwo()
    ensures BarTree.Valid()
    ensures TransitionCalls(BarTree, State1, State2) == [Exit(State1), Entry(State2)]
  {
    UpOf1();
    DownOf2();
    assert FirstShared([State1], [State2]) == 1;
    TransitionFromChains(BarTree, State1, State2, [State1], [State2], 1, 0);
  }

  /** From 2 to 3: the chains share nothing, so 2 is exited and 1, 3 entered. */
  lemma MoveTwoToThree()
    ensures BarTree.Valid()
    ensures TransitionCalls(BarTree, State2, State3) == [Exit(State2), Entry(State1), Entry(State3)]
  {
    UpOf2();
    DownOf3();
    assert FirstShared([State2], [State1, State3]) == 1;
    TransitionFromChains(BarTree, State2, State3, [State2], [State1, State3], 1, 0);
  }

  /** From 3 to its parent 1: only 3 is exited. */
  lemma LeaveThree()
    ensures BarTree.Valid()
    ensures TransitionCalls(BarTree, State3, State1) == [Exit(State3)]
  {
    UpOf3();
    DownOf1();
    assert FirstShared([State3, State1], [State1]) == 1;
    assert IndexOf([State1], State1) == 0;
    assert [State3, State1][..1] == [State3] && [State1][1..] == [];
    TransitionFromChains(BarTree, State3, State1, [State3, State1], [State1], 1, 1);
  }

  /** Moving from 1 to 2 publishes green `[1, 2, 3]`. */
  lemma EmitsEntering2()
    ensures Emitted([Offer(State1), Exit(State1), Entry(State2)]) == [GreenEvent([1, 2, 3])]
  {
    var d := [Offer(State1), Exit(State1), Entry(State2)];
    assert Emitted(d[3..]) == [];
    assert Emitted(d[2..]) == [GreenEvent([1, 2, 3])];
    assert Emitted(d[1..]) == [GreenEvent([1, 2, 3])];
  }

  /** Moving from 2 to 3 publishes green `[4, 5, 6]`. */
  lemma EmitsEntering3()
    ensures Emitted([Offer(State2), Exit(State2), Entry(State1), Entry(State3)]) == [GreenEvent([4, 5, 6])]
  {
    var d := [Offer(State2), Exit(State2), Entry(State1), Entry(State3)];
    assert Emitted(d[4..]) == [];
    assert Emitted(d[3..]) == [GreenEvent([4, 5, 6])];
    assert Emitted(d[2..]) == [GreenEvent([4, 5, 6])];
    assert Emitted(d[1..]) == [GreenEvent([4, 5, 6])];
  }

  /** Moving from 3 back to 1 publishes green `[7, 8, 9]` on the way out of 3. */
  lemma EmitsLeaving3()
    ensures Emitted([Offer(State3), Exit(State3)]) == [GreenEvent([7, 8, 9])]
  {
    var d := [Offer(State3), Exit(State3)];
    assert Emitted(d[2..]) == [];
    assert Emitted(d[1..]) == [GreenEvent([7, 8, 9])];
  }

  /** Only a blue event that passes its downcast ever moves Bar. */
  lemma OnlyBlueMoves(calls: seq<Call>, s: Node, e: Event)
    requires BarTree.IsState(s) && !IsBlue(e)
    ensures BarTree.Valid() && TableValid(BarTree, Decide)
    ensures Step(BarTree, Decide, Config(s, calls), e).current == s
  {
    DecideValid();
    var offered := Bubble(BarTree, s, Verdict(Decide, e));
    assert forall n :: Decide(n, e).next == None;
    PendingLastWrite(offered, Decide, e, None);
  }

  /** Over any run from `init`, every state's entries and exits alternate, with exactly the current chain entered. */
  lemma RunInvariant(events: seq<Event>)
    ensures BarTree.Valid() && TableValid(BarTree, Decide)
    ensures Balanced(BarTree, Steps(BarTree, Decide, Started, events).calls, Steps(BarTree, Decide, Started, events).current)
  {
    DecideValid();
    InitBalanced(BarTree, State1);
    StepsKeepBalance(BarTree, Decide, Started, events);
  }
}

/**
  `Demo::App` wires each actor's `m_signal` to the other's `callback_IEvent`.
  Under the schedule where each actor handles the event the other has just
  published, the two play a fixed round: Foo goes A, G, E and back to A, Bar
  goes 1, 2, 3 and back to 1, and after six deliveries blue 11 is in flight
  again, exactly as it was after Foo's `init`.
 */
module Demo {
  import opened StateTree
  import opened Transition
  import opened ThreadSafeQueue
  import opened Actors
  import opened Evts
  import Foo
  import Bar

  lemma PingPongRound(fooCalls: seq<Call>, barCalls: seq<Call>)
    ensures Foo.FooTree.Valid() && TableValid(Foo.FooTree, Foo.Decide)
    ensures Bar.BarTree.Valid() && TableValid(Bar.BarTree, Bar.Decide)
    ensures var b1 := Step(Bar.BarTree, Bar.Decide, Config(Bar.State1, barCalls), BlueEvent(11));
            var f1 := Step(Foo.FooTree, Foo.Decide, Config(Foo.StateA, fooCalls), GreenEvent([1, 2, 3]));
            var b2 := Step(Bar.BarTree, Bar.Decide, b1, BlueEvent(22));
            var f2 := Step(Foo.FooTree, Foo.Decide, f1, GreenEvent([4, 5, 6]));
            var b3 := Step(Bar.BarTree, Bar.Decide, b2, BlueEvent(33));
            var f3 := Step(Foo.FooTree, Foo.Decide, f2, GreenEvent([7, 8, 9]));
            && b1.current == Bar.State2 && Bar.Emitted(b1.calls) == Bar.Emitted(barCalls) + [GreenEvent([1, 2, 3])]
            && f1.current == Foo.StateG && Foo.Emitted(f1.calls) == Foo.Emitted(fooCalls) + [BlueEvent(22)]
            && b2.current == Bar.State3 && Bar.Emitted(b2.calls) == Bar.Emitted(b1.calls) + [GreenEvent([4, 5, 6])]
            && f2.current == Foo.StateE && Foo.Emitted(f2.calls) == Foo.Emitted(f1.calls) + [BlueEvent(33)]
            && b3.current == Bar.State1 && Bar.Emitted(b3.calls) == Bar.Emitted(b2.calls) + [GreenEvent([7, 8, 9])]
            && f3.current == Foo.StateA && Foo.Emitted(f3.calls) == Foo.Emitted(f2.calls) + [BlueEvent(11)]
  {
    BarRound(barCalls);
    FooRound(fooCalls);
  }

  lemma BarRound(calls: seq<Call>)
    ensures Bar.BarTree.Valid() && TableValid(Bar.BarTree, Bar.Decide)
    ensures var b1 := Step(Bar.BarTree, Bar.Decide, Config(Bar.State1, calls), BlueEvent(11));
            var b2 := Step(Bar.BarTree, Bar.Decide, b1, BlueEvent(22));
            var b3 := Step(Bar.BarTree, Bar.Decide, b2, BlueEvent(33));
            && b1.current == Bar.State2 && Bar.Emitted(b1.calls) == Bar.Emitted(calls) + [GreenEvent([1, 2, 3])]
            && b2.current == Bar.State3 && Bar.Emitted(b2.calls) == Bar.Emitted(b1.calls) + [GreenEvent([4, 5, 6])]
            && b3.current == Bar.State1 && Bar.Emitted(b3.calls) == Bar.Emitted(b2.calls) + [GreenEvent([7, 8, 9])]
  {
    Bar.DecideValid();
    var d1 := [Offer(Bar.State1), Exit(Bar.State1), Entry(Bar.State2)];
    var d2 := [Offer(Bar.State2), Exit(Bar.State2), Entry(Bar.State1), Entry(Bar.State3)];
    var d3 := [Offer(Bar.State3), Exit(Bar.State3)];
    Bar.BlueIn1(calls, 11);
    Bar.BlueIn2(calls + d1, 22);
    Bar.BlueIn3(calls + d1 + d2, 33);
    Bar.EmitsEntering2();
    Bar.EmitsEntering3();
    Bar.EmitsLeaving3();
    EffectsAppend(calls, d1, Bar.OnEntry, Bar.OnExit);
    EffectsAppend(calls + d1, d2, Bar.OnEntry, Bar.OnExit);
    EffectsAppend(calls + d1 + d2, d3, Bar.OnEntry, Bar.OnExit);
  }

  lemma FooRound(calls: seq<Call>)
    ensures Foo.FooTree.Valid() && TableValid(Foo.FooTree, Foo.Decide)
    ensures var f1 := Step(Foo.FooTree, Foo.Decide, Config(Foo.StateA, calls), GreenEvent([1, 2, 3]));
            var f2 := Step(Foo.FooTree, Foo.Decide, f1, GreenEvent([4, 5, 6]));
            var f3 := Step(Foo.FooTree, Foo.Decide, f2, GreenEvent([7, 8, 9]));
            && f1.current == Foo.StateG && Foo.Emitted(f1.calls) == Foo.Emitted(calls) + [BlueEvent(22)]
            && f2.current == Foo.StateE && Foo.Emitted(f2.calls) == Foo.Emitted(f1.calls) + [BlueEvent(33)]
            && f3.current == Foo.StateA && Foo.Emitted(f3.calls) == Foo.Emitted(f2.calls) + [BlueEvent(11)]
  {
    Foo.DecideValid();
    var d1 := [Offer(Foo.StateA), Entry(Foo.StateD), Entry(Foo.StateF), Entry(Foo.StateG)];
    var d2 := [Offer(Foo.StateG), Exit(Foo.StateG), Exit(Foo.StateF), Exit(Foo.StateD), Exit(Foo.StateA),
               Entry(Foo.StateB), Entry(Foo.StateE)];
    var d3 := [Offer(Foo.StateE), Exit(Foo.StateE), Exit(Foo.StateB), Entry(Foo.StateA)];
    Foo.GreenInA(calls, [1, 2, 3]);
    Foo.GreenInG(calls + d1, [4, 5, 6]);
    Foo.GreenInE(calls + d1 + d2, [7, 8, 9]);
    Foo.EmitsEnteringG();
    Foo.EmitsEnteringE();
    Foo.EmitsEnteringA();
    EffectsAppend(calls, d1, Foo.OnEntry, Foo.OnExit);
    EffectsAppend(calls + d1, d2, Foo.OnEntry, Foo.OnExit);
    EffectsAppend(calls + d1 + d2, d3, Foo.OnEntry, Foo.OnExit);
  }
}
