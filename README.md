# Active objects over a hierarchical state machine

This project models the engine of the `active-object` C++ library and proves properties of the model:

- **`StateManager`**: a tree of states with a cursor.
  - It moves the cursor by exiting up to the least common ancestor and then entering down to the target.
  - It offers an event to the current state and then to each ancestor in turn, until one handles it.
- **`SimplestThreadSafeQueue`**: the double-ended event queue in front of every actor.
- **The `IState` handler defaults**: 0 means handled, -1 means not handled.
- **The sample actors that connect the two**:
  - the toaster;
  - the `ActorFoo` / `ActorBar` pair of the intermediate sample.

  Each one pops an event, dispatches it, performs the transition its handlers asked for, and resets the pending slot.

The model is built as follows:

- **Tree.** A tree is a parent map over node indices. Node 0 is the root (`tree.begin()`), and each node is appended after its parent, so `parent[n] < n`. An iterator is its node index, and `tree.end()` (the `UNKNOWN` slot value) is `None`.
- **Call log.** Every handler call the manager makes is recorded, in order, in a `calls` log: `Entry(n)`, `Exit(n)` or `Offer(n)`. The properties about ordering are stated over this log.
- **Handlers.** A state's `process_event` is a pure decision table. It returns a code and, optionally, the state it writes into `m_next_state`. Its `on_entry`/`on_exit` side effects (toaster device calls, signals emitted by Foo and Bar) are read off the log afterwards.

Modules:

| module | file | models |
|---|---|---|
| `StateTree` | state_tree.dfy | the state tree and the two ancestor chains |
| `Transition` | transition.dfy | the handler calls of `transitionTo` as a function, and its LCA properties |
| `Handler` | handler.dfy | the `IState` default return codes |
| `Dispatch` | dispatch.dfy | the states `processEvent` offers an event to |
| `Balance` | balance.dfy | the entry/exit balance every transition preserves |
| `StateManagement` | state_manager.dfy | the `StateManager` class with its loops |
| `ThreadSafeQueue` | event_queue.dfy | the `SimplestThreadSafeQueue` class |
| `Actors` | actor.dfy | the generic actor: pending slot, one loop iteration, `run`, `run_once` |
| `Toaster` | toaster.dfy | the toaster sample |
| `Evts`, `Foo`, `Bar`, `Demo` | intermediate.dfy | the intermediate sample |

## Model

| member | source | states |
|---|---|---|
| StateTree.Up | lib/Infrastructure/StateManager/StateManager.hpp:31-34 | The current chain, leaf first. It holds proper states only (never the root), starts at the node, and is empty exactly when the node is the root. |
| StateTree.Down | lib/Infrastructure/StateManager/StateManager.hpp:36-39 | The target chain, root first (insert at the front). It holds proper states only and ends at the node. |
| StateTree.UpDecreasing | lib/Infrastructure/StateManager/StateManager.hpp:31-34 | The leaf-first chain lists each child before its parent, and no node twice. |
| StateTree.DownIncreasing | lib/Infrastructure/StateManager/StateManager.hpp:36-39 | The root-first chain lists each parent before its child, and no node twice. |
| StateTree.UpDownSameNodes | lib/Infrastructure/StateManager/StateManager.hpp:31-39 | The two loops collect the same nodes. |
| StateTree.UpSuffix | lib/Infrastructure/StateManager/StateManager.hpp:31-34 | Every suffix of the leaf-first chain is the chain of its first node. |
| StateTree.DownPrefix | lib/Infrastructure/StateManager/StateManager.hpp:36-39 | Every prefix of the root-first chain is the chain of its last node. |
| StateTree.AncestorTransitive | lib/Infrastructure/StateManager/StateManager.hpp:31-34 | An ancestor of an ancestor is an ancestor. |
| Transition.IndexOf | lib/Infrastructure/StateManager/StateManager.hpp:45 | `std::find`: the first index holding the value, or the length when the value is absent. |
| Transition.FirstShared | lib/Infrastructure/StateManager/StateManager.hpp:43-50 | The position where the exit loop breaks: every earlier entry of the current chain is absent from the target chain, and the entry there is present. |
| Transition.Lca | lib/Infrastructure/StateManager/StateManager.hpp:41-65 | The `it_commonAncestor` the loops settle on: a node of the tree. `LcaIsLeastCommonAncestor` states that it is the least common ancestor. |
| Transition.ExitedNodes | lib/Infrastructure/StateManager/StateManager.hpp:41-55 | The `on_exit` calls of the first loop: the current chain up to where the break fires. `TransitionSplitsAtLca` and `TransitionMembership` state what it holds. |
| Transition.EnteredNodes | lib/Infrastructure/StateManager/StateManager.hpp:57-70 | The `on_entry` calls of the second loop: the target chain from just past `it_commonAncestor`, or all of it. `TransitionSplitsAtLca` and `TransitionMembership` state what it holds. |
| Transition.TransitionCalls | lib/Infrastructure/StateManager/StateManager.hpp:18-72 | Every handler call of `transitionTo`: exit then entry of the current state for a self-transition, otherwise the exits then the entries. `TransitionShape` and `TransitionSkipsRoot` state its properties. |
| Transition.LcaIsLeastCommonAncestor | lib/Infrastructure/StateManager/StateManager.hpp:41-50 | The node the loop settles on is the root or a common ancestor, and every common ancestor lies at or above it. |
| Transition.TransitionSplitsAtLca | lib/Infrastructure/StateManager/StateManager.hpp:43-70 | The current chain is the exited nodes followed by the LCA's chain. The target chain is the LCA's chain followed by the entered nodes. |
| Transition.TransitionMembership | lib/Infrastructure/StateManager/StateManager.hpp:43-70 | A node is exited iff it is above-or-at the current state and not above-or-at the target. It is entered iff the reverse holds. Exits run child before parent, entries parent before child, each at most once, and never the root. |
| Transition.NoSharedAncestor | lib/Infrastructure/StateManager/StateManager.hpp:57-61 | With no shared node below the root, the whole current chain is exited and then the whole target chain is entered. |
| Transition.TargetBelowCurrent | lib/Infrastructure/StateManager/StateManager.hpp:43-49 | Target a proper descendant: nothing is exited, the current state is not re-entered, and only the nodes below it are entered. |
| Transition.TargetAboveCurrent | lib/Infrastructure/StateManager/StateManager.hpp:62-65 | Target a proper ancestor: only the nodes below the target are exited, and nothing is entered. |
| Transition.TransitionShape | lib/Infrastructure/StateManager/StateManager.hpp:43-71 | No node is both exited and entered. Nothing is entered iff the target is above-or-at the current state. Otherwise the last entry is the target. |
| Transition.TransitionSkipsRoot | lib/Infrastructure/StateManager/StateManager.hpp:31-39 | No handler call of a transition goes to the root. |
| Handler.DefaultOnEntry | lib/Infrastructure/IState/IState.hpp:17-20 | The default `on_entry` reports success (0). |
| Handler.DefaultOnExit | lib/Infrastructure/IState/IState.hpp:22-25 | The default `on_exit` reports success (0). |
| Handler.DefaultProcessEvent | lib/Infrastructure/IState/IState.hpp:27-34 | The default `process_event` returns exactly -1, which does not count as handled. |
| Handler.IsHandled | lib/Infrastructure/StateManager/StateManager.hpp:84-89 | The test that stops the bubbling: exactly a 0 code. |
| Dispatch.Bubble | lib/Infrastructure/StateManager/StateManager.hpp:80-91 | The states an event is offered to: first the current state, and at most one more than its chain. |
| Dispatch.BubbleOrder | lib/Infrastructure/StateManager/StateManager.hpp:80-91 | The offered states are a prefix of the current chain followed by the root. Every state but the last refused the event, and the last one handled it or is the root. No state is offered the event twice. |
| Dispatch.BubbleBelow | lib/Infrastructure/StateManager/StateManager.hpp:84-89 | Dispatch only climbs: every offered state is at or above the current state in node order. |
| Dispatch.DefaultHandlerPassesOn | lib/Infrastructure/IState/IState.hpp:30-34 | A state that keeps the default `process_event` always passes the event on to its parent. |
| Balance.TransitionLog | lib/Infrastructure/StateManager/StateManager.hpp:20-70 | Per node, a transition logs exit+entry for the self case, one exit for a node left, one entry for a node reached, and nothing otherwise. |
| Balance.TransitionKeepsBalance | lib/Infrastructure/StateManager/StateManager.hpp:18-72 | If every state's entries and exits alternate and the active states are exactly the cursor's chain, both still hold after a transition. |
| Balance.OffersKeepBalance | lib/Infrastructure/StateManager/StateManager.hpp:80-91 | Dispatching an event runs no entry or exit handler, so balance is kept. |
| Balance.InitBalanced | lib/Infrastructure/StateManager/StateManager.hpp:74-78 | `init` enters only the cursor, which is balanced exactly when the initial state is a child of the root. |
| StateManagement.Find | lib/Infrastructure/StateManager/StateManager.hpp:45 | The linear search returns `std::find`'s index. |
| StateManagement.ChainLeafFirst | lib/Infrastructure/StateManager/StateManager.hpp:28-34 | The `push_back` loop builds the leaf-first chain. |
| StateManagement.ChainRootFirst | lib/Infrastructure/StateManager/StateManager.hpp:29-39 | The front-insertion loop builds the root-first chain. |
| StateManagement.PhasesMatch | lib/Infrastructure/StateManager/StateManager.hpp:41-70 | The two loops with the break and the `it_commonAncestor` adjustment produce exactly the LCA-based exit and entry lists. |
| StateManagement.StateManager.constructor | lib/Infrastructure/StateManager/StateManager.hpp:13-16 | Takes the tree and the initial cursor, with no handler called. |
| StateManagement.StateManager.Init | lib/Infrastructure/StateManager/StateManager.hpp:74-78 | Logs exactly one entry, that of the cursor. |
| StateManagement.StateManager.TransitionTo | lib/Infrastructure/StateManager/StateManager.hpp:18-72 | The log grows by exactly the LCA transition calls. A self-transition is exit then entry of the current state. The cursor ends on the target, and the tree is unchanged. |
| StateManagement.StateManager.ExitPhase | lib/Infrastructure/StateManager/StateManager.hpp:41-55 | Exits the current chain in order up to the first node found in the target chain, and returns where it was found. |
| StateManagement.StateManager.EntryPhase | lib/Infrastructure/StateManager/StateManager.hpp:67-70 | Enters the target chain from the start index to the target. |
| StateManagement.StateManager.ProcessEvent | lib/Infrastructure/StateManager/StateManager.hpp:80-91 | The log grows by exactly the offers of `Bubble`, and the cursor does not move. |
| StateManagement.StateManager.CurrentState | lib/Infrastructure/StateManager/StateManager.hpp:98-101 | Returns the cursor. |
| StateManagement.StateManager.SetCurrentState | lib/Infrastructure/StateManager/StateManager.hpp:93-96 | Moves the cursor and calls no handler. |
| ThreadSafeQueue.EventQueue.constructor | lib/Infrastructure/ThreadSafeQueue/ThreadSafeQueue.hpp:37-40 | A new queue is empty. |
| ThreadSafeQueue.EventQueue.Put | lib/Infrastructure/ThreadSafeQueue/ThreadSafeQueue.hpp:42-50 | Appends at the back and keeps the earlier elements in order. |
| ThreadSafeQueue.EventQueue.PutPrioritized | lib/Infrastructure/ThreadSafeQueue/ThreadSafeQueue.hpp:51-59 | Inserts at the front, ahead of every earlier element. |
| ThreadSafeQueue.EventQueue.WaitAndPop | lib/Infrastructure/ThreadSafeQueue/ThreadSafeQueue.hpp:61-76 | Returns the front element and removes exactly it. |
| ThreadSafeQueue.EventQueue.WaitAndPopFor | lib/Infrastructure/ThreadSafeQueue/ThreadSafeQueue.hpp:79-99 | On an empty queue it gives the default value and leaves the queue as it was. Otherwise it behaves like `wait_and_pop`. |
| ThreadSafeQueue.EventQueue.Empty | lib/Infrastructure/ThreadSafeQueue/ThreadSafeQueue.hpp:100-109 | True exactly when nothing is queued; changes nothing. |
| ThreadSafeQueue.EventQueue.Reset | lib/Infrastructure/ThreadSafeQueue/ThreadSafeQueue.hpp:110-114 | Leaves the queue empty (and so is idempotent). |
| ThreadSafeQueue.EventQueue.Clear | lib/Infrastructure/ThreadSafeQueue/ThreadSafeQueue.hpp:115-119 | Leaves the queue empty (and so is idempotent). |
| ThreadSafeQueue.FifoOrder | lib/Infrastructure/ThreadSafeQueue/ThreadSafeQueue.hpp:42-76 | Any sequence of plain puts, popped until empty, comes out in exactly the order it went in. |
| ThreadSafeQueue.PriorityOvertakes | lib/Infrastructure/ThreadSafeQueue/ThreadSafeQueue.hpp:51-73 | A prioritized element comes out before everything already queued, which stays in order. |
| ThreadSafeQueue.PrioritizedIsLifo | lib/Infrastructure/ThreadSafeQueue/ThreadSafeQueue.hpp:51-76 | Any sequence of back-to-back prioritized puts, popped until empty, comes out in exactly the reverse order. |
| ThreadSafeQueue.ClearThenTimedPop | lib/Infrastructure/ThreadSafeQueue/ThreadSafeQueue.hpp:79-119 | After `clear` the queue reports empty, and a timed pop yields the default value. |
| ThreadSafeQueue.EmptyAfterPut | lib/Infrastructure/ThreadSafeQueue/ThreadSafeQueue.hpp:42-50 | `empty` is true on a new queue and false after one put. |
| ThreadSafeQueue.Drain | lib/Infrastructure/ThreadSafeQueue/ThreadSafeQueue.hpp:61-76 | Popping until empty returns the contents front first and leaves the queue empty. |
| Actors.Pending | samples/toaster/main.cpp:284-305 | The slot after the handlers ran is either the old slot or a target some offered handler wrote. |
| Actors.Verdict | samples/toaster/main.cpp:284-305 | The code each node's `process_event` returns for a given event, read from the decision table. |
| Actors.PendingLastWrite | samples/toaster/main.cpp:235-245 | If no offered handler names a target, the slot is unchanged. Otherwise it holds the target of the last handler that wrote one. |
| Actors.Step | samples/toaster/main.cpp:237-246 | One loop iteration keeps the cursor on a proper state and only appends to the log. |
| Actors.Steps | samples/toaster/main.cpp:235-249 | The same holds for any sequence of iterations. |
| Actors.StepOutcome | samples/toaster/main.cpp:237-246 | With no target requested, an iteration only offers the event. Otherwise it offers the event and then makes the LCA transition to the target of the last writer. |
| Actors.StepKeepsBalance | samples/toaster/main.cpp:237-246 | One iteration keeps the entry/exit balance. |
| Actors.StepsKeepBalance | samples/toaster/main.cpp:235-249 | Any number of iterations keep the entry/exit balance. |
| Actors.StepsStayAmong | samples/toaster/main.cpp:235-249 | If the initial state and every target a table can name lie in a set, the cursor never leaves that set. |
| Actors.StepsAppend | samples/toaster/main.cpp:235-249 | Running two event sequences one after the other equals running their concatenation. |
| Actors.Effects | samples/toaster/main.cpp:272-283 | The side effects of a call log, in call order: at most one per call. |
| Actors.EffectsTrace | samples/toaster/main.cpp:272-365 | Every effect in the result is the effect of some call in the log, every call that has an effect contributes it, and the result is empty exactly when no call has an effect. |
| Actors.EffectsAppend | samples/toaster/main.cpp:272-283 | The effects of concatenated logs are the concatenated effects. |
| Actors.Actor.constructor | samples/toaster/main.cpp:130-148 | The slot starts at `UNKNOWN`, the queue empty, the cursor on the initial state, and no handler is called. |
| Actors.Actor.Start | samples/toaster/main.cpp:154-159 | Enters the initial state and sets the running flag. |
| Actors.Actor.CallbackEvent | samples/toaster/main.cpp:173-176 | Appends the event to the queue. |
| Actors.Actor.Stop | samples/toaster/main.cpp:161-170 | A no-op unless running. Otherwise it clears the flag and empties the queue. |
| Actors.Actor.Iterate | samples/toaster/main.cpp:237-246 | Pops the front event. The new cursor and log are `Step` of the old ones, and the slot is back at `UNKNOWN`. |
| Actors.Actor.RunOnce | samples/toaster/main.cpp:223-227 | Exactly one iteration on the front event, and the actor is left not running. |
| Actors.Actor.Run | samples/toaster/main.cpp:235-249 | Not running: exactly one iteration. Running: every queued event in order, ending with an empty queue. |
| Toaster.Decide | samples/toaster/main.cpp:266-371 | Each handler answers 0 or -1, and names a target (always a proper state) only when it answers 0. |
| Toaster.EntryAction | samples/toaster/main.cpp:256-365 | Exactly the four proper states have an `on_entry` device call, and each switches something on: heater, lamp, timer, oven temperature. The super-state has none. |
| Toaster.ExitAction | samples/toaster/main.cpp:256-365 | Exactly the four proper states have an `on_exit` device call, and each switches something off. The super-state has none. |
| Toaster.ToasterTreeValid | samples/toaster/main.cpp:130-148 | The constructor's tree: Heating and DoorOpen below the super-state, Toasting and Baking below Heating, with their chains. |
| Toaster.StartBalanced | samples/toaster/main.cpp:272-277 | `init` enters only Heating, which switches the heater on and leaves the start balanced. |
| Toaster.DoorOpenWhileToasting | samples/toaster/main.cpp:278-353 | Toasting + DoorOpen: offered to Toasting then Heating. Exits Toasting then Heating and enters DoorOpen, so the device calls are disarm, heater off, lamp on. |
| Toaster.TransitionActions | samples/toaster/main.cpp:278-317 | The device calls of that log are disarm, heater off, lamp on. |
| Toaster.TimeoutWhileToasting | samples/toaster/main.cpp:342-353 | Toasting + Timeout goes to Heating by exiting only Toasting. Heating is not re-entered. |
| Toaster.ToastAgainWhileToasting | samples/toaster/main.cpp:284-353 | Toasting + DoToasting bubbles to Heating and self-transitions Toasting: exit, then entry. |
| Toaster.BakeFromHeating | samples/toaster/main.cpp:284-305 | Heating + DoBaking enters Baking and exits nothing. |
| Toaster.CloseDoor | samples/toaster/main.cpp:318-329 | DoorOpen + DoorClose exits DoorOpen and enters Heating. |
| Toaster.BakingIsFinal | samples/toaster/main.cpp:366-371 | Baking absorbs every event and never leaves. |
| Toaster.ShutdownIsIgnored | samples/toaster/main.cpp:266-371 | Shutdown moves no state from any state. It is only offered up the chain. |
| Toaster.UnhandledInHeating | samples/toaster/main.cpp:266-305 | DoorClose, Timeout and Shutdown in Heating are refused there and taken by the super-state. The state stays Heating and no handler but the two offers runs. |
| Toaster.DoorOpenStep | samples/toaster/main.cpp:284-329 | Toasting + DoorOpen: the offers, then exits of Toasting and Heating and entry of DoorOpen, ending in DoorOpen. |
| Toaster.ClimbsToHeating | samples/toaster/main.cpp:284-353 | DoorOpen and DoToasting are refused by Toasting and taken by Heating, whose target is the one pending. |
| Toaster.TakenWhere | samples/toaster/main.cpp:266-371 | An event the current state answers with 0 is offered to that state only, and its target is the one pending. |
| Toaster.MoveToastingToDoorOpen | samples/toaster/main.cpp:284-329 | Toasting to DoorOpen exits Toasting, then Heating, and enters DoorOpen. |
| Toaster.MoveToastingToHeating | samples/toaster/main.cpp:342-353 | Toasting to its parent Heating exits only Toasting. |
| Toaster.MoveHeatingToBaking | samples/toaster/main.cpp:284-305 | Heating to its child Baking enters only Baking. |
| Toaster.MoveDoorOpenToHeating | samples/toaster/main.cpp:318-329 | DoorOpen to Heating exits DoorOpen and enters Heating. |
| Toaster.NoTargetOnShutdown | samples/toaster/main.cpp:266-371 | No handler names a target for Shutdown. |
| Toaster.Switches | samples/toaster/main.cpp:272-365 | A device's on/off history, never longer than the action list. |
| Toaster.SwitchesTrace | samples/toaster/main.cpp:272-365 | For a device with distinct on and off calls, the history holds an `on` exactly when the on call occurs and an `off` exactly when the off call occurs. |
| Toaster.SwitchesAppend | samples/toaster/main.cpp:272-317 | Device histories of concatenated action lists concatenate. |
| Toaster.SwitchesAreLog | samples/toaster/main.cpp:272-365 | Each device's on/off history is exactly its state's entry/exit log. |
| Toaster.AlternatingLast | samples/toaster/main.cpp:272-283 | An alternating history is switched on exactly when it has odd length. |
| Toaster.DevicesFollowState | samples/toaster/main.cpp:272-371 | After `init` and any events, each device alternates on/off starting with on. The heater is on iff the state is not DoorOpen, the lamp iff DoorOpen, the timer iff Toasting, the oven iff Baking. |
| Toaster.Console | samples/toaster/main.cpp:376-409 | The console loop (`callback_IEvent`, then `run_once`) from `init` ends at `Steps` over the events, with an empty queue. |
| Foo.Decide | samples/intermediate/main.cpp:249-414 | Only a successfully cast green event makes a state name a target (A, G or E), always with 0; every answer is 0 or -1. |
| Foo.OnEntry | samples/intermediate/main.cpp:247-414 | Exactly A, G and E publish on entry, and what they publish is a valid blue event. |
| Foo.OnExit | samples/intermediate/main.cpp:247-414 | No `on_exit` of Foo publishes anything. |
| Foo.TreeShape | samples/intermediate/main.cpp:167-181 | Tree A→{C, D→F→G}, B→E, with the chains of A, G and E. |
| Foo.StartBalanced | samples/intermediate/main.cpp:188-192 | Starting in A is balanced and emits blue 11. |
| Foo.GreenInA | samples/intermediate/main.cpp:265-299 | A + green: nothing is exited, and D, F, G are entered in that order. |
| Foo.GreenInG | samples/intermediate/main.cpp:336-365 | G + green: G, F, D, A are exited, then B and E are entered. |
| Foo.GreenInE | samples/intermediate/main.cpp:385-414 | E + green: E and B are exited, then A is entered. |
| Foo.BlueAbsorbedAbove | samples/intermediate/main.cpp:319-373 | Blue in G is taken by F, and blue in E by B; no transition. |
| Foo.FailedDowncastInA | samples/intermediate/main.cpp:265-299 | A green tag on a non-green object is refused by A and handled by the root; no transition. |
| Foo.GreenTaken | samples/intermediate/main.cpp:249-414 | Green is taken by the state it is offered to, which names the next state of the cycle A → G → E → A. |
| Foo.MoveAToG | samples/intermediate/main.cpp:265-299 | A to G exits nothing and enters D, F, G. |
| Foo.MoveGToE | samples/intermediate/main.cpp:336-365 | G to E exits G, F, D, A and enters B, E. |
| Foo.MoveEToA | samples/intermediate/main.cpp:385-414 | E to A exits E, B and enters A. |
| Foo.BlueClimbsOne | samples/intermediate/main.cpp:319-373 | Blue in G or E is refused there and taken by the parent, which names no target. |
| Foo.EmitsEnteringG | samples/intermediate/main.cpp:325-334 | Entering G emits blue 22. |
| Foo.EmitsEnteringE | samples/intermediate/main.cpp:374-383 | Entering E emits blue 33. |
| Foo.EmitsEnteringA | samples/intermediate/main.cpp:255-264 | Entering A emits blue 11. |
| Foo.OnlyGreenMoves | samples/intermediate/main.cpp:249-414 | No event other than a valid green one moves Foo. |
| Foo.RunInvariant | samples/intermediate/main.cpp:225-238 | After any events Foo is in A, G or E, and balanced. |
| Bar.Decide | samples/intermediate/main.cpp:572-688 | Only a valid blue event makes a state name a target, always with 0; every answer is 0 or -1. |
| Bar.OnEntry | samples/intermediate/main.cpp:570-688 | Exactly 2 and 3 publish on entry, and what they publish is a valid green event. |
| Bar.OnExit | samples/intermediate/main.cpp:570-688 | Only 3 publishes on exit, a valid green event. |
| Bar.TreeShape | samples/intermediate/main.cpp:493-503 | Tree 1→3, plus 2, with their chains. |
| Bar.BlueIn1 | samples/intermediate/main.cpp:580-603 | 1 + blue: exits 1 and enters 2. |
| Bar.BlueIn2 | samples/intermediate/main.cpp:617-640 | 2 + blue: exits 2, then enters 1 and 3. |
| Bar.BlueIn3 | samples/intermediate/main.cpp:665-688 | 3 + blue: exits only 3 and enters nothing. |
| Bar.BlueTaken | samples/intermediate/main.cpp:572-688 | Blue is taken by the state it is offered to, which names the next state of the cycle 1 → 2 → 3 → 1. |
| Bar.MoveOneToTwo | samples/intermediate/main.cpp:580-603 | 1 to 2 exits 1 and enters 2. |
| Bar.MoveTwoToThree | samples/intermediate/main.cpp:617-640 | 2 to 3 exits 2 and enters 1, then 3. |
| Bar.LeaveThree | samples/intermediate/main.cpp:665-688 | 3 to its parent 1 exits only 3. |
| Bar.EmitsEntering2 | samples/intermediate/main.cpp:604-615 | Going to 2 emits green 1 2 3. |
| Bar.EmitsEntering3 | samples/intermediate/main.cpp:641-652 | Going to 3 emits green 4 5 6. |
| Bar.EmitsLeaving3 | samples/intermediate/main.cpp:653-664 | Leaving 3 emits green 7 8 9. |
| Bar.OnlyBlueMoves | samples/intermediate/main.cpp:572-688 | No event other than a valid blue one moves Bar. |
| Bar.RunInvariant | samples/intermediate/main.cpp:547-560 | After any events Bar stays balanced. |
| Demo.PingPongRound | samples/intermediate/main.cpp:696-733 | Delivering each actor's emissions to the other, three rounds bring Foo back to A and Bar back to 1. The emissions chain blue 22 → green 4 5 6 → blue 33 → green 7 8 9 → blue 11. |

## Left out

- Threads and synchronisation are not modelled: `std::thread`, the mutex, the condition variable, `notify_all` and `std::atomic_bool`. Each queue operation is one atomic step.
- Two hazards follow from that and are not modelled:
  - `clear` and `reset` change the deque without taking the lock;
  - `stop` clears the queue and then joins a worker that may be blocked in `wait_and_pop`.
- Real time is not modelled: the `std::chrono` timeout of `wait_and_pop_for` and the `sleep_for` delays in handlers and `Demo::App`.
- ThreadSafeQueue.EventQueue.WaitAndPop: requires a non-empty queue, because with no other thread a call on an empty queue would block forever.
- ThreadSafeQueue.EventQueue.WaitAndPopFor: takes no timeout. An empty queue means the wait timed out, and the default-constructed value (a null pointer) is `None`.
- Actors.Actor.Run: when running it stops once the queue is empty. The source would block in `wait_and_pop` for an event from another thread.
- The worker thread that `start` launches is not modelled. `Actors.Actor.Start` only calls `init` and sets the flag.
- The `boost::signals2` signal and the `boost::bind` wiring between Foo and Bar are not modelled. Emissions are read off the call log (`Foo.Emitted`, `Bar.Emitted`), and `Demo.PingPongRound` delivers them by hand in the order the wiring would.
- Event identity by `typeid(...).hash_code()` and `dynamic_pointer_cast` (lib/Infrastructure/IEvent/IEvent.hpp:18-21) is replaced by an event datatype: toaster event kinds, and intermediate events with a tag and a payload. The payload values (timeouts, green data) are carried but not interpreted.
- The `tree.hh` library is not part of this model. Its trees are the parent map of `StateTree`.
- StateManagement.StateManager.TransitionTo: requires the cursor and the target to be proper states, not the root. With the root as cursor the source reads `it_commonAncestor` uninitialised, and `processEvent` takes the root's parent.
- StateManagement.StateManager.ProcessEvent: takes each state's answer to the event as a function instead of calling the handlers, and requires the cursor to be a proper state, for the same reason.
- StateManagement.StateManager.SetCurrentState: requires a proper state. The source setter accepts any iterator, including the root and `end()`. The class invariant keeps the cursor on a proper state, because `transitionTo` and `processEvent` are not defined from the root (see the two lines above).
- Actors.Effects: its own contract is only a length bound, which keeps the proofs over concrete logs small. Which call yields which effect is stated by `Actors.EffectsTrace` and `Actors.EffectsAppend`.
- Toaster.Switches: its own contract is only a length bound, for the same reason. Its content is stated by `Toaster.SwitchesTrace` and `Toaster.SwitchesAreLog`.
- Actors.Actor.Iterate: writes `m_next_state` from the offered handlers' decisions right after dispatch, where the source handlers write it while they run. Nothing reads the slot in between, so the value is the same.
- Logging is not modelled: `LOG_MAIN`, `LOG_TSQ` and lib/Infrastructure/Logger/Logger.hpp.
- The toaster's `std::cin` console is not modelled, including the choice parsing and "Invalid choice". `Toaster.Console` takes the chosen events as a sequence.
- app/main.cpp, demo/main.cpp and ref.cpp are not part of this model. demo/main.cpp and ref.cpp are threaded ping-pong demos whose sequential logic is the intermediate sample's.
- The toaster's `connect_callbacks` and unused signal are not modelled.
