/**
  The handler contract every state of the tree implements (`IState`): `on_entry`,
  `on_exit` and `process_event` each return an `int`, and 0 means success.
  For `process_event`, 0 means "handled here"; any other value sends the event on
  to the parent state.
 */
module Handler {

  /** The code for "no error" from `on_entry`/`on_exit` and for "handled" from `process_event`. */
  const Handled: int := 0

  /** The code the default `process_event` returns: the event was not handled. */
  const NotHandled: int := -1

  /** How `StateManager::processEvent` reads a code: exactly 0 stops the bubbling. */
  predicate IsHandled(code: int) {
    code == 0
  }

  /** `IState::on_entry` when a state does not override it: it always succeeds. */
  function DefaultOnEntry(): (r: int)
    ensures IsHandled(r)
  {
    Handled
  }

  /** `IState::on_exit` when a state does not override it: it always succeeds. */
  function DefaultOnExit(): (r: int)
    ensures IsHandled(r)
  {
    Handled
  }

  /** `IState::process_event` when a state does not override it: no event is ever handled. */
  function DefaultProcessEvent<E>(event: E): (r: int)
    ensures !IsHandled(r)
    ensures r == NotHandled
  {
    NotHandled
  }
}
