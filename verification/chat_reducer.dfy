/**
 * The client's `chat` reducer: the list of received messages, extended by
 * one entry per `RECV_TEXT` action and left alone by every other action.
 */
module ChatReducer {
  import opened Wrappers

  /** One received message: `id` holds the sender's name. */
  datatype Body = Body(id: string, text: string)

  datatype State = State(bodies: seq<Body>)

  datatype TextPayload = TextPayload(username: string, text: string)

  /** `RECV_TEXT` and its payload, or an action of any other type. */
  datatype Action = RecvText(payload: TextPayload) | OtherAction(kind: string)

  const DefaultState: State := State([])

  /** The state a reducer call starts from: the default when none is given. */
  function Current(state: Option<State>): State {
    match state
    case None => DefaultState
    case Some(s) => s
  }

  /** The reducer. */
  function Chat(state: Option<State>, action: Action): (r: State)
    ensures action.RecvText? ==>
      && |r.bodies| == |Current(state).bodies| + 1
      && r.bodies[..|Current(state).bodies|] == Current(state).bodies
      && r.bodies[|r.bodies| - 1] == Body(action.payload.username, action.payload.text)
    ensures action.OtherAction? ==> r == Current(state)
  {
    match action
    case RecvText(p) => State(Current(state).bodies + [Body(p.username, p.text)])
    case OtherAction(_) => Current(state)
  }

  /** Feeding a list of actions to the reducer, starting from `state`. */
  function Replay(state: Option<State>, actions: seq<Action>): State
    decreases |actions|
  {
    if |actions| == 0 then Current(state)
    else Replay(Some(Chat(state, actions[0])), actions[1..])
  }

  /** The bodies the `RECV_TEXT` actions of a list carry, in order. */
  function Received(actions: seq<Action>): seq<Body>
    decreases |actions|
  {
    if |actions| == 0 then []
    else
      (if actions[0].RecvText? then [Body(actions[0].payload.username, actions[0].payload.text)] else [])
      + Received(actions[1..])
  }

  /** The state after a list of actions is the old list followed by one body
      per `RECV_TEXT` action, in action order; nothing else leaves a trace. */
  lemma {:induction false} ReplayCollects(state: Option<State>, actions: seq<Action>)
    ensures Replay(state, actions).bodies == Current(state).bodies + Received(actions)
    decreases |actions|
  {
    if |actions| > 0 {
      var next := Chat(state, actions[0]);
      ReplayCollects(Some(next), actions[1..]);
      assert Current(state).bodies + Received(actions)
        == next.bodies + Received(actions[1..]);
    }
  }
}
