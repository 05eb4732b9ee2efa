/**
 * The lifecycle notifications the controller delivers to nodes. What a
 * node does with them (its visual update, the bodies of its handlers) is
 * outside the model; each delivery appears as one entry of an event trace.
 */
module Events {
  import opened FocusTree

  datatype Event =
    | Focused(node: Handle)           // the node's own focus()
    | Blurred(node: Handle)           // the node's own blur()
    | WillMoveHandled(node: Handle)   // its onWillMove handler was called
    | EnterDownHandled(node: Handle)  // its onEnterDown handler was called, with the controller

  const WILL_MOVE := "willmove"
  const ON_FOCUS := "onfocus"
  const ON_BLUR := "onblur"
  const ENTER_DOWN := "enter-down"

  /**
   * What firing `evt` at node `h` delivers, or None for an event name the
   * dispatcher does not know (which then has no effect). A handler event
   * delivers nothing when the node declares no handler for it.
   */
  function Dispatch(n: Node, h: Handle, evt: string): (r: Option<seq<Event>>)
    ensures r.Some? <==> evt in {WILL_MOVE, ON_FOCUS, ON_BLUR, ENTER_DOWN}
    ensures r.Some? ==> |r.value| <= 1 && forall e :: e in r.value ==> e.node == h
    ensures evt == ON_FOCUS ==> r == Some([Focused(h)])
    ensures evt == ON_BLUR ==> r == Some([Blurred(h)])
    ensures evt == WILL_MOVE ==> r == Some(if n.hasOnWillMove then [WillMoveHandled(h)] else [])
    ensures evt == ENTER_DOWN ==> r == Some(if n.hasOnEnterDown then [EnterDownHandled(h)] else [])
  {
    if evt == WILL_MOVE then Some(if n.hasOnWillMove then [WillMoveHandled(h)] else [])
    else if evt == ON_FOCUS then Some([Focused(h)])
    else if evt == ON_BLUR then Some([Blurred(h)])
    else if evt == ENTER_DOWN then Some(if n.hasOnEnterDown then [EnterDownHandled(h)] else [])
    else None
  }
}
