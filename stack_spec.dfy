/**
 * What the operations of a stack controller do, stated on values.
 *
 * The state `Nav` is everything the controller changes: its stack of screen
 * ids, the screen views attached to its layout, the screens it has destroyed
 * (in the order it destroyed them), the settlements of callers' promises, and
 * the completion an animation in progress will run when it ends.
 */
module StackSpec {
  import opened Wrappers
  import IdStack
  import Container

  type Id = IdStack.Id

  /** The promise a caller hands to an operation; `NoOp` is the shared promise
      that ignores its settlement. */
  datatype Promise = NoOp | Caller(token: nat)

  /** One settlement of a caller's promise. */
  datatype Outcome = Resolved(token: nat, id: Id) | Rejected(token: nat)

  /** The continuation handed to the animator, run when its transition ends. */
  datatype Completion =
    | PushDone(entering: Id, covered: Id, promise: Promise)
    | PopDone(exiting: Id, promise: Promise)

  datatype Nav = Nav(
    stack: seq<Id>,
    views: seq<Id>,
    destroyed: seq<Id>,
    outcomes: seq<Outcome>,
    pending: Option<Completion>)

  function Resolve(log: seq<Outcome>, p: Promise, id: Id): seq<Outcome> {
    match p
    case NoOp => log
    case Caller(t) => log + [Resolved(t, id)]
  }

  function Reject(log: seq<Outcome>, p: Promise): seq<Outcome> {
    match p
    case NoOp => log
    case Caller(t) => log + [Rejected(t)]
  }

  /** The views a stack at rest shows: its top screen's alone. */
  function TopView(s: seq<Id>): seq<Id> {
    if s == [] then [] else [IdStack.Top(s)]
  }

  /** No animation is in progress. */
  predicate Idle(n: Nav) {
    n.pending.None?
  }

  /** The root survives: popping is allowed only above it. */
  predicate CanPop(s: seq<Id>) {
    IdStack.Size(s) > 1
  }

  /**
   * The controller's invariant. Ids are unique. At rest only the top screen's
   * view is attached. During a push animation the covered screen's view lies
   * beneath the entering one; during a pop animation the exiting screen, which
   * has already left the stack, is still drawn above the new top.
   */
  predicate Valid(n: Nav) {
    && IdStack.Distinct(n.stack)
    && match n.pending
       case None => n.views == TopView(n.stack)
       case Some(PushDone(e, c, _)) =>
         |n.stack| >= 2 && IdStack.Top(n.stack) == e && n.stack[|n.stack| - 2] == c && n.views == [c, e]
       case Some(PopDone(x, _)) =>
         n.stack != [] && x !in n.stack && n.views == [IdStack.Top(n.stack), x]
  }

  /** No animation is running and only the top's view is attached: the shape
      of every valid state between commands, leaving uniqueness aside. */
  predicate Settled(n: Nav) {
    Idle(n) && n.views == TopView(n.stack)
  }

  /** push: the child becomes the top and the only attached view; the screen
      it covers is detached but not destroyed; the promise resolves at once. */
  function Push(n: Nav, child: Id, p: Promise): Nav
    requires !IdStack.ContainsId(n.stack, child)
  {
    n.(stack := n.stack + [child], views := [child], outcomes := Resolve(n.outcomes, p, child))
  }

  /** animatePush: on an empty stack the same as push; otherwise both views
      stay attached and detaching the covered one and resolving the promise
      wait for the animation to end. */
  function AnimatePush(n: Nav, child: Id, p: Promise): Nav
    requires !IdStack.ContainsId(n.stack, child)
  {
    if n.stack == [] then
      n.(stack := [child], views := [child], outcomes := Resolve(n.outcomes, p, child))
    else
      n.(stack := n.stack + [child], views := [IdStack.Top(n.stack), child],
         pending := Some(PushDone(child, IdStack.Top(n.stack), p)))
  }

  /** pop: rejected when only the root (or nothing) is left; otherwise the
      top leaves the stack, its view is replaced by the new top's, it is
      destroyed, and the promise resolves with its id. */
  function Pop(n: Nav, p: Promise): Nav {
    if !CanPop(n.stack) then n.(outcomes := Reject(n.outcomes, p))
    else
      var s := n.stack;
      n.(stack := s[..|s| - 1], views := [s[|s| - 2]], destroyed := n.destroyed + [IdStack.Top(s)],
         outcomes := Resolve(n.outcomes, p, IdStack.Top(s)))
  }

  /** animatePop: rejected like pop; otherwise the top leaves the stack at
      once, the new top's view is attached beneath the exiting one, and
      detaching, destroying and resolving wait for the animation to end. */
  function AnimatePop(n: Nav, p: Promise): Nav {
    if !CanPop(n.stack) then n.(outcomes := Reject(n.outcomes, p))
    else
      var s := n.stack;
      n.(stack := s[..|s| - 1], views := [s[|s| - 2], IdStack.Top(s)],
         pending := Some(PopDone(IdStack.Top(s), p)))
  }

  /** The animator ends its transition and runs the completion it was given. */
  function Complete(n: Nav): Nav
    requires !Idle(n)
  {
    match n.pending.value
    case PushDone(e, _, p) =>
      n.(views := [e], outcomes := Resolve(n.outcomes, p, e), pending := None)
    case PopDone(x, p) =>
      n.(views := TopView(n.stack), destroyed := n.destroyed + [x],
         outcomes := Resolve(n.outcomes, p, x), pending := None)
  }

  /** popSpecific: the top is popped with animation; any other id is taken
      out of the stack where it is, destroyed and resolved, with nothing
      animated. */
  function PopSpecific(n: Nav, target: Id, p: Promise): Nav {
    if IdStack.IsTop(n.stack, target) then AnimatePop(n, p)
    else
      n.(stack := IdStack.Remove(n.stack, target), destroyed := n.destroyed + [target],
         outcomes := Resolve(n.outcomes, p, target))
  }

  /** The state after unanimated pops with the no-op promise have taken the
      stack down to its `m` lowest entries: the screens above them are
      destroyed top first, and only the new top's view is attached. */
  function PopSilently(n: Nav, m: nat): Nav
    requires 1 <= m <= |n.stack|
  {
    n.(stack := n.stack[..m], views := [n.stack[m - 1]],
       destroyed := n.destroyed + IdStack.Iterator(n.stack[m..]))
  }

  /** popTo: rejected when the target is not in the stack; nothing happens
      when it is already on top; otherwise every screen above it is popped
      and only the last pop, the one that uncovers the target, is animated
      and carries the caller's promise. */
  function PopTo(n: Nav, target: Id, p: Promise): Nav {
    if !IdStack.ContainsId(n.stack, target) then n.(outcomes := Reject(n.outcomes, p))
    else
      var i := IdStack.IndexOf(n.stack, target);
      if i == |n.stack| - 1 then n
      else AnimatePop(PopSilently(n, i + 2), p)
  }

  /** popToRoot: pops while a pop is allowed; only the pop that leaves the
      root alone is animated and carries the caller's promise. */
  function PopToRoot(n: Nav, p: Promise): Nav {
    if !CanPop(n.stack) then n
    else AnimatePop(PopSilently(n, 2), p)
  }

  /** handleBack: an animated pop with the no-op promise when a pop is
      allowed; the flag says whether the back press was handled. */
  function HandleBack(n: Nav): (Nav, bool) {
    if CanPop(n.stack) then (AnimatePop(n, NoOp), true) else (n, false)
  }
}
