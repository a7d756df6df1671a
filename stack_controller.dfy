/**
 * The stack controller: a navigation container that keeps an id-keyed LIFO of
 * screens, attaches and detaches their views in its layout, destroys the
 * screens it pops, and settles the promise each command is given.
 *
 * Each command changes the fields in place and is proved to leave exactly the
 * state that module StackSpec describes. The animator is the `pending` field:
 * an animated command stores the completion it hands to the animator, and
 * `CompleteAnimation` is the animator running it when the transition ends.
 */
module ViewControllers {
  import opened Wrappers
  import IdStack
  import Container
  import opened StackSpec
  import StackProperties

  class StackController {
    var stack: seq<Id>
    var views: seq<Id>
    var destroyed: seq<Id>
    var outcomes: seq<Outcome>
    var pending: Option<Completion>

    function State(): Nav
      reads this
    {
      Nav(stack, views, destroyed, outcomes, pending)
    }

    predicate Valid()
      reads this
    {
      StackSpec.Valid(State())
    }

    /** No animation started by this controller is still running. */
    predicate Idle()
      reads this
    {
      pending.None?
    }

    constructor ()
      ensures Valid() && Idle()
      ensures State() == Nav([], [], [], [], None)
    {
      stack, views, destroyed, outcomes, pending := [], [], [], [], None;
    }

    function Peek(): Option<Id>
      reads this
    {
      IdStack.Peek(stack)
    }

    function Size(): nat
      reads this
    {
      IdStack.Size(stack)
    }

    predicate IsEmpty()
      reads this
    {
      IdStack.IsEmpty(stack)
    }

    predicate CanPop()
      reads this
    {
      StackSpec.CanPop(stack)
    }

    method Push(child: Id, p: Promise)
      requires Valid() && Idle() && !IdStack.ContainsId(stack, child)
      modifies this
      ensures Valid() && Idle()
      ensures State() == StackSpec.Push(old(State()), child, p)
    {
      ghost var n0 := State();
      var toRemove := Peek();
      stack := IdStack.Push(stack, child);
      views := Container.AddView(views, child);
      if toRemove.Some? {
        assert views == [toRemove.value, child];
        Container.DetachFromPair(toRemove.value, child);
        views := Container.RemoveView(views, toRemove.value);
      }
      assert views == [child];
      outcomes := Resolve(outcomes, p, child);
      assert State() == StackSpec.Push(n0, child, p);
      StackProperties.PushKeepsValid(n0, child, p);
    }

    method AnimatePush(child: Id, p: Promise)
      requires Valid() && Idle() && !IdStack.ContainsId(stack, child)
      modifies this
      ensures Valid()
      ensures State() == StackSpec.AnimatePush(old(State()), child, p)
    {
      ghost var n0 := State();
      var toRemove := Peek();
      stack := IdStack.Push(stack, child);
      views := Container.AddView(views, child);
      if toRemove.Some? {
        assert views == [toRemove.value, child];
        pending := Some(PushDone(child, toRemove.value, p));
      } else {
        assert views == [child];
        outcomes := Resolve(outcomes, p, child);
      }
      assert State() == StackSpec.AnimatePush(n0, child, p);
      StackProperties.AnimatePushKeepsValid(n0, child, p);
    }

    method Pop(p: Promise)
      requires Valid() && Idle()
      modifies this
      ensures Valid() && Idle()
      ensures State() == StackSpec.Pop(old(State()), p)
    {
      ghost var n0 := State();
      if !CanPop() {
        outcomes := Reject(outcomes, p);
      } else {
        var popped := IdStack.Pop(stack);
        var exiting := popped.1;
        stack := popped.0;
        var entering := Peek().value;
        assert views == [exiting] && entering == n0.stack[|n0.stack| - 2];
        Container.AttachBeneath(exiting, entering);
        PopInternal(exiting, entering);
        Container.DetachFromPair(entering, exiting);
        FinishPopping(exiting, p);
      }
      assert State() == StackSpec.Pop(n0, p);
      StackProperties.PopKeepsValid(n0, p);
    }

    method AnimatePop(p: Promise)
      requires Valid() && Idle()
      modifies this
      ensures Valid()
      ensures State() == StackSpec.AnimatePop(old(State()), p)
    {
      ghost var n0 := State();
      if !CanPop() {
        outcomes := Reject(outcomes, p);
      } else {
        var popped := IdStack.Pop(stack);
        var exiting := popped.1;
        stack := popped.0;
        var entering := Peek().value;
        assert views == [exiting] && entering == n0.stack[|n0.stack| - 2];
        Container.AttachBeneath(exiting, entering);
        PopInternal(exiting, entering);
        assert stack == n0.stack[..|n0.stack| - 1] && exiting == IdStack.Top(n0.stack);
        assert views == [entering, exiting];
        pending := Some(PopDone(exiting, p));
      }
      assert State() == StackSpec.AnimatePop(n0, p);
      StackProperties.AnimatePopKeepsValid(n0, p);
    }

    /** Attaches the entering view just beneath the exiting one. The layout
        is given this as a continuation and is taken to run it at once. */
    method PopInternal(disappearing: Id, appearing: Id)
      requires appearing !in views
      modifies this
      ensures State() == old(State()).(views := Container.AddViewAt(old(views), appearing, Container.IndexOfChild(old(views), disappearing)))
    {
      views := Container.AddViewAt(views, appearing, Container.IndexOfChild(views, disappearing));
    }

    /** Detaches the exiting view, destroys the popped screen and resolves the
        promise with its id. */
    method FinishPopping(exiting: Id, p: Promise)
      modifies this
      ensures State() == old(State()).(views := Container.RemoveView(old(views), exiting),
        destroyed := old(destroyed) + [exiting], outcomes := Resolve(old(outcomes), p, exiting))
    {
      views := Container.RemoveView(views, exiting);
      destroyed := destroyed + [exiting];
      outcomes := Resolve(outcomes, p, exiting);
    }

    /** The animator ends its transition and runs the completion it holds. */
    method CompleteAnimation()
      requires Valid() && !Idle()
      modifies this
      ensures Valid() && Idle()
      ensures State() == StackSpec.Complete(old(State()))
    {
      ghost var n0 := State();
      match pending.value
      case PushDone(entering, covered, p) =>
        assert covered == stack[|stack| - 2];
        Container.DetachFromPair(covered, entering);
        pending := None;
        views := Container.RemoveView(views, covered);
        outcomes := Resolve(outcomes, p, entering);
      case PopDone(exiting, p) =>
        Container.DetachFromPair(IdStack.Top(stack), exiting);
        pending := None;
        FinishPopping(exiting, p);
      assert State() == StackSpec.Complete(n0);
      StackProperties.CompleteKeepsValid(n0);
    }

    method PopSpecific(target: Id, p: Promise)
      requires Valid() && Idle()
      modifies this
      ensures Valid()
      ensures State() == StackSpec.PopSpecific(old(State()), target, p)
    {
      ghost var n0 := State();
      if IdStack.IsTop(stack, target) {
        AnimatePop(p);
      } else {
        stack := IdStack.Remove(stack, target);
        destroyed := destroyed + [target];
        outcomes := Resolve(outcomes, p, target);
      }
      assert State() == StackSpec.PopSpecific(n0, target, p);
      StackProperties.PopSpecificKeepsValid(n0, target, p);
    }

    method PopTo(target: Id, p: Promise)
      requires Valid() && Idle()
      modifies this
      ensures Valid()
      ensures State() == StackSpec.PopTo(old(State()), target, p)
    {
      ghost var n0 := State();
      if !IdStack.ContainsId(stack, target) {
        outcomes := Reject(outcomes, p);
        StackProperties.PopToWithoutPops(n0, target, p);
      } else {
        PopDownTo(target, p, IdStack.IndexOf(stack, target));
        IdStack.IndexOfAt(n0.stack, |stack| - 1);
        if |stack| == |n0.stack| {
          StackProperties.PopSilentlyNone(n0);
          StackProperties.PopToWithoutPops(n0, target, p);
        } else {
          StackProperties.PopToIsSilentThenAnimated(n0, target, p, |stack| - 1);
        }
      }
      StackProperties.PopToKeepsValid(n0, target, p);
    }

    /** The loop of popTo: walks the ids from the top down, popping once per
        step until the target is reached; the pop that uncovers the target is
        animated and carries the caller's promise, the others are plain pops
        with the no-op promise. `i` is the target's position in the stack. */
    method PopDownTo(target: Id, p: Promise, ghost i: nat)
      requires Valid() && Idle() && i < |stack| && stack[i] == target
      modifies this
      ensures i < |stack| <= |old(stack)| && old(stack)[|stack| - 1] == target
      ensures |stack| == |old(stack)| ==> State() == StackSpec.PopSilently(old(State()), |stack|)
      ensures |stack| < |old(stack)| ==> State() == StackSpec.AnimatePop(StackSpec.PopSilently(old(State()), |stack| + 1), p)
    {
      ghost var n0 := State();
      ghost var size := |stack|;
      var ids := IdStack.Iterator(stack);
      IdStack.IteratorAt(stack, 0);
      var current := ids[0];
      var k := 1;
      StackProperties.PopSilentlyNone(n0);
      while target != current
        invariant i < |stack| <= size && k == size - |stack| + 1
        invariant current == n0.stack[|stack| - 1]
        invariant target != current || |stack| == size ==> State() == StackSpec.PopSilently(n0, |stack|)
        invariant target == current && |stack| < size ==> State() == StackSpec.AnimatePop(StackSpec.PopSilently(n0, |stack| + 1), p)
        decreases |stack|
      {
        IdStack.IteratorAt(n0.stack, k);
        var next := ids[k];
        k := k + 1;
        var animate := next == target;
        PopStep(animate, p, n0, |stack|);
        current := next;
      }
    }

    /** One step of the popping loops, from a state that silent pops have
        reached: an animated pop with the caller's promise, or a plain pop
        with the no-op promise. */
    method PopStep(animate: bool, p: Promise, ghost n0: Nav, ghost m: nat)
      requires StackSpec.Valid(n0) && StackSpec.Idle(n0) && 2 <= m <= |n0.stack|
      requires State() == StackSpec.PopSilently(n0, m)
      modifies this
      ensures |stack| == m - 1
      ensures animate ==> State() == StackSpec.AnimatePop(StackSpec.PopSilently(n0, m), p)
      ensures !animate ==> State() == StackSpec.PopSilently(n0, m - 1)
    {
      StackProperties.PopSilentlyKeepsValid(n0, m);
      if animate {
        AnimatePop(p);
      } else {
        StackProperties.PopSilentlyStep(n0, m);
        Pop(NoOp);
      }
    }

    method PopToRoot(p: Promise)
      requires Valid() && Idle()
      modifies this
      ensures Valid()
      ensures State() == StackSpec.PopToRoot(old(State()), p)
    {
      ghost var n0 := State();
      if CanPop() {
        StackProperties.PopSilentlyNone(n0);
      }
      while CanPop()
        invariant |stack| <= |n0.stack|
        invariant CanPop() ==> State() == StackSpec.PopSilently(n0, |stack|)
        invariant !CanPop() ==> State() == StackSpec.PopToRoot(n0, p)
        decreases |stack|
      {
        var animate := Size() == 2;
        PopStep(animate, p, n0, |stack|);
      }
      StackProperties.PopToRootKeepsValid(n0, p);
    }

    method HandleBack() returns (handled: bool)
      requires Valid() && Idle()
      modifies this
      ensures Valid()
      ensures (State(), handled) == StackSpec.HandleBack(old(State()))
    {
      if CanPop() {
        AnimatePop(NoOp);
        handled := true;
      } else {
        handled := false;
      }
    }
  }
}
