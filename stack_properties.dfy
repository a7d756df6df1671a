/**
 * Properties of the stack controller's operations, proved on the values of
 * module StackSpec: every command keeps the invariant `Valid`, and what each
 * command, and each sequence of commands, leaves behind.
 */
module StackProperties {
  import opened Wrappers
  import IdStack
  import opened StackSpec

  // ---------------------------------------------------------------------
  // Every command keeps the invariant.

  lemma PushKeepsValid(n: Nav, child: Id, p: Promise)
    requires Valid(n) && Idle(n) && !IdStack.ContainsId(n.stack, child)
    ensures Valid(Push(n, child, p)) && Idle(Push(n, child, p))
  {
  }

  lemma AnimatePushKeepsValid(n: Nav, child: Id, p: Promise)
    requires Valid(n) && Idle(n) && !IdStack.ContainsId(n.stack, child)
    ensures Valid(AnimatePush(n, child, p))
    ensures Idle(AnimatePush(n, child, p)) <==> n.stack == []
  {
  }

  lemma PopKeepsValid(n: Nav, p: Promise)
    requires Valid(n) && Idle(n)
    ensures Valid(Pop(n, p)) && Idle(Pop(n, p))
  {
  }

  lemma AnimatePopKeepsValid(n: Nav, p: Promise)
    requires Valid(n) && Idle(n)
    ensures Valid(AnimatePop(n, p))
    ensures Idle(AnimatePop(n, p)) <==> !CanPop(n.stack)
  {
  }

  lemma CompleteKeepsValid(n: Nav)
    requires Valid(n) && !Idle(n)
    ensures Valid(Complete(n)) && Idle(Complete(n))
  {
  }

  lemma PopSpecificKeepsValid(n: Nav, target: Id, p: Promise)
    requires Valid(n) && Idle(n)
    ensures Valid(PopSpecific(n, target, p))
  {
    if !IdStack.IsTop(n.stack, target) && IdStack.ContainsId(n.stack, target) {
      var i := IdStack.IndexOf(n.stack, target);
      IdStack.RemoveAt(n.stack, i);
      var r := n.stack[..i] + n.stack[i + 1..];
      assert r[|r| - 1] == n.stack[|n.stack| - 1];
    }
  }

  lemma PopSilentlyKeepsValid(n: Nav, m: nat)
    requires Valid(n) && Idle(n) && 1 <= m <= |n.stack|
    ensures Valid(PopSilently(n, m)) && Idle(PopSilently(n, m))
  {
    IdStack.DistinctPrefix(n.stack, m);
  }

  lemma PopToKeepsValid(n: Nav, target: Id, p: Promise)
    requires Valid(n) && Idle(n)
    ensures Valid(PopTo(n, target, p))
  {
    if IdStack.ContainsId(n.stack, target) {
      var i := IdStack.IndexOf(n.stack, target);
      if i < |n.stack| - 1 {
        var m := PopSilently(n, i + 2);
        PopSilentlyKeepsValid(n, i + 2);
        AnimatePopKeepsValid(m, p);
        assert PopTo(n, target, p) == AnimatePop(m, p);
      }
    }
  }

  lemma PopToRootKeepsValid(n: Nav, p: Promise)
    requires Valid(n) && Idle(n)
    ensures Valid(PopToRoot(n, p))
  {
    if CanPop(n.stack) {
      PopSilentlyKeepsValid(n, 2);
      AnimatePopKeepsValid(PopSilently(n, 2), p);
    }
  }

  // ---------------------------------------------------------------------
  // Single commands.

  /** canPop holds exactly when more than the root is on the stack; when it
      fails, both pops only reject the promise and change nothing else. */
  lemma CanPopGuardsPop(n: Nav, p: Promise)
    ensures CanPop(n.stack) <==> |n.stack| > 1
    ensures CanPop(n.stack) <==> |Pop(n, p).stack| == |n.stack| - 1
    ensures !CanPop(n.stack) ==> Pop(n, p) == AnimatePop(n, p) == n.(outcomes := Reject(n.outcomes, p))
  {
  }

  /** A successful pop takes exactly the top off the stack, attaches only the
      new top's view, destroys the exiting screen once and resolves the
      promise with its id. */
  lemma PopRemovesTop(n: Nav, p: Promise)
    requires CanPop(n.stack)
    ensures var (rest, top) := IdStack.Pop(n.stack);
      && Pop(n, p).stack == rest
      && Pop(n, p).views == TopView(rest)
      && Pop(n, p).destroyed == n.destroyed + [top]
      && Pop(n, p).outcomes == Resolve(n.outcomes, p, top)
  {
  }

  /** An animated pop shrinks the stack before the animation, but leaves the
      exiting view attached, destroys nothing and settles nothing until the
      animation ends; then it has done what a plain pop does. */
  lemma AnimatePopDefersFinish(n: Nav, p: Promise)
    requires Idle(n) && CanPop(n.stack)
    ensures AnimatePop(n, p).stack == Pop(n, p).stack
    ensures AnimatePop(n, p).destroyed == n.destroyed && AnimatePop(n, p).outcomes == n.outcomes
    ensures IdStack.Top(n.stack) in AnimatePop(n, p).views
    ensures Complete(AnimatePop(n, p)) == Pop(n, p)
  {
  }

  /** An animated push onto a non-empty stack detaches nothing and settles
      nothing until its animation ends; then it has done what a plain push
      does. On an empty stack it is a plain push, with no animation. */
  lemma AnimatePushDefersFinish(n: Nav, child: Id, p: Promise)
    requires Valid(n) && Idle(n) && !IdStack.ContainsId(n.stack, child)
    ensures n.stack == [] ==> AnimatePush(n, child, p) == Push(n, child, p)
    ensures n.stack != [] ==>
      && AnimatePush(n, child, p).stack == Push(n, child, p).stack
      && AnimatePush(n, child, p).views == n.views + [child]
      && AnimatePush(n, child, p).outcomes == n.outcomes
      && Complete(AnimatePush(n, child, p)) == Push(n, child, p)
  {
  }

  /** A push keeps the screens below the child, does not destroy the screen
      it covers, and resolves with the child's id; popping right after it
      restores the stack and the attached view, destroys the child and
      resolves with the child's id. */
  lemma PushThenPop(n: Nav, child: Id, p: Promise, q: Promise)
    requires Valid(n) && Idle(n) && n.stack != [] && !IdStack.ContainsId(n.stack, child)
    ensures Push(n, child, p).stack[..|n.stack|] == n.stack
    ensures Push(n, child, p).destroyed == n.destroyed
    ensures Push(n, child, p).outcomes == Resolve(n.outcomes, p, child)
    ensures var r := Pop(Push(n, child, p), q);
      && r.stack == n.stack && r.views == n.views
      && r.destroyed == n.destroyed + [child]
      && r.outcomes == Resolve(Resolve(n.outcomes, p, child), q, child)
  {
    assert (n.stack + [child])[..|n.stack|] == n.stack;
  }

  /** popSpecific on the top is an animated pop. */
  lemma PopSpecificTop(n: Nav, target: Id, p: Promise)
    requires IdStack.IsTop(n.stack, target)
    ensures PopSpecific(n, target, p) == AnimatePop(n, p)
  {
  }

  /** popSpecific on the entry at position `i` below the top takes out that
      entry alone, keeps the others in their order, animates nothing,
      destroys it and resolves with its id. */
  lemma PopSpecificBelowTop(n: Nav, target: Id, p: Promise, i: nat)
    requires Valid(n) && Idle(n) && i < |n.stack| - 1 && n.stack[i] == target
    ensures var r := PopSpecific(n, target, p);
      && r.stack == n.stack[..i] + n.stack[i + 1..]
      && Idle(r) && r.views == n.views
      && r.destroyed == n.destroyed + [target]
      && r.outcomes == Resolve(n.outcomes, p, target)
  {
    IdStack.RemoveAt(n.stack, i);
    assert n.stack[..|n.stack| - 1][i] == target;
    var r := n.stack[..i] + n.stack[i + 1..];
    assert r[|r| - 1] == n.stack[|n.stack| - 1];
  }

  /** handleBack reports canPop, and when it holds performs exactly one
      animated pop, whose promise is the no-op one. */
  lemma HandleBackIsOneAnimatedPop(n: Nav)
    ensures HandleBack(n).1 == CanPop(n.stack)
    ensures !CanPop(n.stack) ==> HandleBack(n).0 == n
    ensures CanPop(n.stack) ==>
      && HandleBack(n).0.stack == n.stack[..|n.stack| - 1]
      && HandleBack(n).0.pending == Some(PopDone(IdStack.Top(n.stack), NoOp))
      && HandleBack(n).0.outcomes == n.outcomes
      && Complete(HandleBack(n).0).outcomes == n.outcomes
  {
  }

  // ---------------------------------------------------------------------
  // Runs of pops.

  /** `k` unanimated pops in a row, each with the no-op promise. */
  function PopTimes(n: Nav, k: nat): Nav {
    if k == 0 then n else Pop(PopTimes(n, k - 1), NoOp)
  }

  /** One more unanimated pop below a silent run of pops. */
  lemma PopSilentlyStep(n: Nav, m: nat)
    requires 2 <= m <= |n.stack|
    ensures Pop(PopSilently(n, m), NoOp) == PopSilently(n, m - 1)
  {
    IdStack.IteratorFrom(n.stack, m - 1);
    assert n.stack[..m][..m - 1] == n.stack[..m - 1];
  }

  /** A silent run of pops that pops nothing is the identity. */
  lemma PopSilentlyNone(n: Nav)
    requires Settled(n) && n.stack != []
    ensures PopSilently(n, |n.stack|) == n
  {
    assert n.stack[..|n.stack|] == n.stack;
    assert n.destroyed + IdStack.Iterator([]) == n.destroyed;
  }

  /** `k` unanimated pops leave the `|stack| - k` lowest entries and destroy
      the ones above them, top first. */
  lemma {:induction false} PopTimesSilently(n: Nav, k: nat)
    requires Settled(n) && k < |n.stack|
    ensures PopTimes(n, k) == PopSilently(n, |n.stack| - k)
  {
    if k == 0 {
      PopSilentlyNone(n);
    } else {
      PopTimesSilently(n, k - 1);
      PopSilentlyStep(n, |n.stack| - k + 1);
      assert PopTimes(n, k) == Pop(PopTimes(n, k - 1), NoOp);
    }
  }

  /** popTo on the id at position `i` below the top is a run of unanimated
      pops down to the entry just above the target, then one animated pop. */
  lemma PopToIsSilentThenAnimated(n: Nav, target: Id, p: Promise, i: nat)
    requires Valid(n) && i < |n.stack| - 1 && n.stack[i] == target
    ensures PopTo(n, target, p) == AnimatePop(PopSilently(n, i + 2), p)
  {
    IdStack.IndexOfAt(n.stack, i);
  }

  /** popTo on the id at position `i` below the top, as its loop performs it:
      one plain pop with the no-op promise for every screen above the one
      just over the target, then one animated pop with the caller's promise. */
  lemma PopToIsPopsThenAnimated(n: Nav, target: Id, p: Promise, i: nat)
    requires Settled(n) && IdStack.Distinct(n.stack) && i < |n.stack| - 1 && n.stack[i] == target
    ensures PopTo(n, target, p) == AnimatePop(PopTimes(n, |n.stack| - i - 2), p)
  {
    var k := |n.stack| - i - 2;
    PopTimesSilently(n, k);
    assert PopTimes(n, k) == PopSilently(n, i + 2);
    PopToIsSilentThenAnimated(n, target, p, i);
  }

  /** popTo on an id that is not in the stack only rejects the promise; on the
      id on top it does nothing and never settles the promise. */
  lemma PopToWithoutPops(n: Nav, target: Id, p: Promise)
    ensures !IdStack.ContainsId(n.stack, target) ==>
      PopTo(n, target, p) == n.(outcomes := Reject(n.outcomes, p))
    ensures IdStack.IsTop(n.stack, target) ==> PopTo(n, target, p) == n
  {
  }

  /** popTo on the id at position `i` below the top: the target ends on top
      and is not destroyed, every screen above it is destroyed top first, and
      only the pop that uncovers the target is animated, with the caller's
      promise. */
  lemma PopToLandsOnTarget(n: Nav, target: Id, p: Promise, i: nat)
    requires Valid(n) && i < |n.stack| - 1 && n.stack[i] == target
    ensures var r := PopTo(n, target, p);
      && r.stack == n.stack[..i + 1] && IdStack.Top(r.stack) == target
      && r.pending == Some(PopDone(n.stack[i + 1], p))
      && r.destroyed == n.destroyed + IdStack.Iterator(n.stack[i + 2..])
      && target !in IdStack.Iterator(n.stack[i + 2..])
      && r.outcomes == n.outcomes
  {
    var s := n.stack;
    PopToIsSilentThenAnimated(n, target, p, i);
    assert s[..i + 2][..i + 1] == s[..i + 1];
    var above := IdStack.Iterator(s[i + 2..]);
    IdStack.DistinctIndices(s);
    forall k | 0 <= k < |above| ensures above[k] != target {
      IdStack.IteratorAt(s[i + 2..], k);
    }
  }

  /** When the animation of popTo ends, the target's view alone is attached,
      the screen that lay just above the target is destroyed too, and the
      caller's promise is settled once, with that screen's id. */
  lemma PopToCompletes(n: Nav, target: Id, p: Promise, i: nat)
    requires Valid(n) && i < |n.stack| - 1 && n.stack[i] == target
    ensures var r := Complete(PopTo(n, target, p));
      && r.stack == n.stack[..i + 1]
      && r.views == [target]
      && r.destroyed == n.destroyed + IdStack.Iterator(n.stack[i + 1..])
      && r.outcomes == Resolve(n.outcomes, p, n.stack[i + 1])
  {
    PopToLandsOnTarget(n, target, p, i);
    IdStack.IteratorFrom(n.stack, i + 1);
  }

  /** popToRoot on a stack above its root: exactly the root is left, the
      screens above it are destroyed top first, and only the last pop is
      animated; the caller's promise is settled exactly once, when that
      animation ends. On the root alone it does nothing and never settles the
      promise. */
  lemma PopToRootLeavesRoot(n: Nav, p: Promise)
    ensures !CanPop(n.stack) ==> PopToRoot(n, p) == n
    ensures CanPop(n.stack) ==>
      var r := PopToRoot(n, p);
      && r.stack == [n.stack[0]]
      && r.pending == Some(PopDone(n.stack[1], p))
      && r.destroyed == n.destroyed + IdStack.Iterator(n.stack[2..])
      && r.outcomes == n.outcomes
      && Complete(r).views == [n.stack[0]]
      && Complete(r).destroyed == n.destroyed + IdStack.Iterator(n.stack[1..])
      && Complete(r).outcomes == Resolve(n.outcomes, p, n.stack[1])
  {
    if CanPop(n.stack) {
      IdStack.IteratorFrom(n.stack, 1);
    }
  }

  /** popToRoot is popTo aimed at the root. */
  lemma PopToRootIsPopToFirst(n: Nav, p: Promise)
    requires Valid(n) && n.stack != []
    ensures PopToRoot(n, p) == PopTo(n, n.stack[0], p)
  {
    IdStack.IndexOfAt(n.stack, 0);
  }

  /** No operation of the pop family empties the stack or removes its root. */
  lemma RootSurvives(n: Nav, target: Id, p: Promise)
    requires Valid(n) && n.stack != []
    ensures Pop(n, p).stack != [] && Pop(n, p).stack[0] == n.stack[0]
    ensures AnimatePop(n, p).stack != [] && AnimatePop(n, p).stack[0] == n.stack[0]
    ensures PopTo(n, target, p).stack != [] && PopTo(n, target, p).stack[0] == n.stack[0]
    ensures PopToRoot(n, p).stack == (if CanPop(n.stack) then [n.stack[0]] else n.stack)
    ensures HandleBack(n).0.stack != [] && HandleBack(n).0.stack[0] == n.stack[0]
  {
  }

  // ---------------------------------------------------------------------
  // Runs of pushes.

  /** Plain pushes of `ids`, first to last, all with the same promise. */
  function PushAll(n: Nav, ids: seq<Id>, p: Promise): (r: Nav)
    requires IdStack.Distinct(ids) && forall x :: x in ids ==> x !in n.stack
    ensures r.stack == n.stack + ids && r.destroyed == n.destroyed && r.pending == n.pending
    ensures ids != [] ==> r.views == [ids[|ids| - 1]]
    ensures ids == [] ==> r == n
    decreases |ids|
  {
    if ids == [] then n
    else
      var earlier, last := ids[..|ids| - 1], ids[|ids| - 1];
      assert ids == earlier + [last];
      var m := PushAll(n, earlier, p);
      Push(m, last, p)
  }

  /** Pushing distinct new screens keeps the invariant. */
  lemma {:induction false} PushAllKeepsValid(n: Nav, ids: seq<Id>, p: Promise)
    requires Valid(n) && Idle(n)
    requires IdStack.Distinct(ids) && forall x :: x in ids ==> x !in n.stack
    ensures Valid(PushAll(n, ids, p)) && Idle(PushAll(n, ids, p))
    decreases |ids|
  {
    if ids != [] {
      var earlier, last := ids[..|ids| - 1], ids[|ids| - 1];
      assert ids == earlier + [last];
      PushAllKeepsValid(n, earlier, p);
      PushKeepsValid(PushAll(n, earlier, p), last, p);
    }
  }

  /** Pushing distinct new screens and then popping as many times restores
      the stack and the attached view, and destroys the pushed screens, last
      pushed first. */
  lemma PushAllThenPopAll(n: Nav, ids: seq<Id>, p: Promise)
    requires Settled(n) && n.stack != [] && IdStack.Distinct(ids)
    requires forall x :: x in ids ==> x !in n.stack
    ensures var r := PopTimes(PushAll(n, ids, p), |ids|);
      r.stack == n.stack && r.views == n.views && r.destroyed == n.destroyed + IdStack.Iterator(ids)
  {
    var m := PushAll(n, ids, p);
    PopTimesSilently(m, |ids|);
    assert m.stack[..|n.stack|] == n.stack;
    assert m.stack[|n.stack|..] == ids;
  }

  /** Pushing N distinct screens onto an empty stack and popping N - 1 times
      leaves exactly the first one pushed, the root. */
  lemma RoundTripLeavesRoot(n: Nav, ids: seq<Id>, p: Promise)
    requires Settled(n) && n.stack == [] && ids != [] && IdStack.Distinct(ids)
    ensures PopTimes(PushAll(n, ids, p), |ids| - 1).stack == [ids[0]]
  {
    var m := PushAll(n, ids, p);
    assert m.stack == ids;
    PopTimesSilently(m, |ids| - 1);
    assert ids[..1] == [ids[0]];
  }
}
