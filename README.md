# Stack controller of react-native-navigation (Android), modelled in Dafny

The stack controller is the navigation container that keeps a last-in,
first-out stack of screens, each keyed by a unique id. It attaches and detaches
the screens' views in its layout and destroys the screens it pops. It settles
the promise that each navigation command is given.
This project models its navigation state machine:
- push and animated push;
- pop and animated pop, with their shared helpers popInternal and
  finishPopping;
- the canPop guard;
- popSpecific, popTo, popToRoot and handleBack;
- the read-only accessors peek, size and isEmpty.

The model is laid out in five modules:

- `IdStack` (`idstack.dfy`) is the id-keyed stack on values: `seq<Id>` with
  the root first. It covers peek, push, pop, remove, containsId, isTop, size,
  isEmpty and the iterator that popTo walks. Uniqueness of ids is the
  predicate `Distinct`.
- `Container` (`container.dfy`) is the layout's list of attached views, in
  drawing order, named by the ids of the screens that own them. It covers
  `addView`, `addView` at an index, `indexOfChild` and `removeView`.
- `StackSpec` (`stack_spec.dfy`) says what every command does, as total
  functions on a state value `Nav`. `Nav` holds the stack, the attached views,
  the screens destroyed so far (in order), the log of promise settlements and
  the completion the animator holds. It also defines the invariant `Valid`.
- `StackProperties` (`stack_properties.dfy`) proves properties of those
  functions:
  - every command keeps `Valid`;
  - what each command leaves behind;
  - how animated commands finish;
  - popTo and popToRoot as runs of pops;
  - round trips of pushes and pops.
- `ViewControllers` (`stack_controller.dfy`) holds the class
  `StackController`. Its fields are the parts of `Nav`, and its methods change
  them step by step as the Java methods do. The popTo and popToRoot loops are
  written as loops. Every command (push, animatePush, pop, animatePop,
  completeAnimation, popSpecific, popTo, popToRoot, handleBack) is proved to
  leave exactly the state that `StackSpec` gives for it, and to keep `Valid`.
  The helpers state their own effect:
  - popInternal and finishPopping say which fields they change, through the
    layout functions of `Container`, and that nothing else changes.
  - `PopStep` (one step of the popping loops) and `PopDownTo` (the loop of
    popTo) say where they leave the state, through the functions of
    `StackSpec`.

The animator is modelled as the `pending` field. An animated command stores the
continuation it would hand to the animator, and `CompleteAnimation` plays the
animator running it when the transition ends. A promise is either `NoOp` (the
shared no-op promise) or `Caller(token)`; only settlements of callers' promises
are logged.

Three behaviours of the code are easy to misread; the model follows the code:

- popToRoot passes the no-op promise to every pop but the last one
  (`StackController.java:207`). The caller's promise is therefore settled
  exactly once, when the final animated pop ends, not once per pop.
- popTo settles the caller's promise through `animatePop`, which resolves
  with the id of the screen it pops. The promise therefore resolves with the
  id of the screen just above the target, not with the target's own id
  (`StackController.java:193`, `StackController.java:168`).
- popTo compares the first id from the stack's iterator with the target and
  then pops once per further id. This only reaches the target if the iterator
  yields the ids from the top down, so the model's iterator does that.

A few more consequences of the code, which the model keeps:

- popSpecific on an id that is not in the stack still destroys that screen
  and resolves the promise with its id.
- popSpecific on a non-top id can remove the root.
- popTo on the id already on top, and popToRoot on a stack holding only its
  root, do nothing and never settle the promise.

## Model

| member | source | states |
|---|---|---|
| IdStack.Peek | lib/android/app/src/main/java/com/reactnativenavigation/viewcontrollers/StackController.java:95 | peek is empty exactly on an empty stack; otherwise it returns the top entry, the last one pushed |
| IdStack.IsTop | lib/android/app/src/main/java/com/reactnativenavigation/viewcontrollers/StackController.java:172 | an id is on top exactly when peek returns it |
| IdStack.Push | lib/android/app/src/main/java/com/reactnativenavigation/viewcontrollers/StackController.java:98 | push of a new id makes it the top, leaves every entry below it unchanged, and keeps ids unique |
| IdStack.Pop | lib/android/app/src/main/java/com/reactnativenavigation/viewcontrollers/StackController.java:132 | pop returns the top and the rest, which rebuild the stack; with unique ids the popped id is no longer in the rest |
| IdStack.Remove | lib/android/app/src/main/java/com/reactnativenavigation/viewcontrollers/StackController.java:175 | remove takes the id out and keeps every other id; an absent id leaves the stack as it was; uniqueness is kept |
| IdStack.RemoveAt | lib/android/app/src/main/java/com/reactnativenavigation/viewcontrollers/StackController.java:175 | with unique ids, removing the entry at position i leaves the others in their relative order |
| IdStack.Iterator | lib/android/app/src/main/java/com/reactnativenavigation/viewcontrollers/StackController.java:187 | the iterator yields one id per entry of the stack |
| IdStack.IteratorAt | lib/android/app/src/main/java/com/reactnativenavigation/viewcontrollers/StackController.java:187-190 | the k-th id the iterator yields is the k-th entry from the top |
| IdStack.IteratorFrom | lib/android/app/src/main/java/com/reactnativenavigation/viewcontrollers/StackController.java:187-190 | iterating a run of entries yields the entries above its lowest one, then that lowest one |
| IdStack.IndexOf | lib/android/app/src/main/java/com/reactnativenavigation/viewcontrollers/StackController.java:182 | an id that containsId finds is at the position returned |
| IdStack.IndexOfAt | lib/android/app/src/main/java/com/reactnativenavigation/viewcontrollers/StackController.java:182 | with unique ids, the search finds each entry at its own position |
| IdStack.PopPush | lib/android/app/src/main/java/com/reactnativenavigation/viewcontrollers/StackController.java:132-133 | pop right after push returns the pushed id and the stack as it was, and peek sees the pushed id |
| IdStack.PushPop | lib/android/app/src/main/java/com/reactnativenavigation/viewcontrollers/StackController.java:132-133 | peek returns the id pop would remove, and pushing back what pop removed rebuilds the stack |
| IdStack.DistinctIndices | lib/android/app/src/main/java/com/reactnativenavigation/viewcontrollers/StackController.java:29 | unique ids (the stack's keys) holds exactly when no two positions hold the same id |
| Container.IndexOfChild | lib/android/app/src/main/java/com/reactnativenavigation/viewcontrollers/StackController.java:157 | indexOfChild is -1 exactly for a view that is not attached; otherwise the view is at that position |
| Container.AddViewAt | lib/android/app/src/main/java/com/reactnativenavigation/viewcontrollers/StackController.java:157 | attaching at an index adds one view there; a negative index adds it on top |
| Container.AddView | lib/android/app/src/main/java/com/reactnativenavigation/viewcontrollers/StackController.java:100 | addView adds one view, on top of the others |
| Container.RemoveView | lib/android/app/src/main/java/com/reactnativenavigation/viewcontrollers/StackController.java:103 | after removeView the view is not attached; removing a view that is not attached changes nothing |
| Container.AddViewAtIndex | lib/android/app/src/main/java/com/reactnativenavigation/viewcontrollers/StackController.java:157 | after attaching a view at an index, indexOfChild finds it there (above all views for a negative index) |
| Container.RemoveAfterAdd | lib/android/app/src/main/java/com/reactnativenavigation/viewcontrollers/StackController.java:166 | detaching a view just attached, at any index, restores the attached views |
| Container.AttachBeneath | lib/android/app/src/main/java/com/reactnativenavigation/viewcontrollers/StackController.java:157 | re-inserting the entering view at the exiting view's index draws it just beneath the exiting view |
| Container.DetachFromPair | lib/android/app/src/main/java/com/reactnativenavigation/viewcontrollers/StackController.java:166 | detaching either of two attached views leaves the other one alone |
| StackProperties.PushKeepsValid | lib/android/app/src/main/java/com/reactnativenavigation/viewcontrollers/StackController.java:94-106 | push keeps ids unique and leaves only the new top's view attached, with no animation pending |
| StackProperties.AnimatePushKeepsValid | lib/android/app/src/main/java/com/reactnativenavigation/viewcontrollers/StackController.java:108-124 | animatePush keeps the invariant; it leaves an animation pending exactly when the stack was not empty |
| StackProperties.PopKeepsValid | lib/android/app/src/main/java/com/reactnativenavigation/viewcontrollers/StackController.java:126-137 | pop keeps the invariant and leaves no animation pending |
| StackProperties.AnimatePopKeepsValid | lib/android/app/src/main/java/com/reactnativenavigation/viewcontrollers/StackController.java:139-151 | animatePop keeps the invariant; it leaves an animation pending exactly when canPop held |
| StackProperties.CompleteKeepsValid | lib/android/app/src/main/java/com/reactnativenavigation/viewcontrollers/StackController.java:149-150 | running an animation's completion (push's or pop's) restores the invariant with nothing pending |
| StackProperties.PopSpecificKeepsValid | lib/android/app/src/main/java/com/reactnativenavigation/viewcontrollers/StackController.java:171-179 | popSpecific keeps the invariant, for any target |
| StackProperties.PopSilentlyKeepsValid | lib/android/app/src/main/java/com/reactnativenavigation/viewcontrollers/StackController.java:194-196 | a run of plain pops keeps the invariant and leaves nothing pending |
| StackProperties.PopToKeepsValid | lib/android/app/src/main/java/com/reactnativenavigation/viewcontrollers/StackController.java:181-199 | popTo keeps the invariant, for any target |
| StackProperties.PopToRootKeepsValid | lib/android/app/src/main/java/com/reactnativenavigation/viewcontrollers/StackController.java:201-210 | popToRoot keeps the invariant |
| StackProperties.CanPopGuardsPop | lib/android/app/src/main/java/com/reactnativenavigation/viewcontrollers/StackController.java:161-163 | canPop holds exactly when more than one screen is on the stack, which is exactly when pop shrinks it; otherwise both pops only reject the promise |
| StackProperties.PopRemovesTop | lib/android/app/src/main/java/com/reactnativenavigation/viewcontrollers/StackController.java:126-137 | a pop takes exactly the top off, attaches the new top's view alone, destroys the exiting screen and resolves with its id |
| StackProperties.AnimatePopDefersFinish | lib/android/app/src/main/java/com/reactnativenavigation/viewcontrollers/StackController.java:139-151 | animatePop shrinks the stack at once but keeps the exiting view attached and destroys and settles nothing; after the animation it equals pop |
| StackProperties.AnimatePushDefersFinish | lib/android/app/src/main/java/com/reactnativenavigation/viewcontrollers/StackController.java:108-124 | animatePush on an empty stack is push; otherwise both views stay attached, nothing is settled until the animation ends, and then it equals push |
| StackProperties.PushThenPop | lib/android/app/src/main/java/com/reactnativenavigation/viewcontrollers/StackController.java:94-137 | push keeps the entries below and destroys nothing; pop right after restores stack and views, destroys the child and resolves with the child's id |
| StackProperties.PopSpecificTop | lib/android/app/src/main/java/com/reactnativenavigation/viewcontrollers/StackController.java:172-173 | popSpecific on the top is animatePop |
| StackProperties.PopSpecificBelowTop | lib/android/app/src/main/java/com/reactnativenavigation/viewcontrollers/StackController.java:174-178 | popSpecific below the top removes that entry alone, keeps the order of the rest, animates nothing, destroys it and resolves with its id |
| StackProperties.HandleBackIsOneAnimatedPop | lib/android/app/src/main/java/com/reactnativenavigation/viewcontrollers/StackController.java:224-231 | handleBack returns canPop; when it holds it does one animatePop with the no-op promise, which settles no caller promise |
| StackProperties.PopSilentlyStep | lib/android/app/src/main/java/com/reactnativenavigation/viewcontrollers/StackController.java:194-196 | one more plain pop with the no-op promise extends a run of plain pops by one entry |
| StackProperties.PopSilentlyNone | lib/android/app/src/main/java/com/reactnativenavigation/viewcontrollers/StackController.java:189 | a run of plain pops that pops nothing leaves the state as it was |
| StackProperties.PopTimesSilently | lib/android/app/src/main/java/com/reactnativenavigation/viewcontrollers/StackController.java:194-196 | k plain pops leave the lowest entries, attach the new top's view and destroy the popped screens top first |
| StackProperties.PopToIsSilentThenAnimated | lib/android/app/src/main/java/com/reactnativenavigation/viewcontrollers/StackController.java:187-198 | popTo on an entry below the top is plain pops down to the entry above the target, then one animated pop |
| StackProperties.PopToIsPopsThenAnimated | lib/android/app/src/main/java/com/reactnativenavigation/viewcontrollers/StackController.java:187-198 | popTo equals its loop: one plain no-op pop per screen above the one over the target, then animatePop with the caller's promise |
| StackProperties.PopToWithoutPops | lib/android/app/src/main/java/com/reactnativenavigation/viewcontrollers/StackController.java:181-189 | popTo on an absent id only rejects the promise; on the top id it changes nothing and settles nothing |
| StackProperties.PopToLandsOnTarget | lib/android/app/src/main/java/com/reactnativenavigation/viewcontrollers/StackController.java:181-199 | after popTo the target is on top and survives, the screens above it are destroyed top first, and only the last pop is animated, with the caller's promise |
| StackProperties.PopToCompletes | lib/android/app/src/main/java/com/reactnativenavigation/viewcontrollers/StackController.java:181-199 | when popTo's animation ends only the target's view is attached, every screen above it is destroyed, and the promise resolved once with the id of the screen just above the target |
| StackProperties.PopToRootLeavesRoot | lib/android/app/src/main/java/com/reactnativenavigation/viewcontrollers/StackController.java:201-210 | popToRoot leaves exactly the root, destroys the rest top first, animates only the last pop and settles the promise once; on the root alone it does nothing |
| StackProperties.PopToRootIsPopToFirst | lib/android/app/src/main/java/com/reactnativenavigation/viewcontrollers/StackController.java:201-210 | popToRoot equals popTo aimed at the root |
| StackProperties.RootSurvives | lib/android/app/src/main/java/com/reactnativenavigation/viewcontrollers/StackController.java:161-163 | pop, animatePop, popTo, popToRoot and handleBack never empty the stack or remove its root |
| StackProperties.PushAll | lib/android/app/src/main/java/com/reactnativenavigation/viewcontrollers/StackController.java:94-106 | pushes of new ids append them to the stack in order, destroy nothing and leave the last one's view alone attached |
| StackProperties.PushAllKeepsValid | lib/android/app/src/main/java/com/reactnativenavigation/viewcontrollers/StackController.java:94-106 | pushing distinct new screens keeps the invariant |
| StackProperties.PushAllThenPopAll | lib/android/app/src/main/java/com/reactnativenavigation/viewcontrollers/StackController.java:94-137 | pushing screens and then popping as many times restores stack and views and destroys the pushed screens, last pushed first |
| StackProperties.RoundTripLeavesRoot | lib/android/app/src/main/java/com/reactnativenavigation/viewcontrollers/StackController.java:94-137 | pushing N screens onto an empty stack and popping N - 1 times leaves the first one pushed |
| ViewControllers.StackController.constructor | lib/android/app/src/main/java/com/reactnativenavigation/viewcontrollers/StackController.java:29 | a new controller has an empty stack, nothing attached, destroyed or settled, and keeps the invariant |
| ViewControllers.StackController.Push | lib/android/app/src/main/java/com/reactnativenavigation/viewcontrollers/StackController.java:94-106 | push changes the fields exactly as the push function on states does, and keeps the invariant |
| ViewControllers.StackController.AnimatePush | lib/android/app/src/main/java/com/reactnativenavigation/viewcontrollers/StackController.java:108-124 | animatePush changes the fields exactly as the animated push function does, and keeps the invariant |
| ViewControllers.StackController.Pop | lib/android/app/src/main/java/com/reactnativenavigation/viewcontrollers/StackController.java:126-137 | pop changes the fields exactly as the pop function does, and keeps the invariant with nothing pending |
| ViewControllers.StackController.AnimatePop | lib/android/app/src/main/java/com/reactnativenavigation/viewcontrollers/StackController.java:139-151 | animatePop changes the fields exactly as the animated pop function does, and keeps the invariant |
| ViewControllers.StackController.PopInternal | lib/android/app/src/main/java/com/reactnativenavigation/viewcontrollers/StackController.java:153-159 | popInternal attaches the appearing view at the disappearing view's index and changes nothing else |
| ViewControllers.StackController.FinishPopping | lib/android/app/src/main/java/com/reactnativenavigation/viewcontrollers/StackController.java:165-169 | finishPopping detaches the exiting view, records the screen as destroyed, resolves the promise with its id and changes nothing else |
| ViewControllers.StackController.CompleteAnimation | lib/android/app/src/main/java/com/reactnativenavigation/viewcontrollers/StackController.java:149-150 | running the pending completion (push's, lines 117-120, or pop's) gives the completed state and restores the invariant with nothing pending |
| ViewControllers.StackController.PopSpecific | lib/android/app/src/main/java/com/reactnativenavigation/viewcontrollers/StackController.java:171-179 | popSpecific changes the fields exactly as the popSpecific function does, and keeps the invariant |
| ViewControllers.StackController.PopTo | lib/android/app/src/main/java/com/reactnativenavigation/viewcontrollers/StackController.java:181-199 | popTo changes the fields exactly as the popTo function does, and keeps the invariant |
| ViewControllers.StackController.PopDownTo | lib/android/app/src/main/java/com/reactnativenavigation/viewcontrollers/StackController.java:187-198 | the loop of popTo stops with the target on top, after plain pops and one animated pop whenever it popped at all |
| ViewControllers.StackController.PopStep | lib/android/app/src/main/java/com/reactnativenavigation/viewcontrollers/StackController.java:191-196 | one loop step is animatePop with the caller's promise or a plain pop with the no-op promise, each taking one entry off |
| ViewControllers.StackController.PopToRoot | lib/android/app/src/main/java/com/reactnativenavigation/viewcontrollers/StackController.java:201-210 | popToRoot's loop changes the fields exactly as the popToRoot function does, and keeps the invariant |
| ViewControllers.StackController.HandleBack | lib/android/app/src/main/java/com/reactnativenavigation/viewcontrollers/StackController.java:224-231 | handleBack reports canPop and changes the fields exactly as the handleBack function does |

The controller's `Peek`, `Size`, `IsEmpty` and `CanPop` read the stack through
`IdStack.Peek`, `IdStack.Size`, `IdStack.IsEmpty` and `StackSpec.CanPop`
(`StackController.java:161-163`, `StackController.java:212-222`).

The controller rows say "the push function", "the popTo function" and so on.
Those are the functions of module `StackSpec`: `Push`, `AnimatePush`, `Pop`,
`AnimatePop`, `Complete`, `PopSpecific`, `PopTo`, `PopToRoot` and `HandleBack`.
`StackSpec.PopSilently` is the closed form of a run of plain pops, and
`StackProperties.PopTimes` is the same run as k single pops. These functions
carry no contracts of their own; the `StackProperties` rows above state what
they do.

## Left out

- Options handling is not modelled: applyOptions, applyChildOptions and mergeChildOptions (lines 45-80), the FAB presenter and the animator's options. None of them changes the stack.
- The top bar, top tabs, navigation-button dispatch, createView and the test accessors (lines 82-92 and 233-272) are not modelled. They do not affect navigation state.
- Screens are modelled by their ids only. setParentController, the view lifecycle callbacks (onViewWillAppear, onViewWillDisappear) and what destroying a screen does inside it are not modelled; a destroyed screen is recorded in the `destroyed` log.
- The layout's onChildWillDisappear hook is taken to run its continuation at once. Its transition and the animator's own animation are not modelled; an animation is only the `pending` completion.
- The mechanics of the promises (the bridge, the rejection's error code and message) are not modelled. A settlement is a log entry, and the no-op promise logs nothing.
- IdStack.java is not part of this model. The id-keyed map of controllers is modelled as the sequence of ids. The iterator is taken to yield ids from the top down, as a snapshot taken when popTo starts.
- ViewControllers.StackController.Push: requires that the child's id is not already in the stack. What IdStack does with a duplicate id is not visible here.
- ViewControllers.StackController.Pop: every command requires that no animation is running (`Idle`). Issuing a command while one runs, or running several UI threads, is not modelled; the component leaves both undefined.
- IdStack.Iterator: its own contract states only the length. The order it yields is stated by IdStack.IteratorAt and IdStack.IteratorFrom.
