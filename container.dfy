/**
 * The screen views attached to the stack's layout, in drawing order: the last
 * view is drawn on top of the others. A view is named by the id of the screen
 * that owns it. Only the layout operations the stack controller calls are
 * modelled; the top bar and the other chrome of the layout are not.
 */
module Container {
  import opened IdStack

  /** Position of `v` among the attached views, or -1 when it is not attached. */
  function IndexOfChild(views: seq<Id>, v: Id): (i: int)
    ensures -1 <= i < |views|
    ensures i == -1 <==> v !in views
    ensures 0 <= i ==> views[i] == v
  {
    if views == [] then -1
    else if views[0] == v then 0
    else
      var i := IndexOfChild(views[1..], v);
      if i == -1 then -1 else i + 1
  }

  /** Attaches `v` at `index`, drawn beneath the views from that position on;
      a negative index attaches it on top of all of them. A view that already
      has a parent cannot be attached again. */
  function AddViewAt(views: seq<Id>, v: Id, index: int): (r: seq<Id>)
    requires v !in views && index <= |views|
    ensures |r| == |views| + 1 && r[if index < 0 then |views| else index] == v
  {
    if index < 0 then views + [v] else views[..index] + [v] + views[index..]
  }

  /** Attaches `v` on top of every attached view, filling the layout. */
  function AddView(views: seq<Id>, v: Id): (r: seq<Id>)
    requires v !in views
    ensures |r| == |views| + 1 && r[|views|] == v
  {
    AddViewAt(views, v, -1)
  }

  /** Detaches `v`; detaching a view that is not attached changes nothing. */
  function RemoveView(views: seq<Id>, v: Id): (r: seq<Id>)
    ensures v !in r
    ensures v !in views ==> r == views
  {
    if views == [] then []
    else
      (if views[0] == v then [] else [views[0]]) + RemoveView(views[1..], v)
  }

  /** After attaching `v` at `index`, the layout finds it there; a negative
      index puts it above every other view. */
  lemma AddViewAtIndex(views: seq<Id>, v: Id, index: int)
    requires v !in views && index <= |views|
    ensures IndexOfChild(AddViewAt(views, v, index), v) == (if index < 0 then |views| else index)
  {
    var r := AddViewAt(views, v, index);
    var i := if index < 0 then |views| else index;
    assert forall k :: 0 <= k < |r| && k != i ==> r[k] in views;
    IndexOfChildFirst(r, v, i);
  }

  /** The layout finds a view at its only position. */
  lemma {:induction false} IndexOfChildFirst(views: seq<Id>, v: Id, i: nat)
    requires i < |views| && views[i] == v
    requires forall k :: 0 <= k < |views| && k != i ==> views[k] != v
    ensures IndexOfChild(views, v) == i
  {
    if i > 0 {
      IndexOfChildFirst(views[1..], v, i - 1);
    }
  }

  /** Detaching a view from two runs of views detaches it from each run. */
  lemma {:induction false} RemoveViewConcat(a: seq<Id>, b: seq<Id>, v: Id)
    ensures RemoveView(a + b, v) == RemoveView(a, v) + RemoveView(b, v)
  {
    if a == [] {
      assert a + b == b;
    } else {
      assert (a + b)[0] == a[0];
      assert (a + b)[1..] == a[1..] + b;
      RemoveViewConcat(a[1..], b, v);
    }
  }

  /** Detaching a view that was just attached, at any position, restores the
      views as they were. */
  lemma RemoveAfterAdd(views: seq<Id>, v: Id, index: int)
    requires v !in views && index <= |views|
    ensures RemoveView(AddViewAt(views, v, index), v) == views
  {
    assert RemoveView([v], v) == [] by {
      assert [v][1..] == [];
    }
    if index < 0 {
      RemoveViewConcat(views, [v], v);
      assert views + [] == views;
    } else {
      var front, back := views[..index], views[index..];
      assert views == front + back;
      assert v !in front && v !in back;
      assert AddViewAt(views, v, index) == front + ([v] + back);
      RemoveViewConcat(front, [v] + back, v);
      RemoveViewConcat([v], back, v);
      assert RemoveView([v] + back, v) == back;
      assert RemoveView(front, v) == front;
    }
  }

  /** Detaching either of two attached views leaves the other one alone. */
  lemma DetachFromPair(below: Id, above: Id)
    requires below != above
    ensures RemoveView([below, above], below) == [above]
    ensures RemoveView([below, above], above) == [below]
  {
    assert [below, above][1..] == [above];
    assert [above][1..] == [];
  }

  /** Attaching a view at the position of the only attached view draws it
      beneath that view. */
  lemma AttachBeneath(above: Id, below: Id)
    requires below != above
    ensures IndexOfChild([above], above) == 0
    ensures AddViewAt([above], below, 0) == [below, above]
  {
  }
}
