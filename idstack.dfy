/**
 * The id-keyed LIFO of screens that backs a stack controller.
 *
 * A stack is modelled by the ids of its screens, the root (bottom) first and
 * the top last. Ids are unique within one stack: pushing an id that is already
 * present is a contract violation of the caller.
 */
module IdStack {
  import opened Wrappers

  type Id = string

  /** No id occurs twice in the stack: the top is not among the entries
      below it, and those are distinct in turn. */
  predicate Distinct(s: seq<Id>) {
    s == [] || (s[|s| - 1] !in s[..|s| - 1] && Distinct(s[..|s| - 1]))
  }

  predicate ContainsId(s: seq<Id>, id: Id) {
    id in s
  }

  function Size(s: seq<Id>): nat {
    |s|
  }

  predicate IsEmpty(s: seq<Id>) {
    s == []
  }

  /** The entry on top of a non-empty stack: the last one pushed. */
  function Top(s: seq<Id>): Id
    requires s != []
  {
    s[|s| - 1]
  }

  /** The top of the stack, or `None` on an empty stack. */
  function Peek(s: seq<Id>): (r: Option<Id>)
    ensures r.None? <==> IsEmpty(s)
    ensures r.Some? ==> ContainsId(s, r.value)
    ensures s != [] ==> r == Some(s[|s| - 1])
  {
    if s == [] then None else Some(Top(s))
  }

  /** True when `id` is on top of the stack. */
  predicate IsTop(s: seq<Id>, id: Id)
    ensures IsTop(s, id) <==> Peek(s) == Some(id)
  {
    s != [] && s[|s| - 1] == id
  }

  /** Adds `id` as the new top; everything below is kept as it was. */
  function Push(s: seq<Id>, id: Id): (r: seq<Id>)
    requires !ContainsId(s, id)
    ensures |r| == |s| + 1 && r[..|s|] == s && r[|s|] == id
    ensures Distinct(s) ==> Distinct(r)
  {
    assert (s + [id])[..|s|] == s;
    s + [id]
  }

  /** Removes the top and returns it together with the rest of the stack. */
  function Pop(s: seq<Id>): (r: (seq<Id>, Id))
    requires s != []
    ensures r.0 + [r.1] == s
    ensures Distinct(s) ==> Distinct(r.0) && !ContainsId(r.0, r.1)
  {
    (s[..|s| - 1], s[|s| - 1])
  }

  /** Removes every entry with this id, wherever it is in the stack; an
      absent id leaves the stack as it was. */
  function Remove(s: seq<Id>, id: Id): (r: seq<Id>)
    ensures !ContainsId(r, id)
    ensures forall x :: x != id ==> (x in r <==> x in s)
    ensures !ContainsId(s, id) ==> r == s
    ensures Distinct(s) ==> Distinct(r)
  {
    if s == [] then []
    else
      var below, top := s[..|s| - 1], s[|s| - 1];
      var rest := Remove(below, id);
      assert s == below + [top];
      if top == id then rest
      else
        assert (rest + [top])[..|rest|] == rest;
        rest + [top]
  }

  /** The ids in the order the stack's iterator yields them: from the top
      down to the root. */
  function Iterator(s: seq<Id>): (r: seq<Id>)
    ensures |r| == |s|
  {
    if s == [] then [] else Iterator(s[1..]) + [s[0]]
  }

  /** The `k`-th id the iterator yields is the `k`-th from the top. */
  lemma {:induction false} IteratorAt(s: seq<Id>, k: nat)
    requires k < |s|
    ensures Iterator(s)[k] == s[|s| - 1 - k]
  {
    if k < |s| - 1 {
      IteratorAt(s[1..], k);
    }
  }

  /** The position of `id` in the stack, counted from the root. */
  function IndexOf(s: seq<Id>, id: Id): (i: nat)
    requires ContainsId(s, id)
    ensures i < |s| && s[i] == id
  {
    if s[|s| - 1] == id then |s| - 1 else IndexOf(s[..|s| - 1], id)
  }

  /** Popping what was just pushed gives back the pushed id and the stack
      as it was. */
  lemma PopPush(s: seq<Id>, id: Id)
    requires !ContainsId(s, id)
    ensures Peek(Push(s, id)) == Some(id)
    ensures Pop(Push(s, id)) == (s, id)
  {
  }

  /** Pushing back what was just popped rebuilds the stack. */
  lemma PushPop(s: seq<Id>)
    requires s != [] && Distinct(s)
    ensures Peek(s) == Some(Pop(s).1)
    ensures Push(Pop(s).0, Pop(s).1) == s
  {
    assert s[..|s| - 1] + [s[|s| - 1]] == s;
  }

  /** On a stack of unique ids, removing the entry at position `i` keeps every
      other entry in its relative order. */
  lemma {:induction false} RemoveAt(s: seq<Id>, i: nat)
    requires Distinct(s) && i < |s|
    ensures Remove(s, s[i]) == s[..i] + s[i + 1..]
  {
    var below := s[..|s| - 1];
    if i == |s| - 1 {
      assert Remove(below, s[i]) == below;
      assert s[..i] == below;
    } else {
      assert below[i] == s[i];
      assert s[|s| - 1] != s[i];
      RemoveAt(below, i);
      assert Remove(s, s[i]) == Remove(below, s[i]) + [s[|s| - 1]];
      assert below[..i] == s[..i];
      assert s[i + 1..] == below[i + 1..] + [s[|s| - 1]];
    }
  }

  /** Distinct says exactly that no two positions hold the same id. */
  lemma {:induction false} DistinctIndices(s: seq<Id>)
    ensures Distinct(s) <==> forall i, j :: 0 <= i < j < |s| ==> s[i] != s[j]
  {
    if s != [] {
      var below := s[..|s| - 1];
      DistinctIndices(below);
      assert forall k :: 0 <= k < |below| ==> below[k] == s[k];
      if Distinct(s) {
        forall i, j | 0 <= i < j < |s| ensures s[i] != s[j] {
          if j == |s| - 1 {
            assert s[i] == below[i];
          }
        }
      }
      if forall i, j :: 0 <= i < j < |s| ==> s[i] != s[j] {
        forall k | 0 <= k < |below| ensures below[k] != s[|s| - 1] {
          assert s[k] != s[|s| - 1];
        }
      }
    }
  }

  /** Every prefix of a stack of unique ids has unique ids. */
  lemma {:induction false} DistinctPrefix(s: seq<Id>, m: nat)
    requires Distinct(s) && m <= |s|
    ensures Distinct(s[..m])
    decreases |s|
  {
    if m < |s| {
      var below := s[..|s| - 1];
      DistinctPrefix(below, m);
      assert below[..m] == s[..m];
    } else {
      assert s[..m] == s;
    }
  }

  /** On a stack of unique ids, the search finds the entry at its position. */
  lemma {:induction false} IndexOfAt(s: seq<Id>, i: nat)
    requires Distinct(s) && i < |s|
    ensures IndexOf(s, s[i]) == i
    decreases |s|
  {
    if i < |s| - 1 {
      var below := s[..|s| - 1];
      assert below[i] == s[i];
      IndexOfAt(below, i);
    }
  }

  /** The iteration of a stack yields the iteration of everything above its
      bottom entry, then that entry. */
  lemma IteratorFrom(s: seq<Id>, j: nat)
    requires j < |s|
    ensures Iterator(s[j..]) == Iterator(s[j + 1..]) + [s[j]]
  {
    assert s[j..][1..] == s[j + 1..];
  }
}
