/** The watch-history stack: a last-in, first-out buffer over a growable
    list whose end is the top. */
module HistoryStack {
  import opened Wrappers

  /** The list read from its far end: `getAll`'s most-recent-first view. */
  function Reversed<T>(s: seq<T>): (r: seq<T>)
    ensures |r| == |s|
    ensures forall i :: 0 <= i < |s| ==> r[i] == s[|s| - 1 - i]
  {
    if s == [] then [] else Reversed(s[1..]) + [s[0]]
  }

  lemma ReversedMembers<T>(s: seq<T>, x: T)
    ensures x in Reversed(s) <==> x in s
  {
    if x in s {
      var i :| 0 <= i < |s| && s[i] == x;
      assert Reversed(s)[|s| - 1 - i] == x;
    }
  }

  class Stack<T(==)> {
    /** The pushed elements in push order; the last one is the top. */
    var items: seq<T>

    constructor ()
      ensures items == []
    {
      items := [];
    }

    /** Puts `element` on top; the stack grows by one. */
    method Push(element: T)
      modifies this
      ensures items == old(items) + [element]
    {
      items := items + [element];
    }

    /** Removes and returns the top element, or `None` on an empty stack,
        which is then left as it was. */
    method Pop() returns (r: Option<T>)
      modifies this
      ensures old(items) == [] ==> r == None && items == []
      ensures old(items) != [] ==>
                r == Some(old(items)[|old(items)| - 1]) && items == old(items)[..|old(items)| - 1]
      ensures r.Some? ==> old(items) == items + [r.value]
    {
      if IsEmpty() {
        return None;
      }
      r := Some(items[|items| - 1]);
      items := items[..|items| - 1];
    }

    /** The top element without removing it: the first element `GetAll`
        lists, or `None` exactly when the stack is empty. */
    function Peek(): (r: Option<T>)
      reads this
      ensures r.None? <==> items == []
      ensures r.Some? ==> r.value == GetAll()[0] && r.value == items[|items| - 1]
    {
      if IsEmpty() then None else Some(items[|items| - 1])
    }

    function IsEmpty(): (r: bool)
      reads this
      ensures r <==> Size() == 0
    {
      |items| == 0
    }

    function Size(): (r: nat)
      reads this
      ensures r == |GetAll()|
    {
      |items|
    }

    /** A fresh list of the elements, most recently pushed first. */
    function GetAll(): (r: seq<T>)
      reads this
      ensures |r| == |items|
      ensures forall i :: 0 <= i < |items| ==> r[i] == items[|items| - 1 - i]
    {
      Reversed(items)
    }

    method Clear()
      modifies this
      ensures items == []
    {
      items := [];
    }

    /** Membership by equality, as `Array.prototype.includes`. */
    function Contains(element: T): (r: bool)
      reads this
      ensures r <==> element in GetAll()
      ensures r <==> exists i :: 0 <= i < |items| && items[i] == element
    {
      ReversedMembers(items, element);
      element in items
    }
  }

  /** A call sequence on a fresh stack, for stating properties of many calls. */
  datatype StackOp<T> = PushOp(element: T) | PopOp

  /** The items after replaying `ops` on an empty stack, with the effect
      `Stack.Push` and `Stack.Pop` state for one call. */
  function Replay<T>(ops: seq<StackOp<T>>): seq<T>
  {
    if ops == [] then []
    else
      var s := Replay(ops[..|ops| - 1]);
      match ops[|ops| - 1]
      case PushOp(x) => s + [x]
      case PopOp => if s == [] then [] else s[..|s| - 1]
  }

  function Pushes<T>(ops: seq<StackOp<T>>): nat
  {
    if ops == [] then 0 else Pushes(ops[..|ops| - 1]) + (if ops[|ops| - 1].PushOp? then 1 else 0)
  }

  function Pops<T>(ops: seq<StackOp<T>>): nat
  {
    if ops == [] then 0 else Pops(ops[..|ops| - 1]) + (if ops[|ops| - 1].PopOp? then 1 else 0)
  }

  /** The pops of `ops` that meet a non-empty stack and so remove an
      element; a pop on an empty stack returns `None` and changes nothing. */
  function SuccessfulPops<T>(ops: seq<StackOp<T>>): nat
  {
    if ops == [] then 0
    else
      SuccessfulPops(ops[..|ops| - 1])
      + (if ops[|ops| - 1].PopOp? && Replay(ops[..|ops| - 1]) != [] then 1 else 0)
  }

  /** For any call sequence, pops on an empty stack included: the size is
      the number of pushes minus the number of pops that removed an
      element. */
  lemma {:induction false} ReplaySizeAll<T>(ops: seq<StackOp<T>>)
    ensures SuccessfulPops(ops) <= Pushes(ops)
    ensures |Replay(ops)| == Pushes(ops) - SuccessfulPops(ops)
  {
    if ops != [] {
      ReplaySizeAll(ops[..|ops| - 1]);
    }
  }

  /** No pop in `ops` meets an empty stack: before every pop there have been
      more pushes than pops. */
  ghost predicate PopsBalanced<T>(ops: seq<StackOp<T>>) {
    forall i :: 0 <= i < |ops| && ops[i].PopOp? ==> Pops(ops[..i]) < Pushes(ops[..i])
  }

  /** The size is the number of pushes minus the number of pops when no
      pop meets an empty stack. */
  lemma {:induction false} ReplaySize<T>(ops: seq<StackOp<T>>)
    requires PopsBalanced(ops)
    ensures Pops(ops) <= Pushes(ops)
    ensures |Replay(ops)| == Pushes(ops) - Pops(ops)
  {
    if ops != [] {
      var init := ops[..|ops| - 1];
      assert PopsBalanced(init) by {
        forall i | 0 <= i < |init| && init[i].PopOp?
          ensures Pops(init[..i]) < Pushes(init[..i])
        {
          assert init[..i] == ops[..i];
        }
      }
      ReplaySize(init);
      assert ops[..|ops| - 1] == init;
    }
  }

  /** Pushing only: the stack holds the pushed elements in push order. */
  lemma {:induction false} ReplayPushesOnly<T>(xs: seq<T>)
    ensures Replay(seq(|xs|, i requires 0 <= i < |xs| => PushOp(xs[i]))) == xs
  {
    var ops := seq(|xs|, i requires 0 <= i < |xs| => PushOp(xs[i]));
    if xs != [] {
      var init := xs[..|xs| - 1];
      ReplayPushesOnly(init);
      assert ops[..|ops| - 1] == seq(|init|, i requires 0 <= i < |init| => PushOp(init[i]));
      assert xs == init + [xs[|xs| - 1]];
    }
  }

  /** Last in, first out: a pop right after a push hands back the pushed
      element and leaves the stack as it was before the push. */
  lemma PushThenPop<T>(ops: seq<StackOp<T>>, x: T)
    ensures Replay(ops + [PushOp(x)]) == Replay(ops) + [x]
    ensures Replay(ops + [PushOp(x), PopOp]) == Replay(ops)
  {
    assert (ops + [PushOp(x)])[..|ops|] == ops;
    assert (ops + [PushOp(x), PopOp])[..|ops| + 1] == ops + [PushOp(x)];
  }

  /** The history scenario: A, B, C pushed; `getAll` is [C, B, A]; a pop
      returns C and leaves [B, A]. */
  method HistoryScenario<T(==)>(a: T, b: T, c: T)
  {
    var s := new Stack<T>();
    s.Push(a);
    s.Push(b);
    s.Push(c);
    assert s.GetAll() == [c, b, a];
    var top := s.Pop();
    assert top == Some(c);
    assert s.GetAll() == [b, a];
  }
}
