/** A workspace: its windows, their order, the focused one, and the tree of buddies. */
module Workspace {
  import opened Arith
  import opened WindowTree

  datatype State = State(windows: set<nat>, order: seq<nat>, focused: nat, tree: WindowNode)

  /** `free` says that the focused window lets go; `target` is the window found at a position, if any. */
  datatype Op =
    | Insert(id: nat, after: nat)
    | FocusNext(free: bool)
    | FocusPrev(free: bool)
    | FocusAt(target: Option<nat>, free: bool)
    | Close
    | MoveForward
    | MoveBackward

  /** The three collections hold the same windows, each once, and the focused one is among them. */
  ghost predicate Inv(st: State) {
    && Distinct(st.order) && Distinct(Leaves(st.tree))
    && (forall id :: id in st.order <==> id in st.windows)
    && (forall id :: id in Leaves(st.tree) <==> id in st.windows)
    && st.focused in st.windows
  }

  // ----- what the operations do -----

  /** The neighbours in the order, wrapping around. */
  function After(s: seq<nat>, i: nat): nat
    requires i < |s|
  {
    if i + 1 < |s| then s[i + 1] else s[0]
  }

  function Before(s: seq<nat>, i: nat): nat
    requires i < |s|
  {
    if i > 0 then s[i - 1] else s[|s| - 1]
  }

  /** Moving forward swaps with the next window; the last one goes behind the first. */
  function Forward(s: seq<nat>, i: nat): seq<nat>
    requires i < |s| && |s| >= 2
  {
    if i + 1 < |s| then s[i := s[i + 1]][i + 1 := s[i]]
    else [s[0], s[i]] + s[1..i]
  }

  /** Moving backward swaps with the previous window; the first one goes before the last. */
  function Backward(s: seq<nat>, i: nat): seq<nat>
    requires i < |s| && |s| >= 2
  {
    if i > 0 then s[i := s[i - 1]][i - 1 := s[i]]
    else s[1..|s| - 1] + [s[0], s[|s| - 1]]
  }

  /** `None` is a failed unwrap. */
  ghost function Apply(st: State, op: Op): Option<State> {
    var i := IndexOf(st.order, st.focused);
    match op
    case Insert(id, after) =>
      if after !in st.order then None
      else Some(State(st.windows + {id}, InsertedAfter(st.order, after, id), st.focused,
                      InsertValue(st.tree, after, id)))
    case FocusNext(free) =>
      if st.focused !in st.windows then None
      else if !free then Some(st)
      else if i == |st.order| || After(st.order, i) !in st.windows then None
      else Some(st.(focused := After(st.order, i)))
    case FocusPrev(free) =>
      if st.focused !in st.windows then None
      else if !free then Some(st)
      else if i == |st.order| || Before(st.order, i) !in st.windows then None
      else Some(st.(focused := Before(st.order, i)))
    case FocusAt(target, free) =>
      if st.focused !in st.windows then None
      else if !free || target.None? then Some(st)
      else Some(st.(focused := target.value))
    case Close =>
      if |st.windows| == 1 then Some(st)
      else
        var buddy := GetSibling(st.tree, st.focused);
        if buddy.None? then Some(st)
        else if st.focused !in st.windows || buddy.value !in st.windows || buddy.value == st.focused then None
        else if i == |st.order| then None
        else Some(State(st.windows - {st.focused}, Without(st.order, i), After(st.order, i),
                        RemoveLeaf(st.tree, st.focused).tree))
    case MoveForward =>
      if |st.windows| == 1 then Some(st)
      else if st.focused !in st.windows || i == |st.order| || |st.order| < 2
        || After(st.order, i) !in st.windows then None
      else Some(st.(order := Forward(st.order, i), tree := SwapValues(st.tree, st.focused, After(st.order, i))))
    case MoveBackward =>
      if |st.windows| == 1 then Some(st)
      else if st.focused !in st.windows || i == |st.order| || |st.order| < 2
        || Before(st.order, i) !in st.windows then None
      else Some(st.(order := Backward(st.order, i), tree := SwapValues(st.tree, st.focused, Before(st.order, i))))
  }

  /**
    What the caller owes: fresh ids, inserted beside a window there is, and positions that belong to
    windows there are.
   */
  ghost predicate Allowed(st: State, op: Op) {
    && (op.Insert? ==> op.id !in st.windows && op.after in st.windows)
    && (op.FocusAt? && op.target.Some? ==> op.target.value in st.order)
  }

  // ----- sequences of ids -----

  lemma InsertedMembers(s: seq<nat>, k: nat, id: nat)
    requires Distinct(s) && k <= |s| && id !in s
    ensures Distinct(InsertAt(s, k, id))
    ensures forall x :: x in InsertAt(s, k, id) <==> x in s || x == id
  {
  }

  lemma WithoutMembers(s: seq<nat>, k: nat)
    requires Distinct(s) && k < |s|
    ensures Distinct(Without(s, k))
    ensures forall x :: x in Without(s, k) <==> x in s && x != s[k]
  {
  }

  /** `r` is `s` in another order. */
  ghost predicate Rearranged(s: seq<nat>, r: seq<nat>) {
    && (Distinct(s) ==> Distinct(r))
    && (forall x :: x in r <==> x in s)
  }

  lemma Swapped(s: seq<nat>, i: nat, j: nat)
    requires i < |s| && j < |s| && i != j
    ensures Rearranged(s, s[i := s[j]][j := s[i]])
  {
    var r := s[i := s[j]][j := s[i]];
    assert forall k :: 0 <= k < |s| ==> r[k] == s[if k == i then j else if k == j then i else k];
    forall x ensures x in r <==> x in s {
      if x in s {
        var k :| 0 <= k < |s| && s[k] == x;
        assert r[if k == i then j else if k == j then i else k] == x;
      }
    }
  }

  /** `r` holds at `k` what `s` holds at `from(k)`, and `s` at `j` what `r` holds at `to(j)`. */
  lemma Placed(s: seq<nat>, r: seq<nat>, from: nat -> nat, to: nat -> nat)
    requires |r| == |s|
    requires forall k: nat :: k < |s| ==> from(k) < |s| && to(from(k)) == k && r[k] == s[from(k)]
    requires forall j: nat :: j < |s| ==> to(j) < |s| && r[to(j)] == s[j]
    ensures Rearranged(s, r)
  {
    if Distinct(s) {
      forall i, j | 0 <= i < j < |r| ensures r[i] != r[j] {
        assert from(i) != from(j);
      }
    }
  }

  lemma LastToSecond(s: seq<nat>)
    requires |s| >= 2
    ensures Rearranged(s, [s[0], s[|s| - 1]] + s[1..|s| - 1])
  {
    var n := |s|;
    Placed(s, [s[0], s[n - 1]] + s[1..n - 1],
           k => if k == 0 then 0 else if k == 1 then n - 1 else k - 1,
           j => if j == 0 then 0 else if j == n - 1 then 1 else j + 1);
  }

  lemma FirstToPenultimate(s: seq<nat>)
    requires |s| >= 2
    ensures Rearranged(s, s[1..|s| - 1] + [s[0], s[|s| - 1]])
  {
    var n := |s|;
    Placed(s, s[1..n - 1] + [s[0], s[n - 1]],
           k => if k < n - 2 then k + 1 else if k == n - 2 then 0 else n - 1,
           j => if j == 0 then n - 2 else if j < n - 1 then j - 1 else n - 1);
  }

  // ----- what every operation keeps -----

  lemma MoveKeeps(st: State, order: seq<nat>, partner: nat)
    requires Inv(st) && partner in st.windows && partner != st.focused && Rearranged(st.order, order)
    ensures Inv(st.(order := order, tree := SwapValues(st.tree, st.focused, partner)))
  {
    var s := Leaves(st.tree);
    var i, j := IndexOf(s, st.focused), IndexOf(s, partner);
    SwapLeaves(st.tree, st.focused, partner, i, j);
    Swapped(s, i, j);
  }

  lemma SeveralWindows(st: State)
    requires Inv(st)
    ensures |st.windows| == 1 <==> |st.order| == 1
    ensures |st.order| >= 1
  {
    assert st.focused in st.order;
    if |st.order| == 1 {
      assert st.windows == {st.order[0]};
    } else {
      assert {st.order[0], st.order[1]} <= st.windows;
      assert st.order[0] != st.order[1];
      assert |{st.order[0], st.order[1]}| == 2;
      SubsetSize({st.order[0], st.order[1]}, st.windows);
    }
  }

  lemma SubsetSize(a: set<nat>, b: set<nat>)
    requires a <= b
    ensures |a| <= |b|
  {
    assert b == a + (b - a);
  }

  lemma InsertKeeps(st: State, id: nat, after: nat)
    requires Inv(st) && id !in st.windows && after in st.windows
    ensures Inv(State(st.windows + {id}, InsertedAfter(st.order, after, id), st.focused,
                      InsertValue(st.tree, after, id)))
  {
    InsertedMembers(st.order, IndexOf(st.order, after) + 1, id);
    InsertLeaves(st.tree, after, id);
    InsertedMembers(Leaves(st.tree), IndexOf(Leaves(st.tree), after) + 1, id);
  }

  lemma CloseKeeps(st: State)
    requires Inv(st) && |st.order| >= 2 && GetSibling(st.tree, st.focused).Some?
    ensures var i := IndexOf(st.order, st.focused);
            && i < |st.order|
            && GetSibling(st.tree, st.focused).value in st.windows
            && GetSibling(st.tree, st.focused).value != st.focused
            && Inv(State(st.windows - {st.focused}, Without(st.order, i), After(st.order, i),
                         RemoveLeaf(st.tree, st.focused).tree))
  {
    var i := IndexOf(st.order, st.focused);
    SiblingIsLeaf(st.tree, st.focused);
    SiblingSymmetric(st.tree, st.focused);
    RemoveExact(st.tree, st.focused);
    WithoutMembers(st.order, i);
    WithoutMembers(Leaves(st.tree), IndexOf(Leaves(st.tree), st.focused));
    assert After(st.order, i) in st.order && After(st.order, i) != st.focused;
  }

  /** No operation fails an unwrap, and each keeps the collections in agreement. */
  lemma ApplyInv(st: State, op: Op)
    requires Inv(st) && Allowed(st, op)
    ensures Apply(st, op).Some? && Inv(Apply(st, op).value)
  {
    var i := IndexOf(st.order, st.focused);
    assert st.focused in st.order;
    SeveralWindows(st);
    match op
    case Insert(id, after) => InsertKeeps(st, id, after);
    case FocusNext(_) => assert After(st.order, i) in st.order;
    case FocusPrev(_) => assert Before(st.order, i) in st.order;
    case FocusAt(_, _) =>
    case Close =>
      if |st.order| >= 2 && GetSibling(st.tree, st.focused).Some? {
        CloseKeeps(st);
      }
    case MoveForward =>
      if |st.order| >= 2 {
        ForwardRearranges(st.order, i);
        MoveKeeps(st, Forward(st.order, i), After(st.order, i));
      }
    case MoveBackward =>
      if |st.order| >= 2 {
        BackwardRearranges(st.order, i);
        MoveKeeps(st, Backward(st.order, i), Before(st.order, i));
      }
  }

  lemma ForwardRearranges(s: seq<nat>, i: nat)
    requires Distinct(s) && i < |s| && |s| >= 2
    ensures Rearranged(s, Forward(s, i)) && After(s, i) in s && After(s, i) != s[i]
  {
    if i + 1 < |s| {
      Swapped(s, i, i + 1);
    } else {
      LastToSecond(s);
    }
  }

  lemma BackwardRearranges(s: seq<nat>, i: nat)
    requires Distinct(s) && i < |s| && |s| >= 2
    ensures Rearranged(s, Backward(s, i)) && Before(s, i) in s && Before(s, i) != s[i]
  {
    if i > 0 {
      Swapped(s, i, i - 1);
    } else {
      FirstToPenultimate(s);
    }
  }

  /** A run of operations on a workspace that starts with one window; the last operation may fail an unwrap. */
  ghost predicate Run(first: nat, states: seq<State>, ops: seq<Op>) {
    && |states| == |ops| > 0
    && states[0] == State({first}, [first], first, Leaf(first))
    && (forall i :: 0 <= i < |ops| ==> Allowed(states[i], ops[i]))
    && (forall i :: 0 <= i < |ops| - 1 ==> Apply(states[i], ops[i]) == Some(states[i + 1]))
  }

  /** In every run the collections agree, and no operation fails. */
  lemma {:induction false} RunInv(first: nat, states: seq<State>, ops: seq<Op>, n: nat)
    requires Run(first, states, ops) && n < |ops|
    ensures Inv(states[n]) && Apply(states[n], ops[n]).Some?
  {
    if n > 0 {
      RunInv(first, states, ops, n - 1);
      ApplyInv(states[n - 1], ops[n - 1]);
    }
    ApplyInv(states[n], ops[n]);
  }

  // ----- what the operations achieve -----

  lemma IndexUnique(s: seq<nat>, i: nat)
    requires Distinct(s) && i < |s|
    ensures IndexOf(s, s[i]) == i
  {
  }

  /** `k` times `focus_next_window`. */
  ghost function FocusNextTimes(st: State, k: nat): Option<State> {
    if k == 0 then Some(st)
    else
      match FocusNextTimes(st, k - 1)
      case None => None
      case Some(mid) => Apply(mid, FocusNext(true))
  }

  lemma NextIs(st: State, i: nat)
    requires Inv(st) && i < |st.order| && st.order[i] == st.focused
    ensures Apply(st, FocusNext(true)) == Some(st.(focused := After(st.order, i)))
  {
    IndexUnique(st.order, i);
    assert After(st.order, i) in st.order;
  }

  lemma PrevIs(st: State, i: nat)
    requires Inv(st) && i < |st.order| && st.order[i] == st.focused
    ensures Apply(st, FocusPrev(true)) == Some(st.(focused := Before(st.order, i)))
  {
    IndexUnique(st.order, i);
    assert Before(st.order, i) in st.order;
  }

  lemma Refocused(st: State, i: nat)
    requires Inv(st) && i < |st.order|
    ensures Inv(st.(focused := st.order[i]))
  {
    assert st.order[i] in st.order;
  }

  /** The place `k` places on, around `n` places. */
  ghost function Around(n: nat, i: nat, k: nat): (m: nat)
    requires i < n
    ensures m < n
  {
    if k == 0 then i else Succ(n, Around(n, i, k - 1))
  }

  ghost function Succ(n: nat, m: nat): nat { if m + 1 < n then m + 1 else 0 }

  lemma {:induction false} AroundIsMod(n: nat, i: nat, k: nat)
    requires i < n
    ensures Around(n, i, k) == (i + k) % n
  {
    if k == 0 {
      DivUnique(i, n, 0);
    } else {
      AroundIsMod(n, i, k - 1);
      ModNext(i + (k - 1), n);
    }
  }

  lemma {:induction false} FocusGoesAround(st: State, i: nat, k: nat)
    requires Inv(st) && i < |st.order| && st.order[i] == st.focused
    ensures FocusNextTimes(st, k) == Some(st.(focused := st.order[Around(|st.order|, i, k)]))
    decreases k
  {
    if k > 0 {
      FocusGoesAround(st, i, k - 1);
      var m := Around(|st.order|, i, k - 1);
      Refocused(st, m);
      NextIs(st.(focused := st.order[m]), m);
    }
  }

  /** Going on `k` times from position `i` of the order ends at position `i + k`, counted around. */
  lemma FocusCycles(st: State, i: nat, k: nat)
    requires Inv(st) && i < |st.order| && st.order[i] == st.focused
    ensures FocusNextTimes(st, k) == Some(st.(focused := st.order[(i + k) % |st.order|]))
  {
    FocusGoesAround(st, i, k);
    AroundIsMod(|st.order|, i, k);
  }

  /** Going on and going back undo each other. */
  lemma FocusThereAndBack(st: State, i: nat)
    requires Inv(st) && i < |st.order| && st.order[i] == st.focused
    ensures var next := Apply(st, FocusNext(true));
            next.Some? && Apply(next.value, FocusPrev(true)) == Some(st)
    ensures var prev := Apply(st, FocusPrev(true));
            prev.Some? && Apply(prev.value, FocusNext(true)) == Some(st)
  {
    var n := |st.order|;
    var next, prev := Succ(n, i), if i > 0 then i - 1 else n - 1;
    NextIs(st, i);
    Refocused(st, next);
    PrevIs(st.(focused := st.order[next]), next);
    PrevIs(st, i);
    Refocused(st, prev);
    NextIs(st.(focused := st.order[prev]), prev);
  }

  /** A window that does not let go keeps the focus; otherwise the window at the position gets it, if there is one. */
  lemma FocusExact(st: State, op: Op)
    requires Inv(st) && Allowed(st, op)
    ensures op == FocusNext(false) || op == FocusPrev(false) ==> Apply(st, op) == Some(st)
    ensures op.FocusAt? ==>
              Apply(st, op) == Some(st.(focused := if op.free && op.target.Some? then op.target.value else st.focused))
  {
  }

  /** The new window comes right behind the other one, in the order and among the leaves; the focus stays. */
  lemma InsertExact(st: State, id: nat, after: nat)
    requires Inv(st) && Allowed(st, Insert(id, after))
    ensures var st2 := Apply(st, Insert(id, after));
            && st2.Some? && st2.value.windows == st.windows + {id} && st2.value.focused == st.focused
            && st2.value.order == InsertAt(st.order, IndexOf(st.order, after) + 1, id)
            && Leaves(st2.value.tree) == InsertAt(Leaves(st.tree), IndexOf(Leaves(st.tree), after) + 1, id)
  {
    InsertLeaves(st.tree, after, id);
    assert after in st.order && after in Leaves(st.tree);
  }

  /**
    Exactly the focused window goes, from the order and from the leaves, and the next one in the order gets the
    focus; nothing happens when it has no sibling or is the only one.
   */
  lemma CloseExact(st: State)
    requires Inv(st)
    ensures Apply(st, Close).Some?
    ensures if |st.windows| == 1 || GetSibling(st.tree, st.focused).None? then Apply(st, Close).value == st
            else Closed(st, Apply(st, Close).value)
  {
    if |st.windows| != 1 && GetSibling(st.tree, st.focused).Some? {
      CloseIs(st, IndexOf(st.order, st.focused), GetSibling(st.tree, st.focused).value);
      RemoveExact(st.tree, st.focused);
    }
  }

  /** The focused window of `st` is gone in `st2`, and the next one has the focus. */
  ghost predicate Closed(st: State, st2: State) {
    var s, leaves, f := st.order, Leaves(st.tree), st.focused;
    var i, j := IndexOf(s, f), IndexOf(leaves, f);
    && i < |s| && j < |leaves|
    && st2.windows == st.windows - {f} && st2.order == Without(s, i) && Leaves(st2.tree) == Without(leaves, j)
    && st2.focused == s[if i + 1 < |s| then i + 1 else 0]
  }

  /** The focused window and its partner have changed places among the leaves. */
  ghost predicate Exchanged(st: State, partner: nat, st2: State) {
    var s, r := Leaves(st.tree), Leaves(st2.tree);
    var a, b := IndexOf(s, st.focused), IndexOf(s, partner);
    a < |s| && b < |s| && r == s[a := partner][b := st.focused]
  }

  lemma SwapExchanges(st: State, partner: nat, st2: State)
    requires Inv(st) && partner in st.windows && partner != st.focused
    requires st2.tree == SwapValues(st.tree, st.focused, partner)
    ensures Exchanged(st, partner, st2)
  {
    var s := Leaves(st.tree);
    SwapLeaves(st.tree, st.focused, partner, IndexOf(s, st.focused), IndexOf(s, partner));
  }

  /**
    The focused window moves one place up the order, or from the last place to the second; the others keep their
    order, and in the tree it changes places with the next window.
   */
  lemma MoveForwardExact(st: State)
    requires Inv(st) && |st.order| >= 2
    ensures var i, n, st2 := IndexOf(st.order, st.focused), |st.order|, Apply(st, MoveForward);
            var k := if i + 1 < n then i + 1 else 1;
            && i < n && st2.Some? && st2.value.windows == st.windows && st2.value.focused == st.focused
            && |st2.value.order| == n && st2.value.order[k] == st.focused
            && Without(st2.value.order, k) == Without(st.order, i)
            && Exchanged(st, st.order[if i + 1 < n then i + 1 else 0], st2.value)
  {
    var i := IndexOf(st.order, st.focused);
    assert st.focused in st.order;
    SeveralWindows(st);
    ApplyInv(st, MoveForward);
    ForwardRearranges(st.order, i);
    ForwardOthers(st.order, i);
    SwapExchanges(st, After(st.order, i), Apply(st, MoveForward).value);
  }

  lemma ForwardOthers(s: seq<nat>, i: nat)
    requires i < |s| && |s| >= 2
    ensures var k := if i + 1 < |s| then i + 1 else 1;
            |Forward(s, i)| == |s| && Forward(s, i)[k] == s[i] && Without(Forward(s, i), k) == Without(s, i)
  {
    var n, r := |s|, Forward(s, i);
    if i + 1 < n {
      assert r == s[i + 1 := s[i]][i := s[i + 1]];
      SwapAsParts(s, i + 1);
      assert r[..i + 1] == s[..i] + [s[i + 1]] && r[i + 2..] == s[i + 2..];
      assert s[i + 1..] == [s[i + 1]] + s[i + 2..];
    } else {
      assert r[..1] == [s[0]] && r[2..] == s[1..i];
      assert s[..i] == [s[0]] + s[1..i] && s[n..] == [];
    }
  }

  /** Likewise down the order, or from the first place to the last but one. */
  lemma MoveBackwardExact(st: State)
    requires Inv(st) && |st.order| >= 2
    ensures var i, n, st2 := IndexOf(st.order, st.focused), |st.order|, Apply(st, MoveBackward);
            var k := if i > 0 then i - 1 else n - 2;
            && i < n && st2.Some? && st2.value.windows == st.windows && st2.value.focused == st.focused
            && |st2.value.order| == n && st2.value.order[k] == st.focused
            && Without(st2.value.order, k) == Without(st.order, i)
            && Exchanged(st, st.order[if i > 0 then i - 1 else n - 1], st2.value)
  {
    var i := IndexOf(st.order, st.focused);
    assert st.focused in st.order;
    SeveralWindows(st);
    ApplyInv(st, MoveBackward);
    BackwardRearranges(st.order, i);
    BackwardOthers(st.order, i);
    SwapExchanges(st, Before(st.order, i), Apply(st, MoveBackward).value);
  }

  lemma BackwardOthers(s: seq<nat>, i: nat)
    requires i < |s| && |s| >= 2
    ensures var k := if i > 0 then i - 1 else |s| - 2;
            |Backward(s, i)| == |s| && Backward(s, i)[k] == s[i] && Without(Backward(s, i), k) == Without(s, i)
  {
    var n, r := |s|, Backward(s, i);
    if i > 0 {
      SwapAsParts(s, i);
      assert r[..i - 1] == s[..i - 1] && r[i..] == [s[i - 1]] + s[i + 1..];
      assert s[..i] == s[..i - 1] + [s[i - 1]];
    } else {
      assert r[..n - 2] == s[1..n - 1] && r[n - 1..] == [s[n - 1]];
      assert s[1..] == s[1..n - 1] + [s[n - 1]];
    }
  }

  // ----- undoing -----

  /** Where a move takes the window, and when moving back restores the order. */
  lemma OrderForwardBackward(s: seq<nat>, i: nat)
    requires Distinct(s) && i < |s| && |s| >= 2
    ensures var r := Forward(s, i);
            var k := if i + 1 < |s| then i + 1 else 1;
            && IndexOf(r, s[i]) == k && |r| == |s|
            && (Backward(r, k) == s <==> i + 1 < |s|)
            && (i + 1 < |s| ==> Before(r, k) == After(s, i))
  {
  }

  /** Moving forward and back is the identity exactly when the window was not the last. */
  lemma ForwardThenBackward(st: State, mid: State)
    requires Inv(st) && |st.order| >= 2 && Apply(st, MoveForward) == Some(mid)
    ensures Apply(mid, MoveBackward) == Some(st) <==> IndexOf(st.order, st.focused) + 1 < |st.order|
  {
    var s := st.order;
    var i := IndexOf(s, st.focused);
    SeveralWindows(st);
    ApplyInv(st, MoveForward);
    OrderForwardBackward(s, i);
    ApplyInv(mid, MoveBackward);
    if i + 1 < |s| {
      var leaves := Leaves(st.tree);
      SwapTwice(st.tree, s[i], s[i + 1], IndexOf(leaves, s[i]), IndexOf(leaves, s[i + 1]));
    }
  }

  lemma OrderBackwardForward(s: seq<nat>, i: nat)
    requires Distinct(s) && i < |s| && |s| >= 2
    ensures var r := Backward(s, i);
            var k := if i > 0 then i - 1 else |s| - 2;
            && IndexOf(r, s[i]) == k && |r| == |s|
            && (Forward(r, k) == s <==> i > 0)
            && (i > 0 ==> After(r, k) == Before(s, i))
  {
    var n, r := |s|, Backward(s, i);
    BackwardRearranges(s, i);
    if i == 0 {
      assert r[n - 2] == s[0] && r[n - 1] == s[n - 1];
      IndexUnique(r, n - 2);
      assert Forward(r, n - 2)[n - 1] == s[0];
    } else {
      IndexUnique(r, i - 1);
      assert Forward(r, i - 1) == s;
    }
  }

  /** Moving backward and forward is the identity exactly when the window was not the first. */
  lemma BackwardThenForward(st: State, mid: State)
    requires Inv(st) && |st.order| >= 2 && Apply(st, MoveBackward) == Some(mid)
    ensures Apply(mid, MoveForward) == Some(st) <==> IndexOf(st.order, st.focused) > 0
  {
    var s := st.order;
    var i := IndexOf(s, st.focused);
    SeveralWindows(st);
    ApplyInv(st, MoveBackward);
    OrderBackwardForward(s, i);
    ApplyInv(mid, MoveForward);
    if i > 0 {
      var leaves := Leaves(st.tree);
      SwapTwice(st.tree, s[i], s[i - 1], IndexOf(leaves, s[i]), IndexOf(leaves, s[i - 1]));
    }
  }

  /**
    Two windows, the last one focused: forward and back, and the two have changed places in the order but
    not in the tree.
   */
  ghost function TwoWindows(a: nat, b: nat): seq<State> {
    var both := {a, b};
    [State({a}, [a], a, Leaf(a)),
     State(both, [a, b], a, Branch(Leaf(a), Leaf(b))),
     State(both, [a, b], b, Branch(Leaf(a), Leaf(b))),
     State(both, [a, b], b, Branch(Leaf(b), Leaf(a)))]
  }

  lemma LastMoveNotUndone(a: nat, b: nat)
    requires a != b
    ensures var states := TwoWindows(a, b);
            && Run(a, states, [Insert(b, a), FocusNext(true), MoveForward, MoveBackward])
            && Apply(states[3], MoveBackward) == Some(states[2].(order := [b, a]))
  {
    TwoOpened(a, b);
    TwoFocused(a, b);
    TwoForward(a, b);
    TwoBackward(a, b);
    RunOfFour(a, TwoWindows(a, b), [Insert(b, a), FocusNext(true), MoveForward, MoveBackward]);
  }

  /** Three links of a chain make the chain. */
  lemma ThreeLinks(f: (State, Op) -> Option<State>, states: seq<State>, ops: seq<Op>)
    requires |states| == |ops| == 4
    requires f(states[0], ops[0]) == Some(states[1])
    requires f(states[1], ops[1]) == Some(states[2])
    requires f(states[2], ops[2]) == Some(states[3])
    ensures forall i :: 0 <= i < 3 ==> f(states[i], ops[i]) == Some(states[i + 1])
  {
  }

  lemma RunOfFour(first: nat, states: seq<State>, ops: seq<Op>)
    requires |states| == |ops| == 4 && states[0] == State({first}, [first], first, Leaf(first))
    requires Allowed(states[0], ops[0]) && Allowed(states[1], ops[1]) && Allowed(states[2], ops[2])
             && Allowed(states[3], ops[3])
    requires Apply(states[0], ops[0]) == Some(states[1])
    requires Apply(states[1], ops[1]) == Some(states[2])
    requires Apply(states[2], ops[2]) == Some(states[3])
    ensures Run(first, states, ops)
  {
    ThreeLinks(Apply, states, ops);
  }

  /** Likewise with the first one focused, backward and forward again. */
  lemma FirstMoveNotUndone(a: nat, b: nat)
    requires a != b
    ensures var states := TwoWindows(a, b)[..2] + [TwoWindows(a, b)[3].(focused := a)];
            && Run(a, states, [Insert(b, a), MoveBackward, MoveForward])
            && Apply(states[2], MoveForward) == Some(states[1].(order := [b, a]))
  {
    var states := TwoWindows(a, b)[..2] + [TwoWindows(a, b)[3].(focused := a)];
    TwoOpened(a, b);
    FirstBackward(a, b);
    FirstForward(a, b);
    RunOfThree(a, states, [Insert(b, a), MoveBackward, MoveForward]);
  }

  lemma FirstBackward(a: nat, b: nat)
    requires a != b
    ensures Apply(TwoWindows(a, b)[1], MoveBackward) == Some(TwoWindows(a, b)[3].(focused := a))
  {
    Pair(a, b);
    SwapPair(a, b);
    assert Backward([a, b], 0) == [a, b];
  }

  lemma FirstForward(a: nat, b: nat)
    requires a != b
    ensures Apply(TwoWindows(a, b)[3].(focused := a), MoveForward) == Some(TwoWindows(a, b)[1].(order := [b, a]))
  {
    Pair(a, b);
    SwapPair(b, a);
    assert Forward([a, b], 0) == [b, a];
  }

  lemma RunOfThree(first: nat, states: seq<State>, ops: seq<Op>)
    requires |states| == |ops| == 3 && states[0] == State({first}, [first], first, Leaf(first))
    requires Allowed(states[0], ops[0]) && Allowed(states[1], ops[1]) && Allowed(states[2], ops[2])
    requires Apply(states[0], ops[0]) == Some(states[1])
    requires Apply(states[1], ops[1]) == Some(states[2])
    ensures Run(first, states, ops)
  {
  }

  lemma Pair(a: nat, b: nat)
    requires a != b
    ensures IndexOf([a, b], a) == 0 && IndexOf([a, b], b) == 1 && |{a, b}| == 2
  {
    assert [a, b][1..] == [b];
  }

  lemma TwoOpened(a: nat, b: nat)
    requires a != b
    ensures Apply(TwoWindows(a, b)[0], Insert(b, a)) == Some(TwoWindows(a, b)[1])
  {
    assert IndexOf([a], a) == 0;
    assert {a} + {b} == {a, b} && InsertAt([a], 1, b) == [a, b];
  }

  lemma TwoFocused(a: nat, b: nat)
    requires a != b
    ensures Apply(TwoWindows(a, b)[1], FocusNext(true)) == Some(TwoWindows(a, b)[2])
  {
    Pair(a, b);
  }

  lemma TwoForward(a: nat, b: nat)
    requires a != b
    ensures Apply(TwoWindows(a, b)[2], MoveForward) == Some(TwoWindows(a, b)[3])
  {
    Pair(a, b);
    SwapPair(a, b);
    assert Forward([a, b], 1) == [a, b];
  }

  lemma TwoBackward(a: nat, b: nat)
    requires a != b
    ensures Apply(TwoWindows(a, b)[3], MoveBackward) == Some(TwoWindows(a, b)[2].(order := [b, a]))
  {
    Pair(a, b);
    SwapPair(b, a);
    assert Backward([a, b], 1) == [b, a];
  }

  lemma SwapPair(a: nat, b: nat)
    requires a != b
    ensures SwapValues(Branch(Leaf(a), Leaf(b)), b, a) == SwapValues(Branch(Leaf(a), Leaf(b)), a, b)
            == Branch(Leaf(b), Leaf(a))
  {
    var t := Branch(Leaf(a), Leaf(b));
    assert Leaves(Leaf(a)) == [a] && Leaves(Leaf(b)) == [b];
    assert Leaves(t) == [a, b];
    SwapIs(t, a, b, 0, 1);
    SwapIs(t, b, a, 1, 0);
  }

  lemma CloseIs(st: State, i: nat, buddy: nat)
    requires Inv(st) && IndexOf(st.order, st.focused) == i && GetSibling(st.tree, st.focused) == Some(buddy)
    ensures i < |st.order|
    ensures Apply(st, Close)
         == Some(State(st.windows - {st.focused}, Without(st.order, i), After(st.order, i),
                       RemoveLeaf(st.tree, st.focused).tree))
  {
    SeveralWindows(st);
    SiblingIsLeaf(st.tree, st.focused);
    SiblingSymmetric(st.tree, st.focused);
    assert buddy in st.order && st.focused in st.order;
  }

  /** Opening a window and closing it at once restores everything but the focus. */
  lemma InsertThenClose(st: State, id: nat, mid: State)
    requires Inv(st) && id !in st.windows && Apply(st, Insert(id, st.focused)) == Some(mid)
    ensures var back := Apply(mid.(focused := id), Close);
            back.Some? && back.value.windows == st.windows && back.value.order == st.order && back.value.tree == st.tree
  {
    var k := IndexOf(st.order, st.focused);
    var shown := mid.(focused := id);
    InsertKeeps(st, id, st.focused);
    InsertedAreSiblings(st.tree, st.focused, id);
    InsertThenRemove(st.tree, st.focused, id);
    TakenBack(st.order, k + 1, id);
    IndexUnique(shown.order, k + 1);
    CloseIs(shown, k + 1, st.focused);
  }

  lemma TakenBack(s: seq<nat>, k: nat, id: nat)
    requires k <= |s|
    ensures InsertAt(s, k, id)[k] == id
    ensures Without(InsertAt(s, k, id), k) == s
  {
  }

  // ----- the operations, with cursors -----

  /** A cursor is an index; the length of the list is the place between its last and its first element. */
  function MoveNext(s: seq<nat>, k: nat): (r: nat)
    requires k <= |s|
    ensures r <= |s|
  {
    if k == |s| then 0 else k + 1
  }

  function MovePrev(s: seq<nat>, k: nat): (r: nat)
    requires k <= |s|
    ensures r <= |s|
  {
    if k == 0 then |s| else k - 1
  }

  /** `insert_after`: at the place between last and first it puts the element in front. */
  function PutAfter(s: seq<nat>, k: nat, id: nat): seq<nat>
    requires k <= |s|
  {
    if k == |s| then [id] + s else InsertAt(s, k + 1, id)
  }

  lemma NextByCursor(s: seq<nat>, i: nat)
    requires i < |s|
    ensures var k := MoveNext(s, i);
            MovePrev(s, k) == i && (if k < |s| then s[k] else s[0]) == After(s, i)
  {
  }

  lemma ForwardByCursor(s: seq<nat>, i: nat)
    requires i < |s| && |s| >= 2
    ensures var rest := Without(s, i);
            var k := if i == |rest| then MoveNext(rest, i) else i;
            PutAfter(rest, k, s[i]) == Forward(s, i) && rest[k] == After(s, i)
  {
  }

  lemma BackwardByCursor(s: seq<nat>, i: nat)
    requires i < |s| && |s| >= 2
    ensures var rest := Without(s, i);
            var k := MovePrev(rest, i);
            var k2 := if k == |rest| then MovePrev(rest, k) else k;
            InsertAt(rest, k2, s[i]) == Backward(s, i) && rest[k2] == Before(s, i)
  {
    if i == 0 {
      PutBeforeLast(s);
    } else {
      PutBefore(s, i);
    }
  }

  lemma PutBeforeLast(s: seq<nat>)
    requires |s| >= 2
    ensures Without(s, 0) == s[1..]
    ensures InsertAt(s[1..], |s| - 2, s[0]) == s[1..|s| - 1] + [s[0], s[|s| - 1]]
  {
    var n, rest := |s|, s[1..];
    assert rest[..n - 2] == s[1..n - 1] && rest[n - 2..] == [s[n - 1]];
  }

  lemma PutBefore(s: seq<nat>, i: nat)
    requires 0 < i < |s|
    ensures InsertAt(Without(s, i), i - 1, s[i]) == s[i := s[i - 1]][i - 1 := s[i]]
  {
    var rest := Without(s, i);
    assert rest[..i - 1] == s[..i - 1] && rest[i - 1..] == [s[i - 1]] + s[i + 1..];
    SwapAsParts(s, i);
    assert s[..i - 1] + [s[i]] + ([s[i - 1]] + s[i + 1..]) == s[..i - 1] + [s[i], s[i - 1]] + s[i + 1..];
  }

  lemma SwapAsParts(s: seq<nat>, i: nat)
    requires 0 < i < |s|
    ensures s[i := s[i - 1]][i - 1 := s[i]] == s[..i - 1] + [s[i], s[i - 1]] + s[i + 1..]
  {
  }

  function FirstIn(s: seq<nat>, hits: set<nat>): Option<nat> {
    if s == [] then None else if s[0] in hits then Some(s[0]) else FirstIn(s[1..], hits)
  }

  /** The first of the windows that is hit, and none only if none is hit. */
  lemma {:induction false} FirstHit(s: seq<nat>, hits: set<nat>)
    ensures var r := FirstIn(s, hits);
            && (r.None? <==> forall x :: x in s ==> x !in hits)
            && (r.Some? ==> r.value in hits && exists k :: && 0 <= k < |s| && s[k] == r.value
                                                           && forall j :: 0 <= j < k ==> s[j] !in hits)
  {
    if s != [] && s[0] !in hits {
      FirstHit(s[1..], hits);
      var r := FirstIn(s[1..], hits);
      assert s == [s[0]] + s[1..];
      if r.Some? {
        var k :| 0 <= k < |s[1..]| && s[1..][k] == r.value && forall j :: 0 <= j < k ==> s[1..][j] !in hits;
        assert s[k + 1] == r.value;
        assert forall j :: 1 <= j < k + 1 ==> s[j] == s[1..][j - 1];
      }
    }
  }

  method CursorAt(s: seq<nat>, id: nat) returns (r: Option<nat>)
    ensures r == if id in s then Some(IndexOf(s, id)) else None
  {
    var k: nat := 0;
    assert s[0..] == s;
    while k < |s|
      invariant k <= |s|
      invariant IndexOf(s, id) == k + IndexOf(s[k..], id)
    {
      if s[k] == id {
        return Some(k);
      }
      assert s[k..][1..] == s[k + 1..];
      k := k + 1;
    }
    return None;
  }

  class Desktop {
    var windows: set<nat>
    var order: seq<nat>
    var focused: nat
    var tree: WindowNode

    ghost function Now(): State
      reads this
    {
      State(windows, order, focused, tree)
    }

    /** `new_with_single_window`, which takes the focused id on its own. */
    constructor (id: nat, focusedId: nat)
      ensures Now() == State({id}, [id], focusedId, Leaf(id))
      ensures Inv(Now()) <==> focusedId == id
    {
      windows, order, focused, tree := {id}, [id], focusedId, Leaf(id);
    }

    /** Each operation answers whether every unwrap succeeded. */
    method InsertWindow(id: nat, after: nat) returns (ok: bool)
      modifies this
      ensures ok == Apply(old(Now()), Insert(id, after)).Some?
      ensures ok ==> Now() == Apply(old(Now()), Insert(id, after)).value
    {
      windows := windows + {id};
      tree := InsertValue(tree, after, id);
      var cursor := CursorAt(order, after);
      if cursor.None? {
        return false;
      }
      var k := MoveNext(order, cursor.value);
      order := InsertAt(order, k, id);
      return true;
    }

    method FocusNextWindow(free: bool) returns (ok: bool)
      modifies this
      ensures ok == Apply(old(Now()), FocusNext(free)).Some?
      ensures ok ==> Now() == Apply(old(Now()), FocusNext(free)).value
    {
      if focused !in windows {
        return false;
      }
      if !free {
        return true;
      }
      var cursor := CursorAt(order, focused);
      if cursor.None? {
        return false;
      }
      var k := MoveNext(order, cursor.value);
      if k == |order| {
        k := MoveNext(order, k);
      }
      focused := order[k];
      return focused in windows;
    }

    method FocusPrevWindow(free: bool) returns (ok: bool)
      modifies this
      ensures ok == Apply(old(Now()), FocusPrev(free)).Some?
      ensures ok ==> Now() == Apply(old(Now()), FocusPrev(free)).value
    {
      if focused !in windows {
        return false;
      }
      if !free {
        return true;
      }
      var cursor := CursorAt(order, focused);
      if cursor.None? {
        return false;
      }
      var k := MovePrev(order, cursor.value);
      if k == |order| {
        k := MovePrev(order, k);
      }
      focused := order[k];
      return focused in windows;
    }

    /** `hits` are the windows that contain the position; the first one in the order gets the focus. */
    method FocusWindowAt(hits: set<nat>, free: bool)
      requires Inv(Now())
      modifies this
      ensures Apply(old(Now()), FocusAt(FirstIn(old(order), hits), free)) == Some(Now())
      ensures Inv(Now())
    {
      if !free {
        return;
      }
      var k: nat := 0;
      assert order[0..] == order;
      while k < |order|
        invariant k <= |order| && FirstIn(order[k..], hits) == FirstIn(order, hits)
        invariant Now() == old(Now())
      {
        if order[k] in hits {
          focused := order[k];
          return;
        }
        assert order[k..][1..] == order[k + 1..];
        k := k + 1;
      }
    }

    /** `closed` is the answer of `close_focused_window`. */
    method CloseFocusedWindow() returns (ok: bool, closed: bool)
      modifies this
      ensures ok == Apply(old(Now()), Close).Some?
      ensures ok ==> Now() == Apply(old(Now()), Close).value
      ensures ok ==> (closed <==> |old(windows)| != 1 && GetSibling(old(tree), old(focused)).Some?)
    {
      if |windows| == 1 {
        return true, false;
      }
      var buddy := GetSibling(tree, focused);
      if buddy.None? {
        return true, false;
      }
      if focused !in windows || buddy.value !in windows || buddy.value == focused {
        return false, false;
      }
      windows := windows - {focused};
      tree := RemoveLeaf(tree, focused).tree;
      var cursor := CursorAt(order, focused);
      if cursor.None? {
        return false, false;
      }
      NextByCursor(order, cursor.value);
      var k := MoveNext(order, cursor.value);
      var next := if k < |order| then order[k] else order[0];
      k := MovePrev(order, k);
      order := Without(order, k);
      focused := next;
      return true, true;
    }

    method MoveFocusedWindowForward() returns (ok: bool)
      modifies this
      ensures ok == Apply(old(Now()), MoveForward).Some?
      ensures ok ==> Now() == Apply(old(Now()), MoveForward).value
    {
      if |windows| == 1 {
        return true;
      }
      if focused !in windows {
        return false;
      }
      var cursor := CursorAt(order, focused);
      if cursor.None? || |order| < 2 {
        return false;
      }
      var k := cursor.value;
      var rest := Without(order, k);
      if k == |rest| {
        k := MoveNext(rest, k);
      }
      var swapped := rest[k];
      order := PutAfter(rest, k, focused);
      ForwardByCursor(old(order), cursor.value);
      if swapped !in windows {
        return false;
      }
      tree := SwapValues(tree, focused, swapped);
      return true;
    }

    method MoveFocusedWindowBackward() returns (ok: bool)
      modifies this
      ensures ok == Apply(old(Now()), MoveBackward).Some?
      ensures ok ==> Now() == Apply(old(Now()), MoveBackward).value
    {
      if |windows| == 1 {
        return true;
      }
      if focused !in windows {
        return false;
      }
      var cursor := CursorAt(order, focused);
      if cursor.None? || |order| < 2 {
        return false;
      }
      var rest := Without(order, cursor.value);
      var k := MovePrev(rest, cursor.value);
      if k == |rest| {
        k := MovePrev(rest, k);
      }
      var swapped := rest[k];
      order := InsertAt(rest, k, focused);
      BackwardByCursor(old(order), cursor.value);
      if swapped !in windows {
        return false;
      }
      tree := SwapValues(tree, focused, swapped);
      return true;
    }
  }
}
