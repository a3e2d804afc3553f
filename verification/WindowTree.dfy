/** The tree of buddy windows, by window id. */
module WindowTree {
  import opened Arith

  datatype WindowNode = Leaf(id: nat) | Branch(left: WindowNode, right: WindowNode)

  /** The ids at the leaves, from left to right. */
  function Leaves(t: WindowNode): (s: seq<nat>)
    ensures |s| >= 1
  {
    match t
    case Leaf(w) => [w]
    case Branch(left, right) => Leaves(left) + Leaves(right)
  }

  ghost predicate Distinct(s: seq<nat>) { forall i, j :: 0 <= i < j < |s| ==> s[i] != s[j] }

  function IndexOf(s: seq<nat>, v: nat): (k: nat)
    ensures k <= |s| && (k < |s| ==> s[k] == v)
    ensures k == |s| <==> v !in s
  {
    if s == [] || s[0] == v then 0 else 1 + IndexOf(s[1..], v)
  }

  function Without(s: seq<nat>, k: nat): seq<nat>
    requires k < |s|
  {
    s[..k] + s[k + 1..]
  }

  lemma DistinctParts(a: seq<nat>, b: seq<nat>)
    requires Distinct(a + b)
    ensures Distinct(a) && Distinct(b) && forall x :: x in a ==> x !in b
  {
    assert a == (a + b)[..|a|] && b == (a + b)[|a|..];
    forall x | x in a ensures x !in b {
      var i :| 0 <= i < |a| && a[i] == x;
      assert (a + b)[i] == x;
      assert forall j :: 0 <= j < |b| ==> (a + b)[|a| + j] == b[j];
    }
  }

  lemma IndexInConcat(a: seq<nat>, b: seq<nat>, v: nat)
    ensures IndexOf(a + b, v) == if v in a then IndexOf(a, v) else |a| + IndexOf(b, v)
  {
    if a == [] {
      assert a + b == b;
    } else if a[0] != v {
      assert (a + b)[1..] == a[1..] + b;
      IndexInConcat(a[1..], b, v);
    }
  }

  // ----- insertion -----

  function InsertValue(t: WindowNode, after: nat, id: nat): WindowNode {
    match t
    case Leaf(w) => if w == after then Branch(Leaf(after), Leaf(id)) else t
    case Branch(left, right) => Branch(InsertValue(left, after, id), InsertValue(right, after, id))
  }

  /** The list with `id` behind the first `after`. */
  function InsertedAfter(s: seq<nat>, after: nat, id: nat): seq<nat> {
    PutBehind(s, IndexOf(s, after), id)
  }

  function PutBehind(s: seq<nat>, k: nat, id: nat): seq<nat>
    requires k <= |s|
  {
    if k == |s| then s else InsertAt(s, k + 1, id)
  }

  function InsertAt(s: seq<nat>, k: nat, id: nat): seq<nat>
    requires k <= |s|
  {
    s[..k] + [id] + s[k..]
  }

  lemma InsertAtLeft(a: seq<nat>, b: seq<nat>, k: nat, id: nat)
    requires k <= |a|
    ensures InsertAt(a + b, k, id) == InsertAt(a, k, id) + b
  {
    assert (a + b)[..k] == a[..k] && (a + b)[k..] == a[k..] + b;
  }

  lemma InsertAtRight(a: seq<nat>, b: seq<nat>, k: nat, id: nat)
    requires k <= |b|
    ensures InsertAt(a + b, |a| + k, id) == a + InsertAt(b, k, id)
  {
    assert (a + b)[..|a| + k] == a + b[..k] && (a + b)[|a| + k..] == b[k..];
  }

  lemma {:induction false} InsertMissing(t: WindowNode, after: nat, id: nat)
    requires after !in Leaves(t)
    ensures InsertValue(t, after, id) == t
  {
    if t.Branch? {
      InsertMissing(t.left, after, id);
      InsertMissing(t.right, after, id);
    }
  }

  /** The new window becomes the right-hand neighbour of the old one, and every other leaf stays. */
  lemma {:induction false} InsertLeaves(t: WindowNode, after: nat, id: nat)
    requires Distinct(Leaves(t))
    ensures Leaves(InsertValue(t, after, id)) == InsertedAfter(Leaves(t), after, id)
  {
    match t
    case Leaf(w) =>
    case Branch(left, right) =>
      var a, b := Leaves(left), Leaves(right);
      DistinctParts(a, b);
      IndexInConcat(a, b, after);
      if after in a {
        PutBehindLeft(a, b, IndexOf(a, after), id);
        InsertLeaves(left, after, id);
        InsertMissing(right, after, id);
      } else {
        PutBehindRight(a, b, IndexOf(b, after), id);
        InsertMissing(left, after, id);
        InsertLeaves(right, after, id);
      }
  }

  lemma PutBehindLeft(a: seq<nat>, b: seq<nat>, k: nat, id: nat)
    requires k < |a|
    ensures PutBehind(a + b, k, id) == PutBehind(a, k, id) + b
  {
    InsertAtLeft(a, b, k + 1, id);
  }

  lemma PutBehindRight(a: seq<nat>, b: seq<nat>, k: nat, id: nat)
    requires k <= |b|
    ensures PutBehind(a + b, |a| + k, id) == a + PutBehind(b, k, id)
  {
    if k < |b| {
      InsertAtRight(a, b, k + 1, id);
    }
  }

  /** A window and its new buddy find each other. */
  lemma {:induction false} InsertedAreSiblings(t: WindowNode, after: nat, id: nat)
    requires Distinct(Leaves(t)) && after in Leaves(t) && id !in Leaves(t)
    ensures GetSibling(InsertValue(t, after, id), after) == Some(id)
    ensures GetSibling(InsertValue(t, after, id), id) == Some(after)
  {
    match t
    case Leaf(w) =>
    case Branch(left, right) =>
      DistinctParts(Leaves(left), Leaves(right));
      if after in Leaves(left) {
        InsertedAreSiblings(left, after, id);
        InsertMissing(right, after, id);
        assert InsertValue(left, after, id).Branch?;
      } else {
        InsertMissing(left, after, id);
        InsertedAreSiblings(right, after, id);
        SiblingIsLeaf(left, after);
        SiblingIsLeaf(left, id);
        assert InsertValue(right, after, id).Branch?;
      }
  }

  // ----- siblings and removal -----

  /** The other leaf of the pair that holds `v`; a leaf beside a branch has no sibling. */
  function GetSibling(t: WindowNode, v: nat): Option<nat> {
    match t
    case Leaf(_) => None
    case Branch(Leaf(l), Leaf(r)) => if l == v then Some(r) else if r == v then Some(l) else None
    case Branch(left, right) =>
      var s := GetSibling(left, v);
      if s.Some? then s else GetSibling(right, v)
  }

  lemma {:induction false} SiblingIsLeaf(t: WindowNode, v: nat)
    ensures GetSibling(t, v).Some? ==> v in Leaves(t) && GetSibling(t, v).value in Leaves(t)
  {
    if t.Branch? {
      SiblingIsLeaf(t.left, v);
      SiblingIsLeaf(t.right, v);
    }
  }

  /** Siblings are two different leaves, and each is the other's. */
  lemma {:induction false} SiblingSymmetric(t: WindowNode, v: nat)
    requires Distinct(Leaves(t)) && GetSibling(t, v).Some?
    ensures GetSibling(t, v).value != v && GetSibling(t, GetSibling(t, v).value) == Some(v)
  {
    var left, right := t.left, t.right;
    DistinctParts(Leaves(left), Leaves(right));
    if left.Leaf? && right.Leaf? {
      assert left.id in Leaves(left) && right.id in Leaves(right);
    } else {
      SiblingIsLeaf(left, v);
      SiblingIsLeaf(right, v);
      if GetSibling(left, v).Some? {
        SiblingSymmetric(left, v);
      } else {
        SiblingSymmetric(right, v);
        SiblingIsLeaf(left, GetSibling(right, v).value);
      }
    }
  }

  datatype Removal = Removal(tree: WindowNode, removed: bool)

  /** `remove_leaf`; it reports success only for a pair at the root, and then also tries the right half. */
  function RemoveLeaf(t: WindowNode, v: nat): Removal {
    match t
    case Leaf(_) => Removal(t, false)
    case Branch(Leaf(l), Leaf(r)) =>
      if l == v then Removal(Leaf(r), true) else if r == v then Removal(Leaf(l), true) else Removal(t, false)
    case Branch(left, right) =>
      var onLeft := RemoveLeaf(left, v);
      Removal(Branch(onLeft.tree, if onLeft.removed then right else RemoveLeaf(right, v).tree), false)
  }

  lemma {:induction false} RemoveMissing(t: WindowNode, v: nat)
    requires v !in Leaves(t)
    ensures RemoveLeaf(t, v) == Removal(t, false)
  {
    if t.Branch? {
      RemoveMissing(t.left, v);
      RemoveMissing(t.right, v);
    }
  }

  /** Exactly `v` goes when it has a sibling, and nothing changes when it has none. */
  lemma {:induction false} RemoveExact(t: WindowNode, v: nat)
    requires Distinct(Leaves(t))
    ensures GetSibling(t, v).None? ==> RemoveLeaf(t, v).tree == t
    ensures GetSibling(t, v).Some? ==>
              v in Leaves(t) && Leaves(RemoveLeaf(t, v).tree) == Without(Leaves(t), IndexOf(Leaves(t), v))
  {
    if t.Branch? && t.left.Leaf? && t.right.Leaf? {
      PairRemoved(t.left.id, t.right.id, v);
    } else if t.Branch? {
      var a, b := Leaves(t.left), Leaves(t.right);
      DistinctParts(a, b);
      SiblingIsLeaf(t.left, v);
      SiblingIsLeaf(t.right, v);
      if v in a {
        RemoveExact(t.left, v);
        RemoveMissing(t.right, v);
        WithoutLeft(a, b, v);
      } else {
        RemoveMissing(t.left, v);
        RemoveExact(t.right, v);
        if v in b {
          WithoutRight(a, b, v);
        }
      }
    }
  }

  lemma PairRemoved(l: nat, r: nat, v: nat)
    ensures var t := Branch(Leaf(l), Leaf(r));
            (v == l || v == r) ==>
              v in Leaves(t) && Leaves(RemoveLeaf(t, v).tree) == Without(Leaves(t), IndexOf(Leaves(t), v))
  {
    var s := Leaves(Branch(Leaf(l), Leaf(r)));
    assert Leaves(Leaf(l)) == [l] && Leaves(Leaf(r)) == [r];
    assert s == [l, r] && s[1..] == [r];
    assert Without(s, 0) == [r] && Without(s, 1) == [l];
  }

  lemma WithoutLeft(a: seq<nat>, b: seq<nat>, v: nat)
    requires v in a
    ensures Without(a + b, IndexOf(a + b, v)) == Without(a, IndexOf(a, v)) + b
  {
    IndexInConcat(a, b, v);
    WithoutAtLeft(a, b, IndexOf(a, v));
  }

  lemma WithoutRight(a: seq<nat>, b: seq<nat>, v: nat)
    requires v !in a && v in b
    ensures Without(a + b, IndexOf(a + b, v)) == a + Without(b, IndexOf(b, v))
  {
    IndexInConcat(a, b, v);
    WithoutAtRight(a, b, IndexOf(b, v));
  }

  lemma WithoutAtLeft(a: seq<nat>, b: seq<nat>, k: nat)
    requires k < |a|
    ensures Without(a + b, k) == Without(a, k) + b
  {
    assert (a + b)[..k] == a[..k] && (a + b)[k + 1..] == a[k + 1..] + b;
  }

  lemma WithoutAtRight(a: seq<nat>, b: seq<nat>, k: nat)
    requires k < |b|
    ensures Without(a + b, |a| + k) == a + Without(b, k)
  {
    assert (a + b)[..|a| + k] == a + b[..k] && (a + b)[|a| + k + 1..] == b[k + 1..];
  }

  /** Closing a window right after it was opened gives the old tree back. */
  lemma {:induction false} InsertThenRemove(t: WindowNode, after: nat, id: nat)
    requires Distinct(Leaves(t)) && after in Leaves(t) && id !in Leaves(t)
    ensures RemoveLeaf(InsertValue(t, after, id), id).tree == t
  {
    match t
    case Leaf(w) =>
    case Branch(left, right) =>
      DistinctParts(Leaves(left), Leaves(right));
      if after in Leaves(left) {
        InsertThenRemove(left, after, id);
        InsertMissing(right, after, id);
        RemoveMissing(right, id);
      } else {
        InsertMissing(left, after, id);
        RemoveMissing(left, id);
        InsertThenRemove(right, after, id);
      }
  }

  // ----- swapping -----

  function SetLeaf(t: WindowNode, i: nat, v: nat): WindowNode
    requires i < |Leaves(t)|
  {
    match t
    case Leaf(_) => Leaf(v)
    case Branch(left, right) =>
      if i < |Leaves(left)| then Branch(SetLeaf(left, i, v), right)
      else Branch(left, SetLeaf(right, i - |Leaves(left)|, v))
  }

  lemma {:induction false} SetLeafAt(t: WindowNode, i: nat, v: nat)
    requires i < |Leaves(t)|
    ensures Leaves(SetLeaf(t, i, v)) == Leaves(t)[i := v]
  {
    match t
    case Leaf(_) =>
    case Branch(left, right) =>
      if i < |Leaves(left)| {
        SetLeafAt(left, i, v);
      } else {
        SetLeafAt(right, i - |Leaves(left)|, v);
      }
  }

  /** Index of the last leaf that holds `v`, which is where the search ends up. */
  function LastIndexOf(s: seq<nat>, v: nat): (k: Option<nat>)
    ensures k.None? <==> v !in s
    ensures k.Some? ==> k.value < |s| && s[k.value] == v
  {
    if s == [] then None
    else if s[|s| - 1] == v then Some(|s| - 1)
    else LastIndexOf(s[..|s| - 1], v)
  }

  lemma LastIndexUnique(s: seq<nat>, i: nat)
    requires Distinct(s) && i < |s|
    ensures LastIndexOf(s, s[i]) == Some(i)
  {
  }

  /** `swap_values`: a value asked for twice is found only once, and then nothing happens. */
  function SwapValues(t: WindowNode, v: nat, w: nat): WindowNode {
    var i, j := LastIndexOf(Leaves(t), v), LastIndexOf(Leaves(t), w);
    if v == w || i.None? || j.None? then t
    else
      SetLeafAt(t, i.value, w);
      SetLeaf(SetLeaf(t, i.value, w), j.value, v)
  }

  /** Two leaves exchange their windows and the others keep theirs. */
  lemma SwapLeaves(t: WindowNode, v: nat, w: nat, i: nat, j: nat)
    requires Distinct(Leaves(t)) && i < |Leaves(t)| && j < |Leaves(t)| && i != j
    requires Leaves(t)[i] == v && Leaves(t)[j] == w
    ensures Leaves(SwapValues(t, v, w)) == Leaves(t)[i := w][j := v]
  {
    assert v != w;
    LastIndexUnique(Leaves(t), i);
    LastIndexUnique(Leaves(t), j);
    SetLeafAt(t, i, w);
    SetLeafAt(SetLeaf(t, i, w), j, v);
  }

  lemma {:induction false} SetLeafAgain(t: WindowNode, i: nat, v: nat, w: nat)
    requires i < |Leaves(t)|
    ensures |Leaves(SetLeaf(t, i, v))| == |Leaves(t)|
    ensures SetLeaf(SetLeaf(t, i, v), i, w) == SetLeaf(t, i, w)
    ensures v == Leaves(t)[i] ==> SetLeaf(t, i, v) == t
  {
    SetLeafAt(t, i, v);
    match t
    case Leaf(_) =>
    case Branch(left, right) =>
      var n := |Leaves(left)|;
      if i < n {
        SetLeafAgain(left, i, v, w);
      } else {
        SetLeafAgain(right, i - n, v, w);
      }
  }

  lemma SwapIs(t: WindowNode, v: nat, w: nat, i: nat, j: nat)
    requires Distinct(Leaves(t)) && i < |Leaves(t)| && j < |Leaves(t)| && i != j
    requires Leaves(t)[i] == v && Leaves(t)[j] == w
    ensures |Leaves(SetLeaf(t, i, w))| == |Leaves(t)|
    ensures SwapValues(t, v, w) == SetLeaf(SetLeaf(t, i, w), j, v)
  {
    SetLeafAt(t, i, w);
    LastIndexUnique(Leaves(t), i);
    LastIndexUnique(Leaves(t), j);
  }

  lemma SetLeavesBack(t: WindowNode, t1: WindowNode, t2: WindowNode, v: nat, w: nat, i: nat, j: nat)
    requires i < |Leaves(t)| && j < |Leaves(t)| && i != j && Leaves(t)[i] == v && Leaves(t)[j] == w
    requires t1 == SetLeaf(t, i, w) && |Leaves(t1)| == |Leaves(t)| && Leaves(t1)[j] == w
    requires t2 == SetLeaf(t1, j, v) && |Leaves(t2)| == |Leaves(t)|
    ensures SetLeaf(t2, j, w) == t1
    ensures SetLeaf(t1, i, v) == t
  {
    SetLeafAgain(t1, j, v, w);
    SetLeafAgain(t1, j, w, w);
    SetLeafAgain(t, i, w, v);
    SetLeafAgain(t, i, v, v);
  }

  lemma SwapDistinct(s: seq<nat>, i: nat, j: nat)
    requires Distinct(s) && i < |s| && j < |s|
    ensures Distinct(s[i := s[j]][j := s[i]])
  {
    var r := s[i := s[j]][j := s[i]];
    assert forall k :: 0 <= k < |s| ==> r[k] == s[if k == i then j else if k == j then i else k];
  }

  /** Swapping two windows twice changes nothing. */
  lemma SwapTwice(t: WindowNode, v: nat, w: nat, i: nat, j: nat)
    requires Distinct(Leaves(t)) && i < |Leaves(t)| && j < |Leaves(t)| && i != j
    requires Leaves(t)[i] == v && Leaves(t)[j] == w
    ensures SwapValues(SwapValues(t, v, w), v, w) == t
  {
    SwapIs(t, v, w, i, j);
    SwapLeaves(t, v, w, i, j);
    SwapDistinct(Leaves(t), i, j);
    SetLeafAt(t, i, w);
    var t1 := SetLeaf(t, i, w);
    var t2 := SwapValues(t, v, w);
    SetLeavesBack(t, t1, t2, v, w, i, j);
    SwapIs(t2, v, w, j, i);
  }
}
