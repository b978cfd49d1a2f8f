/** List operations on a route ("parcours"), generic in the element type: the bundled revision
    edits `Waypoint`s, the standalone form plain strings. Each is what the form handlers do to
    their copy of the list with `splice`, `filter` and `reverse`. */
module Parcours {

  /** `a.splice(i, 0, x)` for a position within the list. */
  function InsertAt<T>(s: seq<T>, i: int, x: T): (r: seq<T>)
    requires 0 <= i <= |s|
    ensures |r| == |s| + 1 && r[i] == x
    ensures forall k :: 0 <= k < i ==> r[k] == s[k]
    ensures forall k :: i < k < |r| ==> r[k] == s[k - 1]
  {
    s[..i] + [x] + s[i..]
  }

  /** `a.splice(i, 1)` for a position within the list. */
  function RemoveAt<T>(s: seq<T>, i: int): (r: seq<T>)
    requires 0 <= i < |s|
    ensures |r| == |s| - 1
    ensures forall k :: 0 <= k < i ==> r[k] == s[k]
    ensures forall k :: i <= k < |r| ==> r[k] == s[k + 1]
  {
    s[..i] + s[i + 1..]
  }

  /** Removing what was just inserted gives the list back. */
  lemma RemoveInserted<T>(s: seq<T>, i: int, x: T)
    requires 0 <= i <= |s|
    ensures RemoveAt(InsertAt(s, i, x), i) == s
  {
  }

  /** Inserting back what was removed gives the list back. */
  lemma InsertRemoved<T>(s: seq<T>, i: int)
    requires 0 <= i < |s|
    ensures InsertAt(RemoveAt(s, i), i, s[i]) == s
  {
  }

  lemma MultisetInsert<T>(s: seq<T>, i: int, x: T)
    requires 0 <= i <= |s|
    ensures multiset(InsertAt(s, i, x)) == multiset(s) + multiset{x}
  {
    assert s == s[..i] + s[i..];
  }

  lemma MultisetRemove<T>(s: seq<T>, i: int)
    requires 0 <= i < |s|
    ensures multiset(RemoveAt(s, i)) == multiset(s) - multiset{s[i]}
  {
    assert s == s[..i] + [s[i]] + s[i + 1..];
  }

  /** Where `splice(start, ...)` begins for a possibly negative `start` (ECMA-262, section
      23.1.3.31): counted from the end and clamped to the list. */
  function SpliceStart(len: nat, start: int): (r: nat)
    ensures r <= len
    ensures 0 <= start <= len ==> r == start
    ensures -(len as int) <= start < 0 ==> r == len as int + start
    ensures start < -(len as int) ==> r == 0
  {
    if start < 0 then (if len + start < 0 then 0 else len + start)
    else if start > len then len else start
  }

  /** `copy.splice(copy.length - 1, 0, x)`: the new entry goes just before the last one (or
      alone into an empty list). */
  function InsertBeforeLast<T>(s: seq<T>, x: T): (r: seq<T>)
    ensures |r| == |s| + 1
    ensures s == [] ==> r == [x]
    ensures s != [] ==> r[|s| - 1] == x && r[|s|] == s[|s| - 1]
    ensures |s| >= 2 ==> r[0] == s[0]
  {
    InsertAt(s, SpliceStart(|s|, |s| - 1), x)
  }

  /** Inserting before the last entry adds `x` in front of the destination, keeps the start
      and the destination of a route of two or more points, and is undone by removing the
      entry at the old last index. */
  lemma InsertBeforeLastShape<T>(s: seq<T>, x: T)
    ensures var r := InsertBeforeLast(s, x);
      && |r| == |s| + 1
      && (s == [] ==> r == [x])
      && (s != [] ==> r[|s| - 1] == x && r[|s|] == s[|s| - 1] && RemoveAt(r, |s| - 1) == s)
      && (|s| >= 2 ==> r[0] == s[0])
      && multiset(r) == multiset(s) + multiset{x}
  {
    if s != [] {
      RemoveInserted(s, |s| - 1, x);
      MultisetInsert(s, |s| - 1, x);
    }
  }

  /** `s.filter((_, i) => i !== index)`: every entry except the one at position `index`. */
  function WithoutIndex<T>(s: seq<T>, index: int): (r: seq<T>)
    ensures 0 <= index < |s| ==> r == RemoveAt(s, index)
    ensures !(0 <= index < |s|) ==> r == s
  {
    if s == [] then []
    else
      var rest := WithoutIndex(s[1..], index - 1);
      if index == 0 then rest
      else
        assert 0 < index < |s| ==> s[..index] + s[index + 1..] == [s[0]] + (s[1..][..index - 1] + s[1..][index..]);
        [s[0]] + rest
  }

  /** The remove-step handler: no change for a route of at most two points (start and
      destination), otherwise drop position `index`. */
  function RemoveStep<T>(s: seq<T>, index: int): (r: seq<T>)
    ensures |s| <= 2 ==> r == s
    ensures |r| == |s| || (|s| > 2 && |r| == |s| - 1)
    ensures |s| >= 2 ==> |r| >= 2
  {
    if |s| <= 2 then s else WithoutIndex(s, index)
  }

  lemma RemoveStepShape<T>(s: seq<T>, index: int)
    ensures |s| <= 2 ==> RemoveStep(s, index) == s
    ensures |s| > 2 && 0 <= index < |s| ==> RemoveStep(s, index) == RemoveAt(s, index)
    ensures |s| > 2 && 0 <= index < |s| ==> |RemoveStep(s, index)| == |s| - 1 >= 2
    ensures !(0 <= index < |s|) ==> RemoveStep(s, index) == s
  {
  }

  /** The drop handler: `[item] = copy.splice(from, 1)` then `copy.splice(to, 0, item)`. */
  function Move<T>(s: seq<T>, from: int, to: int): (r: seq<T>)
    requires 0 <= from < |s| && 0 <= to < |s|
    ensures |r| == |s| && r[to] == s[from]
  {
    InsertAt(RemoveAt(s, from), to, s[from])
  }

  /** A move is a permutation that leaves the other entries in their relative order, and moving
      back undoes it. */
  lemma MoveProperties<T>(s: seq<T>, from: int, to: int)
    requires 0 <= from < |s| && 0 <= to < |s|
    ensures multiset(Move(s, from, to)) == multiset(s)
    ensures RemoveAt(Move(s, from, to), to) == RemoveAt(s, from)
    ensures Move(Move(s, from, to), to, from) == s
  {
    var rest := RemoveAt(s, from);
    MultisetRemove(s, from);
    MultisetInsert(rest, to, s[from]);
    RemoveInserted(rest, to, s[from]);
    InsertRemoved(s, from);
  }

  /** Moving an entry onto itself changes nothing. */
  lemma MoveToSelf<T>(s: seq<T>, i: int)
    requires 0 <= i < |s|
    ensures Move(s, i, i) == s
  {
    InsertRemoved(s, i);
  }

  /** `[...s].reverse()`. */
  function Reversed<T>(s: seq<T>): (r: seq<T>)
    ensures |r| == |s|
    ensures forall i :: 0 <= i < |s| ==> r[i] == s[|s| - 1 - i]
  {
    if s == [] then [] else Reversed(s[1..]) + [s[0]]
  }

  /** Reversal is an involution and a permutation. */
  lemma ReversedReversed<T>(s: seq<T>)
    ensures Reversed(Reversed(s)) == s
  {
  }

  lemma {:induction false} ReversedMultiset<T>(s: seq<T>)
    ensures multiset(Reversed(s)) == multiset(s)
  {
    if s != [] {
      ReversedMultiset(s[1..]);
      assert s == [s[0]] + s[1..];
    }
  }

  /** `s.filter(p)`. */
  function Filter<T>(s: seq<T>, p: T -> bool): (r: seq<T>)
    ensures |r| <= |s|
    ensures forall i :: 0 <= i < |r| ==> p(r[i])
  {
    if s == [] then []
    else if p(s[0]) then [s[0]] + Filter(s[1..], p)
    else Filter(s[1..], p)
  }

  /** The filter keeps an entry exactly when it passes: what it keeps comes from the list, and
      every passing entry of the list is kept. */
  lemma {:induction false} FilterMembers<T>(s: seq<T>, p: T -> bool)
    ensures forall i :: 0 <= i < |Filter(s, p)| ==> Filter(s, p)[i] in s
    ensures forall i :: 0 <= i < |s| && p(s[i]) ==> s[i] in Filter(s, p)
  {
    if s != [] {
      FilterMembers(s[1..], p);
      assert forall i :: 0 < i < |s| ==> s[i] == s[1..][i - 1];
    }
  }

  /** Filtering works piece by piece, so it keeps the order of what it keeps. */
  lemma {:induction false} FilterAppend<T>(a: seq<T>, b: seq<T>, p: T -> bool)
    ensures Filter(a + b, p) == Filter(a, p) + Filter(b, p)
  {
    if a == [] {
      assert a + b == b;
    } else {
      assert (a + b)[1..] == a[1..] + b;
      FilterAppend(a[1..], b, p);
    }
  }

  /** A filter that every entry passes keeps the whole list; one none passes keeps nothing. */
  lemma {:induction false} FilterAllOrNone<T>(s: seq<T>, p: T -> bool)
    ensures (forall i :: 0 <= i < |s| ==> p(s[i])) ==> Filter(s, p) == s
    ensures (forall i :: 0 <= i < |s| ==> !p(s[i])) ==> Filter(s, p) == []
  {
    if s != [] {
      FilterAllOrNone(s[1..], p);
      assert forall i :: 0 <= i < |s[1..]| ==> s[1..][i] == s[i + 1];
    }
  }

  lemma {:induction false} FilterMultiset<T>(s: seq<T>, p: T -> bool)
    ensures multiset(Filter(s, p)) <= multiset(s)
  {
    if s != [] {
      FilterMultiset(s[1..], p);
      assert s == [s[0]] + s[1..];
    }
  }

  /** The filter keeps every passing entry as often as the list holds it, and no other. */
  lemma {:induction false} FilterCount<T>(s: seq<T>, p: T -> bool, x: T)
    ensures multiset(Filter(s, p))[x] == if p(x) then multiset(s)[x] else 0
  {
    if s != [] {
      FilterCount(s[1..], p, x);
      assert s == [s[0]] + s[1..];
    }
  }

  /** `s.slice(1, -1)`: everything but the first and the last entry. */
  function Interior<T>(s: seq<T>): (r: seq<T>)
    ensures |s| >= 2 ==> r == s[1..|s| - 1]
    ensures |s| < 2 ==> r == []
  {
    if |s| >= 2 then s[1..|s| - 1] else []
  }

  /** An interior entry that passes the filter is kept. */
  lemma InteriorKept<T>(s: seq<T>, p: T -> bool, i: int)
    requires 0 < i < |s| - 1 && p(s[i])
    ensures s[i] in Filter(Interior(s), p)
  {
    assert Interior(s)[i - 1] == s[i];
    FilterMembers(Interior(s), p);
  }

  /** The filtered interior is empty exactly when no interior entry passes. */
  lemma InteriorNoneKept<T>(s: seq<T>, p: T -> bool)
    ensures (forall i :: 0 < i < |s| - 1 ==> !p(s[i])) <==> Filter(Interior(s), p) == []
  {
    var inner := Interior(s);
    if forall i :: 0 < i < |s| - 1 ==> !p(s[i]) {
      assert forall i :: 0 <= i < |inner| ==> inner[i] == s[i + 1];
      FilterAllOrNone(inner, p);
    } else {
      var i :| 0 < i < |s| - 1 && p(s[i]);
      InteriorKept(s, p, i);
    }
  }

  /** Inserting before the last entry extends the interior at its end. */
  lemma InteriorInsertBeforeLast<T>(s: seq<T>, x: T)
    requires |s| >= 2
    ensures Interior(InsertBeforeLast(s, x)) == Interior(s) + [x]
  {
  }

  /** The interior does not see the two ends. */
  lemma InteriorIgnoresEnds<T>(s: seq<T>, first: T, last: T)
    requires |s| >= 2
    ensures Interior(s[0 := first][|s| - 1 := last]) == Interior(s)
  {
  }
}
