/** Generic sequence operations with the meaning of the JavaScript array
    methods the handlers use: `some`, `find` (by position) and `filter`.
 */
module Seqs {

  datatype Option<+T> = None | Some(value: T)

  /** `i` is the position `Array.prototype.find` selects: the first element satisfying `p`. */
  ghost predicate IsFirst<T>(s: seq<T>, p: T -> bool, i: int)
  {
    && 0 <= i < |s|
    && p(s[i])
    && forall j :: 0 <= j < i ==> !p(s[j])
  }

  /** `Array.prototype.some`: does any element satisfy `p`? */
  function Any<T>(s: seq<T>, p: T -> bool): (r: bool)
    ensures r <==> exists j :: 0 <= j < |s| && p(s[j])
  {
    if |s| == 0 then false
    else if p(s[0]) then true
    else
      var rest := Any(s[1..], p);
      assert rest ==> exists j :: 0 <= j < |s| && p(s[j]) by {
        if rest {
          var k :| 0 <= k < |s[1..]| && p(s[1..][k]);
          assert p(s[k + 1]);
        }
      }
      rest
  }

  /** The index of the element `Array.prototype.find` returns, or None when it returns undefined. */
  function FirstIndex<T>(s: seq<T>, p: T -> bool): (r: Option<nat>)
    ensures r.None? <==> forall j :: 0 <= j < |s| ==> !p(s[j])
    ensures r.Some? ==> IsFirst(s, p, r.value)
  {
    if |s| == 0 then None
    else if p(s[0]) then Some(0)
    else
      match FirstIndex(s[1..], p)
      case None =>
        assert forall j :: 1 <= j < |s| ==> s[j] == s[1..][j - 1];
        None
      case Some(k) =>
        assert forall j :: 1 <= j < k + 1 ==> s[j] == s[1..][j - 1];
        Some(k + 1)
  }

  /** `Array.prototype.filter`: the elements satisfying `p`, each kept as often as it occurs. */
  function Filter<T(!new)>(s: seq<T>, p: T -> bool): (r: seq<T>)
    ensures |r| <= |s|
    ensures forall x {:trigger multiset(r)[x]} :: multiset(r)[x] == (if p(x) then multiset(s)[x] else 0)
    ensures forall x {:trigger x in r} :: x in r <==> x in s && p(x)
  {
    if |s| == 0 then []
    else
      assert s == [s[0]] + s[1..];
      if p(s[0]) then [s[0]] + Filter(s[1..], p) else Filter(s[1..], p)
  }

  /** Filtering distributes over concatenation; with `Filter([x])` this fixes the order of the result. */
  lemma {:induction false} FilterAppend<T(!new)>(a: seq<T>, b: seq<T>, p: T -> bool)
    ensures Filter(a + b, p) == Filter(a, p) + Filter(b, p)
  {
    if |a| == 0 {
      assert a + b == b;
    } else {
      assert (a + b)[1..] == a[1..] + b;
      FilterAppend(a[1..], b, p);
    }
  }

  /** Filtering a sequence whose every element passes leaves it unchanged. */
  lemma {:induction false} FilterKeepsAll<T(!new)>(s: seq<T>, p: T -> bool)
    requires forall j :: 0 <= j < |s| ==> p(s[j])
    ensures Filter(s, p) == s
  {
    if |s| > 0 {
      FilterKeepsAll(s[1..], p);
    }
  }

  /** When exactly the element at `k` fails `p`, filtering removes that one position and keeps the rest in order. */
  lemma FilterDropsOne<T(!new)>(s: seq<T>, p: T -> bool, k: int)
    requires 0 <= k < |s| && !p(s[k])
    requires forall j :: 0 <= j < |s| && j != k ==> p(s[j])
    ensures Filter(s, p) == s[..k] + s[k + 1..]
  {
    var front, back := s[..k], s[k + 1..];
    assert Filter(front, p) == front by {
      KeepsSlice(s, p, 0, k);
      assert s[0..k] == front;
    }
    assert Filter(back, p) == back by {
      KeepsSlice(s, p, k + 1, |s|);
      assert s[k + 1..|s|] == back;
    }
    SplitAt(s, k);
    FilterDropsSingle(front, s[k], back, p);
  }

  lemma FilterDropsSingle<T(!new)>(front: seq<T>, x: T, back: seq<T>, p: T -> bool)
    requires !p(x) && Filter(front, p) == front && Filter(back, p) == back
    ensures Filter(front + [x] + back, p) == front + back
  {
    FilterAppend(front + [x], back, p);
    FilterAppend(front, [x], p);
    assert Filter([x], p) == [];
    assert front + [] == front;
  }

  lemma KeepsSlice<T(!new)>(s: seq<T>, p: T -> bool, lo: int, hi: int)
    requires 0 <= lo <= hi <= |s|
    requires forall j :: lo <= j < hi ==> p(s[j])
    ensures Filter(s[lo..hi], p) == s[lo..hi]
  {
    var t := s[lo..hi];
    assert forall j :: 0 <= j < |t| ==> t[j] == s[lo + j];
    FilterKeepsAll(t, p);
  }

  /** A sequence is its prefix, the element at `k`, and its suffix. */
  lemma SplitAt<T>(s: seq<T>, k: int)
    requires 0 <= k < |s|
    ensures s == s[..k] + [s[k]] + s[k + 1..]
  {
  }

  /** Moving one element to the end keeps the length and the members. */
  lemma MoveToEnd<T>(s: seq<T>, k: int)
    requires 0 <= k < |s|
    ensures |s[..k] + s[k + 1..] + [s[k]]| == |s|
    ensures forall x :: x in s[..k] + s[k + 1..] + [s[k]] <==> x in s
  {
    SplitAt(s, k);
    assert multiset(s[..k] + s[k + 1..] + [s[k]]) == multiset(s);
  }

  /** No value occurs twice. */
  ghost predicate NoDuplicates<T>(s: seq<T>)
  {
    forall i, j :: 0 <= i < j < |s| ==> s[i] != s[j]
  }
}
