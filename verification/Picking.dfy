/** Which elements of a sequence a loop picks: the first of a kind, the last, or all of
    them in order. */
module Picking {

  ghost predicate First<T(!new)>(s: seq<T>, p: T -> bool, k: nat)
  {
    k < |s| && p(s[k]) && forall j :: 0 <= j < k ==> !p(s[j])
  }

  ghost predicate Last<T(!new)>(s: seq<T>, p: T -> bool, k: nat)
  {
    k < |s| && p(s[k]) && forall j :: k < j < |s| ==> !p(s[j])
  }

  ghost predicate Never<T(!new)>(s: seq<T>, p: T -> bool)
  {
    forall j :: 0 <= j < |s| ==> !p(s[j])
  }

  lemma OneMore<T(!new)>(init: seq<T>, last: T, p: T -> bool)
    ensures var s := init + [last];
            && s[|init|] == last && (forall k: nat :: k < |init| ==> s[k] == init[k])
            && (forall k: nat :: Last(s, p, k) <==>
                  if p(last) then k == |init| else k < |init| && Last(init, p, k))
            && (forall k: nat :: First(s, p, k) <==>
                  if Never(init, p) then k == |init| && p(last) else k < |init| && First(init, p, k))
            && (Never(s, p) <==> Never(init, p) && !p(last))
  {
    var s := init + [last];
    assert forall k :: 0 <= k < |init| ==> s[k] == init[k];
    if !Never(init, p) {
      var k := FirstIndex(init, p);
    }
  }

  lemma {:induction false} FirstIndex<T(!new)>(s: seq<T>, p: T -> bool) returns (k: nat)
    requires !Never(s, p)
    ensures First(s, p, k)
  {
    if p(s[0]) {
      k := 0;
    } else {
      k := FirstIndex(s[1..], p);
      k := k + 1;
    }
  }

  /** `r` is exactly the elements of `s` of this kind, each as often as it stands there,
      in the order of `s`: the positions they stand at ascend and miss none. */
  ghost predicate Picks<T(!new)>(s: seq<T>, p: T -> bool, r: seq<T>)
  {
    exists at: seq<nat> :: PicksAt(s, p, r, at)
  }

  ghost predicate PicksAt<T(!new)>(s: seq<T>, p: T -> bool, r: seq<T>, at: seq<nat>)
  {
    && |at| == |r|
    && (forall i :: 0 <= i < |at| ==> at[i] < |s| && s[at[i]] == r[i] && p(r[i]))
    && (forall i, j :: 0 <= i < j < |at| ==> at[i] < at[j])
    && forall k: nat :: k < |s| && p(s[k]) ==> k in at
  }

  lemma PicksNone<T(!new)>(p: T -> bool)
    ensures Picks([], p, [])
  {
    assert PicksAt([], p, [], []);
  }

  lemma PicksNext<T(!new)>(s: seq<T>, p: T -> bool, r: seq<T>, x: T)
    requires Picks(s, p, r)
    ensures Picks(s + [x], p, r + if p(x) then [x] else [])
  {
    var at: seq<nat> :| PicksAt(s, p, r, at);
    if p(x) {
      PicksIt(s, p, r, at, x);
    } else {
      PicksOn(s, p, r, at, x);
      assert r + [] == r;
    }
  }

  lemma PicksIt<T(!new)>(s: seq<T>, p: T -> bool, r: seq<T>, at: seq<nat>, x: T)
    requires PicksAt(s, p, r, at) && p(x)
    ensures PicksAt(s + [x], p, r + [x], at + [|s|])
  {
    var t, next: seq<nat> := s + [x], at + [|s|];
    forall k: nat | k < |t| && p(t[k]) ensures k in next {
      if k < |s| {
        assert t[k] == s[k] && k in at;
      } else {
        assert next[|at|] == k;
      }
    }
  }

  lemma PicksOn<T(!new)>(s: seq<T>, p: T -> bool, r: seq<T>, at: seq<nat>, x: T)
    requires PicksAt(s, p, r, at) && !p(x)
    ensures PicksAt(s + [x], p, r, at)
  {
    var t := s + [x];
    forall k: nat | k < |t| && p(t[k]) ensures k in at {
      assert t[|s|] == x;
      assert t[k] == s[k];
    }
  }
}
