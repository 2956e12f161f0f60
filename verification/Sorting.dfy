/** Sorting by a string key (`sort`, `sort_by`), and what a permutation leaves alone. */
module Sorting {
  import opened Base
  import opened Texts

  lemma Without<T>(s: seq<T>, i: nat)
    requires i < |s|
    ensures multiset(s) == multiset(s[..i] + s[i + 1..]) + multiset{s[i]}
  {
    assert s == s[..i] + [s[i]] + s[i + 1..];
  }

  lemma SameCount<T>(a: seq<T>, b: seq<T>)
    requires multiset(a) == multiset(b)
    ensures |a| == |b| && forall x :: x in a <==> x in b
  {
    assert |multiset(a)| == |a| && |multiset(b)| == |b|;
    forall x ensures x in a <==> x in b {
      assert x in a <==> x in multiset(a);
      assert x in b <==> x in multiset(b);
    }
  }

  /** The last element of one permutation stands somewhere in the other, and the
      rests are permutations again. */
  lemma MatchLast<T>(a: seq<T>, b: seq<T>) returns (i: nat)
    requires multiset(a) == multiset(b) && a != []
    ensures i < |b| && b[i] == a[|a| - 1]
    ensures multiset(a[..|a| - 1]) == multiset(b[..i] + b[i + 1..])
  {
    var n := |a| - 1;
    SameCount(a, b);
    assert a[n] in b;
    i :| 0 <= i < |b| && b[i] == a[n];
    Without(b, i);
    Without(a, n);
    assert a[..n] + a[n + 1..] == a[..n];
    CancelOne(multiset(a[..n]), multiset(b[..i] + b[i + 1..]), a[n]);
  }

  lemma CancelOne<T>(m: multiset<T>, n: multiset<T>, x: T)
    requires m + multiset{x} == n + multiset{x}
    ensures m == n
  {
    assert m + multiset{x} - multiset{x} == m && n + multiset{x} - multiset{x} == n;
  }

  // ----- Sorting on a key ------------------------------------------------------------

  ghost predicate OrderedBy<T(!new)>(s: seq<T>, key: T -> string)
  {
    forall i, j :: 0 <= i < j < |s| ==> AtMost(key(s[i]), key(s[j]))
  }

  /** Insert before the first larger key: equal keys keep their order. */
  function InsertBy<T>(s: seq<T>, x: T, key: T -> string): (r: seq<T>)
    ensures multiset(r) == multiset(s) + multiset{x}
  {
    if s == [] then [x]
    else if Less(key(x), key(s[|s| - 1])) then
      assert s == s[..|s| - 1] + [s[|s| - 1]];
      InsertBy(s[..|s| - 1], x, key) + [s[|s| - 1]]
    else s + [x]
  }

  /** A stable sort. */
  function SortBy<T>(s: seq<T>, key: T -> string): (r: seq<T>)
    ensures multiset(r) == multiset(s)
  {
    if s == [] then []
    else
      assert s == s[..|s| - 1] + [s[|s| - 1]];
      InsertBy(SortBy(s[..|s| - 1], key), s[|s| - 1], key)
  }

  lemma {:induction false} InsertKeepsOrder<T(!new)>(s: seq<T>, x: T, key: T -> string)
    requires OrderedBy(s, key)
    ensures OrderedBy(InsertBy(s, x, key), key)
  {
    if s != [] {
      var n := |s| - 1;
      var r := InsertBy(s, x, key);
      if Less(key(x), key(s[n])) {
        var inner := InsertBy(s[..n], x, key);
        InsertKeepsOrder(s[..n], x, key);
        SameCount(inner, s[..n] + [x]);
        forall i | 0 <= i < |inner| ensures AtMost(key(inner[i]), key(s[n])) {
          assert inner[i] in inner;
        }
      } else {
        Trichotomy(key(x), key(s[n]));
        forall i | 0 <= i <= n ensures AtMost(key(s[i]), key(x)) {
          if i < n && Less(key(s[i]), key(s[n])) && Less(key(s[n]), key(x)) {
            Transitive(key(s[i]), key(s[n]), key(x));
          }
        }
      }
    }
  }

  lemma {:induction false} SortIsOrdered<T(!new)>(s: seq<T>, key: T -> string)
    ensures OrderedBy(SortBy(s, key), key)
  {
    if s != [] {
      SortIsOrdered(s[..|s| - 1], key);
      InsertKeepsOrder(SortBy(s[..|s| - 1], key), s[|s| - 1], key);
    }
  }

  // ----- Sorting strings ----------------------------------------------------------------

  predicate Ordered(s: seq<string>)
  {
    forall i, j :: 0 <= i < j < |s| ==> AtMost(s[i], s[j])
  }

  function Itself(s: string): string
  {
    s
  }

  function Sort(s: seq<string>): (r: seq<string>)
    ensures multiset(r) == multiset(s)
    ensures Ordered(r)
  {
    SortIsOrdered(s, Itself);
    SortBy(s, Itself)
  }

  /** There is one ordered arrangement. */
  lemma {:induction false} OrderedUnique(a: seq<string>, b: seq<string>)
    requires multiset(a) == multiset(b) && Ordered(a) && Ordered(b)
    ensures a == b
    decreases |a|
  {
    SameCount(a, b);
    if a != [] {
      var n := |a| - 1;
      assert a[n] in b && b[n] in a;
      Trichotomy(a[n], b[n]);
      assert a[n] == b[n];
      Without(a, n);
      Without(b, n);
      assert a[..n] + a[n + 1..] == a[..n] && b[..n] + b[n + 1..] == b[..n];
      CancelOne(multiset(a[..n]), multiset(b[..n]), a[n]);
      OrderedUnique(a[..n], b[..n]);
      assert a == a[..n] + [a[n]] && b == b[..n] + [b[n]];
    }
  }

  /** So sorting forgets the order and nothing else. */
  lemma SortSameIff(a: seq<string>, b: seq<string>)
    ensures Sort(a) == Sort(b) <==> multiset(a) == multiset(b)
  {
    if multiset(a) == multiset(b) {
      OrderedUnique(Sort(a), Sort(b));
    }
  }

  // ----- The order a tree map iterates in -----------------------------------------------

  predicate IsLeast(s: set<string>, k: string)
  {
    k in s && forall x :: x in s ==> AtMost(k, x)
  }

  lemma {:induction false} HasLeast(s: set<string>) returns (k: string)
    requires s != {}
    ensures IsLeast(s, k)
  {
    var any :| any in s;
    k := any;
    var rest := s - {any};
    if rest != {} {
      var l := HasLeast(rest);
      Trichotomy(any, l);
      k := if Less(l, any) then l else any;
      forall x | x in s ensures AtMost(k, x) {
        if x != any {
          assert x in rest && AtMost(l, x);
          if k == any && l != x && any != l {
            Transitive(any, l, x);
          }
        }
      }
    } else {
      assert s == rest + {any};
    }
  }

  predicate Increasing(s: seq<string>)
  {
    forall i, j :: 0 <= i < j < |s| ==> Less(s[i], s[j])
  }

  function SortedKeys(s: set<string>): (r: seq<string>)
    ensures |r| == |s| && Increasing(r) && forall x :: x in r <==> x in s
  {
    if s == {} then []
    else
      assert exists k :: IsLeast(s, k) by { var k := HasLeast(s); }
      assert forall k, l :: IsLeast(s, k) && IsLeast(s, l) ==> k == l by {
        forall k, l | IsLeast(s, k) && IsLeast(s, l) ensures k == l {
          Trichotomy(k, l);
        }
      }
      var k :| IsLeast(s, k);
      var rest := SortedKeys(s - {k});
      assert forall j :: 0 <= j < |rest| ==> rest[j] in rest && rest[j] in s - {k};
      [k] + rest
  }

  lemma IncreasingDistinct(s: seq<string>)
    requires Increasing(s)
    ensures forall i, j :: 0 <= i < j < |s| ==> s[i] != s[j]
  {
    forall i, j | 0 <= i < j < |s| ensures s[i] != s[j] {
      Trichotomy(s[i], s[j]);
    }
  }

  /** One set has one increasing enumeration. */
  lemma {:induction false} IncreasingUnique(a: seq<string>, b: seq<string>)
    requires Increasing(a) && Increasing(b) && forall x :: x in a <==> x in b
    ensures a == b
    decreases |a|
  {
    EmptyIff(a);
    EmptyIff(b);
    if a != [] && b != [] {
      assert a[0] in b && b[0] in a;
      var i :| 0 <= i < |b| && b[i] == a[0];
      var j :| 0 <= j < |a| && a[j] == b[0];
      Trichotomy(a[0], b[0]);
      TailHolds(a, b);
      TailHolds(b, a);
      IncreasingUnique(a[1..], b[1..]);
    }
  }

  lemma EmptyIff(a: seq<string>)
    ensures a == [] <==> forall x :: x !in a
  {
    if a != [] {
      assert a[0] in a;
    }
  }

  lemma TailHolds(a: seq<string>, b: seq<string>)
    requires Increasing(a) && a != [] && b != [] && a[0] == b[0] && forall x :: x in a ==> x in b
    ensures forall x :: x in a[1..] ==> x in b[1..]
  {
    IncreasingDistinct(a);
    forall x | x in a[1..] ensures x in b[1..] {
      assert x in b && x != a[0];
    }
  }

  /** Enumerating two sets, one wholly before the other. */
  lemma SortedKeysConcat(a: set<string>, b: set<string>)
    requires forall x, y :: x in a && y in b ==> Less(x, y)
    ensures SortedKeys(a + b) == SortedKeys(a) + SortedKeys(b)
  {
    var s, t := SortedKeys(a), SortedKeys(b);
    hide Less, SortedKeys;
    forall i, j | 0 <= i < j < |s + t| ensures Less((s + t)[i], (s + t)[j]) {
      if i < |s| <= j {
        assert s[i] in s && t[j - |s|] in t;
      }
    }
    forall x ensures x in s + t <==> x in a + b {
      assert x in s + t <==> x in s || x in t;
    }
    IncreasingUnique(SortedKeys(a + b), s + t);
  }

  lemma {:induction false} DistinctSize(keys: seq<string>, s: set<string>)
    requires forall i :: 0 <= i < |keys| ==> keys[i] !in keys[..i]
    requires forall k :: k in keys <==> k in s
    ensures |s| == |keys|
  {
    if keys == [] {
      assert s == {};
    } else {
      var n := |keys| - 1;
      assert keys[n] in keys && keys == keys[..n] + [keys[n]];
      forall i | 0 <= i < n ensures keys[..n][i] !in keys[..n][..i] {
        assert keys[..n][..i] == keys[..i];
      }
      DistinctSize(keys[..n], s - {keys[n]});
    }
  }
}
