/** Automatic build numbers (src/authoring/build.rs): `<base>.<counter>`, one past
    the highest counter published for that base. */
module Versions {
  import opened Base
  import opened Texts

  const U64_LIMIT: nat := 0x1_0000_0000_0000_0000

  predicate AllDigits(s: string)
  {
    forall c :: c in s ==> IsDigit(c)
  }

  /** `parse::<u64>`: an optional plus sign, digits with any leading zeros, no overflow. */
  function ParseU64(s: string): Option<nat>
  {
    var digits := if s != "" && s[0] == '+' then s[1..] else s;
    if digits == "" || !AllDigits(digits) || Denoted(digits) >= U64_LIMIT then None else Some(Denoted(digits))
  }

  /** The counter of a version published for exactly this base. */
  function CounterOf(base: string, version: string): Option<nat>
  {
    if StartsWith(version, base + ".") then ParseU64(version[|base| + 1..]) else None
  }

  function Render(base: string, counter: nat): string
  {
    base + "." + Decimal(counter)
  }

  /** Digits that spell a counter. */
  predicate Spells(digits: string, n: nat)
  {
    digits != "" && (forall c :: c in digits ==> '0' <= c <= '9') && Denoted(digits) == n && n < U64_LIMIT
  }

  /** A version counts for a base when it is the base, a dot and a number that fits,
      leading zeros or a plus sign or not. */
  lemma CounterIff(base: string, version: string, n: nat)
    ensures CounterOf(base, version) == Some(n) <==>
              exists digits :: Spells(digits, n)
                && (version == base + "." + digits || version == base + "." + "+" + digits)
  {
    if StartsWith(version, base + ".") {
      var rest := version[|base| + 1..];
      assert version == base + "." + rest;
      RestIff(rest, n);
      forall digits ensures version == base + "." + digits <==> rest == digits {
        assert (base + "." + digits)[|base| + 1..] == digits;
      }
      forall digits ensures version == base + "." + "+" + digits <==> rest == "+" + digits {
        assert base + "." + "+" + digits == base + "." + ("+" + digits);
        assert (base + "." + ("+" + digits))[|base| + 1..] == "+" + digits;
      }
    } else {
      forall digits ensures version != base + "." + digits && version != base + "." + "+" + digits {
        assert (base + "." + digits)[..|base| + 1] == base + ".";
        assert (base + "." + "+" + digits)[..|base| + 1] == base + ".";
      }
    }
  }

  lemma RestIff(rest: string, n: nat)
    ensures ParseU64(rest) == Some(n) <==>
              exists digits :: Spells(digits, n) && (rest == digits || rest == "+" + digits)
  {
    if ParseU64(rest) == Some(n) {
      var digits := if rest[0] == '+' then rest[1..] else rest;
      assert rest[0] == '+' ==> rest == "+" + digits;
      assert Spells(digits, n);
    }
    if digits :| Spells(digits, n) && (rest == digits || rest == "+" + digits) {
      assert digits[0] in digits && digits[0] != '+';
      assert rest == "+" + digits ==> rest[1..] == digits;
    }
  }

  /** The counter behind the last one, zero if there is none. */
  function NextCounter(base: string, existing: seq<string>): nat
  {
    if existing == [] then 0
    else
      var last := existing[|existing| - 1];
      var n := NextCounter(base, existing[..|existing| - 1]);
      var c := CounterOf(base, last);
      if c.Some? && c.value >= n then c.value + 1 else n
  }

  predicate Below(base: string, existing: seq<string>, n: nat)
  {
    forall v :: v in existing && CounterOf(base, v).Some? ==> CounterOf(base, v).value < n
  }

  /** Above every counter, and no further than it must be. */
  lemma {:induction false} NextCounterIsLeastAbove(base: string, existing: seq<string>)
    ensures Below(base, existing, NextCounter(base, existing))
    ensures forall n: nat :: Below(base, existing, n) ==> NextCounter(base, existing) <= n
  {
    hide CounterOf;
    if existing != [] {
      var init, last := existing[..|existing| - 1], existing[|existing| - 1];
      NextCounterIsLeastAbove(base, init);
      assert existing == init + [last];
      forall n: nat | Below(base, existing, n) ensures Below(base, init, n) {
      }
    }
  }

  /** `next_auto_version`. */
  function NextAutoVersion(base: string, existing: seq<string>): string
  {
    Render(base, NextCounter(base, existing))
  }

  /** A rendered version reads back as its counter. */
  lemma CounterOfRender(base: string, n: nat)
    requires n < U64_LIMIT
    ensures CounterOf(base, Render(base, n)) == Some(n)
  {
    DecimalDenotes(n);
    var v, d := Render(base, n), Decimal(n);
    assert v[..|base + "."|] == base + "." && v[|base| + 1..] == d;
    assert d[0] in d;
  }

  /** The next version is above every published counter of its base and is not yet
      a published version, whatever else stands in the directory. */
  lemma NextIsFresh(base: string, existing: seq<string>)
    requires NextCounter(base, existing) < U64_LIMIT
    ensures NextAutoVersion(base, existing) !in existing
    ensures CounterOf(base, NextAutoVersion(base, existing)) == Some(NextCounter(base, existing))
    ensures Below(base, existing, NextCounter(base, existing))
  {
    hide CounterOf, Render, NextCounter;
    CounterOfRender(base, NextCounter(base, existing));
    NextCounterIsLeastAbove(base, existing);
  }

  /** Only which versions are listed matters, not the order the directory gives them in. */
  lemma NextFollowsMembers(base: string, a: seq<string>, b: seq<string>)
    requires forall v :: v in a <==> v in b
    ensures NextCounter(base, a) == NextCounter(base, b)
  {
    hide CounterOf, NextCounter;
    NextCounterIsLeastAbove(base, a);
    NextCounterIsLeastAbove(base, b);
    assert Below(base, a, NextCounter(base, b)) && Below(base, b, NextCounter(base, a));
  }

  // ----- Deleted numbers ---------------------------------------------------------------

  /** The directory after `k` more automatic builds. */
  function AfterBuilds(base: string, existing: seq<string>, k: nat): seq<string>
  {
    if k == 0 then existing
    else
      var before := AfterBuilds(base, existing, k - 1);
      before + [NextAutoVersion(base, before)]
  }

  lemma NextOfLonger(base: string, existing: seq<string>, v: string)
    ensures var (n, c) := (NextCounter(base, existing), CounterOf(base, v));
            NextCounter(base, existing + [v]) == if c.Some? && c.value >= n then c.value + 1 else n
  {
    assert (existing + [v])[..|existing|] == existing;
    hide CounterOf;
  }

  lemma {:induction false} BuildsCountUp(base: string, existing: seq<string>, k: nat)
    requires NextCounter(base, existing) + k <= U64_LIMIT
    ensures NextCounter(base, AfterBuilds(base, existing, k)) == NextCounter(base, existing) + k
  {
    hide NextCounter, NextAutoVersion;
    if k > 0 {
      BuildsCountUp(base, existing, k - 1);
      NextAfterNext(base, AfterBuilds(base, existing, k - 1));
    }
  }

  lemma NextAfterNext(base: string, existing: seq<string>)
    requires NextCounter(base, existing) < U64_LIMIT
    ensures NextCounter(base, existing + [NextAutoVersion(base, existing)]) == NextCounter(base, existing) + 1
  {
    CounterOfNext(base, existing);
    NextOfLonger(base, existing, NextAutoVersion(base, existing));
    hide NextCounter, NextAutoVersion, CounterOf;
  }

  lemma CounterOfNext(base: string, existing: seq<string>)
    requires NextCounter(base, existing) < U64_LIMIT
    ensures CounterOf(base, NextAutoVersion(base, existing)) == Some(NextCounter(base, existing))
  {
    CounterOfRender(base, NextCounter(base, existing));
  }

  /** A number that is gone from the directory is issued again by some later build
      exactly when no published counter of its base is at or above it: deleting the
      highest build does reissue its number. */
  lemma ReissuedIff(base: string, existing: seq<string>, deleted: nat)
    requires deleted < U64_LIMIT
    ensures (exists k: nat :: NextCounter(base, existing) + k < U64_LIMIT
                              && NextAutoVersion(base, AfterBuilds(base, existing, k)) == Render(base, deleted))
            <==> Below(base, existing, deleted)
  {
    var n := NextCounter(base, existing);
    NextCounterIsLeastAbove(base, existing);
    hide CounterOf, Render, NextCounter, AfterBuilds, NextAutoVersion;
    if k: nat :| n + k < U64_LIMIT && NextAutoVersion(base, AfterBuilds(base, existing, k)) == Render(base, deleted) {
      BuildsCountUp(base, existing, k);
      CounterOfNext(base, AfterBuilds(base, existing, k));
      CounterOfRender(base, deleted);
      assert deleted == n + k;
    }
    if Below(base, existing, deleted) {
      var k: nat := deleted - n;
      BuildsCountUp(base, existing, k);
      RenderNext(base, AfterBuilds(base, existing, k));
    }
  }

  lemma RenderNext(base: string, existing: seq<string>)
    ensures NextAutoVersion(base, existing) == Render(base, NextCounter(base, existing))
  {
  }

  /** Deleting the newest of two builds: its number comes straight back. */
  lemma DeletedNewestIsReissued(base: string)
    ensures NextAutoVersion(base, [Render(base, 0), Render(base, 1)]) == Render(base, 2)
    ensures NextAutoVersion(base, [Render(base, 0)]) == Render(base, 1)
  {
    assert NextCounter(base, []) == 0;
    var a, b := Render(base, 0), Render(base, 1);
    CounterOfRender(base, 0);
    CounterOfRender(base, 1);
    hide CounterOf, Render, NextCounter;
    NextOfLonger(base, [], a);
    NextOfLonger(base, [a], b);
    assert [] + [a] == [a] && [a] + [b] == [a, b];
  }

  // ----- What a version may look like ------------------------------------------------------

  const SNAPSHOT := "SNAPSHOT-"

  /** Segments at dots and dashes. */
  function Segments(s: string): (r: seq<string>)
    ensures r != []
  {
    if s == "" then [""]
    else
      var rest := Segments(s[1..]);
      if s[0] == '-' || s[0] == '.' then [""] + rest else [[s[0]] + rest[0]] + rest[1..]
  }

  /** `validate_pack_version`. */
  predicate ValidVersion(v: string)
  {
    var body := if StartsWith(v, SNAPSHOT) then v[|SNAPSHOT|..] else v;
    v != "" && body != "" && forall seg :: seg in Segments(body) ==> seg != "" && AllDigits(seg)
  }

  predicate Separator(c: char)
  {
    c == '.' || c == '-'
  }

  /** Digits in groups: it starts and ends with one, and no two separators meet. */
  predicate Grouped(s: string)
  {
    && s != "" && !Separator(s[0]) && !Separator(s[|s| - 1])
    && (forall c :: c in s ==> Separator(c) || IsDigit(c))
    && forall i :: 0 <= i < |s| - 1 ==> !(Separator(s[i]) && Separator(s[i + 1]))
  }

  predicate GoodSegments(segs: seq<string>)
  {
    forall seg :: seg in segs ==> seg != "" && AllDigits(seg)
  }

  lemma {:induction false} SegmentsIff(s: string)
    requires s != ""
    ensures GoodSegments(Segments(s)) <==> Grouped(s)
  {
    var rest := Segments(s[1..]);
    assert Segments("") == [""];
    if |s| == 1 {
      assert s == [s[0]];
      OneSegment(s[0]);
    } else {
      SegmentsIff(s[1..]);
      if Separator(s[0]) {
        assert "" in Segments(s) by { assert Segments(s)[0] == ""; }
      } else if Separator(s[1]) {
        var more := Segments(s[2..]);
        assert s[1..][1..] == s[2..] && rest == [""] + more;
        assert Segments(s) == [[s[0]] + ""] + more && [s[0]] + "" == [s[0]];
        AfterSeparator(s, more);
      } else {
        FirstGrows(s, rest);
      }
    }
  }

  lemma OneSegment(c: char)
    ensures GoodSegments(Segments([c])) <==> Grouped([c])
  {
    assert [c][1..] == "" && Segments("") == [""];
    if Separator(c) {
      assert "" in Segments([c]) by { assert Segments([c])[0] == ""; }
    } else {
      assert [c] + "" == [c];
      assert Segments([c]) == [[c]] && [c] in Segments([c]);
    }
  }

  lemma AfterSeparator(s: string, more: seq<string>)
    requires |s| >= 2 && !Separator(s[0]) && Separator(s[1]) && more == Segments(s[2..])
    requires Segments(s) == [[s[0]]] + more
    ensures GoodSegments(Segments(s)) <==> Grouped(s)
  {
    assert [s[0]] in Segments(s) && forall seg :: seg in Segments(s) <==> seg == [s[0]] || seg in more;
    if |s| == 2 {
      assert more == [""] && "" in more;
    } else {
      SegmentsIff(s[2..]);
      GroupedTail(s);
    }
  }

  lemma GroupedTail(s: string)
    requires |s| >= 3 && !Separator(s[0]) && Separator(s[1])
    ensures Grouped(s) <==> IsDigit(s[0]) && Grouped(s[2..])
  {
    var t := s[2..];
    assert s == [s[0], s[1]] + t;
    assert forall i :: 0 <= i < |t| ==> t[i] == s[i + 2];
    if Grouped(s) {
      assert s[0] in s && !(Separator(s[1]) && Separator(s[2]));
    }
  }

  lemma FirstGrows(s: string, rest: seq<string>)
    requires |s| >= 2 && !Separator(s[0]) && !Separator(s[1]) && rest == Segments(s[1..])
    requires GoodSegments(rest) <==> Grouped(s[1..])
    ensures GoodSegments(Segments(s)) <==> Grouped(s)
  {
    var segs, t := Segments(s), s[1..];
    assert segs == [[s[0]] + rest[0]] + rest[1..];
    assert rest[0] != "" by { assert t[0] == s[1]; }
    assert forall seg :: seg in segs <==> seg == [s[0]] + rest[0] || seg in rest[1..];
    assert forall seg :: seg in rest <==> seg == rest[0] || seg in rest[1..];
    assert AllDigits([s[0]] + rest[0]) <==> IsDigit(s[0]) && AllDigits(rest[0]);
    assert s == [s[0]] + t && forall i :: 0 <= i < |t| ==> t[i] == s[i + 1];
    if Grouped(s) {
      assert s[0] in s;
    }
  }

  /** A valid version is groups of digits, after a snapshot mark or not. */
  lemma ValidVersionIff(v: string)
    ensures ValidVersion(v) <==> Grouped(if StartsWith(v, SNAPSHOT) then v[|SNAPSHOT|..] else v)
  {
    var body := if StartsWith(v, SNAPSHOT) then v[|SNAPSHOT|..] else v;
    if body != "" {
      SegmentsIff(body);
    }
  }

  /** No version can take the name of the pointer beside the manifests. */
  lemma LatestIsNoVersion()
    ensures !ValidVersion("latest")
  {
    var v := "latest";
    assert !StartsWith(v, SNAPSHOT);
    assert v[0] == 'l';
    var rest := Segments(v[1..]);
    var parts := Segments(v);
    assert parts == [['l'] + rest[0]] + rest[1..];
    assert parts[0] in parts && parts[0][0] == 'l';
    assert 'l' in parts[0] && !IsDigit('l');
    assert !AllDigits(parts[0]);
  }
}
