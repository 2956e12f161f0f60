/** How the rows of a config diff read (src/authoring/configdiff.rs): which rows there
    are, and what each says of the declared mods, assets and fields it is about. */
module DiffReading {
  import opened Base
  import opened Texts
  import opened Sorting
  import opened Manifest
  import opened PackConfigs
  import opened ConfigDiff
  import opened ConfigDiffLaws

  // ----- Two rows that are one row moved ------------------------------------------------

  /** The old row `a` and the new row `b` stand for one declaration: under one key on
      both sides, or paired because each side has only the one. */
  predicate Joined(was: Rows, now: Rows, a: string, b: string)
  {
    JoinedBy(was, now, Pairs(was, now, GoneKeys(was, now)), a, b)
  }

  predicate JoinedBy(was: Rows, now: Rows, pairs: map<string, string>, a: string, b: string)
  {
    a in was && b in now && (a == b || (a !in now && b !in was && a in pairs && pairs[a] == b))
  }

  /** Pairs join what is only old to what is only new. */
  predicate AcrossOnly(was: Rows, now: Rows, pairs: map<string, string>)
  {
    forall k :: k in pairs ==> k in was && k !in now && pairs[k] in now && pairs[k] !in was
  }

  lemma PairsAcross(was: Rows, now: Rows)
    ensures AcrossOnly(was, now, Pairs(was, now, GoneKeys(was, now)))
  {
    GoneMembers(now, SortedKeys(was.Keys));
    hide Pairs, SortedKeys;
  }

  /** The change says that one part moved, from what the old row has to what the new one
      has. */
  predicate Tells(c: ConfigChange, key: string, old_: Row, new_: Row)
  {
    && c.group == new_.group && c.op == Change && c.key == key && c.caption == new_.name
    && c.project == ProjectOf(new_.source)
    && match c.field
       case Some(Pin) =>
         if PinOf(old_.source) != PinOf(new_.source)
         then c.from == Some(PinOf(old_.source)) && c.to == Some(PinOf(new_.source))
         else && new_.group == ModsGroup && ProjectOf(old_.source) != ProjectOf(new_.source)
              && c.from == ProjectOf(old_.source) && c.to == ProjectOf(new_.source)
       case Some(Filename) => old_.name != new_.name && c.from == Some(old_.name) && c.to == Some(new_.name)
       case Some(DefaultEnabled) => new_.group == ModsGroup && Switched(c, old_.on, new_.on)
       case Some(Required) => new_.group != ModsGroup && Switched(c, old_.on, new_.on)
       case Some(Slug) => old_.slug != new_.slug && c.from == old_.slug && c.to == new_.slug
       case Some(DisplayBlock) => old_.display != new_.display && c.from == None && c.to == None
       case _ => false
  }

  predicate Switched(c: ConfigChange, was: bool, now: bool)
  {
    && was != now
    && c.from == Some(if was then "on" else "off") && c.to == Some(if now then "on" else "off")
  }

  lemma ChangesIff(key: string, was: Row, now: Row, c: ConfigChange)
    ensures c in Changes(key, was, now) <==> Tells(c, key, was, now)
  {
    PinMoveIff(key, was, now, c);
    hide PinMove;
  }

  lemma PinMoveIff(key: string, was: Row, now: Row, c: ConfigChange)
    ensures c in PinMove(key, was, now) <==> c.field == Some(Pin) && Tells(c, key, was, now)
  {
  }

  lemma {:induction false} MatchedMembers(was: Rows, now: Rows, keys: seq<string>, c: ConfigChange)
    requires forall k :: k in keys ==> k in now
    ensures c in Matched(was, now, keys) <==> exists k :: k in keys && k in was && c in Changes(k, was[k], now[k])
  {
    hide Changes;
    if keys != [] {
      var n := |keys| - 1;
      MatchedMembers(was, now, keys[..n], c);
      assert forall k :: k in keys <==> k in keys[..n] || k == keys[n];
    }
  }

  lemma {:induction false} DeparturesMembers(
    was: Rows, now: Rows, pairs: map<string, string>, gone: seq<string>, c: ConfigChange)
    requires (forall k :: k in gone ==> k in was) && forall k :: k in pairs ==> pairs[k] in now
    ensures c in Departures(was, now, pairs, gone) <==>
              || (exists k :: k in gone && k in pairs && c in Changes(pairs[k], was[k], now[pairs[k]]))
              || exists k :: k in gone && k !in pairs && c == Departure(k, was[k])
  {
    hide Changes;
    if gone != [] {
      var n := |gone| - 1;
      DeparturesMembers(was, now, pairs, gone[..n], c);
      assert forall k :: k in gone <==> k in gone[..n] || k == gone[n];
    }
  }

  lemma {:induction false} ArrivalsMembers(was: Rows, now: Rows, taken: set<string>, keys: seq<string>, c: ConfigChange)
    requires forall k :: k in keys ==> k in now
    ensures c in Arrivals(was, now, taken, keys) <==>
              exists k :: k in keys && k !in was && k !in taken && c == Arrival(k, now[k])
  {
    if keys != [] {
      var n := |keys| - 1;
      ArrivalsMembers(was, now, taken, keys[..n], c);
      assert forall k :: k in keys <==> k in keys[..n] || k == keys[n];
    }
  }

  /** A change between two rows of one key. */
  predicate Stays(was: Rows, now: Rows, c: ConfigChange)
  {
    exists k :: k in now && k in was && c in Changes(k, was[k], now[k])
  }

  /** A change between two paired rows. */
  predicate Moves(was: Rows, now: Rows, pairs: map<string, string>, c: ConfigChange)
  {
    exists k :: k in pairs && k in was && pairs[k] in now && c in Changes(pairs[k], was[k], now[pairs[k]])
  }

  predicate Leaves(was: Rows, now: Rows, pairs: map<string, string>, c: ConfigChange)
  {
    exists a :: a in was && a !in now && a !in pairs && c == Departure(a, was[a])
  }

  predicate Comes(was: Rows, now: Rows, pairs: map<string, string>, c: ConfigChange)
  {
    exists b :: b in now && b !in was && b !in pairs.Values && c == Arrival(b, now[b])
  }

  /** The rows of a group and what they are about. */
  lemma RowDiffMembers(was: Rows, now: Rows, c: ConfigChange)
    ensures var pairs := Pairs(was, now, GoneKeys(was, now));
            c in RowDiff(was, now) <==>
              Stays(was, now, c) || Moves(was, now, pairs, c) || Leaves(was, now, pairs, c) || Comes(was, now, pairs, c)
  {
    var keys, gone := SortedKeys(now.Keys), GoneKeys(was, now);
    assert forall k :: k in keys <==> k in now;
    GoneMembers(now, SortedKeys(was.Keys));
    assert forall k :: k in gone <==> k in was && k !in now;
    hide *;
    RowDiffSplits(was, now, c);
    MatchedMembers(was, now, keys, c);
    StaysIff(was, now, keys, c);
    GoneAre(was, now, gone, c);
    ArrivalsMembers(was, now, Pairs(was, now, gone).Values, keys, c);
    ComesIff(was, now, Pairs(was, now, gone), keys, c);
  }

  lemma StaysIff(was: Rows, now: Rows, keys: seq<string>, c: ConfigChange)
    requires forall k :: k in keys <==> k in now
    ensures Stays(was, now, c) <==> exists k :: k in keys && k in was && c in Changes(k, was[k], now[k])
  {
    hide Changes;
  }

  lemma ComesIff(was: Rows, now: Rows, pairs: map<string, string>, keys: seq<string>, c: ConfigChange)
    requires forall k :: k in keys <==> k in now
    ensures Comes(was, now, pairs, c) <==>
              exists k :: k in keys && k !in was && k !in pairs.Values && c == Arrival(k, now[k])
  {
    hide Arrival;
  }

  lemma GoneAre(was: Rows, now: Rows, gone: seq<string>, c: ConfigChange)
    requires forall k :: k in gone <==> k in was && k !in now
    ensures var pairs := Pairs(was, now, gone);
            c in Departures(was, now, pairs, gone) <==> Moves(was, now, pairs, c) || Leaves(was, now, pairs, c)
  {
    var pairs := Pairs(was, now, gone);
    DeparturesMembers(was, now, pairs, gone, c);
    assert forall k :: k in pairs ==> k in gone && pairs[k] in now;
    hide Changes, Departure, Pairs, Departures;
  }

  lemma RowDiffSplits(was: Rows, now: Rows, c: ConfigChange)
    ensures var (keys, gone) := (SortedKeys(now.Keys), GoneKeys(was, now));
            var pairs := Pairs(was, now, gone);
            c in RowDiff(was, now) <==>
              || c in Matched(was, now, keys) || c in Departures(was, now, pairs, gone)
              || c in Arrivals(was, now, pairs.Values, keys)
  {
    hide Matched, Departures, Arrivals, Pairs, GoneKeys, SortedKeys;
  }

  /** The changes are those between joined rows. */
  lemma JoinedChanges(was: Rows, now: Rows, c: ConfigChange)
    ensures Stays(was, now, c) || Moves(was, now, Pairs(was, now, GoneKeys(was, now)), c) <==>
            exists a, b :: Joined(was, now, a, b) && c in Changes(b, was[a], now[b])
  {
    PairsAcross(was, now);
    hide Changes, Pairs, GoneKeys;
    ChangesBy(was, now, Pairs(was, now, GoneKeys(was, now)), c);
  }

  lemma ChangesBy(was: Rows, now: Rows, pairs: map<string, string>, c: ConfigChange)
    requires AcrossOnly(was, now, pairs)
    ensures Stays(was, now, c) || Moves(was, now, pairs, c) <==>
            exists a, b :: JoinedBy(was, now, pairs, a, b) && c in Changes(b, was[a], now[b])
  {
    hide Changes;
    if Stays(was, now, c) {
      var k :| k in now && k in was && c in Changes(k, was[k], now[k]);
      assert JoinedBy(was, now, pairs, k, k);
    }
    if Moves(was, now, pairs, c) {
      var k :| k in pairs && k in was && pairs[k] in now && c in Changes(pairs[k], was[k], now[pairs[k]]);
      assert JoinedBy(was, now, pairs, k, pairs[k]);
    }
  }

  /** A change row tells one part that moved between two joined rows, and every part
      that moved has its row. */
  lemma ChangeRowsIff(was: Rows, now: Rows, c: ConfigChange)
    requires c.op == Change
    ensures c in RowDiff(was, now) <==> exists a, b :: Joined(was, now, a, b) && Tells(c, b, was[a], now[b])
  {
    RowDiffMembers(was, now, c);
    JoinedChanges(was, now, c);
    var pairs := Pairs(was, now, GoneKeys(was, now));
    assert !Leaves(was, now, pairs, c) && !Comes(was, now, pairs, c);
    forall a, b | Joined(was, now, a, b) ensures c in Changes(b, was[a], now[b]) <==> Tells(c, b, was[a], now[b]) {
      ChangesIff(b, was[a], now[b], c);
    }
    hide Changes, Tells, Joined, RowDiff, Stays, Moves, Pairs, GoneKeys;
  }

  /** What is neither added nor removed comes from no change. */
  lemma OnlyChanges(was: Rows, now: Rows, c: ConfigChange)
    requires c.op != Change
    ensures !Stays(was, now, c) && !Moves(was, now, Pairs(was, now, GoneKeys(was, now)), c)
  {
    JoinedChanges(was, now, c);
    forall a, b | Joined(was, now, a, b) ensures c !in Changes(b, was[a], now[b]) {
      ChangesIff(b, was[a], now[b], c);
    }
    hide Changes, Joined, Stays, Moves, Pairs, GoneKeys;
  }

  predicate UnjoinedOld(was: Rows, now: Rows, a: string)
  {
    a in was && forall b :: b in now ==> !Joined(was, now, a, b)
  }

  predicate UnjoinedNew(was: Rows, now: Rows, b: string)
  {
    b in now && forall a :: a in was ==> !Joined(was, now, a, b)
  }

  /** A removal is an old row nothing was joined to, with the pin it had. */
  lemma RemovalsIff(was: Rows, now: Rows, c: ConfigChange)
    requires c.op == Remove
    ensures c in RowDiff(was, now) <==>
              exists a :: UnjoinedOld(was, now, a)
                && c == ConfigChange(was[a].group, Remove, a, was[a].name, None, Some(PinOf(was[a].source)), None,
                                     ProjectOf(was[a].source))
  {
    RowDiffMembers(was, now, c);
    OnlyChanges(was, now, c);
    forall a | a in was ensures UnjoinedOld(was, now, a) <==> a !in now && a !in Pairs(was, now, GoneKeys(was, now)) {
      OldIsUnjoined(was, now, a);
    }
    hide Joined, RowDiff, Pairs, GoneKeys, Stays, Moves;
  }

  lemma OldIsUnjoined(was: Rows, now: Rows, a: string)
    requires a in was
    ensures UnjoinedOld(was, now, a) <==> a !in now && a !in Pairs(was, now, GoneKeys(was, now))
  {
    PairsAcross(was, now);
    hide Pairs, GoneKeys;
    OldBy(was, now, Pairs(was, now, GoneKeys(was, now)), a);
  }

  lemma OldBy(was: Rows, now: Rows, pairs: map<string, string>, a: string)
    requires a in was && AcrossOnly(was, now, pairs)
    ensures (forall b :: b in now ==> !JoinedBy(was, now, pairs, a, b)) <==> a !in now && a !in pairs
  {
    if a in now {
      assert JoinedBy(was, now, pairs, a, a);
    } else if a in pairs {
      assert JoinedBy(was, now, pairs, a, pairs[a]);
    }
  }

  /** An addition is a new row nothing was joined to, with the pin it has. */
  lemma AdditionsIff(was: Rows, now: Rows, c: ConfigChange)
    requires c.op == Add
    ensures c in RowDiff(was, now) <==>
              exists b :: UnjoinedNew(was, now, b)
                && c == ConfigChange(now[b].group, Add, b, now[b].name, None, None, Some(PinOf(now[b].source)),
                                     ProjectOf(now[b].source))
  {
    RowDiffMembers(was, now, c);
    OnlyChanges(was, now, c);
    forall b | b in now
      ensures UnjoinedNew(was, now, b) <==> b !in was && b !in Pairs(was, now, GoneKeys(was, now)).Values
    {
      NewIsUnjoined(was, now, b);
    }
    hide Joined, RowDiff, Pairs, GoneKeys, Stays, Moves;
  }

  lemma NewIsUnjoined(was: Rows, now: Rows, b: string)
    requires b in now
    ensures UnjoinedNew(was, now, b) <==> b !in was && b !in Pairs(was, now, GoneKeys(was, now)).Values
  {
    PairsAcross(was, now);
    hide Pairs, GoneKeys;
    NewBy(was, now, Pairs(was, now, GoneKeys(was, now)), b);
  }

  lemma NewBy(was: Rows, now: Rows, pairs: map<string, string>, b: string)
    requires b in now && AcrossOnly(was, now, pairs)
    ensures (forall a :: a in was ==> !JoinedBy(was, now, pairs, a, b)) <==> b !in was && b !in pairs.Values
  {
    if b in was {
      assert JoinedBy(was, now, pairs, b, b);
    } else if b in pairs.Values {
      var a :| a in pairs && pairs[a] == b;
      assert JoinedBy(was, now, pairs, a, b);
    }
  }

  // ----- Which arrival a departure takes ----------------------------------------------------

  predicate TakenBefore(gone: seq<string>, pairs: map<string, string>, i: nat, l: string)
    requires i <= |gone|
  {
    exists j :: 0 <= j < i && gone[j] in pairs && pairs[gone[j]] == l
  }

  /** In key order, each departure takes the first arrival of its pin that no departure
      before it took. */
  lemma {:induction false} PairingIsFirstFit(was: Rows, now: Rows, gone: seq<string>, i: nat, l: string)
    requires (forall k :: k in gone ==> k in was && k !in now) && NoRepeats(gone)
    requires i < |gone| && gone[i] in Pairs(was, now, gone)
    requires l in now && l !in was && PinOf(now[l].source) == PinOf(was[gone[i]].source)
    requires Less(l, Pairs(was, now, gone)[gone[i]])
    ensures TakenBefore(gone, Pairs(was, now, gone), i, l)
    decreases |gone|
  {
    var n := |gone| - 1;
    Shorter(was, now, gone);
    FirstN(gone, n);
    PairsOfMembers(was, now, gone, n);
    LastPair(was, now, gone, n);
    hide *;
    if i < n {
      PairingIsFirstFit(was, now, gone[..n], i, l);
    } else {
      TakenEarlier(was, now, gone, Pairs(was, now, gone[..n]), l);
    }
    TakenStays(gone, n, Pairs(was, now, gone[..n]), Pairs(was, now, gone), i, l);
  }

  /** The last departure adds its own pair at most. */
  lemma LastPair(was: Rows, now: Rows, gone: seq<string>, n: nat)
    requires n + 1 == |gone| && gone[n] !in gone[..n] && forall k :: k in gone ==> k in was
    ensures gone[n] in was && forall k :: k in gone[..n] ==> k in was
    ensures var (pairs, all) := (Pairs(was, now, gone[..n]), Pairs(was, now, gone));
            var partner := Partner(was, now, pairs.Values, PinOf(was[gone[n]].source), SortedKeys(now.Keys));
            && (forall k :: k in gone[..n] ==> (k in all <==> k in pairs) && (k in pairs ==> all[k] == pairs[k]))
            && (gone[n] in all ==> partner.Some? && all[gone[n]] == partner.value)
  {
    PairsNext(was, now, gone, n);
    PairsOfMembers(was, now, gone, n);
    assert gone[..n + 1] == gone;
    hide Pairs, Partner, PinOf;
  }

  lemma TakenStays(gone: seq<string>, n: nat, pairs: map<string, string>, all: map<string, string>, i: nat, l: string)
    requires i <= n <= |gone| && TakenBefore(gone[..n], pairs, i, l)
    requires forall k :: k in gone[..n] && k in pairs ==> k in all && all[k] == pairs[k]
    ensures TakenBefore(gone, all, i, l)
  {
    var j :| 0 <= j < i && gone[..n][j] in pairs && pairs[gone[..n][j]] == l;
    assert gone[..n][j] == gone[j] && gone[..n][j] in gone[..n];
  }

  lemma PairsOfMembers(was: Rows, now: Rows, gone: seq<string>, n: nat)
    requires n < |gone| && gone[n] !in gone[..n] && forall k :: k in gone ==> k in was
    ensures forall k :: k in gone[..n] ==> k in was
    ensures forall k :: k in Pairs(was, now, gone[..n]) ==> k in gone[..n]
    ensures gone[n] !in Pairs(was, now, gone[..n])
  {
    hide Pairs;
  }

  lemma FirstN(gone: seq<string>, n: nat)
    requires NoRepeats(gone) && n + 1 == |gone|
    ensures NoRepeats(gone[..n]) && forall i :: 0 <= i < n ==> gone[..n][i] == gone[i] && gone[i] != gone[n]
  {
    forall i | 0 <= i < n ensures gone[..n][i] !in gone[..n][..i] && gone[i] != gone[n] {
      assert gone[..n][..i] == gone[..i];
      assert gone[n] !in gone[..n];
    }
  }

  lemma TakenEarlier(was: Rows, now: Rows, gone: seq<string>, pairs: map<string, string>, l: string)
    requires gone != [] && gone[|gone| - 1] in was
    requires forall k :: k in pairs ==> k in gone[..|gone| - 1]
    requires l in now && l !in was && PinOf(now[l].source) == PinOf(was[gone[|gone| - 1]].source)
    requires var partner := Partner(was, now, pairs.Values, PinOf(was[gone[|gone| - 1]].source), SortedKeys(now.Keys));
             partner.Some? && Less(l, partner.value)
    ensures TakenBefore(gone[..|gone| - 1], pairs, |gone| - 1, l)
  {
    var n := |gone| - 1;
    var taken, pin := pairs.Values, PinOf(was[gone[n]].source);
    assert l in SortedKeys(now.Keys);
    FirstFree(was, now, taken, pin, SortedKeys(now.Keys), l);
    assert l in taken;
    hide *;
    var k :| k in pairs && pairs[k] == l;
    assert k in gone[..n];
    TakenAt(gone[..n], pairs, k, n, l);
  }

  lemma TakenAt(gone: seq<string>, pairs: map<string, string>, k: string, n: nat, l: string)
    requires n == |gone| && k in gone && k in pairs && pairs[k] == l
    ensures TakenBefore(gone, pairs, n, l)
  {
    var j :| 0 <= j < n && gone[j] == k;
  }

  lemma {:induction false} FirstFree(
      was: Rows, now: Rows, taken: set<string>, pin: string, keys: seq<string>, l: string)
    requires Increasing(keys) && l in keys && Partner(was, now, taken, pin, keys).Some?
    requires Less(l, Partner(was, now, taken, pin, keys).value)
    ensures !Free(was, now, taken, pin, l)
  {
    if !Free(was, now, taken, pin, keys[0]) && l != keys[0] {
      assert forall i, j :: 0 <= i < j < |keys[1..]| ==> keys[1..][i] == keys[i + 1] && keys[1..][j] == keys[j + 1];
      FirstFree(was, now, taken, pin, keys[1..], l);
    } else if Free(was, now, taken, pin, keys[0]) {
      var i :| 0 <= i < |keys| && keys[i] == l;
      Trichotomy(l, keys[0]);
    }
  }

  // ----- Read off the declared rows ------------------------------------------------------------

  /** What a source points at: a version, a hash or a path. */
  predicate PointsTo(source: SourceDecl, pin: string)
  {
    match source
    case ModrinthPin(_, version) => pin == version
    case CacheJar(sha1) => pin == sha1
    case StaticFile(path) => pin == path
  }

  predicate OfProject(source: SourceDecl, project: Option<string>)
  {
    match source
    case ModrinthPin(id, _) => project == Some(id)
    case _ => project == None
  }

  /** Nothing a person can write in a display block is written. */
  predicate Blank(d: Option<Display>)
  {
    d.Some? ==>
      && d.value.name == None && d.value.description == None && d.value.category == None
      && d.value.incompatibleWith == [] && d.value.license == None && d.value.url == None && d.value.iconUrl == None
  }

  /** The same is written in both. */
  predicate SameWriting(d: Option<Display>, e: Option<Display>)
  {
    || (Blank(d) && Blank(e))
    || (&& d.Some? && e.Some? && d.value.name == e.value.name && d.value.description == e.value.description
        && d.value.category == e.value.category && d.value.incompatibleWith == e.value.incompatibleWith
        && d.value.license == e.value.license && d.value.url == e.value.url && d.value.iconUrl == e.value.iconUrl)
  }

  lemma WritingIff(d: Option<Display>, e: Option<Display>)
    ensures AuthoredOf(d) == AuthoredOf(e) <==> SameWriting(d, e)
  {
  }

  lemma PinsAre(source: SourceDecl)
    ensures PointsTo(source, PinOf(source)) && OfProject(source, ProjectOf(source))
    ensures forall pin :: PointsTo(source, pin) ==> pin == PinOf(source)
    ensures forall project :: OfProject(source, project) ==> project == ProjectOf(source)
  {
  }

  /** The change reads as the move of one part of a mod, as `was` had it and `now` has it. */
  predicate ModTells(c: ConfigChange, key: string, was: DeclaredMod, now: DeclaredMod)
  {
    && c.group == ModsGroup && c.op == Change && c.key == key
    && c.caption == now.filename && OfProject(now.source, c.project)
    && match c.field
       case Some(Pin) =>
         && c.from != c.to
         && ((c.from.Some? && c.to.Some? && PointsTo(was.source, c.from.value) && PointsTo(now.source, c.to.value))
             || (PinOf(was.source) == PinOf(now.source)
                 && OfProject(was.source, c.from) && OfProject(now.source, c.to)))
       case Some(Filename) => c.from == Some(was.filename) && c.to == Some(now.filename) && c.from != c.to
       case Some(DefaultEnabled) => Switched(c, was.defaultEnabled, now.defaultEnabled)
       case Some(Slug) => c.from == was.slug && c.to == now.slug && c.from != c.to
       case Some(DisplayBlock) => !SameWriting(was.display, now.display) && c.from == None && c.to == None
       case _ => false
  }

  lemma ModTellsIff(c: ConfigChange, key: string, was: DeclaredMod, now: DeclaredMod)
    ensures Tells(c, key, ModRow(was), ModRow(now)) <==> ModTells(c, key, was, now)
  {
    PinsAre(was.source);
    PinsAre(now.source);
    WritingIff(was.display, now.display);
    hide PinOf, ProjectOf, PointsTo, OfProject, AuthoredOf, SameWriting;
  }

  predicate AssetTells(c: ConfigChange, key: string, was: DeclaredAsset, now: DeclaredAsset)
  {
    && c.group == AssetsGroup && c.op == Change && c.key == key
    && c.caption == now.dest && OfProject(now.source, c.project)
    && match c.field
       case Some(Pin) =>
         && c.from.Some? && c.to.Some? && c.from != c.to
         && PointsTo(was.source, c.from.value) && PointsTo(now.source, c.to.value)
       case Some(Filename) => c.from == Some(was.dest) && c.to == Some(now.dest) && c.from != c.to
       case Some(Required) => Switched(c, was.required, now.required)
       case Some(DisplayBlock) => !SameWriting(was.display, now.display) && c.from == None && c.to == None
       case _ => false
  }

  lemma AssetTellsIff(c: ConfigChange, key: string, was: DeclaredAsset, now: DeclaredAsset)
    ensures Tells(c, key, AssetRow(was), AssetRow(now)) <==> AssetTells(c, key, was, now)
  {
    PinsAre(was.source);
    PinsAre(now.source);
    WritingIff(was.display, now.display);
    hide PinOf, ProjectOf, PointsTo, OfProject, AuthoredOf, SameWriting;
  }

  /** A mod goes by its project when it is pinned on Modrinth, else by its slug when that
      has more than blanks, else by its filename. */
  lemma IdentityReads(m: DeclaredMod)
    ensures Identity(ModRow(m))
         == if m.source.ModrinthPin? then "m:" + m.source.projectId
            else if m.slug.None? || forall c :: c in m.slug.value ==> IsWhitespace(c) then "f:" + m.filename
            else "s:" + Trim(m.slug.value)
  {
    if m.slug.Some? {
      BlankIff(m.slug.value);
    }
    hide Trim, IsWhitespace;
  }

  lemma {:induction false} BlankIff(s: string)
    ensures Trim(s) == "" <==> forall c :: c in s ==> IsWhitespace(c)
    decreases |s|
  {
    if s != "" && IsWhitespace(s[0]) {
      BlankIff(s[1..]);
      assert s == [s[0]] + s[1..];
    } else if s != "" && IsWhitespace(s[|s| - 1]) {
      BlankIff(s[..|s| - 1]);
      assert s == s[..|s| - 1] + [s[|s| - 1]];
    }
    hide IsWhitespace;
  }

  /** The mods under their keys. */
  predicate KeyedMod(cfg: PackConfig, key: string, m: DeclaredMod)
  {
    var rows := Keyed(AuthoredRows(cfg));
    m in cfg.mods && !m.pulled && key in rows && rows[key] == ModRow(m)
  }

  lemma {:induction false} KeyedRows(rows: seq<Row>)
    ensures forall k :: k in Keyed(rows) ==> Keyed(rows)[k] in rows
  {
    if rows != [] {
      KeyedRows(rows[..|rows| - 1]);
      assert forall r :: r in rows <==> r in rows[..|rows| - 1] || r == rows[|rows| - 1];
      hide Identity;
    }
  }

  lemma EveryKeyHasAMod(cfg: PackConfig, key: string) returns (m: DeclaredMod)
    requires key in Keyed(AuthoredRows(cfg))
    ensures KeyedMod(cfg, key, m)
  {
    var mods := Declared(cfg.mods);
    KeyedRows(AuthoredRows(cfg));
    hide Keyed, Declared;
    var i :| 0 <= i < |mods| && ModRows(mods)[i] == Keyed(AuthoredRows(cfg))[key];
    m := mods[i];
    DeclaredMembers(cfg.mods, m);
  }

  /** A change row of the mods tells one part that moved of one mod, and every part that
      moved of any mod has its row. */
  lemma ModChangesIff(before: PackConfig, after: PackConfig, c: ConfigChange)
    requires c.op == Change
    ensures c in ModDiff(before, after) <==>
              exists a, b, m, n ::
                && Joined(Keyed(AuthoredRows(before)), Keyed(AuthoredRows(after)), a, b)
                && KeyedMod(before, a, m) && KeyedMod(after, b, n) && ModTells(c, b, m, n)
  {
    var was, now := Keyed(AuthoredRows(before)), Keyed(AuthoredRows(after));
    ChangeRowsIff(was, now, c);
    hide Tells, ModTells, RowDiff, AuthoredRows, Keyed;
    if c in ModDiff(before, after) {
      var a, b :| Joined(was, now, a, b) && Tells(c, b, was[a], now[b]);
      var m := EveryKeyHasAMod(before, a);
      var n := EveryKeyHasAMod(after, b);
      ModTellsIff(c, b, m, n);
    }
    if a, b, m, n :| Joined(was, now, a, b) && KeyedMod(before, a, m) && KeyedMod(after, b, n) && ModTells(c, b, m, n) {
      ModTellsIff(c, b, m, n);
    }
  }

  /** The assets under their destinations. */
  predicate KeyedAsset(cfg: PackConfig, key: string, a: DeclaredAsset)
  {
    var rows := ByDest(AssetRows(cfg));
    a in cfg.assets && a.dest == key && key in rows && rows[key] == AssetRow(a)
  }

  lemma {:induction false} ByDestRows(rows: seq<Row>)
    ensures forall k :: k in ByDest(rows) ==> ByDest(rows)[k] in rows && ByDest(rows)[k].name == k
  {
    if rows != [] {
      ByDestRows(rows[..|rows| - 1]);
      assert forall r :: r in rows <==> r in rows[..|rows| - 1] || r == rows[|rows| - 1];
    }
  }

  lemma EveryDestHasAnAsset(cfg: PackConfig, key: string) returns (a: DeclaredAsset)
    requires key in ByDest(AssetRows(cfg))
    ensures KeyedAsset(cfg, key, a)
  {
    ByDestRows(AssetRows(cfg));
    hide ByDest;
    var i :| 0 <= i < |cfg.assets| && AssetRows(cfg)[i] == ByDest(AssetRows(cfg))[key];
    a := cfg.assets[i];
  }

  /** The same of the assets. */
  lemma AssetChangesIff(before: PackConfig, after: PackConfig, c: ConfigChange)
    requires c.op == Change
    ensures c in AssetDiff(before, after) <==>
              exists a, b, m, n ::
                && Joined(ByDest(AssetRows(before)), ByDest(AssetRows(after)), a, b)
                && KeyedAsset(before, a, m) && KeyedAsset(after, b, n) && AssetTells(c, b, m, n)
  {
    var was, now := ByDest(AssetRows(before)), ByDest(AssetRows(after));
    ChangeRowsIff(was, now, c);
    hide Tells, AssetTells, RowDiff, AssetRows, ByDest;
    if c in AssetDiff(before, after) {
      var a, b :| Joined(was, now, a, b) && Tells(c, b, was[a], now[b]);
      var m := EveryDestHasAnAsset(before, a);
      var n := EveryDestHasAnAsset(after, b);
      AssetTellsIff(c, b, m, n);
    }
    if a, b, m, n :|
      Joined(was, now, a, b) && KeyedAsset(before, a, m) && KeyedAsset(after, b, n) && AssetTells(c, b, m, n)
    {
      AssetTellsIff(c, b, m, n);
    }
  }

  // ----- The pack's own fields ---------------------------------------------------------------------

  /** The names of the fields, in the order their rows stand. */
  const FIELDS: seq<string> := [
    "minecraft", "loader", "java", "version", "display_name", "tagline", "featured", "tags", "pack_meta", "auth"]

  /** A field's text; the pack card and the auth record have none. */
  function FieldText(cfg: PackConfig, i: nat): Option<string>
  {
    if i == 0 then Some(cfg.minecraftVersion)
    else if i == 1 then Some(cfg.loader.name + " " + cfg.loader.version)
    else if i == 2 then Some(Decimal(cfg.javaMajor))
    else if i == 3 then Some(if cfg.version.Some? then cfg.version.value else "")
    else if i == 4 then Some(cfg.displayName)
    else if i == 5 then Some(cfg.tagline)
    else if i == 6 then Some(if cfg.featured then "true" else "false")
    else if i == 7 then Some(Join(cfg.tags, ", "))
    else None
  }

  predicate FieldMoved(before: PackConfig, after: PackConfig, i: nat)
  {
    if i == 8 then before.packMeta != after.packMeta
    else if i == 9 then before.auth != after.auth
    else FieldText(before, i) != FieldText(after, i)
  }

  function FieldRow(before: PackConfig, after: PackConfig, i: nat): ConfigChange
    requires i < |FIELDS|
  {
    ConfigChange(PackGroup, Change, FIELDS[i], FIELDS[i], Some(Value), FieldText(before, i), FieldText(after, i), None)
  }

  function FieldRows(before: PackConfig, after: PackConfig, n: nat): seq<ConfigChange>
    requires n <= |FIELDS|
  {
    if n == 0 then []
    else
      FieldRows(before, after, n - 1)
      + if FieldMoved(before, after, n - 1) then [FieldRow(before, after, n - 1)] else []
  }

  function FieldPart(before: PackConfig, after: PackConfig, i: nat): seq<ConfigChange>
    requires i < |FIELDS|
  {
    if FieldMoved(before, after, i) then [FieldRow(before, after, i)] else []
  }

  lemma TextPart(before: PackConfig, after: PackConfig, i: nat, name: string, from: string, to: string)
    requires i < 8 && FIELDS[i] == name && FieldText(before, i) == Some(from) && FieldText(after, i) == Some(to)
    ensures FieldPart(before, after, i) == FieldMove(name, from, to)
  {
    hide FieldText, FIELDS;
  }

  lemma FieldRowsNext(before: PackConfig, after: PackConfig, n: nat)
    requires n < |FIELDS|
    ensures FieldRows(before, after, n + 1) == FieldRows(before, after, n) + FieldPart(before, after, n)
  {
    hide FIELDS, FieldMoved, FieldRow;
  }

  lemma TextParts(before: PackConfig, after: PackConfig)
    ensures FieldPart(before, after, 0) == FieldMove("minecraft", before.minecraftVersion, after.minecraftVersion)
    ensures FieldPart(before, after, 1) == FieldMove("loader", LoaderLine(before.loader), LoaderLine(after.loader))
    ensures FieldPart(before, after, 2) == FieldMove("java", Decimal(before.javaMajor), Decimal(after.javaMajor))
    ensures FieldPart(before, after, 3) == FieldMove("version", OrEmpty(before.version), OrEmpty(after.version))
    ensures FieldPart(before, after, 4) == FieldMove("display_name", before.displayName, after.displayName)
    ensures FieldPart(before, after, 5) == FieldMove("tagline", before.tagline, after.tagline)
    ensures FieldPart(before, after, 6) == FieldMove("featured", BoolText(before.featured), BoolText(after.featured))
    ensures FieldPart(before, after, 7) == FieldMove("tags", Join(before.tags, ", "), Join(after.tags, ", "))
  {
    hide Join, Decimal, FieldPart, FieldMove;
    TextPart(before, after, 0, "minecraft", before.minecraftVersion, after.minecraftVersion);
    TextPart(before, after, 1, "loader", LoaderLine(before.loader), LoaderLine(after.loader));
    TextPart(before, after, 2, "java", Decimal(before.javaMajor), Decimal(after.javaMajor));
    TextPart(before, after, 3, "version", OrEmpty(before.version), OrEmpty(after.version));
    TextPart(before, after, 4, "display_name", before.displayName, after.displayName);
    TextPart(before, after, 5, "tagline", before.tagline, after.tagline);
    TextPart(before, after, 6, "featured", BoolText(before.featured), BoolText(after.featured));
    TextPart(before, after, 7, "tags", Join(before.tags, ", "), Join(after.tags, ", "));
  }

  lemma RecordParts(before: PackConfig, after: PackConfig)
    ensures FieldPart(before, after, 8) == OpaqueMove("pack_meta", before.packMeta == after.packMeta)
    ensures FieldPart(before, after, 9) == OpaqueMove("auth", before.auth == after.auth)
  {
  }

  lemma FieldRowsAll(before: PackConfig, after: PackConfig)
    ensures FieldRows(before, after, 10)
         == FieldPart(before, after, 0) + FieldPart(before, after, 1) + FieldPart(before, after, 2)
            + FieldPart(before, after, 3) + FieldPart(before, after, 4) + FieldPart(before, after, 5)
            + FieldPart(before, after, 6) + FieldPart(before, after, 7) + FieldPart(before, after, 8)
            + FieldPart(before, after, 9)
  {
    assert FieldRows(before, after, 0) == [];
    assert [] + FieldPart(before, after, 0) == FieldPart(before, after, 0);
    hide FieldPart, FieldRows;
    FieldRowsNext(before, after, 0);
    FieldRowsNext(before, after, 1);
    FieldRowsNext(before, after, 2);
    FieldRowsNext(before, after, 3);
    FieldRowsNext(before, after, 4);
    FieldRowsNext(before, after, 5);
    FieldRowsNext(before, after, 6);
    FieldRowsNext(before, after, 7);
    FieldRowsNext(before, after, 8);
    FieldRowsNext(before, after, 9);
  }

  /** One row for each field that moved, in this order, from its old text to its new. */
  lemma PackRowsAre(before: PackConfig, after: PackConfig)
    ensures PackRows(before, after) == FieldRows(before, after, 10)
  {
    FieldRowsAll(before, after);
    TextParts(before, after);
    RecordParts(before, after);
    hide FieldPart, FieldRows, FieldMove, OpaqueMove, Join, Decimal, LoaderLine, OrEmpty, BoolText;
  }

  // ----- The order of the rows -----------------------------------------------------------------------

  /** Additions before removals before changes, and by caption among each. */
  predicate InOrder(c: ConfigChange, d: ConfigChange)
  {
    || (c.op == Add && d.op != Add)
    || (c.op == Remove && d.op == Change)
    || (c.op == d.op && AtMost(c.caption, d.caption))
  }

  lemma RankIs(c: ConfigChange, d: ConfigChange)
    ensures AtMost(RankLabel(c), RankLabel(d)) <==> InOrder(c, d)
  {
    assert RankLabel(c)[1..] == c.caption && RankLabel(d)[1..] == d.caption;
    assert RankLabel(c)[0] == (if c.op == Add then '0' else if c.op == Remove then '1' else '2');
    assert RankLabel(d)[0] == (if d.op == Add then '0' else if d.op == Remove then '1' else '2');
    assert RankLabel(c) == [RankLabel(c)[0]] + c.caption && RankLabel(d) == [RankLabel(d)[0]] + d.caption;
  }

  /** The rows of a group, all of them, in that order. */
  lemma SortedRowsAre(rows: seq<ConfigChange>)
    ensures multiset(Sorted(rows)) == multiset(rows) && |Sorted(rows)| == |rows|
    ensures forall i, j :: 0 <= i < j < |rows| ==> InOrder(Sorted(rows)[i], Sorted(rows)[j])
  {
    SortIsOrdered(rows, RankLabel);
    SameCount(Sorted(rows), rows);
    var s := Sorted(rows);
    forall i, j | 0 <= i < j < |rows| ensures InOrder(s[i], s[j]) {
      RankIs(s[i], s[j]);
    }
  }

  /** The whole diff is the pack's fields, then mods, then assets. */
  lemma DiffStands(before: PackConfig, after: PackConfig)
    ensures Diff(before, after)
         == FieldRows(before, after, 10) + Sorted(ModDiff(before, after)) + Sorted(AssetDiff(before, after))
  {
    PackRowsAre(before, after);
    hide PackRows, Sorted, ModDiff, AssetDiff, FieldRows;
  }
}
