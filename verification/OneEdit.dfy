/** One edit, one row: what the diff of src/authoring/configdiff.rs says when a single
    mod of an accepted config was re-pinned, switched, added or removed. */
module OneEdit {
  import opened Base
  import opened Texts
  import opened Sorting
  import opened Manifest
  import opened PackConfigs
  import opened ConfigDiff
  import opened ConfigDiffLaws
  import opened DiffReading

  // ----- Groups that differ in one row -------------------------------------------------

  const NO_PAIRS: map<string, string> := map[]

  lemma StillRow(key: string, r: Row)
    ensures Changes(key, r, r) == []
  {
  }

  lemma {:induction false} MatchedOnly(was: Rows, k: string, r: Row, keys: seq<string>)
    requires k in was && Increasing(keys) && forall x :: x in keys ==> x in was
    ensures Matched(was, was[k := r], keys) == if k in keys then Changes(k, was[k], r) else []
  {
    hide Changes;
    if keys != [] {
      var n := |keys| - 1;
      assert keys == keys[..n] + [keys[n]];
      MatchedOnly(was, k, r, keys[..n]);
      StillRow(keys[n], was[keys[n]]);
      IncreasingDistinct(keys);
      assert k == keys[n] ==> k !in keys[..n];
    }
  }

  lemma {:induction false} NothingGone(now: Rows, keys: seq<string>)
    requires forall k :: k in keys ==> k in now
    ensures Gone(now, keys) == []
  {
    if keys != [] {
      NothingGone(now, keys[..|keys| - 1]);
      assert keys[|keys| - 1] in keys;
    }
  }

  lemma {:induction false} NothingCame(was: Rows, now: Rows, keys: seq<string>)
    requires forall k :: k in keys ==> k in was && k in now
    ensures Arrivals(was, now, {}, keys) == []
  {
    if keys != [] {
      NothingCame(was, now, keys[..|keys| - 1]);
      assert keys[|keys| - 1] in keys;
    }
  }

  /** A row changed under its key: its changes, and nothing else. */
  lemma RowEdited(was: Rows, k: string, r: Row)
    requires k in was
    ensures RowDiff(was, was[k := r]) == Changes(k, was[k], r)
  {
    var now := was[k := r];
    assert now.Keys == was.Keys;
    var keys := SortedKeys(now.Keys);
    assert k in keys && forall x :: x in keys <==> x in was;
    MatchedOnly(was, k, r, keys);
    NothingGone(now, SortedKeys(was.Keys));
    assert GoneKeys(was, now) == [];
    assert Pairs(was, now, []) == map[] && Departures(was, now, map[], []) == [];
    NothingCame(was, now, keys);
    assert NO_PAIRS.Values == {};
    hide Changes, Matched, Arrivals, Departures, SortedKeys, Gone;
  }

  lemma {:induction false} NothingMatches(was: Rows, now: Rows, keys: seq<string>)
    requires forall k :: k in keys ==> k in now && (k in was ==> was[k] == now[k])
    ensures Matched(was, now, keys) == []
  {
    hide Changes;
    if keys != [] {
      var n := |keys| - 1;
      assert keys == keys[..n] + [keys[n]];
      NothingMatches(was, now, keys[..n]);
      StillRow(keys[n], now[keys[n]]);
    }
  }

  lemma {:induction false} OneCame(was: Rows, k: string, r: Row, keys: seq<string>)
    requires k !in was && Increasing(keys) && forall x :: x in keys ==> x in was || x == k
    ensures Arrivals(was, was[k := r], {}, keys) == if k in keys then [Arrival(k, r)] else []
  {
    hide Arrival;
    if keys != [] {
      var init, last := keys[..|keys| - 1], keys[|keys| - 1];
      LastOfIncreasing(keys);
      OneCame(was, k, r, init);
      hide Arrivals, Increasing;
      ArrivalsLast(was, was[k := r], keys);
    }
  }

  lemma ArrivalsLast(was: Rows, now: Rows, keys: seq<string>)
    requires keys != [] && forall x :: x in keys ==> x in now
    ensures var (init, last) := (keys[..|keys| - 1], keys[|keys| - 1]);
            && last in now && (forall x :: x in init ==> x in now)
            && Arrivals(was, now, {}, keys)
               == Arrivals(was, now, {}, init) + if last in was then [] else [Arrival(last, now[last])]
  {
    hide Arrival;
  }

  lemma LastOfIncreasing(keys: seq<string>)
    requires Increasing(keys) && keys != []
    ensures var (init, last) := (keys[..|keys| - 1], keys[|keys| - 1]);
            Increasing(init) && last !in init && forall x :: x in keys <==> x in init || x == last
  {
    IncreasingDistinct(keys);
    assert keys == keys[..|keys| - 1] + [keys[|keys| - 1]];
  }

  /** A row under a new key: one addition. */
  lemma RowAdded(was: Rows, k: string, r: Row)
    requires k !in was
    ensures RowDiff(was, was[k := r]) == [Arrival(k, r)]
  {
    var now := was[k := r];
    var keys := SortedKeys(now.Keys);
    assert k in keys && forall x :: x in keys <==> x in now;
    NothingMatches(was, now, keys);
    NothingGone(now, SortedKeys(was.Keys));
    assert GoneKeys(was, now) == [];
    assert Pairs(was, now, []) == map[] && Departures(was, now, map[], []) == [];
    OneCame(was, k, r, keys);
    assert NO_PAIRS.Values == {};
    hide Matched, Arrivals, Departures, SortedKeys, Gone, Arrival;
  }

  lemma {:induction false} OneGone(was: Rows, k: string, keys: seq<string>)
    requires k !in was && Increasing(keys) && forall x :: x in keys ==> x in was || x == k
    ensures Gone(was, keys) == if k in keys then [k] else []
  {
    if keys != [] {
      var init, last := keys[..|keys| - 1], keys[|keys| - 1];
      LastOfIncreasing(keys);
      OneGone(was, k, init);
      assert Gone(was, keys) == Gone(was, init) + if last in was then [] else [last];
      hide Gone, Increasing;
    }
  }

  /** And a row taken away: one removal. */
  lemma RowRemoved(now: Rows, k: string, r: Row)
    requires k !in now
    ensures RowDiff(now[k := r], now) == [Departure(k, r)]
  {
    var was := now[k := r];
    var keys, gone := SortedKeys(now.Keys), SortedKeys(was.Keys);
    assert (forall x :: x in keys <==> x in now) && (forall x :: x in gone <==> x in was) && k in gone;
    OneGone(now, k, gone);
    assert GoneKeys(was, now) == [k];
    NoPairs(was, now, k);
    OneDeparture(was, now, k);
    assert NO_PAIRS.Values == {};
    hide Matched, Arrivals, Departures, SortedKeys, Gone, Departure, Pairs, Increasing;
    NothingMatches(was, now, keys);
    NothingCame(was, now, keys);
  }

  lemma OneDeparture(was: Rows, now: Rows, k: string)
    requires k in was
    ensures Departures(was, now, NO_PAIRS, [k]) == [Departure(k, was[k])]
  {
    assert [k][..0] == [] && Departures(was, now, NO_PAIRS, []) == [];
    hide Departure;
  }

  lemma NoPairs(was: Rows, now: Rows, k: string)
    requires k in was && forall x :: x in now ==> x in was
    ensures Pairs(was, now, [k]) == NO_PAIRS
  {
    assert [k][..0] == [] && Pairs(was, now, []) == map[];
    var partner := Partner(was, now, NO_PAIRS.Values, PinOf(was[k].source), SortedKeys(now.Keys));
    assert partner.None?;
  }

  // ----- Keys of an edited list ------------------------------------------------------------

  /** The key a row gets behind these. */
  function NewKey(before: Rows, r: Row): string
  {
    if Identity(r) in before then "f:" + r.name else Identity(r)
  }

  /** None of these rows ever gets the key where it is taken. */
  ghost predicate Avoid(b: seq<Row>, k: string)
  {
    forall x, before: Rows :: x in b && k in before ==> NewKey(before, x) != k
  }

  /** Rows keyed alike but for one stay so. */
  lemma {:induction false} KeyedOnAlike(p: seq<Row>, q: seq<Row>, k: string, s: Row, b: seq<Row>)
    requires k in Keyed(p) && Keyed(q) == Keyed(p)[k := s] && Avoid(b, k)
    ensures k in Keyed(p + b) && Keyed(q + b) == Keyed(p + b)[k := s] && Keyed(p + b)[k] == Keyed(p)[k]
  {
    if b == [] {
      assert p + b == p && q + b == q;
    } else {
      var init, x := b[..|b| - 1], b[|b| - 1];
      assert p + b == (p + init) + [x] && q + b == (q + init) + [x];
      assert x in b && forall y :: y in init ==> y in b;
      hide Keyed, NewKey;
      KeyedOnAlike(p, q, k, s, init);
      KeyedOn(p + init, x);
      KeyedOn(q + init, x);
      ReplacedOn(Keyed(p + init), k, s, x);
    }
  }

  /** Replacing a row by one of the same identity and filename replaces it under its key. */
  lemma KeyedReplaced(a: seq<Row>, r: Row, s: Row, b: seq<Row>)
    requires Identity(r) == Identity(s) && r.name == s.name
    requires forall x :: x in b ==> x.name != r.name
    ensures NewKey(Keyed(a), r) in Keyed(a + [r] + b)
    ensures Keyed(a + [s] + b) == Keyed(a + [r] + b)[NewKey(Keyed(a), r) := s]
    ensures Keyed(a + [r] + b)[NewKey(Keyed(a), r)] == r
  {
    var k := NewKey(Keyed(a), r);
    KeyedOn(a, r);
    KeyedOn(a, s);
    assert NewKey(Keyed(a), s) == k;
    forall x, before: Rows | x in b && k in before ensures NewKey(before, x) != k {
      KeyElsewhere(a, r, x, before);
    }
    hide Keyed, Identity, NewKey;
    assert Avoid(b, k);
    KeyedOnAlike(a + [r], a + [s], k, s, b);
  }

  lemma KeyedOn(rows: seq<Row>, x: Row)
    ensures Keyed(rows + [x]) == Keyed(rows)[NewKey(Keyed(rows), x) := x]
  {
    KeyedLast(rows, x);
    hide Keyed, Identity;
  }

  lemma ReplacedOn(before: Rows, k: string, s: Row, x: Row)
    requires k in before && NewKey(before, x) != k
    ensures NewKey(before[k := s], x) == NewKey(before, x)
    ensures before[k := s][NewKey(before, x) := x] == before[NewKey(before, x) := x][k := s]
  {
    hide Identity;
  }

  lemma KeyElsewhere(a: seq<Row>, r: Row, x: Row, before: Rows)
    requires NewKey(Keyed(a), r) in before && x.name != r.name
    ensures NewKey(before, x) != NewKey(Keyed(a), r)
  {
    FilenameIdentity(r, x.name);
    AfterPrefix("f:", r.name, x.name);
    hide Keyed, Identity;
  }

  lemma DeclaredAround(a: seq<DeclaredMod>, m: DeclaredMod, b: seq<DeclaredMod>)
    requires !m.pulled
    ensures ModRows(Declared(a + [m] + b)) == ModRows(Declared(a)) + [ModRow(m)] + ModRows(Declared(b))
  {
    DeclaredAppend(a + [m], b);
    DeclaredLast(a, m);
    hide Declared;
  }

  lemma OtherNames(a: seq<DeclaredMod>, m: DeclaredMod, b: seq<DeclaredMod>)
    requires UniqueFilenames(a + [m] + b)
    ensures forall x :: x in ModRows(Declared(b)) ==> x.name != m.filename
    ensures forall x :: x in ModRows(Declared(a)) ==> x.name != m.filename
  {
    var all := a + [m] + b;
    forall n | n in a || n in b ensures n.filename != m.filename {
      assert all[|a|] == m;
      if n in a {
        var i :| 0 <= i < |a| && a[i] == n;
        assert all[i] == n;
      } else {
        var i :| 0 <= i < |b| && b[i] == n;
        assert all[|a| + 1 + i] == n;
      }
    }
    RowNames(a, m.filename);
    RowNames(b, m.filename);
  }

  lemma RowNames(mods: seq<DeclaredMod>, f: string)
    requires forall n :: n in mods ==> n.filename != f
    ensures forall x :: x in ModRows(Declared(mods)) ==> x.name != f
  {
    var declared := Declared(mods);
    forall x | x in ModRows(declared) ensures x.name != f {
      var i :| 0 <= i < |declared| && ModRows(declared)[i] == x;
      DeclaredMembers(mods, declared[i]);
      assert declared[i] in declared;
    }
  }

  // ----- One mod edited --------------------------------------------------------------------------

  function WithMods(cfg: PackConfig, mods: seq<DeclaredMod>): PackConfig
  {
    cfg.(mods := mods)
  }

  /** Only the mods can differ between configs that differ in their mods. */
  lemma OnlyModsDiffer(cfg: PackConfig, a: seq<DeclaredMod>, b: seq<DeclaredMod>)
    ensures Diff(WithMods(cfg, a), WithMods(cfg, b)) == Sorted(ModDiff(WithMods(cfg, a), WithMods(cfg, b)))
  {
    var x, y := WithMods(cfg, a), WithMods(cfg, b);
    SameFields(x, y);
    assert AssetRows(x) == AssetRows(y);
    RowDiffSelf(ByDest(AssetRows(x)));
    assert Sorted([]) == [];
    hide *;
    DiffParts(x, y);
    assert AssetDiff(x, y) == [] by { AssetDiffIs(x, y); }
  }

  lemma SameFields(x: PackConfig, y: PackConfig)
    requires x.(mods := []) == y.(mods := [])
    ensures PackRows(x, y) == []
  {
    hide Join, Decimal;
  }

  lemma DiffParts(x: PackConfig, y: PackConfig)
    ensures Diff(x, y) == PackRows(x, y) + Sorted(ModDiff(x, y)) + Sorted(AssetDiff(x, y))
  {
    hide PackRows, Sorted, ModDiff, AssetDiff;
  }

  lemma AssetDiffIs(x: PackConfig, y: PackConfig)
    ensures AssetDiff(x, y) == RowDiff(ByDest(AssetRows(x)), ByDest(AssetRows(y)))
  {
    hide RowDiff, ByDest, AssetRows;
  }

  /** Editing one mod, under the name and identity it has, shows as its own changes. */
  lemma EditReads(cfg: PackConfig, a: seq<DeclaredMod>, m: DeclaredMod, n: DeclaredMod, b: seq<DeclaredMod>)
    requires UniqueFilenames(a + [m] + b) && !m.pulled && !n.pulled
    requires n.filename == m.filename && Identity(ModRow(n)) == Identity(ModRow(m))
    ensures Diff(WithMods(cfg, a + [m] + b), WithMods(cfg, a + [n] + b))
         == Sorted(Changes(NewKey(Keyed(ModRows(Declared(a))), ModRow(m)), ModRow(m), ModRow(n)))
  {
    DeclaredAround(a, m, b);
    DeclaredAround(a, n, b);
    OtherNames(a, m, b);
    OnlyModsDiffer(cfg, a + [m] + b, a + [n] + b);
    var front, back := ModRows(Declared(a)), ModRows(Declared(b));
    KeyedReplaced(front, ModRow(m), ModRow(n), back);
    hide Declared, Keyed, Changes, Diff, Sorted, RowDiff, Identity;
    RowEdited(Keyed(front + [ModRow(m)] + back), NewKey(Keyed(front), ModRow(m)), ModRow(n));
  }

  /** No row of these is pinned to the project. */
  lemma ProjectKey(rows: seq<Row>, project: string)
    requires forall x :: x in rows ==> ProjectOf(x.source) != Some(project)
    ensures "m:" + project !in Keyed(rows)
  {
    if "m:" + project in Keyed(rows) {
      KeyedKeys(rows, "m:" + project);
      hide Keyed;
      var x :| x in rows && ("m:" + project == Identity(x) || "m:" + project == "f:" + x.name);
      IdentityLetter(x, project);
    }
  }

  lemma IdentityLetter(x: Row, project: string)
    ensures "m:" + project == Identity(x) ==> ProjectOf(x.source) == Some(project)
    ensures "m:" + project != "f:" + x.name
  {
    assert ("f:" + x.name)[0] == 'f' && ("m:" + project)[0] == 'm';
    if x.source.ModrinthPin? {
      AfterPrefix("m:", project, x.source.projectId);
    } else {
      assert Identity(x)[0] != 'm';
    }
  }

  lemma {:induction false} KeyedKeys(rows: seq<Row>, k: string)
    requires k in Keyed(rows)
    ensures exists x :: x in rows && (k == Identity(x) || k == "f:" + x.name)
  {
    hide Identity;
    if k in Keyed(rows[..|rows| - 1]) {
      KeyedKeys(rows[..|rows| - 1], k);
    }
  }

  lemma OtherProjects(a: seq<DeclaredMod>, m: DeclaredMod, b: seq<DeclaredMod>)
    requires UniqueArtifacts(a + [m] + b) && m.source.ModrinthPin?
    ensures forall x :: x in ModRows(Declared(a)) ==> ProjectOf(x.source) != Some(m.source.projectId)
  {
    var all, declared := a + [m] + b, Declared(a);
    forall x | x in ModRows(declared) ensures ProjectOf(x.source) != Some(m.source.projectId) {
      var i :| 0 <= i < |declared| && ModRows(declared)[i] == x;
      assert declared[i] in declared;
      DeclaredMembers(a, declared[i]);
      var j :| 0 <= j < |a| && a[j] == declared[i];
      assert all[j] == a[j] && all[|a|] == m;
    }
  }

  lemma OneSorted(c: ConfigChange)
    ensures Sorted([c]) == [c]
  {
    SortedRowsAre([c]);
    SameCount(Sorted([c]), [c]);
    assert Sorted([c])[0] in [c];
  }

  /** Pinning a mod to another version of its project: one row, from the version it had
      to the one it has. */
  lemma RepinReads(cfg: PackConfig, a: seq<DeclaredMod>, m: DeclaredMod, v: string, b: seq<DeclaredMod>)
    requires UniqueFilenames(a + [m] + b) && UniqueArtifacts(a + [m] + b) && !m.pulled
    requires m.source.ModrinthPin? && v != m.source.versionId
    ensures Diff(WithMods(cfg, a + [m] + b), WithMods(cfg, a + [m.(source := ModrinthPin(m.source.projectId, v))] + b))
         == [ConfigChange(ModsGroup, Change, "m:" + m.source.projectId, m.filename, Some(Pin),
                          Some(m.source.versionId), Some(v), Some(m.source.projectId))]
  {
    var n := m.(source := ModrinthPin(m.source.projectId, v));
    OtherProjects(a, m, b);
    ProjectKey(ModRows(Declared(a)), m.source.projectId);
    EditReads(cfg, a, m, n, b);
    var c := ConfigChange(ModsGroup, Change, "m:" + m.source.projectId, m.filename, Some(Pin),
                          Some(m.source.versionId), Some(v), Some(m.source.projectId));
    RepinChanges("m:" + m.source.projectId, m, v);
    OneSorted(c);
    hide Diff, Sorted, Changes, Declared, Keyed, SameArtifact;
  }

  lemma RepinChanges(key: string, m: DeclaredMod, v: string)
    requires m.source.ModrinthPin? && v != m.source.versionId
    ensures Changes(key, ModRow(m), ModRow(m.(source := ModrinthPin(m.source.projectId, v))))
         == [ConfigChange(ModsGroup, Change, key, m.filename, Some(Pin), Some(m.source.versionId), Some(v),
                          Some(m.source.projectId))]
  {
    hide AuthoredOf;
  }

  /** Switching a mod off in the default install: one row, from on to off. */
  lemma SwitchReads(cfg: PackConfig, a: seq<DeclaredMod>, m: DeclaredMod, b: seq<DeclaredMod>)
    requires UniqueFilenames(a + [m] + b) && UniqueArtifacts(a + [m] + b) && !m.pulled
    requires m.source.ModrinthPin? && m.defaultEnabled
    ensures Diff(WithMods(cfg, a + [m] + b), WithMods(cfg, a + [m.(defaultEnabled := false)] + b))
         == [ConfigChange(ModsGroup, Change, "m:" + m.source.projectId, m.filename, Some(DefaultEnabled),
                          Some("on"), Some("off"), Some(m.source.projectId))]
  {
    var n := m.(defaultEnabled := false);
    OtherProjects(a, m, b);
    ProjectKey(ModRows(Declared(a)), m.source.projectId);
    EditReads(cfg, a, m, n, b);
    var c := ConfigChange(ModsGroup, Change, "m:" + m.source.projectId, m.filename, Some(DefaultEnabled),
                          Some("on"), Some("off"), Some(m.source.projectId));
    SwitchChanges("m:" + m.source.projectId, m);
    OneSorted(c);
    hide Diff, Sorted, Changes, Declared, Keyed, SameArtifact;
  }

  lemma SwitchChanges(key: string, m: DeclaredMod)
    requires m.source.ModrinthPin? && m.defaultEnabled
    ensures Changes(key, ModRow(m), ModRow(m.(defaultEnabled := false)))
         == [ConfigChange(ModsGroup, Change, key, m.filename, Some(DefaultEnabled), Some("on"), Some("off"),
                          Some(m.source.projectId))]
  {
    hide AuthoredOf;
  }

  /** A mod declared last, one that is no dependency the fill pulled: one addition there,
      one removal back. */
  lemma AdditionReads(cfg: PackConfig, a: seq<DeclaredMod>, m: DeclaredMod)
    requires UniqueFilenames(a + [m]) && UniqueArtifacts(a + [m]) && !m.pulled && m.source.ModrinthPin?
    ensures Diff(WithMods(cfg, a), WithMods(cfg, a + [m]))
         == [ConfigChange(ModsGroup, Add, "m:" + m.source.projectId, m.filename, None, None,
                          Some(m.source.versionId), Some(m.source.projectId))]
    ensures Diff(WithMods(cfg, a + [m]), WithMods(cfg, a))
         == [ConfigChange(ModsGroup, Remove, "m:" + m.source.projectId, m.filename, None, Some(m.source.versionId),
                          None, Some(m.source.projectId))]
  {
    var rows, r, k := ModRows(Declared(a)), ModRow(m), "m:" + m.source.projectId;
    assert a + [m] + [] == a + [m];
    OtherProjects(a, m, []);
    ProjectKey(rows, m.source.projectId);
    DeclaredAround(a, m, []);
    assert rows + [r] + ModRows(Declared([])) == rows + [r];
    KeyedLast(rows, r);
    OnlyModsDiffer(cfg, a, a + [m]);
    OnlyModsDiffer(cfg, a + [m], a);
    RowAdded(Keyed(rows), k, r);
    RowRemoved(Keyed(rows), k, r);
    OneSorted(Arrival(k, r));
    OneSorted(Departure(k, r));
    hide Diff, Sorted, RowDiff, Declared, Keyed;
  }
}
