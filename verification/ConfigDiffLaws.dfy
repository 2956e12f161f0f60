/** What the config diff promises (src/authoring/configdiff.rs, and the fill of
    src/authoring/depfill.rs which must never show in it). */
module ConfigDiffLaws {
  import opened Base
  import opened Texts
  import opened Sorting
  import opened Manifest
  import opened PackConfigs
  import opened ConfigDiff
  import DepFill

  // ----- The fill is invisible --------------------------------------------------------

  lemma LinkedLooksTheSame(m: DeclaredMod, edges: seq<(string, string)>)
    ensures ModRow(DepFill.Linked(m, edges)) == ModRow(m) && DepFill.Linked(m, edges).pulled == m.pulled
  {
    hide DepFill.Dedup, DepFill.DepsOf, Sort;
  }

  lemma ModRowsLast(mods: seq<DeclaredMod>, m: DeclaredMod)
    ensures ModRows(mods + [m]) == ModRows(mods) + [ModRow(m)]
  {
  }

  lemma LinkedAllLast(mods: seq<DeclaredMod>, m: DeclaredMod, edges: seq<(string, string)>)
    ensures DepFill.LinkedAll(mods + [m], edges) == DepFill.LinkedAll(mods, edges) + [DepFill.Linked(m, edges)]
  {
    hide DepFill.Linked;
  }

  lemma DeclaredKeepsOrDrops(a: seq<DeclaredMod>, m: DeclaredMod)
    ensures Declared(a + [m]) == if m.pulled then Declared(a) else Declared(a) + [m]
  {
    DeclaredLast(a, m);
  }

  lemma SameLooksLast(a: seq<DeclaredMod>, b: seq<DeclaredMod>, m: DeclaredMod, n: DeclaredMod)
    requires ModRows(Declared(a)) == ModRows(Declared(b))
    requires ModRow(m) == ModRow(n) && m.pulled == n.pulled
    ensures ModRows(Declared(a + [m])) == ModRows(Declared(b + [n]))
  {
    hide Declared, ModRows, ModRow;
    DeclaredKeepsOrDrops(a, m);
    DeclaredKeepsOrDrops(b, n);
    ModRowsLast(Declared(a), m);
    ModRowsLast(Declared(b), n);
  }

  lemma {:induction false} LinkedRowsLookTheSame(mods: seq<DeclaredMod>, edges: seq<(string, string)>)
    ensures ModRows(Declared(DepFill.LinkedAll(mods, edges))) == ModRows(Declared(mods))
  {
    hide Declared, ModRows, ModRow, DepFill.Linked, DepFill.LinkedAll;
    if mods == [] {
      assert DepFill.LinkedAll(mods, edges) == mods;
    } else {
      var init, m := mods[..|mods| - 1], mods[|mods| - 1];
      LinkedRowsLookTheSame(init, edges);
      LinkedLooksTheSame(m, edges);
      SameLooksLast(DepFill.LinkedAll(init, edges), init, DepFill.Linked(m, edges), m);
      LinkedAllLast(init, m, edges);
      assert mods == init + [m];
    }
  }

  lemma {:induction false} PulledDeclareNothing(pulled: seq<DeclaredMod>)
    requires forall m :: m in pulled ==> m.pulled
    ensures Declared(pulled) == []
  {
    if pulled != [] {
      assert pulled[|pulled| - 1] in pulled;
      PulledDeclareNothing(pulled[..|pulled| - 1]);
    }
  }

  /** A config after the fill: pulled rows appended, edges rewritten, orphans pruned. */
  ghost function AfterFill(cfg: PackConfig, pulled: seq<DeclaredMod>, edges: seq<(string, string)>): PackConfig
  {
    cfg.(mods := DepFill.Pruned(DepFill.LinkedAll(cfg.mods + pulled, edges)))
  }

  lemma FillLeavesAuthoredRows(cfg: PackConfig, pulled: seq<DeclaredMod>, edges: seq<(string, string)>)
    requires forall m :: m in pulled ==> m.pulled
    ensures AuthoredRows(AfterFill(cfg, pulled, edges)) == AuthoredRows(cfg)
  {
    var all := cfg.mods + pulled;
    var linked := DepFill.LinkedAll(all, edges);
    DepFill.DeclaredSurvive(linked, linked);
    LinkedRowsLookTheSame(all, edges);
    DeclaredAppend(cfg.mods, pulled);
    PulledDeclareNothing(pulled);
  }

  /** Whatever the fill appends, links and prunes, every diff against the config reads
      the same as before, slug collisions included. */
  lemma FillIsInvisible(other: PackConfig, cfg: PackConfig, pulled: seq<DeclaredMod>, edges: seq<(string, string)>)
    requires forall m :: m in pulled ==> m.pulled
    ensures Diff(other, AfterFill(cfg, pulled, edges)) == Diff(other, cfg)
    ensures Diff(AfterFill(cfg, pulled, edges), other) == Diff(cfg, other)
  {
    FillLeavesAuthoredRows(cfg, pulled, edges);
    var after := AfterFill(cfg, pulled, edges);
    SamePackRows(other, cfg, after);
    hide AuthoredRows, RowDiff, PackRows, Sorted;
  }

  lemma SamePackRows(other: PackConfig, cfg: PackConfig, after: PackConfig)
    requires after == cfg.(mods := after.mods)
    ensures PackRows(other, after) == PackRows(other, cfg) && PackRows(after, other) == PackRows(cfg, other)
    ensures AssetRows(after) == AssetRows(cfg)
  {
  }

  /** The sticky merge is invisible too: a save that restores pulled rows changed nothing. */
  lemma MergeIsInvisible(other: PackConfig, saved: PackConfig, incoming: PackConfig)
    ensures var merged := incoming.(mods := incoming.mods + DepFill.Missed(saved.mods, incoming.mods));
            Diff(other, merged) == Diff(other, incoming) && Diff(merged, other) == Diff(incoming, other)
  {
    var missed := DepFill.Missed(saved.mods, incoming.mods);
    forall m | m in missed ensures m.pulled {
      DepFill.MissedMembers(saved.mods, incoming.mods, m);
    }
    DeclaredAppend(incoming.mods, missed);
    PulledDeclareNothing(missed);
    var merged := incoming.(mods := incoming.mods + missed);
    assert AuthoredRows(merged) == AuthoredRows(incoming);
    SamePackRows(other, incoming, merged);
    hide AuthoredRows, RowDiff, PackRows, Sorted;
  }

  // ----- Keys -----------------------------------------------------------------------------

  predicate UniqueNames(rows: seq<Row>)
  {
    forall i, j :: 0 <= i < j < |rows| ==> rows[i].name != rows[j].name
  }

  /** The first row with an identity, which is the one that gets it as a key. */
  function FirstHolder(rows: seq<Row>, id: string): Option<string>
  {
    if rows == [] then None
    else if FirstHolder(rows[..|rows| - 1], id).Some? then FirstHolder(rows[..|rows| - 1], id)
    else if Identity(rows[|rows| - 1]) == id then Some(rows[|rows| - 1].name)
    else None
  }

  function KeyOf(rows: seq<Row>, r: Row): string
  {
    if FirstHolder(rows, Identity(r)) == Some(r.name) then Identity(r) else "f:" + r.name
  }

  lemma FirstHolderLast(rows: seq<Row>, r: Row, id: string)
    ensures FirstHolder(rows + [r], id)
         == if FirstHolder(rows, id).Some? then FirstHolder(rows, id)
           else if Identity(r) == id then Some(r.name) else None
  {
    assert (rows + [r])[..|rows|] == rows;
  }

  lemma {:induction false} FirstHolderHolds(rows: seq<Row>, id: string)
    ensures FirstHolder(rows, id).Some? ==>
      exists r :: r in rows && Identity(r) == id && r.name == FirstHolder(rows, id).value
    ensures FirstHolder(rows, id).None? ==> forall r :: r in rows ==> Identity(r) != id
  {
    if rows != [] {
      var init, r := rows[..|rows| - 1], rows[|rows| - 1];
      assert rows == init + [r];
      FirstHolderHolds(init, id);
      hide Identity;
    }
  }

  /** An identity is a filename key only for the row of that filename. */
  lemma FilenameIdentity(r: Row, name: string)
    ensures Identity(r) == "f:" + name ==> r.name == name
  {
    AfterPrefix("f:", r.name, name);
    assert ("f:" + name)[0] == 'f';
    assert r.source.ModrinthPin? ==> Identity(r)[0] == 'm';
  }

  predicate KeyedAs(rows: seq<Row>, out: Rows)
  {
    && (forall r :: r in rows ==> KeyOf(rows, r) in out && out[KeyOf(rows, r)] == r)
    && (forall k :: k in out ==> out[k] in rows && k == KeyOf(rows, out[k]))
    && |out| == |rows|
  }

  /** With unique filenames every authored row keeps a key of its own. */
  lemma {:induction false} EveryRowHasItsKey(rows: seq<Row>)
    requires UniqueNames(rows)
    ensures KeyedAs(rows, Keyed(rows))
  {
    if rows != [] {
      var init, r := rows[..|rows| - 1], rows[|rows| - 1];
      assert rows == init + [r];
      EveryRowHasItsKey(init);
      forall n | n in init ensures n.name != r.name {
        var i :| 0 <= i < |init| && init[i] == n;
        assert rows[i] == n;
      }
      NextKey(init, r);
      KeyedLast(init, r);
    }
  }

  lemma NextKey(init: seq<Row>, r: Row)
    requires KeyedAs(init, Keyed(init))
    requires forall n :: n in init ==> n.name != r.name
    ensures KeyedAs(init + [r], Keyed(init)[(if Identity(r) in Keyed(init) then "f:" + r.name else Identity(r)) := r])
  {
    FreshKey(init, r);
    OldKeys(init, r);
    hide KeyOf, Identity, Keyed, FirstHolder;
    KeyedGrows(init, r, init + [r], Keyed(init), if Identity(r) in Keyed(init) then "f:" + r.name else Identity(r));
  }

  lemma KeyedGrows(init: seq<Row>, r: Row, rows: seq<Row>, out: Rows, key: string)
    requires KeyedAs(init, out) && rows == init + [r]
    requires key == KeyOf(rows, r) && key !in out
    requires forall n :: n in init ==> KeyOf(rows, n) == KeyOf(init, n)
    ensures KeyedAs(rows, out[key := r])
  {
    hide KeyOf;
    var next := out[key := r];
    MapGrows(out, key, r);
    forall n | n in rows ensures KeyOf(rows, n) in next && next[KeyOf(rows, n)] == n {
      if n in init {
        assert KeyOf(init, n) in out;
      } else {
        assert n == r;
      }
    }
    forall k | k in next ensures next[k] in rows && k == KeyOf(rows, next[k]) {
      if k != key {
        assert k in out && next[k] == out[k];
      }
    }
  }

  lemma MapGrows<T>(out: map<string, T>, key: string, r: T)
    requires key !in out
    ensures |out[key := r]| == |out| + 1
  {
    assert out[key := r].Keys == out.Keys + {key};
    assert |out[key := r]| == |out[key := r].Keys| && |out| == |out.Keys|;
  }

  lemma FreshKey(init: seq<Row>, r: Row)
    requires KeyedAs(init, Keyed(init))
    requires forall n :: n in init ==> n.name != r.name
    ensures var key := if Identity(r) in Keyed(init) then "f:" + r.name else Identity(r);
            key == KeyOf(init + [r], r) && key !in Keyed(init)
  {
    var out, key := Keyed(init), if Identity(r) in Keyed(init) then "f:" + r.name else Identity(r);
    IdentityTaken(init, r);
    FirstHolderLast(init, r, Identity(r));
    FirstHolderHolds(init, Identity(r));
    if key in out {
      var n := out[key];
      assert n in init && key == KeyOf(init, n) && key == "f:" + r.name;
      FilenameIdentity(n, r.name);
      AfterPrefix("f:", n.name, r.name);
    }
  }

  lemma OldKeys(init: seq<Row>, r: Row)
    requires forall n :: n in init ==> n.name != r.name
    ensures forall n :: n in init ==> KeyOf(init + [r], n) == KeyOf(init, n)
  {
    forall n | n in init ensures KeyOf(init + [r], n) == KeyOf(init, n) {
      FirstHolderHolds(init, Identity(n));
      FirstHolderLast(init, r, Identity(n));
      hide Identity, FirstHolder;
    }
  }

  lemma IdentityTaken(init: seq<Row>, r: Row)
    requires KeyedAs(init, Keyed(init))
    requires forall n :: n in init ==> n.name != r.name
    ensures Identity(r) in Keyed(init) <==> FirstHolder(init, Identity(r)).Some?
  {
    var id := Identity(r);
    FirstHolderHolds(init, id);
    if FirstHolder(init, id).Some? {
      var h :| h in init && Identity(h) == id && h.name == FirstHolder(init, id).value;
      assert KeyOf(init, h) == id;
    } else if id in Keyed(init) {
      var n := Keyed(init)[id];
      assert n in init && id == KeyOf(init, n);
      FilenameIdentity(r, n.name);
    }
  }

  // ----- Pairing ---------------------------------------------------------------------------------

  /** Pairs join a departure to an arrival that points at the same artifact, no
      arrival twice. */
  predicate PairsGood(was: Rows, now: Rows, pairs: map<string, string>)
  {
    && (forall k :: k in pairs ==> k in was && k !in now && pairs[k] in now && pairs[k] !in was
                                   && PinOf(was[k].source) == PinOf(now[pairs[k]].source))
    && forall j, k :: j in pairs && k in pairs && j != k ==> pairs[j] != pairs[k]
  }

  lemma {:induction false} PairingIsInjective(was: Rows, now: Rows, gone: seq<string>)
    requires forall k :: k in gone ==> k in was && k !in now
    requires forall i :: 0 <= i < |gone| ==> gone[i] !in gone[..i]
    ensures PairsGood(was, now, Pairs(was, now, gone))
    decreases |gone|
  {
    if gone != [] {
      var n := |gone| - 1;
      Shorter(was, now, gone);
      PairingIsInjective(was, now, gone[..n]);
      PairsNext(was, now, gone, n);
      assert gone[..n + 1] == gone;
      var pairs := Pairs(was, now, gone[..n]);
      assert gone[n] !in pairs;
      var partner := Partner(was, now, pairs.Values, PinOf(was[gone[n]].source), SortedKeys(now.Keys));
      hide Pairs, Partner, SortedKeys;
      if partner.Some? {
        OneMorePair(was, now, pairs, gone[n], partner.value);
      }
    }
  }

  lemma Shorter(was: Rows, now: Rows, gone: seq<string>)
    requires gone != [] && forall k :: k in gone ==> k in was && k !in now
    requires forall i :: 0 <= i < |gone| ==> gone[i] !in gone[..i]
    ensures var init := gone[..|gone| - 1];
            && (forall k :: k in init ==> k in was && k !in now)
            && (forall i :: 0 <= i < |init| ==> init[i] !in init[..i])
            && gone[|gone| - 1] in was && gone[|gone| - 1] !in now && gone[|gone| - 1] !in init
  {
    var n := |gone| - 1;
    assert gone[n] in gone;
    forall i | 0 <= i < n ensures gone[..n][i] !in gone[..n][..i] {
      assert gone[..n][..i] == gone[..i];
    }
  }

  lemma OneMorePair(was: Rows, now: Rows, pairs: map<string, string>, k: string, l: string)
    requires PairsGood(was, now, pairs) && k !in pairs && k in was && k !in now
    requires Free(was, now, pairs.Values, PinOf(was[k].source), l)
    ensures PairsGood(was, now, pairs[k := l])
  {
    forall j | j in pairs ensures pairs[j] != l {
    }
  }

  predicate NoRepeats(gone: seq<string>)
  {
    forall i :: 0 <= i < |gone| ==> gone[i] !in gone[..i]
  }

  /** No departure and arrival that point at one artifact are left unpaired. */
  lemma {:induction false} PairingIsMaximal(was: Rows, now: Rows, gone: seq<string>, k: string, l: string)
    requires (forall k :: k in gone ==> k in was && k !in now) && NoRepeats(gone)
    requires k in gone && k !in Pairs(was, now, gone)
    requires l in now && l !in was && PinOf(now[l].source) == PinOf(was[k].source)
    ensures l in Pairs(was, now, gone).Values
    decreases |gone|
  {
    var n := |gone| - 1;
    assert NoRepeats(gone[..n]) && gone[n] !in gone[..n] by { Shorter(was, now, gone); }
    hide NoRepeats;
    PairsNext(was, now, gone, n);
    assert gone[..n + 1] == gone;
    var pairs := Pairs(was, now, gone[..n]);
    assert gone[n] !in pairs;
    var partner := Partner(was, now, pairs.Values, PinOf(was[gone[n]].source), SortedKeys(now.Keys));
    hide Pairs, Partner, SortedKeys;
    if k == gone[n] {
      assert partner.None?;
      NoneFree(was, now, pairs, k, l);
    } else {
      InFirst(gone, k);
      PairingIsMaximal(was, now, gone[..n], k, l);
      if partner.Some? {
        ValuesGrow(pairs, gone[n], partner.value);
      }
    }
  }

  lemma InFirst(gone: seq<string>, k: string)
    requires gone != [] && k in gone && k != gone[|gone| - 1]
    ensures k in gone[..|gone| - 1]
  {
  }

  lemma NoneFree(was: Rows, now: Rows, pairs: map<string, string>, k: string, l: string)
    requires k in was && Partner(was, now, pairs.Values, PinOf(was[k].source), SortedKeys(now.Keys)).None?
    requires l in now && l !in was && PinOf(now[l].source) == PinOf(was[k].source)
    ensures l in pairs.Values
  {
    assert l in SortedKeys(now.Keys);
    assert !Free(was, now, pairs.Values, PinOf(was[k].source), l);
  }

  // ----- Every pair shows, and the counts add up ----------------------------------------------------

  /** Nothing the diff reads of a row moved. */
  predicate SameRow(a: Row, b: Row)
  {
    && PinOf(a.source) == PinOf(b.source) && ProjectOf(a.source) == ProjectOf(b.source)
    && a.name == b.name && a.on == b.on && a.slug == b.slug && a.display == b.display
  }

  predicate AllMods(rows: seq<Row>)
  {
    forall r :: r in rows ==> r.group == ModsGroup
  }

  lemma NoChangesMeansSame(key: string, was: Row, now: Row)
    requires now.group == ModsGroup
    ensures Changes(key, was, now) == [] <==> SameRow(was, now)
  {
  }

  lemma SameRowSameIdentity(a: Row, b: Row)
    requires SameRow(a, b)
    ensures Identity(a) == Identity(b)
  {
  }

  /** A departure paired with an arrival always shows as a change: two rows that
      differ in nothing would have had one key. */
  lemma PairedRowsShow(a: seq<Row>, b: seq<Row>, k: string, l: string)
    requires KeyedAs(a, Keyed(a)) && KeyedAs(b, Keyed(b)) && AllMods(b)
    requires k in Keyed(a) && k !in Keyed(b) && l in Keyed(b) && l !in Keyed(a)
    ensures Changes(l, Keyed(a)[k], Keyed(b)[l]) != []
  {
    var r, s := Keyed(a)[k], Keyed(b)[l];
    assert r in a && k == KeyOf(a, r) && s in b && l == KeyOf(b, s);
    NoChangesMeansSame(l, r, s);
    if SameRow(r, s) {
      SameRowSameIdentity(r, s);
      HolderIsKeyed(a, r);
      HolderIsKeyed(b, s);
    }
  }

  lemma HolderIsKeyed(rows: seq<Row>, r: Row)
    requires KeyedAs(rows, Keyed(rows)) && r in rows
    ensures Identity(r) in Keyed(rows)
  {
    FirstHolderHolds(rows, Identity(r));
    var h :| h in rows && Identity(h) == Identity(r) && h.name == FirstHolder(rows, Identity(r)).value;
    assert KeyOf(rows, h) == Identity(r);
  }

  function CountOp(rows: seq<ConfigChange>, op: ChangeOp): nat
  {
    if rows == [] then 0 else CountOp(rows[..|rows| - 1], op) + if rows[|rows| - 1].op == op then 1 else 0
  }

  lemma {:induction false} CountAppend(a: seq<ConfigChange>, b: seq<ConfigChange>, op: ChangeOp)
    ensures CountOp(a + b, op) == CountOp(a, op) + CountOp(b, op)
  {
    if b == [] {
      assert a + b == a;
    } else {
      assert (a + b)[..|a + b| - 1] == a + b[..|b| - 1];
      CountAppend(a, b[..|b| - 1], op);
    }
  }

  lemma {:induction false} CountNone(rows: seq<ConfigChange>, op: ChangeOp)
    requires forall c :: c in rows ==> c.op != op
    ensures CountOp(rows, op) == 0
  {
    if rows != [] {
      assert rows[|rows| - 1] in rows;
      CountNone(rows[..|rows| - 1], op);
    }
  }

  lemma ChangesOnlyChange(key: string, was: Row, now: Row)
    ensures forall c :: c in Changes(key, was, now) ==> c.op == Change
    ensures CountOp(Changes(key, was, now), Add) == 0 && CountOp(Changes(key, was, now), Remove) == 0
  {
    assert forall c :: c in PinMove(key, was, now) ==> c.op == Change;
    var rows := Changes(key, was, now);
    assert forall c :: c in rows ==> c.op == Change;
    hide Changes;
    CountNone(rows, Add);
    CountNone(rows, Remove);
  }

  lemma {:induction false} MatchedCounts(was: Rows, now: Rows, keys: seq<string>)
    requires forall k :: k in keys ==> k in now
    ensures CountOp(Matched(was, now, keys), Add) == 0 && CountOp(Matched(was, now, keys), Remove) == 0
  {
    if keys != [] {
      var n := |keys| - 1;
      var k := keys[n];
      assert k in keys;
      MatchedCounts(was, now, keys[..n]);
      hide Changes;
      if k in was {
        ChangesOnlyChange(k, was[k], now[k]);
        CountAppend(Matched(was, now, keys[..n]), Changes(k, was[k], now[k]), Add);
        CountAppend(Matched(was, now, keys[..n]), Changes(k, was[k], now[k]), Remove);
      } else {
        assert Matched(was, now, keys) == Matched(was, now, keys[..n]);
      }
    }
  }

  /** How many of the keys satisfy being in a set. */
  function Within(keys: seq<string>, s: set<string>): nat
  {
    if keys == [] then 0 else Within(keys[..|keys| - 1], s) + if keys[|keys| - 1] in s then 1 else 0
  }

  lemma {:induction false} WithinCounts(keys: seq<string>, s: set<string>)
    requires forall i :: 0 <= i < |keys| ==> keys[i] !in keys[..i]
    ensures Within(keys, s) == |set k | k in keys && k in s|
  {
    if keys == [] {
      assert (set k | k in keys && k in s) == {};
    } else {
      var n := |keys| - 1;
      forall i | 0 <= i < n ensures keys[..n][i] !in keys[..n][..i] {
        assert keys[..n][..i] == keys[..i];
      }
      WithinCounts(keys[..n], s);
      var before := set k | k in keys[..n] && k in s;
      assert keys == keys[..n] + [keys[n]];
      assert (set k | k in keys && k in s) == before + (if keys[n] in s then {keys[n]} else {});
      assert keys[n] !in before;
    }
  }

  lemma {:induction false} DeparturesCount(was: Rows, now: Rows, pairs: map<string, string>, gone: seq<string>)
    requires forall k :: k in gone ==> k in was
    requires forall k :: k in pairs ==> pairs[k] in now
    ensures CountOp(Departures(was, now, pairs, gone), Add) == 0
    ensures CountOp(Departures(was, now, pairs, gone), Remove) == |gone| - Within(gone, pairs.Keys)
  {
    if gone != [] {
      var n := |gone| - 1;
      var k := gone[n];
      assert k in gone;
      DeparturesCount(was, now, pairs, gone[..n]);
      var last := if k in pairs then Changes(pairs[k], was[k], now[pairs[k]]) else [Departure(k, was[k])];
      if k in pairs {
        ChangesOnlyChange(pairs[k], was[k], now[pairs[k]]);
      } else {
        assert last[..0] == [];
      }
      hide Changes;
      CountAppend(Departures(was, now, pairs, gone[..n]), last, Add);
      CountAppend(Departures(was, now, pairs, gone[..n]), last, Remove);
    }
  }

  lemma {:induction false} ArrivalsCount(was: Rows, now: Rows, taken: set<string>, keys: seq<string>)
    requires forall k :: k in keys ==> k in now
    ensures CountOp(Arrivals(was, now, taken, keys), Remove) == 0
    ensures CountOp(Arrivals(was, now, taken, keys), Add) == |keys| - Within(keys, was.Keys + taken)
  {
    if keys != [] {
      var n := |keys| - 1;
      var k := keys[n];
      assert k in keys;
      ArrivalsCount(was, now, taken, keys[..n]);
      var init := Arrivals(was, now, taken, keys[..n]);
      if !(k in was || k in taken) {
        assert (init + [Arrival(k, now[k])])[..|init|] == init;
      } else {
        assert Arrivals(was, now, taken, keys) == init;
      }
    }
  }

  /** Arrivals less departures is the change in the number of rows. */
  lemma CountsAddUp(was: Rows, now: Rows)
    ensures CountOp(RowDiff(was, now), Add) - CountOp(RowDiff(was, now), Remove) == |now| - |was|
  {
    var keys, gone := SortedKeys(now.Keys), GoneKeys(was, now);
    var pairs := Pairs(was, now, gone);
    GoneDistinct(was, now);
    PairingIsInjective(was, now, gone);
    IncreasingDistinct(keys);
    assert forall i :: 0 <= i < |keys| ==> keys[i] !in keys[..i];
    MatchedCounts(was, now, keys);
    DeparturesCount(was, now, pairs, gone);
    ArrivalsCount(was, now, pairs.Values, keys);
    var m, d, a := Matched(was, now, keys), Departures(was, now, pairs, gone), Arrivals(was, now, pairs.Values, keys);
    WithinCounts(gone, pairs.Keys);
    WithinCounts(gone, was.Keys);
    WithinCounts(keys, was.Keys + pairs.Values);
    hide Matched, Departures, Arrivals, Pairs, Within, GoneKeys, SortedKeys;
    CountAppend(m, d, Add);
    CountAppend(m + d, a, Add);
    CountAppend(m, d, Remove);
    CountAppend(m + d, a, Remove);
    KeysAddUp(was, now, keys, gone, pairs);
  }

  lemma KeysAddUp(was: Rows, now: Rows, keys: seq<string>, gone: seq<string>, pairs: map<string, string>)
    requires |keys| == |now.Keys| && forall k :: k in keys <==> k in now
    requires (forall k :: k in gone <==> k in was && k !in now) && forall i :: 0 <= i < |gone| ==> gone[i] !in gone[..i]
    requires PairsGood(was, now, pairs) && forall k :: k in pairs ==> k in gone
    ensures |gone| - |set k | k in gone && k in pairs.Keys| == |was| - |was.Keys * now.Keys| - |pairs.Keys|
    ensures |keys| - |set k | k in keys && k in was.Keys + pairs.Values| == |now| - |was.Keys * now.Keys| - |pairs.Keys|
  {
    assert |was| == |was.Keys| && |now| == |now.Keys|;
    assert (set k | k in gone && k in pairs.Keys) == pairs.Keys;
    DistinctSize(gone, was.Keys - now.Keys);
    assert |was.Keys - now.Keys| + |was.Keys * now.Keys| == |was.Keys|;
    InjectiveSizes(pairs);
    TakenKeys(was, now, keys, pairs);
  }

  lemma TakenKeys(was: Rows, now: Rows, keys: seq<string>, pairs: map<string, string>)
    requires forall k :: k in keys <==> k in now
    requires forall k :: k in pairs ==> pairs[k] in now && pairs[k] !in was
    ensures |set k | k in keys && k in was.Keys + pairs.Values| == |was.Keys * now.Keys| + |pairs.Values|
  {
    assert pairs.Values <= now.Keys && pairs.Values !! was.Keys;
    assert forall k :: k in keys <==> k in now.Keys;
    TakenOf(keys, was.Keys, now.Keys, pairs.Values);
  }

  lemma TakenOf(keys: seq<string>, was: set<string>, now: set<string>, taken: set<string>)
    requires (forall k :: k in keys <==> k in now) && taken <= now && taken !! was
    ensures |set k | k in keys && k in was + taken| == |was * now| + |taken|
  {
    assert (set k | k in keys && k in was + taken) == (was * now) + taken;
    assert (was * now) !! taken;
  }

  lemma {:induction false} InjectiveSizes(pairs: map<string, string>)
    requires forall j, k :: j in pairs && k in pairs && j != k ==> pairs[j] != pairs[k]
    ensures |pairs.Values| == |pairs.Keys|
    decreases |pairs|
  {
    if |pairs| > 0 {
      var k :| k in pairs;
      var rest := pairs - {k};
      assert rest.Keys == pairs.Keys - {k};
      assert rest.Values == pairs.Values - {pairs[k]} by {
        forall v | v in pairs.Values - {pairs[k]} ensures v in rest.Values {
          var j :| j in pairs && pairs[j] == v;
          assert j in rest && rest[j] == v;
        }
      }
      assert |rest| == |rest.Keys| && |pairs| == |pairs.Keys|;
      InjectiveSizes(rest);
    } else {
      assert pairs == map[];
    }
  }

  /** So over two configs with unique filenames, `#Add - #Remove` is the change in
      the number of rows a person authored. */
  lemma ModCountsAddUp(before: PackConfig, after: PackConfig)
    requires UniqueNames(AuthoredRows(before)) && UniqueNames(AuthoredRows(after))
    ensures CountOp(ModDiff(before, after), Add) - CountOp(ModDiff(before, after), Remove)
         == |AuthoredRows(after)| - |AuthoredRows(before)|
  {
    EveryRowHasItsKey(AuthoredRows(before));
    EveryRowHasItsKey(AuthoredRows(after));
    CountsAddUp(Keyed(AuthoredRows(before)), Keyed(AuthoredRows(after)));
  }

  // ----- An empty diff -------------------------------------------------------------------------------

  /** Every row of `a` stands in `b` under the same filename and saying the same. */
  predicate Covers(a: seq<Row>, b: seq<Row>)
  {
    forall r :: r in a ==> exists s :: s in b && SameRow(r, s)
  }

  predicate Agree(a: seq<Row>, b: seq<Row>)
  {
    Covers(a, b) && Covers(b, a)
  }

  /** Where several rows would go by one identity, the same one goes by it. */
  ghost predicate SameHolders(a: seq<Row>, b: seq<Row>)
  {
    forall id :: FirstHolder(a, id) == FirstHolder(b, id)
  }

  /** The same keys with the same rows under them. */
  predicate SameKeyed(was: Rows, now: Rows)
  {
    was.Keys == now.Keys && forall k :: k in was ==> SameRow(was[k], now[k])
  }

  lemma {:induction false} MatchedEmptyIff(was: Rows, now: Rows, keys: seq<string>)
    requires forall k :: k in keys ==> k in now
    ensures Matched(was, now, keys) == [] <==> forall k :: k in keys && k in was ==> Changes(k, was[k], now[k]) == []
  {
    if keys != [] {
      var n := |keys| - 1;
      assert keys[n] in keys && keys == keys[..n] + [keys[n]];
      MatchedEmptyIff(was, now, keys[..n]);
      hide Changes;
    }
  }

  lemma {:induction false} DeparturesEmptyOnlyIf(was: Rows, now: Rows, pairs: map<string, string>, gone: seq<string>)
    requires forall k :: k in gone ==> k in was
    requires forall k :: k in pairs ==> pairs[k] in now
    requires forall k :: k in gone && k in pairs ==> Changes(pairs[k], was[k], now[pairs[k]]) != []
    ensures Departures(was, now, pairs, gone) == [] <==> gone == []
  {
    if gone != [] {
      assert gone[|gone| - 1] in gone;
      hide Changes;
    }
  }

  lemma {:induction false} ArrivalsEmptyOnlyIf(was: Rows, now: Rows, taken: set<string>, keys: seq<string>)
    requires forall k :: k in keys ==> k in now
    ensures Arrivals(was, now, taken, keys) == [] <==> forall k :: k in keys ==> k in was || k in taken
  {
    if keys != [] {
      var n := |keys| - 1;
      assert keys[n] in keys && keys == keys[..n] + [keys[n]];
      ArrivalsEmptyOnlyIf(was, now, taken, keys[..n]);
    }
  }

  /** The same keys, and nothing to say about any. */
  predicate Still(was: Rows, now: Rows)
  {
    was.Keys == now.Keys && forall k :: k in was ==> Changes(k, was[k], now[k]) == []
  }

  /** Any departure read as any arrival has something to say. */
  predicate PairsWouldShow(was: Rows, now: Rows)
  {
    forall k, l :: k in was && k !in now && l in now && l !in was ==> Changes(l, was[k], now[l]) != []
  }

  lemma EmptyMeansStill(was: Rows, now: Rows)
    requires PairsWouldShow(was, now)
    ensures RowDiff(was, now) == [] <==> Still(was, now)
  {
    var keys, gone := SortedKeys(now.Keys), GoneKeys(was, now);
    var pairs := Pairs(was, now, gone);
    GoneDistinct(was, now);
    MatchedEmptyIff(was, now, keys);
    PairedDeparturesShow(was, now, pairs, gone);
    DeparturesEmptyOnlyIf(was, now, pairs, gone);
    ArrivalsEmptyOnlyIf(was, now, pairs.Values, keys);
    var m, d, r := Matched(was, now, keys), Departures(was, now, pairs, gone), Arrivals(was, now, pairs.Values, keys);
    assert RowDiff(was, now) == m + d + r;
    hide *;
    assert m + d + r == [] <==> m == [] && d == [] && r == [];
    NothingLeftOver(was, now, keys, gone, pairs);
  }

  lemma PairedDeparturesShow(was: Rows, now: Rows, pairs: map<string, string>, gone: seq<string>)
    requires PairsWouldShow(was, now)
    requires forall k :: k in gone <==> k in was && k !in now
    requires forall k :: k in pairs ==> k in gone && pairs[k] in now && pairs[k] !in was
    ensures forall k :: k in gone && k in pairs ==> Changes(pairs[k], was[k], now[pairs[k]]) != []
  {
    hide Changes;
  }

  lemma NothingLeftOver(was: Rows, now: Rows, keys: seq<string>, gone: seq<string>, pairs: map<string, string>)
    requires forall k :: k in keys <==> k in now.Keys
    requires forall k :: k in gone <==> k in was && k !in now
    requires forall k :: k in pairs ==> k in gone
    ensures Still(was, now) <==>
              && (forall k :: k in keys && k in was ==> Changes(k, was[k], now[k]) == [])
              && gone == []
              && forall k :: k in keys ==> k in was || k in pairs.Values
  {
    hide Changes;
    if gone == [] {
      assert pairs.Keys == {} && pairs.Values == {};
    } else {
      assert gone[0] in gone;
    }
  }

  lemma EmptyMeansSameKeyed(a: seq<Row>, b: seq<Row>)
    requires KeyedAs(a, Keyed(a)) && KeyedAs(b, Keyed(b)) && AllMods(b)
    ensures RowDiff(Keyed(a), Keyed(b)) == [] <==> SameKeyed(Keyed(a), Keyed(b))
  {
    var was, now := Keyed(a), Keyed(b);
    forall k, l | k in was && k !in now && l in now && l !in was ensures Changes(l, was[k], now[l]) != [] {
      PairedRowsShow(a, b, k, l);
    }
    EmptyMeansStill(was, now);
    hide RowDiff, Keyed, KeyOf;
    forall k | k in was && k in now ensures Changes(k, was[k], now[k]) == [] <==> SameRow(was[k], now[k]) {
      assert now[k] in b;
      NoChangesMeansSame(k, was[k], now[k]);
    }
    hide Changes, SameRow;
  }

  lemma OneWay(a: seq<Row>, b: seq<Row>)
    requires KeyedAs(a, Keyed(a)) && KeyedAs(b, Keyed(b)) && SameKeyed(Keyed(a), Keyed(b))
    ensures Covers(a, b)
  {
    hide Keyed, SameRow, KeyOf;
    forall r | r in a ensures exists s :: s in b && SameRow(r, s) {
      var k := KeyOf(a, r);
      assert k in Keyed(a) && Keyed(a)[k] == r && k in Keyed(b);
      assert Keyed(b)[k] in b && SameRow(r, Keyed(b)[k]);
    }
  }

  lemma SameHoldersFollow(a: seq<Row>, b: seq<Row>)
    requires KeyedAs(a, Keyed(a)) && KeyedAs(b, Keyed(b))
    requires SameKeyed(Keyed(a), Keyed(b)) && SameKeyed(Keyed(b), Keyed(a))
    ensures SameHolders(a, b)
  {
    hide Keyed, KeyedAs, SameKeyed, SameRow, FirstHolder;
    forall id ensures FirstHolder(a, id) == FirstHolder(b, id) {
      HoldersFollow(a, b, id);
      HoldersFollow(b, a, id);
    }
  }

  lemma SameKeyedMeansAgree(a: seq<Row>, b: seq<Row>)
    requires KeyedAs(a, Keyed(a)) && KeyedAs(b, Keyed(b)) && SameKeyed(Keyed(a), Keyed(b))
    ensures Agree(a, b) && SameHolders(a, b)
  {
    hide *;
    SameKeyedFlip(Keyed(a), Keyed(b));
    OneWay(a, b);
    OneWay(b, a);
    SameHoldersFollow(a, b);
    assert Agree(a, b) by { BothWays(a, b); }
  }

  lemma BothWays(a: seq<Row>, b: seq<Row>)
    requires Covers(a, b) && Covers(b, a)
    ensures Agree(a, b)
  {
    hide Covers;
  }

  lemma SameKeyedFlip(was: Rows, now: Rows)
    requires SameKeyed(was, now)
    ensures SameKeyed(now, was)
  {
  }

  /** A row that goes by an identity goes by it on the other side. */
  lemma HoldersFollow(a: seq<Row>, b: seq<Row>, id: string)
    requires KeyedAs(a, Keyed(a)) && KeyedAs(b, Keyed(b)) && SameKeyed(Keyed(a), Keyed(b))
    ensures FirstHolder(a, id).Some? ==> FirstHolder(b, id) == FirstHolder(a, id)
  {
    if FirstHolder(a, id).Some? {
      FirstHolderHolds(a, id);
      var r :| r in a && Identity(r) == id && r.name == FirstHolder(a, id).value;
      assert KeyOf(a, r) == id;
      var s := Keyed(b)[id];
      assert s in b && id == KeyOf(b, s) && SameRow(r, s);
      SameRowSameIdentity(r, s);
      FirstHolderHolds(b, id);
      var h :| h in b && Identity(h) == id && h.name == FirstHolder(b, id).value;
      FilenameIdentity(h, s.name);
    }
  }

  lemma SameKeyOf(a: seq<Row>, b: seq<Row>, r: Row, s: Row)
    requires SameHolders(a, b) && SameRow(r, s)
    ensures KeyOf(a, r) == KeyOf(b, s)
  {
    SameRowSameIdentity(r, s);
    hide Identity, FirstHolder;
  }

  lemma KeyFollows(a: seq<Row>, b: seq<Row>, k: string)
    requires KeyedAs(a, Keyed(a)) && KeyedAs(b, Keyed(b)) && Covers(a, b) && SameHolders(a, b) && k in Keyed(a)
    ensures k in Keyed(b) && SameRow(Keyed(a)[k], Keyed(b)[k])
  {
    var r := Keyed(a)[k];
    assert r in a && k == KeyOf(a, r);
    hide SameRow, KeyOf, SameHolders, Keyed;
    var s :| s in b && SameRow(r, s);
    SameKeyOf(a, b, r, s);
    assert Keyed(b)[KeyOf(b, s)] == s;
  }

  lemma KeysFollow(a: seq<Row>, b: seq<Row>)
    requires KeyedAs(a, Keyed(a)) && KeyedAs(b, Keyed(b)) && Covers(a, b) && SameHolders(a, b)
    ensures forall k :: k in Keyed(a) ==> k in Keyed(b) && SameRow(Keyed(a)[k], Keyed(b)[k])
  {
    hide *;
    forall k | k in Keyed(a) ensures k in Keyed(b) && SameRow(Keyed(a)[k], Keyed(b)[k]) {
      KeyFollows(a, b, k);
    }
  }

  lemma HoldersFlip(a: seq<Row>, b: seq<Row>)
    requires SameHolders(a, b)
    ensures SameHolders(b, a)
  {
  }

  lemma AgreeMeansSameKeyed(a: seq<Row>, b: seq<Row>)
    requires KeyedAs(a, Keyed(a)) && KeyedAs(b, Keyed(b)) && Agree(a, b) && SameHolders(a, b)
    ensures SameKeyed(Keyed(a), Keyed(b))
  {
    hide SameRow, KeyedAs, SameHolders, Keyed, Covers;
    HoldersFlip(a, b);
    KeysFollow(a, b);
    KeysFollow(b, a);
  }

  lemma EmptyRowDiffIff(a: seq<Row>, b: seq<Row>)
    requires UniqueNames(a) && UniqueNames(b) && AllMods(b)
    ensures RowDiff(Keyed(a), Keyed(b)) == [] <==> Agree(a, b) && SameHolders(a, b)
  {
    EveryRowHasItsKey(a);
    EveryRowHasItsKey(b);
    EmptyMeansSameKeyed(a, b);
    if SameKeyed(Keyed(a), Keyed(b)) {
      SameKeyedMeansAgree(a, b);
    }
    if Agree(a, b) && SameHolders(a, b) {
      AgreeMeansSameKeyed(a, b);
    }
  }

  /** The mods diff is empty exactly when the two configs agree filename by filename
      and every shared identity is held by the same row. */
  lemma EmptyModDiffIff(before: PackConfig, after: PackConfig)
    requires UniqueNames(AuthoredRows(before)) && UniqueNames(AuthoredRows(after))
    ensures ModDiff(before, after) == [] <==>
              Agree(AuthoredRows(before), AuthoredRows(after)) && SameHolders(AuthoredRows(before), AuthoredRows(after))
  {
    EmptyRowDiffIff(AuthoredRows(before), AuthoredRows(after));
  }

  /** Two rows typed under one slug are told apart by which comes first: swapping
      them is reported as a change though nothing was edited. */
  lemma SwappedSlugsShow(cfg: PackConfig, x: DeclaredMod, y: DeclaredMod)
    requires !x.pulled && !y.pulled && x.filename != y.filename && Identity(ModRow(x)) == Identity(ModRow(y))
    ensures var (before, after) := (cfg.(mods := [x, y]), cfg.(mods := [y, x]));
            ModDiff(before, after) != [] && Agree(AuthoredRows(before), AuthoredRows(after))
  {
    var before, after := cfg.(mods := [x, y]), cfg.(mods := [y, x]);
    TwoRows(x, y);
    TwoRows(y, x);
    var r, s, id := ModRow(x), ModRow(y), Identity(ModRow(x));
    assert r.name != s.name;
    hide Identity, ModRow, ModDiff, Agree, FirstHolder;
    assert AuthoredRows(before) == [r, s] && AuthoredRows(after) == [s, r];
    FirstOfTwo(r, s, id);
    FirstOfTwo(s, r, id);
    SwappedAgree(r, s);
    EmptyModDiffIff(before, after);
  }

  lemma FirstOfTwo(r: Row, s: Row, id: string)
    requires Identity(r) == id
    ensures FirstHolder([r, s], id) == Some(r.name)
  {
    hide Identity;
    assert FirstHolder([], id) == None;
    assert [] + [r] == [r] && [r] + [s] == [r, s];
    FirstHolderLast([], r, id);
    FirstHolderLast([r], s, id);
  }

  lemma SwappedAgree(r: Row, s: Row)
    ensures Agree([r, s], [s, r])
  {
    assert SameRow(r, r) && SameRow(s, s);
    hide SameRow;
    assert r in [s, r] && s in [s, r] && r in [r, s] && s in [r, s];
  }

  lemma TwoRows(x: DeclaredMod, y: DeclaredMod)
    requires !x.pulled && !y.pulled
    ensures ModRows(Declared([x, y])) == [ModRow(x), ModRow(y)]
  {
    DeclaredLast([], x);
    DeclaredLast([x], y);
    assert [] + [x] == [x] && [x] + [y] == [x, y];
  }

  /** Filenames of declared mods are unique wherever the config check passes. */
  lemma AcceptedConfigsHaveUniqueNames(cfg: PackConfig)
    requires UniqueFilenames(cfg.mods)
    ensures UniqueNames(AuthoredRows(cfg))
  {
    NamesOfDeclared(cfg.mods);
  }

  lemma {:induction false} NamesOfDeclared(mods: seq<DeclaredMod>)
    requires UniqueFilenames(mods)
    ensures UniqueNames(ModRows(Declared(mods)))
  {
    if mods != [] {
      var init, m := mods[..|mods| - 1], mods[|mods| - 1];
      assert mods == init + [m];
      NamesOfDeclared(init);
      DeclaredKeepsOrDrops(init, m);
      ModRowsLast(Declared(init), m);
      forall n | n in Declared(init) ensures n.filename != m.filename {
        DeclaredMembers(init, n);
        var i :| 0 <= i < |init| && init[i] == n;
        assert mods[i] == n;
      }
      var rows := ModRows(Declared(init));
      forall i | 0 <= i < |rows| ensures rows[i].name != m.filename {
        assert Declared(init)[i] in Declared(init);
      }
    }
  }

  // ----- Assets ---------------------------------------------------------------------------------------

  predicate NamedByKey(rows: Rows)
  {
    forall k :: k in rows ==> rows[k].name == k
  }

  lemma {:induction false} ByDestNames(rows: seq<Row>)
    ensures NamedByKey(ByDest(rows))
  {
    if rows != [] {
      ByDestNames(rows[..|rows| - 1]);
    }
  }

  /** The assets diff is empty exactly when the same destinations hold rows that
      differ in nothing; a file installed elsewhere always shows. */
  lemma EmptyAssetDiffIff(before: PackConfig, after: PackConfig)
    ensures AssetDiff(before, after) == [] <==> Still(ByDest(AssetRows(before)), ByDest(AssetRows(after)))
  {
    var was, now := ByDest(AssetRows(before)), ByDest(AssetRows(after));
    ByDestNames(AssetRows(before));
    ByDestNames(AssetRows(after));
    forall k, l | k in was && k !in now && l in now && l !in was ensures Changes(l, was[k], now[l]) != [] {
      assert was[k].name != now[l].name;
    }
    EmptyMeansStill(was, now);
  }

  // ----- What is left after pairing ------------------------------------------------------------------------

  lemma {:induction false} RemovedRows(
    was: Rows, now: Rows, pairs: map<string, string>, gone: seq<string>, c: ConfigChange)
    requires forall k :: k in gone ==> k in was
    requires forall k :: k in pairs ==> pairs[k] in now
    requires c in Departures(was, now, pairs, gone) && c.op == Remove
    ensures exists k :: k in gone && k !in pairs && c == Departure(k, was[k])
  {
    var n := |gone| - 1;
    var k := gone[n];
    assert k in gone && gone == gone[..n] + [k];
    if c in Departures(was, now, pairs, gone[..n]) {
      RemovedRows(was, now, pairs, gone[..n], c);
    } else if k in pairs {
      ChangesOnlyChange(pairs[k], was[k], now[pairs[k]]);
    }
    hide Changes;
  }

  lemma {:induction false} AddedRows(was: Rows, now: Rows, taken: set<string>, keys: seq<string>, c: ConfigChange)
    requires forall k :: k in keys ==> k in now
    requires c in Arrivals(was, now, taken, keys)
    ensures exists k :: k in keys && k !in was && k !in taken && c == Arrival(k, now[k])
  {
    var n := |keys| - 1;
    assert keys[n] in keys && keys == keys[..n] + [keys[n]];
    if c in Arrivals(was, now, taken, keys[..n]) {
      AddedRows(was, now, taken, keys[..n], c);
    }
  }

  /** No row that left and row that arrived point at one artifact: such a pair is
      always read as the same row moved. */
  lemma LeftoversPointApart(was: Rows, now: Rows, c: ConfigChange, d: ConfigChange)
    requires c in Departures(was, now, Pairs(was, now, GoneKeys(was, now)), GoneKeys(was, now)) && c.op == Remove
    requires d in Arrivals(was, now, Pairs(was, now, GoneKeys(was, now)).Values, SortedKeys(now.Keys))
    ensures c.from != d.to
  {
    var keys, gone := SortedKeys(now.Keys), GoneKeys(was, now);
    var pairs := Pairs(was, now, gone);
    GoneDistinct(was, now);
    RemovedRows(was, now, pairs, gone, c);
    AddedRows(was, now, pairs.Values, keys, d);
    var k :| k in gone && k !in pairs && c == Departure(k, was[k]);
    var l :| l in keys && l !in was && l !in pairs.Values && d == Arrival(l, now[l]);
    hide Pairs, Departures, Arrivals;
    if PinOf(was[k].source) == PinOf(now[l].source) {
      PairingIsMaximal(was, now, gone, k, l);
    }
  }

  // ----- Revisions -------------------------------------------------------------------------------------------

  lemma RowDiffSelf(rows: Rows)
    ensures RowDiff(rows, rows) == []
  {
    EmptyMeansStill(rows, rows);
  }

  /** Equal revisions have nothing between them, which is how a status check reads it. */
  lemma EqualRevisionsDiffEmpty(a: PackConfig, b: PackConfig)
    requires Projection(a) == Projection(b)
    ensures Diff(a, b) == []
  {
    assert AuthoredRows(a) == AuthoredRows(b) && AssetRows(a) == AssetRows(b);
    RowDiffSelf(Keyed(AuthoredRows(a)));
    RowDiffSelf(ByDest(AssetRows(a)));
    assert PackRows(a, b) == [];
    hide RowDiff, AuthoredRows, AssetRows;
  }

  /** The converse fails: an edge the fill writes onto a declared mod moves the
      revision and shows in no diff. */
  lemma RevisionMovesWithoutADiff(cfg: PackConfig, m: DeclaredMod, dep: string)
    requires cfg.mods == [m] && !m.pulled && m.display.None?
    ensures var after := AfterFill(cfg, [], [(m.filename, dep)]);
            Diff(cfg, after) == [] && Projection(after) != Projection(cfg)
  {
    var edges := [(m.filename, dep)];
    FillIsInvisible(cfg, cfg, [], edges);
    EqualRevisionsDiffEmpty(cfg, cfg);
    OneRowLinked(cfg, m, edges);
    assert (m.filename, dep) in edges;
    DepFill.LinkedMirrorsThePlan(m, edges);
    assert dep in DepFill.HardTargets(RequirementsOf(DepFill.Linked(m, edges).display));
    hide Diff, DepFill.Linked, AfterFill, Declared;
    assert DepFill.Linked(m, edges) != m;
    assert [DepFill.Linked(m, edges)][0] != [m][0];
  }

  lemma OneRowLinked(cfg: PackConfig, m: DeclaredMod, edges: seq<(string, string)>)
    requires cfg.mods == [m] && !m.pulled
    ensures Declared(cfg.mods) == [m]
    ensures Declared(AfterFill(cfg, [], edges).mods) == [DepFill.Linked(m, edges)]
  {
    var linked := DepFill.LinkedAll(cfg.mods, edges);
    var l := DepFill.Linked(m, edges);
    assert cfg.mods + [] == cfg.mods && linked == [l];
    LinkedLooksTheSame(m, edges);
    hide DepFill.Linked;
    DepFill.DeclaredSurvive(linked, linked);
    DeclaredKeepsOrDrops([], m);
    DeclaredKeepsOrDrops([], l);
    assert [] + [m] == [m] && [] + [l] == [l];
  }

  // ----- The whole diff -----------------------------------------------------------------------------------

  /** The pack's own fields read the same. */
  predicate SameCard(a: PackConfig, b: PackConfig)
  {
    && a.minecraftVersion == b.minecraftVersion && LoaderLine(a.loader) == LoaderLine(b.loader)
    && a.javaMajor == b.javaMajor
    && OrEmpty(a.version) == OrEmpty(b.version) && a.displayName == b.displayName && a.tagline == b.tagline
    && a.featured == b.featured && Join(a.tags, ", ") == Join(b.tags, ", ")
    && a.packMeta == b.packMeta && a.auth == b.auth
  }

  lemma PackRowsEmptyIff(a: PackConfig, b: PackConfig)
    ensures PackRows(a, b) == [] <==> SameCard(a, b)
  {
    DecimalDenotes(a.javaMajor);
    DecimalDenotes(b.javaMajor);
    assert BoolText(true)[0] == 't' && BoolText(false)[0] == 'f';
    hide Decimal, Join, LoaderLine, OrEmpty;
  }

  lemma SortedEmptyIff(rows: seq<ConfigChange>)
    ensures Sorted(rows) == [] <==> rows == []
  {
    SameCount(Sorted(rows), rows);
  }

  /** Two configs with unique filenames have an empty diff exactly when their own fields
      read the same, their authored mods agree with the same first holders, and their
      assets differ in nothing. Equal revisions are not needed for it. */
  lemma EmptyDiffIff(a: PackConfig, b: PackConfig)
    requires UniqueNames(AuthoredRows(a)) && UniqueNames(AuthoredRows(b))
    ensures Diff(a, b) == [] <==>
              && SameCard(a, b)
              && Agree(AuthoredRows(a), AuthoredRows(b)) && SameHolders(AuthoredRows(a), AuthoredRows(b))
              && Still(ByDest(AssetRows(a)), ByDest(AssetRows(b)))
  {
    hide *;
    PackRowsEmptyIff(a, b);
    EmptyModDiffIff(a, b);
    EmptyAssetDiffIff(a, b);
    SortedEmptyIff(ModDiff(a, b));
    SortedEmptyIff(AssetDiff(a, b));
    DiffIs(a, b);
  }

  lemma DiffIs(a: PackConfig, b: PackConfig)
    ensures Diff(a, b) == [] <==> PackRows(a, b) == [] && Sorted(ModDiff(a, b)) == [] && Sorted(AssetDiff(a, b)) == []
  {
    hide PackRows, ModDiff, AssetDiff, Sorted;
  }
}
