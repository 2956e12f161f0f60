/** The difference of two pack configs (src/authoring/configdiff.rs). Rows match under
    their identity, those left over pair off by pin, and of a row only the hand-made
    part counts. */
module ConfigDiff {
  import opened Base
  import opened Texts
  import opened Sorting
  import opened Manifest
  import opened PackConfigs

  datatype ChangeGroup = PackGroup | ModsGroup | AssetsGroup

  datatype ChangeOp = Add | Remove | Change

  datatype ChangeField = Pin | DefaultEnabled | Required | Filename | Slug | DisplayBlock | Value

  datatype ConfigChange = ConfigChange(
    group: ChangeGroup,
    op: ChangeOp,
    key: string,
    caption: string,
    field: Option<ChangeField>,
    from: Option<string>,
    to: Option<string>,
    project: Option<string>)

  // ----- The authored part of a row -----------------------------------------------------

  /** The hand-made part of a display block, absent when nothing of it is set. */
  datatype AuthoredDisplay = NoDisplay | Authored(
    name: Option<string>,
    description: Option<string>,
    category: Option<string>,
    incompatibleWith: seq<string>,
    license: Option<string>,
    url: Option<string>,
    iconUrl: Option<string>)

  function AuthoredOf(display: Option<Display>): AuthoredDisplay
  {
    if display.None? then NoDisplay
    else
      var d := display.value;
      var authored := Authored(d.name, d.description, d.category, d.incompatibleWith, d.license, d.url, d.iconUrl);
      if authored == Authored(None, None, None, [], None, None, None) then NoDisplay else authored
  }

  /** What the diff reads of a declared mod or asset; `on` is the install default of
      the one, `required` of the other. */
  datatype Row = Row(
    group: ChangeGroup,
    name: string,
    on: bool,
    source: SourceDecl,
    display: AuthoredDisplay,
    slug: Option<string>)

  function ModRow(m: DeclaredMod): Row
  {
    Row(ModsGroup, m.filename, m.defaultEnabled, m.source, AuthoredOf(m.display), m.slug)
  }

  function AssetRow(a: DeclaredAsset): Row
  {
    Row(AssetsGroup, a.dest, a.required, a.source, AuthoredOf(a.display), None)
  }

  /** The rows a person authored: the fill's own are dropped. */
  function AuthoredRows(cfg: PackConfig): seq<Row>
  {
    ModRows(Declared(cfg.mods))
  }

  function ModRows(mods: seq<DeclaredMod>): (r: seq<Row>)
    ensures |r| == |mods| && forall i :: 0 <= i < |r| ==> r[i] == ModRow(mods[i])
  {
    seq(|mods|, i requires 0 <= i < |mods| => ModRow(mods[i]))
  }

  function AssetRows(cfg: PackConfig): seq<Row>
  {
    seq(|cfg.assets|, i requires 0 <= i < |cfg.assets| => AssetRow(cfg.assets[i]))
  }

  function PinOf(source: SourceDecl): string
  {
    match source
    case ModrinthPin(_, v) => v
    case CacheJar(sha1) => sha1
    case StaticFile(p) => p
  }

  function ProjectOf(source: SourceDecl): Option<string>
  {
    if source.ModrinthPin? then Some(source.projectId) else None
  }

  /** A row's key: by its project if it is pinned on Modrinth, by its slug if it has one
      to read, by its filename otherwise. */
  function Identity(r: Row): string
  {
    if r.source.ModrinthPin? then "m:" + r.source.projectId
    else if r.slug.Some? && Trim(r.slug.value) != "" then "s:" + Trim(r.slug.value)
    else "f:" + r.name
  }

  /** Rows keyed by identity; a row whose identity is taken falls back to its filename. */
  function Keyed(rows: seq<Row>): map<string, Row>
  {
    if rows == [] then map[]
    else
      var r := rows[|rows| - 1];
      var out := Keyed(rows[..|rows| - 1]);
      out[(if Identity(r) in out then "f:" + r.name else Identity(r)) := r]
  }

  /** Assets keyed by destination; a later row replaces an earlier one. */
  function ByDest(rows: seq<Row>): map<string, Row>
  {
    if rows == [] then map[] else ByDest(rows[..|rows| - 1])[rows[|rows| - 1].name := rows[|rows| - 1]]
  }

  // ----- Changes of one row ----------------------------------------------------------------

  function OnOff(on: bool): string
  {
    if on then "on" else "off"
  }

  function Moved(key: string, now: Row, field: ChangeField, from: Option<string>, to: Option<string>): ConfigChange
  {
    ConfigChange(now.group, Change, key, now.name, Some(field), from, to, ProjectOf(now.source))
  }

  function PinMove(key: string, was: Row, now: Row): seq<ConfigChange>
  {
    if PinOf(was.source) != PinOf(now.source)
    then [Moved(key, now, Pin, Some(PinOf(was.source)), Some(PinOf(now.source)))]
    else if now.group == ModsGroup && ProjectOf(was.source) != ProjectOf(now.source)
    then [Moved(key, now, Pin, ProjectOf(was.source), ProjectOf(now.source))]
    else []
  }

  /** One change for each part in which two rows under one key differ. */
  function Changes(key: string, was: Row, now: Row): seq<ConfigChange>
  {
    PinMove(key, was, now)
    + (if was.name != now.name then [Moved(key, now, Filename, Some(was.name), Some(now.name))] else [])
    + (if was.on != now.on
       then
         var field := if now.group == ModsGroup then DefaultEnabled else Required;
         [Moved(key, now, field, Some(OnOff(was.on)), Some(OnOff(now.on)))]
       else [])
    + (if was.slug != now.slug then [Moved(key, now, Slug, was.slug, now.slug)] else [])
    + (if was.display != now.display then [Moved(key, now, DisplayBlock, None, None)] else [])
  }

  function Departure(key: string, was: Row): ConfigChange
  {
    ConfigChange(was.group, Remove, key, was.name, None, Some(PinOf(was.source)), None, ProjectOf(was.source))
  }

  function Arrival(key: string, now: Row): ConfigChange
  {
    ConfigChange(now.group, Add, key, now.name, None, None, Some(PinOf(now.source)), ProjectOf(now.source))
  }

  // ----- Rows of one group --------------------------------------------------------------------

  type Rows = map<string, Row>

  /** Rows both sides have, in the order of the new side. */
  function Matched(was: Rows, now: Rows, keys: seq<string>): seq<ConfigChange>
    requires forall k :: k in keys ==> k in now
  {
    if keys == [] then []
    else
      var n := |keys| - 1;
      var k := keys[n];
      assert k in keys;
      Matched(was, now, keys[..n]) + if k in was then Changes(k, was[k], now[k]) else []
  }

  /** The keys only the old side has. */
  function Gone(now: Rows, keys: seq<string>): seq<string>
  {
    if keys == [] then []
    else
      var k := keys[|keys| - 1];
      Gone(now, keys[..|keys| - 1]) + if k in now then [] else [k]
  }

  /** May the new row `k` be the old row that pointed at `pin`? */
  predicate Free(was: Rows, now: Rows, taken: set<string>, pin: string, k: string)
  {
    k in now && k !in was && k !in taken && PinOf(now[k].source) == pin
  }

  /** The first arrival, in key order, that points at `pin` and is not taken. */
  function Partner(was: Rows, now: Rows, taken: set<string>, pin: string, keys: seq<string>): (r: Option<string>)
    ensures r.Some? ==> r.value in keys && Free(was, now, taken, pin, r.value)
    ensures r.None? ==> forall k :: k in keys ==> !Free(was, now, taken, pin, k)
  {
    if keys == [] then None
    else if Free(was, now, taken, pin, keys[0]) then Some(keys[0])
    else
      assert forall k :: k in keys ==> k == keys[0] || k in keys[1..];
      Partner(was, now, taken, pin, keys[1..])
  }

  /** Which arrival each departure became, where one did. */
  function Pairs(was: Rows, now: Rows, gone: seq<string>): (r: map<string, string>)
    requires forall k :: k in gone ==> k in was
    ensures forall k :: k in r ==> k in gone && r[k] in now && r[k] !in was
  {
    if gone == [] then map[]
    else
      var n := |gone| - 1;
      var k := gone[n];
      assert k in gone;
      var pairs := Pairs(was, now, gone[..n]);
      var partner := Partner(was, now, pairs.Values, PinOf(was[k].source), SortedKeys(now.Keys));
      if partner.Some? then pairs[k := partner.value] else pairs
  }

  function Departures(was: Rows, now: Rows, pairs: map<string, string>, gone: seq<string>): seq<ConfigChange>
    requires forall k :: k in gone ==> k in was
    requires forall k :: k in pairs ==> pairs[k] in now
  {
    if gone == [] then []
    else
      var n := |gone| - 1;
      var k := gone[n];
      assert k in gone;
      Departures(was, now, pairs, gone[..n])
      + if k in pairs then Changes(pairs[k], was[k], now[pairs[k]]) else [Departure(k, was[k])]
  }

  function Arrivals(was: Rows, now: Rows, taken: set<string>, keys: seq<string>): seq<ConfigChange>
    requires forall k :: k in keys ==> k in now
  {
    if keys == [] then []
    else
      var n := |keys| - 1;
      var k := keys[n];
      assert k in keys;
      Arrivals(was, now, taken, keys[..n]) + if k in was || k in taken then [] else [Arrival(k, now[k])]
  }

  function GoneKeys(was: Rows, now: Rows): (r: seq<string>)
    ensures forall k :: k in r ==> k in was
  {
    GoneMembers(now, SortedKeys(was.Keys));
    Gone(now, SortedKeys(was.Keys))
  }

  lemma {:induction false} GoneMembers(now: Rows, keys: seq<string>)
    ensures forall k :: k in Gone(now, keys) <==> k in keys && k !in now
  {
    if keys != [] {
      GoneMembers(now, keys[..|keys| - 1]);
      assert keys == keys[..|keys| - 1] + [keys[|keys| - 1]];
    }
  }

  function RowDiff(was: Rows, now: Rows): seq<ConfigChange>
  {
    var keys, gone := SortedKeys(now.Keys), GoneKeys(was, now);
    var pairs := Pairs(was, now, gone);
    Matched(was, now, keys) + Departures(was, now, pairs, gone) + Arrivals(was, now, pairs.Values, keys)
  }

  // ----- The loops ------------------------------------------------------------------------------

  function KeyedSoFar(mods: seq<DeclaredMod>): Rows
  {
    Keyed(ModRows(Declared(mods)))
  }

  lemma KeyedNext(mods: seq<DeclaredMod>, k: nat)
    requires k < |mods|
    ensures var (out, r) := (KeyedSoFar(mods[..k]), ModRow(mods[k]));
            KeyedSoFar(mods[..k + 1])
            == if mods[k].pulled then out else out[(if Identity(r) in out then "f:" + r.name else Identity(r)) := r]
  {
    DeclaredNext(mods, k);
    var done := Declared(mods[..k]);
    hide Declared, Keyed, Identity;
    if mods[k].pulled {
      assert done + [] == done;
    } else {
      assert ModRows(done + [mods[k]]) == ModRows(done) + [ModRow(mods[k])];
      KeyedLast(ModRows(done), ModRow(mods[k]));
    }
  }

  method KeyMods(cfg: PackConfig) returns (out: Rows)
    ensures out == Keyed(AuthoredRows(cfg))
  {
    out := map[];
    for k := 0 to |cfg.mods|
      invariant out == KeyedSoFar(cfg.mods[..k])
    {
      KeyedNext(cfg.mods, k);
      hide KeyedSoFar, Identity, ModRow;
      if !cfg.mods[k].pulled {
        var r := ModRow(cfg.mods[k]);
        var key := Identity(r);
        key := if key in out then "f:" + r.name else key;
        out := out[key := r];
      }
    }
    assert cfg.mods[..|cfg.mods|] == cfg.mods;
  }

  lemma KeyedLast(rows: seq<Row>, r: Row)
    ensures Keyed(rows + [r]) == Keyed(rows)[(if Identity(r) in Keyed(rows) then "f:" + r.name else Identity(r)) := r]
  {
    assert (rows + [r])[..|rows|] == rows;
  }

  method KeyAssets(cfg: PackConfig) returns (out: Rows)
    ensures out == ByDest(AssetRows(cfg))
  {
    out := map[];
    ghost var rows := AssetRows(cfg);
    for k := 0 to |cfg.assets|
      invariant out == ByDest(rows[..k])
    {
      assert rows[..k + 1][..k] == rows[..k];
      out := out[cfg.assets[k].dest := AssetRow(cfg.assets[k])];
    }
    assert rows[..|rows|] == rows;
  }

  method MatchRows(was: Rows, now: Rows, keys: seq<string>) returns (out: seq<ConfigChange>)
    requires forall k :: k in keys ==> k in now
    ensures out == Matched(was, now, keys)
  {
    out := [];
    for i := 0 to |keys|
      invariant out == Matched(was, now, keys[..i])
    {
      hide Changes;
      assert keys[..i + 1][..i] == keys[..i];
      if keys[i] in was {
        out := out + Changes(keys[i], was[keys[i]], now[keys[i]]);
      }
    }
    assert keys[..|keys|] == keys;
  }

  lemma PairsNext(was: Rows, now: Rows, gone: seq<string>, i: nat)
    requires i < |gone| && forall k :: k in gone ==> k in was
    ensures gone[i] in was && forall k :: k in gone[..i] || k in gone[..i + 1] ==> k in was
    ensures var pairs := Pairs(was, now, gone[..i]);
            var partner := Partner(was, now, pairs.Values, PinOf(was[gone[i]].source), SortedKeys(now.Keys));
            Pairs(was, now, gone[..i + 1]) == if partner.Some? then pairs[gone[i] := partner.value] else pairs
  {
    assert gone[i] in gone && gone[..i + 1][..i] == gone[..i];
  }

  lemma DeparturesNext(was: Rows, now: Rows, gone: seq<string>, i: nat)
    requires i < |gone| && forall k :: k in gone ==> k in was
    requires gone[i] !in gone[..i]
    ensures gone[i] in was && forall k :: k in gone[..i] || k in gone[..i + 1] ==> k in was
    ensures var pairs := Pairs(was, now, gone[..i + 1]);
            Departures(was, now, pairs, gone[..i + 1])
            == Departures(was, now, Pairs(was, now, gone[..i]), gone[..i])
               + if gone[i] in pairs then Changes(pairs[gone[i]], was[gone[i]], now[pairs[gone[i]]])
                 else [Departure(gone[i], was[gone[i]])]
  {
    PairsNext(was, now, gone, i);
    assert gone[..i + 1][..i] == gone[..i];
    hide Changes, Partner, Pairs;
    DeparturesKept(was, now, Pairs(was, now, gone[..i]), Pairs(was, now, gone[..i + 1]), gone[..i]);
  }

  lemma ValuesGrow(m: map<string, string>, k: string, v: string)
    requires k !in m
    ensures m[k := v].Values == m.Values + {v}
  {
    var n := m[k := v];
    assert n[k] == v;
    forall x | x in m.Values ensures x in n.Values {
      var l :| l in m && m[l] == x;
      assert n[l] == x;
    }
  }

  lemma GoneAt(was: Rows, now: Rows, i: nat)
    requires i < |GoneKeys(was, now)|
    ensures GoneKeys(was, now)[i] in was && GoneKeys(was, now)[i] !in GoneKeys(was, now)[..i]
  {
    GoneDistinct(was, now);
    assert GoneKeys(was, now)[i] in GoneKeys(was, now);
  }

  /** One departure: its partner if there is one, else the row that left. */
  method PairOne(
    was: Rows, now: Rows, keys: seq<string>, taken: set<string>, k: string, ghost pairs: map<string, string>)
    returns (out: seq<ConfigChange>, next: set<string>)
    requires k in was && k !in pairs && taken == pairs.Values && keys == SortedKeys(now.Keys)
    ensures var partner := Partner(was, now, pairs.Values, PinOf(was[k].source), SortedKeys(now.Keys));
            && next == (if partner.Some? then pairs[k := partner.value] else pairs).Values
            && out == if partner.Some? then Changes(partner.value, was[k], now[partner.value])
               else [Departure(k, was[k])]
  {
    var partner := Partner(was, now, taken, PinOf(was[k].source), keys);
    if partner.Some? {
      ValuesGrow(pairs, k, partner.value);
      return Changes(partner.value, was[k], now[partner.value]), taken + {partner.value};
    }
    return [Departure(k, was[k])], taken;
  }

  method PairRows(was: Rows, now: Rows, keys: seq<string>, gone: seq<string>)
    returns (out: seq<ConfigChange>, taken: set<string>)
    requires keys == SortedKeys(now.Keys)
    requires gone == GoneKeys(was, now)
    ensures out == Departures(was, now, Pairs(was, now, gone), gone)
    ensures taken == Pairs(was, now, gone).Values
  {
    out, taken := [], {};
    for i := 0 to |gone|
      invariant taken == Pairs(was, now, gone[..i]).Values
      invariant out == Departures(was, now, Pairs(was, now, gone[..i]), gone[..i])
    {
      GoneAt(was, now, i);
      PairsNext(was, now, gone, i);
      DeparturesNext(was, now, gone, i);
      hide Changes, GoneKeys, Pairs, Departures, Partner, SortedKeys, Free;
      var more;
      more, taken := PairOne(was, now, keys, taken, gone[i], Pairs(was, now, gone[..i]));
      out := out + more;
    }
    assert gone[..|gone|] == gone;
  }

  lemma {:induction false} DeparturesKept(
    was: Rows, now: Rows, a: map<string, string>, b: map<string, string>, gone: seq<string>)
    requires forall k :: k in gone ==> k in was && (k in a <==> k in b) && (k in a ==> a[k] == b[k])
    requires (forall k :: k in a ==> a[k] in now) && forall k :: k in b ==> b[k] in now
    ensures Departures(was, now, a, gone) == Departures(was, now, b, gone)
  {
    hide Changes;
    if gone != [] {
      assert gone[|gone| - 1] in gone;
      DeparturesKept(was, now, a, b, gone[..|gone| - 1]);
    }
  }

  lemma {:induction false} GoneKeepsOrder(now: Rows, keys: seq<string>)
    requires Increasing(keys)
    ensures Increasing(Gone(now, keys))
  {
    if keys != [] {
      var n := |keys| - 1;
      GoneKeepsOrder(now, keys[..n]);
      GoneMembers(now, keys[..n]);
      var init := Gone(now, keys[..n]);
      forall i | 0 <= i < |init| ensures Less(init[i], keys[n]) {
        assert init[i] in init;
      }
    }
  }

  lemma GoneDistinct(was: Rows, now: Rows)
    ensures var gone := GoneKeys(was, now);
            (forall i :: 0 <= i < |gone| ==> gone[i] !in gone[..i]) && forall k :: k in gone <==> k in was && k !in now
  {
    GoneKeepsOrder(now, SortedKeys(was.Keys));
    GoneMembers(now, SortedKeys(was.Keys));
    IncreasingDistinct(GoneKeys(was, now));
  }

  method FilterGone(now: Rows, keys: seq<string>) returns (gone: seq<string>)
    ensures gone == Gone(now, keys)
  {
    gone := [];
    for i := 0 to |keys|
      invariant gone == Gone(now, keys[..i])
    {
      assert keys[..i + 1][..i] == keys[..i];
      if keys[i] !in now {
        gone := gone + [keys[i]];
      }
    }
    assert keys[..|keys|] == keys;
  }

  method ArriveRows(was: Rows, now: Rows, taken: set<string>, keys: seq<string>) returns (out: seq<ConfigChange>)
    requires forall k :: k in keys ==> k in now
    ensures out == Arrivals(was, now, taken, keys)
  {
    out := [];
    for i := 0 to |keys|
      invariant out == Arrivals(was, now, taken, keys[..i])
    {
      assert keys[..i + 1][..i] == keys[..i];
      if keys[i] !in was && keys[i] !in taken {
        out := out + [Arrival(keys[i], now[keys[i]])];
      }
    }
    assert keys[..|keys|] == keys;
  }

  /** `mod_rows` and `asset_rows`, once the rows are keyed. */
  method DiffRows(was: Rows, now: Rows) returns (out: seq<ConfigChange>)
    ensures out == RowDiff(was, now)
  {
    var keys := SortedKeys(now.Keys);
    out := MatchRows(was, now, keys);
    var gone := FilterGone(now, SortedKeys(was.Keys));
    var departed, taken := PairRows(was, now, keys, gone);
    var arrived := ArriveRows(was, now, taken, keys);
    out := out + departed + arrived;
  }

  // ----- The whole diff -----------------------------------------------------------------------------

  /** Arrivals, departures, moves; by caption inside each. */
  function RankLabel(c: ConfigChange): string
  {
    [match c.op case Add => '0' case Remove => '1' case Change => '2'] + c.caption
  }

  function Sorted(rows: seq<ConfigChange>): seq<ConfigChange>
  {
    SortBy(rows, RankLabel)
  }

  function LoaderLine(loader: LoaderSpec): string
  {
    loader.name + " " + loader.version
  }

  function FieldMove(name: string, from: string, to: string): seq<ConfigChange>
  {
    if from == to then []
    else [ConfigChange(PackGroup, Change, name, name, Some(Value), Some(from), Some(to), None)]
  }

  function OpaqueMove(name: string, same: bool): seq<ConfigChange>
  {
    if same then [] else [ConfigChange(PackGroup, Change, name, name, Some(Value), None, None, None)]
  }

  function OrEmpty(s: Option<string>): string
  {
    if s.Some? then s.value else ""
  }

  /** Changes outside mods and assets, always listed in this order. */
  function PackRows(before: PackConfig, after: PackConfig): seq<ConfigChange>
  {
    FieldMove("minecraft", before.minecraftVersion, after.minecraftVersion)
    + FieldMove("loader", LoaderLine(before.loader), LoaderLine(after.loader))
    + FieldMove("java", Decimal(before.javaMajor), Decimal(after.javaMajor))
    + FieldMove("version", OrEmpty(before.version), OrEmpty(after.version))
    + FieldMove("display_name", before.displayName, after.displayName)
    + FieldMove("tagline", before.tagline, after.tagline)
    + FieldMove("featured", BoolText(before.featured), BoolText(after.featured))
    + FieldMove("tags", Join(before.tags, ", "), Join(after.tags, ", "))
    + OpaqueMove("pack_meta", before.packMeta == after.packMeta)
    + OpaqueMove("auth", before.auth == after.auth)
  }

  function ModDiff(before: PackConfig, after: PackConfig): seq<ConfigChange>
  {
    RowDiff(Keyed(AuthoredRows(before)), Keyed(AuthoredRows(after)))
  }

  function AssetDiff(before: PackConfig, after: PackConfig): seq<ConfigChange>
  {
    RowDiff(ByDest(AssetRows(before)), ByDest(AssetRows(after)))
  }

  function Diff(before: PackConfig, after: PackConfig): seq<ConfigChange>
  {
    PackRows(before, after) + Sorted(ModDiff(before, after)) + Sorted(AssetDiff(before, after))
  }

  /** `diff_configs`. */
  method DiffConfigs(before: PackConfig, after: PackConfig) returns (out: seq<ConfigChange>)
    ensures out == Diff(before, after)
  {
    out := PackRows(before, after);
    var was := KeyMods(before);
    var now := KeyMods(after);
    var mods := DiffRows(was, now);
    out := out + Sorted(mods);
    was := KeyAssets(before);
    now := KeyAssets(after);
    var assets := DiffRows(was, now);
    out := out + Sorted(assets);
  }
}
