/** The content fingerprint of a build (src/authoring/build.rs): a hash over sorted
    lines, one for each thing that lands in an instance. */
module Fingerprint {
  import opened Base
  import opened Texts
  import opened Sorting
  import opened Manifest

  /** What a build puts into an instance. */
  datatype Build = Build(minecraft: string, loader: LoaderSpec, java: u32, mods: seq<ModEntry>, assets: seq<AssetEntry>)

  datatype Line =
    | McLine(version: string)
    | LoaderLine(name: string, version: string)
    | JavaLine(major: u32)
    | ModLine(filename: string, sha1: string, required: bool, defaultEnabled: bool)
    | AssetLine(dest: string, sha1: string, required: bool)

  function ModLineOf(m: ModEntry): Line
  {
    ModLine(m.filename, m.sha1, m.required, m.defaultEnabled)
  }

  function AssetLineOf(a: AssetEntry): Line
  {
    AssetLine(a.dest, a.sha1, a.required)
  }

  function ModLines(mods: seq<ModEntry>): (r: seq<Line>)
    ensures |r| == |mods| && forall i :: 0 <= i < |r| ==> r[i] == ModLineOf(mods[i])
  {
    seq(|mods|, i requires 0 <= i < |mods| => ModLineOf(mods[i]))
  }

  function AssetLines(assets: seq<AssetEntry>): (r: seq<Line>)
    ensures |r| == |assets| && forall i :: 0 <= i < |r| ==> r[i] == AssetLineOf(assets[i])
  {
    seq(|assets|, i requires 0 <= i < |assets| => AssetLineOf(assets[i]))
  }

  function Fields(line: Line): seq<string>
  {
    match line
    case McLine(v) => ["mc", v]
    case LoaderLine(n, v) => ["loader", n, v]
    case JavaLine(major) => ["java", Decimal(major)]
    case ModLine(f, sha1, required, enabled) => ["mod", f, sha1, BoolText(required), BoolText(enabled)]
    case AssetLine(dest, sha1, required) => ["asset", dest, sha1, BoolText(required)]
  }

  function Render(line: Line): string
  {
    Join(Fields(line), "\t")
  }

  function RenderAll(lines: seq<Line>): (r: seq<string>)
    ensures |r| == |lines|
  {
    if lines == [] then [] else RenderAll(lines[..|lines| - 1]) + [Render(lines[|lines| - 1])]
  }

  function LinesOf(b: Build): seq<Line>
  {
    [McLine(b.minecraft), LoaderLine(b.loader.name, b.loader.version), JavaLine(b.java)]
    + ModLines(b.mods) + AssetLines(b.assets)
  }

  function Preimage(b: Build): string
  {
    Join(Sort(RenderAll(LinesOf(b))), "\n")
  }

  lemma RenderAllLast(lines: seq<Line>, line: Line)
    ensures RenderAll(lines + [line]) == RenderAll(lines) + [Render(line)]
  {
    assert (lines + [line])[..|lines|] == lines;
  }

  function ModText(m: ModEntry): string
  {
    Join(["mod", m.filename, m.sha1, BoolText(m.required), BoolText(m.defaultEnabled)], "\t")
  }

  function AssetText(a: AssetEntry): string
  {
    Join(["asset", a.dest, a.sha1, BoolText(a.required)], "\t")
  }

  lemma NextModLine(done: seq<Line>, mods: seq<ModEntry>, k: nat)
    requires k < |mods|
    ensures RenderAll(done + ModLines(mods[..k + 1])) == RenderAll(done + ModLines(mods[..k])) + [ModText(mods[k])]
  {
    assert mods[..k + 1] == mods[..k] + [mods[k]];
    assert done + ModLines(mods[..k + 1]) == (done + ModLines(mods[..k])) + [ModLineOf(mods[k])];
    RenderAllLast(done + ModLines(mods[..k]), ModLineOf(mods[k]));
  }

  method PushMods(mods: seq<ModEntry>, lines: seq<string>, ghost done: seq<Line>) returns (r: seq<string>)
    requires lines == RenderAll(done)
    ensures r == RenderAll(done + ModLines(mods))
  {
    r := lines;
    assert done + ModLines(mods[..0]) == done;
    for k := 0 to |mods|
      invariant r == RenderAll(done + ModLines(mods[..k]))
    {
      hide *;
      var m := mods[k];
      NextModLine(done, mods, k);
      r := r + [ModText(m)];
    }
    assert mods[..|mods|] == mods;
  }

  lemma NextAssetLine(done: seq<Line>, assets: seq<AssetEntry>, k: nat)
    requires k < |assets|
    ensures RenderAll(done + AssetLines(assets[..k + 1]))
      == RenderAll(done + AssetLines(assets[..k])) + [AssetText(assets[k])]
  {
    assert assets[..k + 1] == assets[..k] + [assets[k]];
    assert done + AssetLines(assets[..k + 1]) == (done + AssetLines(assets[..k])) + [AssetLineOf(assets[k])];
    RenderAllLast(done + AssetLines(assets[..k]), AssetLineOf(assets[k]));
  }

  method PushAssets(assets: seq<AssetEntry>, lines: seq<string>, ghost done: seq<Line>) returns (r: seq<string>)
    requires lines == RenderAll(done)
    ensures r == RenderAll(done + AssetLines(assets))
  {
    r := lines;
    assert done + AssetLines(assets[..0]) == done;
    for k := 0 to |assets|
      invariant r == RenderAll(done + AssetLines(assets[..k]))
    {
      hide *;
      var a := assets[k];
      NextAssetLine(done, assets, k);
      r := r + [AssetText(a)];
    }
    assert assets[..|assets|] == assets;
  }

  /** `content_fingerprint`: push the lines, sort them, hash their join. */
  method ContentFingerprint(hash: string -> string, b: Build) returns (r: string)
    ensures r == hash(Preimage(b))
  {
    var lines := [
      Join(["mc", b.minecraft], "\t"),
      Join(["loader", b.loader.name, b.loader.version], "\t"),
      Join(["java", Decimal(b.java)], "\t")];
    ghost var base := [McLine(b.minecraft), LoaderLine(b.loader.name, b.loader.version), JavaLine(b.java)];
    BaseLines(b);
    hide RenderAll, Join;
    lines := PushMods(b.mods, lines, base);
    lines := PushAssets(b.assets, lines, base + ModLines(b.mods));
    lines := Sort(lines);
    r := hash(Join(lines, "\n"));
  }

  lemma BaseLines(b: Build)
    ensures var base := [McLine(b.minecraft), LoaderLine(b.loader.name, b.loader.version), JavaLine(b.java)];
            RenderAll(base) == [
              Join(["mc", b.minecraft], "\t"),
              Join(["loader", b.loader.name, b.loader.version], "\t"),
              Join(["java", Decimal(b.java)], "\t")]
  {
    var x, y, z := McLine(b.minecraft), LoaderLine(b.loader.name, b.loader.version), JavaLine(b.java);
    assert [] + [x] == [x] && [x] + [y] == [x, y] && [x, y] + [z] == [x, y, z];
    assert RenderAll([]) == [];
    RenderAllLast([], x);
    RenderAllLast([x], y);
    RenderAllLast([x, y], z);
  }

  // ----- The preimage is a canonical form --------------------------------------------------

  /** A content hash, as every source of an artifact checks or computes it. */
  predicate Digest(s: string)
  {
    forall c :: c in s ==> IsHexDigit(c)
  }

  predicate NoNewline(line: Line)
  {
    match line
    case McLine(v) => '\n' !in v
    case LoaderLine(n, v) => '\n' !in n && '\n' !in v
    case JavaLine(_) => true
    case ModLine(f, _, _, _) => '\n' !in f
    case AssetLine(dest, _, _) => '\n' !in dest
  }

  predicate HexLine(line: Line)
  {
    (line.ModLine? || line.AssetLine? ==> Digest(line.sha1))
  }

  /** Where one field ends must be told from the text: no newline, no tab before the
      loader's version, and hashes that are hashes. */
  predicate PlainLine(line: Line)
  {
    NoNewline(line) && HexLine(line) && (line.LoaderLine? ==> '\t' !in line.name)
  }

  predicate Plain(b: Build)
  {
    forall line :: line in LinesOf(b) ==> PlainLine(line)
  }

  function Kind(line: Line): string
  {
    match line
    case McLine(_) => "mc"
    case LoaderLine(_, _) => "loader"
    case JavaLine(_) => "java"
    case ModLine(_, _, _, _) => "mod"
    case AssetLine(_, _, _) => "asset"
  }

  /** What follows the kind, grouped as it is read back. */
  function Payload(line: Line): string
  {
    match line
    case McLine(v) => v
    case LoaderLine(n, v) => n + "\t" + v
    case JavaLine(major) => Decimal(major)
    case ModLine(f, sha1, required, enabled) =>
      ((f + "\t" + sha1) + "\t" + BoolText(required)) + "\t" + BoolText(enabled)
    case AssetLine(dest, sha1, required) => (dest + "\t" + sha1) + "\t" + BoolText(required)
  }

  lemma JoinFew(a: string, b: string, c: string, d: string, e: string)
    ensures Join([a, b], "\t") == a + "\t" + b
    ensures Join([a, b, c], "\t") == a + "\t" + (b + "\t" + c)
    ensures Join([a, b, c, d], "\t") == a + "\t" + ((b + "\t" + c) + "\t" + d)
    ensures Join([a, b, c, d, e], "\t") == a + "\t" + (((b + "\t" + c) + "\t" + d) + "\t" + e)
  {
    hide Join;
    JoinTwo(a, b);
    JoinTwo(b, c);
    JoinTwo(c, d);
    JoinTwo(d, e);
    assert [a, b, c] == [a] + [b, c] && [b, c, d] == [b] + [c, d] && [c, d, e] == [c] + [d, e];
    assert [a, b, c, d] == [a] + [b, c, d] && [b, c, d, e] == [b] + [c, d, e] && [a, b, c, d, e] == [a] + [b, c, d, e];
    JoinCons(a, [b, c], "\t");
    JoinCons(b, [c, d], "\t");
    JoinCons(c, [d, e], "\t");
    JoinCons(a, [b, c, d], "\t");
    JoinCons(b, [c, d, e], "\t");
    JoinCons(a, [b, c, d, e], "\t");
  }

  lemma JoinTwo(a: string, b: string)
    ensures Join([a, b], "\t") == a + "\t" + b
  {
    assert [a, b] == [a] + [b] && Join([b], "\t") == b;
    JoinCons(a, [b], "\t");
  }

  lemma RenderIs(line: Line)
    ensures Render(line) == Kind(line) + "\t" + Payload(line)
  {
    hide Join, BoolText;
    match line
    case McLine(v) => JoinTwo("mc", v);
    case LoaderLine(n, v) => JoinFew("loader", n, v, "", "");
    case JavaLine(major) => JoinTwo("java", Decimal(major));
    case ModLine(f, sha1, required, enabled) => JoinFew("mod", f, sha1, BoolText(required), BoolText(enabled));
    case AssetLine(dest, sha1, required) => JoinFew("asset", dest, sha1, BoolText(required), "");
  }

  lemma KindTells(x: Line, y: Line)
    requires Kind(x) == Kind(y)
    ensures (x.McLine? <==> y.McLine?) && (x.LoaderLine? <==> y.LoaderLine?) && (x.JavaLine? <==> y.JavaLine?)
    ensures (x.ModLine? <==> y.ModLine?) && (x.AssetLine? <==> y.AssetLine?)
  {
    assert "mc"[1] == 'c' && "mod"[1] == 'o' && "mc"[0] == 'm' && "mod"[0] == 'm';
    assert "loader"[0] == 'l' && "java"[0] == 'j' && "asset"[0] == 'a';
  }

  lemma BoolTells(a: bool, b: bool)
    ensures '\t' !in BoolText(a) && '\n' !in BoolText(a) && (BoolText(a) == BoolText(b) ==> a == b)
  {
    assert BoolText(true)[0] == 't' && BoolText(false)[0] == 'f';
  }

  /** A plain line tells what it was made of. */
  lemma RenderTells(x: Line, y: Line)
    requires PlainLine(x) && PlainLine(y) && Render(x) == Render(y)
    ensures x == y
  {
    RenderIs(x);
    RenderIs(y);
    FirstCut('\t', Kind(x), Kind(y), Payload(x), Payload(y));
    KindTells(x, y);
    PayloadTells(x, y);
  }

  lemma PayloadTells(x: Line, y: Line)
    requires PlainLine(x) && PlainLine(y) && Payload(x) == Payload(y)
    requires (x.McLine? <==> y.McLine?) && (x.LoaderLine? <==> y.LoaderLine?) && (x.JavaLine? <==> y.JavaLine?)
    requires (x.ModLine? <==> y.ModLine?) && (x.AssetLine? <==> y.AssetLine?)
    ensures x == y
  {
    hide BoolText, NoNewline;
    match x
    case McLine(_) =>
    case LoaderLine(n, v) => FirstCut('\t', n, y.name, v, y.version);
    case JavaLine(major) =>
      DecimalDenotes(major);
      DecimalDenotes(y.major);
    case ModLine(f, sha1, required, enabled) =>
      BoolTells(enabled, y.defaultEnabled);
      BoolTells(y.defaultEnabled, enabled);
      LastCut('\t', (f + "\t" + sha1) + "\t" + BoolText(required),
              (y.filename + "\t" + y.sha1) + "\t" + BoolText(y.required),
              BoolText(enabled), BoolText(y.defaultEnabled));
      HashedTells(f, sha1, required, y.filename, y.sha1, y.required);
    case AssetLine(dest, sha1, required) => HashedTells(dest, sha1, required, y.dest, y.sha1, y.required);
  }

  lemma HashedTells(f: string, h: string, r: bool, g: string, k: string, q: bool)
    requires Digest(h) && Digest(k)
    requires (f + "\t" + h) + "\t" + BoolText(r) == (g + "\t" + k) + "\t" + BoolText(q)
    ensures f == g && h == k && r == q
  {
    BoolTells(r, q);
    BoolTells(q, r);
    hide BoolText;
    LastCut('\t', f + "\t" + h, g + "\t" + k, BoolText(r), BoolText(q));
    LastCut('\t', f, g, h, k);
  }

  lemma RenderIsOneLine(line: Line)
    requires PlainLine(line)
    ensures '\n' !in Render(line)
  {
    RenderIs(line);
    if line.ModLine? {
      BoolTells(line.required, line.required);
      BoolTells(line.defaultEnabled, line.defaultEnabled);
    } else if line.AssetLine? {
      BoolTells(line.required, line.required);
    } else if line.JavaLine? {
      assert forall c :: c in Decimal(line.major) ==> IsDigit(c);
    }
    hide BoolText, Render;
  }

  lemma {:induction false} RenderedCounts(lines: seq<Line>, x: Line)
    requires PlainLine(x) && forall line :: line in lines ==> PlainLine(line)
    ensures multiset(RenderAll(lines))[Render(x)] == multiset(lines)[x]
  {
    if lines != [] {
      var init, last := lines[..|lines| - 1], lines[|lines| - 1];
      assert lines == init + [last];
      assert PlainLine(last);
      hide Render, PlainLine;
      RenderedCounts(init, x);
      if Render(last) == Render(x) {
        RenderTells(last, x);
      }
    }
  }

  lemma {:induction false} RenderedMembers(lines: seq<Line>, s: string)
    requires s in RenderAll(lines)
    ensures exists line :: line in lines && Render(line) == s
  {
    var init, last := lines[..|lines| - 1], lines[|lines| - 1];
    assert lines == init + [last];
    if s in RenderAll(init) {
      RenderedMembers(init, s);
    }
  }

  lemma RenderedSameIff(a: seq<Line>, b: seq<Line>)
    requires (forall line :: line in a ==> PlainLine(line)) && forall line :: line in b ==> PlainLine(line)
    ensures multiset(RenderAll(a)) == multiset(RenderAll(b)) <==> multiset(a) == multiset(b)
  {
    if multiset(RenderAll(a)) == multiset(RenderAll(b)) {
      forall x ensures multiset(a)[x] == multiset(b)[x] {
        if x in a || x in b {
          RenderedCounts(a, x);
          RenderedCounts(b, x);
        }
      }
    }
    if multiset(a) == multiset(b) {
      forall s ensures multiset(RenderAll(a))[s] == multiset(RenderAll(b))[s] {
        RenderedSameCount(a, b, s);
      }
    }
  }

  lemma RenderedSameCount(a: seq<Line>, b: seq<Line>, s: string)
    requires multiset(a) == multiset(b)
    requires (forall line :: line in a ==> PlainLine(line)) && forall line :: line in b ==> PlainLine(line)
    ensures multiset(RenderAll(a))[s] == multiset(RenderAll(b))[s]
  {
    SameCount(a, b);
    if s in RenderAll(a) {
      RenderedMembers(a, s);
      var line :| line in a && Render(line) == s;
      RenderedCounts(a, line);
      RenderedCounts(b, line);
    } else if s in RenderAll(b) {
      RenderedMembers(b, s);
      var line :| line in b && Render(line) == s;
      RenderedCounts(a, line);
      RenderedCounts(b, line);
    }
  }

  /** The join of sorted one-line texts determines which there are and how often. */
  lemma JoinedSameIff(a: seq<string>, b: seq<string>)
    requires a != [] && b != []
    requires (forall s :: s in a ==> '\n' !in s) && forall s :: s in b ==> '\n' !in s
    ensures Join(Sort(a), "\n") == Join(Sort(b), "\n") <==> multiset(a) == multiset(b)
  {
    SortSameIff(a, b);
    SameCount(Sort(a), a);
    SameCount(Sort(b), b);
    hide Sort, Join, Split;
    SplitJoin(Sort(a), '\n');
    SplitJoin(Sort(b), '\n');
  }

  lemma LinesSameIff(a: Build, b: Build)
    requires Plain(a) && Plain(b)
    ensures Preimage(a) == Preimage(b) <==> multiset(LinesOf(a)) == multiset(LinesOf(b))
  {
    var x, y := LinesOf(a), LinesOf(b);
    forall s | s in RenderAll(x) ensures '\n' !in s {
      RenderedMembers(x, s);
      var line :| line in x && Render(line) == s;
      RenderIsOneLine(line);
    }
    forall s | s in RenderAll(y) ensures '\n' !in s {
      RenderedMembers(y, s);
      var line :| line in y && Render(line) == s;
      RenderIsOneLine(line);
    }
    assert |RenderAll(x)| > 0 && |RenderAll(y)| > 0;
    hide RenderAll, Sort, LinesOf, Join;
    JoinedSameIff(RenderAll(x), RenderAll(y));
    RenderedSameIff(x, y);
  }

  /** The same baseline and, in whatever order, the same mods and assets. */
  predicate SameContent(a: Build, b: Build)
  {
    && a.minecraft == b.minecraft && a.loader == b.loader && a.java == b.java
    && multiset(ModLines(a.mods)) == multiset(ModLines(b.mods))
    && multiset(AssetLines(a.assets)) == multiset(AssetLines(b.assets))
  }

  lemma PartsOfLines(b: Build, x: Line)
    ensures multiset(LinesOf(b))[x]
         == match x
            case McLine(v) => if v == b.minecraft then 1 else 0
            case LoaderLine(n, v) => if LoaderSpec(n, v) == b.loader then 1 else 0
            case JavaLine(major) => if major == b.java then 1 else 0
            case ModLine(_, _, _, _) => multiset(ModLines(b.mods))[x]
            case AssetLine(_, _, _) => multiset(AssetLines(b.assets))[x]
  {
    var base := [McLine(b.minecraft), LoaderLine(b.loader.name, b.loader.version), JavaLine(b.java)];
    var mods, assets := ModLines(b.mods), AssetLines(b.assets);
    assert multiset(LinesOf(b)) == multiset(base) + multiset(mods) + multiset(assets);
    assert multiset(base) == multiset{base[0], base[1], base[2]};
    assert forall line :: line in mods ==> line.ModLine?;
    assert forall line :: line in assets ==> line.AssetLine?;
    assert !x.ModLine? ==> x !in multiset(mods);
    assert !x.AssetLine? ==> x !in multiset(assets);
  }

  lemma LinesAreContent(a: Build, b: Build)
    ensures multiset(LinesOf(a)) == multiset(LinesOf(b)) <==> SameContent(a, b)
  {
    hide LinesOf;
    if multiset(LinesOf(a)) == multiset(LinesOf(b)) {
      PartsOfLines(a, McLine(a.minecraft));
      PartsOfLines(b, McLine(a.minecraft));
      PartsOfLines(a, LoaderLine(a.loader.name, a.loader.version));
      PartsOfLines(b, LoaderLine(a.loader.name, a.loader.version));
      PartsOfLines(a, JavaLine(a.java));
      PartsOfLines(b, JavaLine(a.java));
      forall x ensures multiset(ModLines(a.mods))[x] == multiset(ModLines(b.mods))[x] {
        ModCountsFollow(a, b, x);
      }
      forall x ensures multiset(AssetLines(a.assets))[x] == multiset(AssetLines(b.assets))[x] {
        AssetCountsFollow(a, b, x);
      }
    }
    if SameContent(a, b) {
      forall x ensures multiset(LinesOf(a))[x] == multiset(LinesOf(b))[x] {
        PartsOfLines(a, x);
        PartsOfLines(b, x);
      }
    }
  }

  lemma ModCountsFollow(a: Build, b: Build, x: Line)
    requires multiset(LinesOf(a)) == multiset(LinesOf(b))
    ensures multiset(ModLines(a.mods))[x] == multiset(ModLines(b.mods))[x]
  {
    PartsOfLines(a, x);
    PartsOfLines(b, x);
    if !x.ModLine? {
      assert x !in ModLines(a.mods) && x !in ModLines(b.mods);
      assert x !in multiset(ModLines(a.mods)) && x !in multiset(ModLines(b.mods));
    }
  }

  lemma AssetCountsFollow(a: Build, b: Build, x: Line)
    requires multiset(LinesOf(a)) == multiset(LinesOf(b))
    ensures multiset(AssetLines(a.assets))[x] == multiset(AssetLines(b.assets))[x]
  {
    PartsOfLines(a, x);
    PartsOfLines(b, x);
    if !x.AssetLine? {
      assert x !in AssetLines(a.assets) && x !in AssetLines(b.assets);
      assert x !in multiset(AssetLines(a.assets)) && x !in multiset(AssetLines(b.assets));
    }
  }

  /** Two plain builds have one preimage exactly when they put the same content into
      an instance; so no reordering changes it, and a hash that tells the two
      preimages apart tells the builds apart. */
  lemma PreimageIsCanonical(a: Build, b: Build)
    requires Plain(a) && Plain(b)
    ensures Preimage(a) == Preimage(b) <==> SameContent(a, b)
  {
    LinesSameIff(a, b);
    LinesAreContent(a, b);
  }

  // ----- And exactly then -----------------------------------------------------------------------

  predicate SafeFilename(f: string)
  {
    f != "" && f[0] != '.' && '/' !in f && '\\' !in f
  }

  predicate PathChar(c: char)
  {
    'a' <= c <= 'z' || 'A' <= c <= 'Z' || '0' <= c <= '9' || c in "-_. ()+,[]"
  }

  predicate SafeRelPath(rel: string)
  {
    && 0 < |rel| <= 512 && rel[0] != '/' && '\\' !in rel
    && forall segment :: segment in Split(rel, '/') ==>
         segment != "" && segment[0] != '.' && forall c :: c in segment ==> PathChar(c)
  }

  /** What a build can resolve: names its choke points let pass, each declared once,
      and hashes that are hashes. */
  predicate Resolved(b: Build)
  {
    && (forall m :: m in b.mods ==> SafeFilename(m.filename) && Digest(m.sha1))
    && (forall a :: a in b.assets ==> SafeRelPath(a.dest) && Digest(a.sha1))
    && (forall i, j :: 0 <= i < j < |b.mods| ==> b.mods[i].filename != b.mods[j].filename)
    && forall i, j :: 0 <= i < j < |b.assets| ==> b.assets[i].dest != b.assets[j].dest
  }

  /** Which texts a build takes as they come, destinations being paths. */
  predicate OneLineTexts(b: Build)
  {
    && '\n' !in b.minecraft && '\n' !in b.loader.name && '\n' !in b.loader.version
    && forall m :: m in b.mods ==> '\n' !in m.filename
  }

  /** Builds that resolve, with newlines in their texts or tabs in their loader names
      only where these are let in. */
  predicate Admitted(b: Build, newlines: bool, tabs: bool)
  {
    Resolved(b) && (newlines || OneLineTexts(b)) && (tabs || '\t' !in b.loader.name)
  }

  ghost predicate CanonicalOver(newlines: bool, tabs: bool)
  {
    forall a, b :: Admitted(a, newlines, tabs) && Admitted(b, newlines, tabs) ==>
      (Preimage(a) == Preimage(b) <==> SameContent(a, b))
  }

  /** A tab in a loader's name moves into its version unseen. */
  lemma LoaderTabsCollide(b: Build, x: string, y: string, z: string)
    ensures var left := b.(loader := LoaderSpec(x + "\t" + y, z));
            var right := b.(loader := LoaderSpec(x, y + "\t" + z));
            Preimage(left) == Preimage(right) && !SameContent(left, right)
  {
    var left, right := b.(loader := LoaderSpec(x + "\t" + y, z)), b.(loader := LoaderSpec(x, y + "\t" + z));
    var l, r := LoaderLine(x + "\t" + y, z), LoaderLine(x, y + "\t" + z);
    RenderIs(l);
    RenderIs(r);
    assert (x + "\t" + y) + "\t" + z == x + "\t" + (y + "\t" + z);
    var rest := [JavaLine(b.java)] + ModLines(b.mods) + AssetLines(b.assets);
    assert LinesOf(left) == [McLine(b.minecraft), l] + rest && LinesOf(right) == [McLine(b.minecraft), r] + rest;
    hide Render, LinesOf;
    RenderAllAppend([McLine(b.minecraft), l], rest);
    RenderAllAppend([McLine(b.minecraft), r], rest);
    TwoLines(McLine(b.minecraft), l);
    TwoLines(McLine(b.minecraft), r);
    assert |x + "\t" + y| > |x|;
  }

  lemma TwoLines(x: Line, y: Line)
    ensures RenderAll([x, y]) == [Render(x), Render(y)]
  {
    assert [] + [x] == [x] && [x] + [y] == [x, y] && RenderAll([]) == [];
    RenderAllLast([], x);
    RenderAllLast([x], y);
  }

  /** One mod whose filename runs on through the line of `x` into that of `y`. */
  function Merged(x: ModEntry, y: ModEntry): ModEntry
  {
    y.(filename := Payload(ModLineOf(x)) + "\nmod\t" + y.filename)
  }

  /** A newline in a mod's filename reads as two mods, whatever else the build holds
      beside mods and whatever the two are, as long as their lines stand in order. */
  lemma NewlinesCollide(b: Build, x: ModEntry, y: ModEntry)
    requires AtMost(ModText(x), ModText(y))
    ensures var left, right := b.(mods := [Merged(x, y)]), b.(mods := [x, y]);
            Preimage(left) == Preimage(right) && !SameContent(left, right)
  {
    var one, two := [Merged(x, y)], [x, y];
    MergedLine(x, y);
    var u, v, w := ModText(x), ModText(y), ModText(Merged(x, y));
    assert |multiset(ModLines(one))| == 1 && |multiset(ModLines(two))| == 2;
    hide *;
    OneMod(Merged(x, y));
    TwoMods(x, y);
    ModsLast(b, one, [w]);
    ModsLast(b, two, [u, v]);
    TwoAreOne(Before(b), u, v, w);
    assert !SameContent(b.(mods := one), b.(mods := two)) by { CountsDiffer(b, one, two); }
  }

  lemma MergedLine(x: ModEntry, y: ModEntry)
    ensures ModText(Merged(x, y)) == ModText(x) + "\n" + ModText(y)
    ensures StartsWith(ModText(x), "mod") && StartsWith(ModText(y), "mod")
  {
    hide Join, BoolText, Merged, Payload, Render, ModText;
    ModTextIs(x);
    ModTextIs(y);
    ModTextIs(Merged(x, y));
    MergedPayload(x, y);
    RunOn(Payload(ModLineOf(x)), Payload(ModLineOf(y)));
  }

  lemma ModTextIs(m: ModEntry)
    ensures ModText(m) == "mod\t" + Payload(ModLineOf(m)) && StartsWith(ModText(m), "mod")
  {
    RenderIs(ModLineOf(m));
    hide Join, BoolText, Payload;
    assert "mod" + "\t" == "mod\t";
  }

  lemma MergedPayload(x: ModEntry, y: ModEntry)
    ensures Payload(ModLineOf(Merged(x, y))) == Payload(ModLineOf(x)) + "\nmod\t" + Payload(ModLineOf(y))
  {
    PayloadIs(y);
    PayloadIs(Merged(x, y));
    hide Payload, BoolText;
    Shift(Payload(ModLineOf(x)) + "\nmod\t", y.filename, y.sha1, BoolText(y.required), BoolText(y.defaultEnabled));
  }

  lemma PayloadIs(m: ModEntry)
    ensures Payload(ModLineOf(m))
         == (((m.filename + "\t" + m.sha1) + "\t" + BoolText(m.required)) + "\t" + BoolText(m.defaultEnabled))
  {
  }

  lemma Shift(p: string, f: string, h: string, r: string, e: string)
    ensures (((p + f) + "\t" + h) + "\t" + r) + "\t" + e == p + (((f + "\t" + h) + "\t" + r) + "\t" + e)
  {
  }

  lemma RunOn(p: string, q: string)
    ensures "mod\t" + (p + "\nmod\t" + q) == ("mod\t" + p) + "\n" + ("mod\t" + q)
  {
    assert "\n" + "mod\t" == "\nmod\t";
  }

  lemma RenderIsModText(m: ModEntry)
    ensures Render(ModLineOf(m)) == ModText(m)
  {
    hide Join, BoolText;
  }

  lemma OneMod(m: ModEntry)
    ensures RenderAll(ModLines([m])) == [ModText(m)]
  {
    RenderIsModText(m);
    hide Render, ModText;
    assert ModLines([m]) == [ModLineOf(m)] && [] + [ModLineOf(m)] == [ModLineOf(m)] && RenderAll([]) == [];
    RenderAllLast([], ModLineOf(m));
  }

  lemma TwoMods(x: ModEntry, y: ModEntry)
    ensures RenderAll(ModLines([x, y])) == [ModText(x), ModText(y)]
  {
    OneMod(x);
    RenderIsModText(y);
    hide Render, ModText, RenderAll;
    assert ModLines([x, y]) == ModLines([x]) + [ModLineOf(y)];
    RenderAllLast(ModLines([x]), ModLineOf(y));
  }

  lemma CountsDiffer(b: Build, one: seq<ModEntry>, two: seq<ModEntry>)
    requires |multiset(ModLines(one))| != |multiset(ModLines(two))|
    ensures !SameContent(b.(mods := one), b.(mods := two))
  {
  }

  lemma TwoAreOne(front: seq<string>, u: string, v: string, w: string)
    requires front != [] && w == u + "\n" + v
    ensures Join(front + [w], "\n") == Join(front + [u, v], "\n")
  {
    JoinAppend(front, [w], "\n");
    JoinAppend(front, [u, v], "\n");
    assert Join([w], "\n") == w && Join([v], "\n") == v && [u, v] == [u] + [v];
    JoinCons(u, [v], "\n");
  }

  /** The lines of everything but the mods, sorted. */
  function Before(b: Build): (r: seq<string>)
    ensures r != []
  {
    Sort(RenderAll(AssetLines(b.assets)))
    + [Render(JavaLine(b.java)), Render(LoaderLine(b.loader.name, b.loader.version)), Render(McLine(b.minecraft))]
  }

  /** Mod lines sort behind all others. */
  lemma ModsLast(b: Build, mods: seq<ModEntry>, texts: seq<string>)
    requires RenderAll(ModLines(mods)) == texts && Ordered(texts)
    requires forall t :: t in texts ==> StartsWith(t, "mod")
    ensures Preimage(b.(mods := mods)) == Join(Before(b) + texts, "\n")
  {
    hide *;
    PartsRendered(b, mods);
    BaseLetters(b);
    AssetLetters(b.assets);
    BehindAll(RenderAll(AssetLines(b.assets)), Render(McLine(b.minecraft)),
              Render(LoaderLine(b.loader.name, b.loader.version)), Render(JavaLine(b.java)), texts);
    assert Before(b) == Sort(RenderAll(AssetLines(b.assets)))
      + [Render(JavaLine(b.java)), Render(LoaderLine(b.loader.name, b.loader.version)), Render(McLine(b.minecraft))]
    by { BeforeIs(b); }
  }

  lemma BeforeIs(b: Build)
    ensures Before(b) == Sort(RenderAll(AssetLines(b.assets)))
      + [Render(JavaLine(b.java)), Render(LoaderLine(b.loader.name, b.loader.version)), Render(McLine(b.minecraft))]
  {
    hide Sort, Render, RenderAll, AssetLines;
  }

  lemma PartsRendered(b: Build, mods: seq<ModEntry>)
    ensures Preimage(b.(mods := mods))
         == Join(Sort([Render(McLine(b.minecraft)), Render(LoaderLine(b.loader.name, b.loader.version)),
                       Render(JavaLine(b.java))]
                      + RenderAll(ModLines(mods)) + RenderAll(AssetLines(b.assets))), "\n")
  {
    var m, l, v := McLine(b.minecraft), LoaderLine(b.loader.name, b.loader.version), JavaLine(b.java);
    assert Preimage(b.(mods := mods))
        == Join(Sort(RenderAll(([m, l, v] + ModLines(mods)) + AssetLines(b.assets))), "\n");
    hide *;
    RenderAllAppend([m, l, v] + ModLines(mods), AssetLines(b.assets));
    RenderAllAppend([m, l, v], ModLines(mods));
    ThreeLines(m, l, v);
  }

  lemma ThreeLines(x: Line, y: Line, z: Line)
    ensures RenderAll([x, y, z]) == [Render(x), Render(y), Render(z)]
  {
    TwoLines(x, y);
    hide Render, RenderAll;
    assert [x, y] + [z] == [x, y, z];
    RenderAllLast([x, y], z);
  }

  lemma BaseLetters(b: Build)
    ensures StartsWith(Render(McLine(b.minecraft)), "mc") && StartsWith(Render(JavaLine(b.java)), "j")
    ensures StartsWith(Render(LoaderLine(b.loader.name, b.loader.version)), "l")
  {
    RenderIs(McLine(b.minecraft));
    RenderIs(LoaderLine(b.loader.name, b.loader.version));
    RenderIs(JavaLine(b.java));
    hide Render, Payload;
  }

  lemma AssetLetters(assets: seq<AssetEntry>)
    ensures forall t :: t in RenderAll(AssetLines(assets)) ==> StartsWith(t, "a")
  {
    forall t | t in RenderAll(AssetLines(assets)) ensures StartsWith(t, "a") {
      RenderedMembers(AssetLines(assets), t);
      var line :| line in AssetLines(assets) && Render(line) == t;
      RenderIs(line);
      hide Render, Payload;
    }
  }

  lemma BehindAll(assets: seq<string>, m: string, l: string, v: string, texts: seq<string>)
    requires (forall t :: t in assets ==> StartsWith(t, "a")) && StartsWith(v, "j") && StartsWith(l, "l")
      && StartsWith(m, "mc")
    requires Ordered(texts) && forall t :: t in texts ==> StartsWith(t, "mod")
    ensures Sort([m, l, v] + texts + assets) == Sort(assets) + [v, l, m] + texts
  {
    var front, base := Sort(assets), [v, l, m];
    SameCount(front, assets);
    BaseOrdered(m, l, v);
    AllBehind(front, base, texts);
    hide *;
    OrderedConcat(front, base);
    OrderedConcat(front + base, texts);
    Regrouped(front, assets, m, l, v, texts);
    OrderedUnique(Sort([m, l, v] + texts + assets), front + base + texts);
  }

  lemma Regrouped(front: seq<string>, assets: seq<string>, m: string, l: string, v: string, texts: seq<string>)
    requires multiset(front) == multiset(assets)
    ensures multiset(front + [v, l, m] + texts) == multiset([m, l, v] + texts + assets)
  {
    assert multiset([v, l, m]) == multiset([m, l, v]);
  }

  lemma AllBehind(front: seq<string>, base: seq<string>, texts: seq<string>)
    requires (forall t :: t in front ==> StartsWith(t, "a")) && (forall t :: t in texts ==> StartsWith(t, "mod"))
    requires forall t :: t in base ==> StartsWith(t, "j") || StartsWith(t, "l") || StartsWith(t, "mc")
    ensures forall x, y :: x in front && y in base ==> AtMost(x, y)
    ensures forall x, y :: x in front + base && y in texts ==> AtMost(x, y)
  {
    hide Less, AtMost;
    forall x, y | x in front && y in base ensures AtMost(x, y) {
      FirstLetters(x, y);
    }
    forall x, y | x in front + base && y in texts ensures AtMost(x, y) {
      FirstLetters(x, y);
    }
  }

  lemma BaseOrdered(m: string, l: string, v: string)
    requires StartsWith(v, "j") && StartsWith(l, "l") && StartsWith(m, "mc")
    ensures Ordered([v, l, m])
  {
    hide Less;
    FirstLetters(v, l);
    FirstLetters(l, m);
    FirstLetters(v, m);
  }

  lemma FirstLetters(x: string, y: string)
    requires x != "" && y != "" && (x[0] < y[0] || (|x| > 1 && |y| > 1 && x[0] == y[0] && x[1] < y[1]))
    ensures AtMost(x, y)
  {
    assert |x| > 1 && |y| > 1 ==> x[1..][0] == x[1] && y[1..][0] == y[1];
  }

  lemma OrderedConcat(a: seq<string>, b: seq<string>)
    requires Ordered(a) && Ordered(b) && forall x, y :: x in a && y in b ==> AtMost(x, y)
    ensures Ordered(a + b)
  {
    var r := a + b;
    hide AtMost;
    forall i, j | 0 <= i < j < |r| ensures AtMost(r[i], r[j]) {
      if i < |a| <= j {
        assert a[i] in a && b[j - |a|] in b;
      }
    }
  }

  const BARE := Build("", LoaderSpec("", ""), 8, [], [])

  lemma TabsBreak(newlines: bool)
    ensures !CanonicalOver(newlines, true)
  {
    var x, y, z := "x", "y", "z";
    LoaderTabsCollide(BARE, x, y, z);
    BareAdmitted(LoaderSpec(x + "\t" + y, z), newlines);
    BareAdmitted(LoaderSpec(x, y + "\t" + z), newlines);
    hide *;
    NotCanonical(BARE.(loader := LoaderSpec(x + "\t" + y, z)), BARE.(loader := LoaderSpec(x, y + "\t" + z)),
      newlines, true);
  }

  lemma BareAdmitted(loader: LoaderSpec, newlines: bool)
    requires '\n' !in loader.name && '\n' !in loader.version
    ensures Admitted(BARE.(loader := loader), newlines, true)
  {
  }

  lemma NotCanonical(a: Build, b: Build, newlines: bool, tabs: bool)
    requires Admitted(a, newlines, tabs) && Admitted(b, newlines, tabs)
    requires Preimage(a) == Preimage(b) && !SameContent(a, b)
    ensures !CanonicalOver(newlines, tabs)
  {
    hide Admitted, Preimage, SameContent;
  }

  function ModAt(filename: string, sha1: string): ModEntry
  {
    ModEntry(filename, sha1, 0, false, true, SmrtCache(sha1), None, None)
  }

  lemma NewlinesBreak(tabs: bool)
    ensures !CanonicalOver(true, tabs)
  {
    var x, y := ModAt("a", "0"), ModAt("b", "1");
    assert Digest(x.sha1) && Digest(y.sha1) && SafeFilename(x.filename) && SafeFilename(y.filename);
    assert x.filename[0] < y.filename[0];
    hide *;
    LinesInOrder(x, y);
    PairAdmitted(x, y, tabs);
    NewlinesCollide(BARE, x, y);
    NotCanonical(BARE.(mods := [Merged(x, y)]), BARE.(mods := [x, y]), true, tabs);
  }

  lemma PairAdmitted(x: ModEntry, y: ModEntry, tabs: bool)
    requires SafeFilename(x.filename) && SafeFilename(y.filename) && Digest(x.sha1) && Digest(y.sha1)
    requires x.filename != y.filename
    ensures Admitted(BARE.(mods := [Merged(x, y)]), true, tabs) && Admitted(BARE.(mods := [x, y]), true, tabs)
  {
    MergedIsSafe(x, y);
    hide *;
    ModsAdmitted([Merged(x, y)], tabs);
    ModsAdmitted([x, y], tabs);
  }

  lemma LinesInOrder(x: ModEntry, y: ModEntry)
    requires x.filename != "" && y.filename != "" && x.filename[0] < y.filename[0]
    ensures AtMost(ModText(x), ModText(y))
  {
    FilenameFollows(x);
    FilenameFollows(y);
    hide ModText, StartsWith;
    LaterLetter("mod\t", ModText(x), ModText(y));
  }

  lemma ModsAdmitted(mods: seq<ModEntry>, tabs: bool)
    requires forall m :: m in mods ==> SafeFilename(m.filename) && Digest(m.sha1)
    requires forall i, j :: 0 <= i < j < |mods| ==> mods[i].filename != mods[j].filename
    ensures Admitted(BARE.(mods := mods), true, tabs)
  {
    hide SafeFilename, Digest, SafeRelPath;
  }

  lemma MergedIsSafe(x: ModEntry, y: ModEntry)
    requires SafeFilename(x.filename) && SafeFilename(y.filename) && Digest(x.sha1)
    ensures SafeFilename(Merged(x, y).filename) && Merged(x, y).sha1 == y.sha1
  {
    var p, r, e := Payload(ModLineOf(x)), BoolText(x.required), BoolText(x.defaultEnabled);
    assert '/' !in r && '\\' !in r && '/' !in e && '\\' !in e;
    hide BoolText;
    assert '/' !in p && '\\' !in p && p[0] == x.filename[0];
  }

  lemma FilenameFollows(m: ModEntry)
    requires m.filename != ""
    ensures StartsWith(ModText(m), "mod\t") && |ModText(m)| > 4 && ModText(m)[4] == m.filename[0]
  {
    ModTextIs(m);
    hide ModText, BoolText;
  }

  lemma {:induction false} LaterLetter(front: string, x: string, y: string)
    requires StartsWith(x, front) && StartsWith(y, front) && |x| > |front| && |y| > |front| && x[|front|] < y[|front|]
    ensures Less(x, y)
  {
    if front != "" {
      assert x[0] == front[0] == y[0];
      LaterLetter(front[1..], x[1..], y[1..]);
    }
  }

  /** The preimage is canonical over all such builds exactly when neither newlines nor
      tabs in loader names are let in; tabs elsewhere do no harm. */
  lemma CanonicalIff(newlines: bool, tabs: bool)
    ensures CanonicalOver(newlines, tabs) <==> !newlines && !tabs
  {
    if tabs {
      TabsBreak(newlines);
    } else if newlines {
      NewlinesBreak(tabs);
    } else {
      forall a, b | Admitted(a, newlines, tabs) && Admitted(b, newlines, tabs)
        ensures Preimage(a) == Preimage(b) <==> SameContent(a, b)
      {
        AdmittedIsPlain(a);
        AdmittedIsPlain(b);
        hide *;
        PreimageIsCanonical(a, b);
      }
      hide Preimage, SameContent, Admitted;
    }
  }

  lemma AdmittedIsPlain(b: Build)
    requires Admitted(b, false, false)
    ensures Plain(b)
  {
    hide SafeRelPath, SafeFilename;
    forall line | line in LinesOf(b) ensures PlainLine(line) {
      if line in AssetLines(b.assets) {
        var i :| 0 <= i < |b.assets| && AssetLines(b.assets)[i] == line;
        assert b.assets[i] in b.assets;
        PathIsOneLine(line.dest);
      } else if line in ModLines(b.mods) {
        var i :| 0 <= i < |b.mods| && ModLines(b.mods)[i] == line;
        assert b.mods[i] in b.mods;
      }
    }
  }

  lemma PathIsOneLine(rel: string)
    requires SafeRelPath(rel)
    ensures '\n' !in rel
  {
    if '\n' in rel {
      var segment := SegmentOf(rel, '/', '\n');
    }
  }

  lemma {:induction false} SegmentOf(s: string, c: char, x: char) returns (part: string)
    requires x in s && x != c
    ensures part in Split(s, c) && x in part
  {
    var rest := Split(s[1..], c);
    if s[0] == x {
      part := [x] + rest[0];
    } else {
      part := SegmentOf(s[1..], c, x);
      var i :| 0 <= i < |rest| && rest[i] == part;
      if s[0] != c && i == 0 {
        part := [s[0]] + rest[0];
      } else {
        assert Split(s, c)[if s[0] == c then i + 1 else i] == part;
      }
    }
    assert part in Split(s, c);
  }

  lemma {:induction false} RenderAllAppend(a: seq<Line>, b: seq<Line>)
    ensures RenderAll(a + b) == RenderAll(a) + RenderAll(b)
  {
    if b == [] {
      assert a + b == a;
    } else {
      var init, last := b[..|b| - 1], b[|b| - 1];
      assert b == init + [last] && a + b == (a + init) + [last];
      RenderAllAppend(a, init);
      RenderAllLast(a + init, last);
      RenderAllLast(init, last);
    }
  }
}
