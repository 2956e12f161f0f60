/** The pack config a curator edits (src/domain/pack.rs). */
module PackConfigs {
  import opened Base
  import opened Texts
  import opened Manifest

  /** Where a declared file comes from. */
  datatype SourceDecl =
    | ModrinthPin(projectId: string, versionId: string)
    | CacheJar(sha1: string)
    | StaticFile(relPath: string)

  datatype DeclaredMod = DeclaredMod(
    filename: string,
    defaultEnabled: bool,
    source: SourceDecl,
    display: Option<Display>,
    slug: Option<string>,
    pulled: bool)

  datatype DeclaredAsset = DeclaredAsset(dest: string, required: bool, source: SourceDecl, display: Option<Display>)

  datatype PackTier = Official | Community

  datatype Visibility = Draft | Unlisted | Published

  datatype PackMeta = PackMeta(
    iconUrl: Option<string>, bannerUrl: Option<string>, galleryUrls: seq<string>, descriptionMd: Option<string>)

  datatype PackConfig = PackConfig(
    packId: string,
    displayName: string,
    tagline: string,
    minecraftVersion: string,
    loader: LoaderSpec,
    javaMajor: u32,
    version: Option<string>,
    tags: seq<string>,
    featured: bool,
    mods: seq<DeclaredMod>,
    assets: seq<DeclaredAsset>,
    auth: Option<AuthSpec>,
    packMeta: PackMeta,
    owner: int,
    tier: PackTier,
    visibility: Visibility,
    forkOf: Option<string>)

  // ----- Duplicate declarations ------------------------------------------------------

  /** The same mod, whatever version of it is pinned. */
  predicate SameArtifact(a: SourceDecl, b: SourceDecl)
  {
    match (a, b)
    case (ModrinthPin(p, _), ModrinthPin(q, _)) => p == q
    case (CacheJar(x), CacheJar(y)) => x == y
    case (StaticFile(x), StaticFile(y)) => x == y
    case _ => false
  }

  predicate UniqueFilenames(mods: seq<DeclaredMod>)
  {
    forall i, j :: 0 <= i < j < |mods| ==> mods[i].filename != mods[j].filename
  }

  predicate UniqueArtifacts(mods: seq<DeclaredMod>)
  {
    forall i, j :: 0 <= i < j < |mods| ==> !SameArtifact(mods[i].source, mods[j].source)
  }

  predicate UniqueDests(assets: seq<DeclaredAsset>)
  {
    forall i, j :: 0 <= i < j < |assets| ==> assets[i].dest != assets[j].dest
  }

  datatype Duplicate =
    | ArtifactTwice(name: string, filename: string)
    | FilenameTwice(filename: string)
    | DestTwice(dest: string)

  function ArtifactName(s: SourceDecl): string
  {
    match s
    case ModrinthPin(p, _) => "modrinth project " + p
    case CacheJar(x) => "cache jar " + x
    case StaticFile(x) => "static file " + x
  }

  lemma AfterPrefix(p: string, a: string, b: string)
    ensures p + a == p + b <==> a == b
  {
    assert (p + a)[|p|..] == a && (p + b)[|p|..] == b;
  }

  lemma ArtifactNameSays(a: SourceDecl, b: SourceDecl)
    ensures ArtifactName(a) == ArtifactName(b) <==> SameArtifact(a, b)
  {
    assert ArtifactName(a)[0] == if a.ModrinthPin? then 'm' else if a.CacheJar? then 'c' else 's';
    assert ArtifactName(b)[0] == if b.ModrinthPin? then 'm' else if b.CacheJar? then 'c' else 's';
    match (a, b)
    case (ModrinthPin(p, _), ModrinthPin(q, _)) => AfterPrefix("modrinth project ", p, q);
    case (CacheJar(x), CacheJar(y)) => AfterPrefix("cache jar ", x, y);
    case (StaticFile(x), StaticFile(y)) => AfterPrefix("static file ", x, y);
    case _ =>
  }

  /** Row `k` is the first to repeat anything: the artifact of an earlier row. */
  predicate ArtifactRepeats(mods: seq<DeclaredMod>, k: nat)
  {
    && k < |mods| && UniqueArtifacts(mods[..k]) && UniqueFilenames(mods[..k])
    && exists i :: 0 <= i < k && SameArtifact(mods[i].source, mods[k].source)
  }

  /** Row `k` is the first to repeat anything, and it repeats no more than a filename. */
  predicate FilenameRepeats(mods: seq<DeclaredMod>, k: nat)
  {
    && k < |mods| && UniqueArtifacts(mods[..k + 1]) && UniqueFilenames(mods[..k])
    && exists i :: 0 <= i < k && mods[i].filename == mods[k].filename
  }

  predicate DestRepeats(assets: seq<DeclaredAsset>, k: nat)
  {
    k < |assets| && UniqueDests(assets[..k]) && exists i :: 0 <= i < k && assets[i].dest == assets[k].dest
  }

  /** A config is accepted exactly when no artifact, filename or destination repeats;
      otherwise the first row that repeats one is named, by its artifact before its
      filename, and mods come before assets. */
  method DuplicateDeclaration(cfg: PackConfig) returns (r: Option<Duplicate>)
    ensures r.None? <==> UniqueArtifacts(cfg.mods) && UniqueFilenames(cfg.mods) && UniqueDests(cfg.assets)
    ensures r.Some? && r.value.ArtifactTwice? ==>
      (exists k: nat :: ArtifactRepeats(cfg.mods, k)
        && r.value == ArtifactTwice(ArtifactName(cfg.mods[k].source), cfg.mods[k].filename))
    ensures r.Some? && r.value.FilenameTwice? ==>
      (exists k: nat :: FilenameRepeats(cfg.mods, k) && r.value.filename == cfg.mods[k].filename)
    ensures r.Some? && r.value.DestTwice? ==>
      && UniqueArtifacts(cfg.mods) && UniqueFilenames(cfg.mods)
      && exists k: nat :: DestRepeats(cfg.assets, k) && r.value.dest == cfg.assets[k].dest
  {
    var identities: set<string>, filenames: set<string> := {}, {};
    for k := 0 to |cfg.mods|
      invariant identities == set i | 0 <= i < k :: ArtifactName(cfg.mods[i].source)
      invariant filenames == set i | 0 <= i < k :: cfg.mods[i].filename
      invariant UniqueArtifacts(cfg.mods[..k]) && UniqueFilenames(cfg.mods[..k])
    {
      var m := cfg.mods[k];
      forall i | 0 <= i < k
        ensures ArtifactName(cfg.mods[i].source) == ArtifactName(m.source)
           <==> SameArtifact(cfg.mods[i].source, m.source)
      {
        ArtifactNameSays(cfg.mods[i].source, m.source);
      }
      hide ArtifactName, SameArtifact;
      var identity := ArtifactName(m.source);
      if identity in identities {
        assert ArtifactRepeats(cfg.mods, k);
        return Some(ArtifactTwice(identity, m.filename));
      }
      if m.filename in filenames {
        assert FilenameRepeats(cfg.mods, k);
        return Some(FilenameTwice(m.filename));
      }
      identities, filenames := identities + {identity}, filenames + {m.filename};
    }
    assert cfg.mods[..|cfg.mods|] == cfg.mods;
    var dests: set<string> := {};
    for k := 0 to |cfg.assets|
      invariant dests == set i | 0 <= i < k :: cfg.assets[i].dest
      invariant UniqueDests(cfg.assets[..k])
    {
      var dest := cfg.assets[k].dest;
      if dest in dests {
        assert DestRepeats(cfg.assets, k);
        return Some(DestTwice(dest));
      }
      dests := dests + {dest};
    }
    assert cfg.assets[..|cfg.assets|] == cfg.assets;
    r := None;
  }

  // ----- What a person authored -----------------------------------------------------------

  /** The rows a curator declared, in order (`filter(|m| !m.pulled)`). */
  function Declared(mods: seq<DeclaredMod>): seq<DeclaredMod>
  {
    if mods == [] then []
    else Declared(mods[..|mods| - 1]) + DeclaredRow(mods[|mods| - 1])
  }

  function DeclaredRow(m: DeclaredMod): seq<DeclaredMod>
  {
    if m.pulled then [] else [m]
  }

  lemma {:induction false} DeclaredMembers(mods: seq<DeclaredMod>, m: DeclaredMod)
    ensures m in Declared(mods) <==> m in mods && !m.pulled
  {
    if mods != [] {
      var n := |mods| - 1;
      DeclaredMembers(mods[..n], m);
      assert mods == mods[..n] + [mods[n]];
    }
  }

  lemma DeclaredNext(mods: seq<DeclaredMod>, k: nat)
    requires k < |mods|
    ensures Declared(mods[..k + 1]) == Declared(mods[..k]) + DeclaredRow(mods[k])
  {
    assert mods[..k + 1][..k] == mods[..k];
  }

  lemma DeclaredLast(mods: seq<DeclaredMod>, m: DeclaredMod)
    ensures Declared(mods + [m]) == Declared(mods) + DeclaredRow(m)
  {
    assert (mods + [m])[..|mods|] == mods;
  }

  lemma DeclaredGrow(a: seq<DeclaredMod>, init: seq<DeclaredMod>, m: DeclaredMod)
    requires Declared(a + init) == Declared(a) + Declared(init)
    ensures Declared(a + (init + [m])) == Declared(a) + Declared(init + [m])
  {
    hide Declared, DeclaredRow;
    DeclaredLast(a + init, m);
    DeclaredLast(init, m);
    assert a + (init + [m]) == (a + init) + [m];
  }

  lemma {:induction false} DeclaredAppend(a: seq<DeclaredMod>, b: seq<DeclaredMod>)
    ensures Declared(a + b) == Declared(a) + Declared(b)
  {
    if b == [] {
      assert a + b == a;
    } else {
      hide Declared;
      var init, m := b[..|b| - 1], b[|b| - 1];
      assert b == init + [m];
      DeclaredAppend(a, init);
      DeclaredGrow(a, init, m);
    }
  }

  /** What the revision of a config covers (`edit_rev`, before hashing). */
  function Projection(cfg: PackConfig): PackConfig
  {
    cfg.(owner := 0, tier := Official, visibility := Published, forkOf := None, mods := Declared(cfg.mods))
  }

  /** Two configs have one revision exactly when they say the same of everything a person
      authors, whoever owns them, whatever was pulled, published or forked. */
  lemma RevisionCovers(a: PackConfig, b: PackConfig)
    ensures Projection(a) == Projection(b) <==>
              && a.packId == b.packId && a.displayName == b.displayName && a.tagline == b.tagline
              && a.minecraftVersion == b.minecraftVersion && a.loader == b.loader && a.javaMajor == b.javaMajor
              && a.version == b.version && a.tags == b.tags && a.featured == b.featured
              && a.assets == b.assets && a.auth == b.auth && a.packMeta == b.packMeta
              && Declared(a.mods) == Declared(b.mods)
  {
    hide Declared;
  }
}
