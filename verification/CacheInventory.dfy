/** The content-addressed jar cache read in hash order (src/storage.rs): jars are
    sharded by the first two characters of their hash, so a page opens only the
    directories from its cursor on. */
module CacheInventory {
  import opened Base
  import opened Texts
  import opened Sorting

  /** What stands in the cache directory under a name. */
  datatype Entry = PlainFile | Folder(files: map<string, nat>)

  /** The cache directory, which may not exist. */
  datatype Cache = Missing | Present(entries: map<string, Entry>)

  datatype CacheInventoryEntry = CacheInventoryEntry(sha1: string, sizeBytes: nat)

  predicate IsSha1(s: string)
  {
    |s| == 40 && forall c :: c in s ==> IsHexDigit(c)
  }

  function JarName(sha1: string): string
  {
    sha1 + ".jar"
  }

  predicate IsJarName(name: string)
  {
    EndsWith(name, ".jar") && IsSha1(name[..|name| - 4])
  }

  function Stem(name: string): string
    requires IsJarName(name)
  {
    name[..|name| - 4]
  }

  /** `sha1_shard`. */
  function Shard(s: string): string
  {
    if |s| < 2 then s else s[..2]
  }

  predicate After(s: string, after: Option<string>)
  {
    after.None? || Less(after.value, s)
  }

  // ----- The scan -----------------------------------------------------------------------

  function FolderNames(cache: Cache): set<string>
  {
    if cache.Missing? then {} else set d | d in cache.entries && cache.entries[d].Folder?
  }

  function WithoutSuffix(name: string): string
  {
    if IsJarName(name) then Stem(name) else ""
  }

  predicate Listable(name: string, after: Option<string>)
  {
    IsJarName(name) && After(Stem(name), after)
  }

  function HashesAmong(names: set<string>, after: Option<string>): set<string>
  {
    set name | name in names && Listable(name, after) :: WithoutSuffix(name)
  }

  lemma OneMoreFile(names: set<string>, name: string, after: Option<string>)
    ensures HashesAmong(names + {name}, after)
         == HashesAmong(names, after) + if Listable(name, after) then {WithoutSuffix(name)} else {}
  {
    hide Listable, WithoutSuffix;
  }

  function HashesIn(files: map<string, nat>, after: Option<string>): set<string>
  {
    HashesAmong(files.Keys, after)
  }

  function Sized(files: map<string, nat>, hashes: seq<string>): seq<CacheInventoryEntry>
    requires forall s :: s in hashes ==> JarName(s) in files
  {
    if hashes == [] then []
    else
      assert hashes[|hashes| - 1] in hashes;
      Sized(files, hashes[..|hashes| - 1])
      + [CacheInventoryEntry(hashes[|hashes| - 1], files[JarName(hashes[|hashes| - 1])])]
  }

  lemma HashHasFile(files: map<string, nat>, after: Option<string>)
    ensures forall s :: s in HashesIn(files, after) <==> IsSha1(s) && JarName(s) in files && After(s, after)
  {
    forall s ensures s in HashesIn(files, after) <==> IsSha1(s) && JarName(s) in files && After(s, after) {
      if s in HashesIn(files, after) {
        var name :| name in files && Listable(name, after) && s == WithoutSuffix(name);
        assert name == JarName(s);
      }
      assert JarName(s)[..|JarName(s)| - 4] == s;
      if IsSha1(s) && JarName(s) in files && After(s, after) {
        assert IsJarName(JarName(s)) && Stem(JarName(s)) == s;
      }
    }
  }

  method ScanFolder(files: map<string, nat>, after: Option<string>) returns (hashes: set<string>)
    ensures hashes == HashesIn(files, after)
  {
    hashes := {};
    var todo := files.Keys;
    assert HashesAmong(files.Keys - todo, after) == {};
    while todo != {}
      invariant todo <= files.Keys
      invariant hashes == HashesAmong(files.Keys - todo, after)
      decreases |todo|
    {
      hide *;
      var name :| name in todo;
      OneMoreFile(files.Keys - todo, name, after);
      assert files.Keys - (todo - {name}) == files.Keys - todo + {name};
      todo := todo - {name};
      if Listable(name, after) {
        hashes := hashes + {WithoutSuffix(name)};
      }
    }
    assert files.Keys - todo == files.Keys;
  }

  /** The jars of one directory past the cursor, in hash order. */
  method ReadFolder(files: map<string, nat>, after: Option<string>) returns (here: seq<CacheInventoryEntry>)
    ensures forall s :: s in SortedKeys(HashesIn(files, after)) ==> JarName(s) in files
    ensures here == Sized(files, SortedKeys(HashesIn(files, after)))
  {
    var hashes := ScanFolder(files, after);
    HashHasFile(files, after);
    hide JarName, HashesIn;
    here := Sized(files, SortedKeys(hashes));
  }

  // ----- What a reader should get -------------------------------------------------------------

  /** A jar stands in no directory but the one its hash begins with. */
  predicate ShardCorrect(cache: Cache)
  {
    forall d :: d in FolderNames(cache) ==>
      forall name :: name in cache.entries[d].files && IsJarName(name) ==> Shard(Stem(name)) == d
  }

  /** The hashes past the cursor in these directories. */
  function Past(cache: Cache, dirs: set<string>, after: Option<string>): set<string>
    requires dirs <= FolderNames(cache)
  {
    set d, s | d in dirs && s in HashesIn(cache.entries[d].files, after) :: s
  }

  function AllPast(cache: Cache, after: Option<string>): set<string>
  {
    Past(cache, FolderNames(cache), after)
  }

  /** The jar with this hash, as the inventory lists it. */
  function Listed(cache: Cache, s: string): CacheInventoryEntry
    requires Held(cache, s)
  {
    CacheInventoryEntry(s, cache.entries[Shard(s)].files[JarName(s)])
  }

  predicate Held(cache: Cache, s: string)
  {
    Shard(s) in FolderNames(cache) && JarName(s) in cache.entries[Shard(s)].files
  }

  function ListAll(cache: Cache, hashes: seq<string>): (r: seq<CacheInventoryEntry>)
    requires forall s :: s in hashes ==> Held(cache, s)
    ensures |r| == |hashes| && forall i :: 0 <= i < |r| ==> hashes[i] in hashes && r[i] == Listed(cache, hashes[i])
  {
    seq(|hashes|, i requires 0 <= i < |hashes| => assert hashes[i] in hashes; Listed(cache, hashes[i]))
  }

  function UpTo<T>(s: seq<T>, take: Option<nat>): seq<T>
  {
    if take.Some? && take.value < |s| then s[..take.value] else s
  }

  lemma PastIsHeld(cache: Cache, dirs: set<string>, after: Option<string>)
    requires ShardCorrect(cache) && dirs <= FolderNames(cache)
    ensures forall s :: s in Past(cache, dirs, after) ==>
      Held(cache, s) && IsSha1(s) && Shard(s) in dirs && After(s, after)
  {
    forall s | s in Past(cache, dirs, after)
      ensures Held(cache, s) && IsSha1(s) && Shard(s) in dirs && After(s, after)
    {
      var d :| d in dirs && s in HashesIn(cache.entries[d].files, after);
      HashHasFile(cache.entries[d].files, after);
      assert JarName(s)[..|JarName(s)| - 4] == s;
      assert IsJarName(JarName(s)) && Stem(JarName(s)) == s;
    }
  }

  lemma LessUnfolds(a: string, b: string)
    requires a != [] && b != []
    ensures Less(a, b) <==> a[0] < b[0] || (a[0] == b[0] && Less(a[1..], b[1..]))
  {
  }

  lemma LessOne(x: char, y: char)
    ensures Less([x], [y]) <==> x < y
  {
    assert [x][1..] == [] && [y][1..] == [];
    assert !Less([], []);
  }

  /** Directory order is hash order. */
  lemma ShardOrder(s: string, t: string)
    requires |s| >= 2 && Less(s[..2], Shard(t))
    ensures Less(s, t)
  {
    var a, b := s[..2], Shard(t);
    LessUnfolds(a, b);
    LessUnfolds(s, t);
    if |t| >= 2 && s[0] == t[0] {
      assert a[1..] == [s[1]] && b[1..] == [t[1]];
      LessOne(s[1], t[1]);
      LessUnfolds(s[1..], t[1..]);
    } else if |t| == 1 {
      assert b[1..] == [];
    }
  }

  function SetOf(names: seq<string>): set<string>
  {
    set x | x in names
  }

  /** One more directory, in order, puts its jars after all the ones before. */
  lemma NextFolder(cache: Cache, names: seq<string>, k: nat, after: Option<string>)
    requires ShardCorrect(cache) && k < |names| && names == SortedKeys(FolderNames(cache))
    ensures SetOf(names[..k]) <= FolderNames(cache) && SetOf(names[..k + 1]) <= FolderNames(cache)
    ensures names[k] in FolderNames(cache)
    ensures SortedKeys(Past(cache, SetOf(names[..k + 1]), after))
         == SortedKeys(Past(cache, SetOf(names[..k]), after))
           + SortedKeys(HashesIn(cache.entries[names[k]].files, after))
  {
    FirstNames(names, k, FolderNames(cache));
    FirstNames(names, k + 1, FolderNames(cache));
    assert names[k] in names;
    var before, d := SetOf(names[..k]), names[k];
    assert SetOf(names[..k + 1]) == before + {d} by { OneMoreName(names, k); }
    var here := HashesIn(cache.entries[d].files, after);
    PastGrows(cache, before, d, after);
    FolderAfterFolders(cache, names, k, after);
    hide *;
    SortedKeysConcat(Past(cache, before, after), here);
  }

  lemma OneMoreName(names: seq<string>, k: nat)
    requires k < |names|
    ensures SetOf(names[..k + 1]) == SetOf(names[..k]) + {names[k]}
  {
    assert names[..k + 1] == names[..k] + [names[k]];
  }

  lemma PastGrows(cache: Cache, before: set<string>, d: string, after: Option<string>)
    requires before <= FolderNames(cache) && d in FolderNames(cache)
    ensures Past(cache, before + {d}, after) == Past(cache, before, after) + HashesIn(cache.entries[d].files, after)
  {
    hide HashesIn;
  }

  lemma FolderAfterFolders(cache: Cache, names: seq<string>, k: nat, after: Option<string>)
    requires ShardCorrect(cache) && k < |names| && names == SortedKeys(FolderNames(cache))
    requires SetOf(names[..k]) <= FolderNames(cache) && names[k] in FolderNames(cache)
    ensures forall x, y ::
      x in Past(cache, SetOf(names[..k]), after) && y in HashesIn(cache.entries[names[k]].files, after) ==> Less(x, y)
  {
    var d := names[k];
    PastIsHeld(cache, SetOf(names[..k]), after);
    PastIsHeld(cache, {d}, after);
    assert Past(cache, {d}, after) == HashesIn(cache.entries[d].files, after);
    hide HashesIn, ShardCorrect, Past, Held, SortedKeys;
    forall x, y | x in Past(cache, SetOf(names[..k]), after) && y in HashesIn(cache.entries[d].files, after)
      ensures Less(x, y)
    {
      assert Shard(x) in names[..k];
      var i :| 0 <= i < k && names[..k][i] == Shard(x);
      assert Less(names[i], names[k]);
      assert y in Past(cache, {d}, after) && Shard(y) in {d};
      ShardOrder(x, y);
    }
  }

  /** A directory that sorts before the cursor's shard holds nothing past the cursor. */
  lemma SkippedIsEmpty(cache: Cache, d: string, cursor: string)
    requires ShardCorrect(cache) && d in FolderNames(cache) && Less(d, Shard(cursor))
    ensures HashesIn(cache.entries[d].files, Some(cursor)) == {}
  {
    PastIsHeld(cache, {d}, Some(cursor));
    assert Past(cache, {d}, Some(cursor)) == HashesIn(cache.entries[d].files, Some(cursor));
    forall s | s in HashesIn(cache.entries[d].files, Some(cursor)) ensures false {
      ShardOrder(s, cursor);
      Trichotomy(s, cursor);
    }
  }

  // ----- The page ------------------------------------------------------------------------------

  lemma {:induction false} SizedIsListed(cache: Cache, d: string, hashes: seq<string>)
    requires ShardCorrect(cache) && d in FolderNames(cache)
    requires forall s :: s in hashes ==> IsSha1(s) && JarName(s) in cache.entries[d].files
    ensures forall s :: s in hashes ==> Held(cache, s)
    ensures Sized(cache.entries[d].files, hashes) == ListAll(cache, hashes)
  {
    forall s | s in hashes ensures Held(cache, s) && Shard(s) == d {
      assert JarName(s)[..|JarName(s)| - 4] == s;
      assert IsJarName(JarName(s)) && Stem(JarName(s)) == s;
    }
    if hashes != [] {
      var init := hashes[..|hashes| - 1];
      assert hashes == init + [hashes[|hashes| - 1]];
      SizedIsListed(cache, d, init);
      ListAllAppend(cache, init, [hashes[|hashes| - 1]]);
    }
  }

  lemma ListAllAppend(cache: Cache, a: seq<string>, b: seq<string>)
    requires forall s :: s in a || s in b ==> Held(cache, s)
    ensures (forall s :: s in a + b ==> Held(cache, s))
      && ListAll(cache, a + b) == ListAll(cache, a) + ListAll(cache, b)
  {
  }

  /** The keys of the first `k` directories past the cursor, in order. */
  function FirstKeys(cache: Cache, k: nat, after: Option<string>): seq<string>
    requires k <= |SortedKeys(FolderNames(cache))|
  {
    var names := SortedKeys(FolderNames(cache));
    FirstNames(names, k, FolderNames(cache));
    SortedKeys(Past(cache, SetOf(names[..k]), after))
  }

  lemma FirstNames(names: seq<string>, k: nat, all: set<string>)
    requires k <= |names| && forall x :: x in names <==> x in all
    ensures SetOf(names[..k]) <= all && (k == |names| ==> SetOf(names[..k]) == all)
  {
    forall x | x in names[..k] ensures x in all {
      assert x in names;
    }
    assert k == |names| ==> names[..k] == names;
  }

  /** What the first directories gave, when the reader stopped or went on. */
  function Page(cache: Cache, after: Option<string>, take: Option<nat>): seq<string>
  {
    UpTo(SortedKeys(AllPast(cache, after)), take)
  }

  lemma FolderAdds(cache: Cache, k: nat, after: Option<string>)
    requires ShardCorrect(cache) && k < |SortedKeys(FolderNames(cache))|
    ensures var d := SortedKeys(FolderNames(cache))[k];
            && d in FolderNames(cache)
            && FirstKeys(cache, k + 1, after)
               == FirstKeys(cache, k, after) + SortedKeys(HashesIn(cache.entries[d].files, after))
            && (after.Some? && Less(d, Shard(after.value)) ==>
               FirstKeys(cache, k + 1, after) == FirstKeys(cache, k, after))
            && (forall s :: s in SortedKeys(HashesIn(cache.entries[d].files, after)) ==>
               IsSha1(s) && JarName(s) in cache.entries[d].files)
            && (forall s :: s in FirstKeys(cache, k, after) || s in FirstKeys(cache, k + 1, after) ==> Held(cache, s))
  {
    var names := SortedKeys(FolderNames(cache));
    NextFolder(cache, names, k, after);
    HashHasFile(cache.entries[names[k]].files, after);
    PastIsHeld(cache, SetOf(names[..k]), after);
    PastIsHeld(cache, SetOf(names[..k + 1]), after);
    if after.Some? && Less(names[k], Shard(after.value)) {
      SkippedIsEmpty(cache, names[k], after.value);
    }
  }

  lemma {:induction false} EarlierKeysFirst(cache: Cache, k: nat, n: nat, after: Option<string>)
    requires ShardCorrect(cache) && k <= n <= |SortedKeys(FolderNames(cache))|
    ensures |FirstKeys(cache, k, after)| <= |FirstKeys(cache, n, after)|
    ensures FirstKeys(cache, n, after)[..|FirstKeys(cache, k, after)|] == FirstKeys(cache, k, after)
    decreases n - k
  {
    hide *;
    if k < n {
      EarlierKeysFirst(cache, k, n - 1, after);
      FolderPuts(cache, n - 1, after);
      PrefixThrough(FirstKeys(cache, k, after), FirstKeys(cache, n - 1, after), FirstKeys(cache, n, after));
    }
  }

  lemma FolderPuts(cache: Cache, k: nat, after: Option<string>)
    requires ShardCorrect(cache) && k < |SortedKeys(FolderNames(cache))|
    ensures var (a, b) := (FirstKeys(cache, k, after), FirstKeys(cache, k + 1, after)); |a| <= |b| && b[..|a|] == a
  {
    FolderAdds(cache, k, after);
  }

  lemma PrefixThrough(a: seq<string>, b: seq<string>, c: seq<string>)
    requires |a| <= |b| <= |c| && b[..|a|] == a && c[..|b|] == b
    ensures c[..|a|] == a
  {
    assert c[..|b|][..|a|] == c[..|a|];
  }

  lemma AllKeys(cache: Cache, after: Option<string>)
    ensures FirstKeys(cache, |SortedKeys(FolderNames(cache))|, after) == SortedKeys(AllPast(cache, after))
  {
    var names := SortedKeys(FolderNames(cache));
    FirstNames(names, |names|, FolderNames(cache));
  }

  /** A reader that has enough from the first directories has the page. */
  lemma EnoughIsPage(cache: Cache, k: nat, after: Option<string>, take: nat)
    requires ShardCorrect(cache) && k <= |SortedKeys(FolderNames(cache))|
    requires |FirstKeys(cache, k, after)| >= take
    ensures FirstKeys(cache, k, after)[..take] == Page(cache, after, Some(take))
  {
    AllKeys(cache, after);
    EarlierKeysFirst(cache, k, |SortedKeys(FolderNames(cache))|, after);
    hide FirstKeys, SortedKeys, AllPast, ShardCorrect;
    FirstOfFirst(FirstKeys(cache, k, after), SortedKeys(AllPast(cache, after)), take);
  }

  lemma FirstOfFirst(a: seq<string>, b: seq<string>, take: nat)
    requires take <= |a| <= |b| && b[..|a|] == a
    ensures a[..take] == UpTo(b, Some(take))
  {
    assert b[..|a|][..take] == b[..take];
    assert take == |b| ==> b[..take] == b;
  }

  lemma ListAllFirst(cache: Cache, hashes: seq<string>, n: nat)
    requires n <= |hashes| && forall s :: s in hashes ==> Held(cache, s)
    ensures (forall s :: s in hashes[..n] ==> Held(cache, s))
      && ListAll(cache, hashes[..n]) == ListAll(cache, hashes)[..n]
  {
    forall s | s in hashes[..n] ensures s in hashes {
    }
  }

  /** `out` is what the first `k` directories hold past the cursor. */
  ghost predicate ReadUpTo(cache: Cache, k: nat, after: Option<string>, out: seq<CacheInventoryEntry>)
    requires k <= |SortedKeys(FolderNames(cache))|
  {
    && (forall s :: s in FirstKeys(cache, k, after) ==> Held(cache, s))
    && out == ListAll(cache, FirstKeys(cache, k, after))
  }

  lemma ReadNone(cache: Cache, after: Option<string>)
    ensures ReadUpTo(cache, 0, after, [])
  {
    assert SortedKeys(FolderNames(cache))[..0] == [];
    assert FirstKeys(cache, 0, after) == [];
  }

  lemma ReadSkipped(cache: Cache, k: nat, after: Option<string>, out: seq<CacheInventoryEntry>)
    requires ShardCorrect(cache) && k < |SortedKeys(FolderNames(cache))| && ReadUpTo(cache, k, after, out)
    requires after.Some? && Less(SortedKeys(FolderNames(cache))[k], Shard(after.value))
    ensures ReadUpTo(cache, k + 1, after, out)
  {
    hide FirstKeys, SortedKeys, ShardCorrect;
    FolderAdds(cache, k, after);
  }

  lemma ReadOneMore(cache: Cache, k: nat, after: Option<string>, out: seq<CacheInventoryEntry>)
    requires ShardCorrect(cache) && k < |SortedKeys(FolderNames(cache))| && ReadUpTo(cache, k, after, out)
    ensures SortedKeys(FolderNames(cache))[k] in FolderNames(cache)
    ensures var files := cache.entries[SortedKeys(FolderNames(cache))[k]].files;
            && (forall s :: s in SortedKeys(HashesIn(files, after)) ==> JarName(s) in files)
            && ReadUpTo(cache, k + 1, after, out + Sized(files, SortedKeys(HashesIn(files, after))))
  {
    FolderAdds(cache, k, after);
    var d := SortedKeys(FolderNames(cache))[k];
    var more := SortedKeys(HashesIn(cache.entries[d].files, after));
    SizedIsListed(cache, d, more);
    hide FirstKeys, SortedKeys, ShardCorrect, HashesIn, ListAll;
    ListAllAppend(cache, FirstKeys(cache, k, after), more);
  }

  lemma ReadEnough(cache: Cache, k: nat, after: Option<string>, take: nat, out: seq<CacheInventoryEntry>)
    requires ShardCorrect(cache) && k <= |SortedKeys(FolderNames(cache))| && ReadUpTo(cache, k, after, out)
      && |out| >= take
    ensures forall s :: s in Page(cache, after, Some(take)) ==> Held(cache, s)
    ensures out[..take] == ListAll(cache, Page(cache, after, Some(take)))
  {
    EnoughIsPage(cache, k, after, take);
    ListAllFirst(cache, FirstKeys(cache, k, after), take);
  }

  lemma ReadAll(cache: Cache, after: Option<string>, take: Option<nat>, out: seq<CacheInventoryEntry>)
    requires ReadUpTo(cache, |SortedKeys(FolderNames(cache))|, after, out)
    requires take.Some? ==> out == [] || |out| < take.value
    ensures forall s :: s in Page(cache, after, take) ==> Held(cache, s)
    ensures out == ListAll(cache, Page(cache, after, take))
  {
    AllKeys(cache, after);
    var keys := SortedKeys(AllPast(cache, after));
    hide FirstKeys, SortedKeys, AllPast;
    assert |keys| == |out|;
    assert UpTo(keys, take) == keys;
  }

  /** `cache_inventory_after` over a shard-correct cache: the first `take` of all
      hashes past the cursor, in order, each with its size. */
  method CacheInventoryAfter(
    cache: Cache, after: Option<string>, take: Option<nat>) returns (out: seq<CacheInventoryEntry>)
    requires ShardCorrect(cache)
    ensures forall s :: s in Page(cache, after, take) ==> Held(cache, s)
    ensures out == ListAll(cache, Page(cache, after, take))
  {
    hide *;
    out := [];
    ReadNone(cache, after);
    if cache.Missing? {
      assert FolderNames(cache) == {} by { NoFolders(cache); }
      NothingSorted();
      ReadAll(cache, after, take, out);
      return;
    }
    var names := SortedKeys(FolderNames(cache));
    for k := 0 to |names|
      invariant ReadUpTo(cache, k, after, out)
      invariant take.Some? ==> out == [] || |out| < take.value
    {
      if after.Some? && Less(names[k], Shard(after.value)) {
        ReadSkipped(cache, k, after, out);
        continue;
      }
      ReadOneMore(cache, k, after, out);
      assert cache.entries[names[k]].Folder? by { OnlyFolders(cache, names[k]); }
      var here := ReadFolder(cache.entries[names[k]].files, after);
      out := out + here;
      if take.Some? && |out| >= take.value {
        ReadEnough(cache, k + 1, after, take.value, out);
        out := out[..take.value];
        return;
      }
    }
    ReadAll(cache, after, take, out);
  }

  lemma NoFolders(cache: Cache)
    requires cache.Missing?
    ensures FolderNames(cache) == {}
  {
  }

  lemma NothingSorted()
    ensures SortedKeys({}) == []
  {
  }

  lemma OnlyFolders(cache: Cache, d: string)
    requires d in FolderNames(cache)
    ensures cache.Present? && d in cache.entries && cache.entries[d].Folder?
  {
  }

  // ----- Reading the cache page by page -----------------------------------------------------------

  /** Pages from a cursor on, each continued from the last hash of the one before. */
  function Visit(cache: Cache, after: Option<string>, take: nat): seq<string>
    requires take >= 1
    decreases |AllPast(cache, after)|
  {
    var page := Page(cache, after, Some(take));
    if page == [] then []
    else
      NextCursor(cache, after, take);
      page + Visit(cache, Some(page[|page| - 1]), take)
  }

  /** Past the last hash of a page stands what the page left. */
  lemma NextCursor(cache: Cache, after: Option<string>, take: nat)
    requires Page(cache, after, Some(take)) != []
    ensures var page := Page(cache, after, Some(take));
            && SortedKeys(AllPast(cache, after)) == page + SortedKeys(AllPast(cache, Some(page[|page| - 1])))
            && |AllPast(cache, Some(page[|page| - 1]))| < |AllPast(cache, after)|
  {
    hide *;
    var keys, page := SortedKeys(AllPast(cache, after)), Page(cache, after, Some(take));
    PageCut(cache, after, take);
    var last := keys[|page| - 1];
    forall s ensures s in AllPast(cache, Some(last)) <==> s in AllPast(cache, after) && Less(last, s) {
      PastIsFiltered(cache, s, after, last);
    }
    IncreasingTail(keys, |page|);
    TailKeys(keys[|page|..], AllPast(cache, after), AllPast(cache, Some(last)), keys, |page|);
  }

  lemma PageCut(cache: Cache, after: Option<string>, take: nat)
    requires Page(cache, after, Some(take)) != []
    ensures var (keys, page) := (SortedKeys(AllPast(cache, after)), Page(cache, after, Some(take)));
            && 1 <= |page| <= |keys| && keys == page + keys[|page|..]
            && keys[|page| - 1] == page[|page| - 1] && keys[|page| - 1] in AllPast(cache, after)
  {
    hide AllPast, SortedKeys;
    var keys, page := SortedKeys(AllPast(cache, after)), Page(cache, after, Some(take));
    assert page == keys[..|page|];
    assert keys[|page| - 1] in keys;
  }

  /** What follows a key is what is larger. */
  lemma IncreasingTail(keys: seq<string>, n: nat)
    requires Increasing(keys) && 1 <= n <= |keys|
    ensures Increasing(keys[n..])
    ensures forall s :: s in keys[n..] <==> s in keys && Less(keys[n - 1], s)
  {
    forall s ensures s in keys[n..] <==> s in keys && Less(keys[n - 1], s) {
      if s in keys && Less(keys[n - 1], s) {
        var i :| 0 <= i < |keys| && keys[i] == s;
        assert i < n - 1 ==> Less(keys[i], keys[n - 1]);
        Trichotomy(keys[n - 1], s);
        assert i >= n;
        assert keys[n..][i - n] == s;
      }
      if s in keys[n..] {
        var j :| 0 <= j < |keys[n..]| && keys[n..][j] == s;
        assert keys[n + j] == s && Less(keys[n - 1], keys[n + j]);
      }
    }
  }

  lemma TailKeys(rest: seq<string>, all: set<string>, past: set<string>, keys: seq<string>, n: nat)
    requires keys == SortedKeys(all) && 1 <= n <= |keys| && rest == keys[n..] && Increasing(rest)
    requires forall s :: s in rest <==> s in keys && Less(keys[n - 1], s)
    requires forall s :: s in past <==> s in all && Less(keys[n - 1], s)
    ensures SortedKeys(past) == rest && |past| < |all|
  {
    IncreasingUnique(rest, SortedKeys(past));
  }

  lemma PastIsFiltered(cache: Cache, s: string, after: Option<string>, last: string)
    requires last in AllPast(cache, after)
    ensures s in AllPast(cache, Some(last)) <==> s in AllPast(cache, after) && Less(last, s)
  {
    forall d | d in FolderNames(cache)
      ensures s in HashesIn(cache.entries[d].files, Some(last))
        <==> s in HashesIn(cache.entries[d].files, after) && Less(last, s)
      ensures last in HashesIn(cache.entries[d].files, after) ==> After(last, after)
    {
      HashHasFile(cache.entries[d].files, Some(last));
      HashHasFile(cache.entries[d].files, after);
      if after.Some? && Less(after.value, last) && Less(last, s) {
        Transitive(after.value, last, s);
      }
    }
  }

  /** Reading page by page, whatever the page size, gives every hash past the cursor
      once, in order. */
  lemma {:induction false} PagingVisitsAll(cache: Cache, after: Option<string>, take: nat)
    requires take >= 1
    ensures Visit(cache, after, take) == SortedKeys(AllPast(cache, after))
    decreases |AllPast(cache, after)|
  {
    var page := Page(cache, after, Some(take));
    if page != [] {
      NextCursor(cache, after, take);
      PagingVisitsAll(cache, Some(page[|page| - 1]), take);
    }
  }
}
