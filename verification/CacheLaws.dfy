/** What a page of the cache inventory holds, told from the directory itself
    (src/storage.rs). */
module CacheLaws {
  import opened Base
  import opened Texts
  import opened Sorting
  import opened CacheInventory

  /** A jar of this hash and size stands in some directory of the cache. */
  predicate Stands(cache: Cache, sha1: string, size: nat)
  {
    && |sha1| == 40 && (forall c :: c in sha1 ==> IsHexDigit(c))
    && cache.Present?
    && exists d :: d in cache.entries && cache.entries[d].Folder?
         && sha1 + ".jar" in cache.entries[d].files && cache.entries[d].files[sha1 + ".jar"] == size
  }

  predicate Behind(after: Option<string>, sha1: string)
  {
    after.Some? ==> Less(after.value, sha1)
  }

  lemma AllPastIs(cache: Cache, after: Option<string>, s: string)
    ensures s in AllPast(cache, after) <==> Behind(after, s) && exists size :: Stands(cache, s, size)
  {
    if cache.Present? {
      forall d | d in FolderNames(cache) ensures s in HashesIn(cache.entries[d].files, after) <==>
          IsSha1(s) && JarName(s) in cache.entries[d].files && After(s, after) {
        HashHasFile(cache.entries[d].files, after);
      }
    }
    hide HashesIn;
    if s in AllPast(cache, after) {
      var d :| d in FolderNames(cache) && s in HashesIn(cache.entries[d].files, after);
      assert Stands(cache, s, cache.entries[d].files[JarName(s)]);
    }
    if Behind(after, s) && exists size :: Stands(cache, s, size) {
      var size :| Stands(cache, s, size);
      var d :| d in cache.entries && cache.entries[d].Folder?
        && s + ".jar" in cache.entries[d].files && cache.entries[d].files[s + ".jar"] == size;
      assert d in FolderNames(cache) && s in HashesIn(cache.entries[d].files, after);
    }
  }

  /** The sizes listed are those of the jars, which stand in one place each. */
  lemma ListedStands(cache: Cache, s: string, size: nat)
    requires ShardCorrect(cache) && Held(cache, s) && Stands(cache, s, size)
    ensures Listed(cache, s) == CacheInventoryEntry(s, size)
  {
    var d :| d in cache.entries && cache.entries[d].Folder?
      && s + ".jar" in cache.entries[d].files && cache.entries[d].files[s + ".jar"] == size;
    var name := JarName(s);
    assert name[..|name| - 4] == s && IsJarName(name) && Stem(name) == s;
    assert Shard(s) == d;
  }

  /** A page lists jars of the cache past the cursor with their sizes, in ascending
      order and none twice; it misses a jar only when it is full, and then only jars
      behind its last. */
  lemma PageReads(cache: Cache, after: Option<string>, take: Option<nat>)
    requires ShardCorrect(cache)
    ensures forall s :: s in Page(cache, after, take) ==> Held(cache, s)
    ensures var page := ListAll(cache, Page(cache, after, take));
            && (forall i :: 0 <= i < |page| ==>
                  Stands(cache, page[i].sha1, page[i].sizeBytes) && Behind(after, page[i].sha1))
            && (forall i, j :: 0 <= i < j < |page| ==> Less(page[i].sha1, page[j].sha1))
            && (take.Some? ==> |page| <= take.value)
            && forall s, size :: Stands(cache, s, size) && Behind(after, s) ==> Accounted(page, take, s, size)
  {
    PageIsHeld(cache, after, take);
    var hashes := Page(cache, after, take);
    var page := ListAll(cache, hashes);
    PageIsFront(cache, after, take);
    forall i | 0 <= i < |page| ensures Stands(cache, page[i].sha1, page[i].sizeBytes) && Behind(after, page[i].sha1) {
      EntryStands(cache, after, take, i);
    }
    forall s, size | Stands(cache, s, size) && Behind(after, s) ensures Accounted(page, take, s, size) {
      JarIsAccounted(cache, after, take, s, size);
    }
    hide Page, AllPast, ShardCorrect, Stands, Behind, Less, Accounted, Held;
    assert forall i, j :: 0 <= i < j < |hashes| ==> Less(hashes[i], hashes[j]);
  }

  /** On the page, or behind a full one. */
  predicate Accounted(page: seq<CacheInventoryEntry>, take: Option<nat>, s: string, size: nat)
  {
    || CacheInventoryEntry(s, size) in page
    || (take.Some? && |page| == take.value && forall i :: 0 <= i < |page| ==> Less(page[i].sha1, s))
  }

  lemma PageIsHeld(cache: Cache, after: Option<string>, take: Option<nat>)
    requires ShardCorrect(cache)
    ensures forall s :: s in Page(cache, after, take) ==> Held(cache, s)
  {
    PastIsHeld(cache, FolderNames(cache), after);
    assert forall s :: s in Page(cache, after, take) ==> s in SortedKeys(AllPast(cache, after));
    hide Past, Held, ShardCorrect;
  }

  lemma EntryStands(cache: Cache, after: Option<string>, take: Option<nat>, i: nat)
    requires ShardCorrect(cache) && i < |Page(cache, after, take)|
    requires forall s :: s in Page(cache, after, take) ==> Held(cache, s)
    ensures var e := ListAll(cache, Page(cache, after, take))[i];
            Stands(cache, e.sha1, e.sizeBytes) && Behind(after, e.sha1)
  {
    var s := Page(cache, after, take)[i];
    assert s in SortedKeys(AllPast(cache, after));
    AllPastIs(cache, after, s);
    hide Page, AllPast, ShardCorrect, Less, Behind;
    var size :| Stands(cache, s, size);
    ListedStands(cache, s, size);
  }

  lemma JarIsAccounted(cache: Cache, after: Option<string>, take: Option<nat>, s: string, size: nat)
    requires ShardCorrect(cache) && Stands(cache, s, size) && Behind(after, s)
    requires forall t :: t in Page(cache, after, take) ==> Held(cache, t)
    ensures Accounted(ListAll(cache, Page(cache, after, take)), take, s, size)
  {
    var hashes, all := Page(cache, after, take), SortedKeys(AllPast(cache, after));
    AllPastIs(cache, after, s);
    PageIsFront(cache, after, take);
    hide *;
    assert s in all;
    if s in hashes {
      OnThePage(cache, hashes, take, s, size);
    } else {
      BehindThePage(all, |hashes|, s);
      PastThePage(cache, hashes, take, s, size);
    }
  }

  lemma OnThePage(cache: Cache, hashes: seq<string>, take: Option<nat>, s: string, size: nat)
    requires ShardCorrect(cache) && Stands(cache, s, size) && s in hashes
    requires forall t :: t in hashes ==> Held(cache, t)
    ensures Accounted(ListAll(cache, hashes), take, s, size)
  {
    ListedStands(cache, s, size);
    hide Stands, ShardCorrect;
    var i :| 0 <= i < |hashes| && hashes[i] == s;
    assert ListAll(cache, hashes)[i] == CacheInventoryEntry(s, size);
  }

  lemma PastThePage(cache: Cache, hashes: seq<string>, take: Option<nat>, s: string, size: nat)
    requires (forall t :: t in hashes ==> Held(cache, t)) && take.Some? && |hashes| == take.value
    requires forall i :: 0 <= i < |hashes| ==> Less(hashes[i], s)
    ensures Accounted(ListAll(cache, hashes), take, s, size)
  {
    hide Less, Held;
  }

  lemma PageIsFront(cache: Cache, after: Option<string>, take: Option<nat>)
    ensures var (hashes, all) := (Page(cache, after, take), SortedKeys(AllPast(cache, after)));
            && |hashes| <= |all| && hashes == all[..|hashes|] && Increasing(all)
            && (take.Some? ==> |hashes| <= take.value)
            && (|hashes| < |all| ==> take.Some? && |hashes| == take.value)
  {
    hide AllPast, SortedKeys;
  }

  lemma BehindThePage(all: seq<string>, n: nat, s: string)
    requires Increasing(all) && n <= |all| && s in all && s !in all[..n]
    ensures n < |all| && forall i :: 0 <= i < n ==> Less(all[i], s)
  {
    var j :| 0 <= j < |all| && all[j] == s;
    assert forall i :: 0 <= i < n ==> all[i] == all[..n][i] && all[..n][i] != s;
  }
}
