/** A pack's history (src/authoring/commits.rs, and the commit files of
    src/storage.rs): content-addressed commits, written snapshot first and `HEAD`
    last, and a log that follows parents. */
module CommitStore {
  import opened Base
  import opened Texts
  import opened Sorting

  datatype Commit = Commit(
    id: string,
    parent: Option<string>,
    author: string,
    message: string,
    at: string,
    configRev: string,
    contributors: seq<string>)

  /** What the id of a commit covers; the snapshot as the JSON text that is hashed. */
  datatype Content = Content(parent: Option<string>, author: string, at: string, message: string, snapshot: string)

  function ParentText(parent: Option<string>): string
  {
    if parent.Some? then parent.value else ""
  }

  function Preimage(c: Content): string
  {
    ParentText(c.parent) + "\n" + c.author + "\n" + c.at + "\n" + c.message + "\n" + c.snapshot
  }

  /** `make_commit`, appending field by field. */
  method MakeCommit(hash: string -> string, c: Content, rev: string, contributors: seq<string>) returns (r: Commit)
    ensures r == Commit(hash(Preimage(c)), c.parent, c.author, c.message, c.at, rev, contributors)
  {
    var preimage := if c.parent.Some? then c.parent.value else "";
    preimage := preimage + "\n";
    preimage := preimage + c.author;
    preimage := preimage + "\n";
    preimage := preimage + c.at;
    preimage := preimage + "\n";
    preimage := preimage + c.message;
    preimage := preimage + "\n";
    preimage := preimage + c.snapshot;
    r := Commit(hash(preimage), c.parent, c.author, c.message, c.at, rev, contributors);
  }

  // ----- What the preimage determines ---------------------------------------------------

  /** No newline where one would shift the fields, and no parent with an empty name. */
  predicate Clean(c: Content)
  {
    && c.parent != Some("") && '\n' !in ParentText(c.parent) && '\n' !in c.author && '\n' !in c.at
    && '\n' !in c.snapshot
  }

  function Head(c: Content): string
  {
    ParentText(c.parent) + "\n" + (c.author + "\n" + (c.at + "\n" + c.message))
  }

  lemma PreimageSplits(c: Content)
    ensures Preimage(c) == Head(c) + "\n" + c.snapshot
  {
    var p, a, t, m := ParentText(c.parent), c.author, c.at, c.message;
    assert p + "\n" + a + "\n" + t + "\n" + m == p + "\n" + (a + "\n" + (t + "\n" + m));
  }

  /** Two clean contents with one preimage are one content. */
  lemma PreimageIsInjective(x: Content, y: Content)
    requires Clean(x) && Clean(y) && Preimage(x) == Preimage(y)
    ensures x == y
  {
    PreimageSplits(x);
    PreimageSplits(y);
    LastCut('\n', Head(x), Head(y), x.snapshot, y.snapshot);
    FirstCut('\n', ParentText(x.parent), ParentText(y.parent),
             x.author + "\n" + (x.at + "\n" + x.message), y.author + "\n" + (y.at + "\n" + y.message));
    FirstCut('\n', x.author, y.author, x.at + "\n" + x.message, y.at + "\n" + y.message);
    FirstCut('\n', x.at, y.at, x.message, y.message);
  }

  /** Every content reads back as a clean one: its preimage, cut at the first three
      newlines and the last. */
  lemma CleanReading(c: Content) returns (clean: Content)
    ensures Clean(clean) && Preimage(clean) == Preimage(c)
  {
    var s := Preimage(c);
    var parts := Split(s, '\n');
    FivePieces(c);
    JoinSplit(s, '\n');
    var n := |parts| - 1;
    assert forall i :: 0 <= i < |parts| ==> parts[i] in parts;
    clean := Content(
      if parts[0] == "" then None else Some(parts[0]), parts[1], parts[2], Join(parts[3..n], "\n"), parts[n]);
    assert ParentText(clean.parent) == parts[0];
    PiecesJoin(parts);
  }

  lemma FivePieces(c: Content)
    ensures |Split(Preimage(c), '\n')| >= 5
  {
    hide Split;
    var p, a, t, m := ParentText(c.parent), c.author, c.at, c.message;
    SplitAround(p, '\n', a);
    SplitAround(p + "\n" + a, '\n', t);
    SplitAround(p + "\n" + a + "\n" + t, '\n', m);
    SplitAround(p + "\n" + a + "\n" + t + "\n" + m, '\n', c.snapshot);
  }

  lemma PiecesJoin(parts: seq<string>)
    requires |parts| >= 5
    ensures Join(parts, "\n")
         == parts[0] + "\n" + parts[1] + "\n" + parts[2] + "\n"
            + Join(parts[3..|parts| - 1], "\n") + "\n" + parts[|parts| - 1]
  {
    hide Join;
    var n := |parts| - 1;
    CutPieces(parts);
    JoinPieces(parts[0], parts[1], parts[2], parts[3..n], parts[n]);
  }

  lemma CutPieces<T>(parts: seq<T>)
    requires |parts| >= 5
    ensures parts == [parts[0], parts[1], parts[2]] + parts[3..|parts| - 1] + [parts[|parts| - 1]]
  {
  }

  lemma JoinPieces(a: string, b: string, c: string, mid: seq<string>, last: string)
    requires mid != []
    ensures Join([a, b, c] + mid + [last], "\n") == a + "\n" + b + "\n" + c + "\n" + Join(mid, "\n") + "\n" + last
  {
    JoinAppend([a, b, c] + mid, [last], "\n");
    JoinAppend([a, b, c], mid, "\n");
    JoinThree(a, b, c);
    hide Join;
    assert Join([last], "\n") == last by { JoinOne(last); }
  }

  lemma JoinOne(a: string)
    ensures Join([a], "\n") == a
  {
  }

  lemma JoinThree(a: string, b: string, c: string)
    ensures Join([a, b, c], "\n") == a + "\n" + b + "\n" + c
  {
    JoinCons(a, [b, c], "\n");
    JoinCons(b, [c], "\n");
    assert [a, b, c] == [a] + [b, c] && [b, c] == [b] + [c];
  }

  /** The preimage names its content among the clean ones exactly when the content
      is clean: a newline in the parent, author, time or snapshot makes two
      different commits one id. */
  lemma PreimageNamesItsContentIff(c: Content)
    ensures Clean(c) <==> forall d :: Clean(d) && Preimage(d) == Preimage(c) ==> d == c
  {
    var clean := CleanReading(c);
    if Clean(c) {
      forall d | Clean(d) && Preimage(d) == Preimage(c) ensures d == c {
        PreimageIsInjective(d, c);
      }
    }
  }

  /** For example an author with a newline in the name. */
  lemma ShiftedFieldsCollide(
    parent: Option<string>, a: string, b: string, at: string, message: string, snapshot: string)
    ensures Preimage(Content(parent, a + "\n" + b, at, message, snapshot))
         == Preimage(Content(parent, a, b, at + "\n" + message, snapshot))
  {
    var p := ParentText(parent);
    assert p + "\n" + (a + "\n" + b) + "\n" + at + "\n" + message + "\n" + snapshot
        == p + "\n" + a + "\n" + b + "\n" + (at + "\n" + message) + "\n" + snapshot;
  }

  // ----- The files ------------------------------------------------------------------------

  /** The form of a SHA-1 in text: forty hexadecimal characters. */
  predicate IsCommitId(s: string)
  {
    |s| == 40 && forall c :: c in s ==> IsHexDigit(c)
  }

  /** `packs/<id>/authoring/commits`: snapshots and metadata by id, `HEAD`, and
      who saved since. */
  datatype Files = Files(
    snapshots: map<string, string>, metas: map<string, Commit>, head: Option<string>, pending: set<string>)

  const EMPTY := Files(map[], map[], None, {})

  /** The writes of a save behind the first `done`, up to the `writes`-th of the four. */
  function Rest(f: Files, c: Commit, snapshot: string, done: nat, writes: nat): Files
  {
    Files(
      if done < 1 <= writes then f.snapshots[c.id := snapshot] else f.snapshots,
      if done < 2 <= writes then f.metas[c.id := c] else f.metas,
      if done < 3 <= writes then Some(c.id) else f.head,
      if done < 4 <= writes then {} else f.pending)
  }

  /** The first `writes` of the four writes of a save. */
  function Save(f: Files, c: Commit, snapshot: string, writes: nat): Files
  {
    Rest(f, c, snapshot, 0, writes)
  }

  function Load(f: Files, id: string): Option<Commit>
  {
    if IsCommitId(id) && id in f.metas then Some(f.metas[id]) else None
  }

  function CommitHead(f: Files): Option<string>
  {
    if f.head.Some? && IsCommitId(Trim(f.head.value)) then Some(Trim(f.head.value)) else None
  }

  /** Parents from `next` on, while they load, at most `limit`. */
  function Walk(f: Files, next: Option<string>, limit: nat): (r: seq<Commit>)
    ensures |r| <= limit
    decreases limit
  {
    if limit == 0 || next.None? || Load(f, next.value).None? then []
    else
      var c := Load(f, next.value).value;
      [c] + Walk(f, c.parent, limit - 1)
  }

  function Log(f: Files, after: Option<string>, limit: nat): seq<Commit>
  {
    match after
    case Some(id) => if Load(f, id).Some? then Walk(f, Load(f, id).value.parent, limit) else []
    case None => Walk(f, CommitHead(f), limit)
  }

  /** The commit directory of one pack. `writes` says how many of a save's writes
      are done before a crash; all four, or more, is a save that finished. */
  class CommitDir {
    var snapshots: map<string, string>
    var metas: map<string, Commit>
    var head: Option<string>
    var pending: set<string>

    function Contents(): Files
      reads this
    {
      Files(snapshots, metas, head, pending)
    }

    constructor ()
      ensures Contents() == EMPTY
    {
      snapshots, metas, head, pending := map[], map[], None, {};
    }

    method SaveCommit(commit: Commit, snapshot: string, writes: nat) returns (accepted: bool)
      modifies this
      ensures accepted <==> IsCommitId(commit.id)
      ensures Contents() == if accepted then Save(old(Contents()), commit, snapshot, writes) else old(Contents())
    {
      if !IsCommitId(commit.id) {
        return false;
      }
      accepted := true;
      if writes == 0 {
        return;
      }
      snapshots := snapshots[commit.id := snapshot];
      if writes == 1 {
        return;
      }
      metas := metas[commit.id := commit];
      if writes == 2 {
        return;
      }
      head := Some(commit.id);
      if writes == 3 {
        return;
      }
      pending := {};
    }

    method CommitLog(after: Option<string>, limit: nat) returns (out: seq<Commit>)
      ensures out == Log(Contents(), after, limit)
    {
      out := [];
      var next: Option<string>;
      if after.Some? {
        var c := Load(Contents(), after.value);
        if c.None? {
          return;
        }
        next := c.value.parent;
      } else {
        next := CommitHead(Contents());
      }
      ghost var start := next;
      while next.Some?
        invariant |out| <= limit
        invariant Walk(Contents(), start, limit) == out + Walk(Contents(), next, limit - |out|)
        decreases limit - |out|, if next.Some? then 1 else 0
      {
        if |out| >= limit {
          break;
        }
        var c := Load(Contents(), next.value);
        if c.None? {
          break;
        }
        assert Walk(Contents(), next, limit - |out|) == [c.value] + Walk(Contents(), c.value.parent, limit - |out| - 1);
        next := c.value.parent;
        out := out + [c.value];
      }
      assert out + [] == out;
    }
  }

  // ----- What every save and every crash keeps ------------------------------------------------

  function ContentOf(c: Commit, snapshot: string): Content
  {
    Content(c.parent, c.author, c.at, c.message, snapshot)
  }

  /** Metadata whose snapshot is there, whose id is the hash of both, and whose
      parent was stored before it. */
  ghost predicate Stored(f: Files, hash: string -> string, seen: set<string>, order: seq<string>, i: nat)
    requires i < |order|
  {
    var k := order[i];
    && k in f.metas && k in f.snapshots && f.metas[k].id == k && IsCommitId(k)
    && Clean(ContentOf(f.metas[k], f.snapshots[k]))
    && Preimage(ContentOf(f.metas[k], f.snapshots[k])) in seen
    && hash(Preimage(ContentOf(f.metas[k], f.snapshots[k]))) == k
    && (f.metas[k].parent.Some? ==> f.metas[k].parent.value in order[..i])
  }

  /** The commits in the order their metadata first landed; `seen` holds the
      preimages of every commit ever made here. */
  ghost predicate SoundIn(f: Files, hash: string -> string, seen: set<string>, order: seq<string>)
  {
    && (forall k :: k in f.metas <==> k in order)
    && (forall i :: 0 <= i < |order| ==> order[i] !in order[..i])
    && (forall i :: 0 <= i < |order| ==> Stored(f, hash, seen, order, i))
    && (f.head.Some? ==> f.head.value in f.metas)
  }

  ghost predicate Sound(f: Files, hash: string -> string, seen: set<string>)
  {
    exists order :: SoundIn(f, hash, seen, order)
  }

  /** No two of these preimages hash alike. */
  predicate NoCollision(hash: string -> string, seen: set<string>)
  {
    forall p, q :: p in seen && q in seen && hash(p) == hash(q) ==> p == q
  }

  /** A commit as `make_commit` makes it. */
  predicate Made(hash: string -> string, c: Commit, snapshot: string)
  {
    Clean(ContentOf(c, snapshot)) && c.id == hash(Preimage(ContentOf(c, snapshot))) && IsCommitId(c.id)
  }

  /** One made on a parent that is stored or absent. */
  predicate Follows(f: Files, hash: string -> string, c: Commit, snapshot: string)
  {
    Made(hash, c, snapshot) && (c.parent.Some? ==> c.parent.value in f.metas)
  }

  /** A commit made again is the commit that is stored. */
  lemma SameIdSameContent(
    f: Files, hash: string -> string, seen: set<string>, order: seq<string>, c: Commit, snapshot: string)
    requires SoundIn(f, hash, seen, order) && NoCollision(hash, seen)
    requires Made(hash, c, snapshot) && Preimage(ContentOf(c, snapshot)) in seen && c.id in f.metas
    ensures c.id in f.snapshots && ContentOf(f.metas[c.id], f.snapshots[c.id]) == ContentOf(c, snapshot)
  {
    var i :| 0 <= i < |order| && order[i] == c.id;
    assert Stored(f, hash, seen, order, i);
    PreimageIsInjective(ContentOf(f.metas[c.id], f.snapshots[c.id]), ContentOf(c, snapshot));
  }

  /** However many writes land, `HEAD` and every stored commit keep their snapshot,
      their metadata and their whole chain. */
  lemma SaveKeepsSound(f: Files, hash: string -> string, seen: set<string>, c: Commit, snapshot: string, writes: nat)
    requires Sound(f, hash, seen) && NoCollision(hash, seen)
    requires Follows(f, hash, c, snapshot) && Preimage(ContentOf(c, snapshot)) in seen
    ensures Sound(Save(f, c, snapshot, writes), hash, seen)
  {
    var order :| SoundIn(f, hash, seen, order);
    var g := Save(f, c, snapshot, writes);
    if c.id in f.metas {
      SameIdSameContent(f, hash, seen, order, c, snapshot);
      AgainKeepsSound(f, hash, seen, order, c, snapshot, writes);
    } else if writes < 2 {
      EarlyCrashKeepsSound(f, hash, seen, order, c, snapshot, writes);
    } else {
      NewKeepsSound(f, hash, seen, order, c, snapshot, writes);
    }
  }

  lemma AgainKeepsSound(
    f: Files, hash: string -> string, seen: set<string>, order: seq<string>, c: Commit, snapshot: string, writes: nat)
    requires SoundIn(f, hash, seen, order) && c.id in f.metas && c.id in f.snapshots
    requires ContentOf(f.metas[c.id], f.snapshots[c.id]) == ContentOf(c, snapshot)
    ensures SoundIn(Save(f, c, snapshot, writes), hash, seen, order)
  {
    hide Preimage, Clean, IsCommitId;
    var g := Save(f, c, snapshot, writes);
    forall i | 0 <= i < |order| ensures Stored(g, hash, seen, order, i) {
      assert Stored(f, hash, seen, order, i);
    }
  }

  lemma EarlyCrashKeepsSound(
    f: Files, hash: string -> string, seen: set<string>, order: seq<string>, c: Commit, snapshot: string, writes: nat)
    requires SoundIn(f, hash, seen, order) && c.id !in f.metas && writes < 2
    ensures SoundIn(Save(f, c, snapshot, writes), hash, seen, order)
  {
    hide Preimage, Clean, IsCommitId;
    var g := Save(f, c, snapshot, writes);
    forall i | 0 <= i < |order| ensures Stored(g, hash, seen, order, i) {
      assert Stored(f, hash, seen, order, i);
      assert order[i] in order;
    }
  }

  lemma NewKeepsSound(
    f: Files, hash: string -> string, seen: set<string>, order: seq<string>, c: Commit, snapshot: string, writes: nat)
    requires SoundIn(f, hash, seen, order) && c.id !in f.metas && writes >= 2
    requires Follows(f, hash, c, snapshot) && Preimage(ContentOf(c, snapshot)) in seen
    ensures SoundIn(Save(f, c, snapshot, writes), hash, seen, order + [c.id])
  {
    hide Preimage, Clean, IsCommitId;
    var g := Save(f, c, snapshot, writes);
    var next := order + [c.id];
    forall i | 0 <= i < |next| ensures Stored(g, hash, seen, next, i) && next[i] !in next[..i] {
      if i < |order| {
        assert Stored(f, hash, seen, order, i);
        assert order[i] in order && next[..i] == order[..i];
      } else {
        assert next[..i] == order;
      }
    }
  }

  // ----- Whole runs -------------------------------------------------------------------------------

  /** Whoever saves a commit, under the lock of the config: `done` of its four writes are
      done. */
  datatype Saver = Idle | Saving(commit: Commit, snapshot: string, done: nat)

  datatype Store = Store(files: Files, saver: Saver)

  /** One write of a save, or one file unlinked by a deletion of the pack, which takes no
      lock; `Stop` is a crash or a failed write. */
  datatype Event =
    | Begin(commit: Commit, snapshot: string)
    | Write
    | Stop
    | UnlinkSnapshot(id: string)
    | UnlinkMeta(id: string)
    | UnlinkHead
    | UnlinkPending
  {
    predicate Unlinks()
    {
      UnlinkSnapshot? || UnlinkMeta? || UnlinkHead? || UnlinkPending?
    }
  }

  /** A commit made on the `HEAD` of the moment, or on a stored commit. */
  predicate Fits(f: Files, hash: string -> string, c: Commit, snapshot: string)
  {
    Made(hash, c, snapshot) && (c.parent.Some? ==> c.parent.value in f.metas || c.parent == CommitHead(f))
  }

  function Unlinked(f: Files, e: Event): Option<Files>
    requires e.Unlinks()
  {
    match e
    case UnlinkSnapshot(id) => if id in f.snapshots then Some(f.(snapshots := f.snapshots - {id})) else None
    case UnlinkMeta(id) => if id in f.metas then Some(f.(metas := f.metas - {id})) else None
    case UnlinkHead => if f.head.Some? then Some(f.(head := None)) else None
    case UnlinkPending => Some(f.(pending := {}))
  }

  function Written(s: Store): Store
    requires s.saver.Saving?
  {
    var Saving(c, snapshot, done) := s.saver;
    Store(Rest(s.files, c, snapshot, done, done + 1), if done >= 3 then Idle else Saving(c, snapshot, done + 1))
  }

  function Step(s: Store, hash: string -> string, e: Event): Option<Store>
  {
    match e
    case Begin(c, snapshot) =>
      if s.saver.Idle? && Fits(s.files, hash, c, snapshot) then Some(s.(saver := Saving(c, snapshot, 0))) else None
    case Write => if s.saver.Saving? then Some(Written(s)) else None
    case Stop => if s.saver.Saving? then Some(s.(saver := Idle)) else None
    case _ => match Unlinked(s.files, e) case None => None case Some(f) => Some(s.(files := f))
  }

  /** The writes of an undisturbed save, one by one. */
  lemma SaveInWrites(f: Files, c: Commit, snapshot: string, done: nat)
    requires done < 4
    ensures Written(Store(Save(f, c, snapshot, done), Saving(c, snapshot, done))).files
         == Save(f, c, snapshot, done + 1)
  {
  }

  /** A sound store, and in the middle of a save a commit that was made. */
  ghost predicate Good(s: Store, hash: string -> string, seen: set<string>)
  {
    && Sound(s.files, hash, seen)
    && (s.saver.Saving? ==>
          var Saving(c, snapshot, done) := s.saver;
          && Made(hash, c, snapshot) && Preimage(ContentOf(c, snapshot)) in seen && done < 4
          && (done >= 1 && c.id in s.files.snapshots ==> s.files.snapshots[c.id] == snapshot))
  }

  /** The metadata about to be written would lack its snapshot or its parent, or the
      `HEAD` its metadata. */
  predicate Torn(s: Store)
  {
    && s.saver.Saving?
    && var Saving(c, _, done) := s.saver;
       || (done == 1 && (c.id !in s.files.snapshots || (c.parent.Some? && c.parent.value !in s.files.metas)))
       || (done == 2 && c.id !in s.files.metas)
  }

  /** `HEAD` or a stored commit refers to it. */
  predicate Needed(f: Files, id: string)
  {
    f.head == Some(id) || exists k :: k in f.metas && f.metas[k].parent == Some(id)
  }

  /** The step writes what something is missing for, or unlinks what is needed: the
      snapshot of a stored commit, `HEAD`'s metadata or those of a stored parent. */
  predicate Breaks(s: Store, e: Event)
  {
    match e
    case Write => Torn(s)
    case UnlinkSnapshot(id) => id in s.files.metas
    case UnlinkMeta(id) => Needed(s.files, id)
    case _ => false
  }

  lemma StoredLeads(f: Files, hash: string -> string, seen: set<string>, order: seq<string>, k: string)
    requires SoundIn(f, hash, seen, order) && k in f.metas
    ensures k in f.snapshots
    ensures f.metas[k].parent.Some? ==> f.metas[k].parent.value in f.metas && f.metas[k].parent.value != k
  {
    var i :| 0 <= i < |order| && order[i] == k;
    assert Stored(f, hash, seen, order, i);
    assert order[i] !in order[..i] && forall x :: x in order[..i] ==> x in order;
  }

  /** What soundness means for one stored commit. */
  lemma SoundLeads(f: Files, hash: string -> string, seen: set<string>, k: string)
    requires Sound(f, hash, seen) && k in f.metas
    ensures k in f.snapshots
    ensures f.metas[k].parent.Some? ==> f.metas[k].parent.value in f.metas && f.metas[k].parent.value != k
  {
    var order :| SoundIn(f, hash, seen, order);
    StoredLeads(f, hash, seen, order, k);
  }

  lemma MetaWrite(f: Files, hash: string -> string, seen: set<string>, c: Commit, snapshot: string)
    requires Sound(f, hash, seen) && NoCollision(hash, seen)
    requires Made(hash, c, snapshot) && Preimage(ContentOf(c, snapshot)) in seen
    requires c.id in f.snapshots ==> f.snapshots[c.id] == snapshot
    ensures Sound(Rest(f, c, snapshot, 1, 2), hash, seen)
       <==> c.id in f.snapshots && (c.parent.Some? ==> c.parent.value in f.metas)
  {
    var g := Rest(f, c, snapshot, 1, 2);
    if c.id in f.snapshots && (c.parent.Some? ==> c.parent.value in f.metas) {
      SaveKeepsSound(f, hash, seen, c, snapshot, 2);
      assert Save(f, c, snapshot, 2) == g by { assert f.snapshots[c.id := snapshot] == f.snapshots; }
    }
    if Sound(g, hash, seen) {
      SoundLeads(g, hash, seen, c.id);
    }
  }

  lemma HeadWrite(f: Files, hash: string -> string, seen: set<string>, c: Commit, snapshot: string)
    requires Sound(f, hash, seen)
    ensures Sound(Rest(f, c, snapshot, 2, 3), hash, seen) <==> c.id in f.metas
  {
    var g := Rest(f, c, snapshot, 2, 3);
    var order :| SoundIn(f, hash, seen, order);
    if c.id in f.metas {
      SameFilesSound(f, g, hash, seen, order);
    }
  }

  /** Soundness does not look further than snapshots, metadata and where `HEAD` is. */
  lemma SameFilesSound(f: Files, g: Files, hash: string -> string, seen: set<string>, order: seq<string>)
    requires SoundIn(f, hash, seen, order) && (g.head.Some? ==> g.head.value in g.metas)
    requires g.metas == f.metas
    requires forall k :: k in f.metas && k in f.snapshots ==> k in g.snapshots && g.snapshots[k] == f.snapshots[k]
    ensures Sound(g, hash, seen)
  {
    hide Preimage, Clean, IsCommitId;
    forall i | 0 <= i < |order| ensures Stored(g, hash, seen, order, i) {
      assert Stored(f, hash, seen, order, i);
    }
    assert SoundIn(g, hash, seen, order);
  }

  lemma WriteKeepsSoundIff(s: Store, hash: string -> string, seen: set<string>)
    requires Good(s, hash, seen) && NoCollision(hash, seen) && s.saver.Saving?
    ensures Sound(Written(s).files, hash, seen) <==> !Torn(s)
  {
    var Saving(c, snapshot, done) := s.saver;
    var f := s.files;
    var order :| SoundIn(f, hash, seen, order);
    hide Preimage, Made, NoCollision, Stored;
    if done == 0 {
      if c.id in f.metas {
        SameIdSameContent(f, hash, seen, order, c, snapshot);
      }
      SameFilesSound(f, Written(s).files, hash, seen, order);
    } else if done == 1 {
      MetaWrite(f, hash, seen, c, snapshot);
    } else if done == 2 {
      HeadWrite(f, hash, seen, c, snapshot);
    } else {
      SameFilesSound(f, Written(s).files, hash, seen, order);
    }
  }

  lemma SnapshotUnlinked(f: Files, hash: string -> string, seen: set<string>, id: string)
    requires Sound(f, hash, seen) && id in f.snapshots
    ensures Sound(f.(snapshots := f.snapshots - {id}), hash, seen) <==> id !in f.metas
  {
    var g := f.(snapshots := f.snapshots - {id});
    if id !in f.metas {
      var order :| SoundIn(f, hash, seen, order);
      SameFilesSound(f, g, hash, seen, order);
    } else if Sound(g, hash, seen) {
      SoundLeads(g, hash, seen, id);
    }
  }

  lemma MetaUnlinked(f: Files, hash: string -> string, seen: set<string>, id: string)
    requires Sound(f, hash, seen) && id in f.metas
    ensures Sound(f.(metas := f.metas - {id}), hash, seen) <==> !Needed(f, id)
  {
    var g := f.(metas := f.metas - {id});
    if Needed(f, id) {
      if Sound(g, hash, seen) {
        if f.head == Some(id) {
          HeadIsStored(g, hash, seen);
        } else {
          var k :| k in f.metas && f.metas[k].parent == Some(id);
          SoundLeads(f, hash, seen, k);
          SoundLeads(g, hash, seen, k);
        }
      }
    } else {
      var order :| SoundIn(f, hash, seen, order);
      OneLess(f, hash, seen, order, id);
    }
  }

  /** The order of what is stored, without one commit nothing needs. */
  lemma OneLess(f: Files, hash: string -> string, seen: set<string>, order: seq<string>, id: string)
    requires SoundIn(f, hash, seen, order) && id in f.metas && !Needed(f, id)
    ensures Sound(f.(metas := f.metas - {id}), hash, seen)
  {
    var g := f.(metas := f.metas - {id});
    var n :| 0 <= n < |order| && order[n] == id;
    var less := order[..n] + order[n + 1..];
    hide Preimage, Clean, IsCommitId;
    forall i | 0 <= i < |less| ensures Stored(g, hash, seen, less, i) && less[i] !in less[..i] && less[i] != id {
      var j := if i < n then i else i + 1;
      assert less[i] == order[j] && Stored(f, hash, seen, order, j) && order[j] !in order[..j];
      assert forall x :: x in less[..i] <==> x in order[..j] && x != id by { LessPrefix(order, n, i); }
      assert order[j] != id by {
        assert j > n ==> order[n] in order[..j];
        assert j < n ==> order[j] in order[..n];
      }
      assert order[j] in order;
    }
    forall k ensures k in g.metas <==> k in less {
      assert k in order <==> k in less || k == id;
      assert id !in less;
    }
    assert SoundIn(g, hash, seen, less);
  }

  lemma LessPrefix(order: seq<string>, n: nat, i: nat)
    requires n < |order| && i <= |order| - 1 && forall m :: 0 <= m < |order| ==> order[m] !in order[..m]
    ensures var less := order[..n] + order[n + 1..];
            forall x :: x in less[..i] <==> x in order[..if i < n then i else i + 1] && x != order[n]
  {
    var less := order[..n] + order[n + 1..];
    if i < n {
      assert less[..i] == order[..i];
      assert order[n] !in order[..n] && forall x :: x in order[..i] ==> x in order[..n];
    } else {
      assert less[..i] == order[..n] + order[n + 1..i + 1];
      assert order[..i + 1] == order[..n] + [order[n]] + order[n + 1..i + 1];
      forall m | n < m < |order| ensures order[m] != order[n] {
        assert order[n] in order[..m];
      }
    }
  }

  /** A step leaves a store sound exactly when it neither writes what something is
      missing for nor unlinks what is needed. */
  lemma StepKeepsSoundIff(s: Store, hash: string -> string, seen: set<string>, e: Event)
    requires Good(s, hash, seen) && NoCollision(hash, seen) && Step(s, hash, e).Some?
    ensures Sound(Step(s, hash, e).value.files, hash, seen) <==> !Breaks(s, e)
  {
    hide Made, NoCollision, Preimage, SoundIn;
    match e
    case Begin(_, _) =>
    case Stop =>
    case Write => WriteKeepsSoundIff(s, hash, seen);
    case UnlinkSnapshot(id) => SnapshotUnlinked(s.files, hash, seen, id);
    case UnlinkMeta(id) => MetaUnlinked(s.files, hash, seen, id);
    case UnlinkHead => NoHead(s.files, hash, seen);
    case UnlinkPending => NoHead(s.files, hash, seen);
  }

  lemma NoHead(f: Files, hash: string -> string, seen: set<string>)
    requires Sound(f, hash, seen)
    ensures Sound(f.(head := None), hash, seen) && Sound(f.(pending := {}), hash, seen)
  {
    var order :| SoundIn(f, hash, seen, order);
    SameFilesSound(f, f.(head := None), hash, seen, order);
    SameFilesSound(f, f.(pending := {}), hash, seen, order);
  }

  /** A step that leaves the store sound leaves it good. */
  lemma StepKeepsGood(s: Store, hash: string -> string, seen: set<string>, e: Event)
    requires Good(s, hash, seen) && Step(s, hash, e).Some? && Sound(Step(s, hash, e).value.files, hash, seen)
    requires e.Begin? ==> Preimage(ContentOf(e.commit, e.snapshot)) in seen
    ensures Good(Step(s, hash, e).value, hash, seen)
  {
    hide Sound, Made, Preimage;
  }

  ghost predicate Trace(states: seq<Store>, hash: string -> string, events: seq<Event>)
  {
    && |states| == |events| + 1
    && forall k :: 0 <= k < |events| ==> Step(states[k], hash, events[k]) == Some(states[k + 1])
  }

  /** Of every commit that is begun. */
  function Preimages(events: seq<Event>): set<string>
  {
    set e | e in events && e.Begin? :: Preimage(ContentOf(e.commit, e.snapshot))
  }

  lemma TraceStep(states: seq<Store>, hash: string -> string, seen: set<string>, events: seq<Event>, k: nat)
    requires Trace(states, hash, events) && k < |events| && Preimages(events) <= seen
    ensures |states| == |events| + 1 && Step(states[k], hash, events[k]) == Some(states[k + 1])
    ensures events[k].Begin? ==> Preimage(ContentOf(events[k].commit, events[k].snapshot)) in seen
  {
    assert events[k] in events;
    assert events[k].Begin? ==> Preimage(ContentOf(events[k].commit, events[k].snapshot)) in Preimages(events);
  }

  const START := Store(EMPTY, Idle)

  lemma StartIsGood(hash: string -> string, seen: set<string>)
    ensures Good(START, hash, seen)
  {
    assert SoundIn(EMPTY, hash, seen, []);
  }

  lemma {:induction false} GoodUpTo(
    states: seq<Store>, hash: string -> string, seen: set<string>, events: seq<Event>, k: nat)
    requires Trace(states, hash, events) && k <= |events| && Good(states[0], hash, seen)
    requires NoCollision(hash, seen) && Preimages(events) <= seen
    requires forall j :: 0 <= j < k ==> !Breaks(states[j], events[j])
    ensures Good(states[k], hash, seen)
  {
    if k > 0 {
      GoodUpTo(states, hash, seen, events, k - 1);
      hide *;
      TraceStep(states, hash, seen, events, k - 1);
      StepKeepsSoundIff(states[k - 1], hash, seen, events[k - 1]);
      StepKeepsGood(states[k - 1], hash, seen, events[k - 1]);
    }
  }

  /** A pack's history, through any commits, crashes between any two writes and files
      unlinked at any moment, goes through sound states alone exactly when no step
      breaks one. */
  lemma HistoryIsSoundIff(states: seq<Store>, hash: string -> string, events: seq<Event>)
    requires Trace(states, hash, events) && states[0] == START && NoCollision(hash, Preimages(events))
    ensures (forall k :: 0 <= k <= |events| ==> Sound(states[k].files, hash, Preimages(events)))
       <==> forall k :: 0 <= k < |events| ==> !Breaks(states[k], events[k])
  {
    var seen := Preimages(events);
    StartIsGood(hash, seen);
    if forall k :: 0 <= k < |events| ==> !Breaks(states[k], events[k]) {
      forall k | 0 <= k <= |events| ensures Sound(states[k].files, hash, seen) {
        GoodUpTo(states, hash, seen, events, k);
      }
    }
    if forall k :: 0 <= k <= |events| ==> Sound(states[k].files, hash, seen) {
      forall k | 0 <= k < |events| ensures !Breaks(states[k], events[k]) {
        UnbrokenUpTo(states, hash, seen, events, k);
      }
    }
  }

  lemma {:induction false} UnbrokenUpTo(
    states: seq<Store>, hash: string -> string, seen: set<string>, events: seq<Event>, k: nat)
    requires Trace(states, hash, events) && k < |events| && Good(states[0], hash, seen)
    requires NoCollision(hash, seen) && Preimages(events) <= seen
    requires forall j :: 0 <= j <= |events| ==> Sound(states[j].files, hash, seen)
    ensures Good(states[k], hash, seen) && !Breaks(states[k], events[k])
  {
    assert Sound(states[k].files, hash, seen) && Sound(states[k + 1].files, hash, seen);
    if k > 0 {
      UnbrokenUpTo(states, hash, seen, events, k - 1);
    }
    hide *;
    if k > 0 {
      TraceStep(states, hash, seen, events, k - 1);
      StepKeepsGood(states[k - 1], hash, seen, events[k - 1]);
    }
    TraceStep(states, hash, seen, events, k);
    StepKeepsSoundIff(states[k], hash, seen, events[k]);
  }

  // ----- Without a deletion in the middle of a save ----------------------------------------------

  /** Everything a save in progress builds on is there. */
  predicate Whole(s: Store)
  {
    s.saver.Saving? ==>
      var Saving(c, _, done) := s.saver;
      && (c.parent.Some? ==> c.parent.value in s.files.metas)
      && (done >= 1 ==> c.id in s.files.snapshots)
      && (done >= 2 ==> c.id in s.files.metas)
  }

  /** Only unlinking takes away what a save builds on. */
  lemma StepKeepsWhole(s: Store, hash: string -> string, seen: set<string>, e: Event)
    requires Good(s, hash, seen) && Step(s, hash, e).Some? && !e.Unlinks() && (Whole(s) || e.Begin?)
    ensures Whole(Step(s, hash, e).value)
  {
    if e.Begin? && s.files.head.Some? {
      HeadIsStored(s.files, hash, seen);
    }
    hide Made, Sound, Preimage;
  }

  /** On a sound store `HEAD` is a stored commit. */
  lemma HeadIsStored(f: Files, hash: string -> string, seen: set<string>)
    requires Sound(f, hash, seen) && f.head.Some?
    ensures f.head.value in f.metas && CommitHead(f) == f.head
  {
    var order :| SoundIn(f, hash, seen, order);
    var i :| 0 <= i < |order| && order[i] == f.head.value;
    assert Stored(f, hash, seen, order, i);
    TrimHex(f.head.value);
  }

  /** Some file was unlinked since the save in progress before the `k`-th step began. */
  predicate UnlinkedDuring(events: seq<Event>, k: nat)
    requires k <= |events|
  {
    exists d :: 0 <= d < k && events[d].Unlinks() && forall j :: d <= j < k ==> !events[j].Begin?
  }

  lemma {:induction false} WholeUnlessUnlinked(
    states: seq<Store>, hash: string -> string, seen: set<string>, events: seq<Event>, k: nat)
    requires Trace(states, hash, events) && k <= |events| && Good(states[0], hash, seen) && Whole(states[0])
    requires NoCollision(hash, seen) && Preimages(events) <= seen
    requires forall j :: 0 <= j < k ==> !Breaks(states[j], events[j])
    ensures Whole(states[k]) || UnlinkedDuring(events, k)
  {
    if k > 0 {
      WholeUnlessUnlinked(states, hash, seen, events, k - 1);
      GoodUpTo(states, hash, seen, events, k - 1);
      TraceStep(states, hash, seen, events, k - 1);
      hide Trace, Good, NoCollision, Preimages, Breaks, Step, Whole;
      if !events[k - 1].Unlinks() && (Whole(states[k - 1]) || events[k - 1].Begin?) {
        StepKeepsWhole(states[k - 1], hash, seen, events[k - 1]);
      } else {
        assert UnlinkedDuring(events, k);
      }
    }
  }

  /** So a write breaks a history only if a file was unlinked since its save began: the
      first break is an unlinking or follows one within a save. */
  lemma BreaksByUnlinking(states: seq<Store>, hash: string -> string, events: seq<Event>, k: nat)
    requires Trace(states, hash, events) && states[0] == START && NoCollision(hash, Preimages(events))
    requires k < |events| && Breaks(states[k], events[k])
    requires forall j :: 0 <= j < k ==> !Breaks(states[j], events[j])
    ensures events[k].Unlinks() || UnlinkedDuring(events, k)
  {
    StartIsGood(hash, Preimages(events));
    WholeUnlessUnlinked(states, hash, Preimages(events), events, k);
    hide UnlinkedDuring, Trace;
  }

  predicate NoDeletion(events: seq<Event>)
  {
    forall e :: e in events ==> !e.Unlinks()
  }

  lemma {:induction false} UndisturbedIsGood(
    states: seq<Store>, hash: string -> string, seen: set<string>, events: seq<Event>, k: nat)
    requires Trace(states, hash, events) && k <= |events| && Good(states[0], hash, seen) && Whole(states[0])
    requires NoCollision(hash, seen) && Preimages(events) <= seen && NoDeletion(events)
    ensures Good(states[k], hash, seen) && Whole(states[k])
  {
    if k > 0 {
      UndisturbedIsGood(states, hash, seen, events, k - 1);
      TraceStep(states, hash, seen, events, k - 1);
      assert events[k - 1] in events && !events[k - 1].Unlinks();
      WholeIsUnbroken(states[k - 1], events[k - 1]);
      hide *;
      StepKeepsSoundIff(states[k - 1], hash, seen, events[k - 1]);
      StepKeepsGood(states[k - 1], hash, seen, events[k - 1]);
      StepKeepsWhole(states[k - 1], hash, seen, events[k - 1]);
    }
  }

  lemma WholeIsUnbroken(s: Store, e: Event)
    requires Whole(s) && !e.Unlinks()
    ensures !Breaks(s, e)
  {
  }

  /** In particular every state is sound, whatever the crashes, when nothing is unlinked. */
  lemma HistoryIsAlwaysSound(states: seq<Store>, hash: string -> string, events: seq<Event>, k: nat)
    requires Trace(states, hash, events) && states[0] == START && NoCollision(hash, Preimages(events))
    requires NoDeletion(events) && k <= |events|
    ensures Sound(states[k].files, hash, Preimages(events))
  {
    StartIsGood(hash, Preimages(events));
    UndisturbedIsGood(states, hash, Preimages(events), events, k);
  }

  // ----- The log -------------------------------------------------------------------------------------

  /** A log from the `n`-th commit down to one without a parent, each stored earlier
      than the one before, every one with its snapshot. */
  ghost predicate Rooted(f: Files, order: seq<string>, n: nat, log: seq<Commit>)
    requires n < |order|
  {
    && log != [] && log[0].id == order[n] && log[|log| - 1].parent.None? && |log| <= n + 1
    && (forall c :: c in log ==> c.id in order[..n + 1] && c.id in f.snapshots && c.id in f.metas && f.metas[c.id] == c)
    && (forall i, j :: 0 <= i < j < |log| ==> log[i].id != log[j].id)
  }

  lemma RootedFrom(f: Files, order: seq<string>, n: nat, m: nat, c: Commit, rest: seq<Commit>)
    requires m < n < |order| && order[n] !in order[..n]
    requires Rooted(f, order, m, rest)
    requires c.id == order[n] && c.id in f.snapshots && c.id in f.metas && f.metas[c.id] == c
    ensures Rooted(f, order, n, [c] + rest)
  {
    var log := [c] + rest;
    assert order[..m + 1] <= order[..n + 1] && order[..m + 1] <= order[..n];
    forall d | d in log ensures d.id in order[..n + 1] {
      if d in rest {
        assert d.id in order[..m + 1];
      } else {
        assert order[..n + 1][n] == d.id;
      }
    }
    forall j | 0 <= j < |rest| ensures rest[j].id != c.id {
      assert rest[j] in rest && rest[j].id in order[..m + 1];
    }
  }

  lemma {:induction false} WalkReachesTheRoot(
    f: Files, hash: string -> string, seen: set<string>, order: seq<string>, n: nat, limit: nat)
    requires SoundIn(f, hash, seen, order) && n < |order| && limit > n
    ensures Rooted(f, order, n, Walk(f, Some(order[n]), limit))
    decreases n
  {
    hide *;
    LoadStored(f, hash, seen, order, n);
    var c := f.metas[order[n]];
    WalkStep(f, Some(order[n]), limit);
    var rest := Walk(f, c.parent, limit - 1);
    if c.parent.Some? {
      var m := Position(order, n, c.parent.value);
      WalkReachesTheRoot(f, hash, seen, order, m, limit - 1);
      RootedFrom(f, order, n, m, c, rest);
    } else {
      WalkNone(f, c.parent, limit - 1);
      assert [c] + [] == [c];
      RootedAlone(f, order, n, c);
    }
  }

  lemma Position(order: seq<string>, n: nat, k: string) returns (m: nat)
    requires n <= |order| && k in order[..n]
    ensures m < n && order[m] == k
  {
    m :| 0 <= m < n && order[..n][m] == k;
  }

  lemma RootedAlone(f: Files, order: seq<string>, n: nat, c: Commit)
    requires n < |order| && c.id == order[n] && c.id in f.snapshots && c.id in f.metas && f.metas[c.id] == c
    requires c.parent.None?
    ensures Rooted(f, order, n, [c])
  {
    assert order[..n + 1][n] == c.id;
  }

  lemma LoadStored(f: Files, hash: string -> string, seen: set<string>, order: seq<string>, n: nat)
    requires SoundIn(f, hash, seen, order) && n < |order|
    ensures order[n] in f.metas && order[n] in f.snapshots && order[n] !in order[..n]
    ensures var c := f.metas[order[n]];
            Load(f, order[n]) == Some(c) && c.id == order[n] && (c.parent.Some? ==> c.parent.value in order[..n])
  {
    assert Stored(f, hash, seen, order, n);
  }

  lemma {:induction false} TrimHex(s: string)
    requires IsCommitId(s)
    ensures Trim(s) == s
  {
    assert s[0] in s && s[|s| - 1] in s;
  }

  /** In a sound history `HEAD` and all its ancestors have metadata and a snapshot,
      the chain never returns to a commit, and it ends at a commit without a parent. */
  lemma HeadHasItsWholeChain(f: Files, hash: string -> string, seen: set<string>)
    requires Sound(f, hash, seen) && f.head.Some?
    ensures var log := Log(f, None, |f.metas|);
            && log != [] && log[0].id == f.head.value && log[|log| - 1].parent.None?
            && (forall c :: c in log ==> c.id in f.metas && c.id in f.snapshots)
            && (forall i, j :: 0 <= i < j < |log| ==> log[i].id != log[j].id)
  {
    var order :| SoundIn(f, hash, seen, order);
    var n :| 0 <= n < |order| && order[n] == f.head.value;
    assert Stored(f, hash, seen, order, n);
    TrimHex(order[n]);
    assert CommitHead(f) == Some(order[n]);
    OrderSize(f, order);
    hide Stored;
    WalkReachesTheRoot(f, hash, seen, order, n, |f.metas|);
  }

  lemma OrderSize(f: Files, order: seq<string>)
    requires (forall k :: k in f.metas <==> k in order) && forall i :: 0 <= i < |order| ==> order[i] !in order[..i]
    ensures |f.metas| == |order|
  {
    DistinctSize(order, f.metas.Keys);
    assert |f.metas| == |f.metas.Keys|;
  }

  // ----- Paging -----------------------------------------------------------------------------------------

  /** Metadata files are named by the commit they hold. */
  predicate Named(f: Files)
  {
    forall k :: k in f.metas ==> f.metas[k].id == k
  }

  lemma SoundIsNamed(f: Files, hash: string -> string, seen: set<string>)
    requires Sound(f, hash, seen)
    ensures Named(f)
  {
    var order :| SoundIn(f, hash, seen, order);
    forall k | k in f.metas ensures f.metas[k].id == k {
      var i :| 0 <= i < |order| && order[i] == k;
      assert Stored(f, hash, seen, order, i);
    }
  }

  lemma {:induction false} WalkSplits(f: Files, next: Option<string>, n: nat, m: nat)
    requires Named(f) && n >= 1
    ensures var page := Walk(f, next, n);
            Walk(f, next, n + m) == if page == [] then [] else page + Log(f, Some(page[|page| - 1].id), m)
    decreases n
  {
    hide *;
    if next.Some? && Load(f, next.value).Some? {
      var c := LoadsByName(f, next.value);
      WalkStep(f, next, n);
      WalkStep(f, next, n + m);
      if n == 1 {
        WalkNone(f, c.parent, 0);
        LogFrom(f, c, m);
      } else {
        WalkSplits(f, c.parent, n - 1, m);
        if Walk(f, c.parent, n - 1) == [] {
          NothingFurther(f, c.parent, n - 1, m);
          LogFrom(f, c, m);
        }
      }
    } else {
      WalkNone(f, next, n);
      WalkNone(f, next, n + m);
    }
  }

  lemma LoadsByName(f: Files, id: string) returns (c: Commit)
    requires Named(f) && Load(f, id).Some?
    ensures Load(f, id) == Some(c) && Load(f, c.id) == Some(c)
  {
    c := f.metas[id];
  }

  lemma WalkNone(f: Files, next: Option<string>, limit: nat)
    requires limit == 0 || next.None? || Load(f, next.value).None?
    ensures Walk(f, next, limit) == []
  {
  }

  lemma LogFrom(f: Files, c: Commit, m: nat)
    requires Load(f, c.id) == Some(c)
    ensures Log(f, Some(c.id), m) == Walk(f, c.parent, m)
  {
  }

  lemma WalkStep(f: Files, next: Option<string>, limit: nat)
    requires limit > 0 && next.Some? && Load(f, next.value).Some?
    ensures Walk(f, next, limit) == [Load(f, next.value).value] + Walk(f, Load(f, next.value).value.parent, limit - 1)
  {
  }

  lemma NothingFurther(f: Files, next: Option<string>, n: nat, m: nat)
    requires n >= 1 && Walk(f, next, n) == []
    ensures Walk(f, next, m) == []
  {
  }

  /** A page and the page after its last commit are the longer page. */
  lemma PagesJoin(f: Files, n: nat, m: nat)
    requires Named(f) && n >= 1
    ensures var page := Log(f, None, n);
            Log(f, None, n + m) == if page == [] then [] else page + Log(f, Some(page[|page| - 1].id), m)
  {
    WalkSplits(f, CommitHead(f), n, m);
  }

  function Ids(log: seq<Commit>): seq<string>
  {
    seq(|log|, i requires 0 <= i < |log| => log[i].id)
  }

  /** Metadata under its own id, its parent stored too. */
  predicate Closed(f: Files)
  {
    forall k :: k in f.metas ==>
      IsCommitId(k) && f.metas[k].id == k && (f.metas[k].parent.Some? ==> f.metas[k].parent.value in f.metas)
  }

  /** Every stored commit keeps its id and its parent. */
  predicate Keeps(f: Files, g: Files)
  {
    forall k :: k in f.metas ==>
      k in g.metas && g.metas[k].id == f.metas[k].id && g.metas[k].parent == f.metas[k].parent
  }

  predicate Extends(f: Files, g: Files)
  {
    forall k :: k in f.metas ==> k in g.metas && g.metas[k] == f.metas[k]
  }

  lemma SoundIsClosed(f: Files, hash: string -> string, seen: set<string>)
    requires Sound(f, hash, seen)
    ensures Closed(f)
  {
    var order :| SoundIn(f, hash, seen, order);
    forall k | k in f.metas
      ensures IsCommitId(k) && f.metas[k].id == k && (f.metas[k].parent.Some? ==> f.metas[k].parent.value in f.metas)
    {
      StoredLeads(f, hash, seen, order, k);
      var i :| 0 <= i < |order| && order[i] == k;
      assert Stored(f, hash, seen, order, i);
    }
  }

  /** A walk sees nothing of what was stored besides the chain it follows. */
  lemma {:induction false} WalkUnmoved(f: Files, g: Files, next: Option<string>, limit: nat)
    requires Closed(f) && Keeps(f, g) && (next.Some? ==> next.value in f.metas)
    ensures Ids(Walk(g, next, limit)) == Ids(Walk(f, next, limit))
    ensures Extends(f, g) ==> Walk(g, next, limit) == Walk(f, next, limit)
    decreases limit
  {
    if limit > 0 && next.Some? {
      var c, d := f.metas[next.value], g.metas[next.value];
      assert Load(f, next.value) == Some(c) && Load(g, next.value) == Some(d) && c.parent == d.parent;
      WalkUnmoved(f, g, c.parent, limit - 1);
      hide Closed, Keeps, Extends, Load, IsCommitId;
      IdsCons(c, Walk(f, c.parent, limit - 1));
      IdsCons(d, Walk(g, c.parent, limit - 1));
      assert Extends(f, g) ==> c == d by { ExtendsAt(f, g, next.value); }
    }
  }

  lemma ExtendsAt(f: Files, g: Files, k: string)
    requires k in f.metas && k in g.metas
    ensures Extends(f, g) ==> g.metas[k] == f.metas[k]
  {
  }

  lemma IdsCons(c: Commit, log: seq<Commit>)
    ensures Ids([c] + log) == [c.id] + Ids(log)
  {
  }

  /** A commit made again keeps the parent it has, and no other is touched. */
  lemma StepKeepsCommits(s: Store, hash: string -> string, seen: set<string>, e: Event)
    requires Good(s, hash, seen) && NoCollision(hash, seen) && Step(s, hash, e).Some? && !e.Unlinks()
    ensures Keeps(s.files, Step(s, hash, e).value.files)
  {
    if e.Write? && s.saver.commit.id in s.files.metas {
      var order :| SoundIn(s.files, hash, seen, order);
      SoundIsNamed(s.files, hash, seen);
      SameIdSameContent(s.files, hash, seen, order, s.saver.commit, s.saver.snapshot);
    }
    hide Preimage, Clean, IsCommitId, Sound, Made;
  }

  /** No save makes a stored commit again. */
  predicate AllNew(states: seq<Store>, f: Files)
  {
    forall s :: s in states && s.saver.Saving? ==> s.saver.commit.id !in f.metas
  }

  lemma StepExtends(f: Files, s: Store, hash: string -> string, e: Event)
    requires Extends(f, s.files) && Step(s, hash, e).Some? && !e.Unlinks()
    requires s.saver.Saving? ==> s.saver.commit.id !in f.metas
    ensures Extends(f, Step(s, hash, e).value.files)
  {
  }

  lemma KeepsOn(f: Files, g: Files, h: Files)
    requires Keeps(f, g) && Keeps(g, h)
    ensures Keeps(f, h)
  {
  }

  lemma {:induction false} CommitsKept(
    states: seq<Store>, hash: string -> string, seen: set<string>, events: seq<Event>, k: nat)
    requires Trace(states, hash, events) && k <= |events| && Good(states[0], hash, seen) && Whole(states[0])
    requires NoCollision(hash, seen) && Preimages(events) <= seen && NoDeletion(events)
    ensures Keeps(states[0].files, states[k].files)
    ensures AllNew(states, states[0].files) ==> Extends(states[0].files, states[k].files)
  {
    if k > 0 {
      CommitsKept(states, hash, seen, events, k - 1);
      UndisturbedIsGood(states, hash, seen, events, k - 1);
      TraceStep(states, hash, seen, events, k - 1);
      assert events[k - 1] in events && !events[k - 1].Unlinks();
      assert states[k - 1] in states;
      hide Trace, Good, NoCollision, Preimages, Whole, Step, Keeps, Extends, NoDeletion;
      StepKeepsCommits(states[k - 1], hash, seen, events[k - 1]);
      KeepsOn(states[0].files, states[k - 1].files, states[k].files);
      if AllNew(states, states[0].files) {
        StepExtends(states[0].files, states[k - 1], hash, events[k - 1]);
      }
    }
  }

  /** Reading a page, any number of commits landing or breaking off, and reading the
      next page gives the commits of one undisturbed read. */
  lemma PagesJoinAcrossCommits(
    states: seq<Store>, hash: string -> string, seen: set<string>, events: seq<Event>, n: nat, m: nat)
    requires Trace(states, hash, events) && Good(states[0], hash, seen) && Whole(states[0])
    requires NoCollision(hash, seen) && Preimages(events) <= seen && NoDeletion(events)
    requires n >= 1 && Log(states[0].files, None, n) != []
    ensures var page := Log(states[0].files, None, n);
            var more := Log(states[|events|].files, Some(page[|page| - 1].id), m);
            && Ids(Log(states[0].files, None, n + m)) == Ids(page) + Ids(more)
            && (AllNew(states, states[0].files) ==> Log(states[0].files, None, n + m) == page + more)
  {
    hide *;
    OneMore(states, hash, events);
    CommitsKept(states, hash, seen, events, |events|);
    GoodIsSound(states[0], hash, seen);
    SoundIsNamed(states[0].files, hash, seen);
    SoundIsClosed(states[0].files, hash, seen);
    PagesJoinWhenKept(states[0].files, states[|events|].files, n, m);
  }

  lemma GoodIsSound(s: Store, hash: string -> string, seen: set<string>)
    requires Good(s, hash, seen)
    ensures Sound(s.files, hash, seen)
  {
  }

  lemma OneMore(states: seq<Store>, hash: string -> string, events: seq<Event>)
    requires Trace(states, hash, events)
    ensures |states| == |events| + 1
  {
  }

  lemma PagesJoinWhenKept(f: Files, g: Files, n: nat, m: nat)
    requires Named(f) && Closed(f) && Keeps(f, g) && n >= 1 && Log(f, None, n) != []
    ensures var page := Log(f, None, n);
            var more := Log(g, Some(page[|page| - 1].id), m);
            && Ids(Log(f, None, n + m)) == Ids(page) + Ids(more)
            && (Extends(f, g) ==> Log(f, None, n + m) == page + more)
  {
    hide *;
    PagesJoin(f, n, m);
    var page := Log(f, None, n);
    LastOfPage(f, n);
    NextPageUnmoved(f, g, page[|page| - 1], m);
    IdsAppend(page, Log(f, Some(page[|page| - 1].id), m));
  }

  lemma LastOfPage(f: Files, n: nat)
    requires Named(f)
    ensures var page := Log(f, None, n);
            page != [] ==> page[|page| - 1].id in f.metas && f.metas[page[|page| - 1].id] == page[|page| - 1]
  {
    LoggedIsStored(f, CommitHead(f), n);
    var page := Log(f, None, n);
    assert page != [] ==> page[|page| - 1] in page;
  }

  lemma IdsAppend(a: seq<Commit>, b: seq<Commit>)
    ensures Ids(a + b) == Ids(a) + Ids(b)
  {
  }

  lemma NextPageUnmoved(f: Files, g: Files, last: Commit, m: nat)
    requires Closed(f) && Keeps(f, g) && last.id in f.metas && f.metas[last.id] == last
    ensures Ids(Log(g, Some(last.id), m)) == Ids(Log(f, Some(last.id), m))
    ensures Extends(f, g) ==> Log(g, Some(last.id), m) == Log(f, Some(last.id), m)
  {
    WalkUnmoved(f, g, last.parent, m);
  }

  lemma {:induction false} LoggedIsStored(f: Files, next: Option<string>, limit: nat)
    requires Named(f)
    ensures forall c :: c in Walk(f, next, limit) ==> c.id in f.metas && f.metas[c.id] == c
    decreases limit
  {
    if limit > 0 && next.Some? && Load(f, next.value).Some? {
      LoggedIsStored(f, Load(f, next.value).value.parent, limit - 1);
    }
  }
}
