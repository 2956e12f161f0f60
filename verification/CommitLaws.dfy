/** What a commit leaves on disk and what the log shows of it, told file by file
    (src/storage.rs). */
module CommitLaws {
  import opened Base
  import opened Texts
  import opened CommitStore

  // ----- What an id covers --------------------------------------------------------------

  /** An id stands for parent, author, time, message and snapshot, a line each but for
      what the message holds. */
  lemma MadeIff(hash: string -> string, c: Commit, snapshot: string)
    ensures Made(hash, c, snapshot) <==>
              && |c.id| == 40 && (forall x :: x in c.id ==> IsHexDigit(x))
              && c.id == hash((if c.parent.Some? then c.parent.value else "") + "\n" + c.author + "\n" + c.at + "\n"
                              + c.message + "\n" + snapshot)
              && (c.parent.Some? ==> c.parent.value != "" && '\n' !in c.parent.value)
              && '\n' !in c.author && '\n' !in c.at && '\n' !in snapshot
  {
  }

  /** Two different texts never hash alike. */
  lemma NoCollisionIff(hash: string -> string, seen: set<string>)
    ensures NoCollision(hash, seen) <==> forall p, q :: p in seen && q in seen && p != q ==> hash(p) != hash(q)
  {
  }

  // ----- One event at a time ---------------------------------------------------------------

  /** Which events a store admits: a save begins when none is under way, writes and may be
      cut short while it is, and a deletion unlinks what is there. */
  lemma AdmitsIff(s: Store, hash: string -> string, c: Commit, snapshot: string, id: string)
    ensures Step(s, hash, Begin(c, snapshot)).Some? <==>
              && s.saver == Idle && Made(hash, c, snapshot)
              && (c.parent == None || c.parent.value in s.files.metas || c.parent == CommitHead(s.files))
    ensures Step(s, hash, Write).Some? <==> s.saver.Saving?
    ensures Step(s, hash, Stop).Some? <==> s.saver.Saving?
    ensures Step(s, hash, UnlinkSnapshot(id)).Some? <==> id in s.files.snapshots
    ensures Step(s, hash, UnlinkMeta(id)).Some? <==> id in s.files.metas
    ensures Step(s, hash, UnlinkHead).Some? <==> s.files.head.Some?
    ensures Step(s, hash, UnlinkPending).Some?
  {
    hide Made, CommitHead;
  }

  /** What an event leaves: an unlinking its one file less and the save where it was, a
      beginning or a crash every file as it was. */
  lemma EventLeaves(s: Store, hash: string -> string, e: Event)
    requires Step(s, hash, e).Some? && e != Write
    ensures var (f, t) := (s.files, Step(s, hash, e).value);
            && (e.Unlinks() ==> t.saver == s.saver)
            && (e.Begin? ==> t == Store(f, Saving(e.commit, e.snapshot, 0)))
            && (e.Stop? ==> t == Store(f, Idle))
            && t.files.head == (if e.UnlinkHead? then None else f.head)
            && t.files.pending == (if e.UnlinkPending? then {} else f.pending)
            && (forall k :: k in t.files.snapshots <==> k in f.snapshots && e != UnlinkSnapshot(k))
            && (forall k :: k in t.files.snapshots ==> t.files.snapshots[k] == f.snapshots[k])
            && (forall k :: k in t.files.metas <==> k in f.metas && e != UnlinkMeta(k))
            && (forall k :: k in t.files.metas ==> t.files.metas[k] == f.metas[k])
  {
    hide Fits;
  }

  // ----- The four files of a save -------------------------------------------------------

  /** With `n` writes done: the snapshot from the first on, the metadata from the second,
      `HEAD` from the third, and the pending set gone with the fourth; every other file
      as it was. */
  lemma SaveLeaves(f: Files, c: Commit, snapshot: string, n: nat)
    ensures var g := Save(f, c, snapshot, n);
            && (forall k :: k != c.id ==>
                  && (k in g.snapshots <==> k in f.snapshots) && (k in f.snapshots ==> g.snapshots[k] == f.snapshots[k])
                  && (k in g.metas <==> k in f.metas) && (k in f.metas ==> g.metas[k] == f.metas[k]))
            && (if n == 0 then g.snapshots == f.snapshots else c.id in g.snapshots && g.snapshots[c.id] == snapshot)
            && (if n <= 1 then g.metas == f.metas else c.id in g.metas && g.metas[c.id] == c)
            && (if n <= 2 then g.head == f.head else g.head == Some(c.id))
            && (if n <= 3 then g.pending == f.pending else g.pending == {})
  {
  }

  /** A finished save of a commit is `HEAD`, and loads. */
  lemma SavedCommitIsHead(f: Files, c: Commit, snapshot: string)
    requires IsCommitId(c.id)
    ensures var g := Save(f, c, snapshot, 4);
            CommitHead(g) == Some(c.id) && Load(g, c.id) == Some(c) && Log(g, None, 1) == [c]
  {
    TrimHex(c.id);
    var g := Save(f, c, snapshot, 4);
    assert CommitHead(g) == Some(c.id) && Load(g, c.id) == Some(c);
    hide Trim, IsCommitId, Save;
    assert Walk(g, Some(c.id), 1) == [c] + Walk(g, c.parent, 0);
    assert Walk(g, c.parent, 0) == [] && [c] + [] == [c];
  }

  // ----- The log -----------------------------------------------------------------------------

  /** Only a well-formed id that has metadata loads. */
  lemma LoadIff(f: Files, id: string, c: Commit)
    ensures Load(f, id) == Some(c) <==>
              |id| == 40 && (forall x :: x in id ==> IsHexDigit(x)) && id in f.metas && f.metas[id] == c
  {
  }

  /** A log is a chain: each commit is the parent of the one before it. */
  predicate Linked(f: Files, log: seq<Commit>)
  {
    && (forall i :: 0 <= i < |log| ==> Load(f, log[i].id) == Some(log[i]))
    && forall i :: 0 <= i < |log| - 1 ==> log[i].parent == Some(log[i + 1].id)
  }

  /** The walk starts at `next`, is linked, and ends at its limit or where a commit has
      no parent that loads. */
  lemma {:induction false} WalkIsLinked(f: Files, next: Option<string>, limit: nat)
    requires Named(f)
    ensures var log := Walk(f, next, limit);
            && Linked(f, log) && |log| <= limit
            && (log != [] ==> next == Some(log[0].id))
            && (log == [] && limit > 0 ==> next.None? || Load(f, next.value).None?)
            && (log != [] && |log| < limit ==>
                  var last := log[|log| - 1]; last.parent.None? || Load(f, last.parent.value).None?)
    decreases limit
  {
    hide IsCommitId;
    if limit > 0 && next.Some? && Load(f, next.value).Some? {
      var c := Load(f, next.value).value;
      var rest := Walk(f, c.parent, limit - 1);
      WalkIsLinked(f, c.parent, limit - 1);
      LinkedMore(f, c, rest);
    }
  }

  lemma LinkedMore(f: Files, c: Commit, rest: seq<Commit>)
    requires Linked(f, rest) && Load(f, c.id) == Some(c) && (rest != [] ==> c.parent == Some(rest[0].id))
    ensures Linked(f, [c] + rest)
  {
    hide Load;
    var log := [c] + rest;
    forall i | 0 <= i < |log| ensures Load(f, log[i].id) == Some(log[i]) {
      assert i > 0 ==> log[i] == rest[i - 1];
    }
  }

  /** The log of a sound history starts at `HEAD`, is a chain, and falls short of its
      limit only at a first commit. */
  lemma LogIsTheChain(f: Files, hash: string -> string, seen: set<string>, n: nat)
    requires Sound(f, hash, seen) && f.head.Some? && n > 0
    ensures var log := Log(f, None, n);
            && log != [] && |log| <= n && log[0].id == f.head.value && Linked(f, log)
            && (|log| < n ==> log[|log| - 1].parent.None?)
  {
    SoundIsNamed(f, hash, seen);
    SoundIsClosed(f, hash, seen);
    HeadIsStored(f, hash, seen);
    WalkIsLinked(f, f.head, n);
    ClosedLoads(f);
    hide Sound, Closed, Walk, CommitHead, IsCommitId;
    var log := Walk(f, f.head, n);
    assert log != [];
    var last := log[|log| - 1];
    assert last.id in f.metas && f.metas[last.id] == last by { LoadIff(f, last.id, last); }
  }

  lemma ClosedLoads(f: Files)
    requires Closed(f)
    ensures forall k :: k in f.metas ==>
              Load(f, k) == Some(f.metas[k])
              && (f.metas[k].parent.Some? ==> Load(f, f.metas[k].parent.value).Some?)
  {
  }

  /** A second page starts at the parent of its cursor; a cursor that does not load ends
      the history. */
  lemma LogAfter(f: Files, id: string, m: nat)
    requires Named(f)
    ensures Load(f, id).None? ==> Log(f, Some(id), m) == []
    ensures Load(f, id).Some? && m > 0 && Load(f, id).value.parent.Some?
            && Load(f, Load(f, id).value.parent.value).Some? ==>
              Log(f, Some(id), m) != [] && Load(f, id).value.parent == Some(Log(f, Some(id), m)[0].id)
    ensures Load(f, id).Some? && Load(f, id).value.parent.None? ==> Log(f, Some(id), m) == []
  {
    if Load(f, id).Some? {
      WalkIsLinked(f, Load(f, id).value.parent, m);
    }
  }
}
