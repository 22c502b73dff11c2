/** What every run of a config store node keeps. */
module ConfigSafety {
  import opened Base
  import opened ConfigNode

  predicate StoreEvent(e: Event) {
    e.LockError? || e.Write? || e.Record? || e.Persist? || e.PersistError?
  }

  /** The steps inside `store` touch neither the queue nor the history. */
  lemma StoreFrame(s: Node, e: Event)
    requires StoreEvent(e)
    ensures
      var t := Step(s, e);
      && t.queue == s.queue
      && t.life == s.life.(faulty := t.life.faulty)
      && (s.consumer.Received? ==> t.consumer == s.consumer)
  {
  }

  /** The queue's steps touch neither the disk nor a file being stored. */
  lemma QueueFrame(s: Node, e: Event)
    requires !StoreEvent(e) && !e.Crash?
    ensures
      var t := Step(s, e);
      && t.store == s.store && t.life.base == s.life.base
      && (s.consumer.Storing? || s.consumer.Written? || s.consumer.Recorded? ==>
            t.consumer == s.consumer && t.life.handed == s.life.handed)
      && (t.consumer.Written? || t.consumer.Recorded? ==> t.consumer == s.consumer)
  {
  }

  // ---- No lost update: every pending name has a token somewhere ----

  predicate Token(q: Queue, c: Consumer, n: string) {
    || (exists i :: 0 <= i < |q.channel| && q.channel[i].name == n)
    || (exists f :: f in q.sending && f.name == n)
    || c == Received(n)
  }

  predicate Covered(s: Node) {
    forall n :: n in s.queue.pending ==> Token(s.queue, s.consumer, n)
  }

  lemma CoveredInsert(s: Node, f: ConfigFile)
    requires Covered(s)
    ensures Covered(Step(s, Insert(f)))
  {
    var q := Step(s, Insert(f)).queue;
    assert f in q.sending;
    forall n | n in q.pending && n != f.name
      ensures Token(q, s.consumer, n)
    {
      assert Token(s.queue, s.consumer, n);
      if g :| g in s.queue.sending && g.name == n {
        assert g in q.sending;
      }
    }
  }

  lemma CoveredSend(s: Node, f: ConfigFile)
    requires Covered(s)
    ensures Covered(Step(s, Send(f)))
  {
    var q := Step(s, Send(f)).queue;
    if f in s.queue.sending {
      assert q.channel[|s.queue.channel|] == f;
      forall n | n in q.pending
        ensures Token(q, s.consumer, n)
      {
        assert Token(s.queue, s.consumer, n);
        if i :| 0 <= i < |s.queue.channel| && s.queue.channel[i].name == n {
          assert q.channel[i] == s.queue.channel[i];
        } else if g :| g in s.queue.sending && g.name == n {
          assert g == f || g in q.sending;
        }
      }
    }
  }

  lemma CoveredRecv(s: Node)
    requires Covered(s)
    ensures Covered(Step(s, Recv))
  {
    var t := Step(s, Recv);
    if s.consumer.Waiting? && s.queue.channel != [] {
      forall n | n in t.queue.pending
        ensures Token(t.queue, t.consumer, n)
      {
        assert Token(s.queue, s.consumer, n);
        if i :| 0 <= i < |s.queue.channel| && s.queue.channel[i].name == n {
          assert i > 0 ==> t.queue.channel[i - 1] == s.queue.channel[i];
        }
      }
    }
  }

  lemma CoveredTake(s: Node)
    requires Covered(s)
    ensures Covered(Step(s, Take))
  {
    var t := Step(s, Take);
    forall n | n in t.queue.pending
      ensures Token(t.queue, t.consumer, n)
    {
      assert Token(s.queue, s.consumer, n);
    }
  }

  lemma CoveredStep(s: Node, e: Event)
    requires Covered(s)
    ensures Covered(Step(s, e))
  {
    match e
    case Insert(f) => CoveredInsert(s, f);
    case Send(f) => CoveredSend(s, f);
    case Recv => CoveredRecv(s);
    case Take => CoveredTake(s);
    case Crash =>
    case _ =>
      StoreFrame(s, e);
      var t := Step(s, e);
      forall n | n in t.queue.pending
        ensures Token(t.queue, t.consumer, n)
      {
        assert Token(s.queue, s.consumer, n);
      }
  }

  // ---- Versions on disk, in memory and in the content files ----

  /** Every name known to `lower` is known to `upper`, with at least that version. */
  predicate Behind(lower: map<string, Meta>, upper: map<string, Meta>) {
    forall n :: n in lower ==> n in upper && lower[n].version <= upper[n].version
  }

  predicate BehindContents(versions: map<string, Meta>, contents: map<string, ConfigFile>) {
    forall n :: n in versions ==> n in contents && versions[n].version <= contents[n].version
  }

  /** versions.json <= versions in memory <= content files, and maps are keyed by name. */
  predicate Layered(st: Store) {
    && (forall n :: n in st.versions ==> st.versions[n].name == n)
    && (forall n :: n in st.contents ==> st.contents[n].name == n)
    && Behind(Load(st.index), st.versions)
    && BehindContents(st.versions, st.contents)
  }

  /** How far the file being stored has got. */
  predicate MidStore(st: Store, c: Consumer) {
    && (c.Written? ==>
          c.file.name in st.contents && st.contents[c.file.name] == c.file && Admits(st.versions, c.file))
    && (c.Recorded? ==>
          c.file.name in st.contents && st.contents[c.file.name] == c.file &&
          c.file.name in st.versions && st.versions[c.file.name] == c.file.ToMeta() &&
          Admits(Load(st.index), c.file))
  }

  predicate DiskOrdered(s: Node) {
    Layered(s.store) && MidStore(s.store, s.consumer)
  }

  lemma {:induction false} LoadListKeyed(metas: seq<Meta>)
    ensures forall n :: n in LoadList(metas) ==> LoadList(metas)[n].name == n
  {
    if metas != [] {
      LoadListKeyed(metas[..|metas| - 1]);
    }
  }

  lemma DiskOrderedPersist(s: Node, listing: seq<Meta>)
    requires DiskOrdered(s)
    ensures DiskOrdered(Step(s, Persist(listing)))
  {
    if s.consumer.Recorded? && IsListing(listing, s.store.versions) {
      LoadListing(listing, s.store.versions);
    }
  }

  lemma DiskOrderedCrash(s: Node)
    requires DiskOrdered(s)
    ensures DiskOrdered(Step(s, Crash))
  {
    if s.store.index.Some? {
      LoadListKeyed(s.store.index.value);
    }
  }

  lemma DiskOrderedWrite(s: Node, ok: bool)
    requires DiskOrdered(s)
    ensures DiskOrdered(Step(s, Write(ok)))
  {
  }

  lemma DiskOrderedRecord(s: Node)
    requires DiskOrdered(s)
    ensures DiskOrdered(Step(s, Record))
  {
  }

  lemma DiskOrderedStep(s: Node, e: Event)
    requires DiskOrdered(s)
    ensures DiskOrdered(Step(s, e))
  {
    match e
    case Write(ok) => DiskOrderedWrite(s, ok);
    case Record => DiskOrderedRecord(s);
    case Persist(listing) => DiskOrderedPersist(s, listing);
    case LockError =>
    case PersistError(_) =>
    case Crash => DiskOrderedCrash(s);
    case _ => QueueFrame(s, e);
  }

  // ---- Order: files reach `store` in insertion order, the last one always ----

  function PendingOf(q: Queue, n: string): seq<ConfigFile> {
    if n in q.pending then [q.pending[n]] else []
  }

  /** What `store` has been or will be given for `n`. */
  function Offered(q: Queue, l: Life, n: string): seq<ConfigFile> {
    Of(n, l.handed) + PendingOf(q, n)
  }

  /**
   The files of `n` handed to `store`, followed by the one still pending, are a
   subsequence of the files of `n` inserted, and end with the last one inserted.
   */
  ghost predicate OrderedAt(q: Queue, l: Life, n: string) {
    var offered, inserted := Offered(q, l, n), Of(n, l.inserted);
    && Subseq(offered, inserted)
    && (inserted != [] ==> offered != [] && offered[|offered| - 1] == inserted[|inserted| - 1])
  }

  ghost predicate Ordered(s: Node) {
    && (forall n :: n in s.queue.pending ==> s.queue.pending[n].name == n)
    && (forall n :: OrderedAt(s.queue, s.life, n))
  }

  /** Without the pending file, what has been offered is what has been handed over. */
  lemma HandedBefore(s: Node, n: string)
    requires OrderedAt(s.queue, s.life, n)
    ensures Subseq(Of(n, s.life.handed), Of(n, s.life.inserted))
  {
    var handed := Of(n, s.life.handed);
    if n in s.queue.pending {
      SubseqShrink(handed + [s.queue.pending[n]], Of(n, s.life.inserted));
      assert (handed + [s.queue.pending[n]])[..|handed|] == handed;
    } else {
      assert handed + [] == handed;
    }
  }

  lemma OrderedInsert(s: Node, f: ConfigFile, n: string)
    requires OrderedAt(s.queue, s.life, n)
    ensures OrderedAt(Step(s, Insert(f)).queue, Step(s, Insert(f)).life, n)
  {
    var t := Step(s, Insert(f));
    OfSnoc(n, s.life.inserted, f);
    if f.name == n {
      HandedBefore(s, n);
      SubseqSnoc(Of(n, s.life.handed), Of(n, s.life.inserted), f);
      assert PendingOf(t.queue, n) == [f];
    } else {
      assert PendingOf(t.queue, n) == PendingOf(s.queue, n);
    }
  }

  /** The pending file becomes the last one handed over. */
  lemma OfferedTake(s: Node, n: string)
    requires forall m :: m in s.queue.pending ==> s.queue.pending[m].name == m
    requires s.consumer.Received? && s.consumer.name in s.queue.pending
    ensures Offered(Step(s, Take).queue, Step(s, Take).life, n) == Offered(s.queue, s.life, n)
  {
    var t, f := Step(s, Take), s.queue.pending[s.consumer.name];
    OfSnoc(n, s.life.handed, f);
    if f.name == n {
      assert PendingOf(s.queue, n) == [f] && PendingOf(t.queue, n) == [];
      assert Of(n, s.life.handed) + [f] + [] == Of(n, s.life.handed) + [f];
    } else {
      assert PendingOf(t.queue, n) == PendingOf(s.queue, n);
    }
  }

  lemma OrderedByOffered(s: Node, t: Node, n: string)
    requires OrderedAt(s.queue, s.life, n)
    requires Offered(t.queue, t.life, n) == Offered(s.queue, s.life, n) && t.life.inserted == s.life.inserted
    ensures OrderedAt(t.queue, t.life, n)
  {
  }

  lemma OrderedTake(s: Node, n: string)
    requires OrderedAt(s.queue, s.life, n)
    requires forall m :: m in s.queue.pending ==> s.queue.pending[m].name == m
    ensures OrderedAt(Step(s, Take).queue, Step(s, Take).life, n)
  {
    if s.consumer.Received? && s.consumer.name in s.queue.pending {
      OfferedTake(s, n);
    }
    OrderedByOffered(s, Step(s, Take), n);
  }

  lemma OrderedStepAt(s: Node, e: Event, n: string)
    requires Ordered(s)
    ensures OrderedAt(Step(s, e).queue, Step(s, e).life, n)
  {
    assert OrderedAt(s.queue, s.life, n);
    match e
    case Insert(f) => OrderedInsert(s, f, n);
    case Take => OrderedTake(s, n);
    case Crash =>
    case Send(_) =>
    case Recv =>
    case _ => StoreFrame(s, e);
  }

  lemma PendingKeyedStep(s: Node, e: Event, n: string)
    requires Ordered(s)
    requires n in Step(s, e).queue.pending
    ensures Step(s, e).queue.pending[n].name == n
  {
    match e
    case Insert(f) =>
    case Take =>
    case Crash =>
    case Send(_) =>
    case Recv =>
    case _ => StoreFrame(s, e);
  }

  lemma OrderedStep(s: Node, e: Event)
    requires Ordered(s)
    ensures Ordered(Step(s, e))
  {
    var t := Step(s, e);
    forall n
      ensures OrderedAt(t.queue, t.life, n)
    {
      OrderedStepAt(s, e, n);
    }
    forall n | n in t.queue.pending
      ensures t.queue.pending[n].name == n
    {
      PendingKeyedStep(s, e, n);
    }
  }

  // ---- What the store holds is a function of the files handed to it ----

  /** Reference store: keep a file exactly when its version is larger than the one held. */
  function Replay(base: map<string, Meta>, files: seq<ConfigFile>): map<string, Meta> {
    if files == [] then base
    else
      var m, f := Replay(base, files[..|files| - 1]), files[|files| - 1];
      if Admits(m, f) then m[f.name := f.ToMeta()] else m
  }

  /** The file the consumer is storing is the last one handed over. */
  predicate InFlight(s: Node) {
    s.consumer.Storing? || s.consumer.Written? || s.consumer.Recorded? ==>
      s.life.handed != [] && s.life.handed[|s.life.handed| - 1] == s.consumer.file
  }

  /** The files `store` is done with, as far as the in-memory index goes. */
  function Settled(s: Node): seq<ConfigFile>
    requires InFlight(s)
  {
    if s.consumer.Storing? || s.consumer.Written? then s.life.handed[..|s.life.handed| - 1] else s.life.handed
  }

  predicate Replayed(s: Node) {
    InFlight(s) && (!s.life.faulty ==> s.store.versions == Replay(s.life.base, Settled(s)))
  }

  lemma ReplayedTake(s: Node)
    requires Replayed(s)
    ensures Replayed(Step(s, Take))
  {
    var t := Step(s, Take);
    if s.consumer.Received? && s.consumer.name in s.queue.pending {
      assert t.life.handed[..|t.life.handed| - 1] == s.life.handed;
    }
  }

  lemma ReplayedStep(s: Node, e: Event)
    requires Replayed(s) && DiskOrdered(s)
    ensures Replayed(Step(s, e))
  {
    match e
    case Take => ReplayedTake(s);
    case Insert(_) =>
    case Send(_) =>
    case Recv =>
    case LockError =>
    case Write(_) =>
    case Record =>
    case Persist(_) =>
    case PersistError(_) =>
    case Crash =>
  }

  /** The content file of `n` is the file recorded for `n`, and it was handed over in this run. */
  predicate FromRun(s: Node, n: string) {
    && n in s.store.versions && n in s.store.contents
    && s.store.contents[n] in s.life.handed
    && s.store.contents[n].ToMeta() == s.store.versions[n]
  }

  predicate OriginAt(s: Node, n: string) {
    || n !in s.store.versions
    || (n in s.life.base && s.life.base[n] == s.store.versions[n])
    || (s.consumer.Written? && s.consumer.file.name == n)
    || FromRun(s, n)
  }

  /** Every recorded version was loaded at the start or belongs to a file handed over since. */
  ghost predicate Origin(s: Node) {
    forall n :: OriginAt(s, n)
  }

  lemma OriginStepAt(s: Node, e: Event, n: string)
    requires OriginAt(s, n) && DiskOrdered(s) && InFlight(s)
    ensures OriginAt(Step(s, e), n)
  {
    match e
    case Insert(_) =>
    case Send(_) =>
    case Recv =>
    case Take =>
    case LockError =>
    case Write(_) =>
    case Record =>
    case Persist(_) =>
    case PersistError(_) =>
    case Crash =>
  }

  // ---- Every run ----

  ghost predicate Safe(s: Node) {
    Covered(s) && DiskOrdered(s) && Ordered(s) && Replayed(s) && Origin(s)
  }

  lemma SafeStep(s: Node, e: Event)
    requires Safe(s)
    ensures Safe(Step(s, e))
  {
    CoveredStep(s, e);
    DiskOrderedStep(s, e);
    OrderedStep(s, e);
    ReplayedStep(s, e);
    forall n
      ensures OriginAt(Step(s, e), n)
    {
      assert OriginAt(s, n);
      OriginStepAt(s, e, n);
    }
  }

  /** The invariants hold after any sequence of events, crashes and I/O errors included. */
  lemma {:induction false} SafeRun(events: seq<Event>)
    ensures Safe(Run(FRESH, events))
  {
    if events != [] {
      SafeRun(events[..|events| - 1]);
      SafeStep(Run(FRESH, events[..|events| - 1]), events[|events| - 1]);
    }
  }

  ghost predicate Reachable(s: Node) {
    exists events :: s == Run(FRESH, events)
  }

  lemma ReachableStep(s: Node, e: Event)
    requires Reachable(s)
    ensures Reachable(Step(s, e))
  {
    var events :| s == Run(FRESH, events);
    assert (events + [e])[..|events|] == events;
    assert Step(s, e) == Run(FRESH, events + [e]);
  }

  lemma ReachableIsSafe(s: Node)
    requires Reachable(s)
    ensures Safe(s)
  {
    var events :| s == Run(FRESH, events);
    SafeRun(events);
  }

  /** Once all is quiet no update is left behind in `pending`. */
  lemma QuietHasNoPending(s: Node)
    requires Covered(s) && Quiet(s)
    ensures s.queue.pending == map[]
  {
    assert forall n :: n in s.queue.pending ==> Token(s.queue, s.consumer, n);
  }

  lemma {:induction false} ReplayCovers(base: map<string, Meta>, files: seq<ConfigFile>, f: ConfigFile)
    requires f in files
    ensures f.name in Replay(base, files) && Replay(base, files)[f.name].version >= f.version
  {
    if f != files[|files| - 1] {
      ReplayCovers(base, files[..|files| - 1], f);
    }
  }

  function LastOf(n: string, files: seq<ConfigFile>): ConfigFile
    requires Of(n, files) != []
  {
    Of(n, files)[|Of(n, files)| - 1]
  }

  /** Once all is quiet, the last file inserted has been handed to `store`. */
  lemma LastIsHanded(s: Node, n: string)
    requires Safe(s) && Quiet(s) && Of(n, s.life.inserted) != []
    ensures LastOf(n, s.life.inserted) in s.life.handed
    ensures LastOf(n, s.life.inserted).name == n
  {
    QuietHasNoPending(s);
    assert OrderedAt(s.queue, s.life, n);
    assert Offered(s.queue, s.life, n) == Of(n, s.life.handed);
    OfMember(n, s.life.handed, LastOf(n, s.life.inserted));
  }

  lemma HandedWasInserted(s: Node, f: ConfigFile)
    requires Ordered(s) && f in s.life.handed
    ensures f in Of(f.name, s.life.inserted)
  {
    assert OrderedAt(s.queue, s.life, f.name);
    OfMember(f.name, s.life.handed, f);
    SubseqMember(Offered(s.queue, s.life, f.name), Of(f.name, s.life.inserted), f);
  }

  /** `f` is above every other file of its name, loaded or inserted since the start. */
  predicate Newest(l: Life, f: ConfigFile) {
    && (f.name in l.base ==> l.base[f.name].version < f.version)
    && (forall g :: g in Of(f.name, l.inserted) && g != f ==> g.version < f.version)
  }

  /** Memory and disk both hold exactly `f` under its name. */
  predicate Holds(st: Store, f: ConfigFile) {
    && f.name in st.versions && st.versions[f.name] == f.ToMeta()
    && f.name in st.contents && st.contents[f.name] == f
  }

  /**
   No lost update: in a quiet node whose lock and content writes all succeeded,
   the stored version of every submitted name is at least that of the last file
   submitted, and when that version is above every other one of its name, the
   node holds exactly that file.
   */
  lemma NoLostUpdate(events: seq<Event>, n: string)
    requires Quiet(Run(FRESH, events)) && !Run(FRESH, events).life.faulty
    requires Of(n, Run(FRESH, events).life.inserted) != []
    ensures
      var s := Run(FRESH, events);
      var last := LastOf(n, s.life.inserted);
      && s.queue.pending == map[]
      && n in s.store.versions && s.store.versions[n].version >= last.version
      && (Newest(s.life, last) ==> Holds(s.store, last))
  {
    var s := Run(FRESH, events);
    SafeRun(events);
    QuietHasNoPending(s);
    LastIsHanded(s, n);
    ReplayCovers(s.life.base, s.life.handed, LastOf(n, s.life.inserted));
    assert OriginAt(s, n);
    if FromRun(s, n) {
      HandedWasInserted(s, s.store.contents[n]);
    }
  }

  /** The files handed to `store` for a name come in insertion order. */
  lemma HandedInOrder(events: seq<Event>, n: string)
    ensures Subseq(Of(n, Run(FRESH, events).life.handed), Of(n, Run(FRESH, events).life.inserted))
  {
    SafeRun(events);
    var s := Run(FRESH, events);
    assert OrderedAt(s.queue, s.life, n);
    var handed := Of(n, s.life.handed);
    if n in s.queue.pending {
      SubseqShrink(Offered(s.queue, s.life, n), Of(n, s.life.inserted));
      assert Offered(s.queue, s.life, n)[..|handed|] == handed;
    } else {
      assert Offered(s.queue, s.life, n) == handed;
    }
  }

  // ---- Monotonicity ----

  /** The version of `n`, counting a content file that is written but not yet recorded. */
  function Reached(st: Store, c: Consumer, n: string): int {
    if c.Written? && c.file.name == n then c.file.version
    else if n in st.versions then st.versions[n].version
    else -1
  }

  /**
   From s to t neither the recorded version of `n` nor the one reached goes down, and
   content changes only with a larger one.
   */
  predicate AdvancesAt(s: Node, t: Node, n: string) {
    var before, after := Reached(s.store, s.consumer, n), Reached(t.store, t.consumer, n);
    && before <= after
    && (n in s.store.versions ==>
          n in t.store.versions && s.store.versions[n].version <= t.store.versions[n].version)
    && (n in s.store.contents ==>
          n in t.store.contents && (s.store.contents[n] != t.store.contents[n] ==> before < after))
    && (n in t.store.contents && n !in s.store.contents ==> before < after)
  }

  lemma AdvancesStep(s: Node, e: Event, n: string)
    requires DiskOrdered(s) && !e.Crash?
    ensures AdvancesAt(s, Step(s, e), n)
  {
    match e
    case LockError =>
    case Write(_) =>
    case Record =>
    case Persist(_) =>
    case PersistError(_) =>
    case _ => QueueFrame(s, e);
  }

  /** Between any two points of a run with no restart in between, versions only grow. */
  lemma {:induction false} AdvancesRun(before: seq<Event>, after: seq<Event>, n: string)
    requires Crash !in after
    ensures AdvancesAt(Run(FRESH, before), Run(Run(FRESH, before), after), n)
  {
    if after != [] {
      var init := after[..|after| - 1];
      AdvancesRun(before, init, n);
      RunConcat(FRESH, before, init);
      SafeRun(before + init);
      AdvancesStep(Run(Run(FRESH, before), init), after[|after| - 1], n);
    }
  }

  // ---- Crash safety ----

  /**
   After any run, crashes included, the index on disk never records a version
   above that of the content on disk.
   */
  lemma IndexNeverAhead(events: seq<Event>)
    ensures BehindContents(Load(Run(FRESH, events).store.index), Run(FRESH, events).store.contents)
  {
    SafeRun(events);
  }
}
