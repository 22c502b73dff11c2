/**
 Whether a version is answered together with its own content, and how a restart in
 the middle of a store is repaired (config_store/store.rs).
 */
module ConfigPairing {
  import opened Base
  import opened ConfigNode
  import opened ConfigSafety
  import opened ConfigRemote

  // ---- Equal versions mean the same file, in every run ----

  predicate PairedAt(metas: map<string, Meta>, contents: map<string, ConfigFile>, n: string) {
    n in metas && n in contents && metas[n].version == contents[n].version ==> metas[n] == contents[n].ToMeta()
  }

  ghost predicate Paired(st: Store) {
    forall n :: PairedAt(st.versions, st.contents, n) && PairedAt(Load(st.index), st.contents, n)
  }

  lemma PairedStepAt(s: Node, e: Event, n: string)
    requires DiskOrdered(s) && PairedAt(s.store.versions, s.store.contents, n)
    requires PairedAt(Load(s.store.index), s.store.contents, n)
    ensures
      var st := Step(s, e).store;
      PairedAt(st.versions, st.contents, n) && PairedAt(Load(st.index), st.contents, n)
  {
    match e
    case LockError =>
    case Write(_) =>
    case Record =>
    case Persist(listing) =>
      if s.consumer.Recorded? && IsListing(listing, s.store.versions) {
        LoadListing(listing, s.store.versions);
      }
    case PersistError(_) =>
    case Crash =>
    case _ => QueueFrame(s, e);
  }

  lemma {:induction false} PairedRun(events: seq<Event>)
    ensures Paired(Run(FRESH, events).store)
  {
    if events != [] {
      var s, e := Run(FRESH, events[..|events| - 1]), events[|events| - 1];
      PairedRun(events[..|events| - 1]);
      SafeRun(events[..|events| - 1]);
      forall n
        ensures PairedAt(Step(s, e).store.versions, Step(s, e).store.contents, n)
        ensures PairedAt(Load(Step(s, e).store.index), Step(s, e).store.contents, n)
      {
        assert PairedAt(s.store.versions, s.store.contents, n);
        PairedStepAt(s, e, n);
      }
    }
  }

  // ---- A read in two steps ----

  /** Since `m` was looked up, the content of `n` is untouched or was replaced by a larger version. */
  predicate Since(s: Node, m: Meta, c: ConfigFile, n: string) {
    && n in s.store.versions && m.version <= s.store.versions[n].version
    && n in s.store.contents && (s.store.contents[n] == c || m.version < s.store.contents[n].version)
  }

  lemma SinceStep(s: Node, e: Event, m: Meta, c: ConfigFile, n: string)
    requires DiskOrdered(s) && Since(s, m, c, n) && !e.Crash?
    ensures Since(Step(s, e), m, c, n)
  {
    match e
    case LockError =>
    case Write(_) =>
    case Record =>
    case Persist(_) =>
    case PersistError(_) =>
    case _ => QueueFrame(s, e);
  }

  lemma {:induction false} SinceRun(before: seq<Event>, after: seq<Event>, n: string)
    requires Crash !in after && n in Run(FRESH, before).store.versions
    ensures
      var st := Run(FRESH, before).store;
      n in st.contents && Since(Run(Run(FRESH, before), after), st.versions[n], st.contents[n], n)
  {
    SafeRun(before);
    if after != [] {
      var init, st := after[..|after| - 1], Run(FRESH, before).store;
      SinceRun(before, init, n);
      RunConcat(FRESH, before, init);
      SafeRun(before + init);
      SinceStep(Run(Run(FRESH, before), init), after[|after| - 1], st.versions[n], st.contents[n], n);
    }
  }

  /**
   The server looks `n` up after `before` and reads its content after `after` more
   steps, whatever crashes came earlier.  The content never belongs to a smaller
   version than the one answered, and it belongs to that version if and only if the
   version of the content file is still the one looked up.
   */
  lemma ReadIsPairedIff(before: seq<Event>, after: seq<Event>, n: string)
    requires Crash !in after && n in Run(FRESH, before).store.versions
    ensures
      var first := Run(FRESH, before).store;
      var second := Run(Run(FRESH, before), after).store;
      var m := first.versions[n];
      && n in second.contents && m.version <= second.contents[n].version
      && ReadFile(first, second, n) ==
         Ok(Some(ConfigFile(n, m.version, second.contents[n].content, m.timestamp, m.checksum)))
      && (m == second.contents[n].ToMeta() <==> m.version == second.contents[n].version)
  {
    SafeRun(before);
    PairedRun(before);
    SinceRun(before, after, n);
    var first := Run(FRESH, before).store;
    assert PairedAt(first.versions, first.contents, n);
  }

  /** Without a restart, the content file has the version that `Reached` names. */
  lemma ContentIsReached(events: seq<Event>, n: string)
    requires Crash !in events && n in Run(FRESH, events).store.versions
    ensures
      var s := Run(FRESH, events);
      n in s.store.contents && s.store.contents[n].version == Reached(s.store, s.consumer, n)
  {
    SafeRun(events);
    BaseStays(events);
    assert OriginAt(Run(FRESH, events), n);
  }

  /**
   Without a restart, a read is paired exactly when no larger version of the name has
   been written by the time its content is read; read at one moment, exactly when
   the consumer is not between writing the content of that name and recording it.
   */
  lemma ReadIsPairedIffNotOvertaken(before: seq<Event>, after: seq<Event>, n: string)
    requires Crash !in before && Crash !in after && n in Run(FRESH, before).store.versions
    ensures
      var s, t := Run(FRESH, before), Run(Run(FRESH, before), after);
      && n in s.store.contents && n in t.store.contents
      && (s.store.versions[n] == t.store.contents[n].ToMeta() <==>
            Reached(t.store, t.consumer, n) == s.store.versions[n].version)
      && (s.store.versions[n] == s.store.contents[n].ToMeta() <==>
            !(s.consumer.Written? && s.consumer.file.name == n))
  {
    var s, t := Run(FRESH, before), Run(Run(FRESH, before), after);
    ReadIsPairedIff(before, after, n);
    ReadIsPairedIff(before, [], n);
    SafeRun(before);
    RunConcat(FRESH, before, after);
    SinceRun(before, after, n);
    ContentIsReached(before, n);
    ContentIsReached(before + after, n);
  }

  /**
   For every two files of a name with growing versions, a run in which request_file
   answers the old version and checksum with the new content.
   */
  lemma OldVersionWithNewContent(f: ConfigFile, g: ConfigFile) returns (events: seq<Event>)
    requires f.name == g.name && 0 < f.version < g.version
    ensures Crash !in events
    ensures RemoteFile(Run(FRESH, events).store, f.name) ==
            Ok(Some(ConfigFile(f.name, f.version, g.content, 0, f.checksum)))
  {
    var before := StoreOne(f);
    var s := Run(FRESH, before);
    WriteNext(s, g);
    var take := [Insert(g), Send(g)] + [Recv, Take];
    RunConcat(FRESH, before, take);
    RunSnoc(FRESH, before + take, Write(true));
    events := before + take + [Write(true)];
  }

  /** An idle node with an empty channel takes a submitted file as far as its content write. */
  lemma WriteNext(s: Node, g: ConfigFile)
    requires s.consumer.Waiting? && s.queue.channel == [] && Admits(s.store.versions, g)
    ensures Step(Run(s, [Insert(g), Send(g)] + [Recv, Take]), Write(true)).store ==
            s.store.(contents := s.store.contents[g.name := g])
  {
    SubmitOne(s, g);
    var t := Run(s, [Insert(g), Send(g)]);
    assert t.queue.channel[0] == g;
    RunTwo(t, Recv, Take);
    assert Step(Step(t, Recv), Take).consumer == Storing(g);
    RunConcat(s, [Insert(g), Send(g)], [Recv, Take]);
  }

  // ---- A restart in the middle of a store ----

  /** The process is between the content write of `f` and the write of the index. */
  predicate Interrupted(s: Node, f: ConfigFile) {
    s.consumer == Written(f) || s.consumer == Recorded(f)
  }

  /**
   After a restart in the middle of a store the content is the new one: it is answered
   with the older version that the index has, or not at all if the index has none.
   */
  lemma RestartKeepsOldVersion(before: seq<Event>, f: ConfigFile)
    requires Interrupted(Run(FRESH, before), f)
    ensures
      var index, t := Load(Run(FRESH, before).store.index), Step(Run(FRESH, before), Crash).store;
      if f.name in index then
        && index[f.name].version < f.version
        && ReadFile(t, t, f.name) ==
           Ok(Some(ConfigFile(f.name, index[f.name].version, f.content, index[f.name].timestamp, index[f.name].checksum)))
      else ReadFile(t, t, f.name) == Ok(None)
  {
    SafeRun(before);
  }

  /** The index on disk is what is in memory, except while it is being written. */
  predicate Synced(s: Node) {
    !s.consumer.Recorded? ==> Load(s.store.index) == s.store.versions
  }

  lemma SyncedStep(s: Node, e: Event)
    requires DiskOrdered(s) && Synced(s) && !e.PersistError?
    ensures Synced(Step(s, e))
  {
    match e
    case LockError =>
    case Write(ok) => SyncedWrite(s, ok);
    case Record =>
    case Persist(listing) => SyncedPersist(s, listing);
    case Crash =>
    case _ => QueueFrame(s, e);
  }

  lemma SyncedWrite(s: Node, ok: bool)
    requires Synced(s)
    ensures Synced(Step(s, Write(ok)))
  {
  }

  lemma SyncedPersist(s: Node, listing: seq<Meta>)
    requires DiskOrdered(s) && Synced(s)
    ensures Synced(Step(s, Persist(listing)))
  {
    if s.consumer.Recorded? && IsListing(listing, s.store.versions) {
      LoadListing(listing, s.store.versions);
    }
  }

  lemma BaseKept(s: Node, e: Event)
    requires !e.Crash?
    ensures Step(s, e).life.base == s.life.base
  {
    if StoreEvent(e) {
      StoreFrame(s, e);
    } else {
      QueueFrame(s, e);
    }
  }

  /** What a smooth run keeps. */
  lemma {:induction false} SmoothRun(s: Node, events: seq<Event>)
    requires Safe(s) && Synced(s) && Smooth(events)
    ensures Safe(Run(s, events)) && Synced(Run(s, events)) && Run(s, events).life.base == s.life.base
  {
    if events != [] {
      var t, e := Run(s, events[..|events| - 1]), events[|events| - 1];
      SmoothRun(s, events[..|events| - 1]);
      SafeStep(t, e);
      SyncedStep(t, e);
      BaseKept(t, e);
    }
  }

  lemma RunRestarted(before: seq<Event>, after: seq<Event>)
    ensures Run(FRESH, before + [Crash] + after) == Run(Step(Run(FRESH, before), Crash), after)
  {
    RunConcat(FRESH, before + [Crash], after);
    RunSnoc(FRESH, before, Crash);
  }

  /** `f` is the last file submitted under its name and above every other one. */
  predicate LastAndLargest(l: Life, f: ConfigFile) {
    && Of(f.name, l.inserted) != [] && LastOf(f.name, l.inserted) == f
    && forall g :: g in Of(f.name, l.inserted) && g != f ==> g.version < f.version
  }

  /**
   If the process dies between the content write and the index write of `f`, then in
   every later run that submits `f` again, with whatever else, and comes to rest
   without a fault or a further restart, content, memory and index agree: they hold
   `f` when it is the last and largest of its name.
   */
  lemma ResubmitRepairs(before: seq<Event>, after: seq<Event>, f: ConfigFile)
    requires Interrupted(Run(FRESH, before), f) && Smooth(after)
    requires Quiet(Run(FRESH, before + [Crash] + after)) && !Run(FRESH, before + [Crash] + after).life.faulty
    requires LastAndLargest(Run(FRESH, before + [Crash] + after).life, f)
    ensures
      var t := Run(FRESH, before + [Crash] + after);
      Holds(t.store, f) && Load(t.store.index) == t.store.versions
  {
    SafeRun(before);
    SafeStep(Run(FRESH, before), Crash);
    SmoothRun(Step(Run(FRESH, before), Crash), after);
    RunRestarted(before, after);
    NoLostUpdate(before + [Crash] + after, f.name);
  }

  lemma OnlyOneIsLargest(l: Life, f: ConfigFile)
    requires l.inserted == [f]
    ensures LastAndLargest(l, f)
  {
    OfSnoc(f.name, [], f);
    assert [] + [f] == [f];
  }

  /** The file is submitted again right after the restart. */
  lemma SubmittedAgain(before: seq<Event>, f: ConfigFile)
    ensures
      var s := Run(FRESH, before + [Crash] + [Insert(f), Send(f)]);
      s.life.inserted == [f] && !s.life.faulty && s.queue.sending == multiset{}
  {
    RunRestarted(before, [Insert(f), Send(f)]);
    FirstSubmission(Step(Run(FRESH, before), Crash), f);
  }

  lemma FirstSubmission(s: Node, f: ConfigFile)
    requires s.life.inserted == [] && !s.life.faulty && s.queue.sending == multiset{}
    ensures
      var t := Run(s, [Insert(f), Send(f)]);
      t.life.inserted == [f] && !t.life.faulty && t.queue.sending == multiset{}
  {
    SubmitOne(s, f);
    assert [] + [f] == [f];
  }

  /** A run that goes on until the node is at rest, with nothing new submitted. */
  lemma ComeToRest(before: seq<Event>) returns (rest: seq<Event>)
    requires Run(FRESH, before).queue.sending == multiset{}
    ensures Smooth(rest) && Quiet(Run(FRESH, before + rest))
    ensures Run(FRESH, before + rest).life.inserted == Run(FRESH, before).life.inserted
    ensures Run(FRESH, before + rest).life.faulty == Run(FRESH, before).life.faulty
  {
    rest := Drain(before);
    RunConcat(FRESH, before, rest);
  }

  /** Such a run exists: submit the file again and let the consumer work. */
  lemma ResubmitCanComplete(before: seq<Event>, f: ConfigFile) returns (after: seq<Event>)
    ensures
      var t := Run(FRESH, before + [Crash] + after);
      Smooth(after) && Quiet(t) && !t.life.faulty && LastAndLargest(t.life, f)
  {
    var start, submit := before + [Crash], [Insert(f), Send(f)];
    SubmittedAgain(before, f);
    var rest := ComeToRest(start + submit);
    after := submit + rest;
    RunConcat(FRESH, start + submit, rest);
    RunRestarted(before, submit);
    RunConcat(Step(Run(FRESH, before), Crash), submit, rest);
    RunRestarted(before, after);
    OnlyOneIsLargest(Run(FRESH, start + after).life, f);
  }

  // ---- When the version on disk can go down ----

  /** The content of `n` is untouched, or it has a version above `floor`; so has what is reached. */
  predicate Above(s: Node, c: ConfigFile, floor: int, n: string) {
    && floor <= Reached(s.store, s.consumer, n)
    && n in s.store.contents && (s.store.contents[n] == c || floor < s.store.contents[n].version)
  }

  lemma AboveStep(s: Node, e: Event, c: ConfigFile, floor: int, n: string)
    requires DiskOrdered(s) && Above(s, c, floor, n) && !e.Crash?
    ensures Above(Step(s, e), c, floor, n)
  {
    match e
    case LockError =>
    case Write(_) =>
    case Record =>
    case Persist(_) =>
    case PersistError(_) =>
    case _ => QueueFrame(s, e);
  }

  lemma {:induction false} AboveRun(s: Node, after: seq<Event>, n: string)
    requires Safe(s) && Crash !in after && n in s.store.contents
    ensures Safe(Run(s, after))
    ensures Above(Run(s, after), s.store.contents[n], Reached(s.store, s.consumer, n), n)
  {
    if after != [] {
      var init, e := after[..|after| - 1], after[|after| - 1];
      AboveRun(s, init, n);
      SafeStep(Run(s, init), e);
      AboveStep(Run(s, init), e, s.store.contents[n], Reached(s.store, s.consumer, n), n);
    }
  }

  /** The consumer is waiting for a token, and the disk is as it was. */
  predicate Idled(s: Node, events: seq<Event>) {
    var t := Run(s, events);
    Crash !in events && t.consumer.Waiting? && t.store == s.store
  }

  /** Giving up whatever is being stored, short of recording what is written. */
  lemma GiveUp(s: Node) returns (events: seq<Event>)
    requires !s.consumer.Written?
    ensures Idled(s, events) && Run(s, events).queue.channel == s.queue.channel
  {
    match s.consumer
    case Waiting =>
      events := [];
    case Received(_) =>
      RunTwo(s, Take, LockError);
      TakeAndFail(s);
      events := [Take, LockError];
    case Storing(_) =>
      OneEvent(s, LockError);
      events := [LockError];
    case Recorded(_) =>
      OneEvent(s, PersistError(false));
      events := [PersistError(false)];
  }

  lemma OneEvent(s: Node, e: Event)
    ensures Run(s, [e]) == Step(s, e)
  {
    RunSnoc(s, [], e);
    assert [] + [e] == [e];
  }

  lemma TakeAndFail(s: Node)
    requires s.consumer.Received?
    ensures
      var t := Step(Step(s, Take), LockError);
      t.consumer.Waiting? && t.store == s.store && t.queue.channel == s.queue.channel
  {
  }

  lemma IdledTrans(s: Node, a: seq<Event>, b: seq<Event>)
    requires Idled(s, a) && Idled(Run(s, a), b)
    ensures Idled(s, a + b)
  {
    RunConcat(s, a, b);
  }

  /** Failing to lock for every token in the channel. */
  lemma {:induction false} SkipTokens(s: Node) returns (events: seq<Event>)
    requires s.consumer.Waiting?
    ensures Idled(s, events) && Run(s, events).queue.channel == []
    decreases |s.queue.channel|
  {
    events := [];
    if s.queue.channel != [] {
      RunSnoc(s, [], Recv);
      var first := [] + [Recv];
      var t := Step(s, Recv);
      var giveUp := GiveUp(t);
      RunConcat(s, first, giveUp);
      var rest := SkipTokens(Run(s, first + giveUp));
      RunConcat(s, first + giveUp, rest);
      events := first + giveUp + rest;
    }
  }

  /** A file that the version check admits can be brought to its content write. */
  lemma CanWrite(s: Node, g: ConfigFile) returns (events: seq<Event>)
    requires !s.consumer.Written? && Admits(s.store.versions, g)
    ensures Crash !in events && Run(s, events).store == s.store.(contents := s.store.contents[g.name := g])
  {
    var a := GiveUp(s);
    var b := SkipTokens(Run(s, a));
    IdledTrans(s, a, b);
    RunConcat(s, a, b);
    var t := Run(s, a + b);
    var take := [Insert(g), Send(g)] + [Recv, Take];
    WriteNext(t, g);
    RunSnoc(t, take, Write(true));
    events := a + b + (take + [Write(true)]);
    RunConcat(s, a + b, take + [Write(true)]);
  }

  /** A run from `s` without restart that leaves a smaller version of `n` on disk. */
  predicate LowersContent(s: Node, after: seq<Event>, n: string)
    requires n in s.store.contents
  {
    Crash !in after && var t := Run(s, after);
    n in t.store.contents && t.store.contents[n].version < s.store.contents[n].version
  }

  /**
   From a reachable state, crashes before it included, the version of the content on
   disk can go down if and only if a version fits between the one reached and the one
   on disk, which only a crash in the middle of a store can bring about.
   */
  lemma ContentCanGoDownIff(before: seq<Event>, n: string)
    requires n in Run(FRESH, before).store.contents
    ensures
      var s := Run(FRESH, before);
      (exists after :: LowersContent(s, after, n)) <==>
      Reached(s.store, s.consumer, n) + 1 < s.store.contents[n].version
  {
    var s := Run(FRESH, before);
    SafeRun(before);
    if after :| LowersContent(s, after, n) {
      AboveRun(s, after, n);
    }
    if Reached(s.store, s.consumer, n) + 1 < s.store.contents[n].version {
      var after := LowerFromAny(s, n);
      assert LowersContent(s, after, n);
    }
  }

  /** A content that is written but not recorded is recorded first. */
  lemma LowerFromAny(s: Node, n: string) returns (after: seq<Event>)
    requires n in s.store.contents && DiskOrdered(s)
    requires Reached(s.store, s.consumer, n) + 1 < s.store.contents[n].version
    ensures LowersContent(s, after, n)
  {
    if s.consumer.Written? {
      RunTwo(s, Record, PersistError(false));
      var more := LowerFrom(Step(Step(s, Record), PersistError(false)), n);
      RunConcat(s, [Record, PersistError(false)], more);
      after := [Record, PersistError(false)] + more;
    } else {
      after := LowerFrom(s, n);
    }
  }

  lemma LowerFrom(s: Node, n: string) returns (after: seq<Event>)
    requires n in s.store.contents && !s.consumer.Written?
    requires Reached(s.store, s.consumer, n) + 1 < s.store.contents[n].version
    ensures LowersContent(s, after, n)
  {
    after := CanWrite(s, ConfigFile(n, Reached(s.store, s.consumer, n) + 1, [], 0, None));
  }

  /** For every two files of a name: the larger one is on disk, and after a restart the smaller one is. */
  lemma RestartLetsVersionGoDown(f: ConfigFile, g: ConfigFile) returns (before: seq<Event>, after: seq<Event>)
    requires f.name == g.name && g.version < f.version
    ensures Crash !in before && Crash !in after
    ensures
      var s := Run(FRESH, before);
      var t := Run(FRESH, before + [Crash] + after);
      && f.name in s.store.contents && s.store.contents[f.name] == f
      && f.name in t.store.contents && t.store.contents[f.name] == g
  {
    before := CanWrite(FRESH, f);
    after := CanWrite(Step(Run(FRESH, before), Crash), g);
    RunRestarted(before, after);
  }
}
