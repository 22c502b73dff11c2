/**
 The line protocol between nodes (config_store/server.rs and client.rs), and what
 a remote client reads back after a push.
 */
module ConfigRemote {
  import opened Base
  import opened ConfigNode
  import opened ConfigSafety

  datatype Result<+T> = Ok(value: T) | Err(error: string)

  datatype Message =
    | QueryVersion(name: string)
    | VersionInfo(name: string, version: u32, timestamp: u64, checksum: Option<string>)
    | RequestFile(name: string, fromVersion: Option<u32>)
    | FileResponse(name: string, version: u32, content: seq<byte>, checksum: Option<string>)
    | StoreFile(name: string, version: u32, content: seq<byte>, timestamp: u64, checksum: Option<string>)
    | StoreAck(name: string, success: bool, error: Option<string>)

  // ---- Server side ----

  function GetMeta(st: Store, name: string): Option<Meta> {
    if name in st.versions then Some(st.versions[name]) else None
  }

  /**
   `get_file` looks the name up, gives the lock back and then reads the content file:
   `first` and `second` are the store at those two moments.  Reading the content file
   fails when it is missing.
   */
  function ReadFile(first: Store, second: Store, name: string): Result<Option<ConfigFile>> {
    match GetMeta(first, name)
    case None => Ok(None)
    case Some(m) =>
      if name in second.contents then
        Ok(Some(ConfigFile(name, m.version, second.contents[name].content, m.timestamp, m.checksum)))
      else Err("IO")
  }

  function FileReply(name: string, result: Result<Option<ConfigFile>>): Message {
    match result
    case Ok(Some(f)) => FileResponse(f.name, f.version, f.content, f.checksum)
    case _ => FileResponse(name, 0, [], None)
  }

  /** The reply of `dispatch`; a StoreFile is acknowledged as soon as it is queued. */
  function Dispatch(st: Store, msg: Message): Message {
    match msg
    case QueryVersion(name) =>
      (match GetMeta(st, name)
       case Some(m) => VersionInfo(m.name, m.version, m.timestamp, m.checksum)
       case None => VersionInfo(name, 0, 0, None))
    case RequestFile(name, _) => FileReply(name, ReadFile(st, st, name))
    case StoreFile(name, _, _, _, _) => StoreAck(name, true, None)
    case _ => StoreAck("", false, Some("unsupported request"))
  }

  /** The effect of `dispatch`: store_local submits the file, in two steps. */
  function Effect(msg: Message): seq<Event> {
    match msg
    case StoreFile(name, version, content, timestamp, checksum) =>
      var f := ConfigFile(name, version, content, timestamp, checksum);
      [Insert(f), Send(f)]
    case _ => []
  }

  // ---- Client side ----

  function DecodeVersion(name: string, reply: Message): Result<Option<Meta>> {
    match reply
    case VersionInfo(_, version, timestamp, checksum) =>
      if version == 0 && timestamp == 0 then Ok(None) else Ok(Some(Meta(name, version, timestamp, checksum)))
    case _ => Err("unexpected reply")
  }

  function DecodeFile(name: string, reply: Message): Result<Option<ConfigFile>> {
    match reply
    case FileResponse(_, version, content, checksum) =>
      if version == 0 && content == [] then Ok(None)
      else Ok(Some(ConfigFile(name, version, content, 0, checksum)))
    case _ => Err("unexpected reply")
  }

  function DecodeAck(reply: Message): Result<bool> {
    match reply
    case StoreAck(_, success, error) =>
      if success then Ok(true) else Err(if error.Some? then error.value else "store failed")
    case _ => Err("unexpected reply")
  }

  function PushMessage(f: ConfigFile): Message {
    StoreFile(f.name, f.version, f.content, f.timestamp, f.checksum)
  }

  /** query_version and request_file, as seen by the remote client. */
  function RemoteVersion(st: Store, name: string): Result<Option<Meta>> {
    DecodeVersion(name, Dispatch(st, QueryVersion(name)))
  }

  function RemoteFile(st: Store, name: string): Result<Option<ConfigFile>> {
    DecodeFile(name, Dispatch(st, RequestFile(name, None)))
  }

  /** The client gets back all of `f` that the protocol carries. */
  predicate ReadsBack(st: Store, f: ConfigFile) {
    && RemoteVersion(st, f.name) == Ok(Some(Meta(f.name, f.version, f.timestamp, f.checksum)))
    && RemoteFile(st, f.name) == Ok(Some(f.(timestamp := 0)))
  }

  /**
   At every point of every run the two remote reads answer, and they answer None
   exactly for a name that is not stored or whose values look like "nothing".
   */
  lemma RemoteReadsExact(events: seq<Event>, name: string)
    ensures
      var st := Run(FRESH, events).store;
      && (name in st.versions ==> name in st.contents)
      && RemoteVersion(st, name).Ok? && RemoteFile(st, name).Ok?
      && (RemoteVersion(st, name).value.None? <==>
            name !in st.versions || (st.versions[name].version == 0 && st.versions[name].timestamp == 0))
      && (RemoteVersion(st, name).value.Some? ==> RemoteVersion(st, name).value.value == st.versions[name])
      && (RemoteFile(st, name).value.None? <==>
            name !in st.versions || (st.versions[name].version == 0 && st.contents[name].content == []))
      && (RemoteFile(st, name).value.Some? ==>
            var m := st.versions[name];
            RemoteFile(st, name).value.value == ConfigFile(name, m.version, st.contents[name].content, 0, m.checksum))
  {
    SafeRun(events);
  }

  /** Each call reports an error for every reply but its own kind, and for a refused push. */
  lemma RepliesAreTold(name: string, reply: Message)
    ensures DecodeVersion(name, reply).Ok? <==> reply.VersionInfo?
    ensures DecodeFile(name, reply).Ok? <==> reply.FileResponse?
    ensures DecodeAck(reply).Ok? <==> reply.StoreAck? && reply.success
    ensures DecodeAck(reply).Ok? ==> DecodeAck(reply).value
  {
  }

  /** A message that is not a request is refused, and has no effect. */
  lemma OtherMessagesAreRefused(st: Store, msg: Message)
    requires !msg.QueryVersion? && !msg.RequestFile? && !msg.StoreFile?
    ensures Effect(msg) == [] && DecodeAck(Dispatch(st, msg)).Err?
  {
  }

  // ---- Runs that deliver a given list of files ----

  lemma RunSnoc(s: Node, events: seq<Event>, e: Event)
    ensures Run(s, events + [e]) == Step(Run(s, events), e)
  {
    assert (events + [e])[..|events|] == events;
  }

  lemma RunTwo(s: Node, e0: Event, e1: Event)
    ensures Run(s, [e0, e1]) == Step(Step(s, e0), e1)
  {
    RunSnoc(s, [], e0);
    assert [] + [e0] == [e0] && [e0] + [e1] == [e0, e1];
    RunSnoc(s, [e0], e1);
    assert Run(s, []) == s;
  }

  /** `submit` run without interruption. */
  lemma SubmitOne(s: Node, f: ConfigFile)
    ensures Run(s, [Insert(f), Send(f)]) ==
            Node(Queue(s.queue.pending[f.name := f], s.queue.channel + [f], s.queue.sending),
                 s.consumer, s.store, s.life.(inserted := s.life.inserted + [f]))
  {
    RunTwo(s, Insert(f), Send(f));
    assert s.queue.sending + multiset{f} - multiset{f} == s.queue.sending;
  }

  /** A push is acknowledged, and its effect is exactly the submission of the same file. */
  lemma PushSubmits(s: Node, f: ConfigFile)
    ensures DecodeAck(Dispatch(s.store, PushMessage(f))) == Ok(true)
    ensures
      Run(s, Effect(PushMessage(f))) ==
      Node(Queue(s.queue.pending[f.name := f], s.queue.channel + [f], s.queue.sending),
           s.consumer, s.store, s.life.(inserted := s.life.inserted + [f]))
  {
    SubmitOne(s, f);
  }

  /** A run without restart or lost write that submitted exactly `files` and came to rest. */
  predicate Delivers(events: seq<Event>, files: seq<ConfigFile>) {
    var s := Run(FRESH, events);
    Crash !in events && s.life.inserted == files && !s.life.faulty && Quiet(s)
  }

  lemma {:induction false} BaseStays(events: seq<Event>)
    requires Crash !in events
    ensures Run(FRESH, events).life.base == map[]
  {
    if events != [] {
      BaseStays(events[..|events| - 1]);
      var s, e := Run(FRESH, events[..|events| - 1]), events[|events| - 1];
      if StoreEvent(e) {
        StoreFrame(s, e);
      } else {
        QueueFrame(s, e);
      }
    }
  }

  predicate NewestAmong(files: seq<ConfigFile>, f: ConfigFile) {
    forall g :: g in files && g.name == f.name && g != f ==> g.version < f.version
  }

  /**
   End to end: whatever the interleaving, a pushed file that is the last of its
   name and above every other version of it is what a remote client reads back,
   once the queue has drained.
   */
  lemma LastNewestReadsBack(events: seq<Event>, files: seq<ConfigFile>, f: ConfigFile)
    requires Delivers(events, files) && f in files && NewestAmong(files, f) && f.version > 0
    requires Of(f.name, files) != [] && LastOf(f.name, files) == f
    ensures ReadsBack(Run(FRESH, events).store, f)
  {
    BaseStays(events);
    forall g | g in Of(f.name, files)
      ensures g in files && g.name == f.name
    {
      OfMember(f.name, files, g);
    }
    NoLostUpdate(events, f.name);
  }

  /** A name never pushed reads as None. */
  lemma NeverPushedReadsNone(events: seq<Event>, files: seq<ConfigFile>, n: string)
    requires Delivers(events, files) && (forall g :: g in files ==> g.name != n)
    ensures RemoteVersion(Run(FRESH, events).store, n) == Ok(None)
    ensures RemoteFile(Run(FRESH, events).store, n) == Ok(None)
  {
    var s := Run(FRESH, events);
    SafeRun(events);
    BaseStays(events);
    assert OriginAt(s, n);
    if FromRun(s, n) {
      HandedWasInserted(s, s.store.contents[n]);
      OfMember(n, files, s.store.contents[n]);
    }
  }

  // ---- The condition is exact: building a run that loses an overwritten file ----

  /** Every file has been submitted and the consumer has not woken up. */
  predicate AllSubmitted(s: Node, files: seq<ConfigFile>) {
    && s.life == Life(map[], files, [], false) && s.consumer.Waiting?
    && s.queue.channel == files && s.queue.sending == multiset{}
  }

  lemma {:induction false} SubmitAll(files: seq<ConfigFile>) returns (events: seq<Event>)
    ensures Crash !in events && AllSubmitted(Run(FRESH, events), files)
  {
    if files == [] {
      events := [];
    } else {
      var f := files[|files| - 1];
      assert files == files[..|files| - 1] + [f];
      var before := SubmitAll(files[..|files| - 1]);
      events := before + [Insert(f), Send(f)];
      var s := Run(FRESH, before);
      SubmitOne(s, f);
      assert AllSubmitted(Run(s, [Insert(f), Send(f)]), files);
      RunConcat(FRESH, before, [Insert(f), Send(f)]);
    }
  }

  lemma {:induction false} SomeListing(versions: map<string, Meta>) returns (listing: seq<Meta>)
    requires forall n :: n in versions ==> versions[n].name == n
    ensures IsListing(listing, versions)
    decreases |versions|
  {
    if versions == map[] {
      listing := [];
    } else {
      var n :| n in versions;
      var rest := SomeListing(versions - {n});
      listing := [versions[n]] + rest;
      assert forall m :: m in versions && m != n ==> (versions - {n})[m] in rest;
      assert |(versions - {n}).Keys| < |versions.Keys| by {
        assert (versions - {n}).Keys == versions.Keys - {n};
      }
    }
  }

  /** Everything handed to `store` in t was already handed over or pending in s. */
  predicate OnlyFrom(s: Node, t: Node) {
    && (forall n :: n in t.queue.pending ==> n in s.queue.pending && t.queue.pending[n] == s.queue.pending[n])
    && (forall f :: f in t.life.handed ==>
          f in s.life.handed || (f.name in s.queue.pending && s.queue.pending[f.name] == f))
  }

  /** No restart, and the index is written whenever it should be. */
  predicate Smooth(events: seq<Event>) {
    forall e :: e in events ==> !e.Crash? && !e.PersistError?
  }

  /** Steps of the consumer alone that end with it waiting again. */
  predicate Consumed(s: Node, events: seq<Event>, t: Node) {
    && t == Run(s, events) && Smooth(events)
    && t.consumer.Waiting? && t.queue.sending == s.queue.sending
    && t.life.base == s.life.base && t.life.inserted == s.life.inserted && t.life.faulty == s.life.faulty
    && OnlyFrom(s, t)
  }

  /** The consumer can write the index. */
  lemma FinishPersist(s: Node) returns (events: seq<Event>)
    requires s.consumer.Recorded? && DiskOrdered(s)
    ensures Consumed(s, events, Run(s, events)) && Run(s, events).queue == s.queue
  {
    var listing := SomeListing(s.store.versions);
    RunSnoc(s, [], Persist(listing));
    PersistEnds(s, listing);
    events := [] + [Persist(listing)];
  }

  lemma PersistEnds(s: Node, listing: seq<Meta>)
    requires s.consumer.Recorded? && IsListing(listing, s.store.versions)
    ensures Step(s, Persist(listing)) == s.(store := s.store.(index := Some(listing)), consumer := Waiting)
  {
  }

  lemma FinishRecord(s: Node) returns (events: seq<Event>)
    requires s.consumer.Written? && DiskOrdered(s)
    ensures Consumed(s, events, Run(s, events)) && Run(s, events).queue == s.queue
  {
    DiskOrderedRecord(s);
    RunSnoc(s, [], Record);
    var more := FinishPersist(Step(s, Record));
    RunConcat(s, [] + [Record], more);
    events := [] + [Record] + more;
  }

  /** The consumer can always finish `store` without a fault. */
  lemma FinishStore(s: Node) returns (events: seq<Event>)
    requires s.consumer.Storing? && DiskOrdered(s)
    ensures Consumed(s, events, Run(s, events)) && Run(s, events).queue == s.queue
  {
    RunSnoc(s, [], Write(true));
    events := [] + [Write(true)];
    if Admits(s.store.versions, s.consumer.file) {
      DiskOrderedWrite(s, true);
      var more := FinishRecord(Step(s, Write(true)));
      RunConcat(s, events, more);
      events := events + more;
    }
  }

  /** From holding a token to waiting again. */
  lemma FinishToken(s: Node) returns (events: seq<Event>)
    requires s.consumer.Received? && DiskOrdered(s)
    requires forall n :: n in s.queue.pending ==> s.queue.pending[n].name == n
    ensures Consumed(s, events, Run(s, events)) && Run(s, events).queue.channel == s.queue.channel
  {
    RunSnoc(s, [], Take);
    events := [] + [Take];
    var t := Step(s, Take);
    if t.consumer.Storing? {
      var more := FinishStore(t);
      RunConcat(s, events, more);
      events := events + more;
    }
  }

  /** Wherever the consumer stands, it can get back to waiting. */
  lemma Finish(s: Node) returns (events: seq<Event>)
    requires DiskOrdered(s)
    requires forall n :: n in s.queue.pending ==> s.queue.pending[n].name == n
    ensures Consumed(s, events, Run(s, events)) && Run(s, events).queue.channel == s.queue.channel
  {
    match s.consumer
    case Waiting => events := [];
    case Received(_) => events := FinishToken(s);
    case Storing(_) => events := FinishStore(s);
    case Written(_) => events := FinishRecord(s);
    case Recorded(_) => events := FinishPersist(s);
  }

  /** One iteration of the consumer loop. */
  lemma ConsumeOne(s: Node) returns (events: seq<Event>)
    requires s.consumer.Waiting? && s.queue.channel != [] && DiskOrdered(s)
    requires forall n :: n in s.queue.pending ==> s.queue.pending[n].name == n
    ensures Consumed(s, events, Run(s, events)) && Run(s, events).queue.channel == s.queue.channel[1..]
  {
    RunSnoc(s, [], Recv);
    var t := Step(s, Recv);
    QueueFrame(s, Recv);
    var more := FinishToken(t);
    RunConcat(s, [] + [Recv], more);
    events := [] + [Recv] + more;
  }

  lemma ConsumedTrans(s: Node, a: seq<Event>, b: seq<Event>)
    requires Consumed(s, a, Run(s, a)) && Consumed(Run(s, a), b, Run(Run(s, a), b))
    ensures Consumed(s, a + b, Run(s, a + b))
  {
    RunConcat(s, a, b);
  }

  lemma {:induction false} EmptyChannel(before: seq<Event>) returns (events: seq<Event>)
    requires Run(FRESH, before).consumer.Waiting? && Run(FRESH, before).queue.sending == multiset{}
    ensures Consumed(Run(FRESH, before), events, Run(Run(FRESH, before), events))
    ensures Quiet(Run(Run(FRESH, before), events))
    decreases |Run(FRESH, before).queue.channel|
  {
    var s := Run(FRESH, before);
    SafeRun(before);
    if s.queue.channel == [] {
      events := [];
    } else {
      var first := ConsumeOne(s);
      RunConcat(FRESH, before, first);
      var rest := EmptyChannel(before + first);
      events := first + rest;
      ConsumedTrans(s, first, rest);
      RunConcat(s, first, rest);
    }
  }

  /**
   From every reachable state in which no submitter is mid-way, the consumer alone
   can bring the node to rest, and then every file that was pending has been handed
   to `store`.
   */
  lemma Drain(before: seq<Event>) returns (events: seq<Event>)
    requires Run(FRESH, before).queue.sending == multiset{}
    ensures
      var s, t := Run(FRESH, before), Run(Run(FRESH, before), events);
      && Consumed(s, events, t) && Quiet(t)
      && forall n :: n in s.queue.pending ==> s.queue.pending[n] in t.life.handed
  {
    var s := Run(FRESH, before);
    SafeRun(before);
    var first := Finish(s);
    RunConcat(FRESH, before, first);
    var rest := EmptyChannel(before + first);
    events := first + rest;
    ConsumedTrans(s, first, rest);
    RunConcat(s, first, rest);
    RunConcat(FRESH, before, events);
    SafeRun(before + events);
    var t := Run(s, events);
    forall n | n in s.queue.pending
      ensures s.queue.pending[n] in t.life.handed
    {
      PendingIsLast(s, n);
      LastIsHanded(t, n);
    }
  }

  /** A pending file is the last one inserted under its name. */
  lemma PendingIsLast(s: Node, n: string)
    requires Ordered(s) && n in s.queue.pending
    ensures Of(n, s.life.inserted) != [] && LastOf(n, s.life.inserted) == s.queue.pending[n]
  {
    assert OrderedAt(s.queue, s.life, n);
    var offered := Offered(s.queue, s.life, n);
    assert offered[|offered| - 1] == s.queue.pending[n];
  }

  /** A quiet node that never handed `f` to `store` does not read it back. */
  lemma NotHandedNotRead(events: seq<Event>, files: seq<ConfigFile>, f: ConfigFile)
    requires Delivers(events, files) && NewestAmong(files, f) && f !in Run(FRESH, events).life.handed
    ensures !ReadsBack(Run(FRESH, events).store, f)
  {
    var t := Run(FRESH, events);
    SafeRun(events);
    BaseStays(events);
    assert OriginAt(t, f.name);
    if FromRun(t, f.name) {
      HandedWasInserted(t, t.store.contents[f.name]);
      OfMember(f.name, files, t.store.contents[f.name]);
    }
  }

  /** Before the consumer has run, only the last file of a name is pending. */
  lemma OnlyLastIsPending(events: seq<Event>, n: string)
    requires Run(FRESH, events).life.handed == [] && Of(n, Run(FRESH, events).life.inserted) != []
    ensures
      var s := Run(FRESH, events);
      n in s.queue.pending && s.queue.pending[n] == LastOf(n, s.life.inserted)
  {
    var s := Run(FRESH, events);
    SafeRun(events);
    assert OrderedAt(s.queue, s.life, n);
    assert Offered(s.queue, s.life, n) == PendingOf(s.queue, n);
  }

  /** When `f` is not the last of its name, some interleaving never stores it. */
  lemma OverwrittenCanBeLost(files: seq<ConfigFile>, f: ConfigFile) returns (events: seq<Event>)
    requires f in files && NewestAmong(files, f) && Of(f.name, files) != [] && LastOf(f.name, files) != f
    ensures Delivers(events, files) && !ReadsBack(Run(FRESH, events).store, f)
  {
    var before := SubmitAll(files);
    OnlyLastIsPending(before, f.name);
    var rest := Drain(before);
    events := before + rest;
    RunConcat(FRESH, before, rest);
    assert f !in Run(FRESH, events).life.handed;
    NotHandedNotRead(events, files, f);
  }

  /**
   Submitting a file is safe in every interleaving exactly when no other file of
   its name is submitted after it: `submit` overwrites a pending file without
   comparing versions, so even the file with the largest version can vanish.
   */
  lemma ReadBackIffLast(files: seq<ConfigFile>, f: ConfigFile)
    requires f in files && NewestAmong(files, f) && f.version > 0 && Of(f.name, files) != []
    ensures (forall events :: Delivers(events, files) ==> ReadsBack(Run(FRESH, events).store, f))
            <==> LastOf(f.name, files) == f
  {
    if LastOf(f.name, files) == f {
      forall events | Delivers(events, files)
        ensures ReadsBack(Run(FRESH, events).store, f)
      {
        LastNewestReadsBack(events, files, f);
      }
    } else {
      var events := OverwrittenCanBeLost(files, f);
    }
  }

  /** A run that stores one file on a fresh node. */
  lemma StoreOne(f: ConfigFile) returns (events: seq<Event>)
    ensures Delivers(events, [f]) && Holds(Run(FRESH, events).store, f)
  {
    var before := SubmitAll([f]);
    var rest := Drain(before);
    events := before + rest;
    RunConcat(FRESH, before, rest);
    BaseStays(events);
    OfSnoc(f.name, [], f);
    assert [] + [f] == [f];
    NoLostUpdate(events, f.name);
  }

  /** A stored file with version, timestamp and content zero or empty reads as absent. */
  lemma ZeroReadsAsAbsent(name: string, checksum: Option<string>) returns (events: seq<Event>)
    ensures
      var f, st := ConfigFile(name, 0, [], 0, checksum), Run(FRESH, events).store;
      Holds(st, f) && RemoteVersion(st, name) == Ok(None) && RemoteFile(st, name) == Ok(None)
  {
    events := StoreOne(ConfigFile(name, 0, [], 0, checksum));
  }
}
