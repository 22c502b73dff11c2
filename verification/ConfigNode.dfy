/**
 One node of the distributed config store (src-tauri/src/config_store): many
 connection tasks submit versioned files, one consumer task writes them to disk.

 The node is a step machine.  An event that is not enabled leaves the node as it
 is, so a run is any sequence of events and covers every interleaving.
 */
module ConfigNode {
  import opened Base

  datatype Meta = Meta(name: string, version: u32, timestamp: u64, checksum: Option<string>)

  datatype ConfigFile = ConfigFile(
    name: string, version: u32, content: seq<byte>, timestamp: u64, checksum: Option<string>)
  {
    function ToMeta(): Meta {
      Meta(name, version, timestamp, checksum)
    }
  }

  /** Program counter of the consumer task: between two steps it holds at most one file. */
  datatype Consumer =
    | Waiting                      // in `recv().await`
    | Received(name: string)       // holds a token, `pending` not yet locked
    | Storing(file: ConfigFile)    // inside `store`, nothing written
    | Written(file: ConfigFile)    // content file written
    | Recorded(file: ConfigFile)   // in-memory index updated, versions.json not yet written

  /** Shared by the submitters and the consumer. */
  datatype Queue = Queue(
    pending: map<string, ConfigFile>,
    channel: seq<ConfigFile>,
    sending: multiset<ConfigFile>)   // submitters between the insert and the send

  /**
   `contents` is the directory configs/ : per name, the file whose bytes it holds.
   `index` is versions.json, None when it is absent or does not parse.
   */
  datatype Store = Store(
    versions: map<string, Meta>,
    contents: map<string, ConfigFile>,
    index: Option<seq<Meta>>)

  /**
   What happened since the process last started: the index it loaded, the files
   inserted into `pending`, the files handed to `store`, and whether taking the
   lock or writing a content file failed.
   */
  datatype Life = Life(
    base: map<string, Meta>,
    inserted: seq<ConfigFile>,
    handed: seq<ConfigFile>,
    faulty: bool)

  datatype Node = Node(queue: Queue, consumer: Consumer, store: Store, life: Life)

  datatype Event =
    | Insert(file: ConfigFile)        // submit: pending.insert
    | Send(file: ConfigFile)          // submit: sender.send
    | Recv                            // consumer: a token arrives
    | Take                            // consumer: pending.remove
    | LockError                       // store: the lock file cannot be opened or locked
    | Write(ok: bool)                 // store: version check, then fs::write of the content
    | Record                          // store: versions.insert
    | Persist(listing: seq<Meta>)     // store: versions.json written in some map order
    | PersistError(torn: bool)        // store: writing versions.json fails
    | Crash                           // the process dies and starts again

  /** load_versions: the JSON array collected into a map; later entries win. */
  function LoadList(metas: seq<Meta>): map<string, Meta> {
    if metas == [] then map[]
    else
      var m := metas[|metas| - 1];
      LoadList(metas[..|metas| - 1])[m.name := m]
  }

  function Load(index: Option<seq<Meta>>): map<string, Meta> {
    match index
    case None => map[]
    case Some(metas) => LoadList(metas)
  }

  /** `listing` is what iterating over the map's values can give, in any order. */
  predicate IsListing(listing: seq<Meta>, versions: map<string, Meta>) {
    && (forall i :: 0 <= i < |listing| ==> listing[i].name in versions && versions[listing[i].name] == listing[i])
    && (forall n :: n in versions ==> versions[n] in listing)
  }

  /** The version check of `store`: an equal or newer stored version refuses the file. */
  predicate Admits(versions: map<string, Meta>, f: ConfigFile) {
    f.name in versions ==> versions[f.name].version < f.version
  }

  /** A process starting on what the disk holds. */
  function Boot(contents: map<string, ConfigFile>, index: Option<seq<Meta>>): Node {
    Node(Queue(map[], [], multiset{}), Waiting, Store(Load(index), contents, index), Life(Load(index), [], [], false))
  }

  const FRESH: Node := Boot(map[], None)

  function Step(s: Node, e: Event): Node {
    var q, c, st, l := s.queue, s.consumer, s.store, s.life;
    match e
    case Insert(f) =>
      s.(queue := Queue(q.pending[f.name := f], q.channel, q.sending + multiset{f}),
         life := l.(inserted := l.inserted + [f]))
    case Send(f) =>
      if f in q.sending then s.(queue := Queue(q.pending, q.channel + [f], q.sending - multiset{f})) else s
    case Recv =>
      if c.Waiting? && q.channel != [] then
        s.(queue := q.(channel := q.channel[1..]), consumer := Received(q.channel[0].name))
      else s
    case Take =>
      if !c.Received? then s
      else if c.name in q.pending then
        var f := q.pending[c.name];
        s.(queue := q.(pending := q.pending - {c.name}),
           consumer := Storing(f),
           life := l.(handed := l.handed + [f]))
      else s.(consumer := Waiting)
    case LockError =>
      if c.Storing? then s.(consumer := Waiting, life := l.(faulty := true)) else s
    case Write(ok) =>
      if !c.Storing? then s
      else if !Admits(st.versions, c.file) then s.(consumer := Waiting)
      else if ok then
        s.(store := st.(contents := st.contents[c.file.name := c.file]), consumer := Written(c.file))
      else s.(consumer := Waiting, life := l.(faulty := true))
    case Record =>
      if c.Written? then
        s.(store := st.(versions := st.versions[c.file.name := c.file.ToMeta()]), consumer := Recorded(c.file))
      else s
    case Persist(listing) =>
      if c.Recorded? && IsListing(listing, st.versions) then
        s.(store := st.(index := Some(listing)), consumer := Waiting)
      else s
    case PersistError(torn) =>
      if c.Recorded? then
        s.(store := st.(index := if torn then None else st.index), consumer := Waiting)
      else s
    case Crash => Boot(st.contents, st.index)
  }

  function Run(s: Node, events: seq<Event>): Node {
    if events == [] then s
    else Step(Run(s, events[..|events| - 1]), events[|events| - 1])
  }

  lemma {:induction false} RunConcat(s: Node, a: seq<Event>, b: seq<Event>)
    ensures Run(s, a + b) == Run(Run(s, a), b)
  {
    if b == [] {
      assert a + b == a;
    } else {
      RunConcat(s, a, b[..|b| - 1]);
      assert (a + b)[..|a + b| - 1] == a + b[..|b| - 1];
    }
  }

  /** Nothing is in flight: no submitter, no token, no file at the consumer. */
  predicate Quiet(s: Node) {
    s.queue.sending == multiset{} && s.queue.channel == [] && s.consumer.Waiting?
  }

  /** The files of one name, in order. */
  function Of(n: string, files: seq<ConfigFile>): seq<ConfigFile> {
    if files == [] then []
    else
      var f, rest := files[|files| - 1], Of(n, files[..|files| - 1]);
      if f.name == n then rest + [f] else rest
  }

  lemma {:induction false} OfMember(n: string, files: seq<ConfigFile>, f: ConfigFile)
    ensures f in Of(n, files) <==> f in files && f.name == n
  {
    if files != [] {
      OfMember(n, files[..|files| - 1], f);
      assert files == files[..|files| - 1] + [files[|files| - 1]];
    }
  }

  lemma OfSnoc(n: string, files: seq<ConfigFile>, f: ConfigFile)
    ensures Of(n, files + [f]) == if f.name == n then Of(n, files) + [f] else Of(n, files)
  {
    assert (files + [f])[..|files|] == files;
  }

  /** Writing the index and loading it again gives back the same map, whatever the order. */
  lemma {:induction false} LoadListing(listing: seq<Meta>, versions: map<string, Meta>)
    requires IsListing(listing, versions)
    requires forall n :: n in versions ==> versions[n].name == n
    ensures LoadList(listing) == versions
  {
    LoadedFrom(listing, versions);
    forall n | n in versions
      ensures n in LoadList(listing)
    {
      LoadedAll(listing, versions[n]);
    }
  }

  lemma {:induction false} LoadedFrom(listing: seq<Meta>, versions: map<string, Meta>)
    requires forall i :: 0 <= i < |listing| ==> listing[i].name in versions && versions[listing[i].name] == listing[i]
    ensures forall n :: n in LoadList(listing) ==> n in versions && LoadList(listing)[n] == versions[n]
  {
    if listing != [] {
      LoadedFrom(listing[..|listing| - 1], versions);
    }
  }

  lemma {:induction false} LoadedAll(listing: seq<Meta>, m: Meta)
    requires m in listing
    ensures m.name in LoadList(listing)
  {
    if m != listing[|listing| - 1] {
      LoadedAll(listing[..|listing| - 1], m);
    }
  }
}
