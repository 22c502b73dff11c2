/**
 The node as the program writes it: `StoreQueue` and `ConfigStore` with their
 fields updated in place (config_store/queue.rs, store.rs).  The ghost field
 `node` is the state of the step machine; every method moves it by steps only,
 so whatever the step machine keeps the methods keep.
 */
module ConfigService {
  import opened Base
  import opened ConfigNode
  import opened ConfigSafety
  import Remote = ConfigRemote

  datatype StoreResult = Stored | VersionConflict | Io

  /** What the file system does during one call of `store`. */
  datatype Disk = Disk(lockOk: bool, writeOk: bool, persistOk: bool, torn: bool)

  /**
   What one call of `store` leaves in memory, in the content files and in the index:
   a file with a larger version than the one recorded is in all three, unless the
   lock or a write failed.
   */
  predicate Outcome(before: Store, f: ConfigFile, disk: Disk, after: Store) {
    if !disk.lockOk || !disk.writeOk || (f.name in before.versions && before.versions[f.name].version >= f.version)
    then after == before
    else
      && after.versions == before.versions[f.name := Meta(f.name, f.version, f.timestamp, f.checksum)]
      && after.contents == before.contents[f.name := f]
      && if disk.persistOk then Load(after.index) == after.versions
         else after.index == if disk.torn then None else before.index
  }

  /** The last file submitted for `n` is not lost; where it is the newest it is exactly what is held. */
  predicate Kept(s: Node, n: string)
    requires Of(n, s.life.inserted) != []
  {
    var last := LastOf(n, s.life.inserted);
    && n in s.store.versions && s.store.versions[n].version >= last.version
    && (Newest(s.life, last) ==>
          && s.store.versions[n] == Meta(n, last.version, last.timestamp, last.checksum)
          && n in s.store.contents && s.store.contents[n] == last)
  }

  /** Reading versions.json: a missing or unreadable index is an empty one. */
  method LoadVersions(index: Option<seq<Meta>>) returns (versions: map<string, Meta>)
    ensures versions == Load(index)
    ensures forall n :: n in versions ==> versions[n].name == n && index.Some? && versions[n] in index.value
  {
    versions := map[];
    if index.Some? {
      var metas := index.value;
      for i := 0 to |metas|
        invariant versions == LoadList(metas[..i])
        invariant forall n :: n in versions ==> versions[n].name == n && versions[n] in metas
      {
        versions := versions[metas[i].name := metas[i]];
        assert metas[..i + 1][..i] == metas[..i];
      }
      assert metas[..|metas|] == metas;
    }
  }

  /** A process that starts on the disk of a reachable node is reachable. */
  lemma Restart(previous: Node)
    requires Reachable(previous)
    ensures
      var st := previous.store;
      && Reachable(Step(previous, Crash))
      && Step(previous, Crash) == Boot(st.contents, st.index)
      && BehindContents(Load(st.index), st.contents)
  {
    ReachableStep(previous, Crash);
    ReachableIsSafe(previous);
  }

  class ConfigStoreService {
    var pending: map<string, ConfigFile>
    var channel: seq<ConfigFile>
    var versions: map<string, Meta>
    var contents: map<string, ConfigFile>
    var index: Option<seq<Meta>>
    ghost var node: Node

    ghost predicate Valid()
      reads this
    {
      && node.queue.pending == pending && node.queue.channel == channel
      && node.store == Store(versions, contents, index)
      && Reachable(node)
    }

    /**
     ConfigStore::new on the directory that `previous` left behind (FRESH for an empty
     one), with an empty queue.
     */
    constructor (contents: map<string, ConfigFile>, index: Option<seq<Meta>>, ghost previous: Node)
      requires Reachable(previous) && previous.store.contents == contents && previous.store.index == index
      ensures Valid() && node == Step(previous, Crash)
      ensures versions == Load(index) && BehindContents(versions, contents)
    {
      var loaded := LoadVersions(index);
      pending, channel, versions := map[], [], loaded;
      this.contents, this.index := contents, index;
      node := Step(previous, Crash);
      new;
      Restart(previous);
    }

    method InsertPending(file: ConfigFile)
      requires Valid()
      modifies this
      ensures Valid() && node == Step(old(node), Insert(file))
    {
      pending := pending[file.name := file];
      Advance(Insert(file));
    }

    method SendToken(file: ConfigFile)
      requires Valid() && file in node.queue.sending
      modifies this
      ensures Valid() && node == Step(old(node), Send(file))
    {
      channel := channel + [file];
      Advance(Send(file));
    }

    method Submit(file: ConfigFile)
      requires Valid()
      modifies this
      ensures Valid() && node == Run(old(node), [Insert(file), Send(file)])
    {
      InsertPending(file);
      Remote.RunTwo(old(node), Insert(file), Send(file));
      SendToken(file);
    }

    method PendingLen() returns (n: nat)
      requires Valid()
      ensures n == |pending| && (Quiet(node) ==> n == 0)
    {
      n := |pending|;
      if Quiet(node) {
        ReachableIsSafe(node);
        QuietHasNoPending(node);
      }
    }

    method GetMeta(name: string) returns (meta: Option<Meta>)
      requires Valid()
      ensures meta.Some? <==> name in versions
      ensures meta.Some? ==> meta.value == versions[name] && meta.value.name == name
      ensures meta == Remote.GetMeta(node.store, name)
    {
      ReachableIsSafe(node);
      meta := if name in versions then Some(versions[name]) else None;
    }

    /** Iterating over the version map, in whatever order the map yields. */
    method ListMeta() returns (metas: seq<Meta>)
      requires Valid()
      ensures IsListing(metas, versions) && LoadList(metas) == versions
    {
      ReachableIsSafe(node);
      metas := [];
      var todo := versions.Keys;
      while todo != {}
        invariant todo <= versions.Keys
        invariant forall i :: 0 <= i < |metas| ==> metas[i].name in versions && versions[metas[i].name] == metas[i]
        invariant forall n :: n in versions && n !in todo ==> versions[n] in metas
        decreases |todo|
      {
        var n :| n in todo;
        metas := metas + [versions[n]];
        todo := todo - {n};
      }
      LoadListing(metas, versions);
    }

    /** Takes one step of the machine. */
    ghost method Advance(e: Event)
      requires Reachable(node)
      modifies this`node
      ensures node == Step(old(node), e) && Reachable(node)
    {
      ReachableStep(node, e);
      node := Step(node, e);
    }

    method PersistVersions(disk: Disk) returns (ok: bool)
      requires Valid() && node.consumer.Recorded?
      modifies this`index, this`node
      ensures Valid() && ok == disk.persistOk
      ensures ok ==> Load(index) == versions
      ensures !ok ==> index == if disk.torn then None else old(index)
      ensures node == old(node).(store := old(node).store.(index := index), consumer := Waiting)
    {
      if !disk.persistOk {
        index := if disk.torn then None else index;
        Advance(PersistError(disk.torn));
        return false;
      }
      var metas := ListMeta();
      index := Some(metas);
      Advance(Persist(metas));
      ok := true;
    }

    method WriteContent(file: ConfigFile)
      requires Valid() && node.consumer == Storing(file) && Admits(versions, file)
      modifies this`contents, this`node
      ensures Valid() && contents == old(contents)[file.name := file]
      ensures node == old(node).(store := old(node).store.(contents := contents), consumer := Written(file))
    {
      contents := contents[file.name := file];
      Advance(Write(true));
    }

    method RecordVersion(file: ConfigFile)
      requires Valid() && node.consumer == Written(file)
      modifies this`versions, this`node
      ensures Valid() && versions == old(versions)[file.name := file.ToMeta()]
      ensures node == old(node).(store := old(node).store.(versions := versions), consumer := Recorded(file))
    {
      versions := versions[file.name := file.ToMeta()];
      Advance(Record);
    }

    /**
     `store`, under one fate of the file system.  It reports a conflict exactly
     when an equal or newer version is held; a refused or failed call before the
     content write changes nothing; success leaves memory, content and index
     holding the file, and no other name is touched.
     */
    method StoreFile(file: ConfigFile, disk: Disk) returns (r: StoreResult)
      requires Valid() && node.consumer == Storing(file)
      modifies this`versions, this`contents, this`index, this`node
      ensures Valid() && node.consumer.Waiting? && node.queue == old(node.queue)
      ensures node.life.(faulty := false) == old(node.life).(faulty := false)
      ensures r.VersionConflict? <==> disk.lockOk && !Admits(old(versions), file)
      ensures r.Stored? <==> disk.lockOk && Admits(old(versions), file) && disk.writeOk && disk.persistOk
      ensures disk.lockOk && Admits(old(versions), file) && disk.writeOk ==>
                && versions == old(versions)[file.name := file.ToMeta()]
                && contents == old(contents)[file.name := file]
      ensures disk.lockOk && disk.writeOk ==> node.life == old(node.life)
      ensures r.Stored? ==> Load(index) == versions
      ensures !disk.lockOk || !Admits(old(versions), file) || !disk.writeOk ==> node.store == old(node.store)
      ensures Outcome(old(node.store), file, disk, node.store)
    {
      if !disk.lockOk {
        Advance(LockError);
        return Io;
      }
      if file.name in versions && versions[file.name].version >= file.version {
        Advance(Write(true));
        return VersionConflict;
      }
      if !disk.writeOk {
        Advance(Write(false));
        return Io;
      }
      WriteContent(file);
      RecordVersion(file);
      var ok := PersistVersions(disk);
      r := if ok then Stored else Io;
    }

    /** One iteration of the consumer loop: receive a token, take what is pending, store it. */
    method ConsumeOne(disk: Disk)
      requires Valid() && node.consumer.Waiting? && channel != []
      modifies this
      ensures Valid() && node.consumer.Waiting? && channel == old(channel)[1..]
      ensures node.life.inserted == old(node.life.inserted) && node.queue.sending == old(node.queue.sending)
      ensures pending == old(pending) - {old(channel)[0].name}
      ensures node.life.handed == old(node.life.handed) + PendingOf(old(node.queue), old(channel)[0].name)
      ensures disk.lockOk && disk.writeOk ==> node.life.faulty == old(node.life.faulty)
      ensures
        var name := old(channel)[0].name;
        if name in old(pending) then Outcome(old(node.store), old(pending)[name], disk, node.store)
        else node.store == old(node.store)
      ensures disk.persistOk && Load(old(index)) == old(versions) ==> Load(index) == versions
    {
      var task := ReceiveToken();
      var actual := TakePending(task.name);
      if actual.Some? {
        var r := StoreFile(actual.value, disk);
      }
    }

    method ReceiveToken() returns (task: ConfigFile)
      requires Valid() && node.consumer.Waiting? && channel != []
      modifies this`channel, this`node
      ensures Valid() && task == old(channel)[0] && channel == old(channel)[1..]
      ensures node == Step(old(node), Recv) && node.consumer == Received(task.name)
    {
      task := channel[0];
      channel := channel[1..];
      Advance(Recv);
    }

    method TakePending(name: string) returns (actual: Option<ConfigFile>)
      requires Valid() && node.consumer == Received(name)
      modifies this`pending, this`node
      ensures Valid() && node == Step(old(node), Take) && pending == old(pending) - {name}
      ensures actual == if name in old(pending) then Some(old(pending)[name]) else None
      ensures node.consumer == if actual.Some? then Storing(actual.value) else Waiting
    {
      actual := None;
      if name in pending {
        actual := Some(pending[name]);
        pending := pending - {name};
      }
      Advance(Take);
    }

    /**
     The consumer loop until the channel is empty; `disk(i)` is the file system's
     behaviour during the i-th iteration.  It ends with no token left, and with
     nothing pending unless a submitter has not sent its token yet; if no lock and
     no content write has failed, every name then has at least the version of the
     last file submitted for it, and holds exactly that file where it is the newest;
     and if no write of the index fails, a new process loads the versions in memory.
     */
    method Consume(disk: nat -> Disk)
      requires Valid() && node.consumer.Waiting?
      modifies this
      ensures Valid() && channel == [] && node.consumer.Waiting?
      ensures node.life.inserted == old(node.life.inserted) && node.queue.sending == old(node.queue.sending)
      ensures (forall i :: disk(i).lockOk && disk(i).writeOk) ==> node.life.faulty == old(node.life.faulty)
      ensures (forall i :: disk(i).persistOk) && Load(old(index)) == old(versions) ==> Load(index) == versions
      ensures node.queue.sending == multiset{} ==> pending == map[]
      ensures node.queue.sending == multiset{} && !node.life.faulty ==>
                forall n :: Of(n, node.life.inserted) != [] ==> Kept(node, n)
    {
      var i := 0;
      while channel != []
        invariant Valid() && node.consumer.Waiting?
        invariant node.life.inserted == old(node.life.inserted) && node.queue.sending == old(node.queue.sending)
        invariant (forall i :: disk(i).lockOk && disk(i).writeOk) ==> node.life.faulty == old(node.life.faulty)
        invariant (forall i :: disk(i).persistOk) && Load(old(index)) == old(versions) ==> Load(index) == versions
        decreases |channel|
      {
        ConsumeOne(disk(i));
        i := i + 1;
      }
      if node.queue.sending == multiset{} {
        ReachableIsSafe(node);
        QuietHasNoPending(node);
        if !node.life.faulty {
          forall n | Of(n, node.life.inserted) != []
            ensures Kept(node, n)
          {
            ghost var events :| node == Run(FRESH, events);
            NoLostUpdate(events, n);
            LastIsHanded(node, n);
          }
        }
      }
    }
  }
}
