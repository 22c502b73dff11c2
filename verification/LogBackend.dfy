/** `MemoryBackend` as the program updates it, with one polling reader (log/backend.rs). */
module LogBackend {
  import opened Base
  import opened LogRing
  import opened LogFilters

  /** What every run with atomic writes keeps. */
  predicate Healthy(p: Setup, log: Log) {
    Sound(log, p.select) && Orderly(log) && Bounded(p.cap, log.ring)
  }

  lemma StepHealthy(p: Setup, log: Log, e: Event)
    requires Healthy(p, log) && Atomic(e)
    ensures Healthy(p, Step(p, log, e))
  {
    SoundStep(p, log, e);
    OrderlyStep(p, log, e);
    BoundedStep(p, log, e);
  }

  class MemoryBackend {
    const maxEntries: nat
    var store: seq<Record>
    var nextSeq: nat
    ghost const setup: Setup    // the cap, and what the reader selects
    ghost var log: Log

    ghost predicate Valid()
      reads this
    {
      && log.ring == Ring(store, nextSeq, []) && setup.cap == maxEntries
      && Healthy(setup, log)
    }

    constructor (maxEntries: nat, ghost select: Record -> bool)
      ensures Valid() && log == INITIAL && setup == Setup(maxEntries, select)
    {
      this.maxEntries := maxEntries;
      setup := Setup(maxEntries, select);
      store, nextSeq := [], 1;
      log := INITIAL;
    }

    /** Push at the back, pop the oldest entries while over the cap. */
    method PushEntry(entry: Record)
      modifies this`store
      ensures store == PushBack(old(store), entry, maxEntries)
    {
      store := store + [entry];
      ghost var all := store;
      while |store| > maxEntries
        invariant |store| <= |all| && store == all[|all| - |store|..]
        invariant |store| >= maxEntries || store == all
      {
        store := store[1..];
      }
    }

    method WriteRecord(record: Record)
      requires Valid()
      modifies this
      ensures Valid() && log == Step(setup, old(log), Write(record))
      ensures |store| == if old(|store|) < maxEntries then old(|store|) + 1 else maxEntries
    {
      StepHealthy(setup, log, Write(record));
      var entry := record.(seq_ := nextSeq);
      nextSeq := nextSeq + 1;
      PushEntry(entry);
      log := Step(setup, log, Write(record));
    }

    method RetainUnmatched(f: LogFilter, lower: string -> string)
      modifies this`store
      ensures store == Unmatched(old(store), f, lower)
    {
      var kept: seq<Record> := [];
      for i := 0 to |store|
        invariant kept == Unmatched(store[..i], f, lower)
        modifies {}
      {
        assert store[..i + 1][..i] == store[..i];
        if !Matches(f, store[i], lower) {
          kept := kept + [store[i]];
        }
      }
      assert store[..|store|] == store;
      store := kept;
    }

    method ClearFiltered(f: LogFilter, lower: string -> string)
      requires Valid()
      modifies this
      ensures Valid() && store == Cleared(old(store), f, lower)
      ensures exists keep :: log == Step(setup, old(log), Retain(keep))
    {
      ClearedIsRetain(store, f, lower);
      ghost var keep :| Cleared(store, f, lower) == Filter(store, keep);
      ghost var e := Retain(keep);
      StepHealthy(setup, log, e);
      if Selects(f) {
        RetainUnmatched(f, lower);
      } else {
        store := [];
      }
      log := Step(setup, log, e);
    }

    method Query(f: LogFilter, lower: string -> string) returns (result: seq<Record>)
      requires Valid()
      ensures result == QueryOf(store, f, lower)
    {
      result := [];
      for i := 0 to |store|
        invariant result == Matched(store[..i], f, lower)
      {
        assert store[..i + 1][..i] == store[..i];
        if Matches(f, store[i], lower) {
          result := result + [store[i]];
        }
      }
      assert store[..|store|] == store;
      if f.limit.Some? && f.limit.value < |result| {
        result := result[..f.limit.value];
      }
    }

    /** A `GetLogs` request: by level, by space and from a sequence number on. */
    method GetLogs(level: Option<Level>, spaceId: Option<string>, since: Option<nat>) returns (records: seq<Record>)
      requires Valid()
      ensures records == LogsOf(store, level, spaceId, since)
      ensures Increasing(records)
      ensures forall r :: r in records <==>
                && r in store
                && (level == None || level == Some(r.level)) && (spaceId == None || spaceId == r.spaceId)
                && (since == None || since.value < r.seq_)
    {
      records := [];
      for i := 0 to |store|
        invariant records == LogsOf(store[..i], level, spaceId, since)
      {
        assert store[..i + 1][..i] == store[..i];
        if Selected(store[i], level, spaceId, since) {
          records := records + [store[i]];
        }
      }
      assert store[..|store|] == store;
      LogsFrom(store, level, spaceId, since);
      LogsOrdered(store, level, spaceId, since);
    }
  }

  method MaxSeq(last: nat, records: seq<Record>) returns (highest: nat)
    ensures highest == Highest(last, records)
  {
    highest := last;
    for i := 0 to |records|
      invariant highest == Highest(last, records[..i])
    {
      assert records[..i + 1][..i] == records[..i];
      if highest < records[i].seq_ {
        highest := records[i].seq_;
      }
    }
    assert records[..|records|] == records;
  }

  /** A reader that polls with one filter, by the largest sequence number it has seen. */
  class LogReader {
    const filter: LogFilter
    const lower: string -> string
    var lastSeq: nat

    constructor (filter: LogFilter, lower: string -> string)
      ensures lastSeq == 0 && this.filter == filter && this.lower == lower
    {
      this.filter, this.lower, lastSeq := filter, lower, 0;
    }

    /** The limit of the filter is no smaller than the cap of the ring, so it cuts nothing off. */
    method Fetch(backend: MemoryBackend) returns (records: seq<Record>)
      requires backend.Valid() && lastSeq == backend.log.poller.last
      requires backend.setup.select == Selection(filter, lower)
      requires filter.limit.Some? ==> backend.maxEntries <= filter.limit.value
      modifies this`lastSeq, backend`log
      ensures backend.Valid() && backend.log == Step(backend.setup, old(backend.log), Poll)
      ensures backend.log.poller == Poller(lastSeq, old(backend.log.poller.delivered) + records)
    {
      StepHealthy(backend.setup, backend.log, Poll);
      QueryIsPoll(backend.store, filter, lastSeq, lower);
      records := backend.Query(From(filter, lastSeq), lower);
      lastSeq := MaxSeq(lastSeq, records);
      backend.log := Step(backend.setup, backend.log, Poll);
    }
  }
}
