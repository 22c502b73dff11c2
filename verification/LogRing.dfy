/**
 The in-memory log ring (`MemoryBackend`, log/backend.rs) and a reader that polls it
 by last seen sequence number (`GetLogs`, daemon/mod.rs).
 */
module LogRing {
  import opened Base

  datatype Level = Debug | Info | Warning | Error

  datatype Category = System | Network | WebRtc | Data | Proxy | Daemon | Space | Server

  datatype Text = Text(timestamp: string, target: string, unit: string, category: Category, message: string)

  datatype Record = Record(seq_: nat, level: Level, spaceId: Option<string>, text: Text)

  /** `tickets` are writers between `fetch_add` and `push_back`. */
  datatype Ring = Ring(buffer: seq<Record>, next: nat, tickets: seq<Record>)

  /** The cap of the ring, and the records that the reader asks for, whatever their number. */
  datatype Setup = Setup(cap: nat, select: Record -> bool)

  /** What a polling reader has: its last seen number, and what it was given so far. */
  datatype Poller = Poller(last: nat, delivered: seq<Record>)

  /**
   `lost` are the numbers that left the buffer (evicted or cleared) while the reader
   had not seen them; `late` are those pushed when the reader had already seen a
   larger number.
   */
  datatype Missed = Missed(lost: set<nat>, late: set<nat>)

  /** `written` lists all numbered records. */
  datatype Log = Log(ring: Ring, poller: Poller, written: seq<Record>, missed: Missed)

  datatype Event =
    | Ticket(record: Record)       // write: fetch_add numbers the entry
    | Push(i: nat)                 // write: the i-th numbered entry is pushed
    | Write(record: Record)        // both steps at once
    | Retain(keep: set<nat>)       // clear or clear_filtered, which keeps these numbers
    | Poll                         // GetLogs with since_seq = last seen number

  /** Push at the back, pop at the front while above the cap. */
  function PushBack(buffer: seq<Record>, r: Record, cap: nat): (b: seq<Record>)
    ensures |b| <= cap
  {
    var all := buffer + [r];
    if |all| > cap then all[|all| - cap..] else all
  }

  function Filter(buffer: seq<Record>, keep: set<nat>): seq<Record> {
    if buffer == [] then []
    else
      var r, rest := buffer[|buffer| - 1], Filter(buffer[..|buffer| - 1], keep);
      if r.seq_ in keep then rest + [r] else rest
  }

  predicate Selected(r: Record, level: Option<Level>, spaceId: Option<string>, since: Option<nat>) {
    && (level.Some? ==> r.level == level.value)
    && (spaceId.Some? ==> r.spaceId == spaceId)
    && (since.Some? ==> r.seq_ > since.value)
  }

  function LogsOf(buffer: seq<Record>, level: Option<Level>, spaceId: Option<string>, since: Option<nat>): seq<Record> {
    if buffer == [] then []
    else
      var r, rest := buffer[|buffer| - 1], LogsOf(buffer[..|buffer| - 1], level, spaceId, since);
      if Selected(r, level, spaceId, since) then rest + [r] else rest
  }

  /** What a poll returns: the selected records above the last number seen. */
  function Newer(buffer: seq<Record>, last: nat, select: Record -> bool): seq<Record> {
    if buffer == [] then []
    else
      var r, rest := buffer[|buffer| - 1], Newer(buffer[..|buffer| - 1], last, select);
      if r.seq_ > last && select(r) then rest + [r] else rest
  }

  /** The largest number seen, as the reader computes it. */
  function Highest(last: nat, rs: seq<Record>): (n: nat)
    ensures last <= n && forall i :: 0 <= i < |rs| ==> rs[i].seq_ <= n
    ensures n == last || exists i :: 0 <= i < |rs| && rs[i].seq_ == n
  {
    if rs == [] then last
    else
      var r, rest := rs[|rs| - 1], Highest(last, rs[..|rs| - 1]);
      if rest < r.seq_ then r.seq_ else rest
  }

  /** Numbers above `last` that were in the buffer and no longer are. */
  function Unseen(before: seq<Record>, after: seq<Record>, last: nat): set<nat> {
    set r | r in before && r !in after && r.seq_ > last :: r.seq_
  }

  function WithBuffer(s: Log, buffer: seq<Record>, added: seq<Record>): Log {
    s.(ring := s.ring.(buffer := buffer),
       missed := s.missed.(lost := s.missed.lost + Unseen(s.ring.buffer + added, buffer, s.poller.last)))
  }

  function Number(s: Log, r: Record): Log {
    s.(ring := s.ring.(next := s.ring.next + 1), written := s.written + [r.(seq_ := s.ring.next)])
  }

  /** The i-th numbered entry leaves its writer's hands. */
  function Release(s: Log, i: nat): Log
    requires i < |s.ring.tickets|
  {
    var n := s.ring.tickets[i].seq_;
    s.(ring := s.ring.(tickets := s.ring.tickets[..i] + s.ring.tickets[i + 1..]),
       missed := if n <= s.poller.last then s.missed.(late := s.missed.late + {n}) else s.missed)
  }

  function Step(p: Setup, s: Log, e: Event): Log {
    match e
    case Ticket(r) =>
      var t := Number(s, r);
      t.(ring := t.ring.(tickets := t.ring.tickets + [r.(seq_ := s.ring.next)]))
    case Push(i) =>
      if i < |s.ring.tickets| then
        var r := s.ring.tickets[i];
        WithBuffer(Release(s, i), PushBack(s.ring.buffer, r, p.cap), [r])
      else s
    case Write(r) =>
      var t, entry := Number(s, r), r.(seq_ := s.ring.next);
      WithBuffer(t, PushBack(t.ring.buffer, entry, p.cap), [entry])
    case Retain(keep) => WithBuffer(s, Filter(s.ring.buffer, keep), [])
    case Poll =>
      var got := Newer(s.ring.buffer, s.poller.last, p.select);
      s.(poller := Poller(Highest(s.poller.last, got), s.poller.delivered + got))
  }

  const INITIAL := Log(Ring([], 1, []), Poller(0, []), [], Missed({}, {}))

  function Run(p: Setup, events: seq<Event>): Log {
    if events == [] then INITIAL
    else Step(p, Run(p, events[..|events| - 1]), events[|events| - 1])
  }

  // ---- Whatever the interleaving: numbers are unique and the cap holds ----

  predicate Unique(rs: seq<Record>) {
    forall i, j :: 0 <= i < j < |rs| ==> rs[i].seq_ != rs[j].seq_
  }

  predicate Increasing(rs: seq<Record>) {
    forall i, j :: 0 <= i < j < |rs| ==> rs[i].seq_ < rs[j].seq_
  }

  predicate Below(rs: seq<Record>, next: nat) {
    forall i :: 0 <= i < |rs| ==> rs[i].seq_ < next
  }

  /** The two sequences have no number in common. */
  predicate Apart(a: seq<Record>, b: seq<Record>) {
    forall i, j :: 0 <= i < |a| && 0 <= j < |b| ==> a[i].seq_ != b[j].seq_
  }

  predicate Bounded(cap: nat, ring: Ring) {
    && |ring.buffer| <= cap
    && Unique(ring.buffer) && Unique(ring.tickets) && Apart(ring.buffer, ring.tickets)
    && Below(ring.buffer, ring.next) && Below(ring.tickets, ring.next)
  }

  lemma {:induction false} FilterFrom(buffer: seq<Record>, keep: set<nat>)
    ensures |Filter(buffer, keep)| <= |buffer|
    ensures forall r :: r in Filter(buffer, keep) <==> r in buffer && r.seq_ in keep
    ensures Unique(buffer) ==> Unique(Filter(buffer, keep))
  {
    if buffer != [] {
      var init, r := buffer[..|buffer| - 1], buffer[|buffer| - 1];
      FilterFrom(init, keep);
      assert buffer == init + [r];
      var rest := Filter(init, keep);
      if Unique(buffer) && r.seq_ in keep {
        assert Unique(init);
        forall i | 0 <= i < |rest|
          ensures rest[i].seq_ != r.seq_
        {
          assert rest[i] in init;
        }
      }
    }
  }

  lemma BoundedPush(cap: nat, ring: Ring, i: nat)
    requires Bounded(cap, ring) && i < |ring.tickets|
    ensures Bounded(cap, ring.(buffer := PushBack(ring.buffer, ring.tickets[i], cap),
                               tickets := ring.tickets[..i] + ring.tickets[i + 1..]))
  {
    var rest := ring.tickets[..i] + ring.tickets[i + 1..];
    assert forall j :: 0 <= j < |rest| ==> rest[j] == if j < i then ring.tickets[j] else ring.tickets[j + 1];
  }

  lemma BoundedWrite(p: Setup, s: Log, r: Record)
    requires Bounded(p.cap, s.ring)
    ensures Bounded(p.cap, Step(p, s, Write(r)).ring)
  {
    var entry := r.(seq_ := s.ring.next);
    var all := s.ring.buffer + [entry];
    assert Unique(all) && Below(all, s.ring.next + 1) && Apart(all, s.ring.tickets);
  }

  lemma BoundedRetain(p: Setup, s: Log, keep: set<nat>)
    requires Bounded(p.cap, s.ring)
    ensures Bounded(p.cap, Step(p, s, Retain(keep)).ring)
  {
    FilterFrom(s.ring.buffer, keep);
    var b := Filter(s.ring.buffer, keep);
    assert forall i :: 0 <= i < |b| ==> b[i] in s.ring.buffer;
  }

  lemma BoundedTicket(p: Setup, s: Log, r: Record)
    requires Bounded(p.cap, s.ring)
    ensures Bounded(p.cap, Step(p, s, Ticket(r)).ring)
  {
  }

  lemma BoundedStep(p: Setup, s: Log, e: Event)
    requires Bounded(p.cap, s.ring)
    ensures Bounded(p.cap, Step(p, s, e).ring)
  {
    match e
    case Ticket(r) => BoundedTicket(p, s, r);
    case Push(i) =>
      if i < |s.ring.tickets| {
        BoundedPush(p.cap, s.ring, i);
      }
    case Write(r) => BoundedWrite(p, s, r);
    case Retain(keep) => BoundedRetain(p, s, keep);
    case Poll =>
  }

  /** In every interleaving numbers stay pairwise distinct, below the counter, and the cap holds. */
  lemma {:induction false} BoundedRun(p: Setup, events: seq<Event>)
    ensures Bounded(p.cap, Run(p, events).ring)
  {
    if events != [] {
      BoundedRun(p, events[..|events| - 1]);
      BoundedStep(p, Run(p, events[..|events| - 1]), events[|events| - 1]);
    }
  }

  // ---- Every numbered record is accounted for, whatever the interleaving ----

  /** The record numbered n is the n-th one written. */
  predicate Numbered(written: seq<Record>) {
    forall i :: 0 <= i < |written| ==> written[i].seq_ == i + 1
  }

  predicate Genuine(written: seq<Record>, rs: seq<Record>) {
    forall i :: 0 <= i < |rs| ==> 1 <= rs[i].seq_ <= |written| && written[rs[i].seq_ - 1] == rs[i]
  }

  predicate UpTo(rs: seq<Record>, last: nat) {
    forall i :: 0 <= i < |rs| ==> rs[i].seq_ <= last
  }

  predicate Has(rs: seq<Record>, n: nat) {
    exists i :: 0 <= i < |rs| && rs[i].seq_ == n
  }

  /** In the buffer, and the reader has not passed it. */
  predicate Waiting(buffer: seq<Record>, last: nat, n: nat) {
    n > last && Has(buffer, n)
  }

  function One(fact: bool): nat {
    if fact then 1 else 0
  }

  /** Exactly one of five things has become of a number. */
  predicate Accounted(s: Log, n: nat) {
    One(Has(s.ring.tickets, n)) + One(n in s.missed.lost) + One(n in s.missed.late)
    + One(Has(s.poller.delivered, n)) + One(Waiting(s.ring.buffer, s.poller.last, n)) == 1
  }

  predicate Within(ns: set<nat>, n: nat) {
    forall k :: k in ns ==> 1 <= k <= n
  }

  predicate Real(s: Log) {
    && s.ring.next == |s.written| + 1 && Numbered(s.written)
    && Genuine(s.written, s.ring.buffer) && Genuine(s.written, s.ring.tickets)
    && Genuine(s.written, s.poller.delivered) && UpTo(s.poller.delivered, s.poller.last)
    && s.poller.last <= |s.written|
    && Within(s.missed.lost, |s.written|) && Within(s.missed.late, |s.written|)
  }

  /** Only selected records are delivered, and every selected one is accounted for. */
  predicate Sound(s: Log, select: Record -> bool) {
    && Real(s) && Unique(s.poller.delivered)
    && AllSelected(s.poller.delivered, select)
    && forall n :: 1 <= n <= |s.written| && select(s.written[n - 1]) ==> Accounted(s, n)
  }

  lemma HasSnoc(rs: seq<Record>, r: Record, n: nat)
    ensures Has(rs + [r], n) <==> Has(rs, n) || r.seq_ == n
  {
    var all := rs + [r];
    assert all[|rs|] == r;
    if Has(rs, n) {
      var i :| 0 <= i < |rs| && rs[i].seq_ == n;
      assert all[i].seq_ == n;
    }
  }

  lemma HasWithout(rs: seq<Record>, i: nat, n: nat)
    requires i < |rs| && Unique(rs)
    ensures Has(rs[..i] + rs[i + 1..], n) <==> Has(rs, n) && n != rs[i].seq_
  {
    var rest := rs[..i] + rs[i + 1..];
    assert forall j :: 0 <= j < |rest| ==> rest[j] == if j < i then rs[j] else rs[j + 1];
    if Has(rs, n) && n != rs[i].seq_ {
      var j :| 0 <= j < |rs| && rs[j].seq_ == n;
      assert rest[if j < i then j else j - 1].seq_ == n;
    }
  }

  /** Among genuine records a number stands for one record. */
  lemma HasGenuine(written: seq<Record>, rs: seq<Record>, n: nat)
    requires Numbered(written) && Genuine(written, rs) && 1 <= n <= |written|
    ensures Has(rs, n) <==> written[n - 1] in rs
  {
    if written[n - 1] in rs {
      var i :| 0 <= i < |rs| && rs[i] == written[n - 1];
      assert rs[i].seq_ == n;
    }
  }

  lemma SoundTicket(p: Setup, s: Log, r: Record)
    requires Sound(s, p.select)
    ensures Sound(Step(p, s, Ticket(r)), p.select)
  {
    var t := Step(p, s, Ticket(r));
    forall n | 1 <= n <= |t.written| && p.select(t.written[n - 1])
      ensures Accounted(t, n)
    {
      HasSnoc(s.ring.tickets, r.(seq_ := s.ring.next), n);
      if n <= |s.written| {
        assert t.written[n - 1] == s.written[n - 1];
        assert Accounted(s, n);
      }
    }
  }

  /** Before evicting: a numbered record moved from its writer to the back of the buffer. */
  function Appended(s: Log, i: nat): Log
    requires i < |s.ring.tickets|
  {
    var t := Release(s, i);
    t.(ring := t.ring.(buffer := t.ring.buffer + [s.ring.tickets[i]]))
  }

  lemma AppendedReal(s: Log, i: nat)
    requires Real(s) && i < |s.ring.tickets|
    ensures Real(Appended(s, i))
  {
    var rs := s.ring.tickets;
    var rest := rs[..i] + rs[i + 1..];
    assert forall j :: 0 <= j < |rest| ==> rest[j] == if j < i then rs[j] else rs[j + 1];
  }

  lemma AppendedSound(s: Log, i: nat, select: Record -> bool)
    requires Sound(s, select) && Unique(s.ring.tickets) && i < |s.ring.tickets|
    ensures Sound(Appended(s, i), select)
  {
    AppendedReal(s, i);
    forall n | 1 <= n <= |s.written| && select(s.written[n - 1])
      ensures Accounted(Appended(s, i), n)
    {
      assert Accounted(s, n);
      HasSnoc(s.ring.buffer, s.ring.tickets[i], n);
      HasWithout(s.ring.tickets, i, n);
    }
  }

  /** Shrinking the buffer moves numbers from "waiting" to "lost" and changes nothing else. */
  lemma ShrinkKeepsSound(s: Log, buffer: seq<Record>, select: Record -> bool)
    requires Sound(s, select) && forall i :: 0 <= i < |buffer| ==> buffer[i] in s.ring.buffer
    ensures Sound(WithBuffer(s, buffer, []), select)
  {
    var t := WithBuffer(s, buffer, []);
    assert s.ring.buffer + [] == s.ring.buffer;
    ShrinkReal(s, buffer);
    forall n | 1 <= n <= |s.written| && select(s.written[n - 1])
      ensures Accounted(t, n)
    {
      assert Accounted(s, n);
      ShrinkMoves(s, buffer, n);
    }
  }

  lemma ShrinkReal(s: Log, buffer: seq<Record>)
    requires Real(s) && forall i :: 0 <= i < |buffer| ==> buffer[i] in s.ring.buffer
    ensures Real(WithBuffer(s, buffer, []))
  {
    var lost := Unseen(s.ring.buffer, buffer, s.poller.last);
    assert s.ring.buffer + [] == s.ring.buffer;
    assert Within(lost, |s.written|);
  }

  lemma ShrinkMoves(s: Log, buffer: seq<Record>, n: nat)
    requires Real(s) && Genuine(s.written, buffer) && 1 <= n <= |s.written|
    requires forall i :: 0 <= i < |buffer| ==> buffer[i] in s.ring.buffer
    ensures n in Unseen(s.ring.buffer, buffer, s.poller.last) <==>
            Waiting(s.ring.buffer, s.poller.last, n) && !Waiting(buffer, s.poller.last, n)
    ensures Waiting(buffer, s.poller.last, n) ==> Waiting(s.ring.buffer, s.poller.last, n)
  {
    HasGenuine(s.written, s.ring.buffer, n);
    HasGenuine(s.written, buffer, n);
    if n in Unseen(s.ring.buffer, buffer, s.poller.last) {
      var r :| r in s.ring.buffer && r !in buffer && r.seq_ > s.poller.last && r.seq_ == n;
      assert r == s.written[n - 1];
    }
  }

  lemma SoundPush(p: Setup, s: Log, i: nat)
    requires Sound(s, p.select) && Unique(s.ring.tickets) && i < |s.ring.tickets|
    ensures Sound(Step(p, s, Push(i)), p.select)
  {
    var u, b := Appended(s, i), PushBack(s.ring.buffer, s.ring.tickets[i], p.cap);
    AppendedSound(s, i, p.select);
    ShrinkKeepsSound(u, b, p.select);
    assert u.ring.buffer + [] == s.ring.buffer + [s.ring.tickets[i]];
  }

  /** An atomic write is one of the interleavings of the two steps. */
  lemma WriteIsTicketPush(p: Setup, s: Log, r: Record)
    requires s.poller.last < s.ring.next
    ensures Step(p, s, Write(r)) == Step(p, Step(p, s, Ticket(r)), Push(|s.ring.tickets|))
  {
    var tickets, x := s.ring.tickets, r.(seq_ := s.ring.next);
    assert (tickets + [x])[..|tickets|] + (tickets + [x])[|tickets| + 1..] == tickets;
  }

  lemma {:induction false} LogsFrom(
    buffer: seq<Record>, level: Option<Level>, spaceId: Option<string>, since: Option<nat>)
    ensures forall r :: r in LogsOf(buffer, level, spaceId, since) <==>
              r in buffer && Selected(r, level, spaceId, since)
  {
    if buffer != [] {
      var init, r := buffer[..|buffer| - 1], buffer[|buffer| - 1];
      LogsFrom(init, level, spaceId, since);
      assert buffer == init + [r];
      var rest := LogsOf(init, level, spaceId, since);
      assert LogsOf(buffer, level, spaceId, since) == if Selected(r, level, spaceId, since) then rest + [r] else rest;
    }
  }

  lemma {:induction false} LogsOrdered(
    buffer: seq<Record>, level: Option<Level>, spaceId: Option<string>, since: Option<nat>)
    ensures Increasing(buffer) ==> Increasing(LogsOf(buffer, level, spaceId, since))
  {
    if buffer != [] {
      var init, r := buffer[..|buffer| - 1], buffer[|buffer| - 1];
      var rest := LogsOf(init, level, spaceId, since);
      LogsOrdered(init, level, spaceId, since);
      LogsFrom(init, level, spaceId, since);
      assert buffer == init + [r];
      SnocOrdered(init, r, rest);
    }
  }

  lemma {:induction false} NewerFrom(buffer: seq<Record>, last: nat, select: Record -> bool)
    ensures forall r :: r in Newer(buffer, last, select) <==> r in buffer && r.seq_ > last && select(r)
  {
    if buffer != [] {
      var init, r := buffer[..|buffer| - 1], buffer[|buffer| - 1];
      NewerFrom(init, last, select);
      assert buffer == init + [r];
      var rest := Newer(init, last, select);
      assert Newer(buffer, last, select) == if r.seq_ > last && select(r) then rest + [r] else rest;
    }
  }

  lemma {:induction false} NewerOrdered(buffer: seq<Record>, last: nat, select: Record -> bool)
    ensures Unique(buffer) ==> Unique(Newer(buffer, last, select))
    ensures Increasing(buffer) ==> Increasing(Newer(buffer, last, select))
  {
    if buffer != [] {
      var init, r := buffer[..|buffer| - 1], buffer[|buffer| - 1];
      var rest := Newer(init, last, select);
      NewerOrdered(init, last, select);
      NewerFrom(init, last, select);
      assert buffer == init + [r];
      SnocOrdered(init, r, rest);
    }
  }

  /** Part of a list, with the last element behind it or not, is as ordered as the list. */
  lemma SnocOrdered(init: seq<Record>, r: Record, rest: seq<Record>)
    requires forall x :: x in rest ==> x in init
    ensures Unique(init + [r]) && Unique(rest) ==> Unique(rest + [r])
    ensures Increasing(init + [r]) && Increasing(rest) ==> Increasing(rest + [r])
  {
    forall i | 0 <= i < |rest|
      ensures exists j :: 0 <= j < |init| && (init + [r])[j] == rest[i]
    {
      assert rest[i] in init;
      var j :| 0 <= j < |init| && init[j] == rest[i];
      assert (init + [r])[j] == rest[i];
    }
    assert (init + [r])[|init|] == r;
  }

  /** A poll's records are all selected, beyond the reader's last number and genuine. */
  lemma NewerGenuine(written: seq<Record>, buffer: seq<Record>, last: nat, select: Record -> bool)
    requires Genuine(written, buffer)
    ensures
      var got := Newer(buffer, last, select);
      Genuine(written, got) && forall i :: 0 <= i < |got| ==> got[i].seq_ > last && select(got[i])
  {
    NewerFrom(buffer, last, select);
    var got := Newer(buffer, last, select);
    forall i | 0 <= i < |got|
      ensures got[i].seq_ > last && select(got[i]) && 1 <= got[i].seq_ <= |written| && written[got[i].seq_ - 1] == got[i]
    {
      assert got[i] in buffer;
    }
  }

  /** What a poll hands over extends the reader's list. */
  lemma PollDelivers(written: seq<Record>, delivered: seq<Record>, last: nat, got: seq<Record>)
    requires Genuine(written, got) && Genuine(written, delivered) && UpTo(delivered, last)
    requires forall i :: 0 <= i < |got| ==> got[i].seq_ > last
    ensures Genuine(written, delivered + got)
    ensures UpTo(delivered + got, Highest(last, got))
    ensures last <= |written| ==> Highest(last, got) <= |written|
  {
  }

  predicate AllSelected(rs: seq<Record>, select: Record -> bool) {
    forall i :: 0 <= i < |rs| ==> select(rs[i])
  }

  lemma ConcatKeeps(delivered: seq<Record>, got: seq<Record>, last: nat, select: Record -> bool)
    requires UpTo(delivered, last) && forall i :: 0 <= i < |got| ==> got[i].seq_ > last
    requires Unique(delivered) && Unique(got) && AllSelected(delivered, select) && AllSelected(got, select)
    ensures Unique(delivered + got) && AllSelected(delivered + got, select)
  {
  }

  /** After a poll the reader has passed everything selected in the buffer. */
  lemma PollReachesEnd(buffer: seq<Record>, last: nat, select: Record -> bool)
    ensures forall r :: r in buffer && select(r) ==> r.seq_ <= Highest(last, Newer(buffer, last, select))
  {
    var got := Newer(buffer, last, select);
    NewerFrom(buffer, last, select);
    forall r | r in buffer && select(r)
      ensures r.seq_ <= Highest(last, got)
    {
      if r.seq_ > last {
        assert r in got;
      }
    }
  }

  /** A selected number is newly delivered exactly when it was waiting, and then waits no more. */
  lemma PollMoves(s: Log, select: Record -> bool, n: nat)
    requires Real(s) && 1 <= n <= |s.written| && select(s.written[n - 1])
    ensures
      var got := Newer(s.ring.buffer, s.poller.last, select);
      && (Has(s.poller.delivered + got, n) <==>
            Has(s.poller.delivered, n) || Waiting(s.ring.buffer, s.poller.last, n))
      && !Waiting(s.ring.buffer, Highest(s.poller.last, got), n)
  {
    var got, r := Newer(s.ring.buffer, s.poller.last, select), s.written[n - 1];
    NewerFrom(s.ring.buffer, s.poller.last, select);
    NewerGenuine(s.written, s.ring.buffer, s.poller.last, select);
    PollReachesEnd(s.ring.buffer, s.poller.last, select);
    PollDelivers(s.written, s.poller.delivered, s.poller.last, got);
    HasGenuine(s.written, s.ring.buffer, n);
    HasGenuine(s.written, s.poller.delivered, n);
    HasGenuine(s.written, s.poller.delivered + got, n);
  }

  lemma PollReal(p: Setup, s: Log)
    requires Real(s)
    ensures Real(Step(p, s, Poll))
  {
    NewerGenuine(s.written, s.ring.buffer, s.poller.last, p.select);
    PollDelivers(s.written, s.poller.delivered, s.poller.last, Newer(s.ring.buffer, s.poller.last, p.select));
  }

  lemma PollKeepsDelivered(p: Setup, s: Log)
    requires Real(s) && Unique(s.ring.buffer) && Unique(s.poller.delivered)
    requires AllSelected(s.poller.delivered, p.select)
    ensures
      var delivered := Step(p, s, Poll).poller.delivered;
      Unique(delivered) && AllSelected(delivered, p.select)
  {
    NewerOrdered(s.ring.buffer, s.poller.last, p.select);
    NewerGenuine(s.written, s.ring.buffer, s.poller.last, p.select);
    ConcatKeeps(s.poller.delivered, Newer(s.ring.buffer, s.poller.last, p.select), s.poller.last, p.select);
  }

  lemma PollAccounted(p: Setup, s: Log, n: nat)
    requires Real(s) && 1 <= n <= |s.written| && p.select(s.written[n - 1]) && Accounted(s, n)
    ensures Accounted(Step(p, s, Poll), n)
  {
    PollMoves(s, p.select, n);
  }

  lemma SoundPoll(p: Setup, s: Log)
    requires Sound(s, p.select) && Unique(s.ring.buffer)
    ensures Sound(Step(p, s, Poll), p.select)
  {
    var t := Step(p, s, Poll);
    PollReal(p, s);
    PollKeepsDelivered(p, s);
    forall n | 1 <= n <= |t.written| && p.select(t.written[n - 1])
      ensures Accounted(t, n)
    {
      assert Accounted(s, n);
      PollAccounted(p, s, n);
    }
  }

  lemma SoundRetain(p: Setup, s: Log, keep: set<nat>)
    requires Sound(s, p.select)
    ensures Sound(Step(p, s, Retain(keep)), p.select)
  {
    FilterFrom(s.ring.buffer, keep);
    ShrinkKeepsSound(s, Filter(s.ring.buffer, keep), p.select);
  }

  lemma SoundStep(p: Setup, s: Log, e: Event)
    requires Sound(s, p.select) && Bounded(p.cap, s.ring)
    ensures Sound(Step(p, s, e), p.select)
  {
    match e
    case Ticket(r) => SoundTicket(p, s, r);
    case Push(i) =>
      if i < |s.ring.tickets| {
        SoundPush(p, s, i);
      }
    case Write(r) =>
      WriteIsTicketPush(p, s, r);
      SoundTicket(p, s, r);
      BoundedTicket(p, s, r);
      SoundPush(p, Step(p, s, Ticket(r)), |s.ring.tickets|);
    case Retain(keep) => SoundRetain(p, s, keep);
    case Poll => SoundPoll(p, s);
  }

  lemma {:induction false} SoundRun(p: Setup, events: seq<Event>)
    ensures Sound(Run(p, events), p.select)
  {
    if events != [] {
      SoundRun(p, events[..|events| - 1]);
      BoundedRun(p, events[..|events| - 1]);
      SoundStep(p, Run(p, events[..|events| - 1]), events[|events| - 1]);
    }
  }

  lemma RunSnoc(p: Setup, events: seq<Event>, e: Event)
    ensures Run(p, events + [e]) == Step(p, Run(p, events), e)
  {
    assert (events + [e])[..|events|] == events;
  }

  /**
   For every interleaving and every filter of the reader, after a poll: no record was
   delivered twice, each one is a record that was written, and a written record was
   delivered exactly when the filter selects it, its writer has pushed it, no larger
   number had been polled by then, and it did not leave the buffer before a poll saw it.
   */
  lemma PollingIsExact(p: Setup, events: seq<Event>)
    ensures
      var s := Run(p, events + [Poll]);
      && Unique(s.poller.delivered) && Genuine(s.written, s.poller.delivered)
      && (forall n :: 1 <= n <= |s.written| ==>
            (Has(s.poller.delivered, n) <==>
             p.select(s.written[n - 1])
             && !Has(s.ring.tickets, n) && n !in s.missed.late && n !in s.missed.lost))
  {
    var s, t := Run(p, events), Run(p, events + [Poll]);
    RunSnoc(p, events, Poll);
    SoundRun(p, events);
    BoundedRun(p, events);
    SoundPoll(p, s);
    forall n | 1 <= n <= |t.written|
      ensures Has(t.poller.delivered, n) <==>
              p.select(t.written[n - 1])
              && !Has(t.ring.tickets, n) && n !in t.missed.late && n !in t.missed.lost
    {
      HasGenuine(t.written, t.poller.delivered, n);
      if p.select(t.written[n - 1]) {
        assert Accounted(t, n);
        PollMoves(s, p.select, n);
      }
    }
  }

  // ---- With atomic writes ----

  predicate Orderly(s: Log) {
    && s.ring.tickets == [] && s.missed.late == {}
    && Increasing(s.ring.buffer) && Increasing(s.poller.delivered)
  }

  predicate Atomic(e: Event) {
    !e.Ticket? && !e.Push?
  }

  lemma {:induction false} FilterIncreasing(buffer: seq<Record>, keep: set<nat>)
    requires Increasing(buffer)
    ensures Increasing(Filter(buffer, keep))
  {
    if buffer != [] {
      var init, r := buffer[..|buffer| - 1], buffer[|buffer| - 1];
      FilterIncreasing(init, keep);
      FilterFrom(init, keep);
      var rest := Filter(init, keep);
      assert forall i :: 0 <= i < |rest| ==> rest[i] in init;
    }
  }

  lemma OrderlyPoll(p: Setup, s: Log)
    requires Real(s) && Orderly(s)
    ensures Orderly(Step(p, s, Poll))
  {
    var got := Newer(s.ring.buffer, s.poller.last, p.select);
    NewerFrom(s.ring.buffer, s.poller.last, p.select);
    NewerOrdered(s.ring.buffer, s.poller.last, p.select);
    assert forall i :: 0 <= i < |got| ==> got[i] in got;
  }

  lemma OrderlyStep(p: Setup, s: Log, e: Event)
    requires Real(s) && Orderly(s) && Atomic(e)
    ensures Orderly(Step(p, s, e))
  {
    match e
    case Write(r) =>
      assert Increasing(s.ring.buffer + [r.(seq_ := s.ring.next)]);
    case Retain(keep) => FilterIncreasing(s.ring.buffer, keep);
    case Poll => OrderlyPoll(p, s);
  }

  lemma {:induction false} OrderlyRun(p: Setup, events: seq<Event>)
    requires forall i :: 0 <= i < |events| ==> Atomic(events[i])
    ensures Orderly(Run(p, events))
  {
    if events != [] {
      OrderlyRun(p, events[..|events| - 1]);
      SoundRun(p, events[..|events| - 1]);
      OrderlyStep(p, Run(p, events[..|events| - 1]), events[|events| - 1]);
    }
  }

  /**
   With atomic writes, after any run that ends in a poll: the records delivered so
   far have strictly increasing numbers, and every record that the reader's filter
   selects was delivered unless it had left the buffer before a poll saw it.
   */
  lemma PollingIsComplete(p: Setup, events: seq<Event>)
    requires forall i :: 0 <= i < |events| ==> Atomic(events[i])
    ensures
      var s := Run(p, events + [Poll]);
      && Increasing(s.poller.delivered) && Genuine(s.written, s.poller.delivered)
      && (forall n :: 1 <= n <= |s.written| ==>
            (Has(s.poller.delivered, n) <==> p.select(s.written[n - 1]) && n !in s.missed.lost))
  {
    OrderlyRun(p, events + [Poll]);
    PollingIsExact(p, events);
    assert forall n :: !Has(Run(p, events + [Poll]).ring.tickets, n);
  }

  // ---- Which end is evicted ----

  /** A full ring loses its oldest entry to a new one. */
  lemma EvictsOldest(buffer: seq<Record>, r: Record, cap: nat)
    requires |buffer| <= cap
    ensures PushBack(buffer, r, cap) ==
            if |buffer| < cap then buffer + [r] else if cap == 0 then [] else buffer[1..] + [r]
  {
  }

  /** Writing and polling only, the ring holds exactly the newest records written, as many as fit. */
  lemma {:induction false} BufferIsNewest(p: Setup, events: seq<Event>)
    requires forall i :: 0 <= i < |events| ==> events[i].Write? || events[i].Poll?
    ensures
      var s := Run(p, events);
      var n := if |s.written| < p.cap then |s.written| else p.cap;
      s.ring.buffer == s.written[|s.written| - n..]
  {
    if events != [] {
      var init, e := events[..|events| - 1], events[|events| - 1];
      BufferIsNewest(p, init);
      if e.Write? {
        var s := Run(p, init);
        EvictsOldest(s.ring.buffer, e.record.(seq_ := s.ring.next), p.cap);
      }
    }
  }

  // ---- A late push ----

  /** Both writers have their number, only the second has pushed. */
  lemma SecondPushesFirst(p: Setup, a: Record, b: Record)
    requires p.cap >= 2
    ensures
      var s := Run(p, [] + [Ticket(a)] + [Ticket(b)] + [Push(1)]);
      s.ring == Ring([b.(seq_ := 2)], 3, [a.(seq_ := 1)]) && s.poller == INITIAL.poller
  {
    RunSnoc(p, [], Ticket(a));
    RunSnoc(p, [] + [Ticket(a)], Ticket(b));
    RunSnoc(p, [] + [Ticket(a)] + [Ticket(b)], Push(1));
    TwoTickets(p, a, b);
    PushSecond(p, Step(p, Step(p, INITIAL, Ticket(a)), Ticket(b)), a.(seq_ := 1), b.(seq_ := 2));
  }

  lemma TwoTickets(p: Setup, a: Record, b: Record)
    ensures
      var s := Step(p, Step(p, INITIAL, Ticket(a)), Ticket(b));
      s.ring == Ring([], 3, [a.(seq_ := 1), b.(seq_ := 2)]) && s.poller == INITIAL.poller
  {
    assert [] + [a.(seq_ := 1)] + [b.(seq_ := 2)] == [a.(seq_ := 1), b.(seq_ := 2)];
  }

  lemma PushSecond(p: Setup, s: Log, r1: Record, r2: Record)
    requires p.cap >= 2 && s.ring == Ring([], 3, [r1, r2])
    ensures Step(p, s, Push(1)).ring == Ring([r2], 3, [r1]) && Step(p, s, Push(1)).poller == s.poller
  {
    assert [r1, r2][..1] + [r1, r2][2..] == [r1];
    assert [] + [r2] == [r2];
  }

  /** Polling the one record there is, then pushing the other behind it, makes that one late. */
  lemma LatePush(p: Setup, s: Log, r1: Record, r2: Record)
    requires p.cap >= 2 && p.select(r2)
    requires s.ring == Ring([r2], 3, [r1]) && s.poller == INITIAL.poller
    requires r1.seq_ == 1 && r2.seq_ == 2
    ensures
      var t := Step(p, Step(p, s, Poll), Push(0));
      1 in t.missed.late && t.ring.buffer == [r2, r1]
  {
    PollOne(p, s, r2);
    PushBehind(p, Step(p, s, Poll), r1, r2);
  }

  lemma PollOne(p: Setup, s: Log, r: Record)
    requires s.ring.buffer == [r] && s.poller == INITIAL.poller && p.select(r) && r.seq_ > 0
    ensures Step(p, s, Poll).poller.last == r.seq_ && Step(p, s, Poll).ring == s.ring
  {
    assert [r][..0] == [];
    assert Newer([r], 0, p.select) == [] + [r];
    assert Highest(0, [r]) == r.seq_;
  }

  lemma PushBehind(p: Setup, s: Log, r1: Record, r2: Record)
    requires p.cap >= 2 && s.ring == Ring([r2], 3, [r1]) && r1.seq_ <= s.poller.last
    ensures r1.seq_ in Step(p, s, Push(0)).missed.late && Step(p, s, Push(0)).ring.buffer == [r2, r1]
  {
    assert [r2] + [r1] == [r2, r1];
  }

  /**
   Without atomicity a reader can miss a record for good although it is still in the
   buffer: number 1 is pushed after number 2 has been polled.
   */
  lemma SplitWritesCanBeMissed(p: Setup, a: Record, b: Record)
    requires p.cap >= 2 && p.select(b.(seq_ := 2))
    ensures
      var s := Run(p, [] + [Ticket(a)] + [Ticket(b)] + [Push(1)] + [Poll] + [Push(0)] + [Poll]);
      !Has(s.poller.delivered, 1) && Has(s.ring.buffer, 1)
  {
    var e := [] + [Ticket(a)] + [Ticket(b)] + [Push(1)];
    var e' := e + [Poll] + [Push(0)];
    SecondPushesFirst(p, a, b);
    LatePush(p, Run(p, e), a.(seq_ := 1), b.(seq_ := 2));
    RunSnoc(p, e, Poll);
    RunSnoc(p, e + [Poll], Push(0));
    RunSnoc(p, e', Poll);
    SoundRun(p, e');
    PollingIsExact(p, e');
    assert Run(p, e' + [Poll]).ring.buffer[1].seq_ == 1;
  }
}
