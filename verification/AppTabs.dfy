/** The tab store with least-recently-used eviction (src/stores/appTabsStore.ts). */
module AppTabs {
  import opened Base

  const MAX_IFRAMES: nat := 10

  datatype Tab = Tab(key: string, spaceId: string, appId: string, lastActiveAt: int)

  datatype Tabs = Tabs(open: seq<Tab>, activeKey: Option<string>, visible: bool)

  datatype Event =
    | OpenApp(spaceId: string, appId: string, now: int)
    | SetActive(key: string, now: int)
    | CloseTab(key: string)
    | ClearSpace(spaceId: string)
    | Hide

  function KeyOf(spaceId: string, appId: string): string {
    spaceId + ":" + appId
  }

  predicate IsOpen(open: seq<Tab>, key: string) {
    exists i :: 0 <= i < |open| && open[i].key == key
  }

  /** map: refresh the time of one tab. */
  function Touch(open: seq<Tab>, key: string, now: int): seq<Tab> {
    seq(|open|, i requires 0 <= i < |open| => if open[i].key == key then open[i].(lastActiveAt := now) else open[i])
  }

  /** filter: all tabs but the one with this key. */
  function Without(open: seq<Tab>, key: string): seq<Tab> {
    if open == [] then []
    else if open[0].key == key then Without(open[1..], key)
    else [open[0]] + Without(open[1..], key)
  }

  function WithoutSpace(open: seq<Tab>, spaceId: string): seq<Tab> {
    if open == [] then []
    else if open[0].spaceId == spaceId then WithoutSpace(open[1..], spaceId)
    else [open[0]] + WithoutSpace(open[1..], spaceId)
  }

  // ---- Array.prototype.sort: stable ----

  function Rank(t: Tab, descending: bool): int {
    if descending then -t.lastActiveAt else t.lastActiveAt
  }

  /** Put t behind everything of at most its rank. */
  function InsertSorted(sorted: seq<Tab>, t: Tab, descending: bool): seq<Tab> {
    if sorted == [] || Rank(t, descending) < Rank(sorted[0], descending) then [t] + sorted
    else [sorted[0]] + InsertSorted(sorted[1..], t, descending)
  }

  function Sort(tabs: seq<Tab>, descending: bool): (r: seq<Tab>)
    ensures |r| == |tabs|
  {
    if tabs == [] then []
    else
      InsertLength(Sort(tabs[..|tabs| - 1], descending), tabs[|tabs| - 1], descending);
      InsertSorted(Sort(tabs[..|tabs| - 1], descending), tabs[|tabs| - 1], descending)
  }

  lemma {:induction false} InsertLength(sorted: seq<Tab>, t: Tab, descending: bool)
    ensures |InsertSorted(sorted, t, descending)| == |sorted| + 1
  {
    if sorted != [] && Rank(t, descending) >= Rank(sorted[0], descending) {
      InsertLength(sorted[1..], t, descending);
    }
  }

  predicate InOrder(tabs: seq<Tab>, descending: bool) {
    forall i, j :: 0 <= i < j < |tabs| ==> Rank(tabs[i], descending) <= Rank(tabs[j], descending)
  }

  predicate AtLeast(tabs: seq<Tab>, bound: int, descending: bool) {
    forall i :: 0 <= i < |tabs| ==> bound <= Rank(tabs[i], descending)
  }

  lemma {:induction false} InsertAtLeast(sorted: seq<Tab>, t: Tab, bound: int, descending: bool)
    requires AtLeast(sorted, bound, descending) && bound <= Rank(t, descending)
    ensures AtLeast(InsertSorted(sorted, t, descending), bound, descending)
  {
    if sorted != [] && Rank(t, descending) >= Rank(sorted[0], descending) {
      InsertAtLeast(sorted[1..], t, bound, descending);
    }
  }

  lemma {:induction false} InsertKeepsOrder(sorted: seq<Tab>, t: Tab, descending: bool)
    requires InOrder(sorted, descending)
    ensures InOrder(InsertSorted(sorted, t, descending), descending)
  {
    if sorted != [] && Rank(t, descending) >= Rank(sorted[0], descending) {
      InsertKeepsOrder(sorted[1..], t, descending);
      InsertAtLeast(sorted[1..], t, Rank(sorted[0], descending), descending);
    }
  }

  lemma {:induction false} InsertAdds(sorted: seq<Tab>, t: Tab, descending: bool)
    ensures multiset(InsertSorted(sorted, t, descending)) == multiset(sorted) + multiset{t}
  {
    if sorted != [] {
      assert sorted == [sorted[0]] + sorted[1..];
      if Rank(t, descending) >= Rank(sorted[0], descending) {
        InsertAdds(sorted[1..], t, descending);
      }
    }
  }

  lemma InsertSorts(sorted: seq<Tab>, tabs: seq<Tab>, t: Tab, descending: bool)
    requires InOrder(sorted, descending) && multiset(sorted) == multiset(tabs)
    ensures InOrder(InsertSorted(sorted, t, descending), descending)
    ensures multiset(InsertSorted(sorted, t, descending)) == multiset(tabs + [t])
  {
    InsertKeepsOrder(sorted, t, descending);
    InsertAdds(sorted, t, descending);
  }

  /** The sort returns the same tabs in order. */
  lemma {:induction false} SortSorts(tabs: seq<Tab>, descending: bool)
    ensures InOrder(Sort(tabs, descending), descending) && multiset(Sort(tabs, descending)) == multiset(tabs)
  {
    if tabs != [] {
      var init, t := tabs[..|tabs| - 1], tabs[|tabs| - 1];
      SortSorts(init, descending);
      InsertSorts(Sort(init, descending), init, t, descending);
      assert tabs == init + [t];
    }
  }

  /** Position i holds the first of the tabs with the smallest rank. */
  predicate FirstBest(tabs: seq<Tab>, i: nat, descending: bool)
    requires i < |tabs|
  {
    && (forall j :: 0 <= j < |tabs| ==> Rank(tabs[i], descending) <= Rank(tabs[j], descending))
    && (forall j :: 0 <= j < i ==> Rank(tabs[i], descending) < Rank(tabs[j], descending))
  }

  /** Because the sort is stable, its first element is the first best one. */
  lemma {:induction false} SortHead(tabs: seq<Tab>, descending: bool) returns (i: nat)
    requires tabs != []
    ensures i < |tabs| && FirstBest(tabs, i, descending) && Sort(tabs, descending)[0] == tabs[i]
  {
    var init, t := tabs[..|tabs| - 1], tabs[|tabs| - 1];
    if init == [] {
      i := 0;
    } else {
      i := SortHead(init, descending);
      if Rank(t, descending) < Rank(init[i], descending) {
        i := |init|;
      }
      assert forall j :: 0 <= j < |init| ==> tabs[j] == init[j];
    }
  }

  // ---- Steps ----

  function Opened(s: Tabs, spaceId: string, appId: string, now: int): seq<Tab> {
    var key := KeyOf(spaceId, appId);
    if IsOpen(s.open, key) then Touch(s.open, key, now)
    else
      var open := s.open + [Tab(key, spaceId, appId, now)];
      if |open| > MAX_IFRAMES then Without(open, Sort(open, false)[0].key) else open
  }

  function AfterClose(s: Tabs, key: string): Tabs {
    var open := Without(s.open, key);
    var rest := Sort(open, true);
    s.(open := open,
       activeKey := if s.activeKey != Some(key) then s.activeKey
                    else if rest == [] then None else Some(rest[0].key))
  }

  function Step(s: Tabs, e: Event): Tabs {
    match e
    case OpenApp(spaceId, appId, now) => Tabs(Opened(s, spaceId, appId, now), Some(KeyOf(spaceId, appId)), true)
    case SetActive(key, now) => Tabs(Touch(s.open, key, now), Some(key), true)
    case CloseTab(key) => AfterClose(s, key)
    case ClearSpace(spaceId) =>
      var open := WithoutSpace(s.open, spaceId);
      if s.activeKey.Some? && !IsOpen(open, s.activeKey.value) then Tabs(open, None, false) else s.(open := open)
    case Hide => s.(visible := false)
  }

  // ---- Invariant ----

  predicate UniqueKeys(open: seq<Tab>) {
    forall i, j :: 0 <= i < j < |open| ==> open[i].key != open[j].key
  }

  predicate NotAfter(open: seq<Tab>, clock: int) {
    forall i :: 0 <= i < |open| ==> open[i].lastActiveAt <= clock
  }

  predicate Good(s: Tabs, clock: int) {
    && UniqueKeys(s.open) && |s.open| <= MAX_IFRAMES && NotAfter(s.open, clock)
    && (s.activeKey.Some? ==> IsOpen(s.open, s.activeKey.value))
  }

  /** The clock does not run backwards, and only an open tab is made active. */
  predicate Allowed(s: Tabs, clock: int, e: Event) {
    match e
    case OpenApp(_, _, now) => clock <= now
    case SetActive(key, now) => clock <= now && IsOpen(s.open, key)
    case _ => true
  }

  function Clock(clock: int, e: Event): int {
    if e.OpenApp? || e.SetActive? then e.now else clock
  }

  lemma {:induction false} WithoutOne(open: seq<Tab>, i: nat)
    requires i < |open| && UniqueKeys(open)
    ensures Without(open, open[i].key) == open[..i] + open[i + 1..]
  {
    if i == 0 {
      WithoutNone(open[1..], open[0].key);
      assert open[..0] + open[1..] == open[1..];
    } else {
      WithoutOne(open[1..], i - 1);
      assert open[..i] + open[i + 1..] == [open[0]] + (open[1..][..i - 1] + open[1..][i..]);
    }
  }

  lemma {:induction false} WithoutNone(open: seq<Tab>, key: string)
    requires !IsOpen(open, key)
    ensures Without(open, key) == open
  {
    if open != [] {
      assert open[0].key != key;
      forall i | 0 <= i < |open[1..]|
        ensures open[1..][i].key != key
      {
        assert open[1..][i] == open[i + 1];
      }
      WithoutNone(open[1..], key);
    }
  }

  lemma TouchGood(open: seq<Tab>, key: string, clock: int, now: int)
    requires UniqueKeys(open) && NotAfter(open, clock) && clock <= now
    ensures UniqueKeys(Touch(open, key, now)) && NotAfter(Touch(open, key, now), now)
    ensures forall k :: IsOpen(Touch(open, key, now), k) <==> IsOpen(open, k)
  {
    var t := Touch(open, key, now);
    assert forall i :: 0 <= i < |open| ==> t[i].key == open[i].key;
    forall k
      ensures IsOpen(t, k) <==> IsOpen(open, k)
    {
      if IsOpen(open, k) {
        var i :| 0 <= i < |open| && open[i].key == k;
        assert t[i].key == k;
      }
    }
  }

  /**
   Opening an app makes its tab active and visible and the tab's time the current one.
   An app that is open already keeps its place, and all other tabs are as before; a
   new tab comes last, and the others stay in order, less one when ten are open.
   */
  lemma OpenActivates(s: Tabs, clock: int, spaceId: string, appId: string, now: int)
    requires Good(s, clock) && clock <= now
    ensures
      var key, t := spaceId + ":" + appId, Step(s, OpenApp(spaceId, appId, now));
      && t.activeKey == Some(key) && t.visible
      && if IsOpen(s.open, key) then
           && |t.open| == |s.open|
           && forall i :: 0 <= i < |s.open| ==>
                t.open[i] == if s.open[i].key == key then s.open[i].(lastActiveAt := now) else s.open[i]
         else if |s.open| < 10 then t.open == s.open + [Tab(key, spaceId, appId, now)]
         else exists i :: 0 <= i < |s.open| && FirstBest(s.open, i, false)
                && t.open == s.open[..i] + s.open[i + 1..] + [Tab(key, spaceId, appId, now)]
  {
    var key := KeyOf(spaceId, appId);
    if !IsOpen(s.open, key) && |s.open| == MAX_IFRAMES {
      var i := EvictsLeastRecent(s, clock, spaceId, appId, now);
    }
  }

  /** Making an open tab active refreshes its time, and only that. */
  lemma SetActiveRefreshes(s: Tabs, key: string, now: int)
    ensures
      var t := Step(s, SetActive(key, now));
      && t.activeKey == Some(key) && t.visible && |t.open| == |s.open|
      && forall i :: 0 <= i < |s.open| ==>
           t.open[i] == if s.open[i].key == key then s.open[i].(lastActiveAt := now) else s.open[i]
  {
  }

  /** Closing removes exactly that tab; another active tab stays active, and the frame is shown or not as before. */
  lemma CloseRemovesExactly(s: Tabs, clock: int, key: string)
    requires Good(s, clock)
    ensures
      var t := Step(s, CloseTab(key));
      && t.visible == s.visible && (s.activeKey != Some(key) ==> t.activeKey == s.activeKey)
      && (!IsOpen(s.open, key) ==> t.open == s.open)
      && forall i :: 0 <= i < |s.open| && s.open[i].key == key ==> t.open == s.open[..i] + s.open[i + 1..]
  {
    if !IsOpen(s.open, key) {
      WithoutNone(s.open, key);
    }
    forall i | 0 <= i < |s.open| && s.open[i].key == key
      ensures Without(s.open, key) == s.open[..i] + s.open[i + 1..]
    {
      WithoutOne(s.open, i);
    }
  }

  /** Hiding changes nothing but what is shown. */
  lemma HideOnlyHides(s: Tabs)
    ensures Step(s, Hide) == Tabs(s.open, s.activeKey, false)
  {
  }

  /**
   Opening a tab when ten others are open evicts exactly one of them: the first of
   the least recently active ones, never the tab being opened, even on equal times.
   */
  lemma EvictsLeastRecent(s: Tabs, clock: int, spaceId: string, appId: string, now: int) returns (i: nat)
    requires Good(s, clock) && clock <= now && |s.open| == MAX_IFRAMES && !IsOpen(s.open, KeyOf(spaceId, appId))
    ensures i < |s.open| && FirstBest(s.open, i, false)
    ensures Opened(s, spaceId, appId, now) ==
            s.open[..i] + s.open[i + 1..] + [Tab(KeyOf(spaceId, appId), spaceId, appId, now)]
  {
    var t := Tab(KeyOf(spaceId, appId), spaceId, appId, now);
    var open := s.open + [t];
    assert UniqueKeys(open) by {
      assert forall j :: 0 <= j < |s.open| ==> s.open[j].key != t.key;
    }
    i := SortHead(open, false);
    assert open[0].lastActiveAt <= now;
    assert i < |s.open|;
    assert forall j :: 0 <= j < |s.open| ==> open[j] == s.open[j];
    WithoutOne(open, i);
    assert open[..i] == s.open[..i] && open[i + 1..] == s.open[i + 1..] + [t];
    assert open[..i] + open[i + 1..] == s.open[..i] + s.open[i + 1..] + [t];
  }

  /** The list after opening a tab that was not open: a sublist of the old one, then the new tab. */
  lemma OpenNewGood(s: Tabs, clock: int, spaceId: string, appId: string, now: int)
    requires Good(s, clock) && clock <= now && !IsOpen(s.open, KeyOf(spaceId, appId))
    ensures
      var open := Opened(s, spaceId, appId, now);
      UniqueKeys(open) && |open| <= MAX_IFRAMES && NotAfter(open, now) && IsOpen(open, KeyOf(spaceId, appId))
  {
    var t := Tab(KeyOf(spaceId, appId), spaceId, appId, now);
    assert forall j :: 0 <= j < |s.open| ==> s.open[j].key != t.key;
    if |s.open| == MAX_IFRAMES {
      var i := EvictsLeastRecent(s, clock, spaceId, appId, now);
      RemoveAt(s.open, i, clock);
      var rest := s.open[..i] + s.open[i + 1..];
      assert forall j :: 0 <= j < |rest| ==> rest[j].key != t.key;
      AppendGood(rest, t, clock);
    } else {
      AppendGood(s.open, t, clock);
    }
  }

  lemma AppendGood(rest: seq<Tab>, t: Tab, clock: int)
    requires UniqueKeys(rest) && NotAfter(rest, clock) && clock <= t.lastActiveAt
    requires forall j :: 0 <= j < |rest| ==> rest[j].key != t.key
    ensures UniqueKeys(rest + [t]) && NotAfter(rest + [t], t.lastActiveAt) && IsOpen(rest + [t], t.key)
  {
    assert (rest + [t])[|rest|] == t;
  }

  lemma RemoveAt(open: seq<Tab>, i: nat, clock: int)
    requires i < |open| && UniqueKeys(open) && NotAfter(open, clock)
    ensures
      var r := open[..i] + open[i + 1..];
      && UniqueKeys(r) && NotAfter(r, clock)
      && (forall j :: 0 <= j < |r| ==> r[j] in open && r[j].key != open[i].key)
  {
    var r := open[..i] + open[i + 1..];
    assert forall j :: 0 <= j < |r| ==> r[j] == if j < i then open[j] else open[j + 1];
  }

  lemma OpenGood(s: Tabs, clock: int, spaceId: string, appId: string, now: int)
    requires Good(s, clock) && clock <= now
    ensures Good(Step(s, OpenApp(spaceId, appId, now)), now)
  {
    var key := KeyOf(spaceId, appId);
    if IsOpen(s.open, key) {
      TouchGood(s.open, key, clock, now);
    } else {
      OpenNewGood(s, clock, spaceId, appId, now);
    }
  }

  lemma WithoutGood(open: seq<Tab>, key: string, clock: int)
    requires UniqueKeys(open) && NotAfter(open, clock)
    ensures UniqueKeys(Without(open, key)) && NotAfter(Without(open, key), clock) && |Without(open, key)| <= |open|
  {
    if IsOpen(open, key) {
      var i :| 0 <= i < |open| && open[i].key == key;
      WithoutOne(open, i);
      RemoveAt(open, i, clock);
    } else {
      WithoutNone(open, key);
    }
  }

  lemma {:induction false} WithoutKeepsOthers(open: seq<Tab>, key: string, k: string)
    requires IsOpen(open, k) && k != key
    ensures IsOpen(Without(open, key), k)
  {
    var j :| 0 <= j < |open| && open[j].key == k;
    var rest := Without(open[1..], key);
    if j > 0 {
      assert open[1..][j - 1].key == k;
      WithoutKeepsOthers(open[1..], key, k);
      var i :| 0 <= i < |rest| && rest[i].key == k;
      assert open[0].key != key ==> Without(open, key)[i + 1].key == k;
    } else {
      assert Without(open, key)[0].key == k;
    }
  }

  /** Closing the active tab activates a most recently active one of the others, or none if none is left. */
  lemma CloseActivatesMostRecent(s: Tabs, clock: int, key: string)
    requires Good(s, clock)
    ensures Good(Step(s, CloseTab(key)), clock)
    ensures s.activeKey == Some(key) ==>
              var t := Step(s, CloseTab(key));
              && (t.activeKey.None? <==> t.open == [])
              && (t.open != [] ==>
                    exists i :: 0 <= i < |t.open| && t.open[i].key == t.activeKey.value && FirstBest(t.open, i, true))
  {
    WithoutGood(s.open, key, clock);
    var open := Without(s.open, key);
    if s.activeKey.Some? && s.activeKey != Some(key) {
      WithoutKeepsOthers(s.open, key, s.activeKey.value);
    }
    if s.activeKey == Some(key) && open != [] {
      var i := SortHead(open, true);
    }
  }

  lemma {:induction false} WithoutSpaceFrom(open: seq<Tab>, spaceId: string)
    ensures |WithoutSpace(open, spaceId)| <= |open|
    ensures forall t :: t in WithoutSpace(open, spaceId) <==> t in open && t.spaceId != spaceId
  {
    if open != [] {
      WithoutSpaceFrom(open[1..], spaceId);
      assert open == [open[0]] + open[1..];
    }
  }

  lemma {:induction false} WithoutSpaceInOrder(open: seq<Tab>, spaceId: string)
    ensures Subseq(WithoutSpace(open, spaceId), open)
  {
    if open != [] {
      WithoutSpaceInOrder(open[1..], spaceId);
      SubseqCons(open[0], WithoutSpace(open[1..], spaceId), open[1..]);
      assert open == [open[0]] + open[1..];
    }
  }

  lemma {:induction false} WithoutSpaceUnique(open: seq<Tab>, spaceId: string)
    requires UniqueKeys(open)
    ensures UniqueKeys(WithoutSpace(open, spaceId))
  {
    if open != [] {
      var rest := WithoutSpace(open[1..], spaceId);
      WithoutSpaceUnique(open[1..], spaceId);
      WithoutSpaceFrom(open[1..], spaceId);
      forall i | 0 <= i < |rest|
        ensures rest[i].key != open[0].key
      {
        assert rest[i] in open[1..];
      }
    }
  }

  /**
   Clearing a space closes exactly its tabs; the active tab changes only if it was
   one of them, and then the frame is hidden with no tab active.
   */
  lemma ClearClosesExactlySpace(s: Tabs, clock: int, spaceId: string)
    requires Good(s, clock)
    ensures
      var t := Step(s, ClearSpace(spaceId));
      && Good(t, clock)
      && (forall tab :: tab in t.open <==> tab in s.open && tab.spaceId != spaceId)
      && Subseq(t.open, s.open) && (t.visible == s.visible || t.activeKey != s.activeKey)
      && (t.activeKey == s.activeKey || (t.activeKey.None? && !t.visible))
      && (t.activeKey != s.activeKey <==>
            exists tab :: tab in s.open && tab.spaceId == spaceId && s.activeKey == Some(tab.key))
  {
    WithoutSpaceFrom(s.open, spaceId);
    WithoutSpaceInOrder(s.open, spaceId);
    WithoutSpaceUnique(s.open, spaceId);
    ClearKeepsClock(s.open, spaceId, clock);
    if s.activeKey.Some? {
      var i :| 0 <= i < |s.open| && s.open[i].key == s.activeKey.value;
      OpenAfterClear(s.open, spaceId, i);
    }
  }

  lemma ClearKeepsClock(open: seq<Tab>, spaceId: string, clock: int)
    requires NotAfter(open, clock)
    ensures NotAfter(WithoutSpace(open, spaceId), clock)
  {
    WithoutSpaceFrom(open, spaceId);
    forall i | 0 <= i < |WithoutSpace(open, spaceId)|
      ensures WithoutSpace(open, spaceId)[i].lastActiveAt <= clock
    {
      assert WithoutSpace(open, spaceId)[i] in open;
    }
  }

  /** Keys being unique, a tab's key stays open exactly when the tab does. */
  lemma OpenAfterClear(open: seq<Tab>, spaceId: string, i: nat)
    requires UniqueKeys(open) && i < |open|
    ensures IsOpen(WithoutSpace(open, spaceId), open[i].key) <==> open[i].spaceId != spaceId
    ensures forall tab :: tab in open && tab.key == open[i].key ==> tab == open[i]
  {
    var rest := WithoutSpace(open, spaceId);
    WithoutSpaceFrom(open, spaceId);
    if open[i].spaceId != spaceId {
      assert open[i] in rest;
    }
  }

  /** Making a key active keeps the invariant exactly when that tab is open. */
  lemma SetActiveIff(s: Tabs, clock: int, key: string, now: int)
    requires Good(s, clock) && clock <= now
    ensures Good(Step(s, SetActive(key, now)), now) <==> IsOpen(s.open, key)
  {
    TouchGood(s.open, key, clock, now);
  }

  /** With no tab open at all, setActive makes a key active that names nothing. */
  lemma SetActiveOnUnknownKey(key: string, now: int)
    requires 0 <= now
    ensures Good(INITIAL, 0) && !Good(Step(INITIAL, SetActive(key, now)), now)
  {
    SetActiveIff(INITIAL, 0, key, now);
  }

  lemma GoodStep(s: Tabs, clock: int, e: Event)
    requires Good(s, clock) && Allowed(s, clock, e)
    ensures Good(Step(s, e), Clock(clock, e))
  {
    match e
    case OpenApp(spaceId, appId, now) => OpenGood(s, clock, spaceId, appId, now);
    case SetActive(key, now) => SetActiveIff(s, clock, key, now);
    case CloseTab(key) => CloseActivatesMostRecent(s, clock, key);
    case ClearSpace(spaceId) => ClearClosesExactlySpace(s, clock, spaceId);
    case Hide =>
  }

  const INITIAL := Tabs([], None, false)

  function Run(events: seq<Event>): Tabs {
    if events == [] then INITIAL else Step(Run(events[..|events| - 1]), events[|events| - 1])
  }

  function ClockAfter(events: seq<Event>): int {
    if events == [] then 0 else Clock(ClockAfter(events[..|events| - 1]), events[|events| - 1])
  }

  predicate AllowedRun(events: seq<Event>) {
    events == [] ||
    (AllowedRun(events[..|events| - 1]) &&
     Allowed(Run(events[..|events| - 1]), ClockAfter(events[..|events| - 1]), events[|events| - 1]))
  }

  /** In every run keys stay unique, at most ten tabs are open, and the active key is null or open. */
  lemma {:induction false} GoodRun(events: seq<Event>)
    requires AllowedRun(events)
    ensures Good(Run(events), ClockAfter(events)) && |Run(events).open| <= 10
  {
    if events != [] {
      GoodRun(events[..|events| - 1]);
      GoodStep(Run(events[..|events| - 1]), ClockAfter(events[..|events| - 1]), events[|events| - 1]);
    }
  }
}
