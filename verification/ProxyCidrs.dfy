/**
 The proxy CIDR list of a network configuration (easytier/config.rs).  `own` is the
 text of the node's own network, None when the address or length is not valid.
 */
module ProxyCidrs {
  import opened Base
  import opened Strings

  datatype Settings = Settings(proxyCidrs: seq<string>, proxyNetworks: seq<string>, own: Option<string>)

  /** A printed CIDR has no white space around it. */
  predicate ValidOwn(own: Option<string>) {
    own.Some? ==> own.value != "" && Trim(own.value) == own.value
  }

  function OwnSet(own: Option<string>): set<string> {
    if own.Some? then {own.value} else {}
  }

  // ---- dedupe_proxy_cidrs ----

  /** `retain` with a set of texts seen: blank entries go, of equal ones the first stays, untrimmed. */
  function Dedupe(list: seq<string>, seen: set<string>): seq<string> {
    if list == [] then []
    else
      var t := Trim(list[0]);
      if t == "" || t in seen then Dedupe(list[1..], seen)
      else [list[0]] + Dedupe(list[1..], seen + {t})
  }

  function Without(list: seq<string>, own: string): seq<string> {
    if list == [] then []
    else if Trim(list[0]) == own then Without(list[1..], own)
    else [list[0]] + Without(list[1..], own)
  }

  function Deduped(c: Settings): seq<string> {
    var list := Dedupe(c.proxyCidrs, {});
    if c.own.Some? then [c.own.value] + Without(list, c.own.value) else list
  }

  // ---- effective_proxy_cidrs ----

  function Source(c: Settings): seq<string> {
    if c.proxyCidrs != [] then c.proxyCidrs else c.proxyNetworks
  }

  /** The trimmed non-blank entries of a list. */
  function Texts(list: seq<string>): set<string> {
    set c | c in list && Trim(c) != "" :: Trim(c)
  }

  function TrimmedDistinct(list: seq<string>, seen: set<string>): seq<string> {
    if list == [] then []
    else
      var t := Trim(list[0]);
      if t == "" || t in seen then TrimmedDistinct(list[1..], seen)
      else [t] + TrimmedDistinct(list[1..], seen + {t})
  }

  function Effective(c: Settings): seq<string> {
    var out := TrimmedDistinct(Source(c), {});
    if c.own.Some? && c.own.value !in out then out + [c.own.value] else out
  }

  function EffectiveSet(c: Settings): set<string> {
    set x | x in Effective(c)
  }

  // ---- Facts about the lists ----

  lemma TextsCons(list: seq<string>)
    requires list != []
    ensures Texts(list) == Texts(list[1..]) + if Trim(list[0]) != "" then {Trim(list[0])} else {}
  {
    assert list == [list[0]] + list[1..];
  }

  lemma {:induction false} TrimmedDistinctMeans(list: seq<string>, seen: set<string>)
    ensures forall x :: x in TrimmedDistinct(list, seen) <==> x in Texts(list) && x !in seen
    ensures forall i, j :: 0 <= i < j < |TrimmedDistinct(list, seen)| ==>
              TrimmedDistinct(list, seen)[i] != TrimmedDistinct(list, seen)[j]
  {
    if list != [] {
      TextsCons(list);
      var t := Trim(list[0]);
      if t == "" || t in seen {
        TrimmedDistinctMeans(list[1..], seen);
      } else {
        TrimmedDistinctMeans(list[1..], seen + {t});
      }
    }
  }

  /** The effective list has no duplicates and holds the trimmed entries of its source and the own network. */
  lemma EffectiveMeans(c: Settings)
    ensures EffectiveSet(c) ==
            (if c.proxyCidrs == [] then Texts(c.proxyNetworks) else Texts(c.proxyCidrs)) + OwnSet(c.own)
    ensures forall i, j :: 0 <= i < j < |Effective(c)| ==> Effective(c)[i] != Effective(c)[j]
  {
    TrimmedDistinctMeans(Source(c), {});
  }

  /** Entries are non-blank, pairwise different up to trimming, and avoid `seen`. */
  predicate Tidy(list: seq<string>, seen: set<string>) {
    && (forall i :: 0 <= i < |list| ==> Trim(list[i]) != "" && Trim(list[i]) !in seen)
    && (forall i, j :: 0 <= i < j < |list| ==> Trim(list[i]) != Trim(list[j]))
  }

  lemma {:induction false} DedupeTidy(list: seq<string>, seen: set<string>)
    ensures Tidy(Dedupe(list, seen), seen)
  {
    if list != [] {
      var t := Trim(list[0]);
      if t == "" || t in seen {
        DedupeTidy(list[1..], seen);
      } else {
        DedupeTidy(list[1..], seen + {t});
        TidyCons(list[0], Dedupe(list[1..], seen + {t}), seen);
      }
    }
  }

  lemma {:induction false} DedupeTexts(list: seq<string>, seen: set<string>)
    ensures Texts(Dedupe(list, seen)) == Texts(list) - seen
  {
    if list != [] {
      TextsCons(list);
      var t := Trim(list[0]);
      if t == "" || t in seen {
        DedupeTexts(list[1..], seen);
      } else {
        var rest := Dedupe(list[1..], seen + {t});
        DedupeTexts(list[1..], seen + {t});
        assert ([list[0]] + rest)[1..] == rest;
        TextsCons([list[0]] + rest);
      }
    }
  }

  lemma {:induction false} DedupeOfTidy(list: seq<string>, seen: set<string>)
    requires Tidy(list, seen)
    ensures Dedupe(list, seen) == list
  {
    if list != [] {
      DedupeOfTidy(list[1..], seen + {Trim(list[0])});
    }
  }

  lemma {:induction false} WithoutTidy(list: seq<string>, seen: set<string>, own: string)
    requires Tidy(list, seen)
    ensures Tidy(Without(list, own), seen + {own})
  {
    if list != [] {
      WithoutTidy(list[1..], seen + {Trim(list[0])}, own);
      if Trim(list[0]) != own {
        TidyCons(list[0], Without(list[1..], own), seen + {own});
      }
    }
  }

  lemma TidyCons(c: string, rest: seq<string>, seen: set<string>)
    requires Trim(c) != "" && Trim(c) !in seen && Tidy(rest, seen + {Trim(c)})
    ensures Tidy([c] + rest, seen)
  {
  }

  lemma {:induction false} WithoutTexts(list: seq<string>, own: string)
    ensures Texts(Without(list, own)) == Texts(list) - {own}
  {
    if list != [] {
      var rest := Without(list[1..], own);
      WithoutTexts(list[1..], own);
      TextsCons(list);
      if Trim(list[0]) != own {
        assert ([list[0]] + rest)[1..] == rest;
        TextsCons([list[0]] + rest);
      }
    }
  }

  lemma {:induction false} WithoutNone(list: seq<string>, own: string)
    requires forall i :: 0 <= i < |list| ==> Trim(list[i]) != own
    ensures Without(list, own) == list
  {
    if list != [] {
      WithoutNone(list[1..], own);
    }
  }

  // ---- Order ----

  /** The text of entry i appears nowhere before it. */
  predicate First(list: seq<string>, i: nat)
    requires i < |list|
  {
    Trim(list[i]) != "" && forall j :: 0 <= j < i ==> Trim(list[j]) != Trim(list[i])
  }

  predicate Rising(positions: seq<nat>) {
    forall a, b :: 0 <= a < b < |positions| ==> positions[a] < positions[b]
  }

  /** `picked` are the positions, in order, of the first entries of each text. */
  predicate AreFirsts(list: seq<string>, picked: seq<nat>) {
    && (forall a :: 0 <= a < |picked| ==> picked[a] < |list| && First(list, picked[a]))
    && Rising(picked)
    && (forall i :: 0 <= i < |list| && First(list, i) ==> i in picked)
  }

  function FirstsFrom(list: seq<string>, i: nat): seq<nat>
    requires i <= |list|
    decreases |list| - i
  {
    if i == |list| then []
    else (if First(list, i) then [i] else []) + FirstsFrom(list, i + 1)
  }

  lemma {:induction false} FirstsFromAre(list: seq<string>, i: nat)
    requires i <= |list|
    ensures forall k :: k in FirstsFrom(list, i) <==> i <= k < |list| && First(list, k)
    ensures Rising(FirstsFrom(list, i))
    decreases |list| - i
  {
    if i < |list| {
      FirstsFromAre(list, i + 1);
      var rest := FirstsFrom(list, i + 1);
      assert [] + rest == rest;
      forall a | 0 <= a < |rest|
        ensures i < rest[a]
      {
        assert rest[a] in rest;
      }
      RisingCons(i, rest);
    }
  }

  lemma RisingCons(i: nat, rest: seq<nat>)
    requires Rising(rest) && forall a :: 0 <= a < |rest| ==> i < rest[a]
    ensures Rising([i] + rest)
  {
  }

  /** What has been seen after i entries. */
  lemma FirstIffUnseen(list: seq<string>, i: nat, seen: set<string>)
    requires i < |list| && seen == Texts(list[..i])
    ensures First(list, i) <==> Trim(list[i]) != "" && Trim(list[i]) !in seen
    ensures Texts(list[..i + 1]) == seen + if Trim(list[i]) != "" then {Trim(list[i])} else {}
  {
    assert list[..i + 1] == list[..i] + [list[i]];
    forall j | 0 <= j < i
      ensures list[j] in list[..i]
    {
      assert list[..i][j] == list[j];
    }
    forall c | c in list[..i]
      ensures exists j :: 0 <= j < i && list[j] == c
    {
      var j :| 0 <= j < i && list[..i][j] == c;
    }
  }

  function EntriesAt(list: seq<string>, picked: seq<nat>): seq<string>
    requires forall a :: 0 <= a < |picked| ==> picked[a] < |list|
  {
    seq(|picked|, a requires 0 <= a < |picked| => list[picked[a]])
  }

  function TextsAt(list: seq<string>, picked: seq<nat>): seq<string>
    requires forall a :: 0 <= a < |picked| ==> picked[a] < |list|
  {
    seq(|picked|, a requires 0 <= a < |picked| => Trim(list[picked[a]]))
  }

  lemma EntriesCons(list: seq<string>, i: nat, rest: seq<nat>)
    requires i < |list| && forall a :: 0 <= a < |rest| ==> rest[a] < |list|
    ensures forall a :: 0 <= a < |[i] + rest| ==> ([i] + rest)[a] < |list|
    ensures EntriesAt(list, [i] + rest) == [list[i]] + EntriesAt(list, rest)
    ensures TextsAt(list, [i] + rest) == [Trim(list[i])] + TextsAt(list, rest)
  {
  }

  /** One entry is kept, in both lists, exactly when it is the first of its text. */
  lemma HeadIsKept(list: seq<string>, i: nat, seen: set<string>)
    requires i < |list| && seen == Texts(list[..i])
    ensures
      var after := Texts(list[..i + 1]);
      && Dedupe(list[i..], seen) == (if First(list, i) then [list[i]] else []) + Dedupe(list[i + 1..], after)
      && TrimmedDistinct(list[i..], seen) ==
         (if First(list, i) then [Trim(list[i])] else []) + TrimmedDistinct(list[i + 1..], after)
  {
    FirstIffUnseen(list, i, seen);
    assert list[i..][0] == list[i] && list[i..][1..] == list[i + 1..];
    if !First(list, i) {
      assert Texts(list[..i + 1]) == seen;
    }
  }

  lemma {:induction false} DedupeFrom(list: seq<string>, i: nat)
    requires i <= |list|
    ensures forall a :: 0 <= a < |FirstsFrom(list, i)| ==> FirstsFrom(list, i)[a] < |list|
    ensures Dedupe(list[i..], Texts(list[..i])) == EntriesAt(list, FirstsFrom(list, i))
    ensures TrimmedDistinct(list[i..], Texts(list[..i])) == TextsAt(list, FirstsFrom(list, i))
    decreases |list| - i
  {
    if i < |list| {
      DedupeFrom(list, i + 1);
      HeadIsKept(list, i, Texts(list[..i]));
      var rest := FirstsFrom(list, i + 1);
      EntriesCons(list, i, rest);
      assert [] + rest == rest;
    }
  }

  /**
   Both lists keep the first entry of every text, in the order of the list: the
   entries as they are when deduplicating, their texts in the effective list.
   */
  lemma FirstsInOrder(list: seq<string>) returns (picked: seq<nat>)
    ensures AreFirsts(list, picked)
    ensures Dedupe(list, {}) == EntriesAt(list, picked)
    ensures TrimmedDistinct(list, {}) == TextsAt(list, picked)
  {
    picked := FirstsFrom(list, 0);
    FirstsFromAre(list, 0);
    DedupeFrom(list, 0);
    assert forall a :: 0 <= a < |picked| ==> picked[a] in picked;
    assert list[0..] == list && list[..0] == [];
    assert Texts([]) == {};
  }

  predicate InList(list: seq<string>, picked: seq<nat>) {
    forall a :: 0 <= a < |picked| ==> picked[a] < |list|
  }

  function Excluding(list: seq<string>, picked: seq<nat>, own: string): seq<nat>
    requires InList(list, picked)
  {
    if picked == [] then []
    else (if Trim(list[picked[0]]) == own then [] else [picked[0]]) + Excluding(list, picked[1..], own)
  }

  lemma {:induction false} ExcludingIs(list: seq<string>, picked: seq<nat>, own: string)
    requires InList(list, picked)
    ensures InList(list, Excluding(list, picked, own))
    ensures forall k :: k in Excluding(list, picked, own) <==> k in picked && Trim(list[k]) != own
  {
    if picked != [] {
      var rest := Excluding(list, picked[1..], own);
      ExcludingIs(list, picked[1..], own);
      assert picked == [picked[0]] + picked[1..];
      assert [] + rest == rest;
    }
  }

  lemma {:induction false} ExcludingRises(list: seq<string>, picked: seq<nat>, own: string)
    requires InList(list, picked) && Rising(picked)
    ensures Rising(Excluding(list, picked, own))
  {
    if picked != [] {
      var rest := Excluding(list, picked[1..], own);
      ExcludingRises(list, picked[1..], own);
      ExcludingIs(list, picked[1..], own);
      AboveFirst(picked, rest);
      RisingCons(picked[0], rest);
      assert [] + rest == rest;
    }
  }

  lemma AboveFirst(picked: seq<nat>, rest: seq<nat>)
    requires picked != [] && Rising(picked) && forall k :: k in rest ==> k in picked[1..]
    ensures forall a :: 0 <= a < |rest| ==> picked[0] < rest[a]
  {
    forall a | 0 <= a < |rest|
      ensures picked[0] < rest[a]
    {
      assert rest[a] in rest;
    }
  }

  lemma {:induction false} WithoutIs(list: seq<string>, picked: seq<nat>, own: string)
    requires InList(list, picked)
    ensures InList(list, Excluding(list, picked, own))
    ensures Without(EntriesAt(list, picked), own) == EntriesAt(list, Excluding(list, picked, own))
  {
    ExcludingIs(list, picked, own);
    if picked != [] {
      var entries, rest := EntriesAt(list, picked), Excluding(list, picked[1..], own);
      WithoutIs(list, picked[1..], own);
      assert entries[1..] == EntriesAt(list, picked[1..]);
      EntriesCons(list, picked[0], rest);
      assert [] + rest == rest;
    }
  }

  /**
   Deduplicating: the own network if there is one, then the first entry of every
   other text as it stands, in the order of the list.
   */
  lemma DedupedIsOrdered(c: Settings) returns (picked: seq<nat>)
    ensures InList(c.proxyCidrs, picked) && Rising(picked)
    ensures forall i :: 0 <= i < |c.proxyCidrs| ==>
              (i in picked <==> First(c.proxyCidrs, i) && c.own != Some(Trim(c.proxyCidrs[i])))
    ensures Deduped(c) == (if c.own.Some? then [c.own.value] else []) + EntriesAt(c.proxyCidrs, picked)
  {
    var list := c.proxyCidrs;
    picked := FirstsInOrder(list);
    if c.own.Some? {
      ExcludingIs(list, picked, c.own.value);
      ExcludingRises(list, picked, c.own.value);
      WithoutIs(list, picked, c.own.value);
      picked := Excluding(list, picked, c.own.value);
    } else {
      assert [] + EntriesAt(list, picked) == EntriesAt(list, picked);
    }
  }

  /** The effective list: the first text of each entry in order, then the own network unless it is among them. */
  lemma EffectiveIsOrdered(c: Settings) returns (picked: seq<nat>)
    ensures
      var source := if c.proxyCidrs == [] then c.proxyNetworks else c.proxyCidrs;
      && AreFirsts(source, picked)
      && Effective(c) == TextsAt(source, picked) +
           if c.own.Some? && c.own.value !in TextsAt(source, picked) then [c.own.value] else []
  {
    picked := FirstsInOrder(Source(c));
    assert TextsAt(Source(c), picked) + [] == TextsAt(Source(c), picked);
  }

  // ---- What deduplication guarantees ----

  /** The result has no blank entry, no two entries equal up to trimming, and the own network first. */
  lemma DedupedTidy(c: Settings)
    requires ValidOwn(c.own)
    ensures Tidy(Deduped(c), {})
    ensures c.own.Some? ==> Deduped(c) != [] && Deduped(c)[0] == c.own.value
    ensures Texts(Deduped(c)) == Texts(c.proxyCidrs) + OwnSet(c.own)
  {
    var list := Dedupe(c.proxyCidrs, {});
    DedupeTidy(c.proxyCidrs, {});
    DedupeTexts(c.proxyCidrs, {});
    if c.own.Some? {
      var own := c.own.value;
      WithoutTidy(list, {}, own);
      WithoutTexts(list, own);
      var rest := Without(list, own);
      assert ([own] + rest)[1..] == rest;
      TextsCons([own] + rest);
    }
  }

  /** Deduplicating twice is deduplicating once. */
  lemma DedupedIdempotent(c: Settings)
    requires ValidOwn(c.own)
    ensures Deduped(c.(proxyCidrs := Deduped(c))) == Deduped(c)
  {
    var once := Deduped(c);
    DedupedTidy(c);
    DedupeOfTidy(once, {});
    if c.own.Some? {
      WithoutNone(once[1..], c.own.value);
      assert Without(once, c.own.value) == Without(once[1..], c.own.value);
    }
  }

  /**
   Deduplication keeps the effective set exactly when the list had a non-blank entry,
   or it was empty and stays empty, or not empty and stays so, or the fallback list
   that comes into or goes out of use adds nothing.
   */
  lemma EffectiveKeptIff(c: Settings)
    requires ValidOwn(c.own)
    ensures EffectiveSet(c.(proxyCidrs := Deduped(c))) == EffectiveSet(c) <==>
            || Texts(c.proxyCidrs) != {}
            || (c.own.Some? <==> c.proxyCidrs != [])
            || Texts(c.proxyNetworks) <= OwnSet(c.own)
  {
    var d := c.(proxyCidrs := Deduped(c));
    EffectiveMeans(c);
    EffectiveMeans(d);
    DedupedTidy(c);
    if c.proxyCidrs == [] {
      assert Texts(c.proxyCidrs) == {};
    }
    if d.proxyCidrs == [] {
      assert Texts(d.proxyCidrs) == {};
    } else if c.own.None? {
      assert Trim(d.proxyCidrs[0]) in Texts(d.proxyCidrs);
    }
  }

  /** A list with one blank entry: deduplicating it brings the fallback list into use. */
  lemma BlankEntryHidesFallback(cidr: string)
    requires cidr != "" && Trim(cidr) == cidr
    ensures
      var c := Settings([" "], [cidr], None);
      EffectiveSet(c) == {} && EffectiveSet(c.(proxyCidrs := Deduped(c))) == {cidr}
  {
    var c := Settings([" "], [cidr], None);
    assert Trim(" ") == "" by {
      assert " "[1..] == "";
    }
    DedupedTidy(c);
    assert Texts(c.proxyCidrs) == {};
    EffectiveMeans(c);
    EffectiveMeans(c.(proxyCidrs := []));
  }

  // ---- The program's in-place form ----

  class NetworkConfig {
    var proxyCidrs: seq<string>
    var proxyNetworks: seq<string>
    const own: Option<string>

    ghost function View(): Settings
      reads this
    {
      Settings(proxyCidrs, proxyNetworks, own)
    }

    constructor (proxyCidrs: seq<string>, proxyNetworks: seq<string>, own: Option<string>)
      ensures View() == Settings(proxyCidrs, proxyNetworks, own)
    {
      this.proxyCidrs, this.proxyNetworks, this.own := proxyCidrs, proxyNetworks, own;
    }

    method RetainUnseen()
      modifies this`proxyCidrs
      ensures proxyCidrs == Dedupe(old(proxyCidrs), {})
    {
      var kept: seq<string> := [];
      var seen: set<string> := {};
      for i := 0 to |proxyCidrs|
        invariant kept + Dedupe(proxyCidrs[i..], seen) == Dedupe(proxyCidrs, {})
        modifies {}
      {
        var t := Trim(proxyCidrs[i]);
        assert proxyCidrs[i..][1..] == proxyCidrs[i + 1..];
        if t != "" && t !in seen {
          kept := kept + [proxyCidrs[i]];
          seen := seen + {t};
        }
      }
      proxyCidrs := kept;
    }

    method RetainOthers(text: string)
      modifies this`proxyCidrs
      ensures proxyCidrs == Without(old(proxyCidrs), text)
    {
      var kept: seq<string> := [];
      for i := 0 to |proxyCidrs|
        invariant kept + Without(proxyCidrs[i..], text) == Without(proxyCidrs, text)
        modifies {}
      {
        assert proxyCidrs[i..][1..] == proxyCidrs[i + 1..];
        if Trim(proxyCidrs[i]) != text {
          kept := kept + [proxyCidrs[i]];
        }
      }
      proxyCidrs := kept;
    }

    method DedupeProxyCidrs()
      modifies this`proxyCidrs
      ensures proxyCidrs == Deduped(old(View()))
      ensures ValidOwn(own) ==> Tidy(proxyCidrs, {}) && (own.Some? ==> proxyCidrs != [] && proxyCidrs[0] == own.value)
    {
      if ValidOwn(own) {
        DedupedTidy(View());
      }
      RetainUnseen();
      if own.Some? {
        RetainOthers(own.value);
        proxyCidrs := [own.value] + proxyCidrs;
      }
    }

    /** The trimmed entries of a list, each once, in order of first appearance. */
    method CollectDistinct(source: seq<string>) returns (out: seq<string>, seen: set<string>)
      ensures out == TrimmedDistinct(source, {}) && forall x :: x in seen <==> x in out
    {
      seen := {};
      out := [];
      for i := 0 to |source|
        invariant out + TrimmedDistinct(source[i..], seen) == TrimmedDistinct(source, {})
        invariant forall x :: x in seen <==> x in out
      {
        var t := Trim(source[i]);
        assert source[i..][1..] == source[i + 1..];
        if t != "" && t !in seen {
          seen := seen + {t};
          out := out + [t];
        }
      }
    }

    method EffectiveProxyCidrs() returns (out: seq<string>)
      ensures out == Effective(View())
      ensures (set x | x in out) == Texts(Source(View())) + OwnSet(own)
    {
      var seen;
      out, seen := CollectDistinct(if proxyCidrs != [] then proxyCidrs else proxyNetworks);
      if own.Some? && own.value !in seen {
        out := out + [own.value];
      }
      EffectiveMeans(View());
    }
  }
}
