/** Applying `relax_csp` several times: what each pass keeps, and when the policy is settled. */
module CspPasses {
  import opened Strings
  import opened Csp
  import opened CspFixedPoint

  // ---- How many sources a directive still lacks ----

  function Missing(d: string, sources: seq<string>): (n: nat)
    ensures n <= |sources|
  {
    if sources == [] then 0
    else Missing(d, sources[..|sources| - 1]) + if Contains(d, sources[|sources| - 1]) then 0 else 1
  }

  lemma {:induction false} ContainsInLonger(d: string, more: string, x: string)
    requires Contains(d, x)
    ensures Contains(d + more, x)
  {
    if !StartsWith(d, x) {
      ContainsInLonger(d[1..], more, x);
      assert (d + more)[1..] == d[1..] + more;
    }
  }

  lemma {:induction false} MissingShrinks(d: string, more: string, sources: seq<string>)
    ensures Missing(d + more, sources) <= Missing(d, sources)
  {
    if sources != [] {
      MissingShrinks(d, more, sources[..|sources| - 1]);
      if Contains(d, sources[|sources| - 1]) {
        ContainsInLonger(d, more, sources[|sources| - 1]);
      }
    }
  }

  /** The source found is the last one missing, and it is what the inner loop appends. */
  lemma {:induction false} AddedIsLastMissing(d: string, current: string, sources: seq<string>) returns (src: string)
    requires IsSource(d) && Missing(d, sources) > 0
    ensures AddSources(d, current, sources) == d + " " + src && !Contains(d, src)
    ensures Missing(d + " " + src, sources) < Missing(d, sources)
  {
    var init, last := sources[..|sources| - 1], sources[|sources| - 1];
    if Contains(d, last) {
      src := AddedIsLastMissing(d, current, init);
      ContainsInLonger(d, " " + src, last);
      assert d + " " + src == d + (" " + src);
    } else {
      src := last;
      MissingShrinks(d, " " + last, init);
      assert d + " " + last == d + (" " + last);
      ContainsSuffix(d + " ", last);
    }
  }

  lemma {:induction false} NothingMissing(d: string, current: string, sources: seq<string>)
    ensures Missing(d, sources) == 0 <==> forall i :: 0 <= i < |sources| ==> Contains(d, sources[i])
    ensures Missing(d, sources) == 0 ==> AddSources(d, current, sources) == current
  {
    if sources != [] {
      NothingMissing(d, current, sources[..|sources| - 1]);
    }
  }

  /** One pass appends to a connect-src or default-src unless it has everything. */
  lemma OnePass(d: string, sources: seq<string>)
    requires IsSource(d)
    ensures
      var q := AddSources(d, d, sources);
      && d <= q
      && (if Missing(d, sources) > 0 then Missing(q, sources) < Missing(d, sources) else q == d)
  {
    NothingMissing(d, d, sources);
    if Missing(d, sources) > 0 {
      var src := AddedIsLastMissing(d, d, sources);
    }
  }

  // ---- The whole policy ----

  predicate LackAtMost(ds: seq<string>, sources: seq<string>, n: nat) {
    forall i :: 0 <= i < |ds| && IsSource(ds[i]) ==> Missing(ds[i], sources) <= n
  }

  lemma RelaxedLacksLess(d: string, hash: string, sources: seq<string>, n: nat)
    requires Plain(d) && Plain(hash) && AllPlain(sources)
    requires IsSource(d) ==> Missing(d, sources) <= n + 1
    ensures
      var q := Relaxed(d, hash, sources);
      IsSource(q) ==> Missing(q, sources) <= n
  {
    KindsExclude(d);
    RelaxedOther(d, hash, sources);
    RelaxedDirective(d, hash, sources);
    KindsExclude(Relaxed(d, hash, sources));
    if IsSource(d) {
      OnePass(d, sources);
    }
  }

  /** The directives of the new policy, as the next pass will split it. */
  lemma DirectivesAfter(csp: string, hash: string, sources: seq<string>)
    requires Plain(hash) && AllPlain(sources) && Relax(csp, hash, sources).Some?
    ensures
      var qs := NonEmpty(Result(Directives(csp), hash, sources));
      Directives(Relax(csp, hash, sources).value) == if qs == [] then [""] else qs
  {
    var qs := NonEmpty(Result(Directives(csp), hash, sources));
    DirectivesArePlain(csp);
    ResultDirectives(Directives(csp), hash, sources);
    if qs == [] {
      DirectivesOfEmpty();
    } else {
      DirectivesOfJoin(qs);
    }
  }

  lemma PassLacksLess(csp: string, hash: string, sources: seq<string>, n: nat)
    requires Plain(hash) && AllPlain(sources) && Relax(csp, hash, sources).Some?
    requires LackAtMost(Directives(csp), sources, n + 1)
    ensures LackAtMost(Directives(Relax(csp, hash, sources).value), sources, n)
  {
    var ds := Directives(csp);
    var rs := Result(ds, hash, sources);
    var qs := Directives(Relax(csp, hash, sources).value);
    DirectivesArePlain(csp);
    DirectivesAfter(csp, hash, sources);
    RelaxAllAt(ds, hash, sources);
    if |rs| > |ds| {
      PushedDirective(hash, sources);
      KindsExclude(rs[|ds|]);
    }
    forall j | 0 <= j < |qs| && IsSource(qs[j])
      ensures Missing(qs[j], sources) <= n
    {
      KindsExclude(qs[j]);
      NonEmptyMember(rs, qs[j]);
      var i :| 0 <= i < |rs| && rs[i] == qs[j];
      if i < |ds| {
        RelaxedLacksLess(ds[i], hash, sources, n);
      }
    }
  }

  /** The policy after up to n passes; a pass that finds nothing to do ends it. */
  function Passes(csp: string, hash: string, sources: seq<string>, n: nat): string
    decreases n
  {
    if n == 0 then csp
    else
      match Relax(csp, hash, sources)
      case None => csp
      case Some(policy) => Passes(policy, hash, sources, n - 1)
  }

  lemma LastPass(ds: seq<string>, sources: seq<string>)
    requires LackAtMost(ds, sources, 1)
    ensures NoResidue(ds, sources)
  {
    forall i | 0 <= i < |ds|
      ensures !Residue(ds[i], sources)
    {
      ResidueIff(ds[i], sources);
      if IsSource(ds[i]) {
        OnePass(ds[i], sources);
        NothingMissing(AddSources(ds[i], ds[i], sources), "", sources);
      }
    }
  }

  lemma {:induction false} SettlesInPasses(csp: string, hash: string, sources: seq<string>, n: nat)
    requires Plain(hash) && AllPlain(sources) && n > 0 && LackAtMost(Directives(csp), sources, n)
    ensures Relax(Passes(csp, hash, sources, n), hash, sources).None?
    decreases n
  {
    if Relax(csp, hash, sources).Some? {
      var policy := Relax(csp, hash, sources).value;
      if n == 1 {
        LastPass(Directives(csp), sources);
        FixedPointIff(csp, hash, sources);
        assert Passes(csp, hash, sources, 1) == Passes(policy, hash, sources, 0);
      } else {
        PassLacksLess(csp, hash, sources, n - 1);
        SettlesInPasses(policy, hash, sources, n - 1);
      }
    }
  }

  /** Nothing is left to relax: no frame-ancestors, every script-src has the hash, every source is listed. */
  predicate Permits(ds: seq<string>, hash: string, sources: seq<string>) {
    && (hash != "" ==> exists i :: 0 <= i < |ds| && "script-src" <= ds[i])
    && (forall i :: 0 <= i < |ds| ==>
          && !("frame-ancestors" <= ds[i])
          && ("script-src" <= ds[i] && hash != "" ==> Contains(ds[i], hash))
          && ("connect-src" <= ds[i] || "default-src" <= ds[i] ==>
                forall j :: 0 <= j < |sources| ==> Contains(ds[i], sources[j])))
  }

  /** `relax_csp` returns None exactly for a policy that permits everything asked for. */
  lemma NoneIffPermits(csp: string, hash: string, sources: seq<string>)
    ensures Relax(csp, hash, sources).None? <==> Permits(Directives(csp), hash, sources)
  {
    var ds := Directives(csp);
    forall i | 0 <= i < |ds|
      ensures LacksSource(ds[i], sources) <==>
              ("connect-src" <= ds[i] || "default-src" <= ds[i])
              && !forall j :: 0 <= j < |sources| ==> Contains(ds[i], sources[j])
    {
    }
  }

  /**
   However many sources are added, as many passes as there are sources (at least
   one) give a policy that permits all of them.
   */
  lemma PermitsAfterPasses(csp: string, hash: string, sources: seq<string>)
    requires Plain(hash) && AllPlain(sources)
    ensures Permits(Directives(Passes(csp, hash, sources, if sources == [] then 1 else |sources|)), hash, sources)
  {
    var n := if sources == [] then 1 else |sources|;
    SettlesInPasses(csp, hash, sources, n);
    NoneIffPermits(Passes(csp, hash, sources, n), hash, sources);
  }

  // ---- A pass only appends ----

  /** The directives that are not dropped. */
  function Kept(ds: seq<string>): seq<string> {
    if ds == [] then []
    else if ds[0] == "" || "frame-ancestors" <= ds[0] then Kept(ds[1..])
    else [ds[0]] + Kept(ds[1..])
  }

  /**
   What one pass makes of a directive: a script-src gets the hash if it lacks it, a
   connect-src or default-src gets the last source it lacks, and nothing else changes.
   */
  predicate Became(d: string, q: string, hash: string, sources: seq<string>) {
    if "script-src" <= d then q == if hash == "" || Contains(d, hash) then d else d + " " + hash
    else if ("connect-src" <= d || "default-src" <= d) && !HasAll(d, sources) then
      exists k :: 0 <= k < |sources| && LastMissing(d, sources, k) && q == d + " " + sources[k]
    else q == d
  }

  predicate AnyStarts(ds: seq<string>, prefix: string) {
    exists i :: 0 <= i < |ds| && prefix <= ds[i]
  }

  /** Each directive of `ds` is at the same place in `qs`, as one pass leaves it. */
  predicate Extends(ds: seq<string>, qs: seq<string>, hash: string, sources: seq<string>) {
    |ds| <= |qs| && forall i :: 0 <= i < |ds| ==> Became(ds[i], qs[i], hash, sources)
  }

  lemma {:induction false} AddsOnlyToSources(d: string, current: string, sources: seq<string>)
    requires !IsSource(d)
    ensures AddSources(d, current, sources) == current
  {
    if sources != [] {
      AddsOnlyToSources(d, current, sources[..|sources| - 1]);
    }
  }

  lemma RelaxedExtends(d: string, hash: string, sources: seq<string>)
    requires !IsFrame(d)
    ensures Became(d, Relaxed(d, hash, sources), hash, sources)
  {
    KindsExclude(d);
    var current := if NeedsHash(d, hash) then d + " " + hash else d;
    if !IsSource(d) {
      AddsOnlyToSources(d, current, sources);
    } else if HasAll(d, sources) {
      AddsNothing(d, current, sources);
    } else {
      var n :| 0 <= n < |sources| && !Contains(d, sources[n]);
      var k := FindLastMissing(d, sources, n);
      AddsLastMissing(d, current, sources, k);
    }
  }

  lemma {:induction false} NonEmptySnoc(ds: seq<string>, d: string)
    requires d != ""
    ensures NonEmpty(ds + [d]) == NonEmpty(ds) + [d]
  {
    if ds == [] {
      assert ds + [d] == [d] && [d][1..] == [];
    } else {
      var init := NonEmpty(ds[1..]);
      NonEmptySnoc(ds[1..], d);
      assert (ds + [d])[1..] == ds[1..] + [d];
      assert [ds[0]] + (init + [d]) == [ds[0]] + init + [d];
    }
  }

  lemma {:induction false} KeptExtended(ds: seq<string>, hash: string, sources: seq<string>)
    requires AllPlain(ds) && Plain(hash) && AllPlain(sources)
    ensures |NonEmpty(RelaxAll(ds, hash, sources))| == |Kept(ds)|
    ensures Extends(Kept(ds), NonEmpty(RelaxAll(ds, hash, sources)), hash, sources)
  {
    if ds != [] {
      KeptExtended(ds[1..], hash, sources);
      RelaxedDirective(ds[0], hash, sources);
      var rs := RelaxAll(ds, hash, sources);
      assert rs[0] == Relaxed(ds[0], hash, sources) && rs[1..] == RelaxAll(ds[1..], hash, sources);
      if ds[0] != "" && !IsFrame(ds[0]) {
        RelaxedExtends(ds[0], hash, sources);
      }
    }
  }

  /**
   A pass drops the frame-ancestors directives, keeps every other directive in its
   place with the hash or a source appended where one is lacking, adds a script-src
   with the hash exactly when there was none, and joins them with a semicolon and a
   space.
   */
  lemma PassOnlyAppends(csp: string, hash: string, sources: seq<string>)
    requires Plain(hash) && AllPlain(sources) && Relax(csp, hash, sources).Some?
    ensures
      var ds, qs := Kept(Directives(csp)), NonEmpty(Directives(Relax(csp, hash, sources).value));
      && Extends(ds, qs, hash, sources)
      && qs[|ds|..] == (if hash == "" || AnyStarts(Directives(csp), "script-src") then [] else ["script-src " + hash])
      && Relax(csp, hash, sources).value == Join(qs, "; ")
  {
    var ds := Directives(csp);
    var pushed := if !HasScript(ds) && hash != "" then ["script-src " + hash] else [];
    var rs := RelaxAll(ds, hash, sources);
    DirectivesArePlain(csp);
    DirectivesAfter(csp, hash, sources);
    KeptExtended(ds, hash, sources);
    if pushed != [] {
      NonEmptySnoc(rs, "script-src " + hash);
    } else {
      assert rs + pushed == rs;
    }
    NonEmptyTwice(rs + pushed);
    assert NonEmpty([""]) == [];
    assert HasScript(ds) <==> AnyStarts(ds, "script-src");
  }

  lemma {:induction false} NonEmptyTwice(ds: seq<string>)
    ensures NonEmpty(NonEmpty(ds)) == NonEmpty(ds)
  {
    if ds != [] {
      NonEmptyTwice(ds[1..]);
      if ds[0] != "" {
        assert NonEmpty(ds)[1..] == NonEmpty(ds[1..]);
      }
    }
  }
}
