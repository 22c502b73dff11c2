/** Applying `relax_csp` to its own result. */
module CspFixedPoint {
  import opened Strings
  import opened Csp

  /** Usable inside a directive: no semicolon, no white space at the edges. */
  predicate Plain(s: string) {
    Trimmed(s) && ';' !in s
  }

  predicate AllPlain(ds: seq<string>) {
    forall i :: 0 <= i < |ds| ==> Plain(ds[i])
  }

  /** The last of the sources that the directive does not contain. */
  predicate LastMissing(d: string, sources: seq<string>, k: nat)
    requires k < |sources|
  {
    !Contains(d, sources[k]) && forall j :: k < j < |sources| ==> Contains(d, sources[j])
  }

  /** A connect-src or default-src that, given its last missing source, would still lack another. */
  predicate Residue(d: string, sources: seq<string>) {
    ("connect-src" <= d || "default-src" <= d) &&
    exists k, i :: 0 <= k < |sources| && 0 <= i < |sources| &&
      LastMissing(d, sources, k) && !Contains(d + " " + sources[k], sources[i])
  }

  /** The inner loop leaves the last missing source appended. */
  lemma {:induction false} AddsLastMissing(d: string, current: string, sources: seq<string>, k: nat)
    requires IsSource(d) && k < |sources| && LastMissing(d, sources, k)
    ensures AddSources(d, current, sources) == d + " " + sources[k]
  {
    var last := |sources| - 1;
    if k < last {
      LastMissingInit(d, sources, k);
      AddsLastMissing(d, current, sources[..last], k);
    }
  }

  lemma LastMissingInit(d: string, sources: seq<string>, k: nat)
    requires k < |sources| - 1 && LastMissing(d, sources, k)
    ensures LastMissing(d, sources[..|sources| - 1], k) && Contains(d, sources[|sources| - 1])
  {
    var init := sources[..|sources| - 1];
    assert forall j :: k < j < |init| ==> init[j] == sources[j];
  }

  predicate HasAll(d: string, sources: seq<string>) {
    forall i :: 0 <= i < |sources| ==> Contains(d, sources[i])
  }

  lemma {:induction false} AddsNothing(d: string, current: string, sources: seq<string>)
    requires HasAll(d, sources)
    ensures AddSources(d, current, sources) == current
  {
    if sources != [] {
      AddsNothing(d, current, sources[..|sources| - 1]);
    }
  }

  lemma {:induction false} FindLastMissing(d: string, sources: seq<string>, n: nat) returns (k: nat)
    requires n < |sources| && !Contains(d, sources[n])
    ensures n <= k < |sources| && LastMissing(d, sources, k)
    decreases |sources| - n
  {
    k := n;
    if j :| n < j < |sources| && !Contains(d, sources[j]) {
      k := FindLastMissing(d, sources, j);
    }
  }

  /** The condition on the input says what the second pass would find. */
  lemma ResidueIff(d: string, sources: seq<string>)
    ensures Residue(d, sources) <==> IsSource(d) && LacksSource(AddSources(d, d, sources), sources)
  {
    if IsSource(d) {
      if HasAll(d, sources) {
        AddsNothing(d, d, sources);
      } else {
        var n :| 0 <= n < |sources| && !Contains(d, sources[n]);
        var k := FindLastMissing(d, sources, n);
        AddsLastMissing(d, d, sources, k);
        OnlyLastMissing(d, sources, k);
        assert IsSource(d + " " + sources[k]);
      }
    }
  }

  /** There is only one last missing source. */
  lemma OnlyLastMissing(d: string, sources: seq<string>, k: nat)
    requires k < |sources| && LastMissing(d, sources, k)
    ensures forall k' :: 0 <= k' < |sources| && LastMissing(d, sources, k') ==> k' == k
  {
  }

  // ---- Splitting the policy again ----

  lemma DirectivesOne(s: string)
    requires ';' !in s
    ensures Directives(s) == [Trim(s)]
  {
    assert IndexOf(s, ';') == |s|;
    assert Split(s, ';') == [s];
    assert TrimAll([s]) == [Trim(s)] + TrimAll([s][1..]);
  }

  lemma DirectivesMore(head: string, rest: string)
    requires ';' !in head
    ensures Directives(head + ";" + rest) == [Trim(head)] + Directives(rest)
  {
    SplitMore(head, rest, ';');
    assert ([head] + Split(rest, ';'))[1..] == Split(rest, ';');
  }

  lemma PaddedMore(head: string, rest: string)
    requires ';' !in head
    ensures Directives(" " + (head + ";" + rest)) == Directives(head + ";" + rest)
  {
    DirectivesMore(head, rest);
    DirectivesMore(" " + head, rest);
    TrimSpacesBefore(" ", head);
    assert " " + (head + ";" + rest) == (" " + head) + ";" + rest;
  }

  lemma DirectivesOfPadded(s: string)
    ensures Directives(" " + s) == Directives(s)
  {
    var i := IndexOf(s, ';');
    if i == |s| {
      DirectivesOne(s);
      DirectivesOne(" " + s);
      TrimSpacesBefore(" ", s);
    } else {
      PaddedMore(s[..i], s[i + 1..]);
      assert s == s[..i] + ";" + s[i + 1..];
    }
  }

  lemma {:induction false} DirectivesOfJoin(ds: seq<string>)
    requires ds != [] && AllPlain(ds)
    ensures Directives(Join(ds, "; ")) == ds
  {
    TrimOfPlain(ds[0]);
    if |ds| == 1 {
      DirectivesOne(ds[0]);
    } else {
      DirectivesOfJoin(ds[1..]);
      DirectivesHead(ds[0], Join(ds[1..], "; "));
    }
  }

  lemma DirectivesHead(head: string, rest: string)
    requires Plain(head)
    ensures Directives(head + "; " + rest) == [head] + Directives(rest)
  {
    TrimOfPlain(head);
    DirectivesOfPadded(rest);
    DirectivesMore(head, " " + rest);
    assert head + "; " + rest == head + ";" + (" " + rest);
  }

  lemma TrimOfPlain(d: string)
    requires Plain(d)
    ensures Trim(d) == d
  {
  }

  lemma TrimmedIsPlain(s: string)
    requires ';' !in s
    ensures Plain(Trim(s))
  {
    TrimIsTrimmed(s);
    if ';' in Trim(s) {
      TrimSubset(s, ';');
    }
  }

  lemma AllPlainCons(d: string, ds: seq<string>)
    requires Plain(d) && AllPlain(ds)
    ensures AllPlain([d] + ds)
  {
  }

  lemma {:induction false} DirectivesArePlain(csp: string)
    ensures AllPlain(Directives(csp))
    decreases |csp|
  {
    var i := IndexOf(csp, ';');
    if i == |csp| {
      TrimmedIsPlain(csp);
      DirectivesOne(csp);
    } else {
      var head, rest := csp[..i], csp[i + 1..];
      TrimmedIsPlain(head);
      DirectivesArePlain(rest);
      DirectivesMore(head, rest);
      AllPlainCons(Trim(head), Directives(rest));
      assert csp == head + ";" + rest;
    }
  }

  // ---- One directive ----

  lemma {:induction false} ContainsSuffix(a: string, x: string)
    ensures Contains(a + x, x)
  {
    if a == "" {
      assert a + x == x;
    } else {
      ContainsSuffix(a[1..], x);
      assert (a + x)[1..] == a[1..] + x;
    }
  }

  lemma AppendKeepsKind(d: string, x: string)
    requires d != "" && Plain(d) && Plain(x) && x != ""
    ensures Plain(d + " " + x) && Contains(d + " " + x, x)
    ensures IsScript(d) ==> IsScript(d + " " + x)
    ensures IsSource(d) ==> IsSource(d + " " + x)
  {
    ContainsSuffix(d + " ", x);
  }

  /** The kinds exclude each other: they differ in the first character. */
  lemma KindsExclude(d: string)
    ensures IsFrame(d) ==> d != "" && d[0] == 'f'
    ensures IsScript(d) ==> d != "" && d[0] == 's'
    ensures IsSource(d) ==> d != "" && (d[0] == 'c' || d[0] == 'd')
  {
    assert "frame-ancestors"[0] == 'f' && "script-src"[0] == 's';
    assert "connect-src"[0] == 'c' && "default-src"[0] == 'd';
  }

  lemma {:induction false} AddSourcesForms(d: string, current: string, sources: seq<string>)
    requires Plain(d) && AllPlain(sources)
    ensures !IsSource(d) ==> AddSources(d, current, sources) == current
    ensures IsSource(d) ==>
              var q := AddSources(d, current, sources);
              q == current || (Plain(q) && IsSource(q))
  {
    KindsExclude(d);
    if sources != [] {
      AddSourcesForms(d, current, sources[..|sources| - 1]);
      var src := sources[|sources| - 1];
      if IsSource(d) && !Contains(d, src) {
        if src == "" {
          assert false;
        }
        AppendKeepsKind(d, src);
      }
    }
  }

  /** One step leaves a directive empty, or in need of nothing except possibly further sources. */
  lemma RelaxedDirective(d: string, hash: string, sources: seq<string>)
    requires Plain(d) && Plain(hash) && AllPlain(sources)
    ensures
      var q := Relaxed(d, hash, sources);
      && Plain(q)
      && (q == "" <==> d == "" || IsFrame(d))
      && (IsScript(q) <==> IsScript(d))
      && (Modifies(q, hash, sources) <==> Residue(d, sources))
  {
    KindsExclude(d);
    ResidueIff(d, sources);
    if !IsFrame(d) {
      if NeedsHash(d, hash) {
        AppendKeepsKind(d, hash);
      }
      AddSourcesForms(d, if NeedsHash(d, hash) then d + " " + hash else d, sources);
      KindsExclude(Relaxed(d, hash, sources));
    } else {
      KindsExclude("");
    }
  }

  // ---- The whole policy ----

  lemma {:induction false} RelaxAllAt(ds: seq<string>, hash: string, sources: seq<string>)
    ensures |RelaxAll(ds, hash, sources)| == |ds|
    ensures forall i :: 0 <= i < |ds| ==> RelaxAll(ds, hash, sources)[i] == Relaxed(ds[i], hash, sources)
  {
    if ds != [] {
      RelaxAllAt(ds[1..], hash, sources);
    }
  }

  lemma {:induction false} NonEmptyMember(ds: seq<string>, x: string)
    ensures x in NonEmpty(ds) <==> x in ds && x != ""
  {
    if ds != [] {
      NonEmptyMember(ds[1..], x);
      assert ds == [ds[0]] + ds[1..];
    }
  }

  predicate NoResidue(ds: seq<string>, sources: seq<string>) {
    forall i :: 0 <= i < |ds| ==> !Residue(ds[i], sources)
  }

  lemma PushedDirective(hash: string, sources: seq<string>)
    requires Plain(hash) && hash != ""
    ensures
      var q := "script-src " + hash;
      Plain(q) && IsScript(q) && !Modifies(q, hash, sources)
  {
    var q := "script-src " + hash;
    assert q == "script-src" + " " + hash;
    assert ';' !in "script-src " && !IsSpace('s');
    ContainsSuffix("script-src ", hash);
    KindsExclude(q);
  }

  /** What every directive of the new policy satisfies, and what it lacks. */
  lemma ResultDirectives(ds: seq<string>, hash: string, sources: seq<string>)
    requires AllPlain(ds) && Plain(hash) && AllPlain(sources)
    ensures AllPlain(NonEmpty(Result(ds, hash, sources)))
    ensures hash != "" ==> HasScript(NonEmpty(Result(ds, hash, sources)))
    ensures AnyModified(NonEmpty(Result(ds, hash, sources)), hash, sources) <==> !NoResidue(ds, sources)
  {
    var rs := Result(ds, hash, sources);
    var qs := NonEmpty(rs);
    RelaxAllAt(ds, hash, sources);
    forall i | 0 <= i < |ds|
      ensures Plain(rs[i]) && (rs[i] == "" <==> ds[i] == "" || IsFrame(ds[i])) && (IsScript(rs[i]) <==> IsScript(ds[i]))
      ensures Modifies(rs[i], hash, sources) <==> Residue(ds[i], sources)
    {
      RelaxedDirective(ds[i], hash, sources);
    }
    if |rs| > |ds| {
      PushedDirective(hash, sources);
    }
    ResultPlain(rs, qs);
    if hash != "" {
      var i :| 0 <= i < |rs| && IsScript(rs[i]);
      KindsExclude(rs[i]);
      NonEmptyMember(rs, rs[i]);
    }
    if AnyModified(qs, hash, sources) {
      var j :| 0 <= j < |qs| && Modifies(qs[j], hash, sources);
      NonEmptyMember(rs, qs[j]);
      var i :| 0 <= i < |rs| && rs[i] == qs[j];
      assert i < |ds|;
    }
    if i :| 0 <= i < |ds| && Residue(ds[i], sources) {
      KindsExclude(ds[i]);
      NonEmptyMember(rs, rs[i]);
    }
  }

  lemma ResultPlain(rs: seq<string>, qs: seq<string>)
    requires qs == NonEmpty(rs) && AllPlain(rs)
    ensures AllPlain(qs)
  {
    forall j | 0 <= j < |qs|
      ensures Plain(qs[j])
    {
      NonEmptyMember(rs, qs[j]);
    }
  }

  lemma DirectivesOfEmpty()
    ensures Directives("") == [""]
  {
    assert Split("", ';') == [""];
    assert [""][1..] == [];
  }

  /**
   A policy returned by `relax_csp` needs no further relaxation exactly when every
   connect-src and default-src of the original contains all sources once its last
   missing one is appended.
   */
  lemma FixedPointIff(csp: string, hash: string, sources: seq<string>)
    requires Plain(hash) && AllPlain(sources) && Relax(csp, hash, sources).Some?
    ensures Relax(Relax(csp, hash, sources).value, hash, sources).None? <==> NoResidue(Directives(csp), sources)
  {
    var ds := Directives(csp);
    var qs := NonEmpty(Result(ds, hash, sources));
    DirectivesArePlain(csp);
    ResultDirectives(ds, hash, sources);
    if qs == [] {
      DirectivesOfEmpty();
      KindsExclude("");
      assert [""][0] == "";
    } else {
      DirectivesOfJoin(qs);
    }
  }

  /** With at most one added source, one application is always enough. */
  lemma OneSourceIsFixedPoint(csp: string, hash: string, sources: seq<string>)
    requires Plain(hash) && AllPlain(sources) && |sources| <= 1
    ensures Relax(csp, hash, sources).Some? ==> Relax(Relax(csp, hash, sources).value, hash, sources).None?
  {
    if Relax(csp, hash, sources).Some? {
      DirectivesArePlain(csp);
      forall i | 0 <= i < |Directives(csp)|
        ensures !Residue(Directives(csp)[i], sources)
      {
        OneSourceNoResidue(Directives(csp)[i], sources);
      }
      FixedPointIff(csp, hash, sources);
    }
  }

  lemma OneSourceNoResidue(d: string, sources: seq<string>)
    requires |sources| <= 1
    ensures !Residue(d, sources)
  {
    if sources != [] {
      ContainsSuffix(d + " ", sources[0]);
    }
  }

  /** With two unrelated sources, the policy made of one directive needs a second pass. */
  lemma TwoSourcesNeedTwoPasses(d: string, a: string, b: string)
    requires Plain(d) && IsSource(d) && Plain(a) && Plain(b)
    requires !Contains(d, b) && !Contains(d + " " + b, a)
    ensures Relax(d, "", [a, b]).Some? && Relax(Relax(d, "", [a, b]).value, "", [a, b]).Some?
  {
    DirectivesOne(d);
    TrimOfPlain(d);
    assert Directives(d)[0] == d && [a, b][1] == b;
    assert LastMissing(d, [a, b], 1);
    assert !Contains(d + " " + [a, b][1], [a, b][0]);
    assert Residue(Directives(d)[0], [a, b]);
    assert Modifies(Directives(d)[0], "", [a, b]);
    FixedPointIff(d, "", [a, b]);
  }

  lemma LetterInPrefix(d: string, x: string, c: char)
    requires x == [c]
    ensures StartsWith(d, x) ==> c in d
  {
    if StartsWith(d, x) {
      assert d[0] == x[0];
    }
  }

  lemma {:induction false} NotContained(d: string, x: string, c: char)
    requires c !in d && x == [c]
    ensures !Contains(d, x)
  {
    LetterInPrefix(d, x, c);
    if d != "" {
      NotContained(d[1..], x, c);
    }
  }

  lemma PlainConnectSrc(d: string)
    requires d == "connect-src"
    ensures Plain(d) && IsSource(d) && 'x' !in d && 'y' !in d
  {
    assert d[0] == 'c' && d[10] == 'c' && |d| == 11;
  }

  lemma PlainLetter(s: string, c: char)
    requires s == [c] && (c == 'x' || c == 'y')
    ensures Plain(s)
  {
  }

  /** For instance a bare `connect-src` with the sources `x` and `y`. */
  lemma TwoSourcesExample(csp: string, a: string, b: string)
    requires csp == "connect-src" && a == ['x'] && b == ['y']
    ensures Relax(csp, "", [a, b]).Some? && Relax(Relax(csp, "", [a, b]).value, "", [a, b]).Some?
  {
    PlainConnectSrc(csp);
    PlainLetter(a, 'x');
    PlainLetter(b, 'y');
    NotContained(csp, b, 'y');
    NotContained(csp + " " + b, a, 'x');
    TwoSourcesNeedTwoPasses(csp, a, b);
  }

  // ---- The directives that are not touched ----

  predicate IsOther(d: string) {
    && d != "" && !("frame-ancestors" <= d) && !("script-src" <= d)
    && !("connect-src" <= d) && !("default-src" <= d)
  }

  function Select(ds: seq<string>, keep: string -> bool): seq<string> {
    if ds == [] then []
    else if keep(ds[0]) then [ds[0]] + Select(ds[1..], keep)
    else Select(ds[1..], keep)
  }

  function Others(ds: seq<string>): seq<string> {
    Select(ds, IsOther)
  }

  lemma {:induction false} SelectConcat(a: seq<string>, b: seq<string>, keep: string -> bool)
    ensures Select(a + b, keep) == Select(a, keep) + Select(b, keep)
  {
    if a == [] {
      assert a + b == b;
    } else {
      SelectConcat(a[1..], b, keep);
      assert (a + b)[1..] == a[1..] + b;
    }
  }

  lemma {:induction false} OthersOfNonEmpty(ds: seq<string>)
    ensures Others(NonEmpty(ds)) == Others(ds)
  {
    if ds != [] {
      OthersOfNonEmpty(ds[1..]);
      if ds[0] != "" {
        assert NonEmpty(ds)[1..] == NonEmpty(ds[1..]);
      }
    }
  }

  lemma RelaxedOther(d: string, hash: string, sources: seq<string>)
    requires Plain(d) && Plain(hash) && AllPlain(sources)
    ensures IsOther(d) ==> Relaxed(d, hash, sources) == d
    ensures !IsOther(d) ==> !IsOther(Relaxed(d, hash, sources))
  {
    AddSourcesForms(d, if NeedsHash(d, hash) then d + " " + hash else d, sources);
    RelaxedDirective(d, hash, sources);
    KindsExclude(d);
  }

  lemma {:induction false} OthersOfRelaxed(ds: seq<string>, hash: string, sources: seq<string>)
    requires AllPlain(ds) && Plain(hash) && AllPlain(sources)
    ensures Others(RelaxAll(ds, hash, sources)) == Others(ds)
  {
    if ds != [] {
      OthersOfRelaxed(ds[1..], hash, sources);
      RelaxedOther(ds[0], hash, sources);
      assert RelaxAll(ds, hash, sources)[1..] == RelaxAll(ds[1..], hash, sources);
    }
  }

  /** Directives of any other kind come out verbatim, all of them and in the same order. */
  lemma OtherDirectivesSurvive(csp: string, hash: string, sources: seq<string>)
    requires Plain(hash) && AllPlain(sources) && Relax(csp, hash, sources).Some?
    ensures Others(Directives(Relax(csp, hash, sources).value)) == Others(Directives(csp))
  {
    var ds := Directives(csp);
    var rs := Result(ds, hash, sources);
    DirectivesArePlain(csp);
    ResultDirectives(ds, hash, sources);
    OthersOfRelaxed(ds, hash, sources);
    var pushed := if !HasScript(ds) && hash != "" then ["script-src " + hash] else [];
    SelectConcat(RelaxAll(ds, hash, sources), pushed, IsOther);
    if pushed != [] {
      PushedDirective(hash, sources);
      assert pushed[1..] == [];
    }
    OthersOfNonEmpty(rs);
    if NonEmpty(rs) == [] {
      DirectivesOfEmpty();
      assert [""][1..] == [];
    } else {
      DirectivesOfJoin(NonEmpty(rs));
    }
  }
}
