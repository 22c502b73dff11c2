/** Relaxing a Content-Security-Policy for the proxied page (`relax_csp`, proxy/hometier_protocol.rs). */
module Csp {
  import opened Base
  import opened Strings

  predicate IsFrame(d: string) { StartsWith(d, "frame-ancestors") }
  predicate IsScript(d: string) { StartsWith(d, "script-src") }
  predicate IsSource(d: string) { StartsWith(d, "connect-src") || StartsWith(d, "default-src") }

  function TrimAll(parts: seq<string>): seq<string> {
    if parts == [] then [] else [Trim(parts[0])] + TrimAll(parts[1..])
  }

  /** The policy's directives: split at semicolons and trimmed. */
  function Directives(csp: string): seq<string> {
    TrimAll(Split(csp, ';'))
  }

  predicate NeedsHash(d: string, hash: string) {
    IsScript(d) && hash != "" && !Contains(d, hash)
  }

  /**
   The inner loop over the added sources: each missing source replaces the
   directive by the original text followed by that source, so the last one stays.
   */
  function AddSources(d: string, current: string, sources: seq<string>): string {
    if sources == [] then current
    else
      var src, before := sources[|sources| - 1], AddSources(d, current, sources[..|sources| - 1]);
      if IsSource(d) && !Contains(d, src) then d + " " + src else before
  }

  function Relaxed(d: string, hash: string, sources: seq<string>): string {
    if IsFrame(d) then ""
    else AddSources(d, if NeedsHash(d, hash) then d + " " + hash else d, sources)
  }

  predicate LacksSource(d: string, sources: seq<string>) {
    IsSource(d) && exists i :: 0 <= i < |sources| && !Contains(d, sources[i])
  }

  /** The outer loop sets `modified` for this directive. */
  predicate Modifies(d: string, hash: string, sources: seq<string>) {
    IsFrame(d) || NeedsHash(d, hash) || LacksSource(d, sources)
  }

  function RelaxAll(ds: seq<string>, hash: string, sources: seq<string>): seq<string> {
    if ds == [] then [] else [Relaxed(ds[0], hash, sources)] + RelaxAll(ds[1..], hash, sources)
  }

  predicate HasScript(ds: seq<string>) {
    exists i :: 0 <= i < |ds| && IsScript(ds[i])
  }

  predicate AnyModified(ds: seq<string>, hash: string, sources: seq<string>) {
    exists i :: 0 <= i < |ds| && Modifies(ds[i], hash, sources)
  }

  function NonEmpty(ds: seq<string>): seq<string> {
    if ds == [] then []
    else if ds[0] == "" then NonEmpty(ds[1..])
    else [ds[0]] + NonEmpty(ds[1..])
  }

  /** The directives of the new policy, before the empty ones are left out. */
  function Result(ds: seq<string>, hash: string, sources: seq<string>): seq<string> {
    RelaxAll(ds, hash, sources) + if !HasScript(ds) && hash != "" then ["script-src " + hash] else []
  }

  function Relax(csp: string, hash: string, sources: seq<string>): Option<string> {
    var ds := Directives(csp);
    if AnyModified(ds, hash, sources) || (!HasScript(ds) && hash != "") then
      Some(Join(NonEmpty(Result(ds, hash, sources)), "; "))
    else None
  }

  // ---- The program's loops ----

  /** The body of the outer loop: the new text of a directive, and whether it counts as modified. */
  method RelaxDirective(d: string, hash: string, sources: seq<string>) returns (text: string, modified: bool)
    ensures text == Relaxed(d, hash, sources) && modified == Modifies(d, hash, sources)
  {
    if IsFrame(d) {
      return "", true;
    }
    text, modified := d, false;
    if IsScript(d) && hash != "" && !Contains(d, hash) {
      text := d + " " + hash;
      modified := true;
    }
    var first := text;
    for i := 0 to |sources|
      invariant text == AddSources(d, first, sources[..i])
      invariant modified == (NeedsHash(d, hash) || LacksSource(d, sources[..i]))
    {
      var src := sources[i];
      assert sources[..i + 1][..i] == sources[..i];
      assert LacksSource(d, sources[..i + 1]) <==> LacksSource(d, sources[..i]) || (IsSource(d) && !Contains(d, src)) by {
        assert sources[..i + 1][i] == src;
        assert forall j :: 0 <= j < i ==> sources[..i + 1][j] == sources[..i][j];
      }
      if StartsWith(d, "connect-src") && !Contains(d, src) {
        text := d + " " + src;
        modified := true;
      }
      if StartsWith(d, "default-src") && !Contains(d, src) {
        text := d + " " + src;
        modified := true;
      }
    }
    assert sources[..|sources|] == sources;
  }

  lemma {:induction false} RelaxAllSnoc(ds: seq<string>, d: string, hash: string, sources: seq<string>)
    ensures RelaxAll(ds + [d], hash, sources) == RelaxAll(ds, hash, sources) + [Relaxed(d, hash, sources)]
  {
    if ds == [] {
      assert ds + [d] == [d];
      assert [d][1..] == [];
    } else {
      RelaxAllSnoc(ds[1..], d, hash, sources);
      assert (ds + [d])[1..] == ds[1..] + [d];
    }
  }

  method RelaxCsp(csp: string, hash: string, sources: seq<string>) returns (policy: Option<string>)
    ensures policy == Relax(csp, hash, sources)
  {
    var ds := Directives(csp);
    var out: seq<string> := [];
    var modified, hasScript := false, false;
    for i := 0 to |ds|
      invariant out == RelaxAll(ds[..i], hash, sources)
      invariant modified == AnyModified(ds[..i], hash, sources)
      invariant hasScript == HasScript(ds[..i])
    {
      var text, m := RelaxDirective(ds[i], hash, sources);
      RelaxAllSnoc(ds[..i], ds[i], hash, sources);
      assert ds[..i + 1] == ds[..i] + [ds[i]];
      assert ds[..i + 1][i] == ds[i];
      assert forall j :: 0 <= j < i ==> ds[..i + 1][j] == ds[..i][j];
      out := out + [text];
      modified := modified || m;
      hasScript := hasScript || IsScript(ds[i]);
    }
    assert ds[..|ds|] == ds;
    if !hasScript && hash != "" {
      out := out + ["script-src " + hash];
      modified := true;
    } else {
      assert out + [] == out;
    }
    if !modified {
      return None;
    }
    policy := Some(Join(NonEmpty(out), "; "));
  }
}
