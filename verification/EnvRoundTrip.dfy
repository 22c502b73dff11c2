/** Saving a configuration and loading it again (config/mod.rs). */
module EnvRoundTrip {
  import opened Base
  import opened Strings
  import opened EnvText

  predicate CleanKey(k: string) {
    k != "" && Trimmed(k) && '=' !in k && OneLine(k) && k[0] != '#'
  }

  predicate CleanValue(v: string) {
    Trimmed(v) && OneLine(v) && !Quoted(v)
  }

  predicate Clean(m: map<string, string>) {
    forall k :: k in m ==> CleanKey(k) && CleanValue(m[k])
  }

  function NormalMap(m: map<string, string>): map<string, string> {
    map k | k in m :: Normal(m[k])
  }

  // ---- One line ----

  lemma NoEqualsInSpaces(s: string)
    requires Spaces(s)
    ensures '=' !in s
  {
    assert !IsSpace('=');
  }

  /** The renderer and the parser find the same key in every line. */
  lemma RenderKeyIsParseKey(line: string)
    ensures RenderKey(line) == if ParseLine(line).Some? then Some(ParseLine(line).value.0) else None
  {
    var pre, post := TrimSplits(line);
    var t := Trim(line);
    NoEqualsInSpaces(pre);
    NoEqualsInSpaces(post);
    IndexOfPadded(pre, t, post, '=');
    if '=' in t {
      var eq := IndexOf(t, '=');
      assert line[..|pre| + eq] == pre + t[..eq];
      TrimSpacesBefore(pre, t[..eq]);
    }
  }

  /** Trimming an entry only removes white space after the value. */
  lemma {:induction false} TrimEntry(k: string, v: string) returns (tail: string)
    requires CleanKey(k)
    ensures Trim(Entry(k, v)) == Entry(k, tail) && Trim(tail) == Trim(v)
    decreases |v|
  {
    if v != "" && IsSpace(v[|v| - 1]) {
      var init, c := v[..|v| - 1], v[|v| - 1];
      tail := TrimEntry(k, init);
      assert v == init + [c];
      TrimSpaceAfter(init, c);
      TrimSpaceAfter(Entry(k, init), c);
      assert Entry(k, v) == Entry(k, init) + [c];
    } else {
      tail := v;
      assert Entry(k, v)[0] == k[0];
      assert Entry(k, v)[|Entry(k, v)| - 1] == if v == "" then '=' else v[|v| - 1];
      assert !IsSpace('=');
    }
  }

  /** An entry under a clean key is read back as that key and the normalised value. */
  lemma ParseEntry(k: string, v: string)
    requires CleanKey(k)
    ensures ParseLine(Entry(k, v)) == Some((k, Normal(v)))
  {
    var tail := TrimEntry(k, v);
    var t := Entry(k, tail);
    IndexOfConcat(k, "=" + tail, '=');
    assert t == k + ("=" + tail);
    assert t[..|k|] == k && t[|k| + 1..] == tail;
  }

  /** Everything the parser accepts as a key is clean, and its values stay on one line. */
  lemma ParsedKeyIsClean(line: string)
    requires OneLine(line) && ParseLine(line).Some?
    ensures CleanKey(ParseLine(line).value.0) && OneLine(ParseLine(line).value.1)
  {
    var t := Trim(line);
    var eq := IndexOf(t, '=');
    var raw, rest := t[..eq], t[eq + 1..];
    assert OneLine(t) by {
      if '\n' in t {
        TrimSubset(line, '\n');
      }
    }
    TrimIsTrimmed(line);
    KeyFromPrefix(t, raw);
    if '\n' in Normal(rest) {
      assert '\n' in Trim(rest);
      TrimSubset(rest, '\n');
    }
  }

  lemma KeyFromPrefix(t: string, raw: string)
    requires t != "" && raw <= t && OneLine(t) && '=' !in raw && Trim(raw) != "" && t[0] != '#' && !IsSpace(t[0])
    ensures CleanKey(Trim(raw))
  {
    TrimIsTrimmed(raw);
    if '=' in Trim(raw) {
      TrimSubset(raw, '=');
    }
    if '\n' in Trim(raw) {
      TrimSubset(raw, '\n');
    }
    TrimKeepsFirst(raw);
  }

  lemma {:induction false} TrimKeepsFirst(s: string)
    requires s != "" && !IsSpace(s[0])
    ensures Trim(s) != "" && Trim(s)[0] == s[0]
  {
    if IsSpace(s[|s| - 1]) {
      TrimKeepsFirst(s[..|s| - 1]);
    }
  }

  /** Dropping a carriage return at the end does not change what a line means. */
  lemma ParseStripCr(line: string)
    ensures ParseLine(StripCr(line)) == ParseLine(line)
  {
    if line != "" && line[|line| - 1] == '\r' {
      TrimSpaceAfter(line[..|line| - 1], '\r');
      assert line == line[..|line| - 1] + ['\r'];
    }
  }

  // ---- Many lines ----

  lemma {:induction false} ParseStripAll(lines: seq<string>)
    ensures ParseLines(StripAll(lines)) == ParseLines(lines)
  {
    if lines != [] {
      var init := lines[..|lines| - 1];
      ParseStripAll(init);
      ParseStripCr(lines[|lines| - 1]);
      assert StripAll(lines)[..|lines| - 1] == StripAll(init);
    }
  }

  lemma {:induction false} SeenIsParsedKeys(lines: seq<string>)
    ensures Seen(lines) == ParseLines(lines).Keys
  {
    if lines != [] {
      SeenIsParsedKeys(lines[..|lines| - 1]);
      RenderKeyIsParseKey(lines[|lines| - 1]);
    }
  }

  /** Override the values of the keys that `m` also has. */
  function Override(base: map<string, string>, m: map<string, string>): map<string, string> {
    map k | k in base :: if k in m then Normal(m[k]) else base[k]
  }

  function OverrideEntry(p: Option<(string, string)>, m: map<string, string>): Option<(string, string)> {
    if p.Some? && p.value.0 in m then Some((p.value.0, Normal(m[p.value.0]))) else p
  }

  lemma OverridePut(base: map<string, string>, m: map<string, string>, p: Option<(string, string)>)
    ensures Override(Put(base, p), m) == Put(Override(base, m), OverrideEntry(p, m))
  {
  }

  lemma RenderLineMeaning(line: string, m: map<string, string>)
    requires OneLine(line)
    ensures ParseLine(RenderLine(line, m)) == OverrideEntry(ParseLine(line), m)
  {
    RenderKeyIsParseKey(line);
    if RenderKey(line).Some? && RenderKey(line).value in m {
      ParsedKeyIsClean(line);
      ParseEntry(RenderKey(line).value, m[RenderKey(line).value]);
    }
  }

  lemma {:induction false} ParseRendered(lines: seq<string>, m: map<string, string>)
    requires AllOneLine(lines)
    ensures ParseLines(RenderLines(lines, m)) == Override(ParseLines(lines), m)
  {
    if lines != [] {
      var init, last := lines[..|lines| - 1], lines[|lines| - 1];
      ParseRendered(init, m);
      RenderLineMeaning(last, m);
      assert RenderLines(lines, m)[..|lines| - 1] == RenderLines(init, m);
      OverridePut(ParseLines(init), m, ParseLine(last));
    }
  }

  /** Adding the normalised values of the keys in `order` that are not in `seen`. */
  function Added(base: map<string, string>, order: seq<string>, m: map<string, string>, seen: set<string>)
    : map<string, string>
  {
    if order == [] then base
    else
      var k, before := order[|order| - 1], Added(base, order[..|order| - 1], m, seen);
      if k in m && k !in seen then before[k := Normal(m[k])] else before
  }

  lemma ParseSnoc(lines: seq<string>, line: string)
    ensures ParseLines(lines + [line]) == Put(ParseLines(lines), ParseLine(line))
  {
    assert (lines + [line])[..|lines|] == lines;
  }

  lemma {:induction false} ParseAppended(base: seq<string>, order: seq<string>, m: map<string, string>, seen: set<string>)
    requires forall k :: k in m ==> CleanKey(k)
    ensures ParseLines(base + Appended(order, m, seen)) == Added(ParseLines(base), order, m, seen)
  {
    if order == [] {
      assert base + Appended(order, m, seen) == base;
    } else {
      var init, k := order[..|order| - 1], order[|order| - 1];
      ParseAppended(base, init, m, seen);
      if k in m && k !in seen {
        ParseEntry(k, m[k]);
        ParseSnoc(base + Appended(init, m, seen), Entry(k, m[k]));
        assert base + Appended(order, m, seen) == base + Appended(init, m, seen) + [Entry(k, m[k])];
      }
    }
  }

  lemma {:induction false} AddedMeans(base: map<string, string>, order: seq<string>, m: map<string, string>, seen: set<string>)
    ensures Added(base, order, m, seen).Keys == base.Keys + (set k | k in m && k in order && k !in seen)
    ensures forall k :: k in Added(base, order, m, seen) ==>
              Added(base, order, m, seen)[k] == if k in m && k in order && k !in seen then Normal(m[k]) else base[k]
  {
    if order != [] {
      AddedMeans(base, order[..|order| - 1], m, seen);
      assert order == order[..|order| - 1] + [order[|order| - 1]];
    }
  }

  lemma MergeIs(base: map<string, string>, m: map<string, string>, merged: map<string, string>)
    requires merged.Keys == base.Keys + m.Keys
    requires forall k :: k in merged ==> merged[k] == if k in m then Normal(m[k]) else base[k]
    ensures merged == base + NormalMap(m)
  {
  }

  lemma AddedIs(base: map<string, string>, m: map<string, string>, order: seq<string>, k: string)
    requires Iterates(order, m)
    ensures
      var added := Added(Override(base, m), order, m, base.Keys);
      && (k in added <==> k in base || k in m)
      && (k in added ==> added[k] == if k in m then Normal(m[k]) else base[k])
  {
    AddedMeans(Override(base, m), order, m, base.Keys);
  }

  /** Overriding the known keys and adding the others is merging. */
  lemma OverrideAndAddIsMerge(base: map<string, string>, m: map<string, string>, order: seq<string>)
    requires Iterates(order, m)
    ensures Added(Override(base, m), order, m, base.Keys) == base + NormalMap(m)
  {
    var added := Added(Override(base, m), order, m, base.Keys);
    forall k
      ensures k in added <==> k in base || k in m
      ensures k in added ==> added[k] == if k in m then Normal(m[k]) else base[k]
    {
      AddedIs(base, m, order, k);
    }
    MergeIs(base, m, added);
  }

  lemma {:induction false} AppendedOneLine(order: seq<string>, m: map<string, string>, seen: set<string>)
    requires forall k :: k in m ==> OneLine(k) && OneLine(m[k])
    ensures AllOneLine(Appended(order, m, seen))
  {
    if order != [] {
      AppendedOneLine(order[..|order| - 1], m, seen);
    }
  }

  lemma RenderLineOneLine(line: string, m: map<string, string>)
    requires OneLine(line) && forall k :: k in m ==> OneLine(k) && OneLine(m[k])
    ensures OneLine(RenderLine(line, m))
  {
  }

  lemma OutputOneLine(template: string, m: map<string, string>, order: seq<string>)
    requires forall k :: k in m ==> OneLine(k) && OneLine(m[k])
    ensures AllOneLine(Output(template, m, order))
  {
    var lines := Lines(template);
    LinesAreOneLine(template);
    forall i | 0 <= i < |lines|
      ensures OneLine(RenderLines(lines, m)[i])
    {
      RenderLineOneLine(lines[i], m);
    }
    AppendedOneLine(order, m, Seen(lines));
  }

  // ---- The theorems ----

  /** What the rendered text means is what its lines mean. */
  lemma ParseOfRender(template: string, m: map<string, string>, order: seq<string>)
    requires forall k :: k in m ==> OneLine(k) && OneLine(m[k])
    ensures Parse(Render(template, m, order)) == ParseLines(Output(template, m, order))
  {
    OutputOneLine(template, m, order);
    LinesOfUnlines(Output(template, m, order));
    ParseStripAll(Output(template, m, order));
  }

  /**
   For every template, with duplicate keys or not, and every iteration order of the
   map: reading back a rendered configuration gives the template's values overridden
   by the normalised values of the map.
   */
  lemma SaveReload(template: string, m: map<string, string>, order: seq<string>)
    requires Iterates(order, m)
    requires forall k :: k in m ==> CleanKey(k) && OneLine(m[k])
    ensures Parse(Render(template, m, order)) == Parse(template) + NormalMap(m)
  {
    var lines := Lines(template);
    ParseOfRender(template, m, order);
    LinesAreOneLine(template);
    ParseRendered(lines, m);
    SeenIsParsedKeys(lines);
    ParseAppended(RenderLines(lines, m), order, m, Seen(lines));
    OverrideAndAddIsMerge(ParseLines(lines), m, order);
  }

  /** A value is read back unchanged exactly when it is trimmed and not wrapped in quotes. */
  lemma NormalKeepsIff(v: string)
    ensures Normal(v) == v <==> Trimmed(v) && !Quoted(v)
  {
    TrimIsTrimmed(v);
  }

  lemma {:induction false} ParsedIsClean(lines: seq<string>, k: string)
    requires AllOneLine(lines) && k in ParseLines(lines)
    ensures CleanKey(k) && OneLine(ParseLines(lines)[k])
  {
    var init, last := lines[..|lines| - 1], lines[|lines| - 1];
    if ParseLine(last).Some? {
      ParsedKeyIsClean(last);
    }
    if ParseLine(last).None? || ParseLine(last).value.0 != k {
      ParsedIsClean(init, k);
    }
  }

  /**
   Saving and loading again preserves a configuration, whatever the template and the
   iteration order, exactly when all its keys and values are clean.
   */
  lemma SaveReloadExactIff(template: string, m: map<string, string>, order: seq<string>)
    requires Iterates(order, m)
    ensures Parse(Render(template, m, order)) == Parse(template) + m <==> Clean(m)
  {
    var text := Render(template, m, order);
    if Parse(text) == Parse(template) + m {
      MergedIsClean(text, Parse(template), m);
    }
    if forall k :: k in m ==> CleanKey(k) && OneLine(m[k]) {
      SaveReload(template, m, order);
      MergeIsExactIff(Parse(template), m);
    }
  }

  /** What a text is read as has clean keys and one-line values, also as the upper part of a merge. */
  lemma MergedIsClean(text: string, base: map<string, string>, m: map<string, string>)
    requires Parse(text) == base + m
    ensures forall k :: k in m ==> CleanKey(k) && OneLine(m[k])
  {
    LinesAreOneLine(text);
    forall k | k in m
      ensures CleanKey(k) && OneLine(m[k])
    {
      assert k in Parse(text) && Parse(text)[k] == m[k];
      ParsedIsClean(Lines(text), k);
    }
  }

  /** Merging the normalised values is merging the values exactly when normalising keeps each. */
  lemma MergeIsExactIff(base: map<string, string>, m: map<string, string>)
    ensures base + NormalMap(m) == base + m <==> forall k :: k in m ==> Trimmed(m[k]) && !Quoted(m[k])
  {
    forall k | k in m
      ensures Normal(m[k]) == m[k] <==> Trimmed(m[k]) && !Quoted(m[k])
    {
      NormalKeepsIff(m[k]);
    }
    if base + NormalMap(m) == base + m {
      forall k | k in m
        ensures Normal(m[k]) == m[k]
      {
        assert (base + NormalMap(m))[k] == (base + m)[k];
      }
    }
  }

  /** Loading can produce a value that saving does not keep: quotes protect the spaces once only. */
  lemma QuotedSpacesAreLost()
    ensures ParseLine(Entry("K", "\" x\"")) == Some(("K", " x"))
    ensures ParseLine(Entry("K", " x")) == Some(("K", "x"))
  {
    assert !IsSpace('K') && !IsSpace('"') && IsSpace(' ') && !IsSpace('x');
    ParseEntry("K", "\" x\"");
    ParseEntry("K", " x");
    assert "\" x\""[1..3] == " x";
    assert " x"[1..] == "x";
  }
}
