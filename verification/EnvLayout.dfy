/**
 The .env format line by line: what the parser makes of a line, and what saving
 leaves of the lines of a template (config/mod.rs).
 */
module EnvLayout {
  import opened Base
  import opened Strings
  import opened EnvText
  import opened EnvRoundTrip

  // ---- Where lines end ----

  lemma LinesBreak(line: string, rest: string)
    requires '\n' !in line && (line == "" || line[|line| - 1] != '\r')
    ensures Lines(line + "\n" + rest) == [line] + Lines(rest)
    ensures Lines(line + "\r\n" + rest) == [line] + Lines(rest)
    ensures line != "" ==> Lines(line) == [line]
  {
    LinesHead(line, rest);
    LinesBreakCr(line, rest);
    if line != "" {
      OneLineAlone(line);
    }
  }

  lemma LinesBreakCr(line: string, rest: string)
    requires OneLine(line)
    ensures Lines(line + "\r\n" + rest) == [line] + Lines(rest)
  {
    var withCr := line + ['\r'];
    assert withCr[..|withCr| - 1] == line;
    LinesHead(withCr, rest);
    SameText(line, rest);
  }

  lemma SameText(line: string, rest: string)
    ensures line + ['\r'] + "\n" + rest == line + "\r\n" + rest
  {
  }

  lemma OneLineAlone(line: string)
    requires OneLine(line) && line != ""
    ensures Lines(line) == [line]
  {
    assert IndexOf(line, '\n') == |line|;
  }

  // ---- What a line means ----

  /** Matching quotes around a text are taken off, once; a text without them is kept as it is. */
  lemma QuotesComeOff(v: string, q: char)
    ensures q == '"' || q == '\'' ==> Normal([q] + v + [q]) == v
    ensures q != '"' && q != '\'' && !IsSpace(q) ==> Normal([q] + v + [q]) == [q] + v + [q]
  {
    var quoted := [q] + v + [q];
    assert quoted[0] == q && quoted[|quoted| - 1] == q;
    assert quoted[1..|quoted| - 1] == v;
    assert !IsSpace('"') && !IsSpace('\'');
  }

  /** Quotes that do not match stay. */
  lemma UnmatchedQuotesStay(v: string, q: char, r: char)
    requires q != r && !IsSpace(q) && !IsSpace(r)
    ensures Normal([q] + v + [r]) == [q] + v + [r]
  {
    var text := [q] + v + [r];
    assert text[0] == q && text[|text| - 1] == r;
  }

  /** The key and the value are what stands before and after the first equals sign. */
  predicate Splits(line: string, key: string, before: string, after: string) {
    line == before + "=" + after && '=' !in before && Trim(before) == key && key != "" && key[0] != '#'
  }

  /** What stands before and after the first equals sign of the trimmed text. */
  lemma PartsOfPadded(pre: string, t: string, post: string, before: string, after: string)
    requires Spaces(pre) && Spaces(post) && t == before + "=" + after && '=' !in before
    ensures pre + t + post == (pre + before) + "=" + (after + post) && '=' !in pre + before
    ensures Trim(pre + before) == Trim(before) && Trim(after + post) == Trim(after)
  {
    NoEqualsInSpaces(pre);
    TrimSpacesBefore(pre, before);
    TrimSpacesAfter(after, post);
    Regroup(pre, before, "=", after, post);
  }

  lemma Regroup(a: string, b: string, c: string, d: string, e: string)
    ensures a + (b + c + d) + e == (a + b) + c + (d + e)
  {
  }

  lemma SplitAtFirst(line: string, before: string, after: string)
    requires line == before + "=" + after && '=' !in before
    ensures '=' in line && IndexOf(line, '=') == |before| < |line|
    ensures line[..|before|] == before && line[|before| + 1..] == after
  {
    IndexOfConcat(before, "=" + after, '=');
    Cut(line, before, "=", after);
  }

  lemma Cut(line: string, before: string, sep: string, after: string)
    requires line == before + sep + after && |sep| == 1
    ensures line == before + (sep + after) && line[|before|] == sep[0]
    ensures line[..|before|] == before && line[|before| + 1..] == after
  {
  }

  lemma EqualsSurvivesTrim(line: string)
    ensures '=' in line <==> '=' in Trim(line)
  {
    var pre, post := TrimSplits(line);
    NoEqualsInSpaces(pre);
    NoEqualsInSpaces(post);
    IndexOfPadded(pre, Trim(line), post, '=');
  }

  /** The parser splits a line at its first equals sign, trimmed or not. */
  lemma FirstEquals(line: string) returns (before: string, after: string, tBefore: string, tAfter: string)
    requires '=' in line
    ensures line == before + "=" + after && '=' !in before
    ensures Trim(line) == tBefore + "=" + tAfter && '=' !in tBefore
    ensures Trim(before) == Trim(tBefore) && Trim(after) == Trim(tAfter)
  {
    EqualsSurvivesTrim(line);
    var pre, post := TrimSplits(line);
    var t := Trim(line);
    var i := IndexOf(t, '=');
    tBefore, tAfter := t[..i], t[i + 1..];
    assert t == tBefore + "=" + tAfter;
    PartsOfPadded(pre, t, post, tBefore, tAfter);
    before, after := pre + tBefore, tAfter + post;
  }

  /** There is only one first equals sign. */
  lemma SameSplit(line: string, a: string, b: string, a': string, b': string)
    requires line == a + "=" + b && '=' !in a && line == a' + "=" + b' && '=' !in a'
    ensures a == a' && b == b'
  {
    SplitAtFirst(line, a, b);
    SplitAtFirst(line, a', b');
  }

  /** The parser on a trimmed line that is split at its first equals sign. */
  lemma ParseSplit(t: string, before: string, after: string)
    requires t == before + "=" + after && '=' !in before && !IsSpace(t[0])
    ensures ParseTrimmed(t) ==
            if Trim(before) == "" || Trim(before)[0] == '#' then None else Some((Trim(before), Normal(after)))
  {
    SplitAtFirst(t, before, after);
    if before != "" {
      assert t[0] == before[0];
      TrimKeepsFirst(before);
    }
  }

  /** The parser on any line that is split at its first equals sign. */
  lemma ParseOfSplit(line: string, before: string, after: string)
    requires line == before + "=" + after && '=' !in before
    ensures ParseLine(line) ==
            if Trim(before) == "" || Trim(before)[0] == '#' then None else Some((Trim(before), Normal(after)))
  {
    SplitAtFirst(line, before, after);
    var b, a, tBefore, tAfter := FirstEquals(line);
    SameSplit(line, before, after, b, a);
    TrimIsTrimmed(line);
    ParseSplit(Trim(line), tBefore, tAfter);
  }

  lemma NoEqualsNoEntry(line: string)
    requires '=' !in line
    ensures ParseLine(line).None?
  {
    EqualsSurvivesTrim(line);
  }

  lemma SetsHasSplit(line: string) returns (before: string, after: string)
    requires ParseLine(line).Some?
    ensures Splits(line, ParseLine(line).value.0, before, after) && Normal(after) == ParseLine(line).value.1
  {
    if '=' !in line {
      NoEqualsNoEntry(line);
      assert false;
    }
    var tBefore, tAfter;
    before, after, tBefore, tAfter := FirstEquals(line);
    ParseOfSplit(line, before, after);
  }

  lemma SplitSets(line: string, key: string, before: string, after: string)
    requires Splits(line, key, before, after)
    ensures ParseLine(line) == Some((key, Normal(after)))
  {
    ParseOfSplit(line, before, after);
  }

  /**
   A line sets a key exactly when it has an equals sign and the text before the first
   one, trimmed, is that key: not empty and not the start of a comment.  The value is
   the text after it, trimmed and without matching quotes.
   */
  lemma LineSetsIff(line: string, key: string, value: string)
    ensures ParseLine(line) == Some((key, value)) <==>
            exists before, after :: Splits(line, key, before, after) && Normal(after) == value
  {
    if ParseLine(line) == Some((key, value)) {
      var before, after := SetsHasSplit(line);
    }
    if before, after :| Splits(line, key, before, after) && Normal(after) == value {
      SplitSets(line, key, before, after);
    }
  }

  /** A blank line, a comment, and a line without a key set nothing. */
  lemma LineSetsNothingIff(line: string)
    ensures ParseLine(line).None? <==>
            (forall before, after, key :: !Splits(line, key, before, after))
  {
    if ParseLine(line).Some? {
      var before, after := SetsHasSplit(line);
    }
    if before, after, key :| Splits(line, key, before, after) {
      SplitSets(line, key, before, after);
    }
  }

  predicate Sets(line: string, key: string) {
    ParseLine(line).Some? && ParseLine(line).value.0 == key
  }

  /** A key is read exactly when a line sets it. */
  lemma {:induction false} ReadIffSet(lines: seq<string>, key: string)
    ensures key in ParseLines(lines) <==> exists i :: 0 <= i < |lines| && Sets(lines[i], key)
  {
    if lines != [] {
      var init, last := lines[..|lines| - 1], |lines| - 1;
      ReadIffSet(init, key);
      assert forall i :: 0 <= i < last ==> init[i] == lines[i];
    }
  }

  /** Its value is that of the last line that sets it. */
  lemma {:induction false} LastLineWins(lines: seq<string>, i: nat, key: string)
    requires i < |lines| && Sets(lines[i], key) && forall j :: i < j < |lines| ==> !Sets(lines[j], key)
    ensures key in ParseLines(lines) && ParseLines(lines)[key] == ParseLine(lines[i]).value.1
  {
    var init, last := lines[..|lines| - 1], |lines| - 1;
    if i < last {
      assert forall j :: 0 <= j < last ==> init[j] == lines[j];
      LastLineWins(init, i, key);
      assert !Sets(lines[last], key);
    }
  }

  // ---- What saving leaves of the template ----

  lemma SavedLines(template: string, m: map<string, string>, order: seq<string>)
    requires forall k :: k in m ==> OneLine(k) && OneLine(m[k])
    ensures Lines(Render(template, m, order)) == StripAll(Output(template, m, order))
  {
    OutputOneLine(template, m, order);
    LinesOfUnlines(Output(template, m, order));
  }

  /** The i-th line of the saved text, line by line with the template. */
  lemma SavedLine(template: string, m: map<string, string>, order: seq<string>, i: nat)
    requires forall k :: k in m ==> OneLine(k) && OneLine(m[k])
    requires i < |Lines(template)|
    ensures
      var saved, line := Lines(Render(template, m, order)), Lines(template)[i];
      && |Lines(template)| <= |saved|
      && saved[i] ==
         StripCr(if ParseLine(line).Some? && ParseLine(line).value.0 in m
                 then ParseLine(line).value.0 + "=" + m[ParseLine(line).value.0] else line)
  {
    SavedLines(template, m, order);
    RenderKeyIsParseKey(Lines(template)[i]);
  }

  /** Lines without a key, comments among them, and lines whose key is not set are kept where they are. */
  lemma OtherLinesStay(template: string, m: map<string, string>, order: seq<string>, i: nat)
    requires forall k :: k in m ==> OneLine(k) && OneLine(m[k])
    requires i < |Lines(template)|
    requires ParseLine(Lines(template)[i]).None? || ParseLine(Lines(template)[i]).value.0 !in m
    ensures i < |Lines(Render(template, m, order))|
    ensures Lines(Render(template, m, order))[i] == StripCr(Lines(template)[i])
  {
    SavedLine(template, m, order, i);
  }

  /** The keys of `order` that the template does not set. */
  function NewKeys(order: seq<string>, known: set<string>): seq<string> {
    if order == [] then []
    else
      var k, before := order[|order| - 1], NewKeys(order[..|order| - 1], known);
      if k in known then before else before + [k]
  }

  lemma {:induction false} NewKeysAre(order: seq<string>, known: set<string>)
    ensures forall k :: k in NewKeys(order, known) <==> k in order && k !in known
    ensures Distinct(order) ==> Distinct(NewKeys(order, known))
  {
    if order != [] {
      var init, k := order[..|order| - 1], order[|order| - 1];
      NewKeysAre(init, known);
      assert order == init + [k];
      var rest := NewKeys(init, known);
      assert forall i :: 0 <= i < |rest| ==> rest[i] in init;
    }
  }

  /** The lines of new entries. */
  function EntriesOf(keys: seq<string>, m: map<string, string>): seq<string>
    requires forall i :: 0 <= i < |keys| ==> keys[i] in m
  {
    seq(|keys|, i requires 0 <= i < |keys| => keys[i] + "=" + m[keys[i]])
  }

  lemma {:induction false} NewKeysKnown(order: seq<string>, m: map<string, string>, known: set<string>)
    requires forall i :: 0 <= i < |order| ==> order[i] in m
    ensures forall i :: 0 <= i < |NewKeys(order, known)| ==> NewKeys(order, known)[i] in m
  {
    if order != [] {
      NewKeysKnown(order[..|order| - 1], m, known);
    }
  }

  lemma {:induction false} AppendedIs(order: seq<string>, m: map<string, string>, known: set<string>)
    requires forall i :: 0 <= i < |order| ==> order[i] in m
    ensures forall i :: 0 <= i < |NewKeys(order, known)| ==> NewKeys(order, known)[i] in m
    ensures Appended(order, m, known) == EntriesOf(NewKeys(order, known), m)
  {
    NewKeysKnown(order, m, known);
    if order != [] {
      var init, k := order[..|order| - 1], order[|order| - 1];
      AppendedIs(init, m, known);
      if k !in known {
        EntriesSnoc(NewKeys(init, known), k, m);
      }
    }
  }

  lemma EntriesSnoc(keys: seq<string>, k: string, m: map<string, string>)
    requires k in m && forall i :: 0 <= i < |keys| ==> keys[i] in m
    ensures forall i :: 0 <= i < |keys + [k]| ==> (keys + [k])[i] in m
    ensures EntriesOf(keys + [k], m) == EntriesOf(keys, m) + [Entry(k, m[k])]
  {
  }

  lemma StripConcat(a: seq<string>, b: seq<string>)
    ensures StripAll(a + b) == StripAll(a) + StripAll(b)
  {
  }

  /**
   Behind the template's lines comes one line for each key that it does not set, the
   key, an equals sign and the value, and nothing else.
   */
  lemma NewLinesFollow(template: string, m: map<string, string>, order: seq<string>) returns (keys: seq<string>)
    requires Iterates(order, m) && forall k :: k in m ==> OneLine(k) && OneLine(m[k])
    ensures Distinct(keys) && forall k :: k in keys <==> k in m && k !in Parse(template)
    ensures |Lines(template)| <= |Lines(Render(template, m, order))|
    ensures Lines(Render(template, m, order))[|Lines(template)|..] == StripAll(EntriesOf(keys, m))
  {
    keys := NewKeys(order, Seen(Lines(template)));
    NewKeysOf(Lines(template), m, order);
    SavedLines(template, m, order);
    OutputTail(Lines(template), m, order);
  }

  lemma NewKeysOf(lines: seq<string>, m: map<string, string>, order: seq<string>)
    requires Iterates(order, m)
    ensures
      var keys := NewKeys(order, Seen(lines));
      Distinct(keys) && forall k :: k in keys <==> k in m && k !in ParseLines(lines)
  {
    NewKeysAre(order, Seen(lines));
    SeenIsParsedKeys(lines);
  }

  lemma OutputTail(lines: seq<string>, m: map<string, string>, order: seq<string>)
    requires Iterates(order, m)
    ensures
      var keys := NewKeys(order, Seen(lines));
      var saved := StripAll(RenderLines(lines, m) + Appended(order, m, Seen(lines)));
      && (forall i :: 0 <= i < |keys| ==> keys[i] in m)
      && |lines| <= |saved| && saved[|lines|..] == StripAll(EntriesOf(keys, m))
  {
    forall i | 0 <= i < |order|
      ensures order[i] in m
    {
      assert order[i] in order;
    }
    AppendedIs(order, m, Seen(lines));
    StripConcat(RenderLines(lines, m), Appended(order, m, Seen(lines)));
  }
}
