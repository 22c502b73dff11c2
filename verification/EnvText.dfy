/**
 The .env text of src-tauri/src/config/mod.rs: `parse_env`, `render_from_template`
 and what saving and loading again does to a configuration.
 */
module EnvText {
  import opened Base
  import opened Strings

  // ---- Lines ----

  /** `str::lines` drops one carriage return in front of the newline. */
  function StripCr(line: string): string {
    if line != "" && line[|line| - 1] == '\r' then line[..|line| - 1] else line
  }

  function Lines(text: string): seq<string>
    decreases |text|
  {
    if text == "" then []
    else
      var i := IndexOf(text, '\n');
      if i == |text| then [text] else [StripCr(text[..i])] + Lines(text[i + 1..])
  }

  function Unlines(lines: seq<string>): string {
    if lines == [] then "" else lines[0] + "\n" + Unlines(lines[1..])
  }

  predicate OneLine(s: string) {
    '\n' !in s
  }

  predicate AllOneLine(lines: seq<string>) {
    forall i :: 0 <= i < |lines| ==> OneLine(lines[i])
  }

  function StripAll(lines: seq<string>): seq<string> {
    seq(|lines|, i requires 0 <= i < |lines| => StripCr(lines[i]))
  }

  lemma {:induction false} LinesAreOneLine(text: string)
    ensures AllOneLine(Lines(text))
    decreases |text|
  {
    if text != "" {
      var i := IndexOf(text, '\n');
      if i < |text| {
        LinesAreOneLine(text[i + 1..]);
        HeadOneLine(text[..i], Lines(text[i + 1..]));
      }
    }
  }

  lemma HeadOneLine(line: string, rest: seq<string>)
    requires OneLine(line) && AllOneLine(rest)
    ensures AllOneLine([StripCr(line)] + rest)
  {
  }

  lemma LinesHead(line: string, rest: string)
    requires OneLine(line)
    ensures Lines(line + "\n" + rest) == [StripCr(line)] + Lines(rest)
  {
    var text := line + "\n" + rest;
    IndexOfConcat(line, "\n" + rest, '\n');
    assert text == line + ("\n" + rest);
    assert text[..|line|] == line && text[|line| + 1..] == rest;
  }

  lemma StripAllHead(lines: seq<string>)
    requires lines != []
    ensures StripAll(lines) == [StripCr(lines[0])] + StripAll(lines[1..])
  {
  }

  lemma {:induction false} LinesOfUnlines(lines: seq<string>)
    requires AllOneLine(lines)
    ensures Lines(Unlines(lines)) == StripAll(lines)
  {
    if lines != [] {
      LinesOfUnlines(lines[1..]);
      LinesHead(lines[0], Unlines(lines[1..]));
      StripAllHead(lines);
    }
  }

  // ---- parse_env ----

  predicate Quoted(v: string) {
    |v| >= 2 && v[0] == v[|v| - 1] && (v[0] == '"' || v[0] == '\'')
  }

  function Unquote(v: string): string {
    if Quoted(v) then v[1..|v| - 1] else v
  }

  /** What the parser makes of the text after `=`. */
  function Normal(v: string): string {
    Unquote(Trim(v))
  }

  /** A line that is neither blank nor a comment. */
  predicate Active(line: string) {
    Trim(line) != "" && Trim(line)[0] != '#'
  }

  function ParseTrimmed(t: string): Option<(string, string)> {
    var eq := IndexOf(t, '=');
    if t == "" || t[0] == '#' || eq == |t| || Trim(t[..eq]) == "" then None
    else Some((Trim(t[..eq]), Normal(t[eq + 1..])))
  }

  function ParseLine(line: string): Option<(string, string)> {
    ParseTrimmed(Trim(line))
  }

  function Put(m: map<string, string>, entry: Option<(string, string)>): map<string, string> {
    if entry.Some? then m[entry.value.0 := entry.value.1] else m
  }

  /** Later lines win. */
  function ParseLines(lines: seq<string>): map<string, string> {
    if lines == [] then map[]
    else Put(ParseLines(lines[..|lines| - 1]), ParseLine(lines[|lines| - 1]))
  }

  function Parse(text: string): map<string, string> {
    ParseLines(Lines(text))
  }

  /** The body of the parser's loop: the entry of a line, if it has one. */
  method ParseOne(raw: string) returns (entry: Option<(string, string)>)
    ensures entry == ParseLine(raw)
  {
    var line := Trim(raw);
    if line == "" || line[0] == '#' {
      return None;
    }
    var eq := IndexOf(line, '=');
    if eq == |line| {
      return None;
    }
    var key := Trim(line[..eq]);
    if key == "" {
      return None;
    }
    var value := Trim(line[eq + 1..]);
    if |value| >= 2 {
      var first, last := value[0], value[|value| - 1];
      if (first == '"' && last == '"') || (first == '\'' && last == '\'') {
        value := value[1..|value| - 1];
      }
    }
    entry := Some((key, value));
  }

  method ParseEnv(content: string) returns (m: map<string, string>)
    ensures m == Parse(content)
  {
    m := map[];
    var lines := Lines(content);
    for i := 0 to |lines|
      invariant m == ParseLines(lines[..i])
    {
      assert lines[..i + 1][..i] == lines[..i];
      var entry := ParseOne(lines[i]);
      if entry.Some? {
        m := m[entry.value.0 := entry.value.1];
      }
    }
    assert lines[..|lines|] == lines;
  }

  // ---- render_from_template ----

  /** The key under which the renderer looks a template line up; it searches the untrimmed line. */
  function RenderKey(line: string): Option<string> {
    var eq := IndexOf(line, '=');
    if !Active(line) || eq == |line| || Trim(line[..eq]) == "" then None else Some(Trim(line[..eq]))
  }

  function Entry(key: string, value: string): string {
    key + "=" + value
  }

  function RenderLine(line: string, m: map<string, string>): string {
    var key := RenderKey(line);
    if key.Some? && key.value in m then Entry(key.value, m[key.value]) else line
  }

  function RenderLines(lines: seq<string>, m: map<string, string>): seq<string> {
    seq(|lines|, i requires 0 <= i < |lines| => RenderLine(lines[i], m))
  }

  function Seen(lines: seq<string>): set<string> {
    if lines == [] then {}
    else
      var key := RenderKey(lines[|lines| - 1]);
      Seen(lines[..|lines| - 1]) + if key.Some? then {key.value} else {}
  }

  /** Entries for the keys the template does not mention, in the order the map yields them. */
  function Appended(order: seq<string>, m: map<string, string>, seen: set<string>): seq<string> {
    if order == [] then []
    else
      var k, before := order[|order| - 1], Appended(order[..|order| - 1], m, seen);
      if k in m && k !in seen then before + [Entry(k, m[k])] else before
  }

  function Output(template: string, m: map<string, string>, order: seq<string>): seq<string> {
    RenderLines(Lines(template), m) + Appended(order, m, Seen(Lines(template)))
  }

  function Render(template: string, m: map<string, string>, order: seq<string>): string {
    Unlines(Output(template, m, order))
  }

  predicate Distinct(keys: seq<string>) {
    forall i, j :: 0 <= i < j < |keys| ==> keys[i] != keys[j]
  }

  /** `order` is an iteration order of the map: every key once. */
  ghost predicate Iterates(order: seq<string>, m: map<string, string>) {
    (forall k :: k in order <==> k in m) && Distinct(order)
  }

  lemma {:induction false} UnlinesSnoc(lines: seq<string>, line: string)
    ensures Unlines(lines + [line]) == Unlines(lines) + line + "\n"
  {
    if lines == [] {
      assert lines + [line] == [line];
      assert [line][1..] == [];
      assert "" + line + "\n" == line + "\n" + "";
    } else {
      UnlinesSnoc(lines[1..], line);
      assert (lines + [line])[1..] == lines[1..] + [line];
    }
  }

  /** The body of the first loop: the key of a line and the text written for it. */
  method RenderOne(line: string, m: map<string, string>) returns (text: string, key: Option<string>)
    ensures text == RenderLine(line, m) && key == RenderKey(line)
  {
    text, key := line, None;
    var trimmed := Trim(line);
    if trimmed != "" && trimmed[0] != '#' {
      var eq := IndexOf(line, '=');
      if eq < |line| {
        var k := Trim(line[..eq]);
        if k != "" {
          key := Some(k);
          if k in m {
            text := k + "=" + m[k];
          }
        }
      }
    }
  }

  /** One more template line: one more line of output, and its key is seen. */
  lemma RenderedSnoc(lines: seq<string>, line: string, m: map<string, string>)
    ensures Unlines(RenderLines(lines + [line], m)) == Unlines(RenderLines(lines, m)) + RenderLine(line, m) + "\n"
    ensures Seen(lines + [line]) == Seen(lines) + match RenderKey(line) case Some(k) => {k} case None => {}
  {
    UnlinesSnoc(RenderLines(lines, m), RenderLine(line, m));
    assert RenderLines(lines + [line], m) == RenderLines(lines, m) + [RenderLine(line, m)];
    assert (lines + [line])[..|lines|] == lines;
  }

  /** One turn of the first loop, `rendered` being the lines that are done. */
  method RenderNext(out: string, seen: set<string>, ghost rendered: seq<string>, line: string, m: map<string, string>)
    returns (out': string, seen': set<string>)
    requires out == Unlines(RenderLines(rendered, m)) && seen == Seen(rendered)
    ensures out' == Unlines(RenderLines(rendered + [line], m)) && seen' == Seen(rendered + [line])
  {
    var text, key := RenderOne(line, m);
    RenderedSnoc(rendered, line, m);
    out' := out + text + "\n";
    seen' := if key.Some? then seen + {key.value} else seen;
  }

  /** The first loop: template lines, with the values of known keys replaced. */
  method RenderKnown(lines: seq<string>, m: map<string, string>) returns (out: string, seen: set<string>)
    ensures out == Unlines(RenderLines(lines, m)) && seen == Seen(lines)
  {
    seen := {};
    out := "";
    for i := 0 to |lines|
      invariant seen == Seen(lines[..i])
      invariant out == Unlines(RenderLines(lines[..i], m))
    {
      out, seen := RenderNext(out, seen, lines[..i], lines[i], m);
      NextPrefix(lines, i);
    }
    assert lines[..|lines|] == lines;
  }

  lemma NextPrefix(lines: seq<string>, i: nat)
    requires i < |lines|
    ensures lines[..i + 1] == lines[..i] + [lines[i]]
  {
  }

  /** The second loop: the keys the template does not mention. */
  method AppendNew(known: string, ghost base: seq<string>, m: map<string, string>, seen: set<string>)
    returns (out: string, order: seq<string>)
    requires known == Unlines(base)
    ensures Iterates(order, m) && out == Unlines(base + Appended(order, m, seen))
  {
    out := known;
    order := [];
    var todo := m.Keys;
    assert base + [] == base;
    while todo != {}
      invariant todo <= m.Keys && Visited(order, m, todo)
      invariant out == Unlines(base + Appended(order, m, seen))
      decreases |todo|
    {
      var k :| k in todo;
      out := AppendOne(out, base, order, k, m, seen);
      VisitedNext(order, m, todo, k);
      order := order + [k];
      todo := todo - {k};
    }
  }

  /** One turn of the second loop, `order` being the keys that are done. */
  method AppendOne(
    out: string, ghost base: seq<string>, ghost order: seq<string>, k: string, m: map<string, string>, seen: set<string>)
    returns (out': string)
    requires k in m && out == Unlines(base + Appended(order, m, seen))
    ensures out' == Unlines(base + Appended(order + [k], m, seen))
  {
    AppendedSnoc(base, order, k, m, seen);
    out' := if k in seen then out else out + (k + "=" + m[k] + "\n");
    assert out + "" == out;
  }

  /** The keys of `order` are those of the map that are not to be done, each once. */
  ghost predicate Visited(order: seq<string>, m: map<string, string>, todo: set<string>) {
    (forall k :: k in order <==> k in m && k !in todo) && Distinct(order)
  }

  lemma VisitedNext(order: seq<string>, m: map<string, string>, todo: set<string>, k: string)
    requires Visited(order, m, todo) && k in todo && k in m
    ensures Visited(order + [k], m, todo - {k})
  {
    DistinctSnoc(order, k);
  }

  lemma DistinctSnoc(keys: seq<string>, k: string)
    requires Distinct(keys) && k !in keys
    ensures Distinct(keys + [k])
  {
  }

  /** One more key: one more line of output, unless the template mentions it. */
  lemma AppendedSnoc(base: seq<string>, order: seq<string>, k: string, m: map<string, string>, seen: set<string>)
    requires k in m
    ensures Unlines(base + Appended(order + [k], m, seen)) ==
            Unlines(base + Appended(order, m, seen)) + if k in seen then "" else k + "=" + m[k] + "\n"
  {
    var before := Appended(order, m, seen);
    assert (order + [k])[..|order|] == order;
    if k in seen {
      assert Unlines(base + before) + "" == Unlines(base + before);
    } else {
      UnlinesSnoc(base + before, Entry(k, m[k]));
      assert base + (before + [Entry(k, m[k])]) == base + before + [Entry(k, m[k])];
      EntryLine(Unlines(base + before), Entry(k, m[k]));
    }
  }

  lemma EntryLine(text: string, entry: string)
    ensures text + entry + "\n" == text + (entry + "\n")
  {
  }

  method RenderFromTemplate(template: string, m: map<string, string>) returns (out: string, order: seq<string>)
    ensures Iterates(order, m) && out == Render(template, m, order)
  {
    var lines := Lines(template);
    var known, seen := RenderKnown(lines, m);
    out, order := AppendNew(known, RenderLines(lines, m), m, seen);
  }
}
