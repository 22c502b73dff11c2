/**
 `build_template` (config/mod.rs): the text written when no template file is found.
 It lists a fixed set of keys with their values or defaults and nothing else.
 */
module BuiltInTemplate {
  import opened Base
  import opened Strings
  import opened EnvText
  import opened EnvRoundTrip

  /** The wording of a comment does not matter to the parser and is left out. */
  datatype Item = Comment | Blank | Setting(key: string, default: string)

  function ValueOf(item: Item, m: map<string, string>): string
    requires item.Setting?
  {
    if item.key in m then m[item.key] else item.default
  }

  function ItemLine(item: Item, m: map<string, string>): string {
    match item
    case Comment => "#"
    case Blank => ""
    case Setting(key, _) => Entry(key, ValueOf(item, m))
  }

  function ItemLines(items: seq<Item>, m: map<string, string>): seq<string> {
    seq(|items|, i requires 0 <= i < |items| => ItemLine(items[i], m))
  }

  /** The lines joined by newlines; the last one is empty. */
  function TextOf(items: seq<Item>, m: map<string, string>): string {
    Join(ItemLines(items, m) + [""], "\n")
  }

  function PushKey(key: string, default: string): seq<Item> {
    [Comment, Setting(key, default), Blank]
  }

  function Section(settings: seq<Item>): seq<Item> {
    [Comment] + settings + [Blank]
  }

  const PORTS := PushKey("DAEMON_IPC_PORT", "15889") + PushKey("EASYTIER_RPC_PORT", "15888")
  const NETWORK := PushKey("FILE_SERVER_PORT_BASE", "19000") + PushKey("DEFAULT_SPACE_IP", "10.144.144.10")
  const RELEASES := "https://api.github.com/repos/" + "EasyTier/EasyTier/releases"
  const DOWNLOADS :=
    PushKey("GITHUB_API", RELEASES) + PushKey("GITHUB_MIRROR", "https://ghproxy.top")
  const BUSINESS :=
    PushKey("RELAY_NETWORK_PREFIX", "homeTier_") + PushKey("SHARE_LINK_SECRET", "homeTier-qr-v1")
    + PushKey("LOG_ENABLED", "1")
  const HEADING := [Comment, Comment, Comment, Blank]

  /** All but the empty line at the end. */
  const BUILT_IN := HEADING + Section(PORTS) + Section(NETWORK) + Section(DOWNLOADS) + [Comment] + BUSINESS

  function BuildTemplate(m: map<string, string>): string {
    TextOf(BUILT_IN, m)
  }

  function KeysOf(items: seq<Item>): set<string> {
    set i | 0 <= i < |items| && items[i].Setting? :: items[i].key
  }

  predicate Proper(items: seq<Item>) {
    forall i :: 0 <= i < |items| && items[i].Setting? ==> CleanKey(items[i].key) && OneLine(items[i].default)
  }

  // ---- What the text means ----

  /** The settings as a map, a later one of the same key winning. */
  function Meaning(items: seq<Item>, m: map<string, string>): map<string, string> {
    if items == [] then map[]
    else
      var rest, last := Meaning(items[..|items| - 1], m), items[|items| - 1];
      if last.Setting? then rest[last.key := Normal(ValueOf(last, m))] else rest
  }

  lemma {:induction false} JoinIsUnlines(lines: seq<string>)
    ensures Join(lines + [""], "\n") == Unlines(lines)
  {
    if lines == [] {
      assert lines + [""] == [""];
    } else {
      JoinIsUnlines(lines[1..]);
      assert (lines + [""])[1..] == lines[1..] + [""];
    }
  }

  lemma ParseItem(item: Item, m: map<string, string>)
    requires item.Setting? ==> CleanKey(item.key)
    ensures ParseLine(ItemLine(item, m)) ==
            if item.Setting? then Some((item.key, Normal(ValueOf(item, m)))) else None
  {
    match item
    case Setting(key, _) => ParseEntry(key, ValueOf(item, m));
    case Comment => assert !IsSpace('#');
    case Blank =>
  }

  lemma {:induction false} ParseItems(items: seq<Item>, m: map<string, string>)
    requires Proper(items)
    ensures ParseLines(ItemLines(items, m)) == Meaning(items, m)
  {
    if items != [] {
      var init, last := items[..|items| - 1], items[|items| - 1];
      ParseItems(init, m);
      ParseItem(last, m);
      ItemLinesSnoc(items, m);
      ParseSnoc(ItemLines(init, m), ItemLine(last, m));
    }
  }

  lemma ItemLinesSnoc(items: seq<Item>, m: map<string, string>)
    requires items != []
    ensures ItemLines(items, m) == ItemLines(items[..|items| - 1], m) + [ItemLine(items[|items| - 1], m)]
  {
  }

  lemma ItemsOneLine(items: seq<Item>, m: map<string, string>)
    requires Proper(items) && forall k :: k in m ==> OneLine(m[k])
    ensures AllOneLine(ItemLines(items, m))
  {
  }

  /** Values on one line: the text is read as the listed settings, given or default, normalised. */
  lemma ParseText(items: seq<Item>, m: map<string, string>)
    requires Proper(items) && forall k :: k in m ==> OneLine(m[k])
    ensures Parse(TextOf(items, m)) == Meaning(items, m)
  {
    var lines := ItemLines(items, m);
    JoinIsUnlines(lines);
    ItemsOneLine(items, m);
    LinesOfUnlines(lines);
    ParseStripAll(lines);
    ParseItems(items, m);
  }

  /** Without the map: every setting has its default. */
  function Defaults(items: seq<Item>): map<string, string> {
    Meaning(items, map[])
  }

  /** The listed keys have the values given, or else their defaults. */
  lemma {:induction false} MeaningIs(items: seq<Item>, m: map<string, string>)
    ensures Meaning(items, m).Keys == Defaults(items).Keys == KeysOf(items)
    ensures forall k :: k in Meaning(items, m) ==>
              Meaning(items, m)[k] == if k in m then Normal(m[k]) else Defaults(items)[k]
  {
    if items != [] {
      MeaningIs(items[..|items| - 1], m);
      KeysOfInit(items);
    }
  }

  lemma {:induction false} DefaultsConcat(a: seq<Item>, b: seq<Item>)
    ensures Defaults(a + b) == Defaults(a) + Defaults(b)
  {
    if b == [] {
      assert a + b == a;
    } else {
      var init, last := b[..|b| - 1], b[|b| - 1];
      DefaultsConcat(a, init);
      assert (a + b)[..|a + b| - 1] == a + init && (a + b)[|a + b| - 1] == last;
    }
  }

  lemma KeysOfInit(items: seq<Item>)
    requires items != []
    ensures
      var init, last := items[..|items| - 1], items[|items| - 1];
      KeysOf(items) == KeysOf(init) + if last.Setting? then {last.key} else {}
  {
    var init, last := items[..|items| - 1], |items| - 1;
    forall k | k in KeysOf(items)
      ensures k in KeysOf(init) || (items[last].Setting? && k == items[last].key)
    {
      var i :| 0 <= i < |items| && items[i].Setting? && items[i].key == k;
      assert i < last ==> init[i] == items[i];
    }
    forall k | k in KeysOf(init)
      ensures k in KeysOf(items)
    {
      var i :| 0 <= i < |init| && init[i].Setting? && init[i].key == k;
      assert items[i] == init[i];
    }
    if items[last].Setting? {
      assert items[last].key in KeysOf(items);
    }
  }

  lemma CleanMeaning(items: seq<Item>, m: map<string, string>)
    ensures Meaning(items, m) == m <==>
            m.Keys == KeysOf(items) && forall k :: k in m ==> Trimmed(m[k]) && !Quoted(m[k])
  {
    MeaningIs(items, m);
    NormalKeepsAll(m);
  }

  /** Reading the text back gives the map exactly when it has the listed keys, no more and no fewer, and is clean. */
  lemma TextKeepsIff(items: seq<Item>, m: map<string, string>)
    requires Proper(items)
    ensures Parse(TextOf(items, m)) == m <==> m.Keys == KeysOf(items) && Clean(m)
  {
    var text := TextOf(items, m);
    if Parse(text) == m {
      LinesAreOneLine(text);
      forall k | k in m
        ensures CleanKey(k) && OneLine(m[k])
      {
        ParsedIsClean(Lines(text), k);
      }
    }
    if forall k :: k in m ==> OneLine(m[k]) {
      ParseText(items, m);
      CleanMeaning(items, m);
    }
  }

  lemma NormalKeepsAll(m: map<string, string>)
    ensures (forall k :: k in m ==> Normal(m[k]) == m[k]) <==>
            forall k :: k in m ==> Trimmed(m[k]) && !Quoted(m[k])
  {
    forall k | k in m
      ensures Normal(m[k]) == m[k] <==> Trimmed(m[k]) && !Quoted(m[k])
    {
      NormalKeepsIff(m[k]);
    }
  }

  // ---- The built-in list ----

  /** Capital letters and underscores. */
  predicate Capitals(s: string) {
    s != "" && forall i :: 0 <= i < |s| ==> 'A' <= s[i] <= 'Z' || s[i] == '_'
  }

  lemma CapitalsAreClean(s: string)
    requires Capitals(s)
    ensures CleanKey(s)
  {
  }

  lemma ProperKey(key: string, default: string)
    requires Capitals(key) && OneLine(default)
    ensures Proper(PushKey(key, default))
  {
    CapitalsAreClean(key);
  }

  lemma ProperConcat(a: seq<Item>, b: seq<Item>)
    requires Proper(a) && Proper(b)
    ensures Proper(a + b)
  {
  }

  lemma ProperSection(settings: seq<Item>)
    requires Proper(settings)
    ensures Proper(Section(settings))
  {
    ProperConcat([Comment], settings);
    ProperConcat([Comment] + settings, [Blank]);
  }

  lemma ProperPorts()
    ensures Proper(PORTS)
  {
    ProperKey("DAEMON_IPC_PORT", "15889");
    ProperKey("EASYTIER_RPC_PORT", "15888");
    ProperConcat(PushKey("DAEMON_IPC_PORT", "15889"), PushKey("EASYTIER_RPC_PORT", "15888"));
  }

  lemma ProperNetwork()
    ensures Proper(NETWORK)
  {
    ProperKey("FILE_SERVER_PORT_BASE", "19000");
    ProperKey("DEFAULT_SPACE_IP", "10.144.144.10");
    ProperConcat(PushKey("FILE_SERVER_PORT_BASE", "19000"), PushKey("DEFAULT_SPACE_IP", "10.144.144.10"));
  }

  lemma OneLineConcat(a: string, b: string)
    requires OneLine(a) && OneLine(b)
    ensures OneLine(a + b)
  {
  }

  lemma ProperDownloads()
    ensures Proper(DOWNLOADS)
  {
    OneLineConcat("https://api.github.com/repos/", "EasyTier/EasyTier/releases");
    ProperKey("GITHUB_API", RELEASES);
    ProperKey("GITHUB_MIRROR", "https://ghproxy.top");
    ProperConcat(PushKey("GITHUB_API", RELEASES), PushKey("GITHUB_MIRROR", "https://ghproxy.top"));
  }

  lemma ProperBusiness()
    ensures Proper(BUSINESS)
  {
    ProperKey("RELAY_NETWORK_PREFIX", "homeTier_");
    ProperKey("SHARE_LINK_SECRET", "homeTier-qr-v1");
    ProperKey("LOG_ENABLED", "1");
    ProperConcat(PushKey("RELAY_NETWORK_PREFIX", "homeTier_"), PushKey("SHARE_LINK_SECRET", "homeTier-qr-v1"));
    ProperConcat(PushKey("RELAY_NETWORK_PREFIX", "homeTier_") + PushKey("SHARE_LINK_SECRET", "homeTier-qr-v1"),
      PushKey("LOG_ENABLED", "1"));
  }

  lemma BuiltInIsProper()
    ensures Proper(BUILT_IN)
  {
    ProperPorts();
    ProperNetwork();
    ProperDownloads();
    ProperBusiness();
    ProperSection(PORTS);
    ProperSection(NETWORK);
    ProperSection(DOWNLOADS);
    ProperConcat(HEADING, Section(PORTS));
    ProperConcat(HEADING + Section(PORTS), Section(NETWORK));
    ProperConcat(HEADING + Section(PORTS) + Section(NETWORK), Section(DOWNLOADS));
    ProperConcat(HEADING + Section(PORTS) + Section(NETWORK) + Section(DOWNLOADS), [Comment]);
    ProperConcat(HEADING + Section(PORTS) + Section(NETWORK) + Section(DOWNLOADS) + [Comment], BUSINESS);
  }

  /** A default that no quote or white space encloses is read as it is written. */
  predicate Bare(s: string) {
    s != "" && !IsSpace(s[0]) && !IsSpace(s[|s| - 1]) && s[0] != '"' && s[0] != '\''
  }

  lemma DefaultOfKey(key: string, default: string)
    requires Bare(default)
    ensures Defaults(PushKey(key, default)) == map[key := default]
  {
    NormalKeepsIff(default);
    var items := PushKey(key, default);
    assert items[..2] == [Comment, Setting(key, default)] && items[..2][..1] == [Comment] && [Comment][..0] == [];
    assert Defaults([Comment]) == map[];
    assert Defaults(items[..2]) == map[key := default];
  }

  lemma DefaultsOfTwo(key0: string, default0: string, key1: string, default1: string)
    requires Bare(default0) && Bare(default1)
    ensures Defaults(PushKey(key0, default0) + PushKey(key1, default1)) == map[key0 := default0] + map[key1 := default1]
  {
    DefaultOfKey(key0, default0);
    DefaultOfKey(key1, default1);
    DefaultsConcat(PushKey(key0, default0), PushKey(key1, default1));
  }

  lemma DefaultsOfNone(items: seq<Item>)
    requires forall i :: 0 <= i < |items| ==> !items[i].Setting?
    ensures Defaults(items) == map[]
  {
    if items != [] {
      DefaultsOfNone(items[..|items| - 1]);
    }
  }

  lemma DefaultsOfSection(settings: seq<Item>)
    ensures Defaults(Section(settings)) == Defaults(settings)
  {
    DefaultsOfNone([Comment]);
    DefaultsOfNone([Blank]);
    DefaultsConcat([Comment], settings);
    DefaultsConcat([Comment] + settings, [Blank]);
  }

  const PORT_DEFAULTS := map["DAEMON_IPC_PORT" := "15889"] + map["EASYTIER_RPC_PORT" := "15888"]
  const NETWORK_DEFAULTS := map["FILE_SERVER_PORT_BASE" := "19000"] + map["DEFAULT_SPACE_IP" := "10.144.144.10"]
  const DOWNLOAD_DEFAULTS := map["GITHUB_API" := RELEASES] + map["GITHUB_MIRROR" := "https://ghproxy.top"]
  const BUSINESS_DEFAULTS :=
    map["RELAY_NETWORK_PREFIX" := "homeTier_"] + map["SHARE_LINK_SECRET" := "homeTier-qr-v1"]
    + map["LOG_ENABLED" := "1"]

  /** What is read back when nothing is given. */
  const DEFAULTS := PORT_DEFAULTS + NETWORK_DEFAULTS + DOWNLOAD_DEFAULTS + BUSINESS_DEFAULTS

  lemma PortDefaults()
    ensures Defaults(PORTS) == PORT_DEFAULTS
  {
    DefaultsOfTwo("DAEMON_IPC_PORT", "15889", "EASYTIER_RPC_PORT", "15888");
  }

  lemma NetworkDefaults()
    ensures Defaults(NETWORK) == NETWORK_DEFAULTS
  {
    DefaultsOfTwo("FILE_SERVER_PORT_BASE", "19000", "DEFAULT_SPACE_IP", "10.144.144.10");
  }

  lemma DownloadDefaults()
    ensures Defaults(DOWNLOADS) == DOWNLOAD_DEFAULTS
  {
    assert RELEASES[0] == 'h' && RELEASES[|RELEASES| - 1] == 's';
    DefaultsOfTwo("GITHUB_API", RELEASES, "GITHUB_MIRROR", "https://ghproxy.top");
  }

  lemma BusinessDefaults()
    ensures Defaults(BUSINESS) == BUSINESS_DEFAULTS
  {
    DefaultsOfTwo("RELAY_NETWORK_PREFIX", "homeTier_", "SHARE_LINK_SECRET", "homeTier-qr-v1");
    DefaultOfKey("LOG_ENABLED", "1");
    DefaultsConcat(PushKey("RELAY_NETWORK_PREFIX", "homeTier_") + PushKey("SHARE_LINK_SECRET", "homeTier-qr-v1"),
      PushKey("LOG_ENABLED", "1"));
  }

  lemma DefaultsWithSection(items: seq<Item>, section: seq<Item>)
    ensures Defaults(items + Section(section)) == Defaults(items) + Defaults(section)
  {
    DefaultsOfSection(section);
    DefaultsConcat(items, Section(section));
  }

  lemma DefaultsWithComment(items: seq<Item>, last: seq<Item>)
    ensures Defaults(items + [Comment] + last) == Defaults(items) + Defaults(last)
  {
    DefaultsOfNone([Comment]);
    DefaultsConcat(items, [Comment]);
    DefaultsConcat(items + [Comment], last);
  }

  lemma DefaultsOfSections(heading: seq<Item>, a: seq<Item>, b: seq<Item>, c: seq<Item>)
    requires Defaults(heading) == map[]
    ensures Defaults(heading + Section(a) + Section(b) + Section(c)) == Defaults(a) + Defaults(b) + Defaults(c)
  {
    DefaultsWithSection(heading, a);
    DefaultsWithSection(heading + Section(a), b);
    DefaultsWithSection(heading + Section(a) + Section(b), c);
  }

  /** A heading, three sections and a last group under a comment. */
  lemma DefaultsOfLayout(heading: seq<Item>, a: seq<Item>, b: seq<Item>, c: seq<Item>, last: seq<Item>)
    requires Defaults(heading) == map[]
    ensures Defaults(heading + Section(a) + Section(b) + Section(c) + [Comment] + last) ==
            Defaults(a) + Defaults(b) + Defaults(c) + Defaults(last)
  {
    DefaultsOfSections(heading, a, b, c);
    DefaultsWithComment(heading + Section(a) + Section(b) + Section(c), last);
  }

  lemma BuiltInDefaults()
    ensures Defaults(BUILT_IN) == DEFAULTS
  {
    PortDefaults();
    NetworkDefaults();
    DownloadDefaults();
    BusinessDefaults();
    DefaultsOfNone(HEADING);
    DefaultsOfLayout(HEADING, PORTS, NETWORK, DOWNLOADS, BUSINESS);
  }

  /** The given values where there are any, defaults elsewhere, for the keys of `defaults`. */
  function Filled(defaults: map<string, string>, m: map<string, string>): map<string, string> {
    map k | k in defaults :: if k in m then Normal(m[k]) else defaults[k]
  }

  lemma TextMeans(items: seq<Item>, m: map<string, string>, defaults: map<string, string>)
    requires Proper(items) && Defaults(items) == defaults && forall k :: k in m ==> OneLine(m[k])
    ensures Parse(TextOf(items, m)) == Filled(defaults, m)
  {
    ParseText(items, m);
    MeaningIs(items, m);
  }

  /**
   With one-line values, exactly the nine listed keys are read back: those given with
   their normalised values, the others with their defaults.
   */
  lemma BuildTemplateMeans(m: map<string, string>)
    requires forall k :: k in m ==> OneLine(m[k])
    ensures Parse(BuildTemplate(m)) == Filled(DEFAULTS, m)
  {
    BuiltInIsProper();
    BuiltInDefaults();
    TextMeans(BUILT_IN, m, DEFAULTS);
  }

  lemma FilledWithout(defaults: map<string, string>, key: string, value: string)
    requires key !in defaults
    ensures Filled(defaults, map[key := value]) == defaults
  {
  }

  /** A configuration of one key that is not listed is lost, and all the defaults appear in its place. */
  lemma UnlistedKeyIsLost(key: string, value: string)
    requires key !in DEFAULTS && OneLine(value)
    ensures Parse(BuildTemplate(map[key := value])) == DEFAULTS
  {
    BuildTemplateMeans(map[key := value]);
    FilledWithout(DEFAULTS, key, value);
  }

  lemma KeysAreListed()
    ensures KeysOf(BUILT_IN) == DEFAULTS.Keys
  {
    BuiltInDefaults();
    MeaningIs(BUILT_IN, map[]);
  }

  /** The fallback keeps a configuration exactly when it is clean and has all listed keys and no other. */
  lemma BuildTemplateKeepsIff(m: map<string, string>)
    ensures Parse(BuildTemplate(m)) == m <==> m.Keys == DEFAULTS.Keys && Clean(m)
  {
    BuiltInIsProper();
    KeysAreListed();
    TextKeepsIff(BUILT_IN, m);
  }
}
