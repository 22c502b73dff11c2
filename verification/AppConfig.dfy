/** `AppConfig`: runtime values over template defaults, kept in one file (config/mod.rs). */
module AppConfig {
  import opened Base
  import opened EnvText
  import opened EnvRoundTrip
  import opened BuiltInTemplate

  /** `get`: a runtime value wins over the template's. */
  function Lookup(inner: map<string, string>, defaults: map<string, string>, key: string): Option<string> {
    if key in inner then Some(inner[key])
    else if key in defaults then Some(defaults[key])
    else None
  }

  /** Template defaults come from the template; without one there are none. */
  function TemplateMap(template: Option<string>): map<string, string> {
    if template.Some? then Parse(template.value) else map[]
  }

  /** What `save` writes; `order` is the iteration order of the map. */
  function SavedText(template: Option<string>, inner: map<string, string>, order: seq<string>): string {
    if template.Some? then Render(template.value, inner, order) else BuildTemplate(inner)
  }

  /** Clean, and without a template exactly the keys of the built-in list. */
  predicate Survives(template: Option<string>, inner: map<string, string>) {
    Clean(inner) && (template.None? ==> inner.Keys == DEFAULTS.Keys)
  }

  /** The saved text means what `all` returns exactly for a configuration that survives. */
  lemma SavedTextMeansAllIff(template: Option<string>, inner: map<string, string>, order: seq<string>)
    requires template.Some? ==> Iterates(order, inner)
    ensures Parse(SavedText(template, inner, order)) == TemplateMap(template) + inner <==> Survives(template, inner)
  {
    if template.Some? {
      SaveReloadExactIff(template.value, inner, order);
    } else {
      WithoutTemplateMeans(inner, order);
    }
  }

  lemma WithoutTemplateMeans(inner: map<string, string>, order: seq<string>)
    ensures Parse(SavedText(None, inner, order)) == TemplateMap(None) + inner <==> Survives(None, inner)
  {
    BuildTemplateKeepsIff(inner);
    NoDefaults(inner);
  }

  lemma NoDefaults(inner: map<string, string>)
    ensures TemplateMap(None) + inner == inner
  {
  }

  /** A value that some `get` returns after the reload has a clean key and is on one line. */
  lemma GotIsClean(template: Option<string>, text: string, key: string)
    requires Lookup(Parse(text), TemplateMap(template), key).Some?
    ensures CleanKey(key) && OneLine(Lookup(Parse(text), TemplateMap(template), key).value)
  {
    LinesAreOneLine(text);
    if key in Parse(text) {
      ParsedIsClean(Lines(text), key);
    } else {
      LinesAreOneLine(template.value);
      ParsedIsClean(Lines(template.value), key);
    }
  }

  /** The answers of `get` are the same before saving and after loading the saved text. */
  ghost predicate GetsAgree(template: Option<string>, inner: map<string, string>, text: string) {
    forall key :: Lookup(Parse(text), TemplateMap(template), key) == Lookup(inner, TemplateMap(template), key)
  }

  lemma AgreeingIsClean(template: string, inner: map<string, string>, order: seq<string>)
    requires Iterates(order, inner) && GetsAgree(Some(template), inner, Render(template, inner, order))
    ensures Clean(inner)
  {
    var text, defaults := Render(template, inner, order), Parse(template);
    forall k | k in inner
      ensures CleanKey(k) && OneLine(inner[k]) && Lookup(Parse(text), defaults, k) == Some(inner[k])
    {
      assert Lookup(inner, defaults, k) == Some(inner[k]);
      GotIsClean(Some(template), text, k);
    }
    SaveReload(template, inner, order);
    forall k | k in inner
      ensures CleanValue(inner[k])
    {
      NormalKeepsIff(inner[k]);
    }
  }

  lemma WithTemplateIff(template: string, inner: map<string, string>, order: seq<string>)
    requires Iterates(order, inner)
    ensures GetsAgree(Some(template), inner, Render(template, inner, order)) <==> Clean(inner)
  {
    if Clean(inner) {
      SaveReloadExactIff(template, inner, order);
    } else if GetsAgree(Some(template), inner, Render(template, inner, order)) {
      AgreeingIsClean(template, inner, order);
    }
  }

  lemma WithoutTemplateIff(inner: map<string, string>, text: string)
    ensures GetsAgree(None, inner, text) <==> Parse(text) == TemplateMap(None) + inner
  {
    NoDefaults(inner);
    if GetsAgree(None, inner, text) {
      AgreeingWithoutTemplate(inner, text);
    }
  }

  lemma AgreeingWithoutTemplate(inner: map<string, string>, text: string)
    requires GetsAgree(None, inner, text)
    ensures Parse(text) == inner
  {
    var none := TemplateMap(None);
    forall key
      ensures key in Parse(text) <==> key in inner
      ensures key in inner ==> Parse(text)[key] == inner[key]
    {
      assert Lookup(Parse(text), none, key) == Lookup(inner, none, key);
    }
  }

  /** Saving and loading changes the answer of no `get` exactly for a configuration that survives. */
  lemma GetSurvivesReloadIff(template: Option<string>, inner: map<string, string>, order: seq<string>)
    requires template.Some? ==> Iterates(order, inner)
    ensures GetsAgree(template, inner, SavedText(template, inner, order)) <==> Survives(template, inner)
  {
    SavedTextMeansAllIff(template, inner, order);
    var text := SavedText(template, inner, order);
    if template.Some? {
      WithTemplateIff(template.value, inner, order);
    } else {
      WithoutTemplateIff(inner, text);
    }
  }

  class Config {
    const template: Option<string>
    var inner: map<string, string>
    var templateMap: map<string, string>
    var file: Option<string>    // the file on disk

    ghost predicate Valid()
      reads this
    {
      templateMap == TemplateMap(template)
    }

    constructor (template: Option<string>, file: Option<string>)
      ensures Valid() && inner == map[] && this.template == template && this.file == file
    {
      var defaults: map<string, string> := map[];
      if template.Some? {
        defaults := ParseEnv(template.value);
      }
      this.template, this.file := template, file;
      inner, templateMap := map[], defaults;
    }

    /** A missing file leaves the runtime values alone. */
    method Load()
      requires Valid()
      modifies this`inner
      ensures Valid() && inner == if file.Some? then Parse(file.value) else old(inner)
    {
      if file.Some? {
        inner := ParseEnv(file.value);
      }
    }

    method Get(key: string) returns (value: Option<string>)
      requires Valid()
      ensures value == Lookup(inner, templateMap, key)
      ensures value == Lookup(templateMap + inner, map[], key)
    {
      value := if key in inner then Some(inner[key]) else None;
      if value.None? {
        value := if key in templateMap then Some(templateMap[key]) else None;
      }
    }

    method All() returns (result: map<string, string>)
      requires Valid()
      ensures result == templateMap + inner
    {
      result := templateMap;
      var todo := inner.Keys;
      while todo != {}
        invariant todo <= inner.Keys
        invariant result == templateMap + map k | k in inner && k !in todo :: inner[k]
        decreases |todo|
      {
        var k :| k in todo;
        result := result[k := inner[k]];
        todo := todo - {k};
      }
    }

    /** Written over the template, or as the built-in list when there is none. */
    method Save(ok: bool) returns (written: bool)
      requires Valid()
      modifies this`file
      ensures Valid() && written == ok
      ensures !ok ==> file == old(file)
      ensures ok && template.None? ==> file == Some(BuildTemplate(inner))
      ensures ok && template.Some? ==>
                file.Some? && exists order :: Iterates(order, inner) && file.value == Render(template.value, inner, order)
      ensures ok ==> (Parse(file.value) == templateMap + inner <==> Survives(template, inner))
    {
      var content;
      if template.Some? {
        var order;
        content, order := RenderFromTemplate(template.value, inner);
        SavedTextMeansAllIff(template, inner, order);
      } else {
        content := BuildTemplate(inner);
        SavedTextMeansAllIff(template, inner, []);
      }
      if ok {
        file := Some(content);
      }
      written := ok;
    }

    method Set(key: string, value: string, ok: bool) returns (written: bool)
      requires Valid()
      modifies this`inner, this`file
      ensures Valid() && written == ok && inner == old(inner)[key := value]
      ensures !ok ==> file == old(file)
      ensures ok ==> file.Some? && (Parse(file.value) == templateMap + inner <==> Survives(template, inner))
    {
      inner := inner[key := value];
      written := Save(ok);
    }
  }
}
