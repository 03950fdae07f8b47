/** The localizer of the web application: it picks the interface language
    from the browser's preferred languages and the languages a translation
    exists for, and looks texts up in the loaded dictionary.

    The browser's `navigator.languages` is a parameter. Fetching the
    dictionary is foreign code: its outcome is a parameter, the parsed
    dictionary or the failed response's status text. */
module Localization {
  import opened Bytes
  import opened Strings

  /** A language tag as compared: the parts before and after the first
      `-` of the lower-cased tag, `_` counting as `-` once. */
  datatype Tag = Tag(primary: string, region: Option<string>)

  /** `s.toLowerCase().replace("_", "-")` in one pass: `replaced` says
      whether the first `_` is already behind. */
  function Normal(s: string, replaced: bool): (r: string)
    ensures |r| == |s|
  {
    if s == [] then []
    else if !replaced && s[0] == '_' then ['-'] + Normal(s[1..], true)
    else [LowerChar(s[0])] + Normal(s[1..], replaced)
  }

  /** Parts 0 and 1 of `s.toLowerCase().replace("_", "-").split("-")`. */
  function TagOf(s: string): (t: Tag)
    ensures '-' !in t.primary && (t.region.Some? ==> '-' !in t.region.value)
  {
    var n := Normal(s, false);
    var i := IndexOf(n, '-');
    Tag(n[..i], if i < |n| then Some(n[i + 1..][..IndexOf(n[i + 1..], '-')]) else None)
  }

  /** The one-pass normalisation is the source's chain of string calls,
      so the tag is made of the first two parts of the split. */
  lemma {:induction false} TagOfSplit(s: string)
    ensures var parts := Split(ReplaceFirst(Lower(s), '_', '-'), '-');
            TagOf(s) == Tag(parts[0], if |parts| > 1 then Some(parts[1]) else None)
  {
    var n := ReplaceFirst(Lower(s), '_', '-');
    NormalIs(s);
    SplitParts(n, '-');
    var i := IndexOf(n, '-');
    if i < |n| {
      SplitParts(n[i + 1..], '-');
    }
  }

  lemma {:induction false} NormalIs(s: string)
    ensures Normal(s, false) == ReplaceFirst(Lower(s), '_', '-')
  {
    NormalAt(s, false);
    NormalAt(s, true);
    assert IndexOf(Lower(s), '_') == IndexOf(s, '_') by {
      IndexOfLower(s);
    }
  }

  /** `Normal` character by character. */
  lemma {:induction false} NormalAt(s: string, replaced: bool)
    ensures forall k :: 0 <= k < |s| ==>
              Normal(s, replaced)[k] == (if !replaced && k == IndexOf(s, '_') then '-' else LowerChar(s[k]))
  {
    if s != [] {
      NormalAt(s[1..], true);
      NormalAt(s[1..], replaced);
      assert forall k :: 1 <= k < |s| ==> s[k] == s[1..][k - 1];
      if !replaced && s[0] != '_' {
        assert IndexOf(s, '_') == IndexOf(s[1..], '_') + 1;
      }
    }
  }

  /** Lower-casing neither makes nor removes a `_`. */
  lemma {:induction false} IndexOfLower(s: string)
    ensures IndexOf(Lower(s), '_') == IndexOf(s, '_')
  {
    if s != [] {
      IndexOfLower(s[1..]);
      assert Lower(s)[1..] == Lower(s[1..]);
    }
  }

  /** First pass: the same primary tag and the same region, or both
      without one. */
  predicate Exact(u: Tag, sup: string)
  {
    TagOf(sup) == u
  }

  /** Third pass: the same primary tag and no region. */
  predicate Generic(u: Tag, sup: string)
  {
    TagOf(sup).primary == u.primary && TagOf(sup).region.None?
  }

  /** The first supported language that matches exactly, or |sup|. */
  function FindExact(u: Tag, sup: seq<string>): (j: nat)
    ensures j <= |sup| && (j < |sup| ==> Exact(u, sup[j]))
    ensures forall k :: 0 <= k < j ==> !Exact(u, sup[k])
  {
    if sup == [] then 0
    else if Exact(u, sup[0]) then 0
    else
      var j := FindExact(u, sup[1..]);
      assert forall k :: 1 <= k < |sup| ==> sup[k] == sup[1..][k - 1];
      j + 1
  }

  /** The first supported language without a region and with the same
      primary tag, or |sup|. */
  function FindGeneric(u: Tag, sup: seq<string>): (j: nat)
    ensures j <= |sup| && (j < |sup| ==> Generic(u, sup[j]))
    ensures forall k :: 0 <= k < j ==> !Generic(u, sup[k])
  {
    if sup == [] then 0
    else if Generic(u, sup[0]) then 0
    else
      var j := FindGeneric(u, sup[1..]);
      assert forall k :: 1 <= k < |sup| ==> sup[k] == sup[1..][k - 1];
      j + 1
  }

  /** The language `_setupLanguage` assigns, `None` when it assigns none.
      The user languages are tried in order: an exact match wins; an
      English user language then stops the search; otherwise a generic
      supported language of the same primary tag wins. The supported entry
      is returned as written. */
  function Choose(us: seq<string>, sup: seq<string>): (r: Option<string>)
    ensures r.Some? ==> (r.value in sup &&
              exists i :: 0 <= i < |us| && (Exact(TagOf(us[i]), r.value) || Generic(TagOf(us[i]), r.value)))
  {
    if us == [] then None
    else
      var u := TagOf(us[0]);
      var j := FindExact(u, sup);
      if j < |sup| then Some(sup[j])
      else if u.primary == "en" then None
      else
        var g := FindGeneric(u, sup);
        if g < |sup| then Some(sup[g])
        else
          var r := Choose(us[1..], sup);
          assert r.Some? ==> exists i :: 1 <= i < |us| && (Exact(TagOf(us[i]), r.value) || Generic(TagOf(us[i]), r.value)) by {
            if r.Some? {
              var i :| 0 <= i < |us[1..]| && (Exact(TagOf(us[1..][i]), r.value) || Generic(TagOf(us[1..][i]), r.value));
              assert us[1..][i] == us[i + 1];
            }
          }
          r
  }

  /** The language after `setup`: English unless one is chosen. */
  function Language(us: seq<string>, sup: seq<string>): (l: string)
    ensures l == "en" || l in sup
  {
    var c := Choose(us, sup);
    if c.Some? then c.value else "en"
  }

  /** An exact match of the first user language wins over everything the
      later ones would match. */
  lemma {:induction false} ExactFirst(us: seq<string>, sup: seq<string>, j: nat)
    requires us != [] && j < |sup| && Exact(TagOf(us[0]), sup[j])
    ensures Choose(us, sup).Some? && Exact(TagOf(us[0]), Choose(us, sup).value)
    ensures Choose(us, sup).value == sup[FindExact(TagOf(us[0]), sup)]
  {
  }

  /** An English user language without an exact match keeps English,
      whatever the later user languages are. */
  lemma {:induction false} EnglishStops(us: seq<string>, sup: seq<string>)
    requires us != [] && TagOf(us[0]).primary == "en"
    requires forall k :: 0 <= k < |sup| ==> !Exact(TagOf(us[0]), sup[k])
    ensures Choose(us, sup) == None && Language(us, sup) == "en"
  {
  }

  /** A user language that matches nothing is skipped. */
  lemma {:induction false} Skipped(us: seq<string>, sup: seq<string>)
    requires us != [] && TagOf(us[0]).primary != "en"
    requires forall k :: 0 <= k < |sup| ==> !Exact(TagOf(us[0]), sup[k]) && !Generic(TagOf(us[0]), sup[k])
    ensures Choose(us, sup) == Choose(us[1..], sup)
  {
    var u := TagOf(us[0]);
    assert FindExact(u, sup) == |sup|;
    assert FindGeneric(u, sup) == |sup|;
  }

  /** User languages without a region never select a regional language. */
  lemma {:induction false} GenericStaysGeneric(us: seq<string>, sup: seq<string>)
    requires forall i :: 0 <= i < |us| ==> TagOf(us[i]).region.None?
    ensures Choose(us, sup).Some? ==> TagOf(Choose(us, sup).value).region.None?
  {
    var r := Choose(us, sup);
    if r.Some? {
      var i :| 0 <= i < |us| && (Exact(TagOf(us[i]), r.value) || Generic(TagOf(us[i]), r.value));
    }
  }

  /** In `pt-BR` asking for `fr`, `pt` or `de`, the generic `pt` is the
      fallback. */
  lemma {:induction false} RegionFallbackExample(us: seq<string>, sup: seq<string>)
    requires us == ["pt-BR"] && sup == ["fr", "pt", "de"]
    ensures Language(us, sup) == "pt"
  {
    PtBr();
    Plain("fr");
    Plain("pt");
    Plain("de");
    assert !Exact(Tag("pt", Some("br")), sup[0]) && !Exact(Tag("pt", Some("br")), sup[1]) && !Exact(Tag("pt", Some("br")), sup[2]);
    assert FindExact(Tag("pt", Some("br")), sup) == 3;
    FindGenericIs(Tag("pt", Some("br")), sup, 1);
    assert TagOf(us[0]) == Tag("pt", Some("br"));
    assert Tag("pt", Some("br")).primary != "en";
    assert Choose(us, sup) == Some(sup[1]);
    assert Language(us, sup) == sup[1] == "pt";
  }

  lemma {:induction false} PtBr()
    ensures TagOf("pt-BR") == Tag("pt", Some("br"))
  {
    var n := Normal("pt-BR", false);
    assert n == "pt-br";
    assert IndexOf(n, '-') == 2;
    assert n[..2] == "pt" && n[3..] == "br";
    assert IndexOf("br", '-') == 2;
    assert n[3..][..IndexOf(n[3..], '-')] == "br";
  }

  /** A two-letter lower-case primary tag alone. */
  lemma {:induction false} Plain(s: string)
    requires |s| == 2 && 'a' <= s[0] <= 'z' && 'a' <= s[1] <= 'z'
    ensures TagOf(s) == Tag(s, None)
  {
    assert Normal(s, false) == s;
    assert IndexOf(s, '-') == 2;
  }

  /** `setup`'s base URL: empty when none is given, else ending in `/`. */
  function Base(baseURL: Option<string>): (b: string)
    ensures b == [] || b[|b| - 1] == '/'
    ensures baseURL.Some? && baseURL.value != [] ==> baseURL.value <= b && |b| <= |baseURL.value| + 1
    ensures baseURL.None? || baseURL.value == [] ==> b == []
  {
    if baseURL.None? || baseURL.value == [] then []
    else if baseURL.value[|baseURL.value| - 1] == '/' then baseURL.value
    else baseURL.value + "/"
  }

  /** The dictionary fetched for a language other than English. */
  function DictionaryPath(baseURL: Option<string>, language: string): string
  {
    Base(baseURL) + language + ".json"
  }

  /** A base with or without its trailing `/` gives the same path. */
  lemma {:induction false} BaseSlash(p: string, language: string)
    requires p != [] && p[|p| - 1] != '/'
    ensures DictionaryPath(Some(p), language) == DictionaryPath(Some(p + "/"), language) == p + "/" + language + ".json"
  {
  }

  /** `get(id)`: the dictionary's text for `id` when it is there and not
      empty, else `id` itself. */
  function Translate(dictionary: Option<map<string, string>>, id: string): (r: string)
    ensures r != id ==> dictionary.Some? && id in dictionary.value && dictionary.value[id] == r && r != ""
    ensures dictionary.Some? && id in dictionary.value && dictionary.value[id] != "" ==> r == dictionary.value[id]
  {
    if dictionary.Some? && id in dictionary.value && dictionary.value[id] != "" then dictionary.value[id] else id
  }

  class Localizer {
    var language: string
    var dictionary: Option<map<string, string>>

    constructor()
      ensures language == "en" && dictionary == None
    {
      language := "en";
      dictionary := None;
    }

    /** `setup(supportedLanguages, baseURL)`: English and no dictionary,
        then the negotiated language and, for a language other than
        English, the dictionary at its path. The returned path is what is
        fetched, none for English; a failed response is an error and leaves
        no dictionary. */
    method Setup(supported: seq<string>, userLanguages: seq<string>, baseURL: Option<string>,
                 response: Result<map<string, string>>)
      returns (fetched: Option<string>, r: Result<()>)
      modifies this
      ensures language == Language(userLanguages, supported)
      ensures fetched == if language == "en" then None else Some(DictionaryPath(baseURL, language))
      ensures dictionary == if fetched.None? || response.Err? then None else Some(response.value)
      ensures r == if fetched.Some? && response.Err? then Err(response.msg) else Ok(())
    {
      language := "en";
      dictionary := None;
      SetupLanguage(userLanguages, supported);
      fetched, r := SetupDictionary(baseURL, response);
    }

    /** `_setupDictionary`. */
    method SetupDictionary(baseURL: Option<string>, response: Result<map<string, string>>)
      returns (fetched: Option<string>, r: Result<()>)
      modifies this
      ensures language == old(language)
      ensures fetched == if language == "en" then None else Some(DictionaryPath(baseURL, language))
      ensures dictionary == if fetched.None? || response.Err? then old(dictionary) else Some(response.value)
      ensures r == if fetched.Some? && response.Err? then Err(response.msg) else Ok(())
    {
      var base: string;
      if baseURL.Some? && baseURL.value != [] {
        if baseURL.value[|baseURL.value| - 1] != '/' {
          base := baseURL.value + "/";
        } else {
          base := baseURL.value;
        }
      } else {
        base := "";
      }
      if language == "en" {
        return None, Ok(());
      }
      fetched := Some(base + language + ".json");
      if response.Err? {
        return fetched, Err(response.msg);
      }
      dictionary := Some(response.value);
      r := Ok(());
    }

    /** `_setupLanguage`: the outer loop over the user languages. */
    method SetupLanguage(userLanguages: seq<string>, supported: seq<string>)
      modifies this
      ensures dictionary == old(dictionary)
      ensures language == if Choose(userLanguages, supported).Some? then Choose(userLanguages, supported).value else old(language)
    {
      var i := 0;
      while i < |userLanguages|
        invariant i <= |userLanguages| && language == old(language) && dictionary == old(dictionary)
        invariant Choose(userLanguages, supported) == Choose(userLanguages[i..], supported)
      {
        var userLang := TagOf(userLanguages[i]);
        var j := ExactPass(userLang, supported);
        if j < |supported| {
          language := supported[j];
          return;
        }
        if userLang.primary == "en" {
          return;
        }
        j := GenericPass(userLang, supported);
        if j < |supported| {
          language := supported[j];
          return;
        }
        assert userLanguages[i..][1..] == userLanguages[i + 1..];
        i := i + 1;
      }
    }

    /** The first pass: an exact match. */
    method ExactPass(userLang: Tag, supported: seq<string>) returns (j: nat)
      ensures j == FindExact(userLang, supported)
    {
      j := 0;
      while j < |supported|
        invariant j <= |supported| && forall k :: 0 <= k < j ==> !Exact(userLang, supported[k])
      {
        var supLang := TagOf(supported[j]);
        if userLang.primary == supLang.primary && userLang.region == supLang.region {
          FindExactIs(userLang, supported, j);
          return;
        }
        j := j + 1;
      }
      FindExactIs(userLang, supported, j);
    }

    /** The third pass: a generic match. */
    method GenericPass(userLang: Tag, supported: seq<string>) returns (j: nat)
      ensures j == FindGeneric(userLang, supported)
    {
      j := 0;
      while j < |supported|
        invariant j <= |supported| && forall k :: 0 <= k < j ==> !Generic(userLang, supported[k])
      {
        var supLang := TagOf(supported[j]);
        if userLang.primary == supLang.primary && supLang.region.None? {
          FindGenericIs(userLang, supported, j);
          return;
        }
        j := j + 1;
      }
      FindGenericIs(userLang, supported, j);
    }

    /** `get(id)`. */
    function Get(id: string): (r: string)
      reads this
      ensures r == Translate(dictionary, id)
    {
      if dictionary.Some? && id in dictionary.value && dictionary.value[id] != "" then dictionary.value[id] else id
    }
  }

  lemma {:induction false} FindExactIs(u: Tag, sup: seq<string>, j: nat)
    requires j <= |sup| && (j < |sup| ==> Exact(u, sup[j])) && forall k :: 0 <= k < j ==> !Exact(u, sup[k])
    ensures FindExact(u, sup) == j
  {
    if sup != [] && j > 0 {
      assert forall k :: 0 <= k < j - 1 ==> sup[1..][k] == sup[k + 1];
      FindExactIs(u, sup[1..], j - 1);
    }
  }

  lemma {:induction false} FindGenericIs(u: Tag, sup: seq<string>, j: nat)
    requires j <= |sup| && (j < |sup| ==> Generic(u, sup[j])) && forall k :: 0 <= k < j ==> !Generic(u, sup[k])
    ensures FindGeneric(u, sup) == j
  {
    if sup != [] && j > 0 {
      assert forall k :: 0 <= k < j - 1 ==> sup[1..][k] == sup[k + 1];
      FindGenericIs(u, sup[1..], j - 1);
    }
  }
}
