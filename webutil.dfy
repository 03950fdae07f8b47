/** The web application's helpers for configuration: variables from the
    URL's query string and fragment, cookies, and the settings cache in
    front of the browser's storage.

    `decodeURIComponent` is foreign code and is a parameter `decode`. The
    storage backend (`localStorage`, or `chrome.storage.sync` when the
    extension API is present) is an abstract map from names to values. */
module WebUtil {
  import opened Bytes
  import opened Strings

  /* ---------- URL variables ---------- */

  /** Position `i` of `s` starts `<sep>name=` for one of the separators. */
  predicate IsMatch(s: string, seps: set<char>, key: string, i: int)
  {
    0 <= i < |s| && s[i] in seps && key <= s[i + 1..]
  }

  /** The last position before `n` that starts a match: the greedy `.*` at
      the head of the source's regular expression makes the match begin at
      the last occurrence. */
  function LastMatch(s: string, seps: set<char>, key: string, n: nat): (r: Option<nat>)
    requires n <= |s|
    ensures r.Some? ==> r.value < n && IsMatch(s, seps, key, r.value) &&
                        forall j :: r.value < j < n ==> !IsMatch(s, seps, key, j)
    ensures r.None? ==> forall j :: 0 <= j < n ==> !IsMatch(s, seps, key, j)
  {
    if n == 0 then None
    else if IsMatch(s, seps, key, n - 1) then Some(n - 1)
    else LastMatch(s, seps, key, n - 1)
  }

  /** The last match is the one the characterisation names. */
  lemma {:induction false} LastMatchIs(s: string, seps: set<char>, key: string, n: nat, i: nat)
    requires n <= |s| && i < n && IsMatch(s, seps, key, i)
    requires forall j :: i < j < n ==> !IsMatch(s, seps, key, j)
    ensures LastMatch(s, seps, key, n) == Some(i)
  {
    if i < n - 1 {
      LastMatchIs(s, seps, key, n - 1, i);
    }
  }

  /** The longest prefix of `s` without a character of `stops`: what the
      group `([^&#]*)` or `([^&]*)` captures. */
  function Upto(s: string, stops: set<char>): (r: string)
    ensures r <= s && (forall k :: 0 <= k < |r| ==> r[k] !in stops)
    ensures |r| < |s| ==> s[|r|] in stops
  {
    if s == [] || s[0] in stops then [] else [s[0]] + Upto(s[1..], stops)
  }

  /** The captured value after the match at `i`, decoded. */
  function ValueAt(s: string, key: string, i: nat, stops: set<char>, decode: string -> string): string
    requires i + 1 + |key| <= |s|
  {
    decode(Upto(s[i + 1 + |key|..], stops))
  }

  /** The parts of `document.location` the helpers read. */
  datatype Location = Location(href: string, hash: string)

  /** `getQueryVar(name, defVal)`: the decoded value after the last
      `?name=` or `&name=` of the whole address, up to `&` or `#`; else the
      default, or null (`None`) when there is none. */
  function QueryVar(loc: Location, name: string, defVal: Option<string>, decode: string -> string): (r: Option<string>)
    ensures var key := name + "=";
            (r == defVal <== forall j :: 0 <= j < |loc.href| ==> !IsMatch(loc.href, {'?', '&'}, key, j))
  {
    var key := name + "=";
    match LastMatch(loc.href, {'?', '&'}, key, |loc.href|)
    case None => defVal
    case Some(i) => Some(ValueAt(loc.href, key, i, {'&', '#'}, decode))
  }

  /** `getHashVar(name, defVal)`: the same over the fragment, after `&name=`
      or `#name=` and up to `&`. */
  function HashVar(loc: Location, name: string, defVal: Option<string>, decode: string -> string): (r: Option<string>)
    ensures var key := name + "=";
            (r == defVal <== forall j :: 0 <= j < |loc.hash| ==> !IsMatch(loc.hash, {'&', '#'}, key, j))
  {
    var key := name + "=";
    match LastMatch(loc.hash, {'&', '#'}, key, |loc.hash|)
    case None => defVal
    case Some(i) => Some(ValueAt(loc.hash, key, i, {'&'}, decode))
  }

  /** `getConfigVar(name, defVal)`: the fragment first, then the query. */
  function ConfigVar(loc: Location, name: string, defVal: Option<string>, decode: string -> string): (r: Option<string>)
  {
    var v := HashVar(loc, name, None, decode);
    if v.None? then QueryVar(loc, name, defVal, decode) else v
  }

  /** A query variable is the value after the last `[?&]name=` of the
      address, and the default exactly when there is none. */
  lemma {:induction false} QueryVarLast(loc: Location, name: string, defVal: Option<string>, decode: string -> string)
    ensures var key := name + "=";
            var s := loc.href;
            (QueryVar(loc, name, defVal, decode) == defVal || (exists i :: IsMatch(s, {'?', '&'}, key, i))) &&
            forall i :: IsMatch(s, {'?', '&'}, key, i) && (forall j :: i < j < |s| ==> !IsMatch(s, {'?', '&'}, key, j)) ==>
              i + 1 + |key| <= |s| && QueryVar(loc, name, defVal, decode) == Some(ValueAt(s, key, i, {'&', '#'}, decode))
  {
    var key := name + "=";
    forall i | IsMatch(loc.href, {'?', '&'}, key, i) && (forall j :: i < j < |loc.href| ==> !IsMatch(loc.href, {'?', '&'}, key, j))
      ensures i + 1 + |key| <= |loc.href| && QueryVar(loc, name, defVal, decode) == Some(ValueAt(loc.href, key, i, {'&', '#'}, decode))
    {
      LastMatchIs(loc.href, {'?', '&'}, key, |loc.href|, i);
    }
  }

  /** A fragment variable is the value after the last `[&#]name=` of the
      fragment, and the default exactly when there is none. */
  lemma {:induction false} HashVarLast(loc: Location, name: string, defVal: Option<string>, decode: string -> string)
    ensures var key := name + "=";
            var s := loc.hash;
            (HashVar(loc, name, defVal, decode) == defVal || (exists i :: IsMatch(s, {'&', '#'}, key, i))) &&
            forall i :: IsMatch(s, {'&', '#'}, key, i) && (forall j :: i < j < |s| ==> !IsMatch(s, {'&', '#'}, key, j)) ==>
              i + 1 + |key| <= |s| && HashVar(loc, name, defVal, decode) == Some(ValueAt(s, key, i, {'&'}, decode))
  {
    var key := name + "=";
    forall i | IsMatch(loc.hash, {'&', '#'}, key, i) && (forall j :: i < j < |loc.hash| ==> !IsMatch(loc.hash, {'&', '#'}, key, j))
      ensures i + 1 + |key| <= |loc.hash| && HashVar(loc, name, defVal, decode) == Some(ValueAt(loc.hash, key, i, {'&'}, decode))
    {
      LastMatchIs(loc.hash, {'&', '#'}, key, |loc.hash|, i);
    }
  }

  /** A variable in the fragment wins, even with an empty value; without
      one the query decides, and without either the default is returned. */
  lemma {:induction false} ConfigVarPrecedence(loc: Location, name: string, defVal: Option<string>, decode: string -> string)
    ensures var key := name + "=";
            ((exists i :: IsMatch(loc.hash, {'&', '#'}, key, i)) ==>
               ConfigVar(loc, name, defVal, decode) == HashVar(loc, name, defVal, decode)) &&
            ((forall i :: !IsMatch(loc.hash, {'&', '#'}, key, i)) ==>
               ConfigVar(loc, name, defVal, decode) == QueryVar(loc, name, defVal, decode))
  {
  }

  /** No separator of `seps` occurs in `s`. */
  predicate Free(s: string, seps: set<char>)
  {
    forall k :: 0 <= k < |s| ==> s[k] !in seps
  }

  /** A match right after `p`, with no separator after it, is the last. */
  lemma {:induction false} LastMatchAfter(p: string, c: char, rest: string, seps: set<char>, key: string)
    requires c in seps && key <= rest && Free(rest, seps)
    ensures var s := p + [c] + rest;
            LastMatch(s, seps, key, |s|) == Some(|p|)
  {
    var s := p + [c] + rest;
    assert s[|p| + 1..] == rest;
    forall j | |p| < j < |s| ensures !IsMatch(s, seps, key, j) {
      assert s[j] == rest[j - |p| - 1];
    }
    LastMatchIs(s, seps, key, |s|, |p|);
  }

  lemma {:induction false} FreeTail(a: string, b: string, seps: set<char>)
    requires Free(a + b, seps)
    ensures Free(b, seps)
  {
    forall k | 0 <= k < |b| ensures b[k] !in seps {
      assert b[k] == (a + b)[|a| + k];
    }
  }

  /** An address ending `?name=v`, with no `&`, `?` or `#` after the
      `?`, gives the decoded `v`; the same with `&name=v`. */
  lemma {:induction false} QueryVarOf(p: string, sep: char, name: string, v: string, hash: string, defVal: Option<string>, decode: string -> string)
    requires sep in {'?', '&'} && Free(name + "=" + v, {'?', '&'}) && Free(v, {'#'})
    ensures QueryVar(Location(p + [sep] + (name + "=" + v), hash), name, defVal, decode) == Some(decode(v))
  {
    var key := name + "=";
    var rest := key + v;
    var s := p + [sep] + rest;
    LastMatchAfter(p, sep, rest, {'?', '&'}, key);
    assert s[|p| + 1 + |key|..] == v;
    FreeTail(key, v, {'?', '&'});
    UptoFree(v, {'&', '#'});
    assert ValueAt(s, key, |p|, {'&', '#'}, decode) == decode(v);
    assert p + [sep] + (name + "=" + v) == s;
  }

  /** A string without a stop character is captured whole. */
  lemma {:induction false} UptoFree(s: string, stops: set<char>)
    requires forall k :: 0 <= k < |s| ==> s[k] !in stops
    ensures Upto(s, stops) == s
  {
  }

  /** A fragment `#name=v` without `&` wins over anything in the query. */
  lemma {:induction false} FragmentWins(href: string, name: string, v: string, defVal: Option<string>, decode: string -> string)
    requires Free(name + "=" + v, {'&', '#'})
    ensures ConfigVar(Location(href, "#" + (name + "=" + v)), name, defVal, decode) == Some(decode(v))
  {
    var key := name + "=";
    var rest := key + v;
    var h := "#" + rest;
    assert h == [] + ['#'] + rest;
    LastMatchAfter([], '#', rest, {'&', '#'}, key);
    assert h[1 + |key|..] == v;
    FreeTail(key, v, {'&', '#'});
    assert Free(v, {'&'});
    assert Upto(v, {'&'}) == v;
  }

  /** Without a fragment, the query decides: `?myvar=myval` gives `myval`. */
  lemma {:induction false} QueryOnly(p: string, name: string, v: string, defVal: Option<string>, decode: string -> string)
    requires Free(name + "=" + v, {'?', '&'}) && Free(v, {'#'})
    ensures ConfigVar(Location(p + "?" + (name + "=" + v), ""), name, defVal, decode) == Some(decode(v))
  {
    QueryVarOf(p, '?', name, v, "", defVal, decode);
    assert p + "?" + (name + "=" + v) == p + ['?'] + (name + "=" + v);
  }

  /* ---------- Cookies ---------- */

  /** The piece without its leading spaces. */
  function TrimStart(c: string): (r: string)
    ensures |r| <= |c| && (r == [] || r[0] != ' ')
  {
    if c != [] && c[0] == ' ' then TrimStart(c[1..]) else c
  }

  /** Trimming keeps a suffix and what it drops is spaces only. */
  lemma {:induction false} TrimStartSpaces(c: string)
    ensures TrimStart(c) == c[|c| - |TrimStart(c)|..]
    ensures forall k :: 0 <= k < |c| - |TrimStart(c)| ==> c[k] == ' '
  {
    if c != [] && c[0] == ' ' {
      TrimStartSpaces(c[1..]);
      assert c[1..][|c| - 1 - |TrimStart(c)|..] == c[|c| - |TrimStart(c)|..];
      assert forall k :: 1 <= k < |c| ==> c[k] == c[1..][k - 1];
    }
  }

  /** The piece, once trimmed, starts with `key`. */
  predicate Named(p: string, key: string)
  {
    key <= TrimStart(p)
  }

  /** The value of the first piece that starts with `key` once trimmed. */
  function CookieLookup(ps: seq<string>, key: string): (r: Option<string>)
    ensures r.None? <==> forall k :: 0 <= k < |ps| ==> !Named(ps[k], key)
  {
    if ps == [] then None
    else if Named(ps[0], key) then Some(TrimStart(ps[0])[|key|..])
    else
      var r := CookieLookup(ps[1..], key);
      UnnamedTail(ps, key);
      r
  }

  /** Past an unnamed first piece, no piece is named exactly when no piece
      of the tail is. */
  lemma {:induction false} UnnamedTail(ps: seq<string>, key: string)
    requires ps != [] && !Named(ps[0], key)
    ensures (forall k :: 0 <= k < |ps| ==> !Named(ps[k], key)) <==>
            (forall k :: 0 <= k < |ps| - 1 ==> !Named(ps[1..][k], key))
  {
    assert forall k :: 1 <= k < |ps| ==> ps[k] == ps[1..][k - 1];
  }

  /** `readCookie(name, defaultValue)` over the cookie string. */
  function Cookie(cookie: string, name: string, defaultValue: Option<string>): Option<string>
  {
    var r := CookieLookup(Split(cookie, ';'), name + "=");
    if r.Some? then r else defaultValue
  }

  /** The value is that of the first cookie called `name`, and the default
      when there is none; it never holds a `;`. */
  lemma {:induction false} CookieFirst(ps: seq<string>, key: string, i: nat)
    requires i < |ps| && Named(ps[i], key) && forall k :: 0 <= k < i ==> !Named(ps[k], key)
    ensures CookieLookup(ps, key) == Some(TrimStart(ps[i])[|key|..])
  {
    if i > 0 {
      assert forall k :: 0 <= k < i - 1 ==> ps[1..][k] == ps[k + 1];
      CookieFirst(ps[1..], key, i - 1);
    }
  }

  lemma {:induction false} CookieNoSeparator(cookie: string, name: string)
    ensures var r := Cookie(cookie, name, None);
            r.Some? ==> ';' !in r.value
  {
    var ps := Split(cookie, ';');
    var key := name + "=";
    var k := FirstCookie(ps, key);
    if k < |ps| {
      CookieFirst(ps, key, k);
      TrimStartSpaces(ps[k]);
      var t := TrimStart(ps[k]);
      assert forall j :: 0 <= j < |t| ==> t[j] == ps[k][|ps[k]| - |t| + j];
      assert forall j :: 0 <= j < |t[|key|..]| ==> t[|key|..][j] == t[|key| + j];
    }
  }

  /** The index of the first piece that matches, or |ps|. */
  function FirstCookie(ps: seq<string>, key: string): (k: nat)
    ensures k <= |ps| && (k < |ps| ==> Named(ps[k], key))
    ensures forall j :: 0 <= j < k ==> !Named(ps[j], key)
    ensures k == |ps| ==> CookieLookup(ps, key).None?
  {
    if ps == [] then 0
    else if Named(ps[0], key) then 0
    else
      var k := FirstCookie(ps[1..], key);
      FirstCookieShift(ps, key, k);
      k + 1
  }

  /** The first match in the tail, one further on, is the first match of
      pieces whose first piece is unnamed. */
  lemma {:induction false} FirstCookieShift(ps: seq<string>, key: string, k: nat)
    requires ps != [] && !Named(ps[0], key) && k <= |ps| - 1
    requires k < |ps| - 1 ==> Named(ps[1..][k], key)
    requires forall j :: 0 <= j < k ==> !Named(ps[1..][j], key)
    ensures k + 1 < |ps| ==> Named(ps[k + 1], key)
    ensures forall j :: 0 <= j < k + 1 ==> !Named(ps[j], key)
  {
    forall j | 0 <= j < k + 1 ensures !Named(ps[j], key) {
      if j > 0 {
        assert ps[j] == ps[1..][j - 1];
      }
    }
    if k + 1 < |ps| {
      assert ps[k + 1] == ps[1..][k];
    }
  }

  /** For a cookie string made of pieces, the value read is that of the
      first piece named `name`, whatever follows it. */
  lemma {:induction false} CookieIn(ps: seq<string>, name: string, defaultValue: Option<string>, i: nat)
    requires |ps| >= 1 && forall k :: 0 <= k < |ps| ==> ';' !in ps[k]
    requires i < |ps| && Named(ps[i], name + "=") && forall k :: 0 <= k < i ==> !Named(ps[k], name + "=")
    ensures Cookie(Join(ps, ';'), name, defaultValue) == Some(TrimStart(ps[i])[|name| + 1..])
  {
    SplitJoin(ps, ';');
    CookieFirst(ps, name + "=", i);
  }

  /** Without a piece named `name`, the default (or null) is read. */
  lemma {:induction false} CookieAbsent(ps: seq<string>, name: string, defaultValue: Option<string>)
    requires |ps| >= 1 && forall k :: 0 <= k < |ps| ==> ';' !in ps[k]
    requires forall k :: 0 <= k < |ps| ==> !Named(ps[k], name + "=")
    ensures Cookie(Join(ps, ';'), name, defaultValue) == defaultValue
  {
    SplitJoin(ps, ';');
  }

  /** In `a=1; b=2`, `b` has value `2`: the space after `;` is trimmed. */
  lemma {:induction false} LookupExample()
    ensures CookieLookup(["a=1", " b=2"], "b=") == Some("2")
  {
    assert TrimStart(" b=2") == "b=2";
    assert !Named("a=1", "b=");
    CookieFirst(["a=1", " b=2"], "b=", 1);
    assert "b=2"[2..] == "2";
  }

  /** In `ab=1; a=2`, `a` has value `2`: a longer name that starts with
      `a` is not `a`; and `c`, which is not there, has none. */
  lemma {:induction false} PrefixLookupExample()
    ensures CookieLookup(["ab=1", " a=2"], "a=") == Some("2")
    ensures CookieLookup(["ab=1", " a=2"], "c=") == None
  {
    assert TrimStart(" a=2") == "a=2";
    assert !Named("ab=1", "a=") by {
      assert "ab=1"[1] != "a="[1];
    }
    CookieFirst(["ab=1", " a=2"], "a=", 1);
    assert "a=2"[2..] == "2";
    assert !Named("ab=1", "c=") && !Named(" a=2", "c=");
  }

  /** The loop of `readCookie` over the pieces, each trimmed by
      `TrimLeading`. */
  method ReadCookie(cookie: string, name: string, defaultValue: Option<string>) returns (r: Option<string>)
    ensures r == Cookie(cookie, name, defaultValue)
  {
    var ca := Split(cookie, ';');
    r := FindCookie(ca, name + "=");
    if r.None? {
      r := defaultValue;
    }
  }

  /** The loop of `readCookie` proper: the first piece that starts with
      `nameEQ` once trimmed gives its value. */
  method FindCookie(ca: seq<string>, nameEQ: string) returns (r: Option<string>)
    ensures r == CookieLookup(ca, nameEQ)
  {
    var i := 0;
    while i < |ca|
      invariant i <= |ca| && forall k :: 0 <= k < i ==> !Named(ca[k], nameEQ)
    {
      var c := TrimLeading(ca[i]);
      if nameEQ <= c {
        CookieFirst(ca, nameEQ, i);
        return Some(c[|nameEQ|..]);
      }
      i := i + 1;
    }
    return None;
  }

  /** The inner loop of `readCookie`, which drops leading spaces. */
  method TrimLeading(c0: string) returns (c: string)
    ensures c == TrimStart(c0)
  {
    c := c0;
    while |c| > 0 && c[0] == ' '
      invariant TrimStart(c) == TrimStart(c0)
    {
      c := c[1..];
    }
  }

  /* ---------- Settings ---------- */

  /** The settings cache and the storage behind it. A cached null (`None`)
      records a name read once and found absent. */
  datatype SettingsState = SettingsState(cache: map<string, Option<string>>, storage: map<string, string>)

  /** The cached values that are strings: what `chrome.storage.sync.set`
      is given. */
  function StoredItems(cache: map<string, Option<string>>): (m: map<string, string>)
    ensures forall k :: k in m <==> k in cache && cache[k].Some?
    ensures forall k :: k in m ==> m[k] == cache[k].value
  {
    map k | k in cache && cache[k].Some? :: cache[k].value
  }

  /** `setSetting`: the cache only. */
  function Set(st: SettingsState, name: string, value: string): (r: SettingsState)
    ensures r.storage == st.storage && r.cache == st.cache[name := Some(value)]
  {
    st.(cache := st.cache[name := Some(value)])
  }

  /** `writeSetting`: nothing when the cached value is the same string;
      otherwise the cache and the storage, one item with `localStorage`,
      the whole cache with `chrome.storage`. */
  function Write(st: SettingsState, chrome: bool, name: string, value: string): (r: SettingsState)
    ensures name in r.cache && r.cache[name] == Some(value)
    ensures !(name in st.cache && st.cache[name] == Some(value)) ==> name in r.storage && r.storage[name] == value
  {
    if name in st.cache && st.cache[name] == Some(value) then st
    else
      var cache := st.cache[name := Some(value)];
      SettingsState(cache, if chrome then st.storage + StoredItems(cache) else st.storage[name := value])
  }

  /** `readSetting`: the new state and the value returned. A cached name,
      and every name with `chrome.storage`, is answered from the cache; an
      uncached one is loaded from `localStorage` and cached, null when it is
      absent. A null value gives the default when there is one. */
  function Read(st: SettingsState, chrome: bool, name: string, defaultValue: Option<string>): (r: (SettingsState, Option<string>))
  {
    var (st', value) :=
      if name in st.cache || chrome then (st, if name in st.cache then st.cache[name] else None)
      else
        var v := if name in st.storage then Some(st.storage[name]) else None;
        (st.(cache := st.cache[name := v]), v);
    (st', if value.None? then defaultValue else value)
  }

  /** `eraseSetting`: the name leaves the cache and the storage. */
  function Erase(st: SettingsState, name: string): (r: SettingsState)
    ensures name !in r.cache && name !in r.storage
    ensures forall k :: k != name ==> (k in r.cache <==> k in st.cache) && (k in r.storage <==> k in st.storage)
  {
    SettingsState(st.cache - {name}, st.storage - {name})
  }

  /** Setting a value changes only the cache, and a read returns it. */
  lemma {:induction false} SetThenRead(st: SettingsState, chrome: bool, name: string, value: string, def: Option<string>)
    ensures Set(st, name, value).storage == st.storage
    ensures Read(Set(st, name, value), chrome, name, def).1 == Some(value)
  {
  }

  /** Writing the value already cached writes nothing; otherwise a read
      returns the new value and, with `localStorage`, the storage holds it. */
  lemma {:induction false} WriteThenRead(st: SettingsState, chrome: bool, name: string, value: string, def: Option<string>)
    ensures name in st.cache && st.cache[name] == Some(value) ==> Write(st, chrome, name, value) == st
    ensures Read(Write(st, chrome, name, value), chrome, name, def).1 == Some(value)
    ensures !chrome && !(name in st.cache && st.cache[name] == Some(value)) ==>
              Write(st, chrome, name, value).storage == st.storage[name := value]
  {
  }

  /** With `localStorage`, the first read of an uncached name loads it from
      storage and caches it, null when absent, and gives the default for
      null. */
  lemma {:induction false} FirstReadLoads(st: SettingsState, name: string, def: Option<string>)
    requires name !in st.cache
    ensures var (st', v) := Read(st, false, name, def);
            st'.storage == st.storage && name in st'.cache &&
            st'.cache[name] == (if name in st.storage then Some(st.storage[name]) else None) &&
            v == (if name in st.storage then Some(st.storage[name]) else def)
  {
  }

  /** Once cached, a name reads the same whatever the storage then holds:
      a later change of the storage is not seen. */
  lemma {:induction false} CachedReadIgnoresStorage(st: SettingsState, chrome: bool, name: string, def: Option<string>, other: map<string, string>)
    requires name in st.cache
    ensures Read(st, chrome, name, def).1 == Read(st.(storage := other), chrome, name, def).1
    ensures Read(st, chrome, name, def).0 == st
  {
  }

  /** A name found absent stays absent for later reads: each gives its own
      default even after the storage gains the name. */
  lemma {:induction false} AbsentStaysAbsent(st: SettingsState, name: string, def1: Option<string>, def2: Option<string>, v: string)
    requires name !in st.cache && name !in st.storage
    ensures var (st1, r1) := Read(st, false, name, def1);
            r1 == def1 && Read(st1.(storage := st1.storage[name := v]), false, name, def2).1 == def2
  {
  }

  /** After an erase, the next read with `localStorage` loads the name from
      storage again. */
  lemma {:induction false} EraseThenReload(st: SettingsState, name: string, def: Option<string>, v: string)
    ensures var st1 := Erase(st, name);
            Read(st1.(storage := st1.storage[name := v]), false, name, def).1 == Some(v)
  {
  }

  /** The module's `settings` and the storage backend. */
  class Settings {
    var cache: map<string, Option<string>>
    var storage: map<string, string>
    /** Whether `window.chrome.storage` exists. */
    const chrome: bool

    function State(): SettingsState
      reads this
    {
      SettingsState(cache, storage)
    }

    constructor(chrome: bool, storage: map<string, string>)
      ensures this.chrome == chrome && State() == SettingsState(map[], storage)
    {
      this.chrome := chrome;
      this.storage := storage;
      cache := map[];
    }

    /** `initSettings`: an empty cache with `localStorage`, a copy of the
        stored items with `chrome.storage`. */
    method InitSettings()
      modifies this
      ensures storage == old(storage)
      ensures cache == if chrome then map k | k in storage :: Some(storage[k]) else map[]
    {
      if !chrome {
        cache := map[];
      } else {
        cache := map k | k in storage :: Some(storage[k]);
      }
    }

    method SetSetting(name: string, value: string)
      modifies this
      ensures State() == Set(old(State()), name, value)
    {
      cache := cache[name := Some(value)];
    }

    method WriteSetting(name: string, value: string)
      modifies this
      ensures State() == Write(old(State()), chrome, name, value)
    {
      if name in cache && cache[name] == Some(value) {
        return;
      }
      cache := cache[name := Some(value)];
      if chrome {
        storage := storage + StoredItems(cache);
      } else {
        storage := storage[name := value];
      }
    }

    method ReadSetting(name: string, defaultValue: Option<string>) returns (r: Option<string>)
      modifies this
      ensures (State(), r) == Read(old(State()), chrome, name, defaultValue)
    {
      var value: Option<string>;
      if name in cache || chrome {
        value := if name in cache then cache[name] else None;
      } else {
        value := if name in storage then Some(storage[name]) else None;
        cache := cache[name := value];
      }
      if value.None? {
        return defaultValue;
      }
      return value;
    }

    method EraseSetting(name: string)
      modifies this
      ensures State() == Erase(old(State()), name)
    {
      cache := cache - {name};
      storage := storage - {name};
    }
  }
}
