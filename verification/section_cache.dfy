/** The guide's section cache (`wvSectionCache`, app.js:405) as a map-valued
    state, with the tab click handler (app.js:473-483) and the prefetch of
    every tab followed by the display of the first (app.js:488-497). */
module SectionCache {
  import opened Wrappers
  import opened Text
  import opened Html
  import Sanitizer
  import GuideIndex

  /** The sentinel stored for a section whose markup could not be obtained. */
  const UnavailableText: string := "Section unavailable."

  /** A cached value: the sanitised section, or the sentinel. */
  datatype Entry = Sanitized(nodes: seq<Node>) | Unavailable

  /** The slot a section occupies. The source keys its map by the string
      `CacheKey(title, index)`; `CacheKeyInjective` shows that string tells
      slots apart exactly as this pair does, so the model keys by the pair. */
  datatype Key = Key(title: string, index: int)

  type Cache = map<Key, Entry>

  /** What the cache logic calls without defining: the section request
      (`fetchWikivoyageSection`; None when it throws or is not ok), the
      browser's parser, and `encodeURIComponent`. */
  datatype Env = Env(
    fetch: (string, int) -> Option<string>,
    parse: string -> seq<Node>,
    encode: string -> string)

  // ------------------------------------------------------------ keys

  /** `${title}::${t.index}`. */
  function CacheKey(title: string, index: int): string {
    title + "::" + IntToString(index)
  }

  /** The characters after the last ':' of `k` (all of `k` when it has none). */
  function AfterLastColon(k: string): (r: string)
    ensures |r| <= |k| && r == k[|k| - |r|..]
    ensures forall i :: 0 <= i < |r| ==> r[i] != ':'
  {
    if |k| == 0 then k
    else if k[|k| - 1] == ':' then []
    else AfterLastColon(k[..|k| - 1]) + [k[|k| - 1]]
  }

  lemma {:induction false} AfterLastColonOf(t: string, s: string)
    requires forall i :: 0 <= i < |s| ==> s[i] != ':'
    ensures AfterLastColon(t + ":" + s) == s
  {
    var k := t + ":" + s;
    if |s| > 0 {
      assert k[|k| - 1] == s[|s| - 1];
      assert k[..|k| - 1] == t + ":" + s[..|s| - 1];
      AfterLastColonOf(t, s[..|s| - 1]);
      assert s == s[..|s| - 1] + [s[|s| - 1]];
    }
  }

  /** A key ends with its rendered index: everything after its last ':'. */
  lemma CacheKeyIndex(t: string, i: int)
    ensures AfterLastColon(CacheKey(t, i)) == IntToString(i)
  {
    var s := IntToString(i);
    assert CacheKey(t, i) == (t + ":") + ":" + s;
    AfterLastColonOf(t + ":", s);
  }

  /** A key starts with its title. */
  lemma CacheKeyTitle(t: string, i: int)
    ensures |CacheKey(t, i)| == |t| + 2 + |IntToString(i)|
    ensures CacheKey(t, i)[..|t|] == t
  {
  }

  /** Distinct (title, index) pairs never share a cache slot: a rendered index
      contains no ':', so the key splits uniquely at its last "::". */
  lemma CacheKeyInjective(t1: string, i1: int, t2: string, i2: int)
    requires CacheKey(t1, i1) == CacheKey(t2, i2)
    ensures t1 == t2 && i1 == i2
  {
    CacheKeyIndex(t1, i1);
    CacheKeyIndex(t2, i2);
    CacheKeyTitle(t1, i1);
    CacheKeyTitle(t2, i2);
    IntToStringInjective(i1, i2);
    assert |t1| == |t2|;
  }

  // ------------------------------------------------------------ one lookup

  /** A miss: request the section; a null or empty answer becomes the
      sentinel, anything else is parsed and sanitised against the title. */
  function Load(env: Env, title: string, index: int): (e: Entry)
    ensures e.Unavailable? <==> !Truthy(env.fetch(title, index))
    ensures Truthy(env.fetch(title, index)) ==>
              e == Sanitized(Sanitizer.Sanitize(env.parse(env.fetch(title, index).value), env.encode(title)))
  {
    var raw := env.fetch(title, index);
    if Truthy(raw) then Sanitized(Sanitizer.Sanitize(env.parse(raw.value), env.encode(title)))
    else Unavailable
  }

  /** Whatever a miss stores has been through the sanitiser. */
  lemma LoadIsSafe(env: Env, title: string, index: int)
    ensures Load(env, title, index).Sanitized? ==> Sanitizer.Safe(Load(env, title, index).nodes)
  {
  }

  /** The value a lookup yields, the cache after it, and whether it issued a
      section request. */
  datatype Lookup = Lookup(entry: Entry, cache: Cache, fetched: bool)

  /** The tab click handler: a hit returns the stored value and changes
      nothing; a miss loads the section and stores it under its key. Either way
      no other key is touched. */
  function Get(cache: Cache, env: Env, title: string, index: int): (l: Lookup)
    ensures Key(title, index) in cache ==> l == Lookup(cache[Key(title, index)], cache, false)
    ensures Key(title, index) !in cache ==> l.fetched && l.entry == Load(env, title, index)
    ensures Key(title, index) in l.cache && l.cache[Key(title, index)] == l.entry
    ensures l.cache.Keys == cache.Keys + {Key(title, index)}
    ensures forall k :: k in cache ==> l.cache[k] == cache[k]
  {
    var key := Key(title, index);
    if key in cache then Lookup(cache[key], cache, false)
    else
      var e := Load(env, title, index);
      Lookup(e, cache[key := e], true)
  }

  /** Every stored value is what loading its own section gives. */
  predicate Coherent(cache: Cache, env: Env) {
    forall k :: k in cache ==> cache[k] == Load(env, k.title, k.index)
  }

  /** In a coherent cache a hit returns exactly what a miss would have
      loaded, so every stored section is sanitised. */
  lemma HitIsLoad(cache: Cache, env: Env, title: string, index: int)
    requires Coherent(cache, env) && Key(title, index) in cache
    ensures cache[Key(title, index)] == Load(env, title, index)
    ensures cache[Key(title, index)].Sanitized? ==> Sanitizer.Safe(cache[Key(title, index)].nodes)
  {
    LoadIsSafe(env, title, index);
  }

  /** Lookups keep the cache coherent, and then always yield the loaded value. */
  lemma GetKeepsCoherent(cache: Cache, env: Env, title: string, index: int)
    requires Coherent(cache, env)
    ensures Coherent(Get(cache, env, title, index).cache, env)
    ensures Get(cache, env, title, index).entry == Load(env, title, index)
  {
    var key := Key(title, index);
    if key in cache {
      HitIsLoad(cache, env, title, index);
    } else {
    }
  }

  // ------------------------------------------------------------ prefetch

  /** The prefetch results in tab order, the cache afterwards, and the number
      of section requests issued. */
  datatype Prefetched = Prefetched(results: seq<Entry>, cache: Cache, fetches: nat)

  /** The cache once every closure of the prefetch has finished: each tab
      whose key was missing from `snapshot` stores what loading its section
      gave (`StoredHolds`, `StoredFrame`). */
  function Stored(snapshot: Cache, env: Env, title: string, tabs: seq<GuideIndex.Tab>): Cache {
    if |tabs| == 0 then snapshot
    else
      var c := Stored(snapshot, env, title, tabs[1..]);
      var key := Key(title, tabs[0].index);
      if key in snapshot then c else c[key := Load(env, title, tabs[0].index)]
  }

  /** Each tab's key holds what a lookup in `snapshot` yields for it. */
  lemma {:induction false} StoredHolds(snapshot: Cache, env: Env, title: string, tabs: seq<GuideIndex.Tab>)
    ensures forall i :: 0 <= i < |tabs| ==>
              var c := Stored(snapshot, env, title, tabs);
              Key(title, tabs[i].index) in c && c[Key(title, tabs[i].index)] == Get(snapshot, env, title, tabs[i].index).entry
  {
    if |tabs| > 0 {
      var rest := tabs[1..];
      var c := Stored(snapshot, env, title, tabs);
      StoredHolds(snapshot, env, title, rest);
      StoredFrame(snapshot, env, title, rest);
      forall i | 0 <= i < |tabs|
        ensures Key(title, tabs[i].index) in c && c[Key(title, tabs[i].index)] == Get(snapshot, env, title, tabs[i].index).entry
      {
        if i > 0 {
          assert tabs[i] == rest[i - 1];
        }
      }
    }
  }

  /** Nothing cached is replaced, and every new key is some tab's. */
  lemma {:induction false} StoredFrame(snapshot: Cache, env: Env, title: string, tabs: seq<GuideIndex.Tab>)
    ensures forall k :: k in snapshot ==>
              k in Stored(snapshot, env, title, tabs) && Stored(snapshot, env, title, tabs)[k] == snapshot[k]
    ensures forall k :: k in Stored(snapshot, env, title, tabs) && k !in snapshot ==>
              exists i :: 0 <= i < |tabs| && k == Key(title, tabs[i].index)
  {
    if |tabs| > 0 {
      var rest := tabs[1..];
      StoredFrame(snapshot, env, title, rest);
      assert forall i :: 1 <= i < |tabs| ==> tabs[i] == rest[i - 1];
    }
  }

  /** The positions of the tabs whose key is missing from `snapshot`. */
  function Missing(snapshot: Cache, title: string, tabs: seq<GuideIndex.Tab>): set<int> {
    set i | 0 <= i < |tabs| && Key(title, tabs[i].index) !in snapshot
  }

  /** The number of section requests the prefetch issues: one per tab whose
      key was missing from `snapshot`, duplicates included. */
  function Requests(snapshot: Cache, title: string, tabs: seq<GuideIndex.Tab>): (n: nat)
    ensures n == |Missing(snapshot, title, tabs)|
    ensures n <= |tabs|
    ensures n == 0 <==> forall i :: 0 <= i < |tabs| ==> Key(title, tabs[i].index) in snapshot
  {
    if |tabs| == 0 then 0
    else
      var last := |tabs| - 1;
      var init := tabs[..last];
      var miss := Key(title, tabs[last].index) !in snapshot;
      assert forall i :: 0 <= i < last ==> init[i] == tabs[i];
      assert Missing(snapshot, title, tabs) == Missing(snapshot, title, init) + (if miss then {last} else {});
      assert last !in Missing(snapshot, title, init);
      (if miss then 1 else 0) + Requests(snapshot, title, init)
  }

  /** `Promise.all(tabs.map(...))`: every closure checks the cache before its
      first await, so all of them see `snapshot`, the cache as it was when the
      prefetch began, and tabs sharing a missing key are each fetched (the
      code coalesces nothing). The results keep tab order, and each tab's key
      ends up holding that tab's result. */
  function Prefetch(snapshot: Cache, env: Env, title: string, tabs: seq<GuideIndex.Tab>): (p: Prefetched)
    ensures |p.results| == |tabs|
    ensures forall i :: 0 <= i < |tabs| ==> p.results[i] == Get(snapshot, env, title, tabs[i].index).entry
    ensures forall i :: 0 <= i < |tabs| ==>
              Key(title, tabs[i].index) in p.cache && p.cache[Key(title, tabs[i].index)] == p.results[i]
    ensures forall k :: k in snapshot ==> k in p.cache && p.cache[k] == snapshot[k]
    ensures forall k :: k in p.cache ==>
              k in snapshot || exists i :: 0 <= i < |tabs| && k == Key(title, tabs[i].index)
    ensures p.fetches == |Missing(snapshot, title, tabs)| && p.fetches <= |tabs|
    ensures p.fetches == 0 <==> forall i :: 0 <= i < |tabs| ==> Key(title, tabs[i].index) in snapshot
  {
    var results := seq(|tabs|, i requires 0 <= i < |tabs| => Get(snapshot, env, title, tabs[i].index).entry);
    StoredHolds(snapshot, env, title, tabs);
    StoredFrame(snapshot, env, title, tabs);
    Prefetched(results, Stored(snapshot, env, title, tabs), Requests(snapshot, title, tabs))
  }

  /** Prefetching into a cache that holds every tab's key issues no request
      and changes nothing. */
  lemma WarmPrefetchIsFree(snapshot: Cache, env: Env, title: string, tabs: seq<GuideIndex.Tab>)
    requires forall i :: 0 <= i < |tabs| ==> Key(title, tabs[i].index) in snapshot
    ensures Prefetch(snapshot, env, title, tabs).fetches == 0
    ensures Prefetch(snapshot, env, title, tabs).cache == snapshot
  {
    var p := Prefetch(snapshot, env, title, tabs);
    forall k | k in p.cache
      ensures k in snapshot
    {
    }
  }

  /** No single flight: two tabs on the same missing section issue two
      requests, although only one key is added. */
  lemma NoSingleFlight(env: Env, title: string, index: int)
    ensures var p := Prefetch(map[], env, title, [GuideIndex.Tab("See", index), GuideIndex.Tab("Do", index)]);
            p.fetches == 2 && p.cache.Keys == {Key(title, index)}
  {
    var tabs := [GuideIndex.Tab("See", index), GuideIndex.Tab("Do", index)];
    TwoMissesTwoRequests(title, tabs);
    SharedIndexOneKey(env, title, tabs);
    assert Prefetch(map[], env, title, tabs).cache == Stored(map[], env, title, tabs);
  }

  lemma TwoMissesTwoRequests(title: string, tabs: seq<GuideIndex.Tab>)
    requires |tabs| == 2
    ensures Requests(map[], title, tabs) == 2
  {
    assert Missing(map[], title, tabs) == {0, 1};
  }

  lemma SharedIndexOneKey(env: Env, title: string, tabs: seq<GuideIndex.Tab>)
    requires |tabs| == 2 && tabs[0].index == tabs[1].index
    ensures Stored(map[], env, title, tabs).Keys == {Key(title, tabs[0].index)}
  {
    var key := Key(title, tabs[0].index);
    assert tabs[1..][1..] == [];
    assert Stored(map[], env, title, tabs[1..]).Keys == {key};
  }

  /** A prefetch keeps a coherent cache coherent. */
  lemma PrefetchKeepsCoherent(snapshot: Cache, env: Env, title: string, tabs: seq<GuideIndex.Tab>)
    requires Coherent(snapshot, env)
    ensures Coherent(Prefetch(snapshot, env, title, tabs).cache, env)
    ensures forall i :: 0 <= i < |tabs| ==>
              Prefetch(snapshot, env, title, tabs).results[i] == Load(env, title, tabs[i].index)
  {
    var p := Prefetch(snapshot, env, title, tabs);
    forall i | 0 <= i < |tabs|
      ensures p.results[i] == Load(env, title, tabs[i].index)
    {
      GetKeepsCoherent(snapshot, env, title, tabs[i].index);
    }
    forall k | k in p.cache
      ensures p.cache[k] == Load(env, k.title, k.index)
    {
      if k !in snapshot {
        var j :| 0 <= j < |tabs| && k == Key(title, tabs[j].index);
      }
    }
  }

  // ------------------------------------------------------------ display

  /** What the guide panel shows. */
  datatype View = Markup(nodes: seq<Node>) | Notice(text: string)

  /** The tree's `innerHTML` is the empty string: nothing but empty text. */
  predicate SerializesEmpty(ns: seq<Node>) {
    forall i :: 0 <= i < |ns| ==> ns[i] == Text("")
  }

  /** `first?.html || 'Section unavailable.'`: the first result, unless there
      is none or it serialises to the empty string. */
  function FirstView(results: seq<Entry>): (v: View)
    ensures v.Markup? <==> |results| > 0 && results[0].Sanitized? && !SerializesEmpty(results[0].nodes)
    ensures v.Markup? ==> v.nodes == results[0].nodes
    ensures v.Notice? ==> v.text == UnavailableText
  {
    if |results| > 0 && results[0].Sanitized? && !SerializesEmpty(results[0].nodes) then Markup(results[0].nodes)
    else Notice(UnavailableText)
  }

  /** A tab click shows the stored value as it is, even when it serialises
      to nothing. */
  function ClickView(e: Entry): (v: View)
    ensures v.Notice? <==> e.Unavailable?
    ensures v.Notice? ==> v.text == UnavailableText
    ensures v.Markup? ==> v.nodes == e.nodes
  {
    match e
    case Sanitized(ns) => Markup(ns)
    case Unavailable => Notice(UnavailableText)
  }

  /** A section that sanitises to nothing is shown as the sentinel when it is
      the first tab after prefetch, but as an empty panel when clicked. */
  lemma EmptySectionShownTwoWays()
    ensures FirstView([Sanitized([Text("")])]) == Notice(UnavailableText)
    ensures ClickView(Sanitized([Text("")])) == Markup([Text("")])
  {
  }

  /** The outcome of opening a destination's guide. */
  datatype Render =
    | NotAvailable(cache: Cache)
    | Rendered(tabs: seq<GuideIndex.Tab>, view: View, cache: Cache, fetches: nat)

  /** `renderWikivoyageGuide` once `ResolveGuide` has turned the outline into
      `guide`: with no tabs the cache is untouched; otherwise every tab is
      prefetched, the first is shown, and afterwards clicking any tab is a hit. */
  function RenderGuide(cache: Cache, env: Env, title: string, guide: GuideIndex.Guide): (r: Render)
    ensures r.NotAvailable? <==> guide.GuideNotAvailable? || guide.tabs == []
    ensures r.NotAvailable? ==> r.cache == cache
    ensures r.Rendered? ==> r.tabs == guide.tabs && r.tabs != []
    ensures r.Rendered? ==> r.view == FirstView([Get(cache, env, title, r.tabs[0].index).entry])
    ensures r.Rendered? ==> forall t :: t in r.tabs ==> !Get(r.cache, env, title, t.index).fetched
    ensures forall k :: k in cache ==> k in r.cache && r.cache[k] == cache[k]
    ensures r.Rendered? ==>
              && r.cache == Prefetch(cache, env, title, r.tabs).cache
              && r.fetches == Prefetch(cache, env, title, r.tabs).fetches
              && r.fetches == |Missing(cache, title, r.tabs)|
  {
    if guide.GuideNotAvailable? || guide.tabs == [] then NotAvailable(cache)
    else
      var tabs := guide.tabs;
      var p := Prefetch(cache, env, title, tabs);
      PrefetchShowsFirst(cache, env, title, tabs);
      Rendered(tabs, FirstView(p.results), p.cache, p.fetches)
  }

  /** After the prefetch, the first view is that of the first tab's lookup,
      and every tab's key is cached. */
  lemma PrefetchShowsFirst(cache: Cache, env: Env, title: string, tabs: seq<GuideIndex.Tab>)
    requires tabs != []
    ensures var p := Prefetch(cache, env, title, tabs);
            && FirstView(p.results) == FirstView([Get(cache, env, title, tabs[0].index).entry])
            && forall t :: t in tabs ==> Key(title, t.index) in p.cache
  {
    var p := Prefetch(cache, env, title, tabs);
    assert FirstView(p.results) == FirstView([p.results[0]]);
    forall t | t in tabs
      ensures Key(title, t.index) in p.cache
    {
      var i :| 0 <= i < |tabs| && tabs[i] == t;
    }
  }
}
