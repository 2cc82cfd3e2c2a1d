/** scripts/game_pipeline.py: classify source URLs, fetch at most three of
    them into the per-game cache, turn the cached pages into bounded clean
    text, and lay out research-log entries.

    The network, the HTML-to-text extractor, the URL parser and the clock
    are parameters; the SQLite cache is a map from game name to the pages
    stored for it, keyed by URL as its primary key is. */
module Pipeline {
  import opened Text

  const MAX_URLS_PER_GAME: nat := 3
  const MAX_CHARS: nat := 3000

  // ------------------------------------------------------------ classify_url

  /** The publisher patterns; each regex is a literal text once `\.` is read as `.`. */
  const PUBLISHER_PATTERNS: seq<string> := [
    "zmangames.com", "plaidhatgames.com", "stonemaiergames.com", "fantasyflightgames.com",
    "alderac.com", "pandasaurusgames.com", "capstone-games.com", "boardgamestables.com",
    "nextmovegames.com", "cogitogames.com", "looneylabs.com", "spacecowboys.fr",
    "iello.fr", "aportagames.com", "ravensburger.com", "hasbro.com", "asmodee.",
    "daysofwonder.com"]

  const STORE_PATTERNS: seq<string> := [
    "amazon.", "miniaturemarket.com", "coolstuffinc.com", "cardhaus.com",
    "boardgamesdirect.", "funagain.com", "gamewright.com", "cardboardrepublic.com"]

  const REVIEW_PATTERNS: seq<string> := [
    "dicetower.", "shutupandsitdown.com", "boardgamequest.com", "geek-pride.",
    "meeplelikeus.co", "reviewcorner.", "wikipedia.org", "reddit.com"]

  /** Some pattern of the group occurs in `s`, tried in list order. */
  function MatchesAny(patterns: seq<string>, s: string): (r: bool)
    ensures r <==> exists k :: 0 <= k < |patterns| && Contains(s, patterns[k])
  {
    if patterns == [] then false
    else if Contains(s, patterns[0]) then true
    else
      var rest := MatchesAny(patterns[1..], s);
      assert forall k :: 0 < k < |patterns| ==> patterns[k] == patterns[1..][k - 1];
      rest
  }

  /** `classify_url`: the first group with a pattern in the lower-cased URL. */
  function ClassifyUrl(url: string): (r: string)
    ensures r == "publisher" || r == "store" || r == "review" || r == "other"
    ensures r == "publisher" <==> exists k :: 0 <= k < |PUBLISHER_PATTERNS| && Contains(Lower(url), PUBLISHER_PATTERNS[k])
    ensures r == "store" <==>
      (forall k :: 0 <= k < |PUBLISHER_PATTERNS| ==> !Contains(Lower(url), PUBLISHER_PATTERNS[k]))
      && exists k :: 0 <= k < |STORE_PATTERNS| && Contains(Lower(url), STORE_PATTERNS[k])
    ensures r == "review" <==>
      (forall k :: 0 <= k < |PUBLISHER_PATTERNS| ==> !Contains(Lower(url), PUBLISHER_PATTERNS[k]))
      && (forall k :: 0 <= k < |STORE_PATTERNS| ==> !Contains(Lower(url), STORE_PATTERNS[k]))
      && exists k :: 0 <= k < |REVIEW_PATTERNS| && Contains(Lower(url), REVIEW_PATTERNS[k])
    ensures r == "other" <==>
      (forall k :: 0 <= k < |PUBLISHER_PATTERNS| ==> !Contains(Lower(url), PUBLISHER_PATTERNS[k]))
      && (forall k :: 0 <= k < |STORE_PATTERNS| ==> !Contains(Lower(url), STORE_PATTERNS[k]))
      && (forall k :: 0 <= k < |REVIEW_PATTERNS| ==> !Contains(Lower(url), REVIEW_PATTERNS[k]))
  {
    var lower := Lower(url);
    if MatchesAny(PUBLISHER_PATTERNS, lower) then "publisher"
    else if MatchesAny(STORE_PATTERNS, lower) then "store"
    else if MatchesAny(REVIEW_PATTERNS, lower) then "review"
    else "other"
  }

  /** Case does not matter: a URL and its lower-cased form are classified alike. */
  lemma ClassifyIgnoresCase(url: string)
    ensures ClassifyUrl(Lower(url)) == ClassifyUrl(url)
  {
    LowerIdempotent(url);
  }

  lemma LowerIdempotent(s: string)
    ensures Lower(Lower(s)) == Lower(s)
  {
    forall i | 0 <= i < |s| ensures Lower(Lower(s))[i] == Lower(s)[i] {
      assert LowerChar(LowerChar(s[i])) == LowerChar(s[i]);
    }
  }

  // ----------------------------------------------------------- phase1_fetch

  /** A cached page: its type and its HTML. */
  datatype Stored = Stored(sourceType: string, html: string)

  /** `if html:` — a fetch that failed or returned an empty body stores nothing. */
  predicate Usable(response: Option<string>) { response.Some? && response.value != "" }

  /** `urls[:MAX_URLS_PER_GAME]` */
  function Capped(urls: seq<string>): (r: seq<string>)
    ensures |r| <= MAX_URLS_PER_GAME && |r| <= |urls| && r == urls[..|r|]
    ensures |urls| >= MAX_URLS_PER_GAME ==> |r| == MAX_URLS_PER_GAME
  {
    if |urls| <= MAX_URLS_PER_GAME then urls else urls[..MAX_URLS_PER_GAME]
  }

  /** A `game_sources` key: the game's name (its `games` row stands for its
      id) and the page's URL. */
  type Key = (string, string)

  /** The pages after storing each usable response for game `name` in turn;
      a URL stored twice keeps the later page (`INSERT OR REPLACE`). */
  ghost function Stores(pages: map<Key, Stored>, name: string, urls: seq<string>, responses: seq<Option<string>>): map<Key, Stored>
    requires |responses| == |urls|
  {
    if urls == [] then pages
    else
      var n := |urls| - 1;
      var before := Stores(pages, name, urls[..n], responses[..n]);
      if Usable(responses[n]) then before[(name, urls[n]) := Stored(ClassifyUrl(urls[n]), responses[n].value)] else before
  }

  lemma StoresSnoc(pages: map<Key, Stored>, name: string, urls: seq<string>, responses: seq<Option<string>>, i: nat)
    requires |responses| == |urls| && i < |urls|
    ensures Stores(pages, name, urls[..i + 1], responses[..i + 1]) ==
      var before := Stores(pages, name, urls[..i], responses[..i]);
      if Usable(responses[i]) then before[(name, urls[i]) := Stored(ClassifyUrl(urls[i]), responses[i].value)] else before
  {
    assert urls[..i + 1][..i] == urls[..i];
    assert responses[..i + 1][..i] == responses[..i];
  }

  /** A key has a page iff it had one or it is the game's and one of the
      URL's fetches was usable. */
  lemma {:induction false} StoresKeys(pages: map<Key, Stored>, name: string, urls: seq<string>,
                                      responses: seq<Option<string>>, k: Key)
    requires |responses| == |urls|
    ensures k in Stores(pages, name, urls, responses) <==>
      k in pages || (k.0 == name && exists i :: 0 <= i < |urls| && urls[i] == k.1 && Usable(responses[i]))
    decreases |urls|
  {
    if urls != [] {
      var n := |urls| - 1;
      StoresKeys(pages, name, urls[..n], responses[..n], k);
      if k.0 == name && exists i :: 0 <= i < n && urls[..n][i] == k.1 && Usable(responses[..n][i]) {
        var i :| 0 <= i < n && urls[..n][i] == k.1 && Usable(responses[..n][i]);
        assert urls[i] == k.1 && Usable(responses[i]);
      }
      if k.0 == name && exists i :: 0 <= i < |urls| && urls[i] == k.1 && Usable(responses[i]) {
        var i :| 0 <= i < |urls| && urls[i] == k.1 && Usable(responses[i]);
        if i < n {
          assert urls[..n][i] == k.1 && Usable(responses[..n][i]);
        }
      }
    }
  }

  /** A page that changed is the game's, holds the URL's class and has a
      non-empty body. */
  lemma {:induction false} StoresChanged(pages: map<Key, Stored>, name: string, urls: seq<string>,
                                         responses: seq<Option<string>>, k: Key)
    requires |responses| == |urls|
    requires k in Stores(pages, name, urls, responses) && !(k in pages && Stores(pages, name, urls, responses)[k] == pages[k])
    ensures k.0 == name && Stores(pages, name, urls, responses)[k].sourceType == ClassifyUrl(k.1)
      && Stores(pages, name, urls, responses)[k].html != ""
    decreases |urls|
  {
    var n := |urls| - 1;
    var before := Stores(pages, name, urls[..n], responses[..n]);
    if !(Usable(responses[n]) && k == (name, urls[n])) {
      StoresChanged(pages, name, urls[..n], responses[..n], k);
    }
  }

  /** Storing keeps every key and adds at most one per URL tried. */
  lemma {:induction false} StoresGrowth(pages: map<Key, Stored>, name: string, urls: seq<string>, responses: seq<Option<string>>)
    requires |responses| == |urls|
    ensures pages.Keys <= Stores(pages, name, urls, responses).Keys
    ensures |Stores(pages, name, urls, responses).Keys| <= |pages.Keys| + |urls|
    decreases |urls|
  {
    if urls != [] {
      var n := |urls| - 1;
      var before := Stores(pages, name, urls[..n], responses[..n]);
      StoresGrowth(pages, name, urls[..n], responses[..n]);
      if Usable(responses[n]) {
        assert before[(name, urls[n]) := Stored(ClassifyUrl(urls[n]), responses[n].value)].Keys == before.Keys + {(name, urls[n])};
      }
    }
  }

  /** Pages of other games, and of URLs not tried, are left as they were. */
  lemma {:induction false} StoresUntouched(pages: map<Key, Stored>, name: string, urls: seq<string>,
                                           responses: seq<Option<string>>, k: Key)
    requires |responses| == |urls| && k in pages && (k.0 != name || k.1 !in urls)
    ensures k in Stores(pages, name, urls, responses) && Stores(pages, name, urls, responses)[k] == pages[k]
    decreases |urls|
  {
    if urls != [] {
      var n := |urls| - 1;
      assert k.1 in urls[..n] ==> k.1 in urls;
      StoresUntouched(pages, name, urls[..n], responses[..n], k);
    }
  }

  /** The page cache: the games that have a row, and the stored pages. */
  class Cache {
    var games: set<string>
    var pages: map<Key, Stored>

    constructor ()
      ensures games == {} && pages == map[]
    {
      games := {};
      pages := map[];
    }

    /** `phase1_fetch`: the game gets a row, and each of the first three URLs
        is classified and fetched; `responses` gives the outcome of each
        fetch in turn, `None` for a failed request. */
    method Phase1Fetch(name: string, urls: seq<string>, responses: seq<Option<string>>)
      requires |responses| == |Capped(urls)|
      modifies this
      ensures games == old(games) + {name}
      ensures pages == Stores(old(pages), name, Capped(urls), responses)
    {
      games := games + {name};
      ghost var start := pages;
      var capped := Capped(urls);
      for i := 0 to |capped|
        invariant games == old(games) + {name}
        invariant pages == Stores(start, name, capped[..i], responses[..i])
      {
        StoresSnoc(start, name, capped, responses, i);
        var url := capped[i];
        var sourceType := ClassifyUrl(url);
        var html := responses[i];
        if html.Some? && html.value != "" {
          pages := pages[(name, url) := Stored(sourceType, html.value)];
        }
      }
      assert capped[..|capped|] == capped && responses[..|responses|] == responses;
    }
  }

  /** A fetch run adds at most three pages, each the game's, for one of the
      first three URLs, classified, and with a non-empty body; every other
      page is untouched. */
  lemma FetchBounded(pages: map<Key, Stored>, name: string, urls: seq<string>, responses: seq<Option<string>>)
    requires |responses| == |Capped(urls)|
    ensures |Stores(pages, name, Capped(urls), responses).Keys| <= |pages.Keys| + MAX_URLS_PER_GAME
    ensures forall k :: k in Stores(pages, name, Capped(urls), responses) && k !in pages ==>
      k.0 == name && k.1 in urls[..|Capped(urls)|]
      && Stores(pages, name, Capped(urls), responses)[k].sourceType == ClassifyUrl(k.1)
      && Stores(pages, name, Capped(urls), responses)[k].html != ""
    ensures forall k :: k in pages && (k.0 != name || k.1 !in Capped(urls)) ==>
      k in Stores(pages, name, Capped(urls), responses) && Stores(pages, name, Capped(urls), responses)[k] == pages[k]
  {
    var capped := Capped(urls);
    StoresGrowth(pages, name, capped, responses);
    forall k | k in Stores(pages, name, capped, responses) && k !in pages
      ensures k.0 == name && k.1 in urls[..|capped|] && Stores(pages, name, capped, responses)[k].sourceType == ClassifyUrl(k.1)
        && Stores(pages, name, capped, responses)[k].html != ""
    {
      StoresKeys(pages, name, capped, responses, k);
      StoresChanged(pages, name, capped, responses, k);
    }
    forall k | k in pages && (k.0 != name || k.1 !in capped)
      ensures k in Stores(pages, name, capped, responses) && Stores(pages, name, capped, responses)[k] == pages[k]
    {
      StoresUntouched(pages, name, capped, responses, k);
    }
  }

  // ----------------------------------------------------- extract_clean_text

  /** A `game_sources` row as selected: URL, type and the nullable HTML. */
  datatype Row = Row(url: string, sourceType: string, html: Option<string>)

  /** One entry of the result's `sources` list. */
  datatype CleanSource = CleanSource(url: string, sourceType: string, text: string)

  /** `truncate_text`: the first MAX_CHARS characters. */
  function Truncate(text: string): (r: string)
    ensures |r| <= MAX_CHARS && |r| <= |text| && r == text[..|r|]
    ensures |text| <= MAX_CHARS ==> r == text
  {
    Take(text, MAX_CHARS)
  }

  /** What one row contributes: nothing without HTML or when the truncated
      text is blank, else its URL, type and truncated text. */
  function RowSource(row: Row, extract: (string, string) -> string): (r: Option<CleanSource>)
    ensures r.Some? <==> (row.html.Some? && row.html.value != ""
                         && Strip(Truncate(extract(row.html.value, row.url))) != [])
    ensures r.Some? ==> (r.value.url == row.url && r.value.sourceType == row.sourceType
                         && r.value.text == Truncate(extract(row.html.value, row.url)))
  {
    if row.html.None? || row.html.value == "" then None
    else
      var text := Truncate(extract(row.html.value, row.url));
      if Strip(text) == [] then None else Some(CleanSource(row.url, row.sourceType, text))
  }

  /** The values of the present options, in order. */
  function Somes<T>(os: seq<Option<T>>): seq<T> {
    if os == [] then []
    else
      var n := |os| - 1;
      Somes(os[..n]) + (if os[n].Some? then [os[n].value] else [])
  }

  lemma SomesSnoc<T>(os: seq<Option<T>>, o: Option<T>)
    ensures Somes(os + [o]) == Somes(os) + (if o.Some? then [o.value] else [])
  {
    assert (os + [o])[..|os|] == os;
  }

  /** At most one value per option. */
  lemma {:induction false} SomesLength<T>(os: seq<Option<T>>)
    ensures |Somes(os)| <= |os|
    decreases |os|
  {
    if os != [] {
      SomesLength(os[..|os| - 1]);
    }
  }

  /** A value is kept iff some option holds it. */
  lemma {:induction false} SomesMember<T>(os: seq<Option<T>>, x: T)
    ensures x in Somes(os) <==> exists i :: 0 <= i < |os| && os[i] == Some(x)
    decreases |os|
  {
    if os != [] {
      var n := |os| - 1;
      SomesMember(os[..n], x);
      if exists i :: 0 <= i < n && os[..n][i] == Some(x) {
        var i :| 0 <= i < n && os[..n][i] == Some(x);
        assert os[i] == Some(x);
      }
      if exists i :: 0 <= i < |os| && os[i] == Some(x) {
        var i :| 0 <= i < |os| && os[i] == Some(x);
        if i < n {
          assert os[..n][i] == Some(x);
        }
      }
    }
  }

  /** Each row's contribution, in row order. */
  function RowSources(rows: seq<Row>, extract: (string, string) -> string): (r: seq<Option<CleanSource>>)
    ensures |r| == |rows| && forall i :: 0 <= i < |rows| ==> r[i] == RowSource(rows[i], extract)
  {
    seq(|rows|, i requires 0 <= i < |rows| => RowSource(rows[i], extract))
  }

  /** The sources kept from `rows`, in row order; `extract` is
      `html_to_main_text(html, url)`. */
  function CleanSources(rows: seq<Row>, extract: (string, string) -> string): seq<CleanSource> {
    Somes(RowSources(rows, extract))
  }

  /** `extract_clean_text` over the game's rows; `None` is a game without a row. */
  method ExtractCleanText(rows: Option<seq<Row>>, extract: (string, string) -> string) returns (r: seq<CleanSource>)
    ensures r == if rows.None? then [] else CleanSources(rows.value, extract)
  {
    if rows.None? {
      return [];
    }
    var sources := rows.value;
    r := [];
    for i := 0 to |sources|
      invariant r == CleanSources(sources[..i], extract)
    {
      assert RowSources(sources[..i + 1], extract) == RowSources(sources[..i], extract) + [RowSource(sources[i], extract)];
      SomesSnoc(RowSources(sources[..i], extract), RowSource(sources[i], extract));
      var row := sources[i];
      if row.html.None? || row.html.value == "" {
        continue;
      }
      var text := Truncate(extract(row.html.value, row.url));
      if Strip(text) == [] {
        continue;
      }
      r := r + [CleanSource(row.url, row.sourceType, text)];
    }
    assert sources[..|sources|] == sources;
  }

  /** `s` is what `row`, having non-empty HTML, yields. */
  predicate Yields(row: Row, s: CleanSource, extract: (string, string) -> string) {
    row.url == s.url && row.sourceType == s.sourceType
    && row.html.Some? && row.html.value != "" && s.text == Truncate(extract(row.html.value, row.url))
  }

  /** `s` is what one of `rows` yields. */
  predicate FromRow(s: CleanSource, rows: seq<Row>, extract: (string, string) -> string) {
    exists i :: 0 <= i < |rows| && Yields(rows[i], s, extract)
  }

  /** `s` could have been emitted for `rows`: a non-blank text of at most
      MAX_CHARS characters, from one of the rows. */
  predicate Emittable(s: CleanSource, rows: seq<Row>, extract: (string, string) -> string) {
    |s.text| <= MAX_CHARS && Strip(s.text) != [] && FromRow(s, rows, extract)
  }

  /** At most one source per row. */
  lemma CleanSourcesLength(rows: seq<Row>, extract: (string, string) -> string)
    ensures |CleanSources(rows, extract)| <= |rows|
  {
    SomesLength(RowSources(rows, extract));
  }

  /** Every emitted text is non-blank and at most MAX_CHARS long, and comes
      from a row with the same URL and type and with non-empty HTML. */
  lemma CleanSourcesEmittable(rows: seq<Row>, extract: (string, string) -> string)
    ensures forall s :: s in CleanSources(rows, extract) ==> Emittable(s, rows, extract)
  {
    forall s | s in CleanSources(rows, extract) ensures Emittable(s, rows, extract) {
      SomesMember(RowSources(rows, extract), s);
      var i :| 0 <= i < |rows| && RowSources(rows, extract)[i] == Some(s);
      assert Yields(rows[i], s, extract);
    }
  }

  /** A row with non-empty HTML whose text is not blank is kept. */
  lemma CleanSourcesKeeps(rows: seq<Row>, extract: (string, string) -> string, i: int)
    requires 0 <= i < |rows| && RowSource(rows[i], extract).Some?
    ensures RowSource(rows[i], extract).value in CleanSources(rows, extract)
  {
    SomesMember(RowSources(rows, extract), RowSource(rows[i], extract).value);
  }

  /** The rows `get_sources` selects for game `name`: each of its pages,
      once, and nothing else. */
  predicate ListsPages(rows: seq<Row>, pages: map<Key, Stored>, name: string) {
    (forall i :: 0 <= i < |rows| ==>
      (name, rows[i].url) in pages
      && rows[i] == Row(rows[i].url, pages[(name, rows[i].url)].sourceType, Some(pages[(name, rows[i].url)].html)))
    && (forall i, j :: 0 <= i < j < |rows| ==> rows[i].url != rows[j].url)
    && (forall k :: k in pages && k.0 == name ==> exists i :: 0 <= i < |rows| && rows[i].url == k.1)
  }

  /** `process_game` for a game with no cached pages: at most three sources
      come back, each for one of the first three URLs, with its class and at
      most MAX_CHARS characters of non-blank text. */
  lemma ProcessGameBounded(pages: map<Key, Stored>, name: string, urls: seq<string>, responses: seq<Option<string>>,
                           rows: seq<Row>, extract: (string, string) -> string)
    requires |responses| == |Capped(urls)|
    requires forall k :: k in pages ==> k.0 != name
    requires ListsPages(rows, Stores(pages, name, Capped(urls), responses), name)
    ensures |CleanSources(rows, extract)| <= MAX_URLS_PER_GAME
    ensures forall s :: s in CleanSources(rows, extract) ==>
      s.url in urls[..|Capped(urls)|] && s.sourceType == ClassifyUrl(s.url) && 0 < |s.text| <= MAX_CHARS
  {
    var capped := Capped(urls);
    var after := Stores(pages, name, capped, responses);
    FetchBounded(pages, name, urls, responses);
    assert forall i :: 0 <= i < |rows| ==> rows[i].url in capped by {
      forall i | 0 <= i < |rows| ensures rows[i].url in capped {
        assert (name, rows[i].url) in after;
      }
    }
    DistinctWithin(rows, capped);
    CleanSourcesLength(rows, extract);
    CleanSourcesEmittable(rows, extract);
    forall s | s in CleanSources(rows, extract)
      ensures s.url in urls[..|capped|] && s.sourceType == ClassifyUrl(s.url) && 0 < |s.text| <= MAX_CHARS
    {
      assert Emittable(s, rows, extract);
      var i :| 0 <= i < |rows| && Yields(rows[i], s, extract);
      assert (name, rows[i].url) in after;
    }
  }

  /** Rows with distinct URLs, all among `urls`, number at most `|urls|`. */
  lemma {:induction false} DistinctWithin(rows: seq<Row>, urls: seq<string>)
    requires forall i :: 0 <= i < |rows| ==> rows[i].url in urls
    requires forall i, j :: 0 <= i < j < |rows| ==> rows[i].url != rows[j].url
    ensures |rows| <= |urls|
    decreases |rows|
  {
    if rows != [] {
      var n := |rows| - 1;
      var u := rows[n].url;
      var j :| 0 <= j < |urls| && urls[j] == u;
      var others := urls[..j] + urls[j + 1..];
      forall i | 0 <= i < n ensures rows[..n][i].url in others {
        assert rows[i].url != u;
        var m :| 0 <= m < |urls| && urls[m] == rows[i].url;
        if m < j {
          assert others[m] == urls[m];
        } else {
          assert others[m - 1] == urls[m];
        }
      }
      DistinctWithin(rows[..n], others);
    }
  }

  // ---------------------------------------------------- append_research_log

  const FALLBACK_DESCRIPTION := "Game information page"

  const SOURCE_TYPE_DESCRIPTIONS: map<string, string> := map[
    "publisher" := "Publisher product page",
    "store" := "Retailer product listing",
    "review" := "Review or reference article",
    "other" := FALLBACK_DESCRIPTION]

  /** `SOURCE_TYPE_DESCRIPTIONS.get(source_type, "Game information page")` */
  function Description(sourceType: string): string {
    if sourceType in SOURCE_TYPE_DESCRIPTIONS then SOURCE_TYPE_DESCRIPTIONS[sourceType] else FALLBACK_DESCRIPTION
  }

  /** An unknown type is described as "other" is; each known type has its own text. */
  lemma DescriptionFallback(sourceType: string)
    ensures sourceType !in {"publisher", "store", "review"} ==> Description(sourceType) == Description("other")
    ensures sourceType in {"publisher", "store", "review"} ==> Description(sourceType) != Description("other")
  {
  }

  /** The four lines of one source's entry; `today` is the ISO date and
      `netloc` the host part `urlparse` finds. */
  function Entry(today: string, slug: string, source: CleanSource, netloc: string -> string): (r: seq<string>)
    ensures |r| == 4
  {
    var domain := RemoveAll(netloc(source.url), "www.");
    ["  - timestamp: \"" + today + "T00:00:00Z\"",
     "    game_id: " + slug,
     "    url: \"" + source.url + "\"",
     "    description: \"" + Description(source.sourceType) + " \U{2014} " + domain + "\""]
  }

  function LogLines(today: string, slug: string, sources: seq<CleanSource>, netloc: string -> string): seq<string> {
    if sources == [] then []
    else LogLines(today, slug, sources[..|sources| - 1], netloc) + Entry(today, slug, sources[|sources| - 1], netloc)
  }

  /** The log of a concatenation is the concatenation of the logs. */
  lemma {:induction false} LogLinesAppend(today: string, slug: string, a: seq<CleanSource>, b: seq<CleanSource>,
                                          netloc: string -> string)
    ensures LogLines(today, slug, a + b, netloc) == LogLines(today, slug, a, netloc) + LogLines(today, slug, b, netloc)
    decreases |b|
  {
    if b != [] {
      var n := |b| - 1;
      assert (a + b)[..|a + b| - 1] == a + b[..n];
      assert (a + b)[|a + b| - 1] == b[n];
      LogLinesAppend(today, slug, a, b[..n], netloc);
    } else {
      assert a + b == a;
    }
  }

  /** Four lines per source. */
  lemma {:induction false} LogLinesLength(today: string, slug: string, sources: seq<CleanSource>, netloc: string -> string)
    ensures |LogLines(today, slug, sources, netloc)| == 4 * |sources|
    decreases |sources|
  {
    if sources != [] {
      LogLinesLength(today, slug, sources[..|sources| - 1], netloc);
    }
  }

  /** Source `i`'s entry follows the 4i lines of the sources before it and
      precedes those of the sources after it. */
  lemma LogLinesLayout(today: string, slug: string, sources: seq<CleanSource>, netloc: string -> string, i: nat)
    requires i < |sources|
    ensures LogLines(today, slug, sources, netloc) ==
      LogLines(today, slug, sources[..i], netloc) + Entry(today, slug, sources[i], netloc)
      + LogLines(today, slug, sources[i + 1..], netloc)
    ensures |LogLines(today, slug, sources[..i], netloc)| == 4 * i
  {
    assert sources == sources[..i] + [sources[i]] + sources[i + 1..];
    LogLinesAppend(today, slug, sources[..i] + [sources[i]], sources[i + 1..], netloc);
    LogLinesAppend(today, slug, sources[..i], [sources[i]], netloc);
    assert LogLines(today, slug, [sources[i]], netloc) == Entry(today, slug, sources[i], netloc) by {
      assert [sources[i]][..0] == [];
    }
    LogLinesLength(today, slug, sources[..i], netloc);
  }

  /** `append_research_log`: the text appended to the log file. */
  method AppendResearchLog(today: string, slug: string, sources: seq<CleanSource>, netloc: string -> string)
    returns (appended: string)
    ensures appended == Join(LogLines(today, slug, sources, netloc), "\n") + "\n"
  {
    var lines: seq<string> := [];
    for i := 0 to |sources|
      invariant lines == LogLines(today, slug, sources[..i], netloc)
    {
      assert sources[..i + 1][..i] == sources[..i];
      lines := lines + Entry(today, slug, sources[i], netloc);
    }
    assert sources[..|sources|] == sources;
    appended := Join(lines, "\n") + "\n";
  }
}
