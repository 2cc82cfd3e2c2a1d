/** scripts/image_manager.py: which games have a cover image in images/,
    per game and per publisher, and which image files match no game.

    An image belongs to a game when its file name is the game's expected
    base name, "<name> (<year>)", followed by one of four extensions. */
module ImageCoverage {
  import opened Text
  import opened Ordering

  /** The fields of a game file the image tool reads. `None` is an absent
      key; a present year is given in its printed form. */
  datatype GameEntry = GameEntry(name: Option<string>, year: Option<string>, publishers: seq<string>)

  /** The extensions, in the order images are looked up. */
  const EXTENSIONS: seq<string> := [".jpg", ".jpeg", ".png", ".webp"]

  // ---------------------------------------------------- get_existing_images

  /** The lower-cased file name ends in one of the extensions. */
  predicate HasImageExtension(fname: string) {
    var lower := Lower(fname);
    EndsWith(lower, ".jpg") || EndsWith(lower, ".jpeg") || EndsWith(lower, ".png") || EndsWith(lower, ".webp")
  }

  /** `get_existing_images` over the entries of images/. */
  method ExistingImages(listing: seq<string>) returns (images: set<string>)
    ensures forall f :: f in images <==> f in listing && HasImageExtension(f)
  {
    images := {};
    for i := 0 to |listing|
      invariant forall f :: f in images <==> f in listing[..i] && HasImageExtension(f)
    {
      assert listing[..i + 1] == listing[..i] + [listing[i]];
      if HasImageExtension(listing[i]) {
        images := images + {listing[i]};
      }
    }
    assert listing[..|listing|] == listing;
  }

  /** A name with an upper-case ".JPG" passes the filter. */
  lemma UpperCaseKept(stem: string)
    ensures HasImageExtension(stem + ".JPG")
  {
    LowerAppend(stem, ".JPG");
    assert Lower(".JPG") == ".jpg" by {
      assert Lower(".JPG")[1] == LowerChar('J');
    }
    var lower := Lower(stem + ".JPG");
    assert lower[|lower| - 4..] == ".jpg";
  }

  // -------------------------------------------- expected_filename, find_image

  function NameOf(g: GameEntry): string { if g.name.Some? then g.name.value else "" }

  function YearOf(g: GameEntry): string { if g.year.Some? then g.year.value else "" }

  /** `expected_filename`: the name, a space, and the year in parentheses;
      a missing field reads as "". */
  function ExpectedFilename(g: GameEntry): (r: string)
    ensures |r| == |NameOf(g)| + |YearOf(g)| + 3
    ensures StartsWith(r, NameOf(g)) && EndsWith(r, ")")
    ensures r[|NameOf(g)|..|NameOf(g)| + 2] == " ("
  {
    NameOf(g) + " (" + YearOf(g) + ")"
  }

  /** The expected name splits back into the game's name, " (", its year and ")". */
  lemma ExpectedFilenameParts(g: GameEntry)
    ensures var r := ExpectedFilename(g);
      r[..|NameOf(g)|] == NameOf(g) && r[|NameOf(g)|..|NameOf(g)| + 2] == " ("
      && r[|NameOf(g)| + 2..|r| - 1] == YearOf(g) && r[|r| - 1] == ')'
  {
    var r := ExpectedFilename(g);
    assert r == NameOf(g) + " (" + YearOf(g) + ")";
  }

  /** The first extension in `exts` whose variant of `base` exists. */
  function FirstPresent(base: string, images: set<string>, exts: seq<string>): Option<string> {
    if exts == [] then None
    else if base + exts[0] in images then Some(base + exts[0])
    else FirstPresent(base, images, exts[1..])
  }

  /** Every variant of `base` that exists, in extension order. */
  function Variants(base: string, images: set<string>, exts: seq<string>): (r: seq<string>)
    ensures forall f :: f in r <==> f in images && exists k :: 0 <= k < |exts| && f == base + exts[k]
  {
    if exts == [] then []
    else
      var rest := Variants(base, images, exts[1..]);
      assert forall k :: 0 <= k < |exts| - 1 ==> exts[1..][k] == exts[k + 1];
      if base + exts[0] in images then [base + exts[0]] + rest else rest
  }

  /** `find_image`. */
  method FindImage(g: GameEntry, images: set<string>) returns (r: Option<string>)
    ensures r == FirstPresent(ExpectedFilename(g), images, EXTENSIONS)
  {
    var base := ExpectedFilename(g);
    for k := 0 to |EXTENSIONS|
      invariant FirstPresent(base, images, EXTENSIONS) == FirstPresent(base, images, EXTENSIONS[k..])
    {
      assert EXTENSIONS[k..][1..] == EXTENSIONS[k + 1..];
      if base + EXTENSIONS[k] in images {
        return Some(base + EXTENSIONS[k]);
      }
    }
    return None;
  }

  /** The image found is the first existing variant, and there is one iff
      some variant exists. */
  lemma {:induction false} FoundIsFirstVariant(base: string, images: set<string>, exts: seq<string>)
    ensures FirstPresent(base, images, exts) ==
      (if Variants(base, images, exts) == [] then None else Some(Variants(base, images, exts)[0]))
    decreases |exts|
  {
    if exts != [] {
      FoundIsFirstVariant(base, images, exts[1..]);
    }
  }

  /** What is found exists, and is the base followed by an extension, so a
      file whose extension is not in lower case is never found. */
  lemma {:induction false} FoundHasExtension(base: string, images: set<string>, exts: seq<string>)
    ensures var r := FirstPresent(base, images, exts);
      r.Some? ==> r.value in images && exists k :: 0 <= k < |exts| && r.value == base + exts[k]
    decreases |exts|
  {
    if exts != [] && base + exts[0] !in images {
      FoundHasExtension(base, images, exts[1..]);
      var r := FirstPresent(base, images, exts[1..]);
      if r.Some? {
        var k :| 0 <= k < |exts| - 1 && r.value == base + exts[1..][k];
        assert r.value == base + exts[k + 1];
      }
    }
  }

  function HasImage(g: GameEntry, images: set<string>): bool {
    FirstPresent(ExpectedFilename(g), images, EXTENSIONS).Some?
  }

  // ------------------------------------------------------------ cmd_progress

  /** The games with an image. */
  function WithImage(games: seq<GameEntry>, images: set<string>): (r: seq<GameEntry>)
    ensures |r| <= |games|
  {
    if games == [] then []
    else WithImage(games[..|games| - 1], images) + (if HasImage(games[|games| - 1], images) then [games[|games| - 1]] else [])
  }

  /** The games without an image, in game order. */
  function WithoutImage(games: seq<GameEntry>, images: set<string>): (r: seq<GameEntry>)
    ensures |r| <= |games|
  {
    if games == [] then []
    else WithoutImage(games[..|games| - 1], images) + (if HasImage(games[|games| - 1], images) then [] else [games[|games| - 1]])
  }

  /** Every game is counted once, as having an image or as missing one. */
  lemma {:induction false} HaveMissingPartition(games: seq<GameEntry>, images: set<string>)
    ensures |WithImage(games, images)| + |WithoutImage(games, images)| == |games|
    ensures forall g :: g in WithoutImage(games, images) <==> g in games && !HasImage(g, images)
    decreases |games|
  {
    if games != [] {
      var pre := games[..|games| - 1];
      HaveMissingPartition(pre, images);
      assert games == pre + [games[|games| - 1]];
    }
  }

  lemma SplitSnoc(games: seq<GameEntry>, i: nat, images: set<string>)
    requires i < |games|
    ensures |WithImage(games[..i + 1], images)| ==
      |WithImage(games[..i], images)| + if HasImage(games[i], images) then 1 else 0
    ensures |WithoutImage(games[..i + 1], images)| ==
      |WithoutImage(games[..i], images)| + if HasImage(games[i], images) then 0 else 1
  {
    assert games[..i + 1][..i] == games[..i];
  }

  /** The overall counts of `cmd_progress`. */
  method OverallCounts(games: seq<GameEntry>, images: set<string>) returns (have: int, missing: int)
    ensures have == |WithImage(games, images)| && missing == |WithoutImage(games, images)|
    ensures have + missing == |games|
  {
    have, missing := 0, 0;
    for i := 0 to |games|
      invariant have == |WithImage(games[..i], images)| && missing == |WithoutImage(games[..i], images)|
    {
      var found := FindImage(games[i], images);
      if found.Some? {
        have := have + 1;
      } else {
        missing := missing + 1;
      }
      assert have == |WithImage(games[..i + 1], images)| && missing == |WithoutImage(games[..i + 1], images)| by {
        SplitSnoc(games, i, images);
        assert found.Some? == HasImage(games[i], images);
      }
    }
    assert games[..|games|] == games;
    assert have + missing == |games| by {
      HaveMissingPartition(games, images);
    }
  }

  /** One occurrence of a publisher in a game's publisher list, with whether
      that game has an image. */
  datatype Occurrence = Occurrence(publisher: string, found: bool)

  function Pairs(publishers: seq<string>, found: bool): (r: seq<Occurrence>)
    ensures |r| == |publishers|
    ensures forall j :: 0 <= j < |r| ==> r[j] == Occurrence(publishers[j], found)
  {
    if publishers == [] then []
    else Pairs(publishers[..|publishers| - 1], found) + [Occurrence(publishers[|publishers| - 1], found)]
  }

  /** Every (game, publisher entry) occurrence, in game order. */
  function Occurrences(games: seq<GameEntry>, images: set<string>): seq<Occurrence> {
    if games == [] then []
    else
      var g := games[|games| - 1];
      Occurrences(games[..|games| - 1], images) + Pairs(g.publishers, HasImage(g, images))
  }

  datatype Stat = Stat(have: nat, missing: nat)

  /** `pub_stats`: publishers in first-seen order, and the counts of each. */
  datatype Tally = Tally(order: seq<string>, stats: map<string, Stat>)

  function Bump(s: Stat, found: bool): Stat {
    if found then s.(have := s.have + 1) else s.(missing := s.missing + 1)
  }

  ghost function Tallied(occs: seq<Occurrence>): Tally {
    if occs == [] then Tally([], map[])
    else
      var t := Tallied(occs[..|occs| - 1]);
      var o := occs[|occs| - 1];
      var s := if o.publisher in t.stats then t.stats[o.publisher] else Stat(0, 0);
      Tally(if o.publisher in t.stats then t.order else t.order + [o.publisher],
            t.stats[o.publisher := Bump(s, o.found)])
  }

  lemma TalliedSnoc(occs: seq<Occurrence>, o: Occurrence)
    ensures Tallied(occs + [o]) ==
      var t := Tallied(occs);
      var s := if o.publisher in t.stats then t.stats[o.publisher] else Stat(0, 0);
      Tally(if o.publisher in t.stats then t.order else t.order + [o.publisher],
            t.stats[o.publisher := Bump(s, o.found)])
  {
    assert (occs + [o])[..|occs|] == occs;
  }

  lemma TallyStep(occs: seq<Occurrence>, o: Occurrence, t: Tally, t': Tally)
    requires t == Tallied(occs)
    requires t' == Tally(if o.publisher in t.stats then t.order else t.order + [o.publisher],
      t.stats[o.publisher := Bump(if o.publisher in t.stats then t.stats[o.publisher] else Stat(0, 0), o.found)])
    ensures t' == Tallied(occs + [o])
  {
    TalliedSnoc(occs, o);
  }

  /** How many occurrences name `p`, and with the given image status. */
  function CountOf(occs: seq<Occurrence>, p: string, found: bool): nat {
    if occs == [] then 0
    else CountOf(occs[..|occs| - 1], p, found) + (if occs[|occs| - 1] == Occurrence(p, found) then 1 else 0)
  }

  function CountNaming(occs: seq<Occurrence>, p: string): nat {
    if occs == [] then 0
    else CountNaming(occs[..|occs| - 1], p) + (if occs[|occs| - 1].publisher == p then 1 else 0)
  }

  /** A publisher has an entry iff some occurrence names it; its counts are
      the occurrences with and without an image, and they add up to all the
      occurrences naming it. The order lists each publisher once. */
  lemma {:induction false} TallyCounts(occs: seq<Occurrence>, p: string)
    ensures var t := Tallied(occs);
      (p in t.stats <==> CountNaming(occs, p) > 0)
      && (p in t.stats ==> t.stats[p] == Stat(CountOf(occs, p, true), CountOf(occs, p, false)))
      && CountOf(occs, p, true) + CountOf(occs, p, false) == CountNaming(occs, p)
      && (p in t.stats <==> p in t.order)
    decreases |occs|
  {
    if occs != [] {
      TallyCounts(occs[..|occs| - 1], p);
    }
  }

  lemma {:induction false} TallyOrderDistinct(occs: seq<Occurrence>)
    ensures var t := Tallied(occs);
      forall i, j :: 0 <= i < j < |t.order| ==> t.order[i] != t.order[j]
    decreases |occs|
  {
    if occs != [] {
      var pre := occs[..|occs| - 1];
      TallyOrderDistinct(pre);
      TallyCounts(pre, occs[|occs| - 1].publisher);
    }
  }

  /** The per-publisher loop of `cmd_progress`. */
  method PublisherStats(games: seq<GameEntry>, images: set<string>) returns (t: Tally)
    ensures t == Tallied(Occurrences(games, images))
  {
    t := Tally([], map[]);
    for i := 0 to |games|
      invariant t == Tallied(Occurrences(games[..i], images))
    {
      assert games[..i + 1][..i] == games[..i];
      t := CountGame(Occurrences(games[..i], images), t, games[i], images);
    }
    assert games[..|games|] == games;
  }

  /** The inner loop: each publisher entry of one game is counted. */
  method CountGame(ghost before: seq<Occurrence>, t0: Tally, g: GameEntry, images: set<string>) returns (t: Tally)
    requires t0 == Tallied(before)
    ensures t == Tallied(before + Pairs(g.publishers, HasImage(g, images)))
  {
    t := t0;
    ghost var found := HasImage(g, images);
    assert before + Pairs(g.publishers[..0], found) == before;
    for j := 0 to |g.publishers|
      invariant t == Tallied(before + Pairs(g.publishers[..j], found))
    {
      var pub := g.publishers[j];
      var image := FindImage(g, images);
      assert image.Some? == found;
      ghost var occs := before + Pairs(g.publishers[..j], found);
      var s0 := if pub in t.stats then t.stats[pub] else Stat(0, 0);
      var order := if pub in t.stats then t.order else t.order + [pub];
      var s := Bump(s0, image.Some?);
      TallyStep(occs, Occurrence(pub, found), t, Tally(order, t.stats[pub := s]));
      t := Tally(order, t.stats[pub := s]);
      PairsSnoc(before, g.publishers, j, found);
    }
    assert g.publishers[..|g.publishers|] == g.publishers;
  }

  lemma PairsSnoc(before: seq<Occurrence>, publishers: seq<string>, j: nat, found: bool)
    requires j < |publishers|
    ensures before + Pairs(publishers[..j + 1], found)
      == (before + Pairs(publishers[..j], found)) + [Occurrence(publishers[j], found)]
  {
    assert publishers[..j + 1][..j] == publishers[..j];
  }

  datatype PublisherRow = PublisherRow(publisher: string, stat: Stat)

  function Rows(t: Tally): (r: seq<PublisherRow>)
    requires forall p :: p in t.order ==> p in t.stats
    ensures |r| == |t.order|
    ensures forall i :: 0 <= i < |r| ==> r[i] == PublisherRow(t.order[i], t.stats[t.order[i]])
    decreases |t.order|
  {
    if t.order == [] then []
    else Rows(t.(order := t.order[..|t.order| - 1])) + [PublisherRow(t.order[|t.order| - 1], t.stats[t.order[|t.order| - 1]])]
  }

  /** `key=lambda x: x[1]["missing"], reverse=True`: a stable sort on the
      negated count orders the same way. */
  function MostMissing(r: PublisherRow): SortKey { SortKey(-(r.stat.missing as int), "") }

  const TOP_PUBLISHERS := 20

  /** `ranked[:20]`. */
  function TopPublishers(rows: seq<PublisherRow>): (r: seq<PublisherRow>)
    ensures |r| == if |rows| < TOP_PUBLISHERS then |rows| else TOP_PUBLISHERS
  {
    SortBy(rows, MostMissing)[..if |rows| < TOP_PUBLISHERS then |rows| else TOP_PUBLISHERS]
  }

  /** The table shows at most 20 publishers, most missing first, and no
      publisher left out misses more images than one shown. */
  lemma TopPublishersRanked(rows: seq<PublisherRow>)
    ensures forall i, j :: 0 <= i < j < |TopPublishers(rows)| ==>
      TopPublishers(rows)[i].stat.missing >= TopPublishers(rows)[j].stat.missing
    ensures multiset(TopPublishers(rows)) <= multiset(rows)
    ensures forall x, y :: x in TopPublishers(rows) && y in multiset(rows) - multiset(TopPublishers(rows)) ==>
      x.stat.missing >= y.stat.missing
  {
    var top := TopPublishers(rows);
    SortedPrefix(rows, MostMissing, |top|);
    MostMissingOrder(top, multiset(rows) - multiset(top));
  }

  /** With `MostMissing` as the key, "not ranked before" is "misses at least as many". */
  lemma MostMissingOrder(top: seq<PublisherRow>, rest: multiset<PublisherRow>)
    requires SortedBy(top, MostMissing)
    requires forall x, y :: x in top && y in rest ==> !KeyLess(MostMissing(y), MostMissing(x))
    ensures forall i, j :: 0 <= i < j < |top| ==> top[i].stat.missing >= top[j].stat.missing
    ensures forall x, y :: x in top && y in rest ==> x.stat.missing >= y.stat.missing
  {
    assert !LexLess("", "");
  }

  // ------------------------------------------------------------- cmd_missing

  /** `key=lambda x: x.get("name", "")`. */
  function ByName(g: GameEntry): SortKey { SortKey(0, NameOf(g)) }

  /** `cmd_missing`: the games without an image, sorted by name. */
  method MissingGames(games: seq<GameEntry>, images: set<string>) returns (r: seq<GameEntry>)
    ensures r == SortBy(WithoutImage(games, images), ByName)
  {
    var missing: seq<GameEntry> := [];
    for i := 0 to |games|
      invariant missing == WithoutImage(games[..i], images)
    {
      assert games[..i + 1][..i] == games[..i];
      var found := FindImage(games[i], images);
      if found.None? {
        missing := missing + [games[i]];
      }
    }
    assert games[..|games|] == games;
    r := SortBy(missing, ByName);
  }

  /** The missing list is sorted by name, holds exactly the games without an
      image, and is as long as the missing count of `cmd_progress`. */
  lemma MissingListExact(games: seq<GameEntry>, images: set<string>)
    ensures SortedBy(SortBy(WithoutImage(games, images), ByName), ByName)
    ensures forall g :: g in SortBy(WithoutImage(games, images), ByName) <==> g in games && !HasImage(g, images)
    ensures multiset(SortBy(WithoutImage(games, images), ByName)) == multiset(WithoutImage(games, images))
    ensures |SortBy(WithoutImage(games, images), ByName)| == |games| - |WithImage(games, images)|
  {
    SortBySorted(WithoutImage(games, images), ByName);
    SortByPermutes(WithoutImage(games, images), ByName);
    HaveMissingPartition(games, images);
    forall g ensures g in SortBy(WithoutImage(games, images), ByName) <==> g in WithoutImage(games, images) {
      assert g in SortBy(WithoutImage(games, images), ByName) <==> g in multiset(SortBy(WithoutImage(games, images), ByName));
    }
  }

  // --------------------------------------------------------------- cmd_check

  /** `os.path.splitext(name)[0]` for a name without a directory part: the
      part before the last dot, unless only dots precede it. */
  function Root(name: string): (r: string)
    ensures |r| <= |name| && StartsWith(name, r)
  {
    var dot := LastIndexOf(name, '.');
    if dot.None? || forall i :: 0 <= i < dot.value ==> name[i] == '.' then name else name[..dot.value]
  }

  /** The root of a found image is the game's expected file name. */
  lemma RootOfVariant(g: GameEntry, k: nat)
    requires k < |EXTENSIONS|
    ensures Root(ExpectedFilename(g) + EXTENSIONS[k]) == ExpectedFilename(g)
  {
    var base := ExpectedFilename(g);
    var f := base + EXTENSIONS[k];
    var ext := EXTENSIONS[k];
    assert ext[0] == '.' && forall i :: 0 < i < |ext| ==> ext[i] != '.';
    var dot := LastIndexOf(f, '.');
    assert f[|base|] == '.';
    assert dot.Some? && dot.value == |base|;
    assert f[|base| - 1] == ')';
    assert f[..|base|] == base;
  }

  /** `expected_bases`. */
  method ExpectedBases(games: seq<GameEntry>) returns (bases: set<string>)
    ensures forall b :: b in bases <==> exists g :: g in games && ExpectedFilename(g) == b
  {
    bases := {};
    for i := 0 to |games|
      invariant forall b :: b in bases <==> exists g :: g in games[..i] && ExpectedFilename(g) == b
    {
      assert games[..i + 1] == games[..i] + [games[i]];
      bases := bases + {ExpectedFilename(games[i])};
    }
    assert games[..|games|] == games;
  }

  /** Strictly increasing in Python's string order. */
  predicate Increasing(s: seq<string>) {
    forall i, j :: 0 <= i < j < |s| ==> LexLess(s[i], s[j])
  }

  /** `sorted(existing_images)`. */
  method SortedNames(names: set<string>) returns (r: seq<string>)
    ensures Increasing(r)
    ensures forall f :: f in r <==> f in names
  {
    r := [];
    var rest := names;
    while rest != {}
      invariant rest <= names
      invariant Increasing(r)
      invariant forall f :: f in r <==> f in names && f !in rest
      invariant forall i, f :: 0 <= i < |r| && f in rest ==> LexLess(r[i], f)
      decreases |rest|
    {
      var least := LeastExists(rest);
      var f :| f in rest && forall y :: y in rest ==> !LexLess(y, f);
      forall y | y in rest - {f} ensures LexLess(f, y) {
        LexLessTotal(f, y);
      }
      r := r + [f];
      rest := rest - {f};
    }
  }

  /** The images reported as unmatched, in the order given. */
  function Unmatched(sorted: seq<string>, bases: set<string>): (r: seq<string>)
    ensures forall f :: f in r <==> f in sorted && Root(f) !in bases
  {
    if sorted == [] then []
    else
      var rest := Unmatched(sorted[1..], bases);
      assert forall f :: f in sorted <==> f == sorted[0] || f in sorted[1..];
      if Root(sorted[0]) !in bases then [sorted[0]] + rest else rest
  }

  lemma {:induction false} UnmatchedIncreasing(sorted: seq<string>, bases: set<string>)
    requires Increasing(sorted)
    ensures Increasing(Unmatched(sorted, bases))
    decreases |sorted|
  {
    if sorted != [] {
      var rest := Unmatched(sorted[1..], bases);
      UnmatchedIncreasing(sorted[1..], bases);
      forall f | f in rest ensures LexLess(sorted[0], f) {
        var j :| 0 <= j < |sorted| - 1 && sorted[1..][j] == f;
        assert sorted[j + 1] == f;
      }
    }
  }

  /** A game whose image exists under more than one extension, with those images. */
  datatype Duplicate = Duplicate(game: GameEntry, images: seq<string>)

  function Duplicates(games: seq<GameEntry>, images: set<string>): seq<Duplicate> {
    if games == [] then []
    else
      var g := games[|games| - 1];
      var matches := Variants(ExpectedFilename(g), images, EXTENSIONS);
      Duplicates(games[..|games| - 1], images) + (if |matches| > 1 then [Duplicate(g, matches)] else [])
  }

  /** A game is reported as a duplicate iff more than one variant of its
      expected name exists, with exactly those variants. */
  lemma {:induction false} DuplicatesExact(games: seq<GameEntry>, images: set<string>, d: Duplicate)
    ensures d in Duplicates(games, images) <==>
      d.game in games && d.images == Variants(ExpectedFilename(d.game), images, EXTENSIONS) && |d.images| > 1
    decreases |games|
  {
    if games != [] {
      var pre := games[..|games| - 1];
      DuplicatesExact(pre, images, d);
      assert games == pre + [games[|games| - 1]];
    }
  }

  /** The issues `cmd_check` reports. */
  datatype CheckReport = CheckReport(unmatched: seq<string>, duplicates: seq<Duplicate>) {
    /** "All images valid." is printed. */
    predicate Valid() { unmatched == [] && duplicates == [] }
  }

  /** The first loop of `cmd_check`, over the sorted image names. */
  method UnmatchedImages(sorted: seq<string>, bases: set<string>) returns (unmatched: seq<string>)
    ensures unmatched == Unmatched(sorted, bases)
  {
    unmatched := [];
    for i := 0 to |sorted|
      invariant unmatched + Unmatched(sorted[i..], bases) == Unmatched(sorted, bases)
    {
      assert sorted[i..][1..] == sorted[i + 1..];
      if Root(sorted[i]) !in bases {
        unmatched := unmatched + [sorted[i]];
      }
    }
  }

  /** The `matches` of one game: its expected name under each extension that exists. */
  method VariantsOf(base: string, images: set<string>) returns (matches: seq<string>)
    ensures matches == Variants(base, images, EXTENSIONS)
  {
    matches := [];
    for k := 0 to |EXTENSIONS|
      invariant matches + Variants(base, images, EXTENSIONS[k..]) == Variants(base, images, EXTENSIONS)
    {
      assert EXTENSIONS[k..][1..] == EXTENSIONS[k + 1..];
      if base + EXTENSIONS[k] in images {
        matches := matches + [base + EXTENSIONS[k]];
      }
    }
  }

  /** The second loop of `cmd_check`, over the games. */
  method DuplicateImages(games: seq<GameEntry>, images: set<string>) returns (duplicates: seq<Duplicate>)
    ensures duplicates == Duplicates(games, images)
  {
    duplicates := [];
    for i := 0 to |games|
      invariant duplicates == Duplicates(games[..i], images)
    {
      assert games[..i + 1][..i] == games[..i];
      var matches := VariantsOf(ExpectedFilename(games[i]), images);
      if |matches| > 1 {
        duplicates := duplicates + [Duplicate(games[i], matches)];
      }
    }
    assert games[..|games|] == games;
  }

  /** `cmd_check`: the unmatched images in sorted order, then the duplicates. */
  method Check(games: seq<GameEntry>, images: set<string>) returns (r: CheckReport)
    ensures Increasing(r.unmatched)
    ensures forall f :: f in r.unmatched <==>
      f in images && forall g :: g in games ==> Root(f) != ExpectedFilename(g)
    ensures r.duplicates == Duplicates(games, images)
  {
    var bases := ExpectedBases(games);
    var sorted := SortedNames(images);
    var unmatched := UnmatchedImages(sorted, bases);
    UnmatchedIncreasing(sorted, bases);
    var duplicates := DuplicateImages(games, images);
    r := CheckReport(unmatched, duplicates);
  }

  /** "All images valid." iff every image's root is some game's expected
      name and no game has more than one variant. */
  lemma ValidIff(games: seq<GameEntry>, images: set<string>, r: CheckReport)
    requires forall f :: f in r.unmatched <==>
      f in images && forall g :: g in games ==> Root(f) != ExpectedFilename(g)
    requires r.duplicates == Duplicates(games, images)
    ensures r.Valid() <==>
      (forall f :: f in images ==> exists g :: g in games && Root(f) == ExpectedFilename(g))
      && (forall g :: g in games ==> |Variants(ExpectedFilename(g), images, EXTENSIONS)| <= 1)
  {
    if r.duplicates == [] {
      forall g | g in games ensures |Variants(ExpectedFilename(g), images, EXTENSIONS)| <= 1 {
        DuplicatesExact(games, images, Duplicate(g, Variants(ExpectedFilename(g), images, EXTENSIONS)));
      }
    } else {
      DuplicatesExact(games, images, r.duplicates[0]);
    }
    if r.unmatched != [] {
      assert r.unmatched[0] in r.unmatched;
    }
  }

  /** An image found for a game is never reported as unmatched. */
  lemma FoundIsMatched(games: seq<GameEntry>, images: set<string>, g: GameEntry)
    requires g in games
    ensures var f := FirstPresent(ExpectedFilename(g), images, EXTENSIONS);
      f.Some? ==> exists h :: h in games && Root(f.value) == ExpectedFilename(h)
  {
    var f := FirstPresent(ExpectedFilename(g), images, EXTENSIONS);
    FoundHasExtension(ExpectedFilename(g), images, EXTENSIONS);
    if f.Some? {
      var k :| 0 <= k < |EXTENSIONS| && f.value == ExpectedFilename(g) + EXTENSIONS[k];
      RootOfVariant(g, k);
    }
  }
}
