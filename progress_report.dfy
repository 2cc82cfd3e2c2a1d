/** scripts/progress.py: how far the detailed game files have got through the
    master catalog, and which games to add next.

    The master catalog is keyed by the lower-cased, stripped name (the first
    CSV row wins). Source lists nominate games; the nominations order what is
    left. A game counts as done when its key is the name or an alternate name
    of some game file. */
module Progress {
  import opened Text
  import opened Ordering

  // ------------------------------------------------------- load_master_list

  /** One row of master_list.csv as `csv.DictReader` gives it; an absent cell is "". */
  datatype MasterRow = MasterRow(bggId: string, name: string, year: string)

  datatype Game = Game(name: string, year: string, bggId: string, sources: seq<string>)

  /** The catalog dictionary: keys in insertion order, and the entry for each. */
  datatype Catalog = Catalog(keys: seq<string>, games: map<string, Game>)

  function MasterKey(row: MasterRow): string { Lower(Strip(row.name)) }

  /** The entry a row creates: the stripped name, and "?" for an empty year. */
  function GameOfRow(row: MasterRow): Game {
    Game(Strip(row.name), if row.year == [] then "?" else row.year, row.bggId, [])
  }

  /** Each row's key paired with the entry it would create. */
  function Keyed(rows: seq<MasterRow>): (r: seq<(string, Game)>)
    ensures |r| == |rows|
    ensures forall j :: 0 <= j < |rows| ==> r[j] == (MasterKey(rows[j]), GameOfRow(rows[j]))
  {
    if rows == [] then [] else Keyed(rows[..|rows| - 1]) + [(MasterKey(rows[|rows| - 1]), GameOfRow(rows[|rows| - 1]))]
  }

  /** A dictionary filled from (key, entry) pairs, where an existing key is left alone. */
  ghost function Index(entries: seq<(string, Game)>): Catalog {
    if entries == [] then Catalog([], map[])
    else
      var c := Index(entries[..|entries| - 1]);
      var (key, game) := entries[|entries| - 1];
      if key in c.games then c else Catalog(c.keys + [key], c.games[key := game])
  }

  /** The catalog `load_master_list` builds from the rows. */
  ghost function Master(rows: seq<MasterRow>): Catalog {
    Index(Keyed(rows))
  }

  /** Keys listed once each, exactly the keys of the map, each the lower-cased name of its entry. */
  ghost predicate CatalogValid(c: Catalog) {
    (forall i, j :: 0 <= i < j < |c.keys| ==> c.keys[i] != c.keys[j])
    && (forall k :: k in c.games <==> k in c.keys)
    && (forall k :: k in c.games ==> Lower(c.games[k].name) == k)
  }

  /** `load_master_list`: `None` is a missing master_list.csv. */
  method LoadMasterList(csv: Option<seq<MasterRow>>) returns (c: Catalog)
    ensures csv.None? ==> c == Catalog([], map[])
    ensures csv.Some? ==> c == Master(csv.value)
  {
    c := Catalog([], map[]);
    if csv.None? {
      return;
    }
    var rows := csv.value;
    for i := 0 to |rows|
      invariant c == Index(Keyed(rows[..i]))
    {
      var key := MasterKey(rows[i]);
      KeyedSnoc(rows, i);
      IndexSnoc(Keyed(rows[..i]), (key, GameOfRow(rows[i])));
      if key !in c.games {
        c := Catalog(c.keys + [key], c.games[key := GameOfRow(rows[i])]);
      }
    }
    assert rows[..|rows|] == rows;
  }

  lemma KeyedSnoc(rows: seq<MasterRow>, i: nat)
    requires i < |rows|
    ensures Keyed(rows[..i + 1]) == Keyed(rows[..i]) + [(MasterKey(rows[i]), GameOfRow(rows[i]))]
  {
    assert rows[..i + 1][..i] == rows[..i];
  }

  lemma IndexSnoc(entries: seq<(string, Game)>, e: (string, Game))
    ensures Index(entries + [e]) ==
      var c := Index(entries);
      if e.0 in c.games then c else Catalog(c.keys + [e.0], c.games[e.0 := e.1])
  {
    assert (entries + [e])[..|entries|] == entries;
  }

  lemma {:induction false} IndexValid(entries: seq<(string, Game)>)
    requires forall j :: 0 <= j < |entries| ==> Lower(entries[j].1.name) == entries[j].0
    ensures CatalogValid(Index(entries))
    decreases |entries|
  {
    if entries != [] {
      var pre := entries[..|entries| - 1];
      forall j | 0 <= j < |pre| ensures Lower(pre[j].1.name) == pre[j].0 {
        assert pre[j] == entries[j];
      }
      IndexValid(pre);
    }
  }

  lemma MasterValid(rows: seq<MasterRow>)
    ensures CatalogValid(Master(rows))
  {
    IndexValid(Keyed(rows));
  }

  lemma {:induction false} FirstEntryWins(entries: seq<(string, Game)>, i: nat)
    requires i < |entries|
    requires forall j :: 0 <= j < i ==> entries[j].0 != entries[i].0
    ensures entries[i].0 in Index(entries).games
    ensures Index(entries).games[entries[i].0] == entries[i].1
    decreases |entries|
  {
    var pre := entries[..|entries| - 1];
    if i < |entries| - 1 {
      assert pre[i] == entries[i];
      forall j | 0 <= j < i ensures pre[j].0 != entries[i].0 {
        assert pre[j] == entries[j];
      }
      FirstEntryWins(pre, i);
    } else {
      forall j | 0 <= j < |pre| ensures pre[j].0 != entries[i].0 {
        assert pre[j] == entries[j];
      }
      NoEntryNoKey(pre, entries[i].0);
    }
  }

  lemma {:induction false} NoEntryNoKey(entries: seq<(string, Game)>, key: string)
    requires forall j :: 0 <= j < |entries| ==> entries[j].0 != key
    ensures key !in Index(entries).games
    decreases |entries|
  {
    if entries != [] {
      var pre := entries[..|entries| - 1];
      forall j | 0 <= j < |pre| ensures pre[j].0 != key {
        assert pre[j] == entries[j];
      }
      NoEntryNoKey(pre, key);
    }
  }

  /** A key that some row has is in the catalog, with the entry made from
      the first such row. */
  lemma FirstRowWins(rows: seq<MasterRow>, i: nat)
    requires i < |rows|
    requires forall j :: 0 <= j < i ==> MasterKey(rows[j]) != MasterKey(rows[i])
    ensures MasterKey(rows[i]) in Master(rows).games
    ensures Master(rows).games[MasterKey(rows[i])] == GameOfRow(rows[i])
  {
    FirstEntryWins(Keyed(rows), i);
  }

  /** A key no row has is not in the catalog. */
  lemma NoRowNoKey(rows: seq<MasterRow>, key: string)
    requires forall j :: 0 <= j < |rows| ==> MasterKey(rows[j]) != key
    ensures key !in Master(rows).games
  {
    NoEntryNoKey(Keyed(rows), key);
  }

  lemma {:induction false} EntryKeyIn(entries: seq<(string, Game)>, j: nat)
    requires j < |entries|
    ensures entries[j].0 in Index(entries).games
    decreases |entries|
  {
    var pre := entries[..|entries| - 1];
    if j < |pre| {
      assert pre[j] == entries[j];
      EntryKeyIn(pre, j);
    }
  }

  lemma {:induction false} IndexEntry(entries: seq<(string, Game)>, k: string) returns (j: nat)
    requires k in Index(entries).games
    ensures j < |entries| && entries[j].0 == k && Index(entries).games[k] == entries[j].1
    ensures forall i :: 0 <= i < j ==> entries[i].0 != k
    decreases |entries|
  {
    var pre := entries[..|entries| - 1];
    if k in Index(pre).games {
      j := IndexEntry(pre, k);
      assert pre[j] == entries[j];
      forall i | 0 <= i < j ensures entries[i].0 != k {
        assert pre[i] == entries[i];
      }
    } else {
      j := |entries| - 1;
      forall i | 0 <= i < j ensures entries[i].0 != k {
        assert pre[i] == entries[i];
        EntryKeyIn(pre, i);
      }
    }
  }

  /** Every catalog entry comes from the first row with its key; its year is
      never empty, "?" standing for a row without one. */
  lemma MasterEntry(rows: seq<MasterRow>, k: string) returns (j: nat)
    requires k in Master(rows).games
    ensures j < |rows| && MasterKey(rows[j]) == k
    ensures forall i :: 0 <= i < j ==> MasterKey(rows[i]) != k
    ensures Master(rows).games[k] == GameOfRow(rows[j])
    ensures Master(rows).games[k].year == (if rows[j].year == [] then "?" else rows[j].year) != []
  {
    j := IndexEntry(Keyed(rows), k);
  }

  // ------------------------------------------------- load_source_enrichment

  /** One file of sources/lists/ after YAML parsing: its base name, its
      `source` field, and the `name` of each listed game ("" when a game has
      none). `games` is `None` when the file is empty or has no `games` key. */
  datatype ListFile = ListFile(basename: string, source: Option<string>, games: Option<seq<string>>)

  function SourceLabel(f: ListFile): string {
    if f.source.Some? then f.source.value else f.basename
  }

  /** The key a listed name counts for: none for a blank name. */
  function ListedKey(name: string): Option<string> {
    var stripped := Strip(name);
    if stripped == [] then None else Some(Lower(stripped))
  }

  function ListedKeys(names: seq<string>): (r: seq<Option<string>>)
    ensures |r| == |names|
    ensures forall j :: 0 <= j < |names| ==> r[j] == ListedKey(names[j])
  {
    if names == [] then [] else ListedKeys(names[..|names| - 1]) + [ListedKey(names[|names| - 1])]
  }

  /** `tag` once for each listed name that counts for `key`. */
  ghost function Labels(keys: seq<Option<string>>, tag: string, key: string): seq<string> {
    if keys == [] then []
    else Labels(keys[..|keys| - 1], tag, key) + (if keys[|keys| - 1] == Some(key) then [tag] else [])
  }

  /** The nominations of `key` in one list file. */
  ghost function FileLabels(f: ListFile, key: string): seq<string> {
    if f.games.Some? then Labels(ListedKeys(f.games.value), SourceLabel(f), key) else []
  }

  lemma {:induction false} LabelsAbsent(keys: seq<Option<string>>, tag: string, key: string)
    requires forall j :: 0 <= j < |keys| ==> keys[j] != Some(key)
    ensures Labels(keys, tag, key) == []
    decreases |keys|
  {
    if keys != [] {
      var pre := keys[..|keys| - 1];
      forall j | 0 <= j < |pre| ensures pre[j] != Some(key) {
        assert pre[j] == keys[j];
      }
      LabelsAbsent(pre, tag, key);
    }
  }

  /** The sources nominating `key`, one per listing, in file order. */
  ghost function Nominations(files: seq<ListFile>, key: string): seq<string> {
    if files == [] then []
    else Nominations(files[..|files| - 1], key) + FileLabels(files[|files| - 1], key)
  }

  /** Blank names nominate nothing: no source is recorded under the empty key. */
  lemma {:induction false} BlankNominatesNothing(files: seq<ListFile>)
    ensures Nominations(files, []) == []
    decreases |files|
  {
    if files != [] {
      BlankNominatesNothing(files[..|files| - 1]);
      var f := files[|files| - 1];
      if f.games.Some? {
        var keys := ListedKeys(f.games.value);
        forall j | 0 <= j < |keys| ensures keys[j] != Some([]) {
          var stripped := Strip(f.games.value[j]);
          assert stripped != [] ==> |Lower(stripped)| == |stripped| > 0;
        }
        LabelsAbsent(keys, SourceLabel(f), []);
      }
    }
  }

  /** `e` maps each key to the nominations made so far, and holds no other key. */
  ghost predicate Accounts(e: map<string, seq<string>>, files: seq<ListFile>, keys: seq<Option<string>>, tag: string) {
    forall key ::
      (key in e <==> Nominations(files, key) + Labels(keys, tag, key) != [])
      && (key in e ==> e[key] == Nominations(files, key) + Labels(keys, tag, key))
  }

  /** `load_source_enrichment` over the list files in sorted path order. */
  method LoadSourceEnrichment(files: seq<ListFile>) returns (e: map<string, seq<string>>)
    ensures forall key :: key in e <==> Nominations(files, key) != []
    ensures forall key :: key in e ==> e[key] == Nominations(files, key)
  {
    e := map[];
    for i := 0 to |files|
      invariant Accounts(e, files[..i], [], "")
    {
      var f := files[i];
      if f.games.None? {
        AccountsFile(e, files, i, [], "");
        continue;
      }
      var tag := SourceLabel(f);
      e := AddListing(e, files[..i], f.games.value, tag);
      AccountsFile(e, files, i, ListedKeys(f.games.value), tag);
    }
    assert files[..|files|] == files;
  }

  /** The inner loop of `load_source_enrichment`: each name of one list file
      that has a key gains the file's tag. */
  method AddListing(e0: map<string, seq<string>>, files: seq<ListFile>, names: seq<string>, tag: string)
    returns (e: map<string, seq<string>>)
    requires Accounts(e0, files, [], "")
    ensures Accounts(e, files, ListedKeys(names), tag)
  {
    e := e0;
    ghost var keys := ListedKeys(names);
    assert Accounts(e, files, keys[..0], tag) by {
      assert keys[..0] == [];
    }
    for j := 0 to |names|
      invariant Accounts(e, files, keys[..j], tag)
    {
      var key := ListedKey(names[j]);
      AccountsName(e, files, keys, j, tag);
      if key.Some? {
        e := e[key.value := (if key.value in e then e[key.value] else []) + [tag]];
      }
    }
    assert keys[..|names|] == keys;
  }

  /** One more listed name: its key, if any, gains the tag. */
  lemma AccountsName(e: map<string, seq<string>>, files: seq<ListFile>, keys: seq<Option<string>>, j: nat, tag: string)
    requires j < |keys|
    requires Accounts(e, files, keys[..j], tag)
    ensures var k := keys[j];
      Accounts(if k.Some? then e[k.value := (if k.value in e then e[k.value] else []) + [tag]] else e,
        files, keys[..j + 1], tag)
  {
    assert keys[..j + 1][..j] == keys[..j];
    var k := keys[j];
    forall key
      ensures var e' := if k.Some? then e[k.value := (if k.value in e then e[k.value] else []) + [tag]] else e;
        (key in e' <==> Nominations(files, key) + Labels(keys[..j + 1], tag, key) != [])
        && (key in e' ==> e'[key] == Nominations(files, key) + Labels(keys[..j + 1], tag, key))
    {
      var n, l := Nominations(files, key), Labels(keys[..j], tag, key);
      var added := if k == Some(key) then [tag] else [];
      assert Labels(keys[..j + 1], tag, key) == l + added;
      assert n + (l + added) == (n + l) + added;
      AddLabel(e, key, k, tag, n + l, added);
    }
  }

  /** The entry for one key after the map update for a name with key `k`. */
  lemma AddLabel(e: map<string, seq<string>>, key: string, k: Option<string>, tag: string, before: seq<string>, added: seq<string>)
    requires (key in e <==> before != []) && (key in e ==> e[key] == before)
    requires added == if k == Some(key) then [tag] else []
    ensures var e' := if k.Some? then e[k.value := (if k.value in e then e[k.value] else []) + [tag]] else e;
      (key in e' <==> before + added != []) && (key in e' ==> e'[key] == before + added)
  {
  }

  /** The file's names all counted: the file's nominations are in. */
  lemma AccountsFile(e: map<string, seq<string>>, files: seq<ListFile>, i: nat, keys: seq<Option<string>>, tag: string)
    requires i < |files|
    requires files[i].games.Some? ==> keys == ListedKeys(files[i].games.value) && tag == SourceLabel(files[i])
    requires files[i].games.None? ==> keys == [] && tag == ""
    requires Accounts(e, files[..i], keys, tag)
    ensures Accounts(e, files[..i + 1], [], "")
  {
    assert files[..i + 1][..i] == files[..i];
    forall key
      ensures (key in e <==> Nominations(files[..i + 1], key) + Labels([], "", key) != [])
      ensures key in e ==> e[key] == Nominations(files[..i + 1], key) + Labels([], "", key)
    {
      assert FileLabels(files[i], key) == Labels(keys, tag, key);
      assert Nominations(files[..i + 1], key) + Labels([], "", key) == Nominations(files[..i], key) + Labels(keys, tag, key);
    }
  }

  // ---------------------------------------------------------- load_existing

  /** A game file's parsed `name` and `alternate_names`. */
  datatype GameData = GameData(name: Option<string>, alternates: seq<string>)

  /** A directory entry of games/: its file name and, for a file that parses
      to a non-empty mapping, that mapping. */
  datatype GameFile = GameFile(fname: string, data: Option<GameData>)

  predicate IsYaml(f: GameFile) { EndsWith(f.fname, ".yaml") }

  /** The lower-cased primary name of a game file, if it has one. */
  function PrimaryNames(f: GameFile): set<string> {
    if IsYaml(f) && f.data.Some? && f.data.value.name.Some? then {Lower(f.data.value.name.value)} else {}
  }

  /** The non-empty alternate names, lower-cased. */
  function AlternateNames(alternates: seq<string>): set<string> {
    if alternates == [] then {}
    else
      var a := alternates[|alternates| - 1];
      AlternateNames(alternates[..|alternates| - 1]) + (if a != [] then {Lower(a)} else {})
  }

  /** A name is an alternate name iff it lower-cases some non-empty entry. */
  lemma {:induction false} AlternateNamesIff(alternates: seq<string>, n: string)
    ensures n in AlternateNames(alternates) <==> exists a :: a in alternates && a != [] && n == Lower(a)
    decreases |alternates|
  {
    if alternates != [] {
      var pre := alternates[..|alternates| - 1];
      var last := alternates[|alternates| - 1];
      AlternateNamesIff(pre, n);
      assert alternates == pre + [last];
      if n in AlternateNames(pre) {
        var a :| a in pre && a != [] && n == Lower(a);
        assert a in alternates;
      }
      if exists a :: a in alternates && a != [] && n == Lower(a) {
        var a :| a in alternates && a != [] && n == Lower(a);
        assert a in pre || a == last;
      }
    }
  }

  /** The names a game file is known by: its primary name and its non-empty alternates, lower-cased. */
  function KnownNames(f: GameFile): set<string> {
    if IsYaml(f) && f.data.Some? then PrimaryNames(f) + AlternateNames(f.data.value.alternates) else {}
  }

  datatype Existing = Existing(names: set<string>, fileCount: nat, primaries: set<string>)

  /** What `load_existing` gathers from the directory entries. */
  ghost function Gathered(files: seq<GameFile>): Existing {
    if files == [] then Existing({}, 0, {})
    else
      var e := Gathered(files[..|files| - 1]);
      var f := files[|files| - 1];
      Existing(e.names + KnownNames(f), e.fileCount + (if IsYaml(f) then 1 else 0), e.primaries + PrimaryNames(f))
  }

  /** `load_existing`: `None` is a missing games/ directory. */
  method LoadExisting(dir: Option<seq<GameFile>>) returns (r: Existing)
    ensures dir.None? ==> r == Existing({}, 0, {})
    ensures dir.Some? ==> r == Gathered(dir.value)
  {
    var names: set<string> := {};
    var fileCount := 0;
    var primaries: set<string> := {};
    if dir.None? {
      return Existing(names, fileCount, primaries);
    }
    var files := dir.value;
    for i := 0 to |files|
      invariant Existing(names, fileCount, primaries) == Gathered(files[..i])
    {
      GatheredSnoc(files, i);
      var f := files[i];
      if !EndsWith(f.fname, ".yaml") {
        continue;
      }
      fileCount := fileCount + 1;
      if f.data.None? {
        continue;
      }
      var data := f.data.value;
      if data.name.Some? {
        names := names + {Lower(data.name.value)};
        primaries := primaries + {Lower(data.name.value)};
      }
      names := AddAlternates(names, data.alternates);
    }
    assert files[..|files|] == files;
    return Existing(names, fileCount, primaries);
  }

  /** The loop over `alternate_names`: each non-empty one is added, lower-cased. */
  method AddAlternates(names: set<string>, alternates: seq<string>) returns (r: set<string>)
    ensures r == names + AlternateNames(alternates)
  {
    r := names;
    for j := 0 to |alternates|
      invariant r == names + AlternateNames(alternates[..j])
    {
      var alt := alternates[j];
      assert alternates[..j + 1][..j] == alternates[..j];
      if alt != [] {
        r := r + {Lower(alt)};
      }
    }
    assert alternates[..|alternates|] == alternates;
  }

  lemma GatheredSnoc(files: seq<GameFile>, i: nat)
    requires i < |files|
    ensures var e := Gathered(files[..i]);
      Gathered(files[..i + 1]) == Existing(e.names + KnownNames(files[i]),
        e.fileCount + (if IsYaml(files[i]) then 1 else 0), e.primaries + PrimaryNames(files[i]))
  {
    assert files[..i + 1][..i] == files[..i];
  }

  /** A name is known iff some game file is known by it. */
  lemma {:induction false} GatheredNames(files: seq<GameFile>, k: string)
    ensures k in Gathered(files).names <==> exists i :: 0 <= i < |files| && k in KnownNames(files[i])
    decreases |files|
  {
    if files != [] {
      var n := |files| - 1;
      GatheredSnoc(files, n);
      assert files[..n + 1] == files;
      GatheredNames(files[..n], k);
      if k in Gathered(files[..n]).names {
        var i :| 0 <= i < n && k in KnownNames(files[..n][i]);
        assert files[..n][i] == files[i];
      }
      if exists i :: 0 <= i < n + 1 && k in KnownNames(files[i]) {
        var i :| 0 <= i < n + 1 && k in KnownNames(files[i]);
        if i < n {
          assert files[..n][i] == files[i];
        }
      }
    }
  }

  /** A name is a primary name iff it is the name of some game file. */
  lemma {:induction false} GatheredPrimaryNames(files: seq<GameFile>, k: string)
    ensures k in Gathered(files).primaries <==> exists i :: 0 <= i < |files| && k in PrimaryNames(files[i])
    decreases |files|
  {
    if files != [] {
      var n := |files| - 1;
      GatheredSnoc(files, n);
      assert files[..n + 1] == files;
      GatheredPrimaryNames(files[..n], k);
      if k in Gathered(files[..n]).primaries {
        var i :| 0 <= i < n && k in PrimaryNames(files[..n][i]);
        assert files[..n][i] == files[i];
      }
      if exists i :: 0 <= i < n + 1 && k in PrimaryNames(files[i]) {
        var i :| 0 <= i < n + 1 && k in PrimaryNames(files[i]);
        if i < n {
          assert files[..n][i] == files[i];
        }
      }
    }
  }

  /** Every primary name is also a known name, and there are no more primary
      names than game files counted. */
  lemma {:induction false} GatheredPrimaries(files: seq<GameFile>)
    ensures Gathered(files).primaries <= Gathered(files).names
    ensures |Gathered(files).primaries| <= Gathered(files).fileCount
    decreases |files|
  {
    if files != [] {
      GatheredPrimaries(files[..|files| - 1]);
      var e := Gathered(files[..|files| - 1]);
      var f := files[|files| - 1];
      assert |e.primaries + PrimaryNames(f)| <= |e.primaries| + |PrimaryNames(f)|;
    }
  }

  // -------------------------------------------------------------------- main

  /** `game["sources"] = enrichment.get(key, [])` for every catalog entry. */
  method EnrichSources(c: Catalog, enrichment: map<string, seq<string>>) returns (games: map<string, Game>)
    requires forall k :: k in c.keys <==> k in c.games
    ensures games.Keys == c.games.Keys
    ensures forall k :: k in games ==>
      games[k] == c.games[k].(sources := if k in enrichment then enrichment[k] else [])
  {
    games := c.games;
    for i := 0 to |c.keys|
      invariant games.Keys == c.games.Keys
      invariant forall k :: k in games ==>
        games[k] == (if k in c.keys[..i] then c.games[k].(sources := if k in enrichment then enrichment[k] else []) else c.games[k])
    {
      var key := c.keys[i];
      assert c.keys[..i + 1] == c.keys[..i] + [key];
      games := games[key := games[key].(sources := if key in enrichment then enrichment[key] else [])];
    }
    assert forall k :: k in c.games ==> k in c.keys[..|c.keys|];
  }

  /** The catalog keys split, in order, into those with a game file and the rest. */
  function Split(keys: seq<string>, names: set<string>): (r: (seq<string>, seq<string>))
    ensures |r.0| + |r.1| == |keys|
  {
    if keys == [] then ([], [])
    else
      var (d, m) := Split(keys[..|keys| - 1], names);
      var k := keys[|keys| - 1];
      if k in names then (d + [k], m) else (d, m + [k])
  }

  /** `done` and `remaining` hold every catalog key exactly once between them,
      and a key is done iff a game file is known by it. */
  lemma {:induction false} SplitPartitions(keys: seq<string>, names: set<string>)
    ensures forall k :: k in Split(keys, names).0 <==> k in keys && k in names
    ensures forall k :: k in Split(keys, names).1 <==> k in keys && k !in names
    decreases |keys|
  {
    if keys != [] {
      SplitPartitions(keys[..|keys| - 1], names);
      assert keys == keys[..|keys| - 1] + [keys[|keys| - 1]];
    }
  }

  method Partition(keys: seq<string>, names: set<string>) returns (done: seq<string>, remaining: seq<string>)
    ensures (done, remaining) == Split(keys, names)
  {
    done, remaining := [], [];
    for i := 0 to |keys|
      invariant (done, remaining) == Split(keys[..i], names)
    {
      assert keys[..i + 1][..i] == keys[..i];
      if keys[i] in names {
        done := done + [keys[i]];
      } else {
        remaining := remaining + [keys[i]];
      }
    }
    assert keys[..|keys|] == keys;
  }

  /** The sort key `(-len(sources), name.lower())`. */
  function Rank(g: Game): SortKey {
    SortKey(-|g.sources|, Lower(g.name))
  }

  /** The entries for the given keys, in the keys' order. */
  function GamesOf(games: map<string, Game>, keys: seq<string>): (r: seq<Game>)
    requires forall k :: k in keys ==> k in games
    ensures |r| == |keys|
    ensures forall i :: 0 <= i < |keys| ==> r[i] == games[keys[i]]
  {
    if keys == [] then [] else [games[keys[0]]] + GamesOf(games, keys[1..])
  }

  function Min(a: int, b: int): int { if a < b then a else b }

  /** The games to add next: `sorted(remaining, key=...)[:showCount]`,
      and nothing when `showCount` is not positive or nothing remains. */
  function NextGames(remaining: seq<Game>, showCount: int): (r: seq<Game>)
    ensures |r| == if showCount > 0 then Min(showCount, |remaining|) else 0
  {
    if showCount > 0 && remaining != [] then SortBy(remaining, Rank)[..Min(showCount, |remaining|)] else []
  }

  /** The next list is in rank order, holds only remaining games, and no
      remaining game left off it ranks before one on it. */
  lemma NextGamesRanked(remaining: seq<Game>, showCount: int)
    ensures SortedBy(NextGames(remaining, showCount), Rank)
    ensures multiset(NextGames(remaining, showCount)) <= multiset(remaining)
    ensures forall x, y ::
      (x in NextGames(remaining, showCount) && y in multiset(remaining) - multiset(NextGames(remaining, showCount)))
      ==> !KeyLess(Rank(y), Rank(x))
  {
    if showCount > 0 && remaining != [] {
      SortedPrefix(remaining, Rank, Min(showCount, |remaining|));
    }
  }

  /** Among games with different lower-cased names, the next list does not
      depend on the order the games come in. */
  lemma NextGamesDetermined(a: seq<Game>, b: seq<Game>, showCount: int)
    requires multiset(a) == multiset(b)
    requires forall i, j :: 0 <= i < j < |a| ==> Lower(a[i].name) != Lower(a[j].name)
    ensures NextGames(a, showCount) == NextGames(b, showCount)
  {
    forall x, y | x in multiset(a) && y in multiset(a) && x != y ensures Rank(x) != Rank(y) {
      var i :| 0 <= i < |a| && a[i] == x;
      var j :| 0 <= j < |a| && a[j] == y;
      if i < j {
        assert Lower(a[i].name) != Lower(a[j].name);
      } else {
        assert Lower(a[j].name) != Lower(a[i].name);
      }
    }
    SortByUnique(a, b, Rank);
    assert |a| == |multiset(a)| == |b|;
  }

  /** The remaining games of a valid catalog have different lower-cased
      names, so their next list is fully determined. */
  lemma RemainingDistinct(c: Catalog, lists: seq<ListFile>, m: seq<string>)
    requires CatalogValid(c)
    requires forall i, j :: 0 <= i < j < |m| ==> m[i] != m[j]
    requires forall k :: k in m ==> k in c.games
    ensures forall k :: k in m ==> k in Enriched(c, lists)
    ensures var g := GamesOf(Enriched(c, lists), m);
      forall i, j :: 0 <= i < j < |g| ==> Lower(g[i].name) != Lower(g[j].name)
  {
    var g := GamesOf(Enriched(c, lists), m);
    forall i, j | 0 <= i < j < |g| ensures Lower(g[i].name) != Lower(g[j].name) {
      assert Lower(g[i].name) == Lower(c.games[m[i]].name) == m[i];
      assert Lower(g[j].name) == Lower(c.games[m[j]].name) == m[j];
    }
  }

  datatype Report =
    | NoGames
    | Report(total: nat, fileCount: nat, orphans: nat, done: nat, remaining: nat, next: seq<Game>)

  /** Each catalog entry with `sources` set to the sources nominating it. */
  ghost function Enriched(c: Catalog, lists: seq<ListFile>): (r: map<string, Game>)
    ensures r.Keys == c.games.Keys
  {
    map k | k in c.games :: c.games[k].(sources := Nominations(lists, k))
  }

  lemma EnrichedIs(c: Catalog, lists: seq<ListFile>, enrichment: map<string, seq<string>>, games: map<string, Game>)
    requires forall key :: key in enrichment <==> Nominations(lists, key) != []
    requires forall key :: key in enrichment ==> enrichment[key] == Nominations(lists, key)
    requires games.Keys == c.games.Keys
    requires forall k :: k in games ==>
      games[k] == c.games[k].(sources := if k in enrichment then enrichment[k] else [])
    ensures games == Enriched(c, lists)
  {
    forall k | k in games ensures games[k] == Enriched(c, lists)[k] {
      if k !in enrichment {
        assert Nominations(lists, k) == [];
      }
    }
  }

  /** The report `main` prints, from what is on disk. */
  ghost function Expected(csv: Option<seq<MasterRow>>, dir: Option<seq<GameFile>>, lists: seq<ListFile>, showCount: int): Report {
    if csv.None? || Master(csv.value).keys == [] then NoGames
    else
      var c := Master(csv.value);
      var e := if dir.Some? then Gathered(dir.value) else Existing({}, 0, {});
      var split := Split(c.keys, e.names);
      MasterValid(csv.value);
      SplitPartitions(c.keys, e.names);
      Report(|c.keys|, e.fileCount, |e.primaries - (set k | k in c.keys)|, |split.0|, |split.1|,
             NextGames(GamesOf(Enriched(c, lists), split.1), showCount))
  }

  /** `main`: the catalog, game files and source lists as read from disk, and
      the requested length of the next list. */
  method ProgressReport(csv: Option<seq<MasterRow>>, dir: Option<seq<GameFile>>, lists: seq<ListFile>, showCount: int)
    returns (r: Report)
    ensures r == Expected(csv, dir, lists, showCount)
  {
    var c := LoadMasterList(csv);
    var total := |c.keys|;
    if total == 0 {
      return NoGames;
    }
    MasterValid(csv.value);
    var existing := LoadExisting(dir);
    var enrichment := LoadSourceEnrichment(lists);
    var games := EnrichSources(c, enrichment);
    EnrichedIs(c, lists, enrichment, games);
    var done, remaining := Partition(c.keys, existing.names);
    SplitPartitions(c.keys, existing.names);
    var orphans := |existing.primaries - (set k | k in c.keys)|;
    var next := NextGames(GamesOf(games, remaining), showCount);
    r := Report(total, existing.fileCount, orphans, |done|, |remaining|, next);
  }

  /** The printed counts agree: done and remaining add up to the catalog
      size, there are no more orphans than game files, and the next list
      holds `min(showCount, remaining)` games. */
  lemma ReportCounts(csv: Option<seq<MasterRow>>, dir: Option<seq<GameFile>>, lists: seq<ListFile>, showCount: int)
    ensures var r := Expected(csv, dir, lists, showCount);
      r.Report? ==>
        r.done + r.remaining == r.total
        && r.orphans <= r.fileCount
        && |r.next| == (if showCount > 0 then Min(showCount, r.remaining) else 0)
  {
    if dir.Some? {
      GatheredPrimaries(dir.value);
    }
    var r := Expected(csv, dir, lists, showCount);
    if r.Report? {
      var c := Master(csv.value);
      var e := if dir.Some? then Gathered(dir.value) else Existing({}, 0, {});
      assert |e.primaries - (set k | k in c.keys)| <= |e.primaries|;
    }
  }
}
