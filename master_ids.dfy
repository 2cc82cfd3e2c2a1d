/** scripts/generate_master_ids.py: give every entry of the YAML master list an
    `id` slug, keeping existing game-file ids where the name (and year) match.

    The master list is handled as its lines. An entry starts at a line
    beginning "  - name:" and continues over the lines beginning with four
    spaces and a word character. Each entry whose name can be read gets a new
    first line "  - id: <slug>" and keeps its name on a line of its own; every
    other line is copied. Two names on one slug abort the run and nothing is
    written. */
module MasterIds {
  import opened Text
  import Slug

  // ------------------------------------------------------------ the patterns

  /** Python's `\w` restricted to ASCII: letters, digits and underscore. */
  predicate IsWordChar(c: char) { IsAlnum(c) || c == '_' }

  /** `re.match(r"^  - name:", line)` */
  predicate IsEntryStart(line: string) { StartsWith(line, "  - name:") }

  /** `re.match(r"^    \w", line)` */
  predicate IsContinuation(line: string) {
    |line| > 4 && line[..4] == "    " && IsWordChar(line[4])
  }

  /** The first index at or after `k` that is not whitespace (`\s*`, greedy). */
  function SkipSpaces(s: string, k: nat): (r: nat)
    requires k <= |s|
    ensures k <= r <= |s|
    ensures forall j :: k <= j < r ==> IsSpace(s[j])
    ensures r < |s| ==> !IsSpace(s[r])
    decreases |s| - k
  {
    if k < |s| && IsSpace(s[k]) then SkipSpaces(s, k + 1) else k
  }

  /** The first index at or after `k` that is not a digit (`\d+`, greedy). */
  function SkipDigits(s: string, k: nat): (r: nat)
    requires k <= |s|
    ensures k <= r <= |s|
    ensures forall j :: k <= j < r ==> IsDigit(s[j])
    ensures r < |s| ==> !IsDigit(s[r])
    decreases |s| - k
  {
    if k < |s| && IsDigit(s[k]) then SkipDigits(s, k + 1) else k
  }

  /** The first index at or after `k` holding `c`. */
  function FindChar(s: string, c: char, k: nat): (r: Option<nat>)
    requires k <= |s|
    ensures r.Some? ==> k <= r.value < |s| && s[r.value] == c
    ensures r.Some? ==> forall j :: k <= j < r.value ==> s[j] != c
    ensures r.None? ==> forall j :: k <= j < |s| ==> s[j] != c
    decreases |s| - k
  {
    if k == |s| then None else if s[k] == c then Some(k) else FindChar(s, c, k + 1)
  }

  /** `name:\s*"(.+?)"` anchored at index `p`: after the spaces an opening quote,
      then the shortest non-empty text up to the next quote. */
  function QuotedAt(line: string, p: nat): (r: Option<string>)
    requires p + 5 <= |line|
    ensures r.Some? ==> |r.value| >= 1
  {
    var q := SkipSpaces(line, p + 5);
    if q + 2 <= |line| && line[q] == '"' then
      match FindChar(line, '"', q + 2)
      case Some(c) => Some(line[q + 1..c])
      case None => None
    else None
  }

  /** `re.search(r'name:\s*"(.+?)"', line)`, searching from index `k` on. */
  function QuotedFrom(line: string, k: nat): (r: Option<string>)
    ensures r.Some? ==> |r.value| >= 1
    decreases |line| - k
  {
    if k + 5 > |line| then None
    else if line[k..k + 5] == "name:" && QuotedAt(line, k).Some? then QuotedAt(line, k)
    else QuotedFrom(line, k + 1)
  }

  function QuotedName(line: string): (r: Option<string>)
    ensures r.Some? ==> |r.value| >= 1
  {
    QuotedFrom(line, 0)
  }

  /** `re.search(r'name:\s*(.+)', line)` then `.strip().strip('"')` on the group,
      searching from index `k` on. The pattern matches at the first "name:"
      followed by at least one character; whatever `\s*` gives back to `.+`
      is whitespace, which the strip removes, so the group strips to the
      stripped rest of the line. */
  function UnquotedFrom(line: string, k: nat): Option<string>
    decreases |line| - k
  {
    if k + 5 >= |line| then None
    else if line[k..k + 5] == "name:" then Some(StripChar(Strip(line[k + 5..]), '"'))
    else UnquotedFrom(line, k + 1)
  }

  function UnquotedName(line: string): Option<string> {
    UnquotedFrom(line, 0)
  }

  /** An optional minus sign followed by at least one digit. */
  predicate IsYearText(y: string) {
    var d := if y != [] && y[0] == '-' then 1 else 0;
    d < |y| && forall i :: d <= i < |y| ==> IsDigit(y[i])
  }

  /** `year:\s*(-?\d+)` anchored at index `p`. */
  function YearAt(line: string, p: nat): (r: Option<string>)
    requires p + 5 <= |line|
    ensures r.Some? ==> IsYearText(r.value)
  {
    var q := SkipSpaces(line, p + 5);
    var d := if q < |line| && line[q] == '-' then q + 1 else q;
    var e := SkipDigits(line, d);
    if e > d then
      assert forall i :: d - q <= i < e - q ==> line[q..e][i] == line[q + i];
      Some(line[q..e])
    else None
  }

  /** `re.search(r'year:\s*(-?\d+)', line)`, searching from index `k` on. */
  function YearFrom(line: string, k: nat): (r: Option<string>)
    ensures r.Some? ==> IsYearText(r.value)
    decreases |line| - k
  {
    if k + 5 > |line| then None
    else if line[k..k + 5] == "year:" && YearAt(line, k).Some? then YearAt(line, k)
    else YearFrom(line, k + 1)
  }

  function YearMatch(line: string): (r: Option<string>)
    ensures r.Some? ==> IsYearText(r.value)
  {
    YearFrom(line, 0)
  }

  // ------------------------------------------------------ extract_name_year

  /** Python truthiness of an optional string: present and non-empty. */
  predicate Truthy(s: Option<string>) { s.Some? && s.value != [] }

  datatype Found = Found(name: Option<string>, year: Option<string>)

  /** One line of `extract_name_year`: a quoted name always wins; an unquoted
      name is taken only while no name is held; only a line with neither is
      searched for a year. */
  function ScanLine(f: Found, line: string): Found {
    match QuotedName(line)
    case Some(n) => Found(Some(n), f.year)
    case None =>
      var u := UnquotedName(line);
      if u.Some? && !Truthy(f.name) then Found(u, f.year)
      else match YearMatch(line)
        case Some(y) => Found(f.name, Some(y))
        case None => f
  }

  /** What `extract_name_year` returns for the lines of one entry. */
  ghost function Extract(lines: seq<string>): Found {
    if lines == [] then Found(None, None)
    else ScanLine(Extract(lines[..|lines| - 1]), lines[|lines| - 1])
  }

  method ExtractNameYear(lines: seq<string>) returns (name: Option<string>, year: Option<string>)
    ensures Found(name, year) == Extract(lines)
  {
    name, year := None, None;
    for k := 0 to |lines|
      invariant Found(name, year) == Extract(lines[..k])
    {
      assert lines[..k + 1][..k] == lines[..k];
      var line := lines[k];
      var quoted := QuotedName(line);
      if quoted.Some? {
        name := quoted;
        continue;
      }
      var unquoted := UnquotedName(line);
      if unquoted.Some? && !Truthy(name) {
        name := unquoted;
        continue;
      }
      var y := YearMatch(line);
      if y.Some? {
        year := y;
      }
    }
    assert lines[..|lines|] == lines;
  }

  /** The quoted name of the last line that has one is the entry's name. */
  lemma {:induction false} LastQuotedNameWins(lines: seq<string>, j: nat)
    requires j < |lines| && QuotedName(lines[j]).Some?
    requires forall i :: j < i < |lines| ==> QuotedName(lines[i]).None?
    ensures Extract(lines).name == QuotedName(lines[j])
    decreases |lines|
  {
    var pre := lines[..|lines| - 1];
    if j < |lines| - 1 {
      assert forall i :: j < i < |pre| ==> pre[i] == lines[i];
      LastQuotedNameWins(pre, j);
    }
  }

  /** With no quoted name anywhere, the first unquoted name that is not empty is
      the entry's name: later lines never replace it. */
  lemma {:induction false} FirstUnquotedNameKept(lines: seq<string>, j: nat)
    requires forall i :: 0 <= i < |lines| ==> QuotedName(lines[i]).None?
    requires j < |lines| && Truthy(UnquotedName(lines[j]))
    requires forall i :: 0 <= i < j ==> !Truthy(UnquotedName(lines[i]))
    ensures Extract(lines).name == UnquotedName(lines[j])
    decreases |lines|
  {
    var pre := lines[..|lines| - 1];
    if j < |lines| - 1 {
      FirstUnquotedNameKept(pre, j);
    } else {
      NoNameBefore(pre);
    }
  }

  lemma {:induction false} NoNameBefore(lines: seq<string>)
    requires forall i :: 0 <= i < |lines| ==> QuotedName(lines[i]).None?
    requires forall i :: 0 <= i < |lines| ==> !Truthy(UnquotedName(lines[i]))
    ensures !Truthy(Extract(lines).name)
    decreases |lines|
  {
    if lines != [] {
      NoNameBefore(lines[..|lines| - 1]);
    }
  }

  /** Some name is found exactly when some line matches one of the name patterns. */
  lemma {:induction false} NameFoundIffPattern(lines: seq<string>)
    ensures Extract(lines).name.Some? <==>
      exists i :: 0 <= i < |lines| && (QuotedName(lines[i]).Some? || UnquotedName(lines[i]).Some?)
    decreases |lines|
  {
    if lines != [] {
      var pre := lines[..|lines| - 1];
      NameFoundIffPattern(pre);
      assert forall i :: 0 <= i < |pre| ==> pre[i] == lines[i];
      if exists i :: 0 <= i < |pre| && (QuotedName(pre[i]).Some? || UnquotedName(pre[i]).Some?) {
        var i :| 0 <= i < |pre| && (QuotedName(pre[i]).Some? || UnquotedName(pre[i]).Some?);
        assert lines[i] == pre[i];
      }
    }
  }

  /** A year, when found, is `-?\d+` text read from a line without a quoted name. */
  lemma {:induction false} YearFromSomeLine(lines: seq<string>)
    ensures Extract(lines).year.Some? ==>
      IsYearText(Extract(lines).year.value)
      && exists i :: 0 <= i < |lines| && QuotedName(lines[i]).None? && YearMatch(lines[i]) == Extract(lines).year
    decreases |lines|
  {
    if lines != [] {
      var pre := lines[..|lines| - 1];
      YearFromSomeLine(pre);
      var f := Extract(lines);
      if f.year.Some? && f.year == Extract(pre).year {
        var i :| 0 <= i < |pre| && QuotedName(pre[i]).None? && YearMatch(pre[i]) == Extract(pre).year;
        assert lines[i] == pre[i];
      }
    }
  }

  /** Line `i` reaches the year test of `extract_name_year` (it has no quoted
      name and no unquoted name is taken from it) and the year pattern matches. */
  ghost predicate TakesYear(lines: seq<string>, i: nat)
    requires i < |lines|
  {
    && QuotedName(lines[i]).None?
    && !(UnquotedName(lines[i]).Some? && !Truthy(Extract(lines[..i]).name))
    && YearMatch(lines[i]).Some?
  }

  /** Dropping the last line changes no earlier line's year test. */
  lemma TakesYearPrefix(lines: seq<string>, i: nat)
    requires i < |lines| - 1
    ensures TakesYear(lines, i) == TakesYear(lines[..|lines| - 1], i)
  {
    assert lines[..|lines| - 1][..i] == lines[..i];
  }

  /** The year is the match of the last line that reaches the year test and
      matches: later lines, whether taken as names or without a match, leave it. */
  lemma {:induction false} LastYearWins(lines: seq<string>, j: nat)
    requires j < |lines| && TakesYear(lines, j)
    requires forall i :: j < i < |lines| ==> !TakesYear(lines, i)
    ensures Extract(lines).year == YearMatch(lines[j])
    decreases |lines|
  {
    var pre := lines[..|lines| - 1];
    if j < |lines| - 1 {
      TakesYearPrefix(lines, j);
      forall i | j < i < |pre| ensures !TakesYear(pre, i) {
        TakesYearPrefix(lines, i);
      }
      LastYearWins(pre, j);
      assert !TakesYear(lines, |lines| - 1);
      assert lines[..|lines| - 1] == pre;
    } else {
      assert lines[..j] == pre;
    }
  }

  /** A year is found exactly when some line reaches the year test and matches. */
  lemma {:induction false} YearFoundIffTaken(lines: seq<string>)
    ensures Extract(lines).year.Some? <==> exists i :: 0 <= i < |lines| && TakesYear(lines, i)
    decreases |lines|
  {
    if lines != [] {
      var pre := lines[..|lines| - 1];
      var n := |lines| - 1;
      YearFoundIffTaken(pre);
      assert lines[..n] == pre;
      forall i | 0 <= i < n ensures TakesYear(lines, i) == TakesYear(pre, i) {
        TakesYearPrefix(lines, i);
      }
      if TakesYear(lines, n) {
        assert Extract(lines).year == YearMatch(lines[n]);
      } else {
        assert Extract(lines).year == Extract(pre).year;
        if exists i :: 0 <= i < |lines| && TakesYear(lines, i) {
          var i :| 0 <= i < |lines| && TakesYear(lines, i);
          assert TakesYear(pre, i);
        }
        if exists i :: 0 <= i < |pre| && TakesYear(pre, i) {
          var i :| 0 <= i < |pre| && TakesYear(pre, i);
          assert TakesYear(lines, i);
        }
      }
    }
  }

  // --------------------------------------------------- process_master_list

  /** The id lookups `build_name_to_id_map` derives from the game files (by
      name and year, and by name alone), and the character fold `slugify`
      relies on. */
  datatype Known = Known(byNameYear: map<(string, string), string>, byName: map<string, string>, fold: Slug.Fold)

  /** An existing file id for (name, year), else one for the name, else a new
      slug from `slugify` as the script defines it (dashes dropped, not hyphenated). */
  function ChooseSlug(k: Known, name: string, year: Option<string>): (slug: string)
    ensures var key := (name, if Truthy(year) then year.value else []);
      key in k.byNameYear ==> slug == k.byNameYear[key]
    ensures var key := (name, if Truthy(year) then year.value else []);
      key !in k.byNameYear && name in k.byName ==> slug == k.byName[name]
    ensures var key := (name, if Truthy(year) then year.value else []);
      key !in k.byNameYear && name !in k.byName ==> slug == Slug.SlugifyAsWritten(k.fold, name) && Slug.IsSlug(slug)
  {
    var key := (name, if Truthy(year) then year.value else []);
    if key in k.byNameYear then k.byNameYear[key]
    else if name in k.byName then k.byName[name]
    else Slug.SlugifyIsSlug(k.fold, name); Slug.SlugifyAsWritten(k.fold, name)
  }

  /** `first_line.split("- name:", 1)[1]` */
  function NamePart(line: string): (r: string)
    requires IsEntryStart(line)
    ensures r == line[9..]
  {
    assert line[..9] == "  - name:";
    assert line[2..9] == "- name:";
    assert OccursAt(line, "- name:", 2);
    assert Contains(line, "- name:");
    assert line[0..7][0] == ' ' && line[1..8][0] == ' ';
    var i := Find(line, "- name:").value;
    assert i == 2;
    line[i + 7..]
  }

  /** The first index at or after `j` whose line does not continue the entry. */
  function EntryEnd(lines: seq<string>, j: nat): (e: nat)
    requires j <= |lines|
    ensures j <= e <= |lines|
    ensures forall i :: j <= i < e ==> IsContinuation(lines[i])
    ensures e < |lines| ==> !IsContinuation(lines[e])
    decreases |lines| - j
  {
    if j < |lines| && IsContinuation(lines[j]) then EntryEnd(lines, j + 1) else j
  }

  /** The output lines and the (slug, name) assignments, in order. */
  datatype Pass = Pass(out: seq<string>, given: seq<(string, string)>)

  /** The lines that replace a named entry. */
  function Rewritten(slug: string, entry: seq<string>): seq<string>
    requires entry != [] && IsEntryStart(entry[0])
  {
    ["  - id: " + slug, "    name:" + NamePart(entry[0])] + entry[1..]
  }

  /** The output and assignments of `a` followed by those of `b`. */
  function Then(a: Pass, b: Pass): Pass {
    Pass(a.out + b.out, a.given + b.given)
  }

  /** What one entry contributes: kept as it is when no name is found,
      otherwise rewritten with its slug, which is recorded. */
  ghost function EntryPass(k: Known, entry: seq<string>): Pass
    requires entry != [] && IsEntryStart(entry[0])
  {
    var f := Extract(entry);
    if !Truthy(f.name) then Pass(entry, [])
    else
      var slug := ChooseSlug(k, f.name.value, f.year);
      Pass(Rewritten(slug, entry), [(slug, f.name.value)])
  }

  /** What the main loop of `process_master_list` produces for `lines`. */
  ghost function Migrate(k: Known, lines: seq<string>): Pass
    decreases |lines|
  {
    if lines == [] then Pass([], [])
    else if IsEntryStart(lines[0]) then
      var e := EntryEnd(lines, 1);
      Then(EntryPass(k, lines[..e]), Migrate(k, lines[e..]))
    else
      Then(Pass([lines[0]], []), Migrate(k, lines[1..]))
  }

  /** `slug_counts`: the names each slug was given to, in order. */
  function SlugCounts(given: seq<(string, string)>): map<string, seq<string>> {
    if given == [] then map[]
    else
      var m := SlugCounts(given[..|given| - 1]);
      var (slug, name) := given[|given| - 1];
      m[slug := (if slug in m then m[slug] else []) + [name]]
  }

  function Slugs(given: seq<(string, string)>): (r: seq<string>)
    ensures |r| == |given|
    ensures forall i :: 0 <= i < |r| ==> r[i] == given[i].0
  {
    if given == [] then [] else Slugs(given[..|given| - 1]) + [given[|given| - 1].0]
  }

  predicate Distinct(s: seq<string>) {
    forall i, j :: 0 <= i < j < |s| ==> s[i] != s[j]
  }

  /** The lines of the entry starting at `start`: its first line and the run
      of continuation lines after it. */
  method CollectEntry(lines: seq<string>, start: nat) returns (entry: seq<string>, end: nat)
    requires start < |lines|
    ensures start < end <= |lines| && entry == lines[start..end]
    ensures forall j :: start < j < end ==> IsContinuation(lines[j])
    ensures end < |lines| ==> !IsContinuation(lines[end])
  {
    entry := [lines[start]];
    end := start + 1;
    while end < |lines| && IsContinuation(lines[end])
      invariant start < end <= |lines|
      invariant entry == lines[start..end]
      invariant forall j :: start < j < end ==> IsContinuation(lines[j])
      decreases |lines| - end
    {
      entry := entry + [lines[end]];
      end := end + 1;
    }
  }

  /** A run over `lines`: `None` when two entries share a slug (nothing is
      written), otherwise the lines written back. */
  method ProcessMasterList(k: Known, lines: seq<string>) returns (r: Option<seq<string>>)
    ensures r.Some? <==> Distinct(Slugs(Migrate(k, lines).given))
    ensures r.Some? ==> r.value == Migrate(k, lines).out
  {
    var output: seq<string> := [];
    ghost var given: seq<(string, string)> := [];
    var slugCounts: map<string, seq<string>> := map[];
    var i := 0;
    while i < |lines|
      invariant 0 <= i <= |lines|
      invariant Migrate(k, lines) == Then(Pass(output, given), Migrate(k, lines[i..]))
      invariant slugCounts == SlugCounts(given)
      decreases |lines| - i
    {
      ghost var before := Pass(output, given);
      var line := lines[i];
      if IsEntryStart(line) {
        var start := i;
        var entry;
        entry, i := CollectEntry(lines, start);
        MigrateEntry(k, lines, start, i);
        var name, year := ExtractNameYear(entry);
        if !Truthy(name) {
          output := output + entry;
          Advance(Migrate(k, lines), Migrate(k, lines[start..]), Migrate(k, lines[i..]), before, EntryPass(k, entry), Pass(output, given));
          continue;
        }
        var slug := ChooseSlug(k, name.value, year);
        slugCounts := slugCounts[slug := (if slug in slugCounts then slugCounts[slug] else []) + [name.value]];
        SlugCountsSnoc(given, slug, name.value);
        given := given + [(slug, name.value)];
        var namePart := NamePart(entry[0]);
        output := output + (["  - id: " + slug, "    name:" + namePart] + entry[1..]);
        Advance(Migrate(k, lines), Migrate(k, lines[start..]), Migrate(k, lines[i..]), before, EntryPass(k, entry), Pass(output, given));
      } else {
        // "  - id:" lines and all other lines alike are copied.
        MigrateLine(k, lines, i);
        output := output + [line];
        Advance(Migrate(k, lines), Migrate(k, lines[i..]), Migrate(k, lines[i + 1..]), before, Pass([line], []), Pass(output, given));
        i := i + 1;
      }
    }
    assert lines[|lines|..] == [];
    assert Migrate(k, lines[|lines|..]) == Pass([], []);
    assert given == Migrate(k, lines).given && output == Migrate(k, lines).out;
    CollisionIffRepeat(given);
    var collision := HasCollision(slugCounts);
    if collision {
      return None;
    }
    return Some(output);
  }

  /** One step of the main loop: what `before` and `chunk` produced, followed
      by the rest, is the whole. */
  lemma Advance(whole: Pass, mid: Pass, rest: Pass, before: Pass, chunk: Pass, after: Pass)
    requires whole == Then(before, mid) && mid == Then(chunk, rest)
    requires after == Then(before, chunk)
    ensures whole == Then(after, rest)
  {
    assert before.out + (chunk.out + rest.out) == before.out + chunk.out + rest.out;
    assert before.given + (chunk.given + rest.given) == before.given + chunk.given + rest.given;
  }

  /** One line outside an entry is copied. */
  lemma MigrateLine(k: Known, lines: seq<string>, i: nat)
    requires i < |lines| && !IsEntryStart(lines[i])
    ensures Migrate(k, lines[i..]) == Then(Pass([lines[i]], []), Migrate(k, lines[i + 1..]))
  {
    assert lines[i..][0] == lines[i];
    assert lines[i..][1..] == lines[i + 1..];
  }

  /** An entry runs from its first line over the lines that continue it. */
  lemma MigrateEntry(k: Known, lines: seq<string>, start: nat, end: nat)
    requires start < end <= |lines| && IsEntryStart(lines[start])
    requires forall j :: start < j < end ==> IsContinuation(lines[j])
    requires end < |lines| ==> !IsContinuation(lines[end])
    ensures Migrate(k, lines[start..]) == Then(EntryPass(k, lines[start..end]), Migrate(k, lines[end..]))
  {
    var l := lines[start..];
    assert l[0] == lines[start];
    var e := EntryEnd(l, 1);
    assert Migrate(k, l) == Then(EntryPass(k, l[..e]), Migrate(k, l[e..]));
    assert e == end - start by {
      EntryEndShift(lines, start, 1);
      EntryEndIs(lines, start + 1, end);
    }
    assert l[..e] == lines[start..end];
    assert l[e..] == lines[end..];
  }

  lemma SlugCountsSnoc(given: seq<(string, string)>, slug: string, name: string)
    ensures var m := SlugCounts(given);
      SlugCounts(given + [(slug, name)]) == m[slug := (if slug in m then m[slug] else []) + [name]]
  {
    assert (given + [(slug, name)])[..|given|] == given;
  }

  lemma ConcatAssoc<T>(a: seq<T>, b: seq<T>, c: seq<T>)
    ensures a + b + c == a + (b + c)
  {
  }

  /** Each entry that gets an id gains exactly one line; everything else is
      copied line for line. */
  lemma {:induction false} MigrateLength(k: Known, lines: seq<string>)
    ensures |Migrate(k, lines).out| == |lines| + |Migrate(k, lines).given|
    decreases |lines|
  {
    if lines != [] {
      if IsEntryStart(lines[0]) {
        MigrateLength(k, lines[EntryEnd(lines, 1)..]);
      } else {
        MigrateLength(k, lines[1..]);
      }
    }
  }

  /** Lines that start no entry are copied, and the rest is processed as on its own. */
  lemma {:induction false} CopiedPrefix(k: Known, v: seq<string>, rest: seq<string>)
    requires forall i :: 0 <= i < |v| ==> !IsEntryStart(v[i])
    ensures Migrate(k, v + rest) == Then(Pass(v, []), Migrate(k, rest))
    decreases |v|
  {
    if v == [] {
      assert v + rest == rest;
    } else {
      var l := v + rest;
      assert l[0] == v[0] && l[1..] == v[1..] + rest;
      assert Migrate(k, l) == Then(Pass([v[0]], []), Migrate(k, v[1..] + rest));
      CopiedPrefix(k, v[1..], rest);
      assert [v[0]] + v[1..] == v;
      Advance(Migrate(k, l), Migrate(k, v[1..] + rest), Migrate(k, rest), Pass([v[0]], []), Pass(v[1..], []), Pass(v, []));
    }
  }

  /** The output never starts with a line that would continue an entry before it. */
  lemma OutputStartsCleanly(k: Known, lines: seq<string>)
    requires lines != [] ==> !IsContinuation(lines[0])
    ensures Migrate(k, lines).out != [] ==> !IsContinuation(Migrate(k, lines).out[0])
  {
    if lines != [] {
      var out := Migrate(k, lines).out;
      if IsEntryStart(lines[0]) {
        var e := EntryEnd(lines, 1);
        var chunk := EntryPass(k, lines[..e]);
        assert out == chunk.out + Migrate(k, lines[e..]).out;
        EntryPassFirstLine(k, lines[..e]);
        assert out[0] == chunk.out[0];
      } else {
        assert out[0] == lines[0];
      }
    }
  }

  lemma EntryPassFirstLine(k: Known, entry: seq<string>)
    requires entry != [] && IsEntryStart(entry[0])
    ensures EntryPass(k, entry).out != []
    ensures !IsContinuation(EntryPass(k, entry).out[0])
  {
    var out := EntryPass(k, entry).out;
    assert entry[0][..9][2] == '-';
    if out[0] != entry[0] {
      assert out[0][..8] == "  - id: ";
      assert out[0][..4][2] == '-';
    }
  }

  /** No line of a rewritten entry starts an entry. */
  lemma RewrittenStartsNothing(slug: string, entry: seq<string>)
    requires entry != [] && IsEntryStart(entry[0])
    requires forall i :: 0 < i < |entry| ==> IsContinuation(entry[i])
    ensures forall i :: 0 <= i < |Rewritten(slug, entry)| ==> !IsEntryStart(Rewritten(slug, entry)[i])
  {
    var v := Rewritten(slug, entry);
    forall i | 0 <= i < |v| ensures !IsEntryStart(v[i]) {
      if i == 0 {
        assert v[0] == "  - id: " + slug;
        assert |v[0]| >= 9 ==> v[0][..9][4] == 'i';
      } else if i == 1 {
        assert v[1][..9][2] == ' ';
      } else {
        assert v[i] == entry[i - 1];
        assert v[i][..4][2] == ' ';
      }
    }
  }

  /** Running the migration again on its own output changes nothing and
      assigns no slug. */
  lemma {:induction false} MigrateIdempotent(k: Known, lines: seq<string>)
    ensures Migrate(k, Migrate(k, lines).out) == Pass(Migrate(k, lines).out, [])
    decreases |lines|
  {
    if lines != [] {
      if IsEntryStart(lines[0]) {
        var e := EntryEnd(lines, 1);
        var entry := lines[..e];
        var rest := Migrate(k, lines[e..]).out;
        MigrateIdempotent(k, lines[e..]);
        assert forall i :: 0 < i < |entry| ==> IsContinuation(entry[i]);
        var f := Extract(entry);
        if !Truthy(f.name) {
          var l := entry + rest;
          OutputStartsCleanly(k, lines[e..]);
          assert forall j :: 0 < j < e ==> IsContinuation(l[j]) by {
            forall j | 0 < j < e ensures IsContinuation(l[j]) {
              assert l[j] == lines[j];
            }
          }
          assert e < |l| ==> l[e] == rest[0];
          MigrateEntry(k, l, 0, e);
          assert l[0..] == l && l[0..e] == entry && l[e..] == rest;
        } else {
          var slug := ChooseSlug(k, f.name.value, f.year);
          RewrittenStartsNothing(slug, entry);
          CopiedPrefix(k, Rewritten(slug, entry), rest);
        }
      } else {
        CopiedPrefix(k, [lines[0]], Migrate(k, lines[1..]).out);
        MigrateIdempotent(k, lines[1..]);
      }
    }
  }

  /** `EntryEnd` does not depend on the lines before the entry. */
  lemma {:induction false} EntryEndShift(lines: seq<string>, start: nat, j: nat)
    requires start + j <= |lines|
    ensures EntryEnd(lines[start..], j) == EntryEnd(lines, start + j) - start
    decreases |lines| - start - j
  {
    if start + j < |lines| && IsContinuation(lines[start + j]) {
      EntryEndShift(lines, start, j + 1);
    }
  }

  /** The entry ends at the first line that does not continue it. */
  lemma {:induction false} EntryEndIs(lines: seq<string>, j: nat, e: nat)
    requires j <= e <= |lines|
    requires forall i :: j <= i < e ==> IsContinuation(lines[i])
    requires e < |lines| ==> !IsContinuation(lines[e])
    ensures EntryEnd(lines, j) == e
    decreases e - j
  {
    if j < e {
      EntryEndIs(lines, j + 1, e);
    }
  }

  /** How many times `s` occurs among the first slugs. */
  function Count(slugs: seq<string>, s: string): nat {
    if slugs == [] then 0
    else Count(slugs[..|slugs| - 1], s) + (if slugs[|slugs| - 1] == s then 1 else 0)
  }

  lemma {:induction false} SlugCountsCount(given: seq<(string, string)>, s: string)
    ensures s in SlugCounts(given) <==> Count(Slugs(given), s) > 0
    ensures s in SlugCounts(given) ==> |SlugCounts(given)[s]| == Count(Slugs(given), s)
    decreases |given|
  {
    if given != [] {
      var pre := given[..|given| - 1];
      SlugCountsCount(pre, s);
      assert Slugs(given)[..|given| - 1] == Slugs(pre);
    }
  }

  lemma {:induction false} DistinctIffCountsAtMostOne(slugs: seq<string>)
    ensures Distinct(slugs) <==> forall s :: Count(slugs, s) <= 1
    decreases |slugs|
  {
    if slugs != [] {
      var pre, t := slugs[..|slugs| - 1], slugs[|slugs| - 1];
      DistinctIffCountsAtMostOne(pre);
      CountPositiveIffIn(pre, t);
      if Distinct(slugs) {
        assert Distinct(pre);
        assert t !in pre;
        forall s ensures Count(slugs, s) <= 1 {
          assert Count(pre, s) <= 1;
        }
      } else {
        var i, j :| 0 <= i < j < |slugs| && slugs[i] == slugs[j];
        if j < |slugs| - 1 {
          assert !Distinct(pre) by { assert pre[i] == pre[j]; }
          var s :| Count(pre, s) > 1;
          assert Count(slugs, s) >= Count(pre, s);
        } else {
          assert pre[i] == t;
          assert Count(slugs, t) > 1;
        }
      }
    }
  }

  lemma {:induction false} CountPositiveIffIn(slugs: seq<string>, s: string)
    ensures Count(slugs, s) > 0 <==> s in slugs
    decreases |slugs|
  {
    if slugs != [] {
      var pre := slugs[..|slugs| - 1];
      CountPositiveIffIn(pre, s);
      assert slugs == pre + [slugs[|slugs| - 1]];
    }
  }

  /** `collisions` is not empty: some slug went to more than one name. */
  predicate HasCollision(counts: map<string, seq<string>>) {
    exists s :: s in counts && |counts[s]| > 1
  }

  /** The collision check fires exactly when two entries were given one slug. */
  lemma CollisionIffRepeat(given: seq<(string, string)>)
    ensures HasCollision(SlugCounts(given)) <==> !Distinct(Slugs(given))
  {
    DistinctIffCountsAtMostOne(Slugs(given));
    if !Distinct(Slugs(given)) {
      var s :| Count(Slugs(given), s) > 1;
      SlugCountsCount(given, s);
    } else {
      forall s | s in SlugCounts(given) ensures |SlugCounts(given)[s]| <= 1 {
        SlugCountsCount(given, s);
      }
    }
  }
}
