/** The paginated harvester of scripts/scrape_wikidata.py.

    Each invocation fetches one page of PAGE_SIZE SPARQL result bindings at the
    persisted `offset`, drops bindings without an English label, de-duplicates
    the rest by (name, bgg_id) keeping the first, appends the rows to the CSV,
    then advances `offset` by PAGE_SIZE and sets `done` when the page came
    back short. The SPARQL endpoint is an oracle from offsets to replies. */
module WikidataPager {
  import opened Text
  import opened CatalogCsv

  const PAGE_SIZE: nat := 10000

  /** One result binding: the `value` of `gameLabel`, `bggId` and `date`, each
      possibly absent. */
  datatype Binding = Binding(gameLabel: Option<string>, bggId: Option<string>, date: Option<string>)

  /** The endpoint's answer: an HTTP error (raised by `raise_for_status` or by
      the request itself) or the bindings of the result set. */
  datatype PageReply = HttpError | Page(bindings: seq<Binding>)

  type Endpoint = int -> PageReply

  /** `b.get(k, {}).get("value", "")` */
  function Value(v: Option<string>): string {
    if v.Some? then v.value else ""
  }

  function Name(b: Binding): string { Value(b.gameLabel) }

  /** A label Wikidata shows when it has no English name: empty, or "Q"
      followed by one or more digits. A bare "Q" is a real label. */
  predicate IsPlaceholder(name: string) {
    name == [] || (name[0] == 'Q' && AllDigits(name[1..]))
  }

  /** "Q" followed by text is a placeholder exactly when that text is all
      digits, so a bare "Q" is kept; a label not starting with "Q" is kept. */
  lemma PlaceholderLabels(d: string, name: string)
    ensures !IsPlaceholder("Q")
    ensures IsPlaceholder("Q" + d) <==> AllDigits(d)
    ensures name != [] && name[0] != 'Q' ==> !IsPlaceholder(name)
  {
    assert ("Q" + d)[1..] == d;
  }

  /** The de-duplication key `(name, bgg_id)`. */
  function Key(b: Binding): (string, string) { (Name(b), Value(b.bggId)) }

  /** The row written for a kept binding: the year is the first four characters
      of the date (none when the date is absent); the type is always "boardgame". */
  function RowOfBinding(b: Binding): (r: Row)
    ensures r.name == Name(b) && r.bggId == Value(b.bggId) && r.kind == "boardgame"
    ensures r.year == Take(Value(b.date), 4)
  {
    var date := Value(b.date);
    Row(Value(b.bggId), Name(b), if date != [] then Take(date, 4) else "", "boardgame")
  }

  /** The keys of the labelled bindings of `bs`. */
  ghost function KeysOf(bs: seq<Binding>): set<(string, string)> {
    set i | 0 <= i < |bs| && !IsPlaceholder(Name(bs[i])) :: Key(bs[i])
  }

  /** Binding `i` is labelled and no earlier labelled binding has its key. */
  ghost predicate FirstOfKey(bs: seq<Binding>, i: int) {
    0 <= i < |bs| && !IsPlaceholder(Name(bs[i]))
    && forall j :: 0 <= j < i && !IsPlaceholder(Name(bs[j])) ==> Key(bs[j]) != Key(bs[i])
  }

  /** The rows `fetch_page` returns for the bindings `bs`, defined from the back. */
  ghost function PageRows(bs: seq<Binding>): seq<Row> {
    if bs == [] then []
    else
      var pre, b := bs[..|bs| - 1], bs[|bs| - 1];
      if IsPlaceholder(Name(b)) || Key(b) in KeysOf(pre) then PageRows(pre)
      else PageRows(pre) + [RowOfBinding(b)]
  }

  /** The indices of the bindings `fetch_page` keeps, in order. */
  ghost function Kept(bs: seq<Binding>): seq<nat> {
    if bs == [] then []
    else
      var pre, b := bs[..|bs| - 1], bs[|bs| - 1];
      if IsPlaceholder(Name(b)) || Key(b) in KeysOf(pre) then Kept(pre)
      else Kept(pre) + [|bs| - 1]
  }

  lemma KeysOfSnoc(bs: seq<Binding>, b: Binding)
    ensures KeysOf(bs + [b]) == KeysOf(bs) + (if IsPlaceholder(Name(b)) then {} else {Key(b)})
  {
    var s := bs + [b];
    forall k | k in KeysOf(s) ensures k in KeysOf(bs) + (if IsPlaceholder(Name(b)) then {} else {Key(b)}) {
      var i :| 0 <= i < |s| && !IsPlaceholder(Name(s[i])) && Key(s[i]) == k;
      if i < |bs| { assert s[i] == bs[i]; }
    }
    forall k | k in KeysOf(bs) ensures k in KeysOf(s) {
      var i :| 0 <= i < |bs| && !IsPlaceholder(Name(bs[i])) && Key(bs[i]) == k;
      assert s[i] == bs[i];
    }
    if !IsPlaceholder(Name(b)) {
      assert s[|bs|] == b;
    }
  }

  /** The last binding is a first occurrence iff it is labelled and its key is new. */
  lemma FirstOfKeyLast(bs: seq<Binding>)
    requires bs != []
    ensures FirstOfKey(bs, |bs| - 1) <==>
      !IsPlaceholder(Name(bs[|bs| - 1])) && Key(bs[|bs| - 1]) !in KeysOf(bs[..|bs| - 1])
  {
    var pre, b := bs[..|bs| - 1], bs[|bs| - 1];
    if Key(b) in KeysOf(pre) {
      var j :| 0 <= j < |pre| && !IsPlaceholder(Name(pre[j])) && Key(pre[j]) == Key(b);
      assert bs[j] == pre[j];
    }
    if !FirstOfKey(bs, |bs| - 1) && !IsPlaceholder(Name(b)) {
      var j :| 0 <= j < |bs| - 1 && !IsPlaceholder(Name(bs[j])) && Key(bs[j]) == Key(b);
      assert pre[j] == bs[j];
    }
  }

  /** First occurrence is a property of the prefix up to the index. */
  lemma FirstOfKeyPrefix(bs: seq<Binding>, n: nat, i: int)
    requires 0 <= i < n <= |bs|
    ensures FirstOfKey(bs[..n], i) <==> FirstOfKey(bs, i)
  {
    var p := bs[..n];
    assert forall j :: 0 <= j <= i ==> p[j] == bs[j];
  }

  /** The kept indices are strictly increasing and are exactly the first
      occurrences of each labelled key; the rows are those bindings' rows. */
  lemma {:induction false} KeptIsFirstOccurrences(bs: seq<Binding>)
    ensures |Kept(bs)| == |PageRows(bs)|
    ensures forall k :: 0 <= k < |Kept(bs)| ==>
      Kept(bs)[k] < |bs| && PageRows(bs)[k] == RowOfBinding(bs[Kept(bs)[k]])
    ensures forall k, l :: 0 <= k < l < |Kept(bs)| ==> Kept(bs)[k] < Kept(bs)[l]
    ensures forall i :: 0 <= i < |bs| ==> (i in Kept(bs) <==> FirstOfKey(bs, i))
  {
    if bs != [] {
      var pre, b := bs[..|bs| - 1], bs[|bs| - 1];
      KeptIsFirstOccurrences(pre);
      FirstOfKeyLast(bs);
      forall i | 0 <= i < |pre| ensures FirstOfKey(pre, i) <==> FirstOfKey(bs, i) {
        FirstOfKeyPrefix(bs, |pre|, i);
      }
      forall k | 0 <= k < |Kept(pre)| ensures bs[Kept(pre)[k]] == pre[Kept(pre)[k]] { }
    }
  }

  /** No two rows of a page share a key. */
  lemma {:induction false} PageRowsKeysDistinct(bs: seq<Binding>)
    ensures forall k, l :: 0 <= k < l < |PageRows(bs)| ==>
      (PageRows(bs)[k].name, PageRows(bs)[k].bggId) != (PageRows(bs)[l].name, PageRows(bs)[l].bggId)
  {
    KeptIsFirstOccurrences(bs);
    var kept, rows := Kept(bs), PageRows(bs);
    forall k, l | 0 <= k < l < |rows|
      ensures (rows[k].name, rows[k].bggId) != (rows[l].name, rows[l].bggId)
    {
      var i, j := kept[k], kept[l];
      assert i in kept && j in kept;
      assert FirstOfKey(bs, j);
      assert Key(bs[i]) != Key(bs[j]);
    }
  }

  /** Every labelled binding's key is the key of some row, and every row's key
      comes from a labelled binding: nothing is lost but duplicates and placeholders. */
  lemma {:induction false} PageRowsKeys(bs: seq<Binding>)
    ensures forall k :: 0 <= k < |PageRows(bs)| ==>
      !IsPlaceholder(PageRows(bs)[k].name) && (PageRows(bs)[k].name, PageRows(bs)[k].bggId) in KeysOf(bs)
    ensures forall i :: 0 <= i < |bs| && !IsPlaceholder(Name(bs[i])) ==>
      exists k :: 0 <= k < |PageRows(bs)| && (PageRows(bs)[k].name, PageRows(bs)[k].bggId) == Key(bs[i])
  {
    KeptIsFirstOccurrences(bs);
    var kept, rows := Kept(bs), PageRows(bs);
    forall k | 0 <= k < |rows|
      ensures !IsPlaceholder(rows[k].name) && (rows[k].name, rows[k].bggId) in KeysOf(bs)
    {
      assert kept[k] in kept;
    }
    forall i | 0 <= i < |bs| && !IsPlaceholder(Name(bs[i]))
      ensures exists k :: 0 <= k < |rows| && (rows[k].name, rows[k].bggId) == Key(bs[i])
    {
      var f := FirstIndex(bs, i);
      var k :| 0 <= k < |kept| && kept[k] == f;
      assert (rows[k].name, rows[k].bggId) == Key(bs[f]);
    }
  }

  /** The first labelled binding with the key of labelled binding `i`. */
  lemma {:induction false} FirstIndexExists(bs: seq<Binding>, i: int)
    requires 0 <= i < |bs| && !IsPlaceholder(Name(bs[i]))
    ensures exists f :: 0 <= f <= i && FirstOfKey(bs, f) && Key(bs[f]) == Key(bs[i])
    decreases i
  {
    if !FirstOfKey(bs, i) {
      var j :| 0 <= j < i && !IsPlaceholder(Name(bs[j])) && Key(bs[j]) == Key(bs[i]);
      FirstIndexExists(bs, j);
    }
  }

  ghost function FirstIndex(bs: seq<Binding>, i: int): (f: int)
    requires 0 <= i < |bs| && !IsPlaceholder(Name(bs[i]))
    ensures 0 <= f <= i && FirstOfKey(bs, f) && Key(bs[f]) == Key(bs[i])
  {
    FirstIndexExists(bs, i);
    var f :| 0 <= f <= i && FirstOfKey(bs, f) && Key(bs[f]) == Key(bs[i]); f
  }

  /** `fetch_page` after the request: the loop over the bindings with the
      `seen` set of keys and the `rows` list. */
  method FilterPage(bs: seq<Binding>) returns (rows: seq<Row>)
    ensures rows == PageRows(bs)
  {
    rows := [];
    var seen: set<(string, string)> := {};
    for i := 0 to |bs|
      invariant rows == PageRows(bs[..i])
      invariant seen == KeysOf(bs[..i])
    {
      var b := bs[i];
      assert bs[..i + 1] == bs[..i] + [b];
      KeysOfSnoc(bs[..i], b);
      var name := Name(b);
      if IsPlaceholder(name) {
        continue;
      }
      var key := Key(b);
      if key in seen {
        continue;
      }
      seen := seen + {key};
      rows := rows + [RowOfBinding(b)];
    }
    assert bs[..|bs|] == bs;
  }

  // ------------------------------------------------------------------ state

  /** wikidata_state.json: absent, not JSON, or a JSON object whose `offset`
      and `done` entries may each be missing. */
  datatype PagerCheckpoint = Absent | Corrupt | Saved(offset: Option<int>, done: Option<bool>)

  /** The state dictionary, as far as `main` and `print_status` read it. */
  datatype PagerState = PagerState(offset: Option<int>, done: Option<bool>)

  datatype PagerOutcome =
    | StateError                        // json.loads raises, or a missing key raises KeyError
    | Status(offset: int, done: bool)   // --status
    | AlreadyDone
    | FetchFailed                       // the HTTP error propagates
    | Fetched(offset: int, written: nat)

  /** `load_state()`: `{offset: 0, done: false}` when absent, the saved object
      otherwise; a file that is not JSON raises (None). */
  function LoadState(c: PagerCheckpoint): (r: Option<PagerState>)
    ensures r.None? <==> c.Corrupt?
    ensures c.Absent? ==> r == Some(PagerState(Some(0), Some(false)))
    ensures c.Saved? ==> r == Some(PagerState(c.offset, c.done))
  {
    match c
    case Absent => Some(PagerState(Some(0), Some(false)))
    case Corrupt => None
    case Saved(o, d) => Some(PagerState(o, d))
  }

  class Pager {
    var checkpoint: PagerCheckpoint
    var outExists: bool
    var out: seq<CsvLine>
    /** The offsets requested from the endpoint, in order. */
    ghost var requests: seq<int>

    ghost predicate Valid()
      reads this
    {
      !outExists ==> out == []
    }

    constructor (checkpoint: PagerCheckpoint, outExists: bool, out: seq<CsvLine>)
      requires !outExists ==> out == []
      ensures Valid()
      ensures this.checkpoint == checkpoint && this.outExists == outExists && this.out == out
      ensures requests == []
    {
      this.checkpoint, this.outExists, this.out := checkpoint, outExists, out;
      requests := [];
    }

    /** `main()`: one page per run, no retry. */
    method Run(endpoint: Endpoint, statusOnly: bool) returns (outcome: PagerOutcome)
      requires Valid()
      modifies this
      ensures Valid()
      ensures var s := LoadState(old(checkpoint));
        if s.None? then outcome == StateError && unchanged(this)
        else if statusOnly then
          (if s.value.done.Some? && s.value.offset.Some?
           then outcome == Status(s.value.offset.value, s.value.done.value)
           else outcome == StateError) && unchanged(this)
        else if s.value.done.None? then outcome == StateError && unchanged(this)
        else if s.value.done.value then outcome == AlreadyDone && unchanged(this)
        else if s.value.offset.None? then outcome == StateError && unchanged(this)
        else
          var offset := s.value.offset.value;
          && requests == old(requests) + [offset]
          && (endpoint(offset).HttpError? ==>
                outcome == FetchFailed && checkpoint == old(checkpoint)
                && outExists == old(outExists) && out == old(out))
          && (endpoint(offset).Page? ==>
                var rows := PageRows(endpoint(offset).bindings);
                && outcome == Fetched(offset, |rows|)
                && outExists
                && out == Opened(old(outExists), old(out)) + DataLines(rows)
                && checkpoint == Saved(Some(offset + PAGE_SIZE), Some(|rows| < PAGE_SIZE)))
    {
      if checkpoint.Corrupt? {
        return StateError;
      }
      var savedOffset, savedDone := if checkpoint.Saved? then checkpoint.offset else Some(0),
                                    if checkpoint.Saved? then checkpoint.done else Some(false);
      if statusOnly {
        // print_status reads s["done"], then s["offset"]
        if savedDone.None? || savedOffset.None? {
          return StateError;
        }
        return Status(savedOffset.value, savedDone.value);
      }
      if savedDone.None? {
        return StateError;
      }
      if savedDone.value {
        return AlreadyDone;
      }
      if savedOffset.None? {
        return StateError;
      }
      var offset, done := savedOffset.value, false;
      requests := requests + [offset];
      var reply := endpoint(offset);
      if reply.HttpError? {
        return FetchFailed;
      }
      var rows := FilterPage(reply.bindings);
      var n := |rows|;
      if !outExists {
        out := [Header];
        outExists := true;
      }
      out := out + DataLines(rows);
      checkpoint := Saved(Some(offset + PAGE_SIZE), Some(done || n < PAGE_SIZE));
      outcome := Fetched(offset, n);
    }
  }
}
