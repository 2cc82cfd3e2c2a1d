/** The ID-sweep harvester of scripts/scrape_bgg.py.

    Each invocation resumes after the persisted cursor `last_id`, sweeps at
    most RUN_LIMIT IDs in batches of BATCH IDs, fetches every batch through a
    bounded retry loop, parses the reply into catalog rows, appends them to
    the CSV and only then advances and saves the cursor.

    The remote XML API is an oracle `Network`: the reply to attempt `k` of the
    request for an ID range. Sleeps, requests, appends and checkpoint saves
    are recorded, in order, in a ghost event log; sleeps in milliseconds. */
module BggSweep {
  import opened Text
  import opened CatalogCsv

  const BATCH: nat := 100
  const MAX_ID: int := 420000
  const RUN_LIMIT: nat := 10000
  const MAX_RETRY: nat := 5
  const DELAY_MS: nat := 600
  const PROCESSING_WAIT_MS: nat := 3000

  // ---------------------------------------------------------------- replies

  /** An XML element of an item and its `value` attribute. */
  datatype Element = Element(value: Option<string>)

  /** One `<item>` child of the root: its `id` and `type` attributes, its
      `name[@type='primary']` element and its `yearpublished` element. */
  datatype Item = Item(id: Option<string>, kind: Option<string>,
                       primaryName: Option<Element>, yearPublished: Option<Element>)

  /** A reply body as ElementTree reads it: unparseable, or the root's items. */
  datatype Payload = Malformed | Items(items: seq<Item>)

  /** The body `"<items/>"` that a batch degrades to after MAX_RETRY attempts. */
  const EMPTY_ITEMS: Payload := Items([])

  /** One HTTP attempt: a body (any status other than 202 that is not an
      error), a 202 "processing" answer, or a request exception (connection
      error, timeout, 4xx/5xx status). */
  datatype Reply = Ok(body: Payload) | Processing | Failed

  /** The IDs `first..last` (inclusive) of one batch request. */
  datatype IdRange = IdRange(first: int, last: int)

  type Network = (IdRange, nat) -> Reply

  datatype Event =
    | Request(ids: IdRange, attempt: nat)
    | Sleep(ms: nat)
    | Append(ids: IdRange, rows: nat)
    | SaveState(lastId: int)

  // ------------------------------------------------------------ parse_batch

  /** A cell handed to the CSV writer: Python `None` is written as "". */
  function Cell(v: Option<string>): string {
    if v.Some? then v.value else ""
  }

  /** `el.get("value") if el is not None else ""`, as written to the CSV. */
  function ElementValue(e: Option<Element>): string {
    if e.None? then "" else Cell(e.value.value)
  }

  function RowOf(item: Item): Row {
    Row(Cell(item.id), ElementValue(item.primaryName), ElementValue(item.yearPublished), Cell(item.kind))
  }

  /** `parse_batch`: no rows for a malformed body; otherwise one row per item
      in document order, carrying the item's id and type, and the `value` of its
      primary-name and year elements, or "" when the element is absent. */
  function ParseBatch(p: Payload): (rows: seq<Row>)
    ensures p.Malformed? ==> rows == []
    ensures p.Items? ==> |rows| == |p.items|
    ensures p.Items? ==> forall i :: 0 <= i < |rows| ==>
      rows[i].bggId == Cell(p.items[i].id) && rows[i].kind == Cell(p.items[i].kind)
      && (p.items[i].primaryName.None? ==> rows[i].name == "")
      && (p.items[i].yearPublished.None? ==> rows[i].year == "")
      && (p.items[i].primaryName.Some? ==> rows[i].name == Cell(p.items[i].primaryName.value.value))
      && (p.items[i].yearPublished.Some? ==> rows[i].year == Cell(p.items[i].yearPublished.value.value))
  {
    match p
    case Malformed => []
    case Items(items) => seq(|items|, i requires 0 <= i < |items| => RowOf(items[i]))
  }

  // ------------------------------------------------------------ fetch_batch

  function Pow2(k: nat): (r: nat)
    ensures r >= 1
  {
    if k == 0 then 1 else 2 * Pow2(k - 1)
  }

  /** The pause after an unsuccessful attempt `k`: 3 s after a 202, 2^k s after an exception. */
  function BackoffMs(reply: Reply, attempt: nat): nat
    requires !reply.Ok?
  {
    if reply.Processing? then PROCESSING_WAIT_MS else 1000 * Pow2(attempt)
  }

  /** The outcome of the retry loop: the body returned, the number of HTTP
      attempts made and the requests and sleeps, in order. */
  datatype Fetched = Fetched(payload: Payload, attempts: nat, log: seq<Event>)

  predicate FetchEvent(e: Event) { e.Request? || e.Sleep? }

  /** The retry loop of `fetch_batch` from attempt `attempt` on. */
  function RetryFrom(net: Network, ids: IdRange, attempt: nat): (r: Fetched)
    requires attempt <= MAX_RETRY
    ensures r.attempts <= MAX_RETRY - attempt
    ensures attempt < MAX_RETRY ==> 1 <= r.attempts
    ensures forall i :: 0 <= i < |r.log| ==> FetchEvent(r.log[i])
    decreases MAX_RETRY - attempt
  {
    if attempt == MAX_RETRY then Fetched(EMPTY_ITEMS, 0, [])
    else
      var reply := net(ids, attempt);
      if reply.Ok? then Fetched(reply.body, 1, [Request(ids, attempt)])
      else
        var rest := RetryFrom(net, ids, attempt + 1);
        Fetched(rest.payload, rest.attempts + 1,
                [Request(ids, attempt), Sleep(BackoffMs(reply, attempt))] + rest.log)
  }

  function Fetch(net: Network, ids: IdRange): Fetched {
    RetryFrom(net, ids, 0)
  }

  /** The first successful attempt decides the body; no attempt is made after it. */
  lemma {:induction false} RetryReturnsFirstOk(net: Network, ids: IdRange, attempt: nat, k: nat)
    requires attempt <= k < MAX_RETRY
    requires net(ids, k).Ok?
    requires forall j :: attempt <= j < k ==> !net(ids, j).Ok?
    ensures RetryFrom(net, ids, attempt).payload == net(ids, k).body
    ensures RetryFrom(net, ids, attempt).attempts == k - attempt + 1
    decreases k - attempt
  {
    if attempt < k {
      RetryReturnsFirstOk(net, ids, attempt + 1, k);
    }
  }

  lemma FetchReturnsFirstOk(net: Network, ids: IdRange, k: nat)
    requires k < MAX_RETRY
    requires net(ids, k).Ok?
    requires forall j :: 0 <= j < k ==> !net(ids, j).Ok?
    ensures Fetch(net, ids).payload == net(ids, k).body
    ensures Fetch(net, ids).attempts == k + 1
  {
    RetryReturnsFirstOk(net, ids, 0, k);
  }

  /** With no successful attempt, every attempt is made and the body is the empty item list. */
  lemma {:induction false} RetryExhausted(net: Network, ids: IdRange, attempt: nat)
    requires attempt <= MAX_RETRY
    requires forall j :: attempt <= j < MAX_RETRY ==> !net(ids, j).Ok?
    ensures RetryFrom(net, ids, attempt).payload == EMPTY_ITEMS
    ensures RetryFrom(net, ids, attempt).attempts == MAX_RETRY - attempt
    ensures |RetryFrom(net, ids, attempt).log| == 2 * (MAX_RETRY - attempt)
    decreases MAX_RETRY - attempt
  {
    if attempt < MAX_RETRY {
      RetryExhausted(net, ids, attempt + 1);
    }
  }

  /** With no successful attempt, attempt `j` is a request followed by its back-off pause. */
  lemma {:induction false} RetryExhaustedAt(net: Network, ids: IdRange, attempt: nat, j: nat)
    requires attempt <= j < MAX_RETRY
    requires forall i :: attempt <= i < MAX_RETRY ==> !net(ids, i).Ok?
    ensures 2 * (j - attempt) + 1 < |RetryFrom(net, ids, attempt).log|
    ensures RetryFrom(net, ids, attempt).log[2 * (j - attempt)] == Request(ids, j)
    ensures RetryFrom(net, ids, attempt).log[2 * (j - attempt) + 1] == Sleep(BackoffMs(net(ids, j), j))
    decreases j - attempt
  {
    var r, rest := RetryFrom(net, ids, attempt), RetryFrom(net, ids, attempt + 1);
    assert r.log == [Request(ids, attempt), Sleep(BackoffMs(net(ids, attempt), attempt))] + rest.log;
    if attempt < j {
      RetryExhaustedAt(net, ids, attempt + 1, j);
      var m := 2 * (j - (attempt + 1));
      assert r.log[m + 2] == rest.log[m];
      assert r.log[m + 3] == rest.log[m + 1];
    }
  }

  /** After MAX_RETRY failed attempts the batch is skipped as `"<items/>"`:
      five requests, each followed by 3 s (202) or 2^k s (exception at attempt k). */
  lemma FetchExhausted(net: Network, ids: IdRange)
    requires forall j :: 0 <= j < MAX_RETRY ==> !net(ids, j).Ok?
    ensures Fetch(net, ids).payload == EMPTY_ITEMS
    ensures Fetch(net, ids).attempts == MAX_RETRY
    ensures ParseBatch(Fetch(net, ids).payload) == []
    ensures forall j :: 0 <= j < MAX_RETRY ==>
      Fetch(net, ids).log[2 * j] == Request(ids, j)
      && Fetch(net, ids).log[2 * j + 1] == Sleep(if net(ids, j).Processing? then 3000 else 1000 * Pow2(j))
  {
    RetryExhausted(net, ids, 0);
    forall j | 0 <= j < MAX_RETRY
      ensures Fetch(net, ids).log[2 * j] == Request(ids, j)
      ensures Fetch(net, ids).log[2 * j + 1] == Sleep(if net(ids, j).Processing? then 3000 else 1000 * Pow2(j))
    {
      RetryExhaustedAt(net, ids, 0, j);
    }
  }

  lemma RetryStep(net: Network, ids: IdRange, attempt: nat)
    requires attempt < MAX_RETRY
    ensures net(ids, attempt).Ok? ==>
      RetryFrom(net, ids, attempt) == Fetched(net(ids, attempt).body, 1, [Request(ids, attempt)])
    ensures !net(ids, attempt).Ok? ==>
      var rest := RetryFrom(net, ids, attempt + 1);
      && RetryFrom(net, ids, attempt).payload == rest.payload
      && RetryFrom(net, ids, attempt).attempts == rest.attempts + 1
      && RetryFrom(net, ids, attempt).log
         == [Request(ids, attempt), Sleep(BackoffMs(net(ids, attempt), attempt))] + rest.log
  {
  }

  /** `fetch_batch`: at most MAX_RETRY attempts, the first successful body, else `"<items/>"`. */
  method FetchBatch(net: Network, ids: IdRange) returns (payload: Payload, attempts: nat, ghost log: seq<Event>)
    ensures Fetched(payload, attempts, log) == Fetch(net, ids)
    ensures 1 <= attempts <= MAX_RETRY
  {
    attempts, log := 0, [];
    ghost var total := Fetch(net, ids);
    var attempt := 0;
    while attempt < MAX_RETRY
      invariant attempt <= MAX_RETRY && attempts == attempt
      invariant total.payload == RetryFrom(net, ids, attempt).payload
      invariant total.attempts == attempts + RetryFrom(net, ids, attempt).attempts
      invariant total.log == log + RetryFrom(net, ids, attempt).log
    {
      var reply := net(ids, attempt);
      RetryStep(net, ids, attempt);
      attempts := attempts + 1;
      if reply.Ok? {
        log := log + [Request(ids, attempt)];
        payload := reply.body;
        return;
      }
      // a 202 waits 3 s; an exception waits 2^attempt s
      ghost var step := [Request(ids, attempt), Sleep(BackoffMs(reply, attempt))];
      assert total.log == (log + step) + RetryFrom(net, ids, attempt + 1).log by {
        ConcatAssoc(log, step, RetryFrom(net, ids, attempt + 1).log);
      }
      log := log + step;
      attempt := attempt + 1;
    }
    payload := EMPTY_ITEMS;
  }

  // ------------------------------------------------------------- the ranges

  function Min(a: int, b: int): int { if a <= b then a else b }

  /** The IDs of one run after cursor `lastId`, or None once the sweep is complete. */
  function Plan(lastId: int): (r: Option<IdRange>)
    ensures r.Some? <==> lastId < MAX_ID
    ensures r.Some? ==> r.value.first == lastId + 1 && r.value.first <= r.value.last <= MAX_ID
    ensures r.Some? ==> r.value.last - r.value.first + 1 <= RUN_LIMIT
    ensures r.Some? ==> r.value.last == MAX_ID || r.value.last - r.value.first + 1 == RUN_LIMIT
  {
    if lastId >= MAX_ID then None
    else
      var start := lastId + 1;
      Some(IdRange(start, Min(start + RUN_LIMIT - 1, MAX_ID)))
  }

  /** The number of runs until the sweep is complete, starting from cursor `lastId`. */
  function RunsLeft(lastId: int): (n: nat)
    decreases MAX_ID - lastId
  {
    if lastId >= MAX_ID then 0 else 1 + RunsLeft(Plan(lastId).value.last)
  }

  /** Each run moves the cursor exactly to the end of its range, so runs tile
      the ID space: ceil((MAX_ID - lastId) / RUN_LIMIT) runs complete it. */
  lemma {:induction false} RunsLeftIsCeiling(lastId: int)
    ensures lastId >= MAX_ID ==> RunsLeft(lastId) == 0
    ensures lastId < MAX_ID ==> RunsLeft(lastId) == (MAX_ID - lastId + RUN_LIMIT - 1) / RUN_LIMIT
    decreases MAX_ID - lastId
  {
    if lastId < MAX_ID {
      var next := Plan(lastId).value.last;
      RunsLeftIsCeiling(next);
    }
  }

  /** `for batch_start in range(start, end + 1, BATCH)` with
      `ids = range(batch_start, min(batch_start + BATCH, end + 1))`. */
  function Batches(start: int, end: int): (r: seq<IdRange>)
    decreases end - start + 1
  {
    if start > end then []
    else [IdRange(start, Min(start + BATCH, end + 1) - 1)] + Batches(start + BATCH, end)
  }

  lemma {:induction false} BatchesLast(start: int, end: int)
    requires start <= end
    ensures Batches(start, end) != [] && Batches(start, end)[|Batches(start, end)| - 1].last == end
    decreases end - start
  {
    if start + BATCH <= end {
      BatchesLast(start + BATCH, end);
    }
  }

  /** The batches of a run are contiguous, in increasing order, BATCH IDs each
      except possibly the last, and cover exactly `start..end`; there are
      `(end - start) / BATCH + 1` of them. */
  lemma {:induction false} BatchesShape(start: int, end: int)
    requires start <= end
    ensures var r := Batches(start, end);
      && |r| == (end - start) / BATCH + 1
      && r[0].first == start
      && r[|r| - 1].last == end
      && (forall i :: 0 <= i < |r| ==>
            r[i].first == start + i * BATCH && r[i].first <= r[i].last && r[i].last - r[i].first < BATCH)
      && (forall i :: 0 <= i < |r| - 1 ==>
            r[i].last - r[i].first + 1 == BATCH && r[i + 1].first == r[i].last + 1)
    decreases end - start
  {
    var r := Batches(start, end);
    if start + BATCH <= end {
      BatchesShape(start + BATCH, end);
      var rest := Batches(start + BATCH, end);
      assert r == [IdRange(start, start + BATCH - 1)] + rest;
      forall i | 0 < i < |r| ensures r[i].first == start + i * BATCH {
        assert r[i] == rest[i - 1];
      }
    }
  }

  /** Every ID of `start..end` lies in exactly one batch. */
  lemma BatchesCover(start: int, end: int, id: int)
    requires start <= id <= end
    ensures var r := Batches(start, end);
      exists i :: 0 <= i < |r| && r[i].first <= id <= r[i].last
    ensures var r := Batches(start, end);
      forall i, j :: (0 <= i < |r| && 0 <= j < |r| && r[i].first <= id <= r[i].last
        && r[j].first <= id <= r[j].last) ==> i == j
  {
    BatchesShape(start, end);
    var r := Batches(start, end);
    var k := (id - start) / BATCH;
    assert r[k].first <= id <= r[k].last;
  }

  // -------------------------------------------------------- the sweep's effect

  function BatchRows(net: Network, ids: IdRange): seq<Row> {
    ParseBatch(Fetch(net, ids).payload)
  }

  /** One loop iteration: fetch (requests and pauses), append and flush the
      rows, save the cursor, sleep DELAY. */
  function BatchLog(net: Network, ids: IdRange): seq<Event> {
    Fetch(net, ids).log + [Append(ids, |BatchRows(net, ids)|), SaveState(ids.last), Sleep(DELAY_MS)]
  }

  function SweepRows(net: Network, rs: seq<IdRange>): seq<Row> {
    if rs == [] then [] else SweepRows(net, rs[..|rs| - 1]) + BatchRows(net, rs[|rs| - 1])
  }

  function SweepLog(net: Network, rs: seq<IdRange>): seq<Event> {
    if rs == [] then [] else SweepLog(net, rs[..|rs| - 1]) + BatchLog(net, rs[|rs| - 1])
  }

  lemma SweepStep(net: Network, done: seq<IdRange>, ids: IdRange)
    ensures SweepRows(net, done + [ids]) == SweepRows(net, done) + BatchRows(net, ids)
    ensures SweepLog(net, done + [ids]) == SweepLog(net, done) + BatchLog(net, ids)
    ensures DataLines(SweepRows(net, done + [ids])) == DataLines(SweepRows(net, done)) + DataLines(BatchRows(net, ids))
  {
    assert (done + [ids])[..|done|] == done;
    DataLinesAppend(SweepRows(net, done), BatchRows(net, ids));
  }

  /** Appending one batch's lines and events to a sweep of `done` gives the sweep of `done + [ids]`. */
  lemma SweepAdvance(net: Network, out0: seq<CsvLine>, events0: seq<Event>, done: seq<IdRange>, ids: IdRange,
                     out: seq<CsvLine>, events: seq<Event>)
    requires out == out0 + DataLines(SweepRows(net, done)) + DataLines(BatchRows(net, ids))
    requires events == events0 + SweepLog(net, done) + BatchLog(net, ids)
    ensures out == out0 + DataLines(SweepRows(net, done + [ids]))
    ensures events == events0 + SweepLog(net, done + [ids])
    ensures |SweepRows(net, done + [ids])| == |SweepRows(net, done)| + |BatchRows(net, ids)|
  {
    SweepStep(net, done, ids);
    ConcatAssoc(out0, DataLines(SweepRows(net, done)), DataLines(BatchRows(net, ids)));
    ConcatAssoc(events0, SweepLog(net, done), BatchLog(net, ids));
  }

  lemma ConcatAssoc<T>(a: seq<T>, b: seq<T>, c: seq<T>)
    ensures a + b + c == a + (b + c)
  {
  }

  /** Every checkpoint save in `log` comes right after the append (and flush)
      of the rows of the batch whose last ID it records. */
  ghost predicate SavesFollowAppends(log: seq<Event>) {
    forall i :: 0 <= i < |log| && log[i].SaveState? ==>
      0 < i && log[i - 1].Append? && log[i - 1].ids.last == log[i].lastId
  }

  lemma {:induction false} SaveFollowsAppend(net: Network, rs: seq<IdRange>)
    ensures SavesFollowAppends(SweepLog(net, rs))
  {
    if rs != [] {
      var pre, b := rs[..|rs| - 1], rs[|rs| - 1];
      SaveFollowsAppend(net, pre);
      var p, f := SweepLog(net, pre), Fetch(net, b).log;
      var tail := [Append(b, |BatchRows(net, b)|), SaveState(b.last), Sleep(DELAY_MS)];
      var log := SweepLog(net, rs);
      assert log == p + (f + tail);
      forall i | 0 <= i < |log| && log[i].SaveState?
        ensures 0 < i && log[i - 1].Append? && log[i - 1].ids.last == log[i].lastId
      {
        if i < |p| {
          assert log[i] == p[i];
          assert 0 < i && p[i - 1].Append? && p[i - 1].ids.last == p[i].lastId;
          assert log[i - 1] == p[i - 1];
        } else if i < |p| + |f| {
          assert false;
        } else {
          var t := i - |p| - |f|;
          assert log[i] == tail[t];
          assert t == 1;
          assert log[i - 1] == tail[0];
        }
      }
    }
  }

  /** The cursor values saved, in order. */
  function Saves(log: seq<Event>): seq<int> {
    if log == [] then []
    else if log[|log| - 1].SaveState? then Saves(log[..|log| - 1]) + [log[|log| - 1].lastId]
    else Saves(log[..|log| - 1])
  }

  lemma {:induction false} SavesAppend(a: seq<Event>, b: seq<Event>)
    ensures Saves(a + b) == Saves(a) + Saves(b)
    decreases |b|
  {
    if b != [] {
      var b', e := b[..|b| - 1], b[|b| - 1];
      SavesAppend(a, b');
      assert (a + b)[..|a + b| - 1] == a + b';
      assert (a + b)[|a + b| - 1] == e;
      if e.SaveState? {
        calc {
          Saves(a + b);
          Saves(a + b') + [e.lastId];
          Saves(a) + Saves(b') + [e.lastId];
          Saves(a) + Saves(b);
        }
      } else {
        calc {
          Saves(a + b);
          Saves(a + b');
          Saves(a) + Saves(b');
          Saves(a) + Saves(b);
        }
      }
    } else {
      assert a + b == a;
    }
  }

  lemma {:induction false} SavesOfFetch(log: seq<Event>)
    requires forall i :: 0 <= i < |log| ==> FetchEvent(log[i])
    ensures Saves(log) == []
    decreases |log|
  {
    if log != [] {
      SavesOfFetch(log[..|log| - 1]);
    }
  }

  function Lasts(rs: seq<IdRange>): (r: seq<int>)
    ensures |r| == |rs| && forall i :: 0 <= i < |rs| ==> r[i] == rs[i].last
  {
    if rs == [] then [] else Lasts(rs[..|rs| - 1]) + [rs[|rs| - 1].last]
  }

  /** The cursor is saved once per batch, with that batch's last ID. */
  lemma {:induction false} SweepSaves(net: Network, rs: seq<IdRange>)
    ensures Saves(SweepLog(net, rs)) == Lasts(rs)
  {
    if rs != [] {
      var pre, b := rs[..|rs| - 1], rs[|rs| - 1];
      SweepSaves(net, pre);
      var f := Fetch(net, b).log;
      var tail := [Append(b, |BatchRows(net, b)|), SaveState(b.last), Sleep(DELAY_MS)];
      SavesAppend(SweepLog(net, pre), f + tail);
      SavesAppend(f, tail);
      SavesOfFetch(f);
      assert Saves(tail) == [b.last] by {
        assert tail[..|tail| - 1] == tail[..2];
        assert tail[..2][..1] == tail[..1];
        assert tail[..1][..0] == [];
        assert Saves(tail) == Saves(tail[..2]);
        assert Saves(tail[..2]) == Saves(tail[..1]) + [b.last];
        assert Saves(tail[..1]) == Saves(tail[..1][..0]);
      }
    }
  }

  /** Over one run the saved cursor is strictly increasing and ends at the run's last ID. */
  lemma RunSavesIncrease(net: Network, start: int, end: int)
    requires start <= end
    ensures var s := Saves(SweepLog(net, Batches(start, end)));
      && |s| == (end - start) / BATCH + 1
      && s[|s| - 1] == end
      && (forall i :: 0 <= i < |s| - 1 ==> s[i] < s[i + 1])
  {
    BatchesShape(start, end);
    SweepSaves(net, Batches(start, end));
  }

  /** The batch loop of `main()` over the batches `rs` of one run: each batch
      is fetched and parsed, its rows are appended to the CSV lines `lines0`
      (written and flushed), then the cursor is saved and the loop sleeps
      DELAY. Returns the number of rows found, the new lines and the events. */
  method SweepBatches(net: Network, rs: seq<IdRange>, lines0: seq<CsvLine>, ghost log0: seq<Event>)
    returns (found: nat, lines: seq<CsvLine>, ghost log: seq<Event>)
    ensures lines == lines0 + DataLines(SweepRows(net, rs))
    ensures log == log0 + SweepLog(net, rs)
    ensures found == |SweepRows(net, rs)|
  {
    found, lines, log := 0, lines0, log0;
    for k := 0 to |rs|
      invariant lines == lines0 + DataLines(SweepRows(net, rs[..k]))
      invariant log == log0 + SweepLog(net, rs[..k])
      invariant found == |SweepRows(net, rs[..k])|
    {
      var payload: Payload;
      var attempts: nat;
      ghost var fetchLog: seq<Event>;
      payload, attempts, fetchLog := FetchBatch(net, rs[k]);
      var rows := ParseBatch(payload);
      lines := lines + DataLines(rows);
      log := log + (fetchLog + [Append(rs[k], |rows|), SaveState(rs[k].last), Sleep(DELAY_MS)]);
      found := found + |rows|;
      assert rs[..k + 1] == rs[..k] + [rs[k]];
      SweepAdvance(net, lines0, log0, rs[..k], rs[k], lines, log);
    }
    assert rs[..|rs|] == rs;
  }

  // ------------------------------------------------------------------ state

  /** scraper_state.json: absent, not JSON, or a JSON object whose `last_id`
      entry may be missing. */
  datatype Checkpoint = Absent | Corrupt | Saved(lastId: Option<int>)

  /** The state dictionary, as far as `main` reads it. */
  datatype State = State(lastId: Option<int>)

  /** `load_state()`: `{last_id: 0}` when the file is absent, the saved object
      otherwise; a file that is not JSON raises (None). */
  function LoadState(c: Checkpoint): (r: Option<State>)
    ensures r.None? <==> c.Corrupt?
    ensures c.Absent? ==> r == Some(State(Some(0)))
    ensures c.Saved? ==> r == Some(State(c.lastId))
  {
    match c
    case Absent => Some(State(Some(0)))
    case Corrupt => None
    case Saved(id) => Some(State(id))
  }

  datatype RunOutcome =
    | StateError          // json.loads raises, or s["last_id"] raises KeyError
    | MissingToken        // sys.exit(1)
    | Status(lastId: int) // --status
    | AlreadyComplete
    | Swept(ids: IdRange, found: nat)

  class Harvester {
    var checkpoint: Checkpoint
    var outExists: bool
    var out: seq<CsvLine>
    ghost var events: seq<Event>

    ghost predicate Valid()
      reads this
    {
      !outExists ==> out == []
    }

    constructor (checkpoint: Checkpoint, outExists: bool, out: seq<CsvLine>)
      requires !outExists ==> out == []
      ensures Valid()
      ensures this.checkpoint == checkpoint && this.outExists == outExists && this.out == out
      ensures events == []
    {
      this.checkpoint, this.outExists, this.out := checkpoint, outExists, out;
      events := [];
    }

    /** `main()`: load the cursor, check the token, answer `--status`, stop
        when complete, else sweep the next range batch by batch. */
    method Run(net: Network, hasToken: bool, statusOnly: bool) returns (outcome: RunOutcome)
      requires Valid()
      modifies this
      ensures Valid()
      ensures var st := LoadState(old(checkpoint));
        var last := if st.Some? then st.value.lastId else None;
        if st.None? then outcome == StateError && unchanged(this)
        else if !hasToken then outcome == MissingToken && unchanged(this)
        else if last.None? then outcome == StateError && unchanged(this)
        else if statusOnly then outcome == Status(last.value) && unchanged(this)
        else if Plan(last.value).None? then outcome == AlreadyComplete && unchanged(this)
        else
          var ids := Plan(last.value).value;
          var rs := Batches(ids.first, ids.last);
          && outcome == Swept(ids, |SweepRows(net, rs)|)
          && checkpoint == Saved(Some(ids.last))
          && outExists
          && out == Opened(old(outExists), old(out)) + DataLines(SweepRows(net, rs))
          && events == old(events) + SweepLog(net, rs)
    {
      if checkpoint.Corrupt? {
        return StateError;
      }
      var cursor := if checkpoint.Saved? then checkpoint.lastId else Some(0);
      if !hasToken {
        return MissingToken;
      }
      if cursor.None? {
        return StateError;
      }
      var lastId := cursor.value;
      if statusOnly {
        return Status(lastId);
      }
      if lastId >= MAX_ID {
        return AlreadyComplete;
      }
      var start := lastId + 1;
      var end := Min(start + RUN_LIMIT - 1, MAX_ID);
      var firstWrite := !outExists;
      if firstWrite {
        out := [Header];
      }
      outExists := true;
      var rs := Batches(start, end);
      BatchesLast(start, end);
      var found, lines;
      ghost var log;
      found, lines, log := SweepBatches(net, rs, out, events);
      out, events, checkpoint := lines, log, Saved(Some(rs[|rs| - 1].last));
      outcome := Swept(IdRange(start, end), found);
    }
  }
}
