/** The driver of index.go: processRecords validates the file and its header
    and hands the reader to processEachRecord, which handles one record at a
    time. Every log.Fatalf becomes an Aborted run that keeps the lines
    printed before it. */
module Driver {
  import opened Text
  import opened RecordSource
  import opened Reporter
  import opened Classifier

  /** What fetchPageContent returned for a record's URL. */
  datatype Fetch = Page(content: string) | FetchFailed(reason: string)

  /** One read of the CSV reader after the header, paired with what the
      network does for that record: the page fetch and the reply of the
      completion endpoint to the request built from the page. */
  datatype Step = Step(row: Row, fetch: Fetch, reply: Reply)

  /** What the program prints, as tagged values. */
  datatype Event =
    | Progressed(progress: Progress)
    | Skipped(url: string, reason: string)
    | Classified(name: string, verdict: Verdict)
    | Completed

  /** The reasons the program stops through log.Fatalf. */
  datatype Fatal =
    | OpenFailed
    | LineCountFailed
    | NoRecords
    | HeaderUnreadable
    | NoNameColumn
    | NoUrlColumn
    | RowUnreadable
    | ModelFailed(reason: string)

  /** A run: it finishes, or it aborts after printing `events`. */
  datatype Run = Finished(events: seq<Event>) | Aborted(events: seq<Event>, fatal: Fatal)

  /** What one record adds to the output, and whether processing goes on. */
  datatype Outcome = Continue(events: seq<Event>) | Halt(events: seq<Event>, fatal: Fatal)

  /** A line that stays on the screen: a skip or a classification. */
  predicate Permanent(e: Event) {
    e.Skipped? || e.Classified?
  }

  /** One iteration of processEachRecord's loop, for the `count`-th record. */
  function HandleRecord(count: int, step: Step, nameIndex: nat, urlIndex: nat, total: int, width: nat): (o: Outcome)
    requires nameIndex < width && urlIndex < width && count >= 1
    ensures o.Halt? <==> !Readable(step.row, width) || (step.fetch.Page? && step.reply.ReplyFailed?)
    ensures !Readable(step.row, width) ==> o == Halt([], RowUnreadable)
    ensures Readable(step.row, width) ==> |o.events| >= 1 && o.events[0] == Progressed(DisplayProgress(count, total))
    ensures o.Continue? ==> |o.events| == 2 && Permanent(o.events[1])
    ensures Readable(step.row, width) && step.fetch.FetchFailed? ==>
      o.events[1] == Skipped(step.row.cells[urlIndex], step.fetch.reason)
    ensures Readable(step.row, width) && step.fetch.Page? && step.reply.Replied? ==>
      o.events[1] == Classified(step.row.cells[nameIndex], Classify(step.reply.content))
    ensures o.Halt? && Readable(step.row, width) ==> |o.events| == 1
  {
    if !Readable(step.row, width) then Halt([], RowUnreadable)
    else
      var shown := Progressed(DisplayProgress(count, total));
      var name, url := step.row.cells[nameIndex], step.row.cells[urlIndex];
      match step.fetch
      case FetchFailed(reason) => Continue([shown, Skipped(url, reason)])
      case Page(content) =>
        match QueryModel(content, step.reply)
        case QueryFailed(reason) => Halt([shown], ModelFailed(reason))
        case Answered(text) => Continue([shown, Classified(name, Classify(text))])
  }

  /** The output of processEachRecord's loop over `steps`, before the final
      line: the records are handled in order and the first Halt stops it. */
  function Records(steps: seq<Step>, nameIndex: nat, urlIndex: nat, total: int, width: nat): (r: Run)
    requires nameIndex < width && urlIndex < width
    decreases |steps|
  {
    if steps == [] then Finished([])
    else
      match Records(steps[..|steps| - 1], nameIndex, urlIndex, total, width)
      case Aborted(events, fatal) => Aborted(events, fatal)
      case Finished(events) =>
        match HandleRecord(|steps|, steps[|steps| - 1], nameIndex, urlIndex, total, width)
        case Continue(more) => Finished(events + more)
        case Halt(more, fatal) => Aborted(events + more, fatal)
  }

  /** The whole output of processEachRecord: "Processing complete." follows
      the records unless a record stopped the program. */
  function EachRecord(steps: seq<Step>, nameIndex: nat, urlIndex: nat, total: int, width: nat): (r: Run)
    requires nameIndex < width && urlIndex < width
    ensures r.Finished? ==> |r.events| >= 1 && r.events[|r.events| - 1] == Completed
    ensures r.Finished? ==> Completed !in r.events[..|r.events| - 1]
    ensures r.Aborted? ==> Completed !in r.events
  {
    RecordsNeverComplete(steps, nameIndex, urlIndex, total, width);
    match Records(steps, nameIndex, urlIndex, total, width)
    case Finished(events) => Finished(events + [Completed])
    case Aborted(events, fatal) => Aborted(events, fatal)
  }

  /** No record prints the completion line. */
  lemma {:induction false} RecordsNeverComplete(steps: seq<Step>, nameIndex: nat, urlIndex: nat, total: int, width: nat)
    requires nameIndex < width && urlIndex < width
    ensures Completed !in Records(steps, nameIndex, urlIndex, total, width).events
    decreases |steps|
  {
    if steps != [] {
      var init := steps[..|steps| - 1];
      RecordsNeverComplete(init, nameIndex, urlIndex, total, width);
      var o := HandleRecord(|steps|, steps[|steps| - 1], nameIndex, urlIndex, total, width);
      assert Completed !in o.events;
    }
  }

  /** Once a prefix of the records aborts, the later records change nothing. */
  lemma {:induction false} AbortIsFinal(steps: seq<Step>, k: nat, nameIndex: nat, urlIndex: nat, total: int, width: nat)
    requires nameIndex < width && urlIndex < width
    requires k <= |steps| && Records(steps[..k], nameIndex, urlIndex, total, width).Aborted?
    ensures Records(steps, nameIndex, urlIndex, total, width) == Records(steps[..k], nameIndex, urlIndex, total, width)
    decreases |steps|
  {
    if k < |steps| {
      var init := steps[..|steps| - 1];
      assert init[..k] == steps[..k];
      AbortIsFinal(init, k, nameIndex, urlIndex, total, width);
    } else {
      assert steps[..k] == steps;
    }
  }

  /** The run a record leaves: a stopped run stays as it is; otherwise the
      record's lines are added, and a Halt stops the run. */
  function Extend(r: Run, o: Outcome): Run {
    match r
    case Aborted(events, fatal) => Aborted(events, fatal)
    case Finished(events) =>
      match o
      case Continue(more) => Finished(events + more)
      case Halt(more, fatal) => Aborted(events + more, fatal)
  }

  /** The run over the first n + 1 records extends the run over the first n
      with the outcome of record n + 1. */
  lemma RecordsNext(steps: seq<Step>, n: nat, nameIndex: nat, urlIndex: nat, total: int, width: nat)
    requires nameIndex < width && urlIndex < width && n < |steps|
    ensures Records(steps[..n + 1], nameIndex, urlIndex, total, width) ==
      Extend(Records(steps[..n], nameIndex, urlIndex, total, width), HandleRecord(n + 1, steps[n], nameIndex, urlIndex, total, width))
  {
    assert steps[..n + 1][..n] == steps[..n];
  }

  lemma AppendPairs(e1: Event, e2: Event, e3: Event, e4: Event)
    ensures [e1, e2] + [e3, e4] + [Completed] == [e1, e2, e3, e4, Completed]
  {
  }

  lemma AppendTwo(events: seq<Event>, x: Event, y: Event)
    ensures events + [x] + [y] == events + [x, y]
  {
  }

  /** processEachRecord: reads the records one by one, counting each record
      read before anything else happens to it. */
  method ProcessEachRecord(steps: seq<Step>, nameIndex: nat, urlIndex: nat, total: int, width: nat) returns (r: Run)
    requires nameIndex < width && urlIndex < width
    ensures r == EachRecord(steps, nameIndex, urlIndex, total, width)
  {
    var processedRecords := 0;
    var events: seq<Event> := [];
    var next := 0;
    while next < |steps|
      invariant 0 <= next <= |steps|
      invariant processedRecords == next
      invariant Records(steps[..next], nameIndex, urlIndex, total, width) == Finished(events)
    {
      var step := steps[next];
      ghost var before := events;
      RecordsNext(steps, next, nameIndex, urlIndex, total, width);
      next := next + 1;
      if !Readable(step.row, width) {
        assert events + [] == events;
        AbortIsFinal(steps, next, nameIndex, urlIndex, total, width);
        return Aborted(events, RowUnreadable);
      }

      processedRecords := processedRecords + 1;
      var shown := Progressed(DisplayProgress(processedRecords, total));
      events := events + [shown];

      var name, url := step.row.cells[nameIndex], step.row.cells[urlIndex];
      if step.fetch.FetchFailed? {
        var skipped := Skipped(url, step.fetch.reason);
        events := events + [skipped];
        AppendTwo(before, shown, skipped);
        continue;
      }

      var answer := QueryModel(step.fetch.content, step.reply);
      if answer.QueryFailed? {
        AbortIsFinal(steps, next, nameIndex, urlIndex, total, width);
        return Aborted(events, ModelFailed(answer.reason));
      }
      var classified := Classified(name, Classify(answer.text));
      events := events + [classified];
      AppendTwo(before, shown, classified);
    }
    assert steps[..next] == steps;
    r := Finished(events + [Completed]);
  }

  /** A run over all records prints, for the k-th record, its progress and
      then its one permanent line, and nothing else. */
  lemma FinishedShape(steps: seq<Step>, nameIndex: nat, urlIndex: nat, total: int, width: nat)
    requires nameIndex < width && urlIndex < width
    requires Records(steps, nameIndex, urlIndex, total, width).Finished?
    ensures var events := Records(steps, nameIndex, urlIndex, total, width).events;
      |events| == 2 * |steps| &&
      forall k :: 0 <= k < |steps| ==>
        Readable(steps[k].row, width) &&
        HandleRecord(k + 1, steps[k], nameIndex, urlIndex, total, width) == Continue([events[2 * k], events[2 * k + 1]])
  {
    RecordsLength(steps, nameIndex, urlIndex, total, width);
    forall k | 0 <= k < |steps|
      ensures Readable(steps[k].row, width)
      ensures var events := Records(steps, nameIndex, urlIndex, total, width).events;
        HandleRecord(k + 1, steps[k], nameIndex, urlIndex, total, width) == Continue([events[2 * k], events[2 * k + 1]])
    {
      RecordShape(steps, k, nameIndex, urlIndex, total, width);
    }
  }

  lemma {:induction false} RecordsLength(steps: seq<Step>, nameIndex: nat, urlIndex: nat, total: int, width: nat)
    requires nameIndex < width && urlIndex < width
    requires Records(steps, nameIndex, urlIndex, total, width).Finished?
    ensures |Records(steps, nameIndex, urlIndex, total, width).events| == 2 * |steps|
    decreases |steps|
  {
    if steps != [] {
      RecordsLength(steps[..|steps| - 1], nameIndex, urlIndex, total, width);
    }
  }

  /** The k-th record's two lines sit at positions 2k and 2k + 1. */
  lemma {:induction false} RecordShape(steps: seq<Step>, k: nat, nameIndex: nat, urlIndex: nat, total: int, width: nat)
    requires nameIndex < width && urlIndex < width
    requires k < |steps| && Records(steps, nameIndex, urlIndex, total, width).Finished?
    ensures var events := Records(steps, nameIndex, urlIndex, total, width).events;
      2 * k + 2 <= |events| &&
      Readable(steps[k].row, width) &&
      HandleRecord(k + 1, steps[k], nameIndex, urlIndex, total, width) == Continue([events[2 * k], events[2 * k + 1]])
    decreases |steps|
  {
    if k < |steps| - 1 {
      RecordShape(steps[..|steps| - 1], k, nameIndex, urlIndex, total, width);
      ShapeFromInit(steps, k, nameIndex, urlIndex, total, width);
    } else {
      ShapeOfLast(steps, k, nameIndex, urlIndex, total, width);
    }
  }

  /** An earlier record keeps the lines it had in the run without the last
      record. */
  lemma ShapeFromInit(steps: seq<Step>, k: nat, nameIndex: nat, urlIndex: nat, total: int, width: nat)
    requires nameIndex < width && urlIndex < width
    requires k < |steps| - 1 && Records(steps, nameIndex, urlIndex, total, width).Finished?
    requires var before := Records(steps[..|steps| - 1], nameIndex, urlIndex, total, width);
      before.Finished? && 2 * k + 2 <= |before.events| &&
      Readable(steps[..|steps| - 1][k].row, width) &&
      HandleRecord(k + 1, steps[..|steps| - 1][k], nameIndex, urlIndex, total, width) ==
        Continue([before.events[2 * k], before.events[2 * k + 1]])
    ensures var events := Records(steps, nameIndex, urlIndex, total, width).events;
      2 * k + 2 <= |events| &&
      Readable(steps[k].row, width) &&
      HandleRecord(k + 1, steps[k], nameIndex, urlIndex, total, width) == Continue([events[2 * k], events[2 * k + 1]])
  {
    FinishedLast(steps, nameIndex, urlIndex, total, width);
    assert steps[k] == steps[..|steps| - 1][k];
  }

  /** The last record's lines close the run. */
  lemma ShapeOfLast(steps: seq<Step>, k: nat, nameIndex: nat, urlIndex: nat, total: int, width: nat)
    requires nameIndex < width && urlIndex < width
    requires k + 1 == |steps| && Records(steps, nameIndex, urlIndex, total, width).Finished?
    ensures var events := Records(steps, nameIndex, urlIndex, total, width).events;
      2 * k + 2 <= |events| &&
      Readable(steps[k].row, width) &&
      HandleRecord(k + 1, steps[k], nameIndex, urlIndex, total, width) == Continue([events[2 * k], events[2 * k + 1]])
  {
    var init := steps[..|steps| - 1];
    var last := HandleRecord(|steps|, steps[|steps| - 1], nameIndex, urlIndex, total, width);
    FinishedLast(steps, nameIndex, urlIndex, total, width);
    RecordsLength(init, nameIndex, urlIndex, total, width);
    assert last.events == [last.events[0], last.events[1]];
  }

  /** A finished run over a non-empty list is the finished run over all
      but the last record, followed by the last record's lines. */
  lemma FinishedLast(steps: seq<Step>, nameIndex: nat, urlIndex: nat, total: int, width: nat)
    requires nameIndex < width && urlIndex < width
    requires steps != [] && Records(steps, nameIndex, urlIndex, total, width).Finished?
    ensures var before := Records(steps[..|steps| - 1], nameIndex, urlIndex, total, width);
      var last := HandleRecord(|steps|, steps[|steps| - 1], nameIndex, urlIndex, total, width);
      before.Finished? && last.Continue? &&
      Records(steps, nameIndex, urlIndex, total, width).events == before.events + last.events
  {
  }

  /** The number of permanent lines in `events`. */
  function CountPermanent(events: seq<Event>): nat {
    if events == [] then 0
    else CountPermanent(events[..|events| - 1]) + (if Permanent(events[|events| - 1]) then 1 else 0)
  }

  lemma {:induction false} CountPermanentAppend(a: seq<Event>, b: seq<Event>)
    ensures CountPermanent(a + b) == CountPermanent(a) + CountPermanent(b)
    decreases |b|
  {
    if b == [] {
      assert a + b == a;
    } else {
      assert (a + b)[..|a + b| - 1] == a + b[..|b| - 1];
      CountPermanentAppend(a, b[..|b| - 1]);
    }
  }

  /** A run that finishes prints exactly one permanent line per record, and
      "Processing complete." once, as its last line. */
  lemma {:induction false} OneLinePerRecord(steps: seq<Step>, nameIndex: nat, urlIndex: nat, total: int, width: nat)
    requires nameIndex < width && urlIndex < width
    requires EachRecord(steps, nameIndex, urlIndex, total, width).Finished?
    ensures var events := EachRecord(steps, nameIndex, urlIndex, total, width).events;
      CountPermanent(events) == |steps| &&
      events[|events| - 1] == Completed &&
      Completed !in events[..|events| - 1]
  {
    RecordsLines(steps, nameIndex, urlIndex, total, width);
    var before := Records(steps, nameIndex, urlIndex, total, width).events;
    CountPermanentAppend(before, [Completed]);
    assert (before + [Completed])[..|before|] == before;
  }

  lemma {:induction false} RecordsLines(steps: seq<Step>, nameIndex: nat, urlIndex: nat, total: int, width: nat)
    requires nameIndex < width && urlIndex < width
    requires Records(steps, nameIndex, urlIndex, total, width).Finished?
    ensures var events := Records(steps, nameIndex, urlIndex, total, width).events;
      CountPermanent(events) == |steps| && Completed !in events
    decreases |steps|
  {
    if steps != [] {
      var init := steps[..|steps| - 1];
      RecordsLines(init, nameIndex, urlIndex, total, width);
      var o := HandleRecord(|steps|, steps[|steps| - 1], nameIndex, urlIndex, total, width);
      PairLines(Records(init, nameIndex, urlIndex, total, width).events, o.events);
    }
  }

  /** A progress line followed by a permanent line adds one permanent line. */
  lemma PairLines(before: seq<Event>, more: seq<Event>)
    requires |more| == 2 && more[0].Progressed? && Permanent(more[1])
    ensures CountPermanent(before + more) == CountPermanent(before) + 1
    ensures Completed !in before ==> Completed !in before + more
  {
    CountPermanentAppend(before, more);
    assert more == [more[0]] + [more[1]];
    CountPermanentAppend([more[0]], [more[1]]);
    assert [more[0]][..0] == [];
    assert [more[1]][..0] == [];
  }

  /** A failed fetch skips only its own record: the program goes on with the
      next one. */
  lemma FetchFailureSkips(steps: seq<Step>, k: nat, nameIndex: nat, urlIndex: nat, total: int, width: nat)
    requires nameIndex < width && urlIndex < width
    requires k < |steps| && Records(steps[..k], nameIndex, urlIndex, total, width).Finished?
    requires Readable(steps[k].row, width) && steps[k].fetch.FetchFailed?
    ensures Records(steps[..k + 1], nameIndex, urlIndex, total, width) ==
      Finished(Records(steps[..k], nameIndex, urlIndex, total, width).events +
        [Progressed(DisplayProgress(k + 1, total)),
         Skipped(steps[k].row.cells[urlIndex], steps[k].fetch.reason)])
  {
    assert steps[..k + 1][..k] == steps[..k];
  }

  /** A failed query stops the whole run at that record: its progress is the
      last thing printed and no later record is read. */
  lemma ModelFailureHalts(steps: seq<Step>, k: nat, nameIndex: nat, urlIndex: nat, total: int, width: nat)
    requires nameIndex < width && urlIndex < width
    requires k < |steps| && Records(steps[..k], nameIndex, urlIndex, total, width).Finished?
    requires Readable(steps[k].row, width) && steps[k].fetch.Page? && steps[k].reply.ReplyFailed?
    ensures EachRecord(steps, nameIndex, urlIndex, total, width) ==
      Aborted(Records(steps[..k], nameIndex, urlIndex, total, width).events +
        [Progressed(DisplayProgress(k + 1, total))],
        ModelFailed(steps[k].reply.reason))
  {
    assert steps[..k + 1][..k] == steps[..k];
    AbortIsFinal(steps, k + 1, nameIndex, urlIndex, total, width);
  }

  /** The file as the program meets it: whether it opens, what reading it
      whole gives, the header row (None when the reader is already at end of
      file) and the records that follow. */
  datatype CsvFile = CsvFile(opens: bool, contents: Option<seq<byte>>, header: Option<Row>, records: seq<Step>)

  /** The checks processRecords makes before the first record, in order. */
  predicate Validated(file: CsvFile) {
    file.opens && file.contents.Some? && CountNewlines(file.contents.value) > 1 &&
    file.header.Some? && file.header.value.Fields? &&
    "name" in file.header.value.cells && "url" in file.header.value.cells
  }

  /** processRecords followed by processEachRecord. A file that fails any
      check stops the program before any record is read or fetched: nothing
      is printed, and the failure is never a record's or a query's. */
  function Pipeline(file: CsvFile): (r: Run)
    ensures !Validated(file) ==> r.Aborted? && r.events == []
    ensures !Validated(file) ==> r.fatal != RowUnreadable && !r.fatal.ModelFailed?
  {
    if !file.opens then Aborted([], OpenFailed)
    else if file.contents.None? then Aborted([], LineCountFailed)
    else
      var lines := CountNewlines(file.contents.value);
      if lines <= 1 then Aborted([], NoRecords)
      else if file.header.None? || file.header.value.Malformed? then Aborted([], HeaderUnreadable)
      else
        var headers := file.header.value.cells;
        var nameIndex := FirstIndex(headers, "name");
        if nameIndex == -1 then Aborted([], NoNameColumn)
        else
          var urlIndex := FirstIndex(headers, "url");
          if urlIndex == -1 then Aborted([], NoUrlColumn)
          else EachRecord(file.records, nameIndex, urlIndex, lines - 1, |headers|)
  }

  /** processRecords: validates the file, adjusts the line count for the
      header in place and runs the loop. */
  method ProcessRecords(file: CsvFile) returns (r: Run)
    ensures r == Pipeline(file)
  {
    if !file.opens {
      return Aborted([], OpenFailed);
    }
    if file.contents.None? {
      return Aborted([], LineCountFailed);
    }
    var totalRecords := CountNewlines(file.contents.value);
    if totalRecords <= 1 {
      return Aborted([], NoRecords);
    }
    if file.header.None? || file.header.value.Malformed? {
      return Aborted([], HeaderUnreadable);
    }
    var headers := file.header.value.cells;
    var nameIndex := FindIndex(headers, "name");
    if nameIndex == -1 {
      return Aborted([], NoNameColumn);
    }
    var urlIndex := FindIndex(headers, "url");
    if urlIndex == -1 {
      return Aborted([], NoUrlColumn);
    }
    totalRecords := totalRecords - 1;
    r := ProcessEachRecord(file.records, nameIndex, urlIndex, totalRecords, |headers|);
    PipelineAccepts(file, headers, nameIndex, urlIndex, totalRecords);
  }

  /** A file that passes every check runs the loop on the positions and the
      total processRecords computed. */
  lemma PipelineAccepts(file: CsvFile, headers: seq<string>, nameIndex: int, urlIndex: int, total: int)
    requires file.opens && file.contents.Some? && CountNewlines(file.contents.value) > 1
    requires file.header.Some? && file.header.value.Fields? && headers == file.header.value.cells
    requires nameIndex == FirstIndex(headers, "name") && nameIndex != -1
    requires urlIndex == FirstIndex(headers, "url") && urlIndex != -1
    requires total == CountNewlines(file.contents.value) - 1
    ensures Pipeline(file) == EachRecord(file.records, nameIndex, urlIndex, total, |headers|)
  {
    var lines := CountNewlines(file.contents.value);
    assert !(lines <= 1) && !(file.header.None? || file.header.value.Malformed?);
    assert Pipeline(file) == EachRecord(file.records, FirstIndex(headers, "name"), FirstIndex(headers, "url"), lines - 1, |headers|);
  }

  /** A file that passes every check reaches the loop with both columns'
      first positions and a total of at least one. */
  lemma ValidationGate(file: CsvFile)
    ensures Validated(file) ==>
      var headers := file.header.value.cells;
      var total := CountNewlines(file.contents.value) - 1;
      total >= 1 &&
      Pipeline(file) == EachRecord(file.records, FirstIndex(headers, "name"), FirstIndex(headers, "url"), total, |headers|)
  {
    if Validated(file) {
      var headers := file.header.value.cells;
      assert FirstIndex(headers, "name") != -1 && FirstIndex(headers, "url") != -1;
    }
  }

  /** A missing column is reported before anything else is read, the name
      column first. */
  lemma MissingColumnStopsEarly(file: CsvFile)
    requires file.opens && file.contents.Some? && CountNewlines(file.contents.value) > 1
    requires file.header.Some? && file.header.value.Fields?
    requires "name" !in file.header.value.cells || "url" !in file.header.value.cells
    ensures Pipeline(file) ==
      Aborted([], if "name" !in file.header.value.cells then NoNameColumn else NoUrlColumn)
  {
  }

  /** The total comes from newline bytes, not from records: a header line and
      one record whose line lacks its newline count as one line, and the run
      stops with "no records" although the file holds a record. */
  lemma UnterminatedRecordIsLost(headerLine: seq<byte>, recordLine: seq<byte>, header: Row, records: seq<Step>)
    requires NoNewline(headerLine) && NoNewline(recordLine)
    ensures Pipeline(CsvFile(true, Some(headerLine + [Newline] + recordLine), Some(header), records)) ==
      Aborted([], NoRecords)
  {
    CountTerminated([headerLine], recordLine);
    assert Terminated([headerLine]) == headerLine + [Newline];
  }

  /** A file holding only the header line, with or without its newline,
      stops with "no records" whatever the reader would produce. */
  lemma HeaderOnlyHasNoRecords(headerLine: seq<byte>, ending: seq<byte>, header: Option<Row>, records: seq<Step>)
    requires NoNewline(headerLine) && (ending == [] || ending == [Newline])
    ensures Pipeline(CsvFile(true, Some(headerLine + ending), header, records)) == Aborted([], NoRecords)
  {
    assert multiset(headerLine)[Newline] == 0;
  }

  /** The example of a good and an unreachable URL: one classification, one
      skip and the completion line, with the progress before each record. */
  lemma GoodAndBadExample(good: Step, bad: Step)
    requires good.row == Fields(["EventA", "https://good.example"])
    requires good.fetch.Page? && good.reply.Replied?
    requires bad.row == Fields(["EventB", "https://bad.example"]) && bad.fetch.FetchFailed?
    ensures EachRecord([good, bad], 0, 1, 2, 2) ==
      Finished([Progressed(Shown(50, "|")), Classified("EventA", Classify(TrimSpace(good.reply.content))),
                Progressed(Shown(100, "/")), Skipped("https://bad.example", bad.fetch.reason),
                Completed])
  {
    GoodRecord(good);
    BadRecord(bad);
    var e1, e2 := Progressed(Shown(50, "|")), Classified("EventA", Classify(TrimSpace(good.reply.content)));
    var e3, e4 := Progressed(Shown(100, "/")), Skipped("https://bad.example", bad.fetch.reason);
    TwoRecords(good, bad, [e1, e2], [e3, e4], 2);
    AppendPairs(e1, e2, e3, e4);
  }

  lemma GoodRecord(good: Step)
    requires good.row == Fields(["EventA", "https://good.example"])
    requires good.fetch.Page? && good.reply.Replied?
    ensures HandleRecord(1, good, 0, 1, 2, 2) ==
      Continue([Progressed(Shown(50, "|")), Classified("EventA", Classify(TrimSpace(good.reply.content)))])
  {
    assert DisplayProgress(1, 2) == Shown(50, "|");
  }

  lemma BadRecord(bad: Step)
    requires bad.row == Fields(["EventB", "https://bad.example"]) && bad.fetch.FetchFailed?
    ensures HandleRecord(2, bad, 0, 1, 2, 2) ==
      Continue([Progressed(Shown(100, "/")), Skipped("https://bad.example", bad.fetch.reason)])
  {
    assert DisplayProgress(2, 2) == Shown(100, "/");
  }

  /** Two records that both let processing go on, under a `name,url` header. */
  lemma TwoRecords(s1: Step, s2: Step, more1: seq<Event>, more2: seq<Event>, total: int)
    requires HandleRecord(1, s1, 0, 1, total, 2) == Continue(more1)
    requires HandleRecord(2, s2, 0, 1, total, 2) == Continue(more2)
    ensures EachRecord([s1, s2], 0, 1, total, 2) == Finished(more1 + more2 + [Completed])
  {
    OneRecord(s1, more1, total);
    assert [s1, s2][..1] == [s1];
  }

  lemma OneRecord(s1: Step, more: seq<Event>, total: int)
    requires HandleRecord(1, s1, 0, 1, total, 2) == Continue(more)
    ensures Records([s1], 0, 1, total, 2) == Finished(more)
  {
    assert [s1][..0] == [];
    assert [] + more == more;
  }

  /** With two records after the header and no final newline the total is
      one, so the second record's progress reads 200%. */
  lemma PercentOverflowExample(headerLine: seq<byte>, line1: seq<byte>, line2: seq<byte>, s1: Step, s2: Step)
    requires NoNewline(headerLine) && NoNewline(line1) && NoNewline(line2)
    requires s1.row == Fields(["A", "a"]) && s1.fetch.FetchFailed?
    requires s2.row == Fields(["B", "b"]) && s2.fetch.FetchFailed?
    ensures var r := Pipeline(CsvFile(true, Some(headerLine + [Newline] + line1 + [Newline] + line2),
                                      Some(Fields(["name", "url"])), [s1, s2]));
      r.Finished? && |r.events| == 5 && r.events[2] == Progressed(Shown(200, "/"))
  {
    var bytes := headerLine + [Newline] + line1 + [Newline] + line2;
    var headers := ["name", "url"];
    ThreeLinesCountTwo(headerLine, line1, line2);
    assert FirstIndex(headers, "name") == 0;
    assert FirstIndex(headers, "url") == 1;
    PipelineAccepts(CsvFile(true, Some(bytes), Some(Fields(headers)), [s1, s2]), headers, 0, 1, 1);
    OverflowProgress();
    var e1, e2 := Progressed(Shown(100, "|")), Skipped("a", s1.fetch.reason);
    var e3, e4 := Progressed(Shown(200, "/")), Skipped("b", s2.fetch.reason);
    SkippedRecord(1, s1, 1, 100, "|");
    SkippedRecord(2, s2, 1, 200, "/");
    TwoRecords(s1, s2, [e1, e2], [e3, e4], 1);
    AppendPairs(e1, e2, e3, e4);
  }

  lemma OverflowProgress()
    ensures DisplayProgress(1, 1) == Shown(100, "|") && DisplayProgress(2, 1) == Shown(200, "/")
  {
  }

  lemma ThreeLinesCountTwo(headerLine: seq<byte>, line1: seq<byte>, line2: seq<byte>)
    requires NoNewline(headerLine) && NoNewline(line1) && NoNewline(line2)
    ensures CountNewlines(headerLine + [Newline] + line1 + [Newline] + line2) == 2
  {
    assert multiset(headerLine)[Newline] == 0;
    assert multiset(line1)[Newline] == 0;
    assert multiset(line2)[Newline] == 0;
  }

  lemma SkippedRecord(count: int, s: Step, total: int, percent: int, glyph: string)
    requires count >= 1 && total >= 1 && s.row.Fields? && |s.row.cells| == 2 && s.fetch.FetchFailed?
    requires DisplayProgress(count, total) == Shown(percent, glyph)
    ensures HandleRecord(count, s, 0, 1, total, 2) ==
      Continue([Progressed(Shown(percent, glyph)), Skipped(s.row.cells[1], s.fetch.reason)])
  {
  }
}
