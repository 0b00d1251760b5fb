/** The processing loop of a run: one lookup per data line whose code
    validates, one record per lookup, in input order, numbered by the
    line's position among the data lines. */
module Batch {
  import opened Wrappers
  import opened Text
  import opened Btt
  import opened Ingest
  import opened Records

  /** The lookup through the local proxy. It is given the data-line index
      as well as the code, so the answer may differ between calls. */
  type Gateway = (nat, string) -> Reply

  /** A data line leads to a lookup: it is not blank and its extracted
      code validates. This does not depend on any reply. */
  predicate Accepted(line: string) {
    Trim(line) != [] && ValidateBtt(ExtractBtt(Trim(line)))
  }

  /** One iteration of the loop for the data line at index `i`: blank and
      invalid lines are skipped; otherwise the code is looked up and the
      reply is stored with number `i + 1`. */
  function Step(i: nat, line: string, gw: Gateway): (r: Option<Record>)
    ensures r.Some? <==> Accepted(line)
    ensures r.Some? ==>
      && r.value.no == i + 1
      && r.value.btt == ExtractBtt(Trim(line))
      && ValidateBtt(r.value.btt)
      && r.value == MakeRecord(i + 1, r.value.btt, gw(i, r.value.btt))
  {
    var line := Trim(line);
    if line == [] then None
    else
      var btt := ExtractBtt(line);
      if !ValidateBtt(btt) then None
      else Some(MakeRecord(i + 1, btt, gw(i, btt)))
  }

  /** The shapes of the rest of a line after its first column: nothing,
      or whitespace, a comma and more columns, not ending in whitespace. */
  predicate IsTail(w: string, more: string) {
    || (w == [] && more == [])
    || (IsBlank(w) && more != [] && more[0] == ',' && !IsJsSpace(more[|more| - 1]))
  }

  /** Trimming a padded line whose first column has no surrounding
      whitespace leaves that column and the rest of the line. */
  lemma TrimLine(cell: string, w: string, more: string, p: string, q: string)
    requires cell != [] && !IsJsSpace(cell[0]) && !IsJsSpace(cell[|cell| - 1])
    requires IsBlank(p) && IsBlank(q) && IsTail(w, more)
    ensures Trim(p + cell + w + more + q) == cell + w + more
  {
    var x := cell + w + more;
    assert x[0] == cell[0];
    assert x[|x| - 1] == if more == [] then cell[|cell| - 1] else more[|more| - 1];
    TrimPadded(p, x, q);
    ConcatAssoc(p, cell, w);
    ConcatAssoc(p, cell + w, more);
  }

  /** The candidate code of a trimmed line is its first column without
      the whitespace before the comma and without quotes. */
  lemma ExtractWithTail(cell: string, w: string, more: string)
    requires ',' !in cell
    requires cell != [] && !IsJsSpace(cell[0]) && !IsJsSpace(cell[|cell| - 1])
    requires IsTail(w, more)
    ensures ExtractBtt(cell + w + more) == RemoveQuotes(cell)
  {
    if more == [] {
      ExtractCell([], cell, [], []);
      EmptyPrefix(cell);
      EmptySuffix(cell);
    } else {
      ExtractCell([], cell, w, more[1..]);
      EmptyPrefix(cell);
      SplitSecond(cell + w, more);
      assert [more[0]] == ",";
    }
  }

  /** A line whose first column is a valid code, bare or in double quotes,
      is looked up under exactly that code, whatever whitespace surrounds
      the line or comes before the comma, and whatever columns follow. */
  lemma StepFirstColumn(i: nat, t: string, quoted: bool, w: string, more: string, p: string, q: string, gw: Gateway)
    requires ValidateBtt(t)
    requires IsBlank(p) && IsBlank(q) && IsTail(w, more)
    ensures var cell := if quoted then "\"" + t + "\"" else t;
      Step(i, p + cell + w + more + q, gw) == Some(MakeRecord(i + 1, t, gw(i, t)))
  {
    CodeCell(t, quoted);
    var cell := if quoted then "\"" + t + "\"" else t;
    TrimLine(cell, w, more, p, q);
    ExtractWithTail(cell, w, more);
  }

  /** A line whose first column, once trimmed, holds a character that is
      neither allowed in a code nor a quote makes no lookup. */
  lemma StepForeignChar(i: nat, cell: string, j: nat, w: string, more: string, p: string, q: string, gw: Gateway)
    requires ',' !in cell
    requires cell != [] && !IsJsSpace(cell[0]) && !IsJsSpace(cell[|cell| - 1])
    requires j < |cell| && !IsBttChar(cell[j]) && !IsQuote(cell[j])
    requires IsBlank(p) && IsBlank(q) && IsTail(w, more)
    ensures Step(i, p + cell + w + more + q, gw) == None
  {
    TrimLine(cell, w, more, p, q);
    ExtractWithTail(cell, w, more);
    assert cell[j] in RemoveQuotes(cell);
  }

  /** A blank line makes no lookup. */
  lemma StepBlankLine(i: nat, line: string, gw: Gateway)
    requires IsBlank(line)
    ensures Step(i, line, gw) == None
  {
  }

  /** One loop iteration with the lookup fixed: the data-line index and
      the line give the record stored, if any. */
  type LineStep = (nat, string) -> Option<Record>

  function LineStepOf(gw: Gateway): LineStep
  {
    (i: nat, line: string) => Step(i, line, gw)
  }

  function StepRecords(i: nat, line: string, step: LineStep): seq<Record>
  {
    match step(i, line)
    case None => []
    case Some(r) => [r]
  }

  /** The records the loop has stored after the given data lines. */
  function Collect(lines: seq<string>, step: LineStep): seq<Record>
    decreases |lines|
  {
    if lines == [] then []
    else
      var n := |lines| - 1;
      Collect(lines[..n], step) + StepRecords(n, lines[n], step)
  }

  /** The number of data lines that store a record. */
  function CountStored(lines: seq<string>, step: LineStep): nat
    decreases |lines|
  {
    if lines == [] then 0
    else
      var n := |lines| - 1;
      CountStored(lines[..n], step) + (if step(n, lines[n]).Some? then 1 else 0)
  }

  /** A stored record is what its numbered data line gives. */
  predicate FromLine(lines: seq<string>, step: LineStep, r: Record) {
    1 <= r.no <= |lines| && step(r.no - 1, lines[r.no - 1]) == Some(r)
  }

  /** Some record carries number `i + 1`. */
  ghost predicate HasNumber(recs: seq<Record>, i: nat) {
    exists k :: 0 <= k < |recs| && recs[k].no == i + 1
  }

  ghost predicate Numbered(step: LineStep) {
    forall i: nat, line :: step(i, line).Some? ==> step(i, line).value.no == i + 1
  }

  lemma {:induction false} CollectLength(lines: seq<string>, step: LineStep)
    ensures |Collect(lines, step)| == CountStored(lines, step)
    decreases |lines|
  {
    if lines != [] {
      CollectLength(lines[..|lines| - 1], step);
    }
  }

  lemma {:induction false} CollectSound(lines: seq<string>, step: LineStep)
    requires Numbered(step)
    ensures forall k :: 0 <= k < |Collect(lines, step)| ==> FromLine(lines, step, Collect(lines, step)[k])
    decreases |lines|
  {
    if lines != [] {
      var n := |lines| - 1;
      var prefix := lines[..n];
      CollectSound(prefix, step);
      var before, recs := Collect(prefix, step), Collect(lines, step);
      forall k | 0 <= k < |recs|
        ensures FromLine(lines, step, recs[k])
      {
        if k < |before| {
          assert recs[k] == before[k];
          assert FromLine(prefix, step, before[k]);
          assert prefix[before[k].no - 1] == lines[before[k].no - 1];
        }
      }
    }
  }

  lemma {:induction false} CollectOrdered(lines: seq<string>, step: LineStep)
    requires Numbered(step)
    ensures forall j, k :: 0 <= j < k < |Collect(lines, step)| ==>
      Collect(lines, step)[j].no < Collect(lines, step)[k].no
    decreases |lines|
  {
    if lines != [] {
      var n := |lines| - 1;
      var prefix := lines[..n];
      CollectOrdered(prefix, step);
      CollectSound(prefix, step);
      var before, recs := Collect(prefix, step), Collect(lines, step);
      forall j, k | 0 <= j < k < |recs|
        ensures recs[j].no < recs[k].no
      {
        assert recs[j] == before[j];
        if k < |before| {
          assert recs[k] == before[k];
        } else {
          assert FromLine(prefix, step, before[j]);
          assert recs[k].no == n + 1;
        }
      }
    }
  }

  lemma {:induction false} CollectComplete(lines: seq<string>, step: LineStep)
    requires Numbered(step)
    ensures forall i :: 0 <= i < |lines| && step(i, lines[i]).Some? ==> HasNumber(Collect(lines, step), i)
    decreases |lines|
  {
    if lines != [] {
      var n := |lines| - 1;
      var prefix := lines[..n];
      CollectComplete(prefix, step);
      var before, recs := Collect(prefix, step), Collect(lines, step);
      forall i | 0 <= i < |lines| && step(i, lines[i]).Some?
        ensures HasNumber(recs, i)
      {
        if i < n {
          assert prefix[i] == lines[i];
          assert HasNumber(before, i);
          var k :| 0 <= k < |before| && before[k].no == i + 1;
          assert recs[k] == before[k];
        } else {
          assert recs[|before|].no == i + 1;
        }
      }
    }
  }

  /** The fold stores exactly one record per data line that gives one:
      each record comes from the data line it is numbered after, numbers
      strictly increase, and no line that gives a record is missed. */
  lemma CollectSpec(lines: seq<string>, step: LineStep)
    requires Numbered(step)
    ensures var recs := Collect(lines, step);
      && |recs| == CountStored(lines, step)
      && (forall k :: 0 <= k < |recs| ==> FromLine(lines, step, recs[k]))
      && (forall j, k :: 0 <= j < k < |recs| ==> recs[j].no < recs[k].no)
      && (forall i :: 0 <= i < |lines| && step(i, lines[i]).Some? ==> HasNumber(recs, i))
  {
    CollectLength(lines, step);
    CollectSound(lines, step);
    CollectOrdered(lines, step);
    CollectComplete(lines, step);
  }

  /** Two loops whose steps store records for the same lines, with the same
      numbers and codes, store lists of the same shape. */
  lemma {:induction false} CollectShape(lines: seq<string>, s1: LineStep, s2: LineStep)
    requires forall i: nat, line :: s1(i, line).Some? == s2(i, line).Some?
    requires forall i: nat, line :: s1(i, line).Some? ==>
      s1(i, line).value.no == s2(i, line).value.no && s1(i, line).value.btt == s2(i, line).value.btt
    ensures |Collect(lines, s1)| == |Collect(lines, s2)|
    ensures forall k :: 0 <= k < |Collect(lines, s1)| ==>
      Collect(lines, s1)[k].no == Collect(lines, s2)[k].no &&
      Collect(lines, s1)[k].btt == Collect(lines, s2)[k].btt
    decreases |lines|
  {
    if lines != [] {
      var n := |lines| - 1;
      CollectShape(lines[..n], s1, s2);
      var t1, t2 := StepRecords(n, lines[n], s1), StepRecords(n, lines[n], s2);
      assert |t1| == |t2|;
      assert Collect(lines, s1) == Collect(lines[..n], s1) + t1;
      assert Collect(lines, s2) == Collect(lines[..n], s2) + t2;
    }
  }

  /** How a run ends: with the stored records, or with the error shown
      instead. */
  datatype RunOutcome = Completed(results: seq<Record>) | Failed(error: RunError)

  /** `resultsData` once the run is over: reset to empty at the start and
      left empty when the run aborts. */
  function ResultsData(outcome: RunOutcome): seq<Record>
  {
    match outcome
    case Completed(results) => results
    case Failed(_) => []
  }

  /** A whole run over the uploaded text: it aborts, with the error of
      the ingestion, exactly when the data lines cannot be had. */
  function Run(text: string, gw: Gateway): (outcome: RunOutcome)
    ensures outcome.Failed? <==> DataLines(text).Failure?
    ensures outcome.Failed? ==> outcome.error == DataLines(text).error
  {
    match DataLines(text)
    case Failure(e) => Failed(e)
    case Success(dataLines) => Completed(Collect(dataLines, LineStepOf(gw)))
  }

  lemma StepNumbers(gw: Gateway)
    ensures Numbered(LineStepOf(gw))
  {
  }

  /** Every record the loop stores comes from an accepted data line: it
      is numbered by that line's index plus one, holds that line's code
      and the record built from the reply to it. */
  lemma {:induction false} LoopSound(data: seq<string>, gw: Gateway)
    ensures var recs := Collect(data, LineStepOf(gw));
      forall k :: 0 <= k < |recs| ==>
        && 1 <= recs[k].no <= |data|
        && Accepted(data[recs[k].no - 1])
        && recs[k].btt == ExtractBtt(Trim(data[recs[k].no - 1]))
        && recs[k] == MakeRecord(recs[k].no, recs[k].btt, gw(recs[k].no - 1, recs[k].btt))
  {
    var step := LineStepOf(gw);
    StepNumbers(gw);
    CollectSound(data, step);
    var recs := Collect(data, step);
    forall k | 0 <= k < |recs|
      ensures Accepted(data[recs[k].no - 1])
      ensures recs[k].btt == ExtractBtt(Trim(data[recs[k].no - 1]))
      ensures recs[k] == MakeRecord(recs[k].no, recs[k].btt, gw(recs[k].no - 1, recs[k].btt))
    {
      assert FromLine(data, step, recs[k]);
      assert Step(recs[k].no - 1, data[recs[k].no - 1], gw) == Some(recs[k]);
    }
  }

  /** The loop misses no accepted data line, whatever the lookups return,
      and its records keep the order of their lines. */
  lemma {:induction false} LoopComplete(data: seq<string>, gw: Gateway)
    ensures var recs := Collect(data, LineStepOf(gw));
      && (forall j, k :: 0 <= j < k < |recs| ==> recs[j].no < recs[k].no)
      && (forall i :: 0 <= i < |data| && Accepted(data[i]) ==> HasNumber(recs, i))
  {
    var step := LineStepOf(gw);
    StepNumbers(gw);
    CollectOrdered(data, step);
    CollectComplete(data, step);
    forall i | 0 <= i < |data| && Accepted(data[i])
      ensures step(i, data[i]).Some?
    {
      assert step(i, data[i]) == Step(i, data[i], gw);
    }
  }

  /** How many data lines lead to a lookup, counted without any reply. */
  function CountAccepted(lines: seq<string>): nat
    decreases |lines|
  {
    if lines == [] then 0
    else
      var n := |lines| - 1;
      CountAccepted(lines[..n]) + (if Accepted(lines[n]) then 1 else 0)
  }

  lemma {:induction false} StoredAreAccepted(lines: seq<string>, gw: Gateway)
    ensures CountStored(lines, LineStepOf(gw)) == CountAccepted(lines)
    decreases |lines|
  {
    if lines != [] {
      var n := |lines| - 1;
      StoredAreAccepted(lines[..n], gw);
      assert LineStepOf(gw)(n, lines[n]) == Step(n, lines[n], gw);
    }
  }

  /** The loop stores exactly one record per accepted data line, whatever
      the lookups return. */
  lemma {:induction false} LoopCount(data: seq<string>, gw: Gateway)
    ensures |Collect(data, LineStepOf(gw))| == CountAccepted(data)
  {
    CollectLength(data, LineStepOf(gw));
    StoredAreAccepted(data, gw);
  }

  /** A run in terms of the uploaded text: it stops for lack of lines
      exactly when the text is blank, and a completed run stores one record
      per accepted data line, at most 1000 of them, numbered 1 to 1000. */
  lemma {:induction false} RunSpec(text: string, gw: Gateway)
    ensures Run(text, gw) == Failed(NoLines) <==> IsBlank(text)
    ensures Run(text, gw).Completed? ==>
      && |Run(text, gw).results| == CountAccepted(DataLines(text).value) <= MaxLines
      && forall k :: 0 <= k < |Run(text, gw).results| ==> 1 <= Run(text, gw).results[k].no <= MaxLines
  {
    DataLinesSpec(text);
    if DataLines(text).Success? {
      var data := DataLines(text).value;
      var step := LineStepOf(gw);
      LoopCount(data, gw);
      StepNumbers(gw);
      CollectLength(data, step);
      CountStoredBound(data, step);
      CollectSound(data, step);
      var recs := Collect(data, step);
      assert Run(text, gw).results == recs;
      forall k | 0 <= k < |recs| ensures 1 <= recs[k].no <= MaxLines {
        assert FromLine(data, step, recs[k]);
      }
    }
  }

  lemma {:induction false} CountStoredBound(lines: seq<string>, step: LineStep)
    ensures CountStored(lines, step) <= |lines|
    decreases |lines|
  {
    if lines != [] {
      CountStoredBound(lines[..|lines| - 1], step);
    }
  }

  /** Lookup replies never change how many records a run stores, their
      numbers or their codes. */
  lemma {:induction false} RunShape(text: string, gw1: Gateway, gw2: Gateway)
    ensures Run(text, gw1).Completed? == Run(text, gw2).Completed?
    ensures Run(text, gw1).Completed? ==>
      var r1, r2 := Run(text, gw1).results, Run(text, gw2).results;
      |r1| == |r2| && forall k :: 0 <= k < |r1| ==> r1[k].no == r2[k].no && r1[k].btt == r2[k].btt
  {
    if DataLines(text).Success? {
      var s1, s2 := LineStepOf(gw1), LineStepOf(gw2);
      forall i: nat, line | true
        ensures s1(i, line).Some? == s2(i, line).Some?
        ensures s1(i, line).Some? ==>
          s1(i, line).value.no == s2(i, line).value.no && s1(i, line).value.btt == s2(i, line).value.btt
      {
        assert s1(i, line) == Step(i, line, gw1);
        assert s2(i, line) == Step(i, line, gw2);
      }
      CollectShape(DataLines(text).value, s1, s2);
    }
  }

  /** One more data line adds what its step gives to the stored records. */
  lemma LoopStep(lines: seq<string>, i: nat, gw: Gateway)
    requires i < |lines|
    ensures var line := Trim(lines[i]); var btt := ExtractBtt(line);
      Collect(lines[..i + 1], LineStepOf(gw)) == Collect(lines[..i], LineStepOf(gw)) +
        (if line != [] && ValidateBtt(btt) then [MakeRecord(i + 1, btt, gw(i, btt))] else [])
  {
    var step := LineStepOf(gw);
    assert lines[..i + 1][..i] == lines[..i];
    assert step(i, lines[i]) == Step(i, lines[i], gw);
  }

  /** The loop of `processCSV`: walks the data lines one at a time, looks
      up each accepted code and stores one record per lookup. Also returns
      the codes looked up, in order. */
  method ProcessLines(dataLines: seq<string>, gw: Gateway) returns (resultsData: seq<Record>, calls: seq<string>)
    ensures resultsData == Collect(dataLines, LineStepOf(gw))
    ensures |calls| == |resultsData|
    ensures forall k :: 0 <= k < |calls| ==> calls[k] == resultsData[k].btt
  {
    ghost var step := LineStepOf(gw);
    resultsData, calls := [], [];
    var i := 0;
    while i < |dataLines|
      invariant 0 <= i <= |dataLines|
      invariant resultsData == Collect(dataLines[..i], step)
      invariant |calls| == |resultsData|
      invariant forall k :: 0 <= k < |calls| ==> calls[k] == resultsData[k].btt
    {
      LoopStep(dataLines, i, gw);
      var line := Trim(dataLines[i]);
      if line != [] {
        var btt := ExtractBtt(line);
        if ValidateBtt(btt) {
          var reply := gw(i, btt);
          calls := calls + [btt];
          resultsData := resultsData + [MakeRecord(i + 1, btt, reply)];
        }
      }
      i := i + 1;
    }
    assert dataLines[..|dataLines|] == dataLines;
  }

  /** `processCSV` without the page. Returns the outcome and the codes
      looked up, in order: none at all when the run aborts, otherwise
      exactly the codes of the stored records. */
  method ProcessCsv(text: string, gw: Gateway) returns (outcome: RunOutcome, calls: seq<string>)
    ensures outcome == Run(text, gw)
    ensures outcome.Failed? ==> calls == [] && ResultsData(outcome) == []
    ensures outcome.Completed? ==>
      |calls| == |outcome.results| &&
      forall k :: 0 <= k < |calls| ==> calls[k] == outcome.results[k].btt
  {
    var lines := DataLines(text);
    if lines.Failure? {
      return Failed(lines.error), [];
    }
    var resultsData;
    resultsData, calls := ProcessLines(lines.value, gw);
    outcome := Completed(resultsData);
  }
}
