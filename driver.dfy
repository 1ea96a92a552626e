/**
 * The driver loop of `main`, with file I/O abstracted away: the input is the
 * sequence of lines, and the output file is the sequence of chunks handed to
 * `write_all`, one per dumped record, in order. `Scan` is the state after a
 * prefix of the input; `Run` is the loop, proved against it.
 */
module Driver {
  import opened Wrappers
  import opened LinePattern
  import opened RadixHex
  import opened NameClassifier
  import opened LineParser

  /** The mutable state of `main`: the two counters and what has been written to the output file. */
  datatype State = State(totalLines: nat, dumpedFuncs: nat, output: seq<string>)

  const Initial: State := State(0, 0, [])

  /** `format!("0x{:x}: {}\n", address, name)`. */
  function FormatRecord(name: string, address: nat): string {
    "0x" + ToLowerHex(address) + ": " + name + "\n"
  }

  /**
   * An output line reads back: after `0x` comes the canonical lowercase hex
   * text of the address, which `from_str_radix` turns into the address again,
   * then `: `, the name, and a line feed.
   */
  lemma FormatRecordReadsBack(name: string, address: nat)
    requires address < UsizeLimit
    ensures var line := FormatRecord(name, address);
      var hexEnd := |line| - |name| - 3;
      && 2 <= hexEnd
      && line[..2] == "0x"
      && IsCanonicalLowerHex(line[2..hexEnd])
      && FromStrRadix16(line[2..hexEnd]) == Ok(address)
      && line[hexEnd..hexEnd + 2] == ": "
      && line[hexEnd + 2..] == name + "\n"
  {
    var h := ToLowerHex(address);
    var line := FormatRecord(name, address);
    assert line == "0x" + h + (": " + name + "\n");
    assert line[2..2 + |h|] == h;
    FormatThenParse(address);
  }

  /** Address 0 is written `0x0`. */
  lemma FormatZeroAddress(name: string)
    ensures FormatRecord(name, 0) == "0x0: " + name + "\n"
  {
  }

  /**
   * A name the pattern can capture is made of word characters, so it never
   * holds `@`, `?` or `:`: the classifier keeps it exactly when it starts
   * with `_` or with `g_`.
   */
  lemma WordNameKeptByPrefix(name: string)
    requires |name| > 0 && forall p :: 0 <= p < |name| ==> IsWordChar(name[p])
    ensures ShouldDump(name) <==> name[0] == '_' || (|name| > 1 && name[0] == 'g' && name[1] == '_')
  {
    NoColonNoDoubleColon(name);
    ShouldDumpExactly(name);
  }

  /** For every record `parse_line` yields, only the `_` and `g_` prefixes decide whether it is written. */
  lemma RecordKeptByPrefix(line: string)
    requires ParseLine(line).Record?
    ensures var name := ParseLine(line).name;
      ShouldDump(name) <==> name[0] == '_' || (|name| > 1 && name[0] == 'g' && name[1] == '_')
  {
    WordNameKeptByPrefix(ParseLine(line).name);
  }

  /** `parse_line` applied to each input line, in order. */
  function ParseAll(lines: seq<string>): seq<Parsed> {
    seq(|lines|, i requires 0 <= i < |lines| => ParseLine(lines[i]))
  }

  /** The processing of a prefix of the input: still running, or stopped by a panic in `parse_line`. */
  datatype Progress = Running(st: State) | Crashed(st: State, error: IntErrorKind)

  /** One iteration of the loop body, given what `parse_line` made of the line. */
  function Step(st: State, p: Parsed): Progress {
    match p
    case NoRecord => Running(st)
    case Panic(e) => Crashed(st, e)
    case Record(name, address) =>
      if ShouldDump(name) then
        Running(State(st.totalLines + 1, st.dumpedFuncs + 1, st.output + [FormatRecord(name, address)]))
      else
        Running(State(st.totalLines + 1, st.dumpedFuncs, st.output))
  }

  /** The loop run, from the initial state, over the parse results of the lines in order; a panic ends it. */
  function Scan(ps: seq<Parsed>): Progress
    decreases |ps|
  {
    if ps == [] then Running(Initial)
    else match Scan(ps[..|ps| - 1])
      case Crashed(st, e) => Crashed(st, e)
      case Running(st) => Step(st, ps[|ps| - 1])
  }

  /** Why a run ends abnormally: a panic in `parse_line`, or the division in the summary. */
  datatype Abort = ParsePanic(error: IntErrorKind) | DivisionByZero

  /** The end of a run: the final state and the printed percentage, or an abort with what was written so far. */
  datatype Outcome = Finished(st: State, percent: nat) | Aborted(st: State, reason: Abort)

  /** The summary after the loop: the percentage, or the division by zero when nothing was counted. */
  function Summarize(p: Progress): Outcome {
    match p
    case Crashed(st, e) => Aborted(st, ParsePanic(e))
    case Running(st) =>
      if st.totalLines == 0 then Aborted(st, DivisionByZero)
      else Finished(st, (st.dumpedFuncs * 100) / st.totalLines)
  }

  /** The whole of `main` on the given lines. */
  function Execute(lines: seq<string>): Outcome {
    Summarize(Scan(ParseAll(lines)))
  }

  // ---------------------------------------------------------------------------
  // Reference definitions: the records of the input, those the classifier
  // keeps, and their rendering, each defined on its own.

  /** No parse result is a panic. */
  predicate CrashFree(ps: seq<Parsed>) {
    forall i :: 0 <= i < |ps| ==> !ps[i].Panic?
  }

  /** The records among the parse results, in input order. */
  function Records(ps: seq<Parsed>): seq<(string, nat)>
    decreases |ps|
  {
    if ps == [] then []
    else
      var rest := Records(ps[..|ps| - 1]);
      match ps[|ps| - 1]
      case Record(name, address) => rest + [(name, address)]
      case _ => rest
  }

  /** The records whose names the classifier keeps, in order. */
  function Kept(records: seq<(string, nat)>): seq<(string, nat)>
    decreases |records|
  {
    if records == [] then []
    else
      var rest := Kept(records[..|records| - 1]);
      var last := records[|records| - 1];
      if ShouldDump(last.0) then rest + [last] else rest
  }

  /** One output line per record, in order. */
  function Render(records: seq<(string, nat)>): (r: seq<string>)
    ensures |r| == |records|
    decreases |records|
  {
    if records == [] then []
    else Render(records[..|records| - 1]) + [FormatRecord(records[|records| - 1].0, records[|records| - 1].1)]
  }

  // ---------------------------------------------------------------------------
  // Properties of the loop.

  /** One line moves each counter up by at most one, the dump counter only with the line counter, and only appends to the output. */
  lemma StepCounters(st: State, p: Parsed)
    requires Step(st, p).Running?
    ensures var st' := Step(st, p).st;
      && st'.totalLines in {st.totalLines, st.totalLines + 1}
      && st'.dumpedFuncs in {st.dumpedFuncs, st.dumpedFuncs + 1}
      && (st'.dumpedFuncs == st.dumpedFuncs + 1 ==> st'.totalLines == st.totalLines + 1)
      && st'.output[..|st.output|] == st.output
      && |st'.output| - |st.output| == st'.dumpedFuncs - st.dumpedFuncs
  {
  }

  /** A line without a `set_name` record changes nothing. */
  lemma StepWithoutRecord(st: State, line: string)
    requires ParseLine(line).NoRecord?
    ensures Step(st, ParseLine(line)) == Running(st)
  {
  }

  /** After every prefix of the input, dumped <= matched, and the output holds one line per dumped name. */
  lemma {:induction false} ScanInvariant(ps: seq<Parsed>)
    ensures Scan(ps).st.dumpedFuncs <= Scan(ps).st.totalLines
    ensures |Scan(ps).st.output| == Scan(ps).st.dumpedFuncs
    decreases |ps|
  {
    if ps != [] {
      ScanInvariant(ps[..|ps| - 1]);
    }
  }

  /** Without a panic, the state after the loop is the count of records, the count of kept ones, and their rendering. */
  lemma {:induction false} ScanIsRecordsKeptRendered(ps: seq<Parsed>)
    requires CrashFree(ps)
    ensures Scan(ps) == Running(StateOf(Records(ps)))
    decreases |ps|
  {
    if ps != [] {
      var init := ps[..|ps| - 1];
      assert CrashFree(init) by {
        assert forall i :: 0 <= i < |init| ==> init[i] == ps[i];
      }
      ScanIsRecordsKeptRendered(init);
      assert !ps[|ps| - 1].Panic?;
      StepStateOf(Records(init), ps[|ps| - 1]);
    }
  }

  /** The state the loop reaches over the given records: their count, the count of kept ones, and their rendering. */
  function StateOf(records: seq<(string, nat)>): State {
    State(|records|, |Kept(records)|, Render(Kept(records)))
  }

  /** A step from the summary of some records over a further non-panicking line is the summary with that line's record added. */
  lemma StepStateOf(records: seq<(string, nat)>, p: Parsed)
    requires !p.Panic?
    ensures Step(StateOf(records), p)
      == Running(StateOf(if p.Record? then records + [(p.name, p.address)] else records))
  {
    if p.Record? {
      var recs' := records + [(p.name, p.address)];
      assert recs'[..|recs'| - 1] == records;
      if ShouldDump(p.name) {
        var kept' := Kept(records) + [(p.name, p.address)];
        assert kept'[..|kept'| - 1] == Kept(records);
      }
    }
  }

  /** The loop over one more line is one more step, unless a panic came first. */
  lemma ScanOneMore(ps: seq<Parsed>, i: nat)
    requires i < |ps|
    ensures Scan(ps[..i + 1]) == match Scan(ps[..i])
      case Crashed(st, e) => Crashed(st, e)
      case Running(st) => Step(st, ps[i])
  {
    assert ps[..i + 1][..i] == ps[..i];
  }

  /** Once a panic has stopped the loop, later lines change nothing. */
  lemma {:induction false} CrashIsFinal(ps: seq<Parsed>, k: nat)
    requires k <= |ps| && Scan(ps[..k]).Crashed?
    ensures Scan(ps) == Scan(ps[..k])
    decreases |ps| - k
  {
    if k < |ps| {
      assert ps[..k + 1][..k] == ps[..k];
      CrashIsFinal(ps, k + 1);
    } else {
      assert ps[..k] == ps;
    }
  }

  /**
   * A panic on line k ends the run with the state reached after the lines
   * before it: what was written up to then stays written, and nothing after.
   */
  lemma FirstPanicStopsRun(lines: seq<string>, k: nat)
    requires k < |lines| && ParseLine(lines[k]).Panic?
    requires forall i :: 0 <= i < k ==> !ParseLine(lines[i]).Panic?
    ensures var before := ParseAll(lines)[..k];
      && Scan(before) == Running(StateOf(Records(before)))
      && Execute(lines) == Aborted(Scan(before).st, ParsePanic(ParseLine(lines[k]).error))
  {
    var ps := ParseAll(lines);
    assert CrashFree(ps[..k]);
    ScanIsRecordsKeptRendered(ps[..k]);
    ScanOneMore(ps, k);
    CrashIsFinal(ps, k + 1);
  }

  /** Without a panic, the run writes exactly the kept records of the input, in input order, and counts the records. */
  lemma RunWithoutPanic(lines: seq<string>)
    requires forall i :: 0 <= i < |lines| ==> !ParseLine(lines[i]).Panic?
    ensures Scan(ParseAll(lines)) == Running(State(
      |Records(ParseAll(lines))|, |Kept(Records(ParseAll(lines)))|, Render(Kept(Records(ParseAll(lines))))))
  {
    ScanIsRecordsKeptRendered(ParseAll(lines));
  }

  /** The summary divides by zero exactly when no line panics and no line yields a record. */
  lemma DivisionByZeroExactly(lines: seq<string>)
    ensures Execute(lines).Aborted? && Execute(lines).reason == DivisionByZero
      <==> CrashFree(ParseAll(lines)) && Records(ParseAll(lines)) == []
  {
    var ps := ParseAll(lines);
    if CrashFree(ps) {
      ScanIsRecordsKeptRendered(ps);
    } else {
      var k := FirstPanic(ps);
      ScanIsRecordsKeptRendered(ps[..k]);
      ScanOneMore(ps, k);
      CrashIsFinal(ps, k + 1);
    }
  }

  /** The position of the first panic among the parse results. */
  function FirstPanic(ps: seq<Parsed>): (k: nat)
    requires !CrashFree(ps)
    ensures k < |ps| && ps[k].Panic? && CrashFree(ps[..k])
    decreases |ps|
  {
    if ps[0].Panic? then 0
    else
      assert !CrashFree(ps[1..]) by {
        var j :| 0 <= j < |ps| && ps[j].Panic?;
        assert ps[1..][j - 1] == ps[j];
      }
      var k := FirstPanic(ps[1..]);
      assert ps[..k + 1] == [ps[0]] + ps[1..][..k];
      k + 1
  }

  /** The reported percentage is dumped*100/matched with truncating division, and never above 100. */
  lemma PercentAtMostHundred(lines: seq<string>)
    requires Execute(lines).Finished?
    ensures var out := Execute(lines);
      && out.st.totalLines > 0
      && out.percent == (out.st.dumpedFuncs * 100) / out.st.totalLines
      && out.percent <= 100
  {
    var st := Scan(ParseAll(lines)).st;
    ScanInvariant(ParseAll(lines));
    PercentBound(st.dumpedFuncs, st.totalLines);
  }

  /** dumped*100/matched <= 100 whenever dumped <= matched. */
  lemma PercentBound(dumped: nat, total: nat)
    requires dumped <= total && total > 0
    ensures (dumped * 100) / total <= 100
  {
    var q := (dumped * 100) / total;
    assert dumped * 100 == q * total + (dumped * 100) % total;
    if q > 100 {
      MultiplyMonotone(101, q, total);
      assert false;
    }
  }

  /** Multiplying by the same natural number keeps the order. */
  lemma {:induction false} MultiplyMonotone(a: nat, b: nat, c: nat)
    requires a <= b
    ensures a * c <= b * c
    decreases c
  {
    if c > 0 {
      MultiplyMonotone(a, b, c - 1);
      assert a * c == a * (c - 1) + a && b * c == b * (c - 1) + b;
    }
  }

  /** The input `set_name (0x401000, "_main")` writes `0x401000: _main` and reports 100 percent. */
  lemma MainSymbolRun()
    ensures Execute([PatternLine("set_name", 'x', "401000", "_main")])
      == Finished(State(1, 1, ["0x401000: _main\n"]), 100)
  {
    ParsesMainSymbol();
    assert ParseAll([PatternLine("set_name", 'x', "401000", "_main")]) == [Record("_main", 0x401000)];
    MainSymbolOutputLine();
    MainSymbolScan();
  }

  /** The output line for `_main` at 0x401000. */
  lemma MainSymbolOutputLine()
    ensures FormatRecord("_main", 0x401000) == "0x401000: _main\n"
  {
    MainSymbolAddress();
    CanonicalTextIsPrinted("401000");
  }

  /** The loop over the one record `("_main", 0x401000)`. */
  lemma MainSymbolScan()
    requires FormatRecord("_main", 0x401000) == "0x401000: _main\n"
    ensures Scan([Record("_main", 0x401000)]) == Running(State(1, 1, ["0x401000: _main\n"]))
  {
    KeepsSymbolNames();
    assert [Record("_main", 0x401000)][..0] == [];
  }

  /** An empty input ends in the division by zero of the summary, with nothing written. */
  lemma EmptyInputDividesByZero()
    ensures Execute([]) == Aborted(State(0, 0, []), DivisionByZero)
  {
  }

  // ---------------------------------------------------------------------------
  // The loop of `main`.

  /** The loop invariant carried over one line that does not panic. */
  lemma ScanStep(lines: seq<string>, i: nat, st: State)
    requires i < |lines| && Scan(ParseAll(lines)[..i]) == Running(st)
    ensures Scan(ParseAll(lines)[..i + 1]) == Step(st, ParseLine(lines[i]))
  {
    ScanOneMore(ParseAll(lines), i);
  }

  /** A panic on line i, after a prefix that ran to state st, decides the whole run. */
  lemma ExecutePanicsAt(lines: seq<string>, i: nat, st: State)
    requires i < |lines| && Scan(ParseAll(lines)[..i]) == Running(st) && ParseLine(lines[i]).Panic?
    ensures Execute(lines) == Aborted(st, ParsePanic(ParseLine(lines[i]).error))
    ensures st.dumpedFuncs <= st.totalLines && |st.output| == st.dumpedFuncs
  {
    var ps := ParseAll(lines);
    ScanOneMore(ps, i);
    CrashIsFinal(ps, i + 1);
    ScanInvariant(ps[..i]);
  }

  /** When the loop has run over every line, the summary of its state is the run's outcome. */
  lemma ExecuteAtEnd(lines: seq<string>, st: State)
    requires Scan(ParseAll(lines)[..|lines|]) == Running(st)
    ensures Execute(lines) == Summarize(Running(st))
    ensures st.dumpedFuncs <= st.totalLines && |st.output| == st.dumpedFuncs
  {
    var ps := ParseAll(lines);
    assert ps[..|lines|] == ps;
    ScanInvariant(ps);
  }

  /**
   * The body of `main` after the files are open: the counting loop over the
   * lines, then the summary division. Its outcome is `Execute(lines)`, and it
   * never counts more dumped names than matched records.
   */
  method Run(lines: seq<string>) returns (out: Outcome)
    ensures out == Execute(lines)
    ensures out.st.dumpedFuncs <= out.st.totalLines && |out.st.output| == out.st.dumpedFuncs
    ensures out.Finished? ==> out.st.totalLines > 0 && out.percent == (out.st.dumpedFuncs * 100) / out.st.totalLines
  {
    var totalLines: nat := 0;
    var dumpedFuncs: nat := 0;
    var output: seq<string> := [];
    for i := 0 to |lines|
      invariant Scan(ParseAll(lines)[..i]) == Running(State(totalLines, dumpedFuncs, output))
    {
      ScanStep(lines, i, State(totalLines, dumpedFuncs, output));
      match ParseLine(lines[i]) {
        case NoRecord =>
        case Panic(e) =>
          ExecutePanicsAt(lines, i, State(totalLines, dumpedFuncs, output));
          return Aborted(State(totalLines, dumpedFuncs, output), ParsePanic(e));
        case Record(name, address) =>
          totalLines := totalLines + 1;
          if ShouldDump(name) {
            output := output + [FormatRecord(name, address)];
            dumpedFuncs := dumpedFuncs + 1;
          }
      }
    }
    ExecuteAtEnd(lines, State(totalLines, dumpedFuncs, output));
    if totalLines == 0 {
      return Aborted(State(totalLines, dumpedFuncs, output), DivisionByZero);
    }
    out := Finished(State(totalLines, dumpedFuncs, output), (dumpedFuncs * 100) / totalLines);
  }
}
