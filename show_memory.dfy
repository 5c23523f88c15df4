/** The `brainfuckhelper.showMemory` command: read the directives from the document, run the
    whole document text as the program, and report the input, the output and the memory view. */
module ShowMemory {
  import opened Wrappers
  import opened JsText
  import opened Directives
  import opened Interpreter
  import opened MemoryView

  const TimeoutNotice := "\n\nBrainfuck has been terminated before the code has completed execution. The timeout of "

  /** The text that comes before the memory view in the summary. */
  function Opening(input: string, output: string): string {
    "Brainfuck input:\n" + input + "\n\nBrainfuck output:\n" + output + "\n\nBrainfuck memory:\n"
  }

  /** The text appended to the output channel once the run is over: the opening, the memory
      view, and the timeout notice when the run was cut short. */
  function Summary(input: string, output: string, view: string, timedOut: bool, timeout: Number): string {
    Opening(input, output) + view
    + (if timedOut then TimeoutNotice + NumberToString(timeout) + " ms has been passed" else "")
  }

  /** Whether the run was cut short: the step bound ran out before the program ended. A NaN
      timeout never compares greater than the elapsed time, so it never reports. */
  predicate TimedOut(prog: string, final: State, timeout: Number) {
    !Finished(prog, final) && timeout.Int?
  }

  /** What the command reports for a document when the run is bounded by `fuel` steps: the
      summary, or nothing when the memory view asks for more cells than the tape has (the
      source then reads past the tape and throws before appending the summary). */
  function Report(documentText: string, fuel: nat): Option<string> {
    var settings := Resolve(Split(documentText, '\n'));
    var final := RunFor(documentText, Utf16(settings.input), Init(), fuel);
    var cells := CellCount(settings.length);
    if cells > MemSize then None
    else Some(Summary(settings.input, final.output, Render(final.mem, final.pointer, cells),
                      TimedOut(documentText, final, settings.timeout), settings.timeout))
  }

  /** The command: scan the directives, run the document on a fresh machine and render the
      memory view. */
  method Show(documentText: string, fuel: nat) returns (summary: Option<string>)
    ensures summary == Report(documentText, fuel)
  {
    var settings := Scan(documentText);
    var input := Utf16(settings.input);
    var machine := new Machine(documentText, input);
    machine.Run(fuel);
    if CellCount(settings.length) > machine.memory.Length {
      return None;
    }
    var m := DisplayMemory(machine.memory, machine.pointer, settings.length);
    var timedOut := TimedOut(documentText, machine.Snapshot(), settings.timeout);
    summary := Some(Summary(settings.input, machine.output, m, timedOut, settings.timeout));
  }

  /** The summary shows the input, then the output, then the memory view right after its
      heading; it runs past the view exactly when the run timed out. */
  lemma SummaryLayout(input: string, output: string, view: string, timedOut: bool, timeout: Number)
    ensures var s := Summary(input, output, view, timedOut, timeout);
      var head := Opening(input, output);
      && "Brainfuck input:\n" + input + "\n\nBrainfuck output:\n" + output <= s
      && |head| + |view| <= |s|
      && s[|head|..|head| + |view|] == view
      && (timedOut <==> |s| > |head| + |view|)
  {
    var s := Summary(input, output, view, timedOut, timeout);
    var head := Opening(input, output);
    var notice := if timedOut then TimeoutNotice + NumberToString(timeout) + " ms has been passed" else "";
    assert s == head + view + notice;
    assert s[|head|..|head| + |view|] == view;
  }

  /** The report is missing exactly when the `debug:` length exceeds the tape. Otherwise it
      shows the input the directives chose, then the output of running the whole document,
      directive lines included, then the view of the final tape; it runs past the view
      exactly when the run timed out. */
  lemma ReportShape(documentText: string, fuel: nat)
    ensures var settings := Resolve(Split(documentText, '\n'));
      && (Report(documentText, fuel).None? <==> CellCount(settings.length) > MemSize)
      && (Report(documentText, fuel).Some? ==>
            var final := RunFor(documentText, Utf16(settings.input), Init(), fuel);
            var r := Report(documentText, fuel).value;
            var head := Opening(settings.input, final.output);
            var view := Render(final.mem, final.pointer, CellCount(settings.length));
            && "Brainfuck input:\n" + settings.input + "\n\nBrainfuck output:\n" + final.output <= r
            && |head| + |view| <= |r|
            && r[|head|..|head| + |view|] == view
            && (TimedOut(documentText, final, settings.timeout) <==> |r| > |head| + |view|))
  {
    var settings := Resolve(Split(documentText, '\n'));
    var final := RunFor(documentText, Utf16(settings.input), Init(), fuel);
    var cells := CellCount(settings.length);
    if cells <= MemSize {
      SummaryLayout(settings.input, final.output, Render(final.mem, final.pointer, cells),
        TimedOut(documentText, final, settings.timeout), settings.timeout);
    }
  }
}
