/** The run parameters the showMemory command reads from the document: lines starting with
    `input:`, `debug:`, `step:` and `timeout:`; for each, the last such line wins. The lines
    stay in the program text that is executed. */
module Directives {
  import opened Wrappers
  import opened JsText

  /** The parameters of one run: the text `,` reads from, the number of cells the memory view
      shows, the delay between steps in milliseconds and the timeout in milliseconds. */
  datatype Settings = Settings(input: string, length: Number, wait: Number, timeout: Number)

  /** The values in force when the document has no directive. */
  const Defaults := Settings("", Int(30), Int(0), Int(20000))

  const InputPrefix := "input:"
  const DebugPrefix := "debug:"
  const StepPrefix := "step:"
  const TimeoutPrefix := "timeout:"

  /** The text after `prefix` on the last line that starts with `prefix`, if any. */
  function LastValue(lines: seq<string>, prefix: string): Option<string>
    decreases |lines|
  {
    if |lines| == 0 then None
    else
      var last := lines[|lines| - 1];
      if StartsWith(last, prefix) then Some(last[|prefix|..])
      else LastValue(lines[..|lines| - 1], prefix)
  }

  /** The value a numeric directive sets: `parseInt` of its text, or the default when absent. */
  function NumberOr(value: Option<string>, default: Number): Number {
    match value
    case Some(text) => ParseInt(text)
    case None => default
  }

  /** The settings a document's lines give. */
  function Resolve(lines: seq<string>): Settings {
    Settings(
      LastValue(lines, InputPrefix).GetOr(Defaults.input),
      NumberOr(LastValue(lines, DebugPrefix), Defaults.length),
      NumberOr(LastValue(lines, StepPrefix), Defaults.wait),
      NumberOr(LastValue(lines, TimeoutPrefix), Defaults.timeout))
  }

  /** `LastValue` finds the last line with the prefix: there is none exactly when no line
      starts with it, and otherwise the value is the rest of a line that starts with it and
      after which no line does. */
  lemma {:induction false} LastValueIsLastMatch(lines: seq<string>, prefix: string)
    ensures LastValue(lines, prefix).None? <==> forall k :: 0 <= k < |lines| ==> !StartsWith(lines[k], prefix)
    ensures LastValue(lines, prefix).Some? ==>
      exists k :: 0 <= k < |lines| && StartsWith(lines[k], prefix)
        && LastValue(lines, prefix).value == lines[k][|prefix|..]
        && forall j :: k < j < |lines| ==> !StartsWith(lines[j], prefix)
    decreases |lines|
  {
    if |lines| > 0 {
      var n := |lines| - 1;
      var front := lines[..n];
      if !StartsWith(lines[n], prefix) {
        LastValueIsLastMatch(front, prefix);
        assert forall k :: 0 <= k < n ==> front[k] == lines[k];
        if LastValue(front, prefix).Some? {
          var k :| 0 <= k < n && StartsWith(front[k], prefix)
            && LastValue(front, prefix).value == front[k][|prefix|..]
            && forall j :: k < j < n ==> !StartsWith(front[j], prefix);
          assert forall j :: k < j < |lines| ==> !StartsWith(lines[j], prefix) by {
            forall j | k < j < |lines| ensures !StartsWith(lines[j], prefix) {
              if j < n { assert front[j] == lines[j]; }
            }
          }
        }
      }
    }
  }

  /** A later directive line overrides every earlier one. */
  lemma LastLineWins(lines: seq<string>, prefix: string, line: string)
    requires StartsWith(line, prefix)
    ensures LastValue(lines + [line], prefix) == Some(line[|prefix|..])
  {
    assert (lines + [line])[|lines|] == line;
  }

  /** A line that is not a directive of this kind changes nothing. */
  lemma OtherLinesIgnored(lines: seq<string>, prefix: string, line: string)
    requires !StartsWith(line, prefix)
    ensures LastValue(lines + [line], prefix) == LastValue(lines, prefix)
  {
    assert (lines + [line])[..|lines|] == lines;
  }

  /** One more line either sets the value or leaves it as it was. */
  lemma LastValueStep(lines: seq<string>, k: nat, prefix: string)
    requires k < |lines|
    ensures LastValue(lines[..k + 1], prefix)
      == if StartsWith(lines[k], prefix) then Some(lines[k][|prefix|..]) else LastValue(lines[..k], prefix)
  {
    assert lines[..k + 1] == lines[..k] + [lines[k]];
    if StartsWith(lines[k], prefix) {
      LastLineWins(lines[..k], prefix, lines[k]);
    } else {
      OtherLinesIgnored(lines[..k], prefix, lines[k]);
    }
  }

  /** A document without directive lines runs with the defaults: no input, 30 cells shown, no
      delay and a timeout of 20000 ms. */
  lemma DefaultsWithoutDirectives(lines: seq<string>)
    requires forall k :: 0 <= k < |lines| ==>
      !StartsWith(lines[k], InputPrefix) && !StartsWith(lines[k], DebugPrefix)
      && !StartsWith(lines[k], StepPrefix) && !StartsWith(lines[k], TimeoutPrefix)
    ensures Resolve(lines) == Settings("", Int(30), Int(0), Int(20000))
  {
    LastValueIsLastMatch(lines, InputPrefix);
    LastValueIsLastMatch(lines, DebugPrefix);
    LastValueIsLastMatch(lines, StepPrefix);
    LastValueIsLastMatch(lines, TimeoutPrefix);
  }

  /** Scanning the lines of a document one by one, as its `forEach` does: every line that
      starts with a prefix overwrites that prefix's setting. */
  method Scan(documentText: string) returns (settings: Settings)
    ensures settings == Resolve(Split(documentText, '\n'))
  {
    var lines := Split(documentText, '\n');
    var input, length, wait, timeout := Defaults.input, Defaults.length, Defaults.wait, Defaults.timeout;
    for k := 0 to |lines|
      invariant input == LastValue(lines[..k], InputPrefix).GetOr(Defaults.input)
      invariant length == NumberOr(LastValue(lines[..k], DebugPrefix), Defaults.length)
      invariant wait == NumberOr(LastValue(lines[..k], StepPrefix), Defaults.wait)
      invariant timeout == NumberOr(LastValue(lines[..k], TimeoutPrefix), Defaults.timeout)
    {
      var e := lines[k];
      LastValueStep(lines, k, InputPrefix);
      LastValueStep(lines, k, DebugPrefix);
      LastValueStep(lines, k, StepPrefix);
      LastValueStep(lines, k, TimeoutPrefix);
      if StartsWith(e, InputPrefix) {
        input := e[6..];
      }
      if StartsWith(e, DebugPrefix) {
        length := ParseInt(e[6..]);
      }
      if StartsWith(e, StepPrefix) {
        wait := ParseInt(e[5..]);
      }
      if StartsWith(e, TimeoutPrefix) {
        timeout := ParseInt(e[8..]);
      }
    }
    assert lines[..|lines|] == lines;
    settings := Settings(input, length, wait, timeout);
  }
}
