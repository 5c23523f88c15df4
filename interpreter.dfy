/** The byte-tape interpreter of the showMemory command. A state is the tape, the data
    pointer, the program position, the loop stack (top at index 0; `Skip` marks a loop entered
    with a zero cell, whose body is being skipped), the output so far and the input cursor.
    `Next` is one pass of the interpreter's loop and `RunFor` at most `fuel` passes; the class
    `Machine` runs the same loop in place on an array and is proved to follow them. */
module Interpreter {
  import opened JsText

  /** Number of cells of the tape (`new Uint8Array(0xFFFF)`). */
  const MemSize: nat := 0xFFFF

  /** Loop-stack entry of a loop whose body is being skipped. */
  const Skip: int := -1

  datatype State = State(
    mem: seq<byte>,
    pointer: nat,
    pc: nat,
    loops: seq<int>,
    output: string,
    lastInput: nat,
    halted: bool)   // a `]` found no open loop to return to: the position became undefined

  /** The state before the first character is read. */
  function Init(): State {
    State(seq(MemSize, _ => 0), 0, 0, [], "", 0, false)
  }

  /** Whether the top of the loop stack marks a skipped loop. */
  predicate Skipping(s: State) {
    |s.loops| > 0 && s.loops[0] == Skip
  }

  /** What the interpreter keeps true of its state:
      the pointer is on the tape; the position is within the program; every loop-stack
      entry is `Skip` or the position of a `[`; the `Skip` entries lie above all others;
      and while a loop is skipped the current cell is zero. */
  predicate Inv(prog: string, s: State) {
    && |s.mem| == MemSize
    && s.pointer < MemSize
    && s.pc <= |prog|
    && (forall i :: 0 <= i < |s.loops| ==> s.loops[i] == Skip || (0 <= s.loops[i] < |prog| && prog[s.loops[i]] == '['))
    && (forall i, j :: 0 <= i < j < |s.loops| && s.loops[j] == Skip ==> s.loops[i] == Skip)
    && (Skipping(s) ==> s.mem[s.pointer] == 0)
  }

  /** Whether the interpreter's loop has stopped. */
  predicate Finished(prog: string, s: State) {
    s.halted || s.pc >= |prog|
  }

  /** The byte `,` stores: the first UTF-8 byte of the next input code unit, or 0 past the end. */
  function InputByte(input: seq<int>, k: nat): byte
    requires AreCodeUnits(input)
  {
    if k < |input| then FirstUtf8Byte(input[k]) else 0
  }

  /** Removing the top of the loop stack (`splice(0, 1)`): nothing happens to an empty stack. */
  function Pop(loops: seq<int>): seq<int> {
    if |loops| == 0 then [] else loops[1..]
  }

  /** One pass of the interpreter loop on the character at the program position. */
  function Next(prog: string, input: seq<int>, s: State): (t: State)
    requires Inv(prog, s) && !Finished(prog, s) && AreCodeUnits(input)
    ensures t.pc <= |prog|
    ensures s.output <= t.output && s.lastInput <= t.lastInput
  {
    var c := prog[s.pc];
    if Skipping(s) && c != ']' && c != '[' then s.(pc := s.pc + 1)
    else
      match c
      case '<' => s.(pointer := if s.pointer == 0 then MemSize - 1 else s.pointer - 1, pc := s.pc + 1)
      case '>' => s.(pointer := if s.pointer + 1 >= MemSize then 0 else s.pointer + 1, pc := s.pc + 1)
      case '+' => s.(mem := s.mem[s.pointer := (s.mem[s.pointer] as int + 1) % 256], pc := s.pc + 1)
      case '-' => s.(mem := s.mem[s.pointer := (s.mem[s.pointer] as int - 1) % 256], pc := s.pc + 1)
      case '.' => s.(output := s.output + [FromCharCode(s.mem[s.pointer])], pc := s.pc + 1)
      case '[' =>
        var entry := if s.mem[s.pointer] == 0 || Skipping(s) then Skip else s.pc;
        s.(loops := [entry] + s.loops, pc := s.pc + 1)
      case ']' =>
        if s.mem[s.pointer] == 0 then s.(loops := Pop(s.loops), pc := s.pc + 1)
        else if |s.loops| == 0 then s.(halted := true)
        else s.(pc := s.loops[0], loops := s.loops[1..])
      case ',' =>
        s.(mem := s.mem[s.pointer := InputByte(input, s.lastInput)], lastInput := s.lastInput + 1, pc := s.pc + 1)
      case _ => s.(pc := s.pc + 1)
  }

  /** At most `fuel` passes of the interpreter loop; fewer when it finishes. */
  function RunFor(prog: string, input: seq<int>, s: State, fuel: nat): (t: State)
    requires Inv(prog, s) && AreCodeUnits(input)
    ensures Inv(prog, t)
    ensures s.output <= t.output && s.lastInput <= t.lastInput
    ensures Finished(prog, s) ==> t == s
    decreases fuel
  {
    if fuel == 0 || Finished(prog, s) then s
    else
      NextKeepsInv(prog, input, s);
      RunFor(prog, input, Next(prog, input, s), fuel - 1)
  }

  /** One pass keeps the invariant. */
  lemma NextKeepsInv(prog: string, input: seq<int>, s: State)
    requires Inv(prog, s) && !Finished(prog, s) && AreCodeUnits(input)
    ensures Inv(prog, Next(prog, input, s))
  {
    var t := Next(prog, input, s);
    var c := prog[s.pc];
    if Skipping(s) && c != ']' && c != '[' {
      assert t.loops == s.loops;
    } else if c == '[' {
      assert t.loops == [t.loops[0]] + s.loops;
      assert forall i :: 1 <= i < |t.loops| ==> t.loops[i] == s.loops[i - 1];
    } else if c == ']' {
      assert |t.loops| > 0 ==> t.loops == s.loops[1..];
    } else {
      assert t.loops == s.loops;
    }
  }

  // ---------------------------------------------------------------------------
  // What one pass does

  /** `<` and `>` move the pointer one cell and wrap around the ends of the tape; nothing else
      but the position changes. */
  lemma PointerMoves(prog: string, input: seq<int>, s: State)
    requires Inv(prog, s) && !Finished(prog, s) && AreCodeUnits(input)
    requires !Skipping(s) && (prog[s.pc] == '<' || prog[s.pc] == '>')
    ensures var t := Next(prog, input, s);
      && t.pointer < MemSize
      && (prog[s.pc] == '<' ==> t.pointer == if s.pointer == 0 then 65534 else s.pointer - 1)
      && (prog[s.pc] == '>' ==> t.pointer == if s.pointer == 65534 then 0 else s.pointer + 1)
      && t == s.(pointer := t.pointer, pc := s.pc + 1)
  {
  }

  /** `+` and `-` change the current cell by one modulo 256 (255 + 1 is 0, 0 - 1 is 255) and
      leave every other cell, the pointer, the stack, the output and the input cursor. */
  lemma CellArithmetic(prog: string, input: seq<int>, s: State)
    requires Inv(prog, s) && !Finished(prog, s) && AreCodeUnits(input)
    requires !Skipping(s) && (prog[s.pc] == '+' || prog[s.pc] == '-')
    ensures var t := Next(prog, input, s);
      && (prog[s.pc] == '+' ==> t.mem[s.pointer] == if s.mem[s.pointer] == 255 then 0 else s.mem[s.pointer] + 1)
      && (prog[s.pc] == '-' ==> t.mem[s.pointer] == if s.mem[s.pointer] == 0 then 255 else s.mem[s.pointer] - 1)
      && (forall i :: 0 <= i < MemSize && i != s.pointer ==> t.mem[i] == s.mem[i])
      && t == s.(mem := t.mem, pc := s.pc + 1)
  {
  }

  /** `.` appends exactly the character whose code is the current cell. */
  lemma WriteAppendsCell(prog: string, input: seq<int>, s: State)
    requires Inv(prog, s) && !Finished(prog, s) && AreCodeUnits(input)
    requires !Skipping(s) && prog[s.pc] == '.'
    ensures var t := Next(prog, input, s);
      && |t.output| == |s.output| + 1
      && t.output[..|s.output|] == s.output
      && t.output[|s.output|] as int == s.mem[s.pointer]
      && t == s.(output := t.output, pc := s.pc + 1)
  {
  }

  /** `,` overwrites only the current cell, with the next input byte (0 once the input is
      used up), and moves the input cursor by one. */
  lemma ReadStoresInput(prog: string, input: seq<int>, s: State)
    requires Inv(prog, s) && !Finished(prog, s) && AreCodeUnits(input)
    requires !Skipping(s) && prog[s.pc] == ','
    ensures var t := Next(prog, input, s);
      && t.mem == s.mem[s.pointer := InputByte(input, s.lastInput)]
      && (s.lastInput >= |input| ==> t.mem[s.pointer] == 0)
      && t.lastInput == s.lastInput + 1
      && t == s.(mem := t.mem, lastInput := t.lastInput, pc := s.pc + 1)
  {
  }

  /** An ASCII input is read back character by character as its codes. */
  lemma AsciiInputReadsCodes(text: string, k: nat)
    requires forall i :: 0 <= i < |text| ==> text[i] as int < 0x80
    requires k < |text|
    ensures InputByte(Utf16(text), k) == text[k] as int
  {
    Utf16OfAscii(text);
  }

  /** While a loop is skipped, a character other than a bracket only advances the position. */
  lemma SkippedCharactersDoNothing(prog: string, input: seq<int>, s: State)
    requires Inv(prog, s) && !Finished(prog, s) && AreCodeUnits(input)
    requires Skipping(s) && prog[s.pc] != '[' && prog[s.pc] != ']'
    ensures Next(prog, input, s) == s.(pc := s.pc + 1)
  {
  }

  /** `[` pushes `Skip` when the current cell is zero or a loop is already skipped, and its own
      position otherwise. */
  lemma OpenPushes(prog: string, input: seq<int>, s: State)
    requires Inv(prog, s) && !Finished(prog, s) && AreCodeUnits(input)
    requires prog[s.pc] == '['
    ensures var t := Next(prog, input, s);
      && t.loops == [if s.mem[s.pointer] == 0 || Skipping(s) then Skip else s.pc] + s.loops
      && t == s.(loops := t.loops, pc := s.pc + 1)
  {
  }

  /** While a loop is skipped the current cell is zero, so a `]` there always pops and moves
      on; it never jumps to the `Skip` entry. */
  lemma SkippedCloseOnlyPops(prog: string, input: seq<int>, s: State)
    requires Inv(prog, s) && !Finished(prog, s) && AreCodeUnits(input)
    requires Skipping(s) && prog[s.pc] == ']'
    ensures Next(prog, input, s) == s.(loops := s.loops[1..], pc := s.pc + 1)
  {
  }

  /** `]` on a non-zero cell returns to the `[` on top of the stack and pops it without moving
      past it, so that the `[` runs again; on a zero cell it pops and moves on. */
  lemma CloseJumpsOrPops(prog: string, input: seq<int>, s: State)
    requires Inv(prog, s) && !Finished(prog, s) && AreCodeUnits(input)
    requires prog[s.pc] == ']' && |s.loops| > 0
    ensures var t := Next(prog, input, s);
      && (s.mem[s.pointer] != 0 ==>
            0 <= s.loops[0] && prog[s.loops[0]] == '[' && t == s.(pc := s.loops[0], loops := s.loops[1..]))
      && (s.mem[s.pointer] == 0 ==> t == s.(pc := s.pc + 1, loops := s.loops[1..]))
  {
  }

  /** `]` with an empty loop stack: on a zero cell the pop does nothing and the position
      advances; on a non-zero cell the position becomes undefined, which ends the run with
      nothing else changed. */
  lemma CloseOnEmptyStack(prog: string, input: seq<int>, s: State)
    requires Inv(prog, s) && !Finished(prog, s) && AreCodeUnits(input)
    requires prog[s.pc] == ']' && |s.loops| == 0
    ensures var t := Next(prog, input, s);
      && (s.mem[s.pointer] != 0 ==> t == s.(halted := true) && Finished(prog, t))
      && (s.mem[s.pointer] == 0 ==> t == s.(pc := s.pc + 1))
  {
  }

  // ---------------------------------------------------------------------------
  // The loop stack follows the brackets of the program

  /** The positions of the `[` still open after the first `k` characters of `prog`, innermost
      first, when every `]` closes the innermost open one. */
  function OpenAt(prog: string, k: nat): seq<int>
    requires k <= |prog|
  {
    if k == 0 then []
    else
      var open := OpenAt(prog, k - 1);
      if prog[k - 1] == '[' then [k - 1] + open
      else if prog[k - 1] == ']' then Pop(open)
      else open
  }

  /** Every `]` of the program closes a `[` before it. */
  predicate WellNested(prog: string) {
    forall k :: 0 <= k < |prog| && prog[k] == ']' ==> |OpenAt(prog, k)| > 0
  }

  /** Each open position is a `[` before `k`, and the loops open just before it are exactly the
      ones enclosing it. */
  lemma {:induction false} OpenAtEnclosing(prog: string, k: nat)
    requires k <= |prog|
    ensures forall i :: 0 <= i < |OpenAt(prog, k)| ==>
      var q := OpenAt(prog, k)[i];
      0 <= q < k && prog[q] == '[' && OpenAt(prog, q) == OpenAt(prog, k)[i + 1..]
  {
    if k > 0 {
      OpenAtEnclosing(prog, k - 1);
      var open := OpenAt(prog, k - 1);
      var now := OpenAt(prog, k);
      if prog[k - 1] == '[' {
        forall i | 0 <= i < |now|
          ensures 0 <= now[i] < k && prog[now[i]] == '[' && OpenAt(prog, now[i]) == now[i + 1..]
        {
          if i == 0 { assert now[1..] == open; } else { assert now[i] == open[i - 1] && now[i + 1..] == open[i..]; }
        }
      } else if prog[k - 1] == ']' && |open| > 0 {
        forall i | 0 <= i < |now|
          ensures 0 <= now[i] < k && prog[now[i]] == '[' && OpenAt(prog, now[i]) == now[i + 1..]
        {
          assert now[i] == open[i + 1] && now[i + 1..] == open[i + 2..];
        }
      }
    }
  }

  /** The loop stack mirrors the open brackets: one entry per open `[`, innermost on top, and
      each entry that is not `Skip` is that bracket's position. */
  predicate Tracks(prog: string, s: State)
    requires s.pc <= |prog|
  {
    var open := OpenAt(prog, s.pc);
    |s.loops| == |open| && forall i :: 0 <= i < |s.loops| && s.loops[i] != Skip ==> s.loops[i] == open[i]
  }

  /** In a well-nested program one pass keeps the stack mirroring the open brackets and never
      halts. */
  lemma NextTracks(prog: string, input: seq<int>, s: State)
    requires Inv(prog, s) && !Finished(prog, s) && AreCodeUnits(input)
    requires WellNested(prog) && Tracks(prog, s)
    ensures Tracks(prog, Next(prog, input, s)) && !Next(prog, input, s).halted
  {
    var t := Next(prog, input, s);
    var c := prog[s.pc];
    var open := OpenAt(prog, s.pc);
    if c == ']' {
      assert |open| > 0;
      if s.mem[s.pointer] != 0 {
        OpenAtEnclosing(prog, s.pc);
        assert t.pc == open[0];
        assert OpenAt(prog, t.pc) == open[1..];
        forall i | 0 <= i < |t.loops| && t.loops[i] != Skip ensures t.loops[i] == open[1..][i] {
          assert t.loops[i] == s.loops[i + 1];
        }
      }
    } else if c == '[' {
      var now := OpenAt(prog, t.pc);
      assert now == [s.pc] + open;
      forall i | 0 <= i < |t.loops| && t.loops[i] != Skip ensures t.loops[i] == now[i] {
        if i > 0 { assert t.loops[i] == s.loops[i - 1]; }
      }
    }
  }

  /** In a well-nested program every run from the start keeps the stack mirroring the open
      brackets and never halts: the stack depth is the number of loops open at the position. */
  lemma {:induction false} RunTracks(prog: string, input: seq<int>, s: State, fuel: nat)
    requires Inv(prog, s) && AreCodeUnits(input)
    requires WellNested(prog) && Tracks(prog, s) && !s.halted
    ensures var t := RunFor(prog, input, s, fuel);
      Tracks(prog, t) && !t.halted && |t.loops| == |OpenAt(prog, t.pc)|
    decreases fuel
  {
    if fuel > 0 && !Finished(prog, s) {
      NextKeepsInv(prog, input, s);
      NextTracks(prog, input, s);
      RunTracks(prog, input, Next(prog, input, s), fuel - 1);
    }
  }

  /** The start state satisfies the invariant and mirrors the (empty) set of open brackets. */
  lemma InitIsValid(prog: string)
    ensures Inv(prog, Init()) && Tracks(prog, Init())
  {
  }

  /** From the start, the pointer always stays on the tape, and whenever a loop is being
      skipped the current cell is zero. */
  lemma ReachableStates(prog: string, input: seq<int>, fuel: nat)
    requires AreCodeUnits(input)
    ensures var t := RunFor(prog, input, Init(), fuel);
      && t.pointer < MemSize
      && (Skipping(t) ==> t.mem[t.pointer] == 0)
  {
  }

  // ---------------------------------------------------------------------------
  // The interpreter as the source runs it: in place

  class Machine {
    const program: string
    const input: seq<int>
    const memory: array<byte>
    var pointer: nat
    var pc: nat
    var loops: seq<int>
    var output: string
    var lastInput: nat
    var halted: bool

    /** The machine's current state as a value. */
    function Snapshot(): State
      reads this, memory
    {
      State(memory[..], pointer, pc, loops, output, lastInput, halted)
    }

    predicate Valid()
      reads this, memory
    {
      Inv(program, Snapshot()) && AreCodeUnits(input)
    }

    /** A zeroed tape, the pointer and position at 0, an empty loop stack, no output and no
        input read yet. */
    constructor (program: string, input: seq<int>)
      requires AreCodeUnits(input)
      ensures Valid() && fresh(memory)
      ensures this.program == program && this.input == input
      ensures Snapshot() == Init()
    {
      this.program := program;
      this.input := input;
      memory := new byte[MemSize](_ => 0);
      pointer, pc, loops, output, lastInput, halted := 0, 0, [], "", 0, false;
      new;
      assert memory[..] == seq(MemSize, _ => 0);
    }

    /** One pass of the interpreter loop. */
    method Step()
      requires Valid() && !Finished(program, Snapshot())
      modifies this, memory
      ensures Valid()
      ensures Snapshot() == Next(program, input, old(Snapshot()))
    {
      ghost var before := Snapshot();
      ghost var after := Next(program, input, before);
      NextKeepsInv(program, input, before);
      var c := program[pc];
      if |loops| > 0 && loops[0] == Skip && c != ']' && c != '[' {
        pc := pc + 1;
        assert Snapshot() == after;
        return;
      }
      match c {
        case '<' =>
          pointer := if pointer == 0 then memory.Length - 1 else pointer - 1;
        case '>' =>
          pointer := if pointer + 1 >= memory.Length then 0 else pointer + 1;
        case '+' =>
          memory[pointer] := (memory[pointer] as int + 1) % 256;
          assert memory[..] == after.mem;
        case '-' =>
          memory[pointer] := (memory[pointer] as int - 1) % 256;
          assert memory[..] == after.mem;
        case '.' =>
          output := output + [FromCharCode(memory[pointer])];
        case '[' =>
          loops := [if memory[pointer] == 0 || (|loops| >= 1 && loops[0] == Skip) then Skip else pc] + loops;
        case ']' =>
          if memory[pointer] == 0 {
            loops := Pop(loops);
          } else {
            if |loops| == 0 {
              halted := true;
            } else {
              pc := loops[0];
              loops := loops[1..];
            }
            assert Snapshot() == after;
            return;
          }
        case ',' =>
          memory[pointer] := InputByte(input, lastInput);
          lastInput := lastInput + 1;
          assert memory[..] == after.mem;
        case _ =>
      }
      pc := pc + 1;
      assert Snapshot() == after;
    }

    /** The interpreter loop, bounded by `fuel` passes in place of the wall-clock timeout. */
    method Run(fuel: nat)
      requires Valid()
      modifies this, memory
      ensures Valid()
      ensures Snapshot() == RunFor(program, input, old(Snapshot()), fuel)
    {
      var remaining := fuel;
      while remaining > 0 && !halted && pc < |program|
        invariant Valid()
        invariant RunFor(program, input, Snapshot(), remaining) == RunFor(program, input, old(Snapshot()), fuel)
        decreases remaining
      {
        ghost var before := Snapshot();
        assert !Finished(program, before);
        Step();
        remaining := remaining - 1;
        assert RunFor(program, input, before, remaining + 1) == RunFor(program, input, Snapshot(), remaining);
      }
    }
  }
}
