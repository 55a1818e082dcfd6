/** The front end as a whole: the text of the source file goes through the comment
    stripper, the keyword substituter and the compiler into the program array; the
    machine then runs it and the first 256 cells of the tape are drawn as a 16 by 16
    picture. */
module Pipeline {
  import opened Base
  import opened Comments
  import opened Keywords
  import opened Brackets
  import opened Compiler
  import opened Colour
  import Machine
  import opened Keypad

  /** The file's bytes as a C string: everything before the first NUL. */
  function TextOfFile(raw: string): (t: string)
    ensures |t| <= |raw| && t == raw[..|t|]
    ensures '\0' !in t
    ensures |t| < |raw| ==> raw[|t|] == '\0'
  {
    if raw == [] || raw[0] == '\0' then []
    else [raw[0]] + TextOfFile(raw[1..])
  }

  /** Text without a NUL is read whole. */
  lemma TextWithoutNul(raw: string)
    requires '\0' !in raw
    ensures TextOfFile(raw) == raw
  {
  }

  /** The tape-machine text the compiler reads: comments stripped, then every keyword
      replaced, table entry by table entry. */
  function Source(raw: string): string {
    Substituted(Strip(TextOfFile(raw)), |Table|)
  }

  /** The program array the compiler leaves behind. */
  function Program(raw: string): seq<u16> {
    Compiled(Source(raw))
  }

  /** Keywords are matched anywhere, with no word boundaries: two `arch` and one
      `btw` become two increments in one instruction and an output. */
  lemma ArchExample()
    ensures Program("arch arch btw ") == [PLUS, 2, DOT, 0]
  {
    ExampleSource();
    RunsExample();
  }

  /** The front end's text for the example: `++.`. */
  lemma ExampleSource()
    ensures Source("arch arch btw ") == "++."
  {
    ExampleText();
    FirstPasses();
    ArchPass();
    LinuxPass();
    BtwPass();
    LastPasses();
    SubstitutedExample("arch arch btw ", "++btw ", "++.");
  }

  /** The example has no NUL and no comment. */
  lemma ExampleText()
    ensures Strip(TextOfFile("arch arch btw ")) == "arch arch btw "
  {
    ExampleLetters("arch arch btw ");
    assert '\0' !in "arch arch btw " && ';' !in "arch arch btw ";
    TextWithoutNul("arch arch btw ");
    StripNoComment("arch arch btw ");
  }

  /** The characters of the example. */
  lemma ExampleLetters(s: string)
    requires s == "arch arch btw "
    ensures forall k :: 0 <= k < |s| ==> s[k] in {'a', 'r', 'c', 'h', ' ', 'b', 't', 'w'}
  {
  }

  /** Neither `i` nor `use` occurs in the example. */
  lemma FirstPasses()
    ensures Replaced("arch arch btw ", "i ", '>') == "arch arch btw "
    ensures Replaced("arch arch btw ", "use ", '<') == "arch arch btw "
  {
    var s := "arch arch btw ";
    ExampleLetters(s);
    assert 'i' !in s && 'u' !in s;
    MissingCharAbsent(s, "i ", 'i');
    ReplacedNoMatch(s, "i ", '>');
    MissingCharAbsent(s, "use ", 'u');
    ReplacedNoMatch(s, "use ", '<');
  }

  /** `linux` does not occur after the `arch` pass. */
  lemma LinuxPass()
    ensures Replaced("++btw ", "linux ", '-') == "++btw "
  {
    MissingCharAbsent("++btw ", "linux ", 'l');
    ReplacedNoMatch("++btw ", "linux ", '-');
  }

  /** `by`, `the` and `way` do not occur after the `btw` pass. */
  lemma LastPasses()
    ensures Replaced("++.", "by ", ',') == "++."
    ensures Replaced("++.", "the ", '[') == "++."
    ensures Replaced("++.", "way ", ']') == "++."
  {
    var u := "++.";
    MissingCharAbsent(u, "by ", 'y');
    ReplacedNoMatch(u, "by ", ',');
    MissingCharAbsent(u, "the ", 't');
    ReplacedNoMatch(u, "the ", '[');
    MissingCharAbsent(u, "way ", 'w');
    ReplacedNoMatch(u, "way ", ']');
  }

  /** The eight passes of the table over the example, given each pass's result. */
  lemma SubstitutedExample(s: string, t: string, u: string)
    requires Replaced(s, "i ", '>') == s && Replaced(s, "use ", '<') == s
    requires Replaced(s, "arch ", '+') == t && Replaced(t, "linux ", '-') == t
    requires Replaced(t, "btw ", '.') == u && Replaced(u, "by ", ',') == u
    requires Replaced(u, "the ", '[') == u && Replaced(u, "way ", ']') == u
    ensures Substituted(s, |Table|) == u
  {
    assert Substituted(s, 0) == s;
    assert Substituted(s, 1) == s;
    assert Substituted(s, 2) == s;
    assert Substituted(s, 3) == t;
    assert Substituted(s, 4) == t;
    assert Substituted(s, 5) == u;
    assert Substituted(s, 6) == u;
    assert Substituted(s, 7) == u;
  }

  /** The `arch` pass over the example. */
  lemma ArchPass()
    ensures Replaced("arch arch btw ", "arch ", '+') == "++btw "
  {
    var s, w := "arch arch btw ", "arch ";
    assert OccursAt(s, w, 0);
    assert s[5..] == "arch btw ";
    SecondArch();
  }

  lemma SecondArch()
    ensures Replaced("arch btw ", "arch ", '+') == "+btw "
  {
    var s, w := "arch btw ", "arch ";
    assert OccursAt(s, w, 0);
    assert s[5..] == "btw ";
    MissingCharAbsent("btw ", w, 'a');
    ReplacedNoMatch("btw ", w, '+');
  }

  /** The `btw` pass over the example. */
  lemma BtwPass()
    ensures Replaced("++btw ", "btw ", '.') == "++."
  {
    var t, w := "++btw ", "btw ";
    assert OccursAt(t, w, 2);
    assert t[0..4][0] != w[0] && t[1..5][0] != w[0];
    ReplacedFirst(t, w, '.', 2);
    assert t[6..] == [];
  }

  /** What `main` does before the host loop: strip into a new buffer, substitute in
      place on that buffer, compile into the zeroed program array. */
  method Load(raw: string, program: array<u16>) returns (size: nat)
    requires 2 * |Tokens(Source(raw))| <= program.Length
    requires forall i :: 0 <= i < program.Length ==> program[i] == 0
    modifies program
    ensures size == |Program(raw)|
    ensures program[..size] == Program(raw)
    ensures forall i :: size <= i < program.Length ==> program[i] == 0
  {
    var code := TextOfFile(raw);
    var newCode := new char[|code|];
    var length := StripComments(code, newCode);
    length := SubstituteAll(newCode, length);
    size := Compile(newCode[..length], program);
    CompiledShape(newCode[..length]);
  }

  /** Why a compilation is refused. */
  datatype CompileError =
    | UnmatchedClose    // a `]` with no `[` before it
    | UnmatchedOpen     // a `[` that is never closed
    | ProgramTooLarge   // more slots than the program array holds
    | LoopTooLong       // a bracket distance that does not fit in a 16-bit slot
    | CountTooLarge     // a run count that does not fit in a 16-bit slot

  datatype Checked = Ok(program: seq<u16>) | Err(error: CompileError)

  /** Every loop's slot distance fits in a 16-bit operand. */
  predicate LoopsFit(ops: seq<u16>) {
    forall m :: 0 <= m < |ops| && ops[m] == CLOSE ==> 2 * (m - Target(ops, m).0) < SlotModulus
  }

  /** Every run count fits in a 16-bit operand. */
  predicate CountsFit(ts: seq<Token>) {
    forall j :: 0 <= j < |ts| ==> ts[j].run < SlotModulus
  }

  /** The compiler with the checks the C code leaves out: a program with an unmatched
      bracket, one too large for the program array or one with a loop too long for its
      distance or a run too long for its count is refused, and every program accepted
      is the one the compiler lays out, with every bracket paired with its partner and
      every counted instruction holding its exact run length. */
  function CompileChecked(code: string): (r: Checked)
    ensures var ops := Ops(Tokens(code));
      (r == Err(UnmatchedClose) <==> !NoUnmatchedClose(ops)) &&
      (r == Err(UnmatchedOpen) <==> NoUnmatchedClose(ops) && Depth(ops, |ops|) != 0) &&
      (r == Err(ProgramTooLarge) <==> Balanced(ops) && 2 * |ops| > ProgramCapacity) &&
      (r == Err(LoopTooLong) <==> Balanced(ops) && 2 * |ops| <= ProgramCapacity && !LoopsFit(ops)) &&
      (r == Err(CountTooLarge) <==>
        Balanced(ops) && 2 * |ops| <= ProgramCapacity && LoopsFit(ops) && !CountsFit(Tokens(code)))
    ensures r.Ok? ==> r.program == Compiled(code) && Machine.WellFormed(r.program)
    ensures r.Ok? ==> forall j :: 0 <= j < |Tokens(code)| && IsRunOp(Tokens(code)[j].op) ==>
      r.program[2 * j + 1] as int == Tokens(code)[j].run
  {
    var ops := Ops(Tokens(code));
    if !NoUnmatchedClose(ops) then Err(UnmatchedClose)
    else if Depth(ops, |ops|) != 0 then Err(UnmatchedOpen)
    else if 2 * |ops| > ProgramCapacity then Err(ProgramTooLarge)
    else if !LoopsFit(ops) then Err(LoopTooLong)
    else if !CountsFit(Tokens(code)) then Err(CountTooLarge)
    else
      CheckedWellFormed(code);
      CheckedCounts(code);
      Ok(Compiled(code))
  }

  /** A balanced program of fitting size and loop lengths compiles to a program whose
      brackets are all paired. */
  lemma CheckedWellFormed(code: string)
    requires Balanced(Ops(Tokens(code)))
    requires 2 * |Tokens(code)| <= ProgramCapacity
    requires LoopsFit(Ops(Tokens(code)))
    ensures Machine.WellFormed(Compiled(code))
  {
    CompiledLaidOut(code);
    LayoutWellFormed(Ops(Tokens(code)), Compiled(code));
  }

  /** The compiled program of a text without an unmatched `]` is laid out: opcodes at
      the even slots and every `]` paired with the `[` its scan finds. */
  lemma CompiledLaidOut(code: string)
    requires NoUnmatchedClose(Ops(Tokens(code)))
    ensures LaidOut(Ops(Tokens(code)), Compiled(code))
  {
    var ts, p := Tokens(code), Compiled(code);
    var ops := Ops(ts);
    CompiledShape(code);
    assert |p| == 2 * |ops|;
    forall j | 0 <= j < |ops| ensures p[2 * j] == ops[j] {
      assert p[2 * j] == ts[j].op;
    }
    CompiledOperands(code);
    assert OperandsHold(ts, p);
    forall j | 0 <= j < |ops| && ops[j] == CLOSE
      ensures Matches(ops, Target(ops, j).0, j)
      ensures p[2 * Target(ops, j).0 + 1] == p[2 * j + 1] == Distance(Target(ops, j).0, j)
    {
      assert ts[j].op == CLOSE;
    }
    assert LaidOut(ops, p);
  }

  /** With every run count below 65536 each counted instruction holds its exact count. */
  lemma CheckedCounts(code: string)
    requires NoUnmatchedClose(Ops(Tokens(code))) && CountsFit(Tokens(code))
    ensures forall j :: 0 <= j < |Tokens(code)| && IsRunOp(Tokens(code)[j].op) ==>
      Compiled(code)[2 * j + 1] as int == Tokens(code)[j].run
  {
    var ts, p := Tokens(code), Compiled(code);
    CompiledOperands(code);
    assert OperandsHold(ts, p);
    forall j | 0 <= j < |ts| && IsRunOp(ts[j].op) ensures p[2 * j + 1] as int == ts[j].run {
      assert p[2 * j + 1] == Operand(ts[j]);
    }
  }

  /** A lone `[` or `]` is refused. */
  lemma CheckedExamples()
    ensures CompileChecked("[") == Err(UnmatchedOpen)
    ensures CompileChecked("]") == Err(UnmatchedClose)
  {
    assert "["[1..] == [] && "]"[1..] == [];
    assert Tokens("[") == [Token(OPEN, 1)];
    assert Tokens("]") == [Token(CLOSE, 1)];
    assert Depth(Ops([Token(OPEN, 1)]), 1) == 1;
    assert Depth(Ops([Token(CLOSE, 1)]), 1) == -1;
  }

  /** The facts about a laid-out program that the pairing needs: opcodes at the even
      slots, and a `]` and the `[` its scan stops at holding the same distance. */
  ghost predicate LaidOut(ops: seq<u16>, p: seq<u16>) {
    |p| == 2 * |ops| &&
    (forall i :: 0 <= i < |p| && i % 2 == 0 ==> IsInstruction(p[i])) &&
    (forall j :: 0 <= j < |ops| ==> p[2 * j] == ops[j]) &&
    (forall j :: 0 <= j < |ops| && ops[j] == CLOSE ==>
      Matches(ops, Target(ops, j).0, j) &&
      p[2 * Target(ops, j).0 + 1] == p[2 * j + 1] == Distance(Target(ops, j).0, j))
  }

  /** A laid-out balanced program with fitting loops is well formed. */
  lemma LayoutWellFormed(ops: seq<u16>, p: seq<u16>)
    requires LaidOut(ops, p) && Balanced(ops) && LoopsFit(ops) && 2 * |ops| <= ProgramCapacity
    ensures Machine.WellFormed(p)
  {
    forall i | 0 <= i < |p| && i % 2 == 0 && p[i] == OPEN
      ensures exists j: nat :: Machine.Paired(p, i, j)
    {
      var k := i / 2;
      assert p[2 * k] == ops[k];
      var m := OpenFindsClose(ops, k);
      PairedAt(ops, p, m);
      MatchUnique(ops, Target(ops, m).0, m, k, m);
      assert Machine.Paired(p, i, 2 * m);
    }
    forall j | 0 <= j < |p| && j % 2 == 0 && p[j] == CLOSE
      ensures exists i: nat :: Machine.Paired(p, i, j)
    {
      var m := j / 2;
      assert p[2 * m] == ops[m];
      PairedAt(ops, p, m);
    }
  }

  /** The `]` at instruction `m` and the `[` its scan finds are a pair of the program. */
  lemma PairedAt(ops: seq<u16>, p: seq<u16>, m: nat)
    requires LaidOut(ops, p) && LoopsFit(ops)
    requires m < |ops| && ops[m] == CLOSE
    ensures Machine.Paired(p, 2 * Target(ops, m).0, 2 * m)
  {
    var k := Target(ops, m).0;
    assert Matches(ops, k, m);
    assert p[2 * k] == ops[k] && p[2 * m] == ops[m];
    assert Distance(k, m) as int == 2 * (m - k);
  }

  /** A `[` and the `]` it matches, in a program the checked compiler accepts, are a
      pair of slots whose operands both hold the distance between them. */
  lemma CheckedPaired(code: string, k: nat, m: nat)
    requires CompileChecked(code).Ok? && Matches(Ops(Tokens(code)), k, m)
    ensures Machine.Paired(CompileChecked(code).program, 2 * k, 2 * m)
    ensures |CompileChecked(code).program| <= ProgramCapacity
  {
    var ops := Ops(Tokens(code));
    CompiledShape(code);
    CompiledLaidOut(code);
    MatchesTarget(ops, k, m);
    PairedAt(ops, Compiled(code), m);
  }

  /** At run time, in an accepted program: a `[` at instruction `k` on a zero cell
      goes on just past the `]` it matches, and on any other cell into the body. */
  lemma CheckedOpenLands(code: string, s: Machine.State, keys: Keys, k: nat, m: nat)
    requires CompileChecked(code).Ok? && Matches(Ops(Tokens(code)), k, m)
    requires s.cursor == 2 * k && Machine.InTape(s)
    ensures var o := Machine.Next(CompileChecked(code).program, s, keys);
      o.status == Machine.Running &&
      o.state.cursor == if s.tape[s.address] == 0 then 2 * m + 2 else 2 * k + 2
  {
    CheckedPaired(code, k, m);
    Machine.OpenLands(CompileChecked(code).program, s, keys, 2 * k, 2 * m);
  }

  /** At run time, in an accepted program: the `]` at instruction `m` on a nonzero
      cell goes back to the first instruction of the body of the `[` it matches, and
      on a zero cell goes on after itself. */
  lemma CheckedCloseLands(code: string, s: Machine.State, keys: Keys, k: nat, m: nat)
    requires CompileChecked(code).Ok? && Matches(Ops(Tokens(code)), k, m)
    requires s.cursor == 2 * m && Machine.InTape(s)
    ensures var o := Machine.Next(CompileChecked(code).program, s, keys);
      o.status == Machine.Running &&
      o.state.cursor == if s.tape[s.address] != 0 then 2 * k + 2 else 2 * m + 2
  {
    CheckedPaired(code, k, m);
    Machine.CloseLands(CompileChecked(code).program, s, keys, 2 * k, 2 * m);
  }

  /** The front end with the checks: the loaded source compiled by `CompileChecked`. */
  function Build(raw: string): Checked {
    CompileChecked(Source(raw))
  }

  /** Every program the checked front end accepts runs from the initial machine with
      its cursor on instruction slots: each slice stops on an opcode or at the end. */
  lemma BuildRunsAligned(raw: string, keys: Keys, fuel: nat)
    requires Build(raw).Ok?
    ensures var o := Machine.Slice(Build(raw).program, Machine.Initial(), keys, fuel);
      o.state.cursor % 2 == 0 && o.state.cursor <= |Build(raw).program|
  {
    Machine.SliceEven(Build(raw).program, Machine.Initial(), keys, fuel);
  }

  /** The colour of one cell; the cell's value can be read back from it. */
  function Pixel(v: u8): (c: Rgb)
    ensures c == Decode((v as int) as bv8)
    ensures Encode(c) == (v as int) as bv8
  {
    Decode((v as int) as bv8)
  }

  /** The picture: row `y`, column `x` is drawn in the colour of cell `16y + x`, and
      that colour gives the cell back, so the picture determines the first 256 cells. */
  function Frame(tape: seq<u8>): (f: seq<seq<Rgb>>)
    requires |tape| >= 256
    ensures |f| == 16 && forall y :: 0 <= y < 16 ==> |f[y]| == 16
    ensures forall y, x :: 0 <= y < 16 && 0 <= x < 16 ==> f[y][x] == Decode((tape[16 * y + x] as int) as bv8)
    ensures forall y, x :: 0 <= y < 16 && 0 <= x < 16 ==> Encode(f[y][x]) == (tape[16 * y + x] as int) as bv8
  {
    seq(16, y requires 0 <= y < 16 => Row(tape, y))
  }

  /** Row `y` of the picture. */
  function Row(tape: seq<u8>, y: nat): (r: seq<Rgb>)
    requires |tape| >= 256 && y < 16
    ensures |r| == 16 && forall x :: 0 <= x < 16 ==> r[x] == Pixel(tape[16 * y + x])
  {
    seq(16, x requires 0 <= x < 16 => Pixel(tape[16 * y + x]))
  }
}
