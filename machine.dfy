/** The virtual machine: a 30000-cell byte tape, a data address and a program
    cursor over the 16-bit slots. One slice runs instructions until a `.` hands
    control back to the host or the cursor leaves the program. */
module Machine {
  import opened Base
  import opened Keypad

  /** Number of tape cells. */
  const TapeSize: nat := 30000

  /** The cursor is a 64-bit `size_t`: jumps wrap at this value. */
  const CursorModulus: int := 0x1_0000_0000_0000_0000

  /** How a step or a slice ended. `Running` is a step after which the slice goes on;
      `TapeFault` is a tape access at an address outside the tape, which the C code
      does not check; `OutOfFuel` is a slice cut short by its step bound. */
  datatype Status = Running | Yielded | Finished | TapeFault | OutOfFuel

  /** Tape, data address and cursor. */
  datatype State = State(tape: seq<u8>, address: int, cursor: nat)

  datatype Outcome = Outcome(status: Status, state: State)

  /** The machine before its first slice: a zero tape, address 0, cursor 0. */
  function Initial(): (s: State)
    ensures |s.tape| == TapeSize && s.address == 0 && s.cursor == 0
    ensures forall i :: 0 <= i < TapeSize ==> s.tape[i] == 0
  {
    State(seq(TapeSize, _ => 0), 0, 0)
  }

  /** Slot `k` of the program array: the static array is zero past the compiled program. */
  function Slot(p: seq<u16>, k: nat): u16 {
    if k < |p| then p[k] else 0
  }

  /** The address names a tape cell. */
  predicate InTape(s: State) {
    0 <= s.address < |s.tape|
  }

  /** The opcodes that read or write the cell at the address. */
  predicate TouchesTape(op: u16) {
    op == PLUS || op == MINUS || op == OPEN || op == CLOSE || op == COMMA
  }

  /** `uint8_t` addition and subtraction of an operand. */
  function AddCell(v: u8, d: u16): u8 {
    ((v as int + d as int) % 0x100) as u8
  }

  function SubCell(v: u8, d: u16): u8 {
    ((v as int - d as int) % 0x100) as u8
  }

  /** The key byte as a tape value. */
  function KeyByte(keys: Keys): u8 {
    (Pack(keys) as int) as u8
  }

  /** One pass through the switch of the run loop, for a cursor inside the program.
      The opcode is read and the cursor moves past it; a counted instruction reads
      its operand and moves past it too; `[` on a zero cell and `]` on a nonzero cell
      first add or subtract their operand, in `size_t` arithmetic; any other opcode
      moves the cursor one slot only. */
  function Next(p: seq<u16>, s: State, keys: Keys): Outcome
    requires s.cursor < |p|
  {
    var op := p[s.cursor];
    var c := s.cursor + 1;
    var arg := Slot(p, c);
    if op == RIGHT then Outcome(Running, s.(address := s.address + arg as int, cursor := c + 1))
    else if op == LEFT then Outcome(Running, s.(address := s.address - arg as int, cursor := c + 1))
    else if op == DOT then Outcome(Yielded, s.(cursor := c + 1))
    else if TouchesTape(op) && !InTape(s) then Outcome(TapeFault, s)
    else if op == PLUS then
      Outcome(Running, s.(tape := s.tape[s.address := AddCell(s.tape[s.address], arg)], cursor := c + 1))
    else if op == MINUS then
      Outcome(Running, s.(tape := s.tape[s.address := SubCell(s.tape[s.address], arg)], cursor := c + 1))
    else if op == OPEN then
      var c' := if s.tape[s.address] == 0 then (c + arg as int) % CursorModulus else c;
      Outcome(Running, s.(cursor := (c' + 1) % CursorModulus))
    else if op == CLOSE then
      var c' := if s.tape[s.address] != 0 then (c - arg as int) % CursorModulus else c;
      Outcome(Running, s.(cursor := (c' + 1) % CursorModulus))
    else if op == COMMA then
      Outcome(Running, s.(tape := s.tape[s.address := KeyByte(keys)], cursor := c + 1))
    else Outcome(Running, s.(cursor := c))
  }

  /** One call of the run loop, cut off after `fuel` steps: steps run while the
      cursor is inside the program; a step that does not end in `Running` ends the slice. */
  function Slice(p: seq<u16>, s: State, keys: Keys, fuel: nat): Outcome
    decreases fuel
  {
    if s.cursor >= |p| then Outcome(Finished, s)
    else if fuel == 0 then Outcome(OutOfFuel, s)
    else
      var o := Next(p, s, keys);
      if o.status == Running then Slice(p, o.state, keys, fuel - 1) else o
  }

  /** `+` and `-` change only the cell at the address, by the operand modulo 256;
      `>` and `<` change only the address; `.` only moves the cursor past its pair
      and yields; `,` stores the key byte; an access outside the tape changes nothing. */
  lemma StepEffects(p: seq<u16>, s: State, keys: Keys)
    requires s.cursor < |p|
    ensures var o, op, arg := Next(p, s, keys), p[s.cursor], Slot(p, s.cursor + 1);
      |o.state.tape| == |s.tape| &&
      (op == RIGHT || op == LEFT ==>
        o.status == Running && o.state.tape == s.tape && o.state.cursor == s.cursor + 2 &&
        o.state.address == (if op == RIGHT then s.address + arg as int else s.address - arg as int)) &&
      (op == DOT ==> o == Outcome(Yielded, s.(cursor := s.cursor + 2))) &&
      (TouchesTape(op) && !InTape(s) ==> o == Outcome(TapeFault, s)) &&
      ((op == PLUS || op == MINUS || op == COMMA) && InTape(s) ==>
        o.status == Running && o.state.address == s.address && o.state.cursor == s.cursor + 2 &&
        (forall i :: 0 <= i < |s.tape| && i != s.address ==> o.state.tape[i] == s.tape[i]) &&
        o.state.tape[s.address] as int ==
          (if op == PLUS then (s.tape[s.address] as int + arg as int) % 256
           else if op == MINUS then (s.tape[s.address] as int - arg as int) % 256
           else Pack(keys) as int)) &&
      ((op == OPEN || op == CLOSE) && InTape(s) ==>
        o.status == Running && o.state.tape == s.tape && o.state.address == s.address)
  {
  }

  /** The cell after `+` instructions with the operands `ds`, in order. */
  function AddAll(v: u8, ds: seq<u16>): u8
    decreases |ds|
  {
    if ds == [] then v else AddAll(AddCell(v, ds[0]), ds[1..])
  }

  /** The total of a sequence of operands. */
  function Total(ds: seq<u16>): int
    decreases |ds|
  {
    if ds == [] then 0 else ds[0] as int + Total(ds[1..])
  }

  /** However the increments are grouped into operands, the cell gains their total
      modulo 256; a total that is a multiple of 256 leaves it as it was. */
  lemma {:induction false} AddAllValue(v: u8, ds: seq<u16>)
    ensures AddAll(v, ds) as int == (v as int + Total(ds)) % 256
    ensures Total(ds) % 256 == 0 ==> AddAll(v, ds) == v
    decreases |ds|
  {
    if ds != [] {
      AddAllValue(AddCell(v, ds[0]), ds[1..]);
      ModAddLeft(v as int + ds[0] as int, Total(ds[1..]));
    }
    var q := Total(ds) / 256;
    assert Total(ds) == 256 * q + Total(ds) % 256;
    ModShift(v as int, q);
  }

  /** The operands of `n` single increments, `(+,1)` each. */
  function Ones(n: nat): seq<u16>
    decreases n
  {
    if n == 0 then [] else [1] + Ones(n - 1)
  }

  /** `n` operands of 1 total `n`. */
  lemma {:induction false} TotalOnes(n: nat)
    ensures |Ones(n)| == n && Total(Ones(n)) == n
    decreases n
  {
    if n > 0 {
      TotalOnes(n - 1);
      assert Ones(n)[1..] == Ones(n - 1);
    }
  }

  /** `n` single increments add `n` modulo 256. */
  lemma AddCellsValue(v: u8, n: nat)
    ensures AddAll(v, Ones(n)) as int == (v as int + n) % 256
  {
    TotalOnes(n);
    AddAllValue(v, Ones(n));
  }

  /** Any multiple of 256 single increments leaves a cell as it was. */
  lemma AddCellRepeated(v: u8, n: nat)
    ensures AddAll(v, Ones(256 * n)) == v
  {
    TotalOnes(256 * n);
    AddAllValue(v, Ones(256 * n));
  }

  /** Slots `c`, `c + 1`, ... of `p` hold one `+` instruction per operand of `ds`. */
  predicate Increments(p: seq<u16>, c: nat, ds: seq<u16>) {
    c + 2 * |ds| <= |p| &&
    forall k :: 0 <= k < |ds| ==> p[c + 2 * k] == PLUS && p[c + 2 * k + 1] == ds[k]
  }

  /** A slice that runs through a block of `+` instructions to the end of the program
      finishes with the cell at the address raised by the operands' total modulo 256,
      and with nothing else changed; so 256 increments in total, in any grouping,
      leave the tape as it was. */
  lemma {:induction false} IncrementsRun(p: seq<u16>, s: State, keys: Keys, fuel: nat, ds: seq<u16>)
    requires Increments(p, s.cursor, ds) && s.cursor + 2 * |ds| == |p|
    requires InTape(s) && |ds| <= fuel
    ensures Slice(p, s, keys, fuel) ==
      Outcome(Finished, s.(tape := s.tape[s.address := AddAll(s.tape[s.address], ds)], cursor := |p|))
    ensures Total(ds) % 256 == 0 ==> Slice(p, s, keys, fuel).state.tape == s.tape
    decreases |ds|
  {
    var a := s.address;
    if ds == [] {
      assert s.tape[a := s.tape[a]] == s.tape;
    } else {
      assert p[s.cursor] == PLUS && p[s.cursor + 1] == ds[0];
      var s' := s.(tape := s.tape[a := AddCell(s.tape[a], ds[0])], cursor := s.cursor + 2);
      assert Next(p, s, keys) == Outcome(Running, s');
      assert Increments(p, s'.cursor, ds[1..]) by {
        forall k | 0 <= k < |ds[1..]|
          ensures p[s'.cursor + 2 * k] == PLUS && p[s'.cursor + 2 * k + 1] == ds[1..][k]
        {
          assert s'.cursor + 2 * k == s.cursor + 2 * (k + 1);
        }
      }
      IncrementsRun(p, s', keys, fuel - 1, ds[1..]);
      assert s'.tape[a := AddAll(s'.tape[a], ds[1..])] == s.tape[a := AddAll(s.tape[a], ds)];
    }
    AddAllValue(s.tape[a], ds);
  }

  /** `(+,200),(+,56)` and a single `(+,256)`, as the compiler lays out 256 `+` in a
      row, both leave the tape as it was. */
  lemma GroupedWrap(s: State, keys: Keys)
    requires s.cursor == 0 && InTape(s)
    ensures Slice([PLUS, 200, PLUS, 56], s, keys, 2).state.tape == s.tape
    ensures Slice([PLUS, 256], s, keys, 1).state.tape == s.tape
  {
    assert Total([200, 56]) == 256 by {
      assert [200 as u16, 56][1..] == [56];
    }
    IncrementsRun([PLUS, 200, PLUS, 56], s, keys, 2, [200, 56]);
    IncrementsRun([PLUS, 256], s, keys, 1, [256]);
  }

  /** `-` undoes `+` with the same operand, and `-1` on a zero cell gives 255. */
  lemma CellInverse(v: u8, d: u16)
    ensures SubCell(AddCell(v, d), d) == v
    ensures AddCell(SubCell(v, d), d) == v
    ensures SubCell(0, 1) == 255
  {
    ModAddLeft(v as int + d as int, -(d as int));
    ModAddLeft(v as int - d as int, d as int);
    ModShift(-1, 1);
  }

  lemma ModShift(x: int, q: int)
    ensures (x + 256 * q) % 256 == x % 256
  {
    var r := x % 256;
    assert x == 256 * (x / 256) + r;
    assert x + 256 * q == 256 * (x / 256 + q) + r;
  }

  lemma ModAddLeft(a: int, b: int)
    ensures (a % 256 + b) % 256 == (a + b) % 256
  {
    assert a % 256 + b == (a + b) + 256 * (-(a / 256));
    ModShift(a + b, -(a / 256));
  }

  /** Slots `i` and `j` hold a `[` and a `]` whose operands both hold the slot
      distance between them. */
  predicate Paired(p: seq<u16>, i: nat, j: nat) {
    i < j && i % 2 == 0 && j % 2 == 0 && j + 1 < |p| &&
    p[i] == OPEN && p[j] == CLOSE && p[i + 1] as int == j - i && p[j + 1] as int == j - i
  }

  /** A program the bracket jumps work on: whole instructions, an instruction at every
      even slot and every bracket paired with a partner. */
  ghost predicate WellFormed(p: seq<u16>) {
    |p| % 2 == 0 && |p| <= ProgramCapacity &&
    (forall i :: 0 <= i < |p| && i % 2 == 0 ==> IsInstruction(p[i])) &&
    (forall i :: 0 <= i < |p| && i % 2 == 0 && p[i] == OPEN ==> exists j: nat :: Paired(p, i, j)) &&
    (forall j :: 0 <= j < |p| && j % 2 == 0 && p[j] == CLOSE ==> exists i: nat :: Paired(p, i, j))
  }

  /** At a `[`: a zero cell continues after the matching `]`, otherwise in the body. */
  lemma OpenLands(p: seq<u16>, s: State, keys: Keys, i: nat, j: nat)
    requires Paired(p, i, j) && |p| <= ProgramCapacity
    requires s.cursor == i && InTape(s)
    ensures Next(p, s, keys).status == Running
    ensures Next(p, s, keys).state.cursor == if s.tape[s.address] == 0 then j + 2 else i + 2
  {
  }

  /** At a `]`: a nonzero cell goes back to the first instruction of the body,
      otherwise the program goes on after the `]`. */
  lemma CloseLands(p: seq<u16>, s: State, keys: Keys, i: nat, j: nat)
    requires Paired(p, i, j) && |p| <= ProgramCapacity
    requires s.cursor == j && InTape(s)
    ensures Next(p, s, keys).status == Running
    ensures Next(p, s, keys).state.cursor == if s.tape[s.address] != 0 then i + 2 else j + 2
  {
  }

  /** In a well-formed program a step from an instruction slot that keeps running
      lands on an instruction slot again or at the end of the program. */
  lemma StepEven(p: seq<u16>, s: State, keys: Keys)
    requires WellFormed(p) && s.cursor < |p| && s.cursor % 2 == 0
    ensures var o := Next(p, s, keys);
      o.status == Running ==> o.state.cursor % 2 == 0 && o.state.cursor <= |p|
  {
    var op := p[s.cursor];
    if op == OPEN && InTape(s) {
      var j: nat :| Paired(p, s.cursor, j);
      BracketEven(p, s, keys, s.cursor, j);
    } else if op == CLOSE && InTape(s) {
      var i: nat :| Paired(p, i, s.cursor);
      BracketEven(p, s, keys, i, s.cursor);
    } else {
      StraightStep(p, s, keys);
    }
  }

  /** A bracket of a pair jumps to an instruction slot. */
  lemma BracketEven(p: seq<u16>, s: State, keys: Keys, i: nat, j: nat)
    requires Paired(p, i, j) && |p| <= ProgramCapacity && |p| % 2 == 0 && InTape(s)
    requires s.cursor == i || s.cursor == j
    ensures Next(p, s, keys).state.cursor % 2 == 0 && Next(p, s, keys).state.cursor <= |p|
  {
    if s.cursor == i {
      OpenLands(p, s, keys, i, j);
    } else {
      CloseLands(p, s, keys, i, j);
    }
  }

  /** Any instruction other than a taken bracket moves the cursor past its two slots. */
  lemma StraightStep(p: seq<u16>, s: State, keys: Keys)
    requires s.cursor < |p| && IsInstruction(p[s.cursor])
    requires !((p[s.cursor] == OPEN || p[s.cursor] == CLOSE) && InTape(s))
    ensures var o := Next(p, s, keys);
      o.status == Running ==> o.state.cursor == s.cursor + 2
  {
  }

  /** A slice never ends in `Running`. It ends `Finished` only with the cursor at or
      past the end, `Yielded` only just after a `.`, `TapeFault` only at a tape
      instruction whose address is off the tape, and `OutOfFuel` only inside the
      program. The tape keeps its size. */
  lemma {:induction false} SliceEnds(p: seq<u16>, s: State, keys: Keys, fuel: nat)
    ensures var o := Slice(p, s, keys, fuel);
      o.status != Running && |o.state.tape| == |s.tape| &&
      (o.status == Finished ==> o.state.cursor >= |p|) &&
      (o.status == Yielded ==> 2 <= o.state.cursor < |p| + 2 && p[o.state.cursor - 2] == DOT) &&
      (o.status == TapeFault ==> o.state.cursor < |p| && TouchesTape(p[o.state.cursor]) && !InTape(o.state)) &&
      (o.status == OutOfFuel ==> o.state.cursor < |p|)
    decreases fuel
  {
    if s.cursor < |p| && fuel > 0 {
      StepEffects(p, s, keys);
      var o := Next(p, s, keys);
      if o.status == Running {
        SliceEnds(p, o.state, keys, fuel - 1);
      }
    }
  }

  /** In a well-formed program every slice that starts on an instruction slot ends
      on one or at the end of the program. */
  lemma {:induction false} SliceEven(p: seq<u16>, s: State, keys: Keys, fuel: nat)
    requires WellFormed(p) && s.cursor % 2 == 0 && s.cursor <= |p|
    ensures Slice(p, s, keys, fuel).state.cursor % 2 == 0
    ensures Slice(p, s, keys, fuel).state.cursor <= |p|
    decreases fuel
  {
    if s.cursor < |p| && fuel > 0 {
      StepEven(p, s, keys);
      StepEffects(p, s, keys);
      var o := Next(p, s, keys);
      if o.status == Running {
        SliceEven(p, o.state, keys, fuel - 1);
      }
    }
  }

  /** The step bound only cuts a slice short: a slice that ends within `fuel` steps
      ends the same way with any larger bound. */
  lemma {:induction false} SliceFuel(p: seq<u16>, s: State, keys: Keys, fuel: nat, more: nat)
    requires fuel <= more
    requires Slice(p, s, keys, fuel).status != OutOfFuel
    ensures Slice(p, s, keys, more) == Slice(p, s, keys, fuel)
    decreases fuel
  {
    if s.cursor < |p| {
      var o := Next(p, s, keys);
      if o.status == Running {
        SliceFuel(p, o.state, keys, fuel - 1, more - 1);
      }
    }
  }

  /** Once the cursor has left the program every later slice is `Finished` and
      changes nothing, however many times the host calls it. */
  lemma SliceAfterEnd(p: seq<u16>, s: State, keys: Keys, fuel: nat)
    requires s.cursor >= |p|
    ensures Slice(p, s, keys, fuel) == Outcome(Finished, s)
  {
  }

  /** The machine: the compiled program, the tape and the two registers. */
  class Vm {
    const program: seq<u16>
    const memory: array<u8>
    var address: int
    var cursor: nat

    predicate Valid()
      reads this
    {
      memory.Length == TapeSize
    }

    /** The machine's state as a value. */
    function Current(): State
      reads this, memory
    {
      State(memory[..], address, cursor)
    }

    /** A machine loaded with `program`, with a zero tape. */
    constructor (program: seq<u16>)
      ensures Valid() && this.program == program && fresh(memory)
      ensures Current() == Initial()
    {
      this.program := program;
      memory := new u8[TapeSize](_ => 0);
      address := 0;
      cursor := 0;
    }

    /** One pass through the switch of the run loop. */
    method Step(keys: Keys) returns (status: Status)
      requires Valid() && cursor < |program|
      modifies this, memory
      ensures Valid()
      ensures Outcome(status, Current()) == Next(program, old(Current()), keys)
    {
      var op := program[cursor];
      var arg := Slot(program, cursor + 1);
      if TouchesTape(op) && !(0 <= address < memory.Length) {
        return TapeFault;
      }
      cursor := cursor + 1;
      status := Running;
      if op == RIGHT {
        address := address + arg as int;
        cursor := cursor + 1;
      } else if op == LEFT {
        address := address - arg as int;
        cursor := cursor + 1;
      } else if op == PLUS {
        memory[address] := AddCell(memory[address], arg);
        cursor := cursor + 1;
      } else if op == MINUS {
        memory[address] := SubCell(memory[address], arg);
        cursor := cursor + 1;
      } else if op == OPEN {
        if memory[address] == 0 {
          cursor := (cursor + arg as int) % CursorModulus;
        }
        cursor := (cursor + 1) % CursorModulus;
      } else if op == CLOSE {
        if memory[address] != 0 {
          cursor := (cursor - arg as int) % CursorModulus;
        }
        cursor := (cursor + 1) % CursorModulus;
      } else if op == DOT {
        cursor := cursor + 1;
        status := Yielded;
      } else if op == COMMA {
        cursor := cursor + 1;
        memory[address] := KeyByte(keys);
      }
    }

    /** `run_program`, cut off after `fuel` steps: steps run while the cursor is
        inside the program and each keeps running. */
    method RunSlice(keys: Keys, fuel: nat) returns (status: Status)
      requires Valid()
      modifies this, memory
      ensures Valid()
      ensures Outcome(status, Current()) == Slice(program, old(Current()), keys, fuel)
    {
      var remaining := fuel;
      while cursor < |program|
        invariant Valid()
        invariant Slice(program, Current(), keys, remaining) == Slice(program, old(Current()), keys, fuel)
        decreases remaining
      {
        if remaining == 0 {
          return OutOfFuel;
        }
        status := Step(keys);
        if status != Running {
          return;
        }
        remaining := remaining - 1;
      }
      status := Finished;
    }
  }
}
