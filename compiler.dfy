/** The bytecode compiler: the substituted text becomes a flat program of 16-bit
    slots, two per instruction, an opcode followed by its operand. Runs of `>`,
    `<`, `+` and `-` are counted, `]` is resolved against its `[` by a backward
    scan, and every other character is skipped. */
module Compiler {
  import opened Base
  import opened Brackets

  /** One instruction before layout: its opcode and, for the counted symbols, the
      length of the run of that symbol (1 for every other symbol). */
  datatype Token = Token(op: u16, run: nat)

  /** Number of copies of `c` at the start of `s`. */
  function RunLength(s: string, c: char): (n: nat)
    ensures n <= |s|
    ensures forall i :: 0 <= i < n ==> s[i] == c
    ensures n < |s| ==> s[n] != c
    ensures s != [] && s[0] == c ==> n >= 1
  {
    if s == [] || s[0] != c then 0 else 1 + RunLength(s[1..], c)
  }

  /** The run length is fixed by its two defining facts. */
  lemma {:induction false} RunLengthExact(s: string, c: char, n: nat)
    requires n <= |s|
    requires forall i :: 0 <= i < n ==> s[i] == c
    requires n == |s| || s[n] != c
    ensures RunLength(s, c) == n
    decreases n
  {
    if n > 0 {
      forall i | 0 <= i < n - 1 ensures s[1..][i] == c {
        assert s[1..][i] == s[i + 1];
      }
      RunLengthExact(s[1..], c, n - 1);
    }
  }

  /** The instructions of a text in order, as the compile loop reads them: a counted
      symbol takes its whole run, any other symbol stands alone, and every other
      character is skipped. */
  function Tokens(s: string): seq<Token>
    decreases |s|
  {
    if s == [] then []
    else if IsRunSymbol(s[0]) then
      var n := RunLength(s, s[0]);
      [Token(Opcode(s[0]), n)] + Tokens(s[n..])
    else if IsSymbol(s[0]) then [Token(Opcode(s[0]), 1)] + Tokens(s[1..])
    else Tokens(s[1..])
  }

  /** Every token is an instruction with a positive count, and only counted symbols
      have a count above one. */
  lemma {:induction false} TokensShape(s: string)
    ensures forall t :: t in Tokens(s) ==> IsInstruction(t.op) && t.run >= 1
    ensures forall t :: t in Tokens(s) && !IsRunOp(t.op) ==> t.run == 1
    ensures |Tokens(s)| <= |s|
    decreases |s|
  {
    if s != [] {
      if IsRunSymbol(s[0]) {
        TokensShape(s[RunLength(s, s[0])..]);
      } else {
        TokensShape(s[1..]);
      }
    }
  }

  /** The program text of one position of the compile loop. */
  lemma TokensAt(code: string, p: nat)
    requires p < |code|
    ensures !IsSymbol(code[p]) ==> Tokens(code[p..]) == Tokens(code[p + 1..])
    ensures IsSymbol(code[p]) && !IsRunSymbol(code[p]) ==>
      Tokens(code[p..]) == [Token(Opcode(code[p]), 1)] + Tokens(code[p + 1..])
    ensures IsRunSymbol(code[p]) ==>
      var n := RunLength(code[p..], code[p]);
      Tokens(code[p..]) == [Token(Opcode(code[p]), n)] + Tokens(code[p + n..])
  {
    var s := code[p..];
    assert s[0] == code[p];
    TokensHead(s);
    if IsRunSymbol(s[0]) {
      var n := RunLength(s, s[0]);
      assert s[n..] == code[p + n..];
    } else {
      assert s[1..] == code[p + 1..];
    }
  }

  /** The first step of `Tokens` on a nonempty text. */
  lemma TokensHead(s: string)
    requires s != []
    ensures !IsSymbol(s[0]) ==> Tokens(s) == Tokens(s[1..])
    ensures IsSymbol(s[0]) && !IsRunSymbol(s[0]) ==> Tokens(s) == [Token(Opcode(s[0]), 1)] + Tokens(s[1..])
    ensures IsRunSymbol(s[0]) ==> Tokens(s) == [Token(Opcode(s[0]), RunLength(s, s[0]))] + Tokens(s[RunLength(s, s[0])..])
  {
  }

  /** `n` copies of `x`. */
  function Repeat<T>(x: T, n: nat): (r: seq<T>)
    ensures |r| == n && forall i :: 0 <= i < n ==> r[i] == x
  {
    if n == 0 then [] else [x] + Repeat(x, n - 1)
  }

  /** The opcodes of the symbols of `s`, in order, with every other character dropped:
      the reference reading of the text as a symbol sequence. */
  function Symbols(s: string): seq<u16>
    decreases |s|
  {
    if s == [] then []
    else if IsSymbol(s[0]) then [Opcode(s[0])] + Symbols(s[1..])
    else Symbols(s[1..])
  }

  /** Each token written out as its run of opcodes. */
  function Expand(ts: seq<Token>): seq<u16> {
    if ts == [] then [] else Repeat(ts[0].op, ts[0].run) + Expand(ts[1..])
  }

  /** A leading run of `n` copies of a symbol contributes `n` opcodes. */
  lemma {:induction false} SymbolsOfRun(s: string, c: char, n: nat)
    requires IsSymbol(c) && n <= |s|
    requires forall i :: 0 <= i < n ==> s[i] == c
    ensures Symbols(s) == Repeat(Opcode(c), n) + Symbols(s[n..])
    decreases n
  {
    if n > 0 {
      forall i | 0 <= i < n - 1 ensures s[1..][i] == c {
        assert s[1..][i] == s[i + 1];
      }
      SymbolsOfRun(s[1..], c, n - 1);
      assert s[1..][n - 1..] == s[n..];
    }
  }

  /** Coalescing loses nothing: writing every token out as its run gives back the
      symbols of the text, in order. */
  lemma {:induction false} TokensExpand(s: string)
    ensures Expand(Tokens(s)) == Symbols(s)
    decreases |s|
  {
    if s != [] {
      var ts := Tokens(s);
      if IsRunSymbol(s[0]) {
        var n := RunLength(s, s[0]);
        TokensExpand(s[n..]);
        SymbolsOfRun(s, s[0], n);
        assert ts[1..] == Tokens(s[n..]);
      } else if IsSymbol(s[0]) {
        TokensExpand(s[1..]);
        assert ts[1..] == Tokens(s[1..]);
      } else {
        TokensExpand(s[1..]);
      }
    }
  }

  /** A maximal run of `n` copies of a counted symbol becomes exactly one token with count `n`. */
  lemma TokensOfRun(c: char, n: nat, rest: string)
    requires IsRunSymbol(c) && n >= 1
    requires rest == [] || rest[0] != c
    ensures Tokens(Repeat(c, n) + rest) == [Token(Opcode(c), n)] + Tokens(rest)
  {
    var s := Repeat(c, n) + rest;
    RunLengthExact(s, c, n);
    assert s[n..] == rest;
  }

  /** The opcode of every token. */
  function Ops(ts: seq<Token>): (ops: seq<u16>)
    ensures |ops| == |ts| && forall i :: 0 <= i < |ts| ==> ops[i] == ts[i].op
  {
    seq(|ts|, i requires 0 <= i < |ts| => ts[i].op)
  }

  /** The operand slot as the token is laid down: the run count, stored in 16 bits,
      for a counted symbol, otherwise the zero already in the slot. */
  function Operand(t: Token): u16 {
    if IsRunOp(t.op) then (t.run % SlotModulus) as u16 else 0
  }

  /** The slot distance from instruction `k` to instruction `m`, stored in 16 bits. */
  function Distance(k: nat, m: nat): u16
    requires k <= m
  {
    ((2 * (m - k)) % SlotModulus) as u16
  }

  /** The two operand writes for a `]` at instruction `m` whose scan stopped at `k`. */
  function Patch(slots: seq<u16>, k: nat, m: nat): seq<u16>
    requires k <= m && 2 * m + 1 < |slots|
  {
    slots[2 * k + 1 := Distance(k, m)][2 * m + 1 := Distance(k, m)]
  }

  /** The program after the compile loop has laid down the first `n` tokens of `ts`. */
  function Layout(ts: seq<Token>, n: nat): (slots: seq<u16>)
    requires n <= |ts|
    ensures |slots| == 2 * n
  {
    if n == 0 then []
    else
      var laid := Layout(ts, n - 1) + [ts[n - 1].op, Operand(ts[n - 1])];
      if ts[n - 1].op == CLOSE then Patch(laid, Target(Ops(ts), n - 1).0, n - 1) else laid
  }

  /** The compiled program of a text. */
  function Compiled(code: string): seq<u16> {
    Layout(Tokens(code), |Tokens(code)|)
  }

  /** Opcodes sit at the even slots, in token order: the operand writes touch odd slots only. */
  lemma {:induction false} LayoutOpcodes(ts: seq<Token>, n: nat)
    requires n <= |ts|
    ensures forall j :: 0 <= j < n ==> Layout(ts, n)[2 * j] == ts[j].op
    decreases n
  {
    if n > 0 {
      LayoutOpcodes(ts, n - 1);
    }
  }

  /** The operand slot of instruction `j` once the first `n` tokens are laid down
      as `slots`, when no `]` among them is unmatched. */
  ghost predicate OperandOk(ts: seq<Token>, slots: seq<u16>, n: nat, j: nat)
    requires j < n <= |ts| && |slots| == 2 * n
  {
    var ops := Ops(ts);
    (ts[j].op == CLOSE ==> Target(ops, j).0 <= j && slots[2 * j + 1] == Distance(Target(ops, j).0, j)) &&
    (ts[j].op == OPEN ==> forall m :: j < m < n && Matches(ops, j, m) ==> slots[2 * j + 1] == Distance(j, m)) &&
    (ts[j].op == OPEN && (forall m :: j < m < n ==> !Matches(ops, j, m)) ==> slots[2 * j + 1] == 0) &&
    (ts[j].op != OPEN && ts[j].op != CLOSE ==> slots[2 * j + 1] == Operand(ts[j]))
  }

  ghost predicate OperandsAfter(ts: seq<Token>, n: nat)
    requires n <= |ts|
  {
    forall j :: 0 <= j < n ==> OperandOk(ts, Layout(ts, n), n, j)
  }

  /** Laying down one more token keeps every operand slot as `OperandOk` says. */
  lemma OperandsStep(ts: seq<Token>, n: nat)
    requires n < |ts| && NoUnmatchedClose(Ops(ts))
    requires OperandsAfter(ts, n)
    ensures OperandsAfter(ts, n + 1)
  {
    var ops := Ops(ts);
    var slots := Layout(ts, n);
    var n1 := n + 1;
    var next := Layout(ts, n1);
    if ts[n].op == CLOSE {
      CloseFindsOpen(ops, n);
      var k := Target(ops, n).0;
      forall j | 0 <= j < n1 ensures OperandOk(ts, next, n1, j) {
        if j == k {
          forall m | j < m < n && Matches(ops, j, m) ensures false {
            MatchUnique(ops, j, m, k, n);
          }
        } else if j < n {
          assert next[2 * j + 1] == slots[2 * j + 1];
          assert OperandOk(ts, slots, n, j);
          forall m | j < m < n + 1 && Matches(ops, j, m) ensures m < n {
            if m == n {
              MatchUnique(ops, j, m, k, n);
            }
          }
        }
      }
    } else {
      forall j | 0 <= j < n1 ensures OperandOk(ts, next, n1, j) {
        if j < n {
          assert next[2 * j + 1] == slots[2 * j + 1];
          assert OperandOk(ts, slots, n, j);
          assert !Matches(ops, j, n);
        }
      }
    }
  }

  /** The operand slots of a program without an unmatched `]`. */
  lemma {:induction false} OperandsLaid(ts: seq<Token>, n: nat)
    requires n <= |ts| && NoUnmatchedClose(Ops(ts))
    ensures OperandsAfter(ts, n)
    decreases n
  {
    if n > 0 {
      OperandsLaid(ts, n - 1);
      OperandsStep(ts, n - 1);
    }
  }

  /** Bracket symmetry, over the finished slots: each `]` and the `[` its scan stops
      at are a matching pair and both operands hold the same slot distance; an
      unmatched `[` keeps operand 0; every other instruction keeps its operand. */
  ghost predicate OperandsHold(ts: seq<Token>, slots: seq<u16>)
    requires |slots| == 2 * |ts|
  {
    (forall j :: 0 <= j < |ts| && ts[j].op == CLOSE ==>
      var k := Target(Ops(ts), j).0;
      Matches(Ops(ts), k, j) && slots[2 * k + 1] == slots[2 * j + 1] == Distance(k, j)) &&
    (forall j :: 0 <= j < |ts| && ts[j].op == OPEN && (forall m :: !Matches(Ops(ts), j, m)) ==>
      slots[2 * j + 1] == 0) &&
    (forall j :: 0 <= j < |ts| && ts[j].op != OPEN && ts[j].op != CLOSE ==>
      slots[2 * j + 1] == Operand(ts[j]))
  }

  /** The compiled program of a text without an unmatched `]` has its operands as
      `OperandsHold` says. */
  lemma CompiledOperands(code: string)
    requires NoUnmatchedClose(Ops(Tokens(code)))
    ensures |Compiled(code)| == 2 * |Tokens(code)|
    ensures OperandsHold(Tokens(code), Compiled(code))
  {
    LaidOperands(Tokens(code));
  }

  /** `CompiledOperands` for any token sequence. */
  lemma LaidOperands(ts: seq<Token>)
    requires NoUnmatchedClose(Ops(ts))
    ensures |Layout(ts, |ts|)| == 2 * |ts|
    ensures OperandsHold(ts, Layout(ts, |ts|))
  {
    OperandsLaid(ts, |ts|);
    FinalOperands(ts, Layout(ts, |ts|));
  }

  /** What `OperandOk` says about every slot of a complete layout. */
  lemma FinalOperands(ts: seq<Token>, slots: seq<u16>)
    requires NoUnmatchedClose(Ops(ts)) && |slots| == 2 * |ts|
    requires forall j :: 0 <= j < |ts| ==> OperandOk(ts, slots, |ts|, j)
    ensures OperandsHold(ts, slots)
  {
    forall j | 0 <= j < |ts| && ts[j].op == CLOSE
      ensures Matches(Ops(ts), Target(Ops(ts), j).0, j)
      ensures slots[2 * Target(Ops(ts), j).0 + 1] == slots[2 * j + 1] == Distance(Target(Ops(ts), j).0, j)
    {
      CloseOperand(ts, slots, j);
    }
    forall j | 0 <= j < |ts| && ts[j].op != CLOSE
      ensures ts[j].op == OPEN && (forall m :: !Matches(Ops(ts), j, m)) ==> slots[2 * j + 1] == 0
      ensures ts[j].op != OPEN ==> slots[2 * j + 1] == Operand(ts[j])
    {
      assert OperandOk(ts, slots, |ts|, j);
    }
  }

  /** The two operands of a `]` in a complete layout. */
  lemma CloseOperand(ts: seq<Token>, slots: seq<u16>, j: nat)
    requires NoUnmatchedClose(Ops(ts)) && |slots| == 2 * |ts|
    requires forall j :: 0 <= j < |ts| ==> OperandOk(ts, slots, |ts|, j)
    requires j < |ts| && ts[j].op == CLOSE
    ensures Matches(Ops(ts), Target(Ops(ts), j).0, j)
    ensures slots[2 * Target(Ops(ts), j).0 + 1] == slots[2 * j + 1] == Distance(Target(Ops(ts), j).0, j)
  {
    var ops := Ops(ts);
    CloseFindsOpen(ops, j);
    var k := Target(ops, j).0;
    assert OperandOk(ts, slots, |ts|, j);
    assert OperandOk(ts, slots, |ts|, k);
  }

  /** The layout: two slots per token, opcodes at the even slots. */
  lemma CompiledShape(code: string)
    ensures |Compiled(code)| == 2 * |Tokens(code)|
    ensures forall j :: 0 <= j < |Tokens(code)| ==> Compiled(code)[2 * j] == Tokens(code)[j].op
    ensures forall i :: 0 <= i < |Compiled(code)| && i % 2 == 0 ==> IsInstruction(Compiled(code)[i])
  {
    var ts := Tokens(code);
    var slots := Layout(ts, |ts|);
    assert slots == Compiled(code);
    LayoutOpcodes(ts, |ts|);
    TokensShape(code);
    forall i | 0 <= i < |slots| && i % 2 == 0 ensures IsInstruction(slots[i]) {
      var j := i / 2;
      assert i == 2 * j;
      assert slots[2 * j] == ts[j].op;
      assert ts[j] in ts;
    }
  }

  /** Runs are counted and skipped text emits nothing: `++.` compiles to (+,2),(.,0). */
  lemma RunsExample()
    ensures Compiled("++.") == [PLUS, 2, DOT, 0]
  {
    var s := "++.";
    assert RunLength(s, '+') == 2 by {
      RunLengthExact(s, '+', 2);
    }
    assert s[2..] == ".";
    assert Tokens(".") == [Token(DOT, 1)] by {
      assert "."[1..] == [];
    }
    assert Tokens(s) == [Token(PLUS, 2), Token(DOT, 1)];
  }

  /** A matched loop: both bracket operands of `+[-]` hold the distance 4. */
  lemma LoopExample()
    ensures Compiled("+[-]") == [PLUS, 1, OPEN, 4, MINUS, 1, CLOSE, 4]
  {
    var s := "+[-]";
    RunLengthExact(s, '+', 1);
    assert s[1..] == "[-]";
    assert "[-]"[1..] == "-]";
    RunLengthExact("-]", '-', 1);
    assert "-]"[1..] == "]";
    assert "]"[1..] == [];
    var ts := [Token(PLUS, 1), Token(OPEN, 1), Token(MINUS, 1), Token(CLOSE, 1)];
    assert Tokens(s) == ts;
    assert Target(Ops(ts), 3) == (1, 0);
  }

  /** An unmatched `]` runs its scan down to slot 0 and overwrites slot 1, here the
      count of the preceding run: `+]` compiles with the `+` counted twice. */
  lemma UnmatchedCloseClobbers()
    ensures Compiled("+]") == [PLUS, 2, CLOSE, 2]
  {
    var s := "+]";
    RunLengthExact(s, '+', 1);
    assert s[1..] == "]";
    assert "]"[1..] == [];
    var ts := [Token(PLUS, 1), Token(CLOSE, 1)];
    assert Tokens(s) == ts;
    assert Target(Ops(ts), 1) == (0, 1);
  }

  /** The run counter is a 16-bit slot: a run of 65536 `>` is counted as 0 and the
      instruction does not move at all. */
  lemma CountWraps()
    ensures Compiled(Repeat('>', 65536)) == [RIGHT, 0]
  {
    var s := Repeat('>', 65536);
    TokensOfRun('>', 65536, []);
    assert s + [] == s;
    assert Tokens(s) == [Token(RIGHT, 65536)];
  }

  /** The slots `program[..size]` after the writes of one token. */
  lemma LaidSlots(before: seq<u16>, after: seq<u16>, op: u16, arg: u16)
    requires |after| == |before| + 2
    requires after[..|before|] == before && after[|before|] == op && after[|before| + 1] == arg
    ensures after == before + [op, arg]
  {
  }

  /** The slots of `program` from `from` on still hold their initial zero. */
  ghost predicate ZeroFrom(program: array<u16>, from: nat)
    reads program
  {
    forall i :: from <= i < program.Length ==> program[i] == 0
  }

  /** A run of a counted symbol starting at `code[start]`: the opcode goes into slot
      `size` and the loop counts the run into slot `size + 1`, in 16 bits. */
  method LayRun(code: string, start: nat, program: array<u16>, size: nat, ghost ts: seq<Token>, ghost n: nat)
    returns (next: nat)
    requires start < |code| && IsRunSymbol(code[start])
    requires n < |ts| && ts[n..] == Tokens(code[start..])
    requires size == 2 * n && size + 2 <= program.Length
    requires program[..size] == Layout(ts, n) && ZeroFrom(program, size)
    modifies program
    ensures start < next <= |code| && ts[n + 1..] == Tokens(code[next..])
    ensures program[..size + 2] == Layout(ts, n + 1)
    ensures ZeroFrom(program, size + 2)
  {
    ghost var before := program[..size];
    var ch := code[start];
    next := start + 1;
    program[size] := Opcode(ch);
    program[size + 1] := 1;
    ghost var laid := program[..];
    while next < |code| && code[next] == ch
      invariant start < next <= |code|
      invariant forall q :: start <= q < next ==> code[q] == ch
      invariant program[size + 1] as int == (next - start) % SlotModulus
      invariant forall q :: 0 <= q < program.Length && q != size + 1 ==> program[q] == laid[q]
      decreases |code| - next
    {
      CountStep(next - start);
      program[size + 1] := ((program[size + 1] as int + 1) % SlotModulus) as u16;
      next := next + 1;
    }
    ghost var after := program[..size + 2];
    assert after[..size] == before by {
      forall q | 0 <= q < size ensures after[q] == before[q] {
        assert after[q] == laid[q];
      }
    }
    RunLaid(code, start, next, ts, n, before, after);
  }

  /** After the counting loop: the run from `start` to `next` is token `n`, laid down
      as its opcode and its 16-bit count. */
  lemma RunLaid(code: string, start: nat, next: nat, ts: seq<Token>, n: nat, before: seq<u16>, after: seq<u16>)
    requires start < next <= |code| && IsRunSymbol(code[start])
    requires forall q :: start <= q < next ==> code[q] == code[start]
    requires next == |code| || code[next] != code[start]
    requires n < |ts| && ts[n..] == Tokens(code[start..])
    requires before == Layout(ts, n) && |after| == |before| + 2 && after[..|before|] == before
    requires after[|before|] == Opcode(code[start]) && after[|before| + 1] as int == (next - start) % SlotModulus
    ensures ts[n + 1..] == Tokens(code[next..])
    ensures after == Layout(ts, n + 1)
  {
    var ch := code[start];
    TokensAt(code, start);
    RunLengthExact(code[start..], ch, next - start);
    assert ts[n..] == [Token(Opcode(ch), next - start)] + Tokens(code[next..]);
    assert ts[n + 1..] == ts[n..][1..];
    LayoutAppend(ts, n);
    LaidSlots(before, after, Opcode(ch), Operand(ts[n]));
  }

  /** One more copy of the symbol adds one to the 16-bit count. */
  lemma CountStep(count: int)
    ensures (count % SlotModulus + 1) % SlotModulus == (count + 1) % SlotModulus
  {
  }

  /** Laying down any instruction but `]` appends its two slots and changes nothing else. */
  lemma LayoutAppend(ts: seq<Token>, n: nat)
    requires n < |ts| && ts[n].op != CLOSE
    ensures Layout(ts, n + 1) == Layout(ts, n) + [ts[n].op, Operand(ts[n])]
  {
  }

  /** A `]`: its opcode goes into slot `size`, the scan walks back over the opcode
      slots counting depth, and both operands receive the slot distance. */
  method LayClose(program: array<u16>, size: nat, ghost ts: seq<Token>, ghost n: nat)
    requires n < |ts| && ts[n].op == CLOSE
    requires size == 2 * n && size + 2 <= program.Length
    requires program[..size] == Layout(ts, n) && ZeroFrom(program, size)
    modifies program
    ensures program[..size + 2] == Layout(ts, n + 1)
    ensures ZeroFrom(program, size + 2)
  {
    ghost var before := program[..size];
    program[size] := CLOSE;
    ghost var laid := program[..size + 2];
    LaidSlots(before, laid, CLOSE, 0);
    var i := ScanSlots(program, size, ts, n);
    ghost var k := Target(Ops(ts), n).0;
    LayoutClose(ts, n);
    var distance := ((size - i) % SlotModulus) as u16;
    assert distance == Distance(k, n);
    program[i + 1] := distance;
    program[size + 1] := distance;
    ghost var after := program[..size + 2];
    assert forall q :: 0 <= q < size + 2 && q != i + 1 && q != size + 1 ==> after[q] == laid[q];
    PatchedSlots(laid, after, k, n);
  }

  /** The scan loop of a `]` at slot `size`: from depth 1 it steps back two slots at a
      time, a `[` lowering the depth and a `]` raising it, until the depth is zero or
      slot 0 is reached. It stops at the slot of the scan's target. */
  method ScanSlots(program: array<u16>, size: nat, ghost ts: seq<Token>, ghost n: nat) returns (i: nat)
    requires n < |ts| && size == 2 * n && size < program.Length
    requires program[..size] == Layout(ts, n)
    ensures i == 2 * Target(Ops(ts), n).0
  {
    ghost var ops := Ops(ts);
    LayoutOpcodes(ts, n);
    assert forall j :: 0 <= j < n ==> program[2 * j] == ops[j] by {
      forall j | 0 <= j < n ensures program[2 * j] == ops[j] {
        assert program[2 * j] == program[..size][2 * j];
      }
    }
    var depth := 1;
    i := size;
    ghost var k := n;
    while i > 0 && depth > 0
      invariant i == 2 * k && k <= n
      invariant ScanBack(ops, k, depth) == Target(ops, n)
      decreases i
    {
      i, k := i - 2, k - 1;
      if program[i] == OPEN {
        depth := depth - 1;
      }
      if program[i] == CLOSE {
        depth := depth + 1;
      }
    }
  }

  /** Laying down a `]` is appending it and then patching. */
  lemma LayoutClose(ts: seq<Token>, n: nat)
    requires n < |ts| && ts[n].op == CLOSE
    ensures Layout(ts, n + 1) == Patch(Layout(ts, n) + [CLOSE, 0], Target(Ops(ts), n).0, n)
  {
  }

  /** The slots after the two operand writes of a `]`. */
  lemma PatchedSlots(laid: seq<u16>, after: seq<u16>, k: nat, m: nat)
    requires k <= m && 2 * m + 1 < |laid| == |after|
    requires after[2 * k + 1] == Distance(k, m) && after[2 * m + 1] == Distance(k, m)
    requires forall i :: 0 <= i < |laid| && i != 2 * k + 1 && i != 2 * m + 1 ==> after[i] == laid[i]
    ensures after == Patch(laid, k, m)
  {
  }

  /** `.`, `,` or `[`: the opcode goes into slot `size`; the operand slot keeps its zero. */
  method LaySingle(program: array<u16>, size: nat, ch: char, ghost ts: seq<Token>, ghost n: nat)
    requires ch == '.' || ch == ',' || ch == '['
    requires n < |ts| && ts[n] == Token(Opcode(ch), 1)
    requires size == 2 * n && size + 2 <= program.Length
    requires program[..size] == Layout(ts, n) && ZeroFrom(program, size)
    modifies program
    ensures program[..size + 2] == Layout(ts, n + 1)
    ensures ZeroFrom(program, size + 2)
  {
    ghost var before := program[..size];
    program[size] := Opcode(ch);
    LayoutAppend(ts, n);
    LaidSlots(before, program[..size + 2], Opcode(ch), 0);
  }

  /** What the compile loop finds at `code[ptr]` when `ts[n..]` are the tokens still
      to come: nothing for a character that is no symbol, token `n` otherwise. */
  lemma NextToken(code: string, ptr: nat, ts: seq<Token>, n: nat)
    requires ptr < |code| && n <= |ts| && Tokens(code[ptr..]) == ts[n..]
    ensures !IsSymbol(code[ptr]) ==> Tokens(code[ptr + 1..]) == ts[n..]
    ensures IsSymbol(code[ptr]) ==> n < |ts| && ts[n].op == Opcode(code[ptr])
    ensures IsSymbol(code[ptr]) && !IsRunSymbol(code[ptr]) ==>
      ts[n] == Token(Opcode(code[ptr]), 1) && ts[n + 1..] == Tokens(code[ptr + 1..])
  {
    TokensAt(code, ptr);
    if IsSymbol(code[ptr]) {
      assert ts[n..][0] == ts[n];
      assert ts[n + 1..] == ts[n..][1..];
    }
  }

  /** One case of the switch of the compile loop, for a symbol at `code[ptr]`: token
      `n` is laid down in slots `size` and `size + 1`, and `next` is where the loop
      reads on. */
  method LayToken(code: string, ptr: nat, program: array<u16>, size: nat, ghost ts: seq<Token>, ghost n: nat)
    returns (next: nat)
    requires ptr < |code| && IsSymbol(code[ptr])
    requires n <= |ts| && Tokens(code[ptr..]) == ts[n..]
    requires size == 2 * n && 2 * |ts| <= program.Length
    requires program[..size] == Layout(ts, n) && ZeroFrom(program, size)
    modifies program
    ensures ptr < next <= |code| && n < |ts| && Tokens(code[next..]) == ts[n + 1..]
    ensures program[..size + 2] == Layout(ts, n + 1) && ZeroFrom(program, size + 2)
  {
    var ch := code[ptr];
    NextToken(code, ptr, ts, n);
    if ch == '.' || ch == ',' || ch == '[' {
      LaySingle(program, size, ch, ts, n);
      next := ptr + 1;
    } else if ch == '>' || ch == '<' || ch == '+' || ch == '-' {
      next := LayRun(code, ptr, program, size, ts, n);
    } else {
      LayClose(program, size, ts, n);
      next := ptr + 1;
    }
  }

  /** The compile loop, in place on the zero-filled `program` array: `ptr` walks the
      text, `size` is the number of slots written so far; characters that are no
      symbol are skipped. */
  method Compile(code: string, program: array<u16>) returns (size: nat)
    requires 2 * |Tokens(code)| <= program.Length
    requires forall i :: 0 <= i < program.Length ==> program[i] == 0
    modifies program
    ensures size == 2 * |Tokens(code)|
    ensures program[..size] == Compiled(code)
    ensures forall i :: size <= i < program.Length ==> program[i] == 0
  {
    ghost var ts := Tokens(code);
    ghost var n := 0;
    size := 0;
    var ptr := 0;
    while ptr < |code|
      invariant ptr <= |code| && n <= |ts| && size == 2 * n
      invariant Tokens(code[ptr..]) == ts[n..]
      invariant program[..size] == Layout(ts, n)
      invariant ZeroFrom(program, size)
      decreases |code| - ptr
    {
      if IsSymbol(code[ptr]) {
        ptr := LayToken(code, ptr, program, size, ts, n);
        size := size + 2;
        n := n + 1;
      } else {
        NextToken(code, ptr, ts, n);
        ptr := ptr + 1;
      }
    }
    assert Tokens(code[ptr..]) == [];
  }
}
