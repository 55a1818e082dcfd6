/** Types and constants shared by the front end and the virtual machine. */
module Base {

  datatype Option<T> = None | Some(value: T)

  /** An unsigned 8-bit value: one tape cell (`uint8_t`). */
  newtype u8 = x: int | 0 <= x < 0x100

  /** An unsigned 16-bit value: one program slot (`uint16_t`). */
  newtype u16 = x: int | 0 <= x < 0x1_0000

  /** Number of distinct values of a program slot: stores into a slot wrap at this value. */
  const SlotModulus: int := 0x1_0000

  /** Number of slots of the static `program` array. */
  const ProgramCapacity: nat := 16777216

  /** The eight symbols of the tape-machine alphabet. */
  predicate IsSymbol(c: char) {
    c == '>' || c == '<' || c == '+' || c == '-' || c == '[' || c == ']' || c == '.' || c == ','
  }

  /** The symbols whose runs are coalesced into one instruction with a count. */
  predicate IsRunSymbol(c: char) {
    c == '>' || c == '<' || c == '+' || c == '-'
  }

  /** A symbol is stored in an opcode slot as its character code. */
  function Opcode(c: char): u16
    requires IsSymbol(c)
  {
    (c as int) as u16
  }

  const RIGHT: u16 := Opcode('>')
  const LEFT: u16 := Opcode('<')
  const PLUS: u16 := Opcode('+')
  const MINUS: u16 := Opcode('-')
  const OPEN: u16 := Opcode('[')
  const CLOSE: u16 := Opcode(']')
  const DOT: u16 := Opcode('.')
  const COMMA: u16 := Opcode(',')

  /** The opcodes whose operand is a repeat count. */
  predicate IsRunOp(op: u16) {
    op == RIGHT || op == LEFT || op == PLUS || op == MINUS
  }

  /** The opcodes of the eight symbols. */
  predicate IsInstruction(op: u16) {
    IsRunOp(op) || op == OPEN || op == CLOSE || op == DOT || op == COMMA
  }
}
