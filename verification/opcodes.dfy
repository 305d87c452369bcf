/** The virtual machine's opcodes and the mnemonic table the bytecode dump
    prints them with. An opcode is a number; the table `opcodes[]` of
    `debug.c` is indexed by that number, so an opcode's mnemonic is the row
    at its position. */
module Opcodes {
  import opened Outcomes

  newtype Opcode = n: int | 0 <= n < 33

  const Nop: Opcode := 0
  const CpyD: Opcode := 1
  const CpyP: Opcode := 2
  const Push: Opcode := 3
  const PushC: Opcode := 4
  const Add: Opcode := 5
  const Sub: Opcode := 6
  const Mul: Opcode := 7
  const Div: Opcode := 8
  const Mod: Opcode := 9
  const And: Opcode := 10
  const Or: Opcode := 11
  const Add2: Opcode := 12
  const Sub2: Opcode := 13
  const Mul2: Opcode := 14
  const Div2: Opcode := 15
  const Mod2: Opcode := 16
  const Eq: Opcode := 17
  const NEq: Opcode := 18
  const LtCmp: Opcode := 19
  const LtEqCmp: Opcode := 20
  const RiCmp: Opcode := 21
  const RiEqCmp: Opcode := 22
  const Loop: Opcode := 23
  const Jmp: Opcode := 24
  const Jz: Opcode := 25
  const Jnz: Opcode := 26
  const Print: Opcode := 27
  const DefS: Opcode := 28
  const Beep: Opcode := 29
  const Play: Opcode := 30
  const Filter: Opcode := 31
  const Exit: Opcode := 32

  /** The names of `opcodes[]`, row by row. */
  const Names: seq<string> := [
    "Nop", "CpyD", "CpyP", "Push", "PushC", "Add", "Sub", "Mul", "Div", "Mod",
    "And", "Or", "Add2", "Sub2", "Mul2", "Div2", "Mod2", "Eq", "NEq", "LtCmp",
    "LtEqCmp", "RiCmp", "RiEqCmp", "Loop", "Jmp", "Jz", "Jnz", "Print", "DefS",
    "Beep", "Play", "Filter", "Exit"
  ]

  /** The opcode a word of the stream names, if it indexes a row of the
      table. */
  function Decode(w: int): (r: Option<Opcode>)
    ensures r.Some? <==> 0 <= w < |Names|
    ensures r.Some? ==> r.value as int == w
  {
    if 0 <= w < 33 then Some(w as Opcode) else None
  }

  /** The name `print_opcodes` prints for an opcode: its row of the table. */
  function Name(op: Opcode): (s: string)
    ensures s == Names[op]
  {
    Names[op]
  }

  /** The opcodes whose first operand is a raw jump target. */
  predicate IsJump(op: Opcode) {
    op == Loop || op == Jmp || op == Jz || op == Jnz
  }

  /** The table lists `Loop`, `Jmp`, `Jz`, `Jnz` side by side, so the range
      test on numbers the dump uses picks out exactly the jump family, and
      the rows in that range carry those names. */
  lemma JumpFamilyContiguous(op: Opcode)
    ensures IsJump(op) <==> Loop <= op <= Jnz
    ensures Names[Loop..Jnz + 1] == ["Loop", "Jmp", "Jz", "Jnz"]
  {
  }
}
