/** The bytecode dump of `src/debug/debug.c`. The instruction stream is a
    flat array of words read five at a time: an opcode word and four operand
    words. An operand word is either a raw jump target (slot 1 of `Loop`,
    `Jmp`, `Jz`, `Jnz`) or a reference to a variable, with 0 meaning "no
    operand". Decoding is kept apart from rendering: `Dump` turns the words
    into records, and `RenderDump` turns the records into the printed text. */
module Debug {
  import opened Outcomes
  import opened Opcodes
  import Token

  /** A word of the instruction array, read as an unsigned number. Each
      instruction takes five words: the opcode and four operand slots. */
  type Word = nat

  datatype Operand =
    | Raw(target: Word)   // a jump target, printed as a number
    | VarOf(ref: Word)    // a non-zero variable reference, printed by name

  /** One decoded instruction: its word offset (the printed `ic_num`), its
      opcode and the operands the dump shows. */
  datatype Instr = Instr(index: nat, op: Opcode, operands: seq<Operand>)

  // ---------------------------------------------------------------------
  // Decoding.

  /** How slot `s` of an instruction with opcode `op` is shown when it is. */
  function Shown(op: Opcode, s: nat, w: Word): Operand {
    if IsJump(op) && s == 1 then Raw(w) else VarOf(w)
  }

  /** The operands of the instruction at word `b`, from slot `i` on. Slot 1
      of a jump is always shown; any other slot ends the scan when it holds
      0. `None` when the scan would read past the end of the array. */
  function OperandsFrom(words: seq<Word>, b: nat, op: Opcode, i: nat): (r: Option<seq<Operand>>)
    requires 1 <= i <= 5
    decreases 5 - i
    ensures r.Some? ==> i + |r.value| <= 5
    ensures b + 5 <= |words| ==> r.Some?
    ensures r.None? ==> |words| < b + 5
  {
    if i == 5 then Some([])
    else if b + i >= |words| then None
    else if IsJump(op) && i == 1 then
      match OperandsFrom(words, b, op, i + 1)
      case None => None
      case Some(rest) => Some([Raw(words[b + i])] + rest)
    else if words[b + i] == 0 then Some([])
    else
      match OperandsFrom(words, b, op, i + 1)
      case None => None
      case Some(rest) => Some([VarOf(words[b + i])] + rest)
  }

  /** The scan shows slot after slot, each as `Shown` says, and a variable
      slot only when it is non-zero. */
  lemma {:induction false} OperandsFromShows(words: seq<Word>, b: nat, op: Opcode, i: nat)
    requires 1 <= i <= 5
    requires OperandsFrom(words, b, op, i).Some?
    decreases 5 - i
    ensures var ops := OperandsFrom(words, b, op, i).value;
      forall j :: 0 <= j < |ops| ==>
        && b + i + j < |words|
        && ops[j] == Shown(op, i + j, words[b + i + j])
        && (ops[j].VarOf? ==> words[b + i + j] != 0)
  {
    if i < 5 && b + i < |words| && (words[b + i] != 0 || (IsJump(op) && i == 1)) {
      OperandsFromShows(words, b, op, i + 1);
      var rest := OperandsFrom(words, b, op, i + 1).value;
      var ops := OperandsFrom(words, b, op, i).value;
      assert ops == [Shown(op, i, words[b + i])] + rest;
      forall j | 0 <= j < |ops|
        ensures b + i + j < |words| && ops[j] == Shown(op, i + j, words[b + i + j])
        ensures ops[j].VarOf? ==> words[b + i + j] != 0
      {
        if j > 0 {
          assert ops[j] == rest[j - 1];
          assert b + (i + 1) + (j - 1) == b + i + j;
        }
      }
    }
  }

  /** The scan stops before slot 4 only at a zero slot that is not a jump
      target. */
  lemma {:induction false} OperandsFromStops(words: seq<Word>, b: nat, op: Opcode, i: nat)
    requires 1 <= i <= 5
    requires OperandsFrom(words, b, op, i).Some?
    decreases 5 - i
    ensures var n := |OperandsFrom(words, b, op, i).value|;
      i + n < 5 ==> b + i + n < |words| && words[b + i + n] == 0 && !(IsJump(op) && i + n == 1)
  {
    if i < 5 && b + i < |words| && (words[b + i] != 0 || (IsJump(op) && i == 1)) {
      OperandsFromStops(words, b, op, i + 1);
      assert |OperandsFrom(words, b, op, i).value| == 1 + |OperandsFrom(words, b, op, i + 1).value|;
    }
  }

  /** The instruction at word `b`, if its opcode word names an opcode and
      its operand scan stays inside the array. */
  function InstrAt(words: seq<Word>, b: nat): (r: Option<Instr>)
    ensures r.Some? ==> b < |words| && Opcodes.Decode(words[b]) == Some(r.value.op)
    ensures r.Some? ==> r.value.index == b && |r.value.operands| <= 4
    ensures b + 5 <= |words| && Opcodes.Decode(words[b]).Some? ==> r.Some?
  {
    if b >= |words| then None
    else
      match Opcodes.Decode(words[b])
      case None => None
      case Some(op) =>
        match OperandsFrom(words, b, op, 1)
        case None => None
        case Some(ops) => Some(Instr(b, op, ops))
  }

  /** The instructions from number `k` on, up to and including the first
      `Exit`. `None` when the stream runs out, or holds a word that is no
      opcode, before an `Exit` is reached. */
  function DecodeFrom(words: seq<Word>, k: nat): (r: Option<seq<Instr>>)
    decreases |words| - 5 * k
    ensures r.Some? ==> |r.value| > 0 && r.value[|r.value| - 1].op == Exit
    ensures r.Some? ==> InstrAt(words, 5 * k).Some? && r.value[0] == InstrAt(words, 5 * k).value
  {
    match InstrAt(words, 5 * k)
    case None => None
    case Some(ins) =>
      if ins.op == Exit then Some([ins])
      else
        match DecodeFrom(words, k + 1)
        case None => None
        case Some(rest) => Some([ins] + rest)
  }

  /** Instruction `j` of the decoded run is the one at word `5 * (k + j)`. */
  lemma {:induction false} DecodeFromPosition(words: seq<Word>, k: nat, r: seq<Instr>, j: nat)
    requires DecodeFrom(words, k) == Some(r) && j < |r|
    decreases j
    ensures InstrAt(words, 5 * (k + j)) == Some(r[j])
  {
    if j == 0 {
      assert 5 * (k + j) == 5 * k;
    } else {
      DecodeFromTail(words, k, r);
      DecodeFromPosition(words, k + 1, r[1..], j - 1);
      assert k + 1 + (j - 1) == k + j;
    }
  }

  /** Past its first instruction, a decoded run is the run decoded from
      the next instruction on. */
  lemma DecodeFromTail(words: seq<Word>, k: nat, r: seq<Instr>)
    requires DecodeFrom(words, k) == Some(r) && |r| > 1
    ensures DecodeFrom(words, k + 1) == Some(r[1..])
  {
    var rest := DecodeFrom(words, k + 1).value;
    assert r == [r[0]] + rest;
  }

  /** Only the last instruction of the decoded run is an `Exit`. */
  lemma {:induction false} DecodeFromFirstExit(words: seq<Word>, k: nat)
    requires DecodeFrom(words, k).Some?
    decreases |words| - 5 * k
    ensures var r := DecodeFrom(words, k).value;
      forall j :: 0 <= j < |r| - 1 ==> r[j].op != Exit
  {
    var r := DecodeFrom(words, k).value;
    var ins := InstrAt(words, 5 * k).value;
    if ins.op != Exit {
      DecodeFromFirstExit(words, k + 1);
      var rest := DecodeFrom(words, k + 1).value;
      assert r == [ins] + rest;
      forall j | 0 <= j < |r| - 1 ensures r[j].op != Exit {
        if j > 0 {
          assert r[j] == rest[j - 1];
        }
      }
    }
  }

  /** Decoding ends only at an `Exit` sitting at a multiple of five: with
      no such word the dump never finishes, which the model reports as
      `None`. */
  lemma {:induction false} DecodeFromNeedsExit(words: seq<Word>, k: nat)
    requires forall j :: k <= j && 5 * j < |words| ==> words[5 * j] != Exit as int
    decreases |words| - 5 * k
    ensures DecodeFrom(words, k).None?
  {
    match InstrAt(words, 5 * k)
    case None =>
    case Some(ins) =>
      DecodeFromNeedsExit(words, k + 1);
  }

  /** `print_opcodes`: the whole stream, from its first word. */
  function Dump(words: seq<Word>): (r: Option<seq<Instr>>)
    ensures r.Some? ==> |r.value| > 0 && r.value[|r.value| - 1].op == Exit
  {
    DecodeFrom(words, 0)
  }

  /** The printed offsets advance by five per instruction, each record is
      the instruction at that offset, and the first `Exit` ends the dump. */
  lemma DumpShape(words: seq<Word>)
    requires Dump(words).Some?
    ensures var r := Dump(words).value;
      forall j :: 0 <= j < |r| ==> InstrAt(words, 5 * j) == Some(r[j]) && r[j].index == 5 * j
    ensures var r := Dump(words).value;
      forall j :: 0 <= j < |r| - 1 ==> r[j].op != Exit
  {
    var r := Dump(words).value;
    forall j | 0 <= j < |r| ensures InstrAt(words, 5 * j) == Some(r[j]) {
      DecodeFromPosition(words, 0, r, j);
    }
    DecodeFromFirstExit(words, 0);
  }

  /** The loop of `print_opcodes`, advancing five words per instruction. */
  method DumpLoop(words: seq<Word>) returns (r: Option<seq<Instr>>)
    ensures r == Dump(words)
  {
    var acc: seq<Instr> := [];
    var k: nat := 0;
    PrependEmpty(DecodeFrom(words, 0));
    while true
      invariant Dump(words) == Prepend(acc, DecodeFrom(words, k))
      decreases |words| - 5 * k
    {
      var ins := InstrAt(words, 5 * k);
      if ins.None? {
        return None;
      }
      if ins.value.op == Exit {
        return Some(acc + [ins.value]);
      }
      PrependStep(acc, ins.value, DecodeFrom(words, k + 1));
      acc := acc + [ins.value];
      k := k + 1;
    }
  }

  function Prepend(acc: seq<Instr>, rest: Option<seq<Instr>>): Option<seq<Instr>> {
    match rest
    case None => None
    case Some(s) => Some(acc + s)
  }

  lemma PrependEmpty(rest: Option<seq<Instr>>)
    ensures Prepend([], rest) == rest
  {
    if rest.Some? {
      assert [] + rest.value == rest.value;
    }
  }

  lemma PrependStep(acc: seq<Instr>, ins: Instr, rest: Option<seq<Instr>>)
    ensures Prepend(acc, if rest.Some? then Some([ins] + rest.value) else None) == Prepend(acc + [ins], rest)
  {
    if rest.Some? {
      assert acc + ([ins] + rest.value) == acc + [ins] + rest.value;
    }
  }

  /** Two small streams: a lone `Exit`, and a `Nop` followed by an `Exit`
      whose last operand slots lie past the end of the array but are never
      read, because slot 1 already holds 0. */
  lemma DumpOfExitOnly()
    ensures Dump([32, 0, 0, 0, 0]) == Some([Instr(0, Exit, [])])
    ensures Dump([0, 0, 0, 0, 0, 32, 0]) == Some([Instr(0, Nop, []), Instr(5, Exit, [])])
  {
    assert OperandsFrom([32, 0, 0, 0, 0], 0, Exit, 1) == Some([]);
    assert InstrAt([32, 0, 0, 0, 0], 0) == Some(Instr(0, Exit, []));
    var w := [0, 0, 0, 0, 0, 32, 0];
    assert OperandsFrom(w, 0, Nop, 1) == Some([]);
    assert InstrAt(w, 0) == Some(Instr(0, Nop, []));
    assert OperandsFrom(w, 5, Exit, 1) == Some([]);
    assert InstrAt(w, 5) == Some(Instr(5, Exit, []));
    assert DecodeFrom(w, 1) == Some([Instr(5, Exit, [])]);
    assert [Instr(0, Nop, [])] + [Instr(5, Exit, [])] == [Instr(0, Nop, []), Instr(5, Exit, [])];
  }

  /** A jump's target is shown even when it is 0, and the scan of the
      remaining slots still stops at the first 0. */
  lemma JumpTargetAlwaysShown()
    ensures InstrAt([24, 0, 7, 0, 9], 0) == Some(Instr(0, Jmp, [Raw(0), VarOf(7)]))
    ensures InstrAt([3, 0, 7, 0, 9], 0) == Some(Instr(0, Push, []))
  {
    var w: seq<Word> := [24, 0, 7, 0, 9];
    assert OperandsFrom(w, 0, Jmp, 3) == Some([]);
    assert [VarOf(7)] + [] == [VarOf(7)];
    assert OperandsFrom(w, 0, Jmp, 2) == Some([VarOf(7)]);
    assert [Raw(0)] + [VarOf(7)] == [Raw(0), VarOf(7)];
    assert OperandsFrom(w, 0, Jmp, 1) == Some([Raw(0), VarOf(7)]);
    var v: seq<Word> := [3, 0, 7, 0, 9];
    assert OperandsFrom(v, 0, Push, 1) == Some([]);
  }

  // ---------------------------------------------------------------------
  // Rendering.

  function Spaces(n: nat): (r: string)
    ensures |r| == n && forall i :: 0 <= i < n ==> r[i] == ' '
  {
    if n == 0 then "" else Spaces(n - 1) + " "
  }

  /** `print_var_name`: the name right-aligned in a field of `width`
      characters. The name is never cut; when it is wider than the field no
      padding is added. */
  function Pad(name: string, width: int): (r: string)
    ensures |r| == if width > |name| then width else |name|
    ensures r[|r| - |name|..] == name
    ensures forall i :: 0 <= i < |r| - |name| ==> r[i] == ' '
  {
    Spaces(if width > |name| then width - |name| else 0) + name
  }

  function Digit(d: nat): char
    requires d < 10
  {
    "0123456789"[d]
  }

  /** The decimal text of a number, as `printf` prints an unsigned value. */
  function NatText(n: nat): (r: string)
    ensures 0 < |r| && forall i :: 0 <= i < |r| ==> '0' <= r[i] <= '9'
  {
    if n < 10 then [Digit(n)] else NatText(n / 10) + [Digit(n % 10)]
  }

  /** The number a string of decimal digits denotes. */
  function DigitsValue(s: string): nat
    requires forall i :: 0 <= i < |s| ==> '0' <= s[i] <= '9'
  {
    if |s| == 0 then 0 else 10 * DigitsValue(s[..|s| - 1]) + (s[|s| - 1] - '0') as nat
  }

  /** The printed number reads back as the number printed. */
  lemma {:induction false} NatTextValue(n: nat)
    ensures DigitsValue(NatText(n)) == n
  {
    if n >= 10 {
      var s := NatText(n);
      NatTextValue(n / 10);
      assert s[..|s| - 1] == NatText(n / 10);
    }
  }

  /** The operand references of a decoded stream all name a token whose
      text is known. */
  predicate Resolvable(instrs: seq<Instr>, tcOf: Word -> nat, names: seq<string>) {
    forall k, j :: 0 <= k < |instrs| && 0 <= j < |instrs[k].operands| && instrs[k].operands[j].VarOf? ==>
      tcOf(instrs[k].operands[j].ref) < |names|
  }

  /** The text an operand column shows: a jump target's number, or the
      name of the variable's token. */
  function OperandText(o: Operand, tcOf: Word -> nat, names: seq<string>): string
    requires o.VarOf? ==> tcOf(o.ref) < |names|
  {
    match o
    case Raw(n) => NatText(n)
    case VarOf(w) => names[tcOf(w)]
  }

  /** One operand column: the operand's text right-aligned in a 14-wide
      field, then four spaces; 18 characters when the text fits. */
  function RenderOperand(o: Operand, tcOf: Word -> nat, names: seq<string>): (r: string)
    requires o.VarOf? ==> tcOf(o.ref) < |names|
    ensures |r| >= 18 && r[|r| - 4..] == "    "
    ensures |OperandText(o, tcOf, names)| <= 14 ==> |r| == 18
    ensures |r| - 4 - |OperandText(o, tcOf, names)| >= 0
    ensures r[|r| - 4 - |OperandText(o, tcOf, names)|..|r| - 4] == OperandText(o, tcOf, names)
  {
    var field := Pad(OperandText(o, tcOf, names), 14);
    assert (field + "    ")[..|field|] == field;
    field + "    "
  }

  function RenderOperands(ops: seq<Operand>, tcOf: Word -> nat, names: seq<string>): (r: string)
    requires forall j :: 0 <= j < |ops| && ops[j].VarOf? ==> tcOf(ops[j].ref) < |names|
    ensures |r| >= 18 * |ops|
    ensures (forall j :: 0 <= j < |ops| ==> |OperandText(ops[j], tcOf, names)| <= 14) ==> |r| == 18 * |ops|
  {
    if |ops| == 0 then ""
    else RenderOperand(ops[0], tcOf, names) + RenderOperands(ops[1..], tcOf, names)
  }

  /** The layout of one line of `print_opcodes`: the number right-aligned
      in a 5-wide field, `" : "`, the mnemonic right-aligned in a 9-wide
      field, four spaces, the operand columns and a newline. */
  function Line(num: string, mnemonic: string, ops: string): (r: string)
    ensures var p1 := |Pad(num, 5)|;
      var p2 := p1 + 3;
      var p3 := p2 + |Pad(mnemonic, 9)|;
      var p4 := p3 + 4;
      && |r| == p4 + |ops| + 1 && r[|r| - 1] == '\n'
      && r[..p1] == Pad(num, 5)
      && r[p1..p2] == " : "
      && r[p2..p3] == Pad(mnemonic, 9)
      && r[p3..p4] == "    "
      && r[p4..|r| - 1] == ops
  {
    var off := Pad(num, 5);
    var mn := Pad(mnemonic, 9);
    var r := off + " : " + mn + "    " + ops + "\n";
    FieldsAt(r, off, " : ", mn, "    ", ops + "\n");
    var p4 := |off| + 3 + |mn| + 4;
    assert r[p4..|r| - 1] == (ops + "\n")[..|ops|] == ops;
    r
  }

  /** The fields of a concatenation sit one after another. */
  lemma FieldsAt(r: string, a: string, b: string, c: string, d: string, e: string)
    requires r == a + b + c + d + e
    ensures |r| == |a| + |b| + |c| + |d| + |e|
    ensures r[..|a|] == a
    ensures r[|a|..|a| + |b|] == b
    ensures r[|a| + |b|..|a| + |b| + |c|] == c
    ensures r[|a| + |b| + |c|..|a| + |b| + |c| + |d|] == d
    ensures r[|a| + |b| + |c| + |d|..] == e
  {
  }

  /** One line of `print_opcodes` for a decoded instruction: its word
      offset and mnemonic, then one 18-character column per operand when
      the operand texts fit their fields. */
  function RenderInstr(ins: Instr, tcOf: Word -> nat, names: seq<string>): (r: string)
    requires forall j :: 0 <= j < |ins.operands| && ins.operands[j].VarOf? ==> tcOf(ins.operands[j].ref) < |names|
    ensures |r| >= 5 + 3 + 9 + 4 + 18 * |ins.operands| + 1
    ensures r == Line(NatText(ins.index), Name(ins.op), RenderOperands(ins.operands, tcOf, names))
    ensures (forall j :: 0 <= j < |ins.operands| ==> |OperandText(ins.operands[j], tcOf, names)| <= 14) ==>
      |r| == |Pad(NatText(ins.index), 5)| + 3 + |Pad(Name(ins.op), 9)| + 4 + 18 * |ins.operands| + 1
  {
    Line(NatText(ins.index), Name(ins.op), RenderOperands(ins.operands, tcOf, names))
  }

  function RenderLines(instrs: seq<Instr>, tcOf: Word -> nat, names: seq<string>): string
    requires Resolvable(instrs, tcOf, names)
  {
    if |instrs| == 0 then ""
    else RenderInstr(instrs[0], tcOf, names) + RenderLines(instrs[1..], tcOf, names)
  }

  /** The text `print_opcodes` writes for a stream that decodes. */
  function RenderDump(instrs: seq<Instr>, tcOf: Word -> nat, names: seq<string>): string
    requires Resolvable(instrs, tcOf, names)
  {
    "\nExecute code\n" + RenderLines(instrs, tcOf, names) + "\n"
  }

  /** `print_token_name`: the newline token is shown as the two characters
      `\` `n`; any other token by its text, unpadded. */
  function TokenLine(tc: nat, idx: nat, names: seq<string>): (r: string)
    requires tc < |names|
    ensures tc == Token.TcLF ==> r == "tc[" + NatText(idx) + "] : " + "\\n" + "\n"
    ensures tc != Token.TcLF ==> r == "tc[" + NatText(idx) + "] : " + names[tc] + "\n"
  {
    "tc[" + NatText(idx) + "] : " + (if tc == Token.TcLF then "\\n" else Pad(names[tc], 0)) + "\n"
  }
}
