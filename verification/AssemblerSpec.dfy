// What the passes of compile_file in Snake/docs/compiler/compiler.py compute, on lines that
// parse_line has taken apart.  Assembler.dfy proves that the loops compute it.
module AssemblerSpec {
  import opened Bits
  import opened Prelude

  /** A line: the label before ':', if any, and the rest. */
  datatype Line = Line(name: Option<string>, code: Code)

  datatype Code = Blank | Directive(value: Option<int>) | Instruction(mnemonic: Mnemonic, operands: seq<string>)

  /** The instruction set; any other word is Unknown. */
  datatype Mnemonic =
    | LDI | LD | STORE | ADD | SUB | OR | LSR | CMP | BRA | BEQ | AND | BPL | KEY0 | PLAY | UART | KEY1 | Unknown

  /** _parse_value, _parse_register and the offset that _parse_address takes from an indexed
      operand; None stands for ValueError. */
  datatype Syntax = Syntax(value: string -> Option<int>, register: string -> Option<nat>, offset: string -> Option<int>)

  type Labels = map<string, nat>

  /** memory_instructions, which lacks AND. */
  predicate IsMemory(m: Mnemonic) {
    m.LD? || m.STORE? || m.ADD? || m.SUB? || m.OR? || m.LSR? || m.CMP? || m.PLAY? || m.UART?
  }

  /** branch_instructions */
  predicate IsBranch(m: Mnemonic) { m.BRA? || m.BEQ? || m.BPL? }

  predicate IsImmediate(op: string) { op != [] && op[0] == '#' }

  predicate IsIndexed(op: string) { '[' in op && ']' in op }

  /** The address that an operand stands for, if it is not an immediate or indexed one. */
  function Target(x: Syntax, labels: Labels, op: string): Option<int> {
    if op in labels then Some(labels[op])
    else if IsImmediate(op) || IsIndexed(op) then None
    else x.value(op)
  }

  /** The instruction needs a second word for its address. */
  predicate NeedsAbsolute(x: Syntax, labels: Labels, op: string) {
    Target(x, labels, op).Some? && Target(x, labels, op).value > 255
  }

  // ----- The first pass -----

  function MinSize(code: Code): (n: nat)
    ensures n <= 2
  {
    match code
    case Blank => 0
    case Directive(_) => 1
    case Instruction(m, _) => if IsBranch(m) then 2 else 1
  }

  /** No fewer words will do, whatever the address. */
  lemma MinSizeIsReached(x: Syntax, code: Code) returns (labels: Labels)
    ensures Size(x, labels, code) == MinSize(code)
  {
    labels := map[];
    if code.Instruction? && code.operands != [] {
      labels := map[AddressOperand(code.operands) := 0];
    }
  }

  datatype Pass = Pass(labels: Labels, pos: nat, changed: bool)

  /** The first pass over the first k lines. */
  function FirstPass(lines: seq<Line>, k: nat): Pass
    requires k <= |lines|
  {
    if k == 0 then Pass(map[], 0, false)
    else
      var p, line := FirstPass(lines, k - 1), lines[k - 1];
      Pass(if line.name.Some? then p.labels[line.name.value := p.pos] else p.labels, p.pos + MinSize(line.code), false)
  }

  // ----- The second pass -----

  /** Taking the address operand fails: there is none. */
  predicate Fails(code: Code) { code.Instruction? && IsMemory(code.mnemonic) && code.operands == [] }

  function AddressOperand(operands: seq<string>): string
    requires operands != []
  {
    if |operands| > 1 then operands[1] else operands[0]
  }

  /** The words that the second pass counts for a line. */
  function Size(x: Syntax, labels: Labels, code: Code): (n: nat)
    ensures MinSize(code) <= n <= 2
  {
    match code
    case Blank => 0
    case Directive(_) => 1
    case Instruction(m, operands) =>
      if IsBranch(m) then 2
      else if IsMemory(m) && operands != [] && NeedsAbsolute(x, labels, AddressOperand(operands)) then 2
      else 1
  }

  /** One round of the loop over the lines: a label is moved as soon as its line is reached. */
  function FixUpLine(x: Syntax, p: Pass, line: Line): Pass {
    var moved := line.name.Some? && (line.name.value !in p.labels || p.labels[line.name.value] != p.pos);
    var labels := if moved then p.labels[line.name.value := p.pos] else p.labels;
    Pass(labels, p.pos + Size(x, labels, line.code), p.changed || moved)
  }

  /** One iteration of the second pass, over the first k lines. */
  function FixUp(x: Syntax, lines: seq<Line>, labels: Labels, k: nat): Pass
    requires k <= |lines|
  {
    if k == 0 then Pass(labels, 0, false) else FixUpLine(x, FixUp(x, lines, labels, k - 1), lines[k - 1])
  }

  /** The labels after n iterations. */
  function Iterate(x: Syntax, lines: seq<Line>, n: nat): Labels {
    if n == 0 then FirstPass(lines, |lines|).labels
    else FixUp(x, lines, Iterate(x, lines, n - 1), |lines|).labels
  }

  // ----- The third pass -----

  function Opcode(m: Mnemonic): nat
    requires !m.Unknown?
  {
    match m
    case LDI => 0
    case LD => 1
    case STORE => 2
    case ADD => 3
    case SUB => 4
    case OR => 5
    case LSR => 6
    case CMP => 7
    case BRA => 8
    case BEQ => 9
    case AND => 10
    case BPL => 11
    case KEY0 => 12
    case PLAY => 13
    case UART => 14
    case KEY1 => 15
  }

  /** The mnemonics of instruction_set in the order of their opcodes. */
  const INSTRUCTION_SET := [LDI, LD, STORE, ADD, SUB, OR, LSR, CMP, BRA, BEQ, AND, BPL, KEY0, PLAY, UART, KEY1]

  /** So an opcode tells which instruction it is. */
  lemma OpcodeIsIndex(m: Mnemonic, k: nat)
    requires !m.Unknown?
    ensures Opcode(m) < |INSTRUCTION_SET| == 16
    ensures k < |INSTRUCTION_SET| ==> (INSTRUCTION_SET[k] == m <==> k == Opcode(m))
  {
  }

  /** An instruction word, with its fields or-ed together. */
  function Word(opcode: nat, reg: nat, mode: nat, value: int): int {
    BitOr(BitOr(BitOr(opcode * 4096, reg * 1024), mode * 256), value % 256)
  }

  function Mode(op: string): nat { if IsImmediate(op) then 1 else if IsIndexed(op) then 3 else 0 }

  function Or<T>(x: Option<T>, y: T): T { if x.Some? then x.value else y }

  /** The words of a memory instruction. */
  function EmitMemory(x: Syntax, labels: Labels, opcode: nat, m: Mnemonic, operands: seq<string>): Option<seq<int>> {
    if operands == [] || (!m.PLAY? && x.register(operands[0]) == None) then None
    else if m.LSR? then Some([Word(opcode, x.register(operands[0]).value, 0, 0)])
    else if !m.PLAY? && |operands| < 2 then None
    else
      var reg := if m.PLAY? then 0 else x.register(operands[0]).value;
      var op := if m.PLAY? then operands[0] else operands[1];
      if NeedsAbsolute(x, labels, op) then Some([Word(opcode, reg, 2, 0), Target(x, labels, op).value % 0x1_0000])
      else Some([Word(opcode, reg, Mode(op), if op in labels then labels[op] else Or(x.value(op), 0))])
  }

  /** encode_instruction for the instructions that are left to it; _parse_address for AND. */
  function EmitOther(x: Syntax, labels: Labels, opcode: nat, m: Mnemonic, operands: seq<string>): Option<int> {
    if operands == [] || x.register(operands[0]) == None then None
    else
      var reg := x.register(operands[0]).value;
      if m.LDI? then
        if |operands| < 2 || x.value(operands[1]) == None then None
        else Some(Word(opcode, reg, 0, x.value(operands[1]).value))
      else if m.AND? then
        var op := Joined(operands[1..]);
        if IsImmediate(op) then
          if x.value(op) == None then None else Some(Word(opcode, reg, 1, x.value(op).value))
        else if IsIndexed(op) then
          if x.offset(op) == None then None else Some(Word(opcode, reg, 3, x.offset(op).value))
        else if NeedsAbsolute(x, labels, op) then None
        else Some(Word(opcode, reg, 0, Or(Target(x, labels, op), 0xFF)))
      else Some(Word(opcode, reg, 0, 0)) // KEY0, KEY1
  }

  /** ' '.join; the operands are stripped already. */
  function Joined(ops: seq<string>): string {
    if ops == [] then "" else if |ops| == 1 then ops[0] else ops[0] + " " + Joined(ops[1..])
  }

  /** The words that the third pass emits for a line; None when it raises an exception. */
  function Emit(x: Syntax, labels: Labels, code: Code): Option<seq<int>> {
    match code
    case Blank => Some([])
    case Directive(value) => if value == None then None else Some([value.value % 0x1_0000])
    case Instruction(m, operands) =>
      if m.Unknown? then None
      else
        var opcode := Opcode(m);
        if IsBranch(m) then
          if operands == [] then None
          else
            var target := if operands[0] in labels then Some(labels[operands[0]]) else x.value(operands[0]);
            if target == None then None else Some([Word(opcode, 0, 1, 0), target.value % 0x1_0000])
        else if IsMemory(m) then EmitMemory(x, labels, opcode, m, operands)
        else
          var word := EmitOther(x, labels, opcode, m, operands);
          if word == None then None else Some([word.value])
  }

  function ThirdPass(x: Syntax, labels: Labels, lines: seq<Line>, k: nat): Option<seq<int>>
    requires k <= |lines|
  {
    if k == 0 then Some([])
    else
      var before, words := ThirdPass(x, labels, lines, k - 1), Emit(x, labels, lines[k - 1].code);
      if before == None || words == None then None else Some(before.value + words.value)
  }

  predicate WordsAt(output: seq<int>, p: nat, words: seq<int>) {
    p + |words| <= |output| && output[p..p + |words|] == words
  }

  lemma PrefixHolds(a: seq<int>, words: seq<int>, output: seq<int>)
    requires a + words <= output
    ensures WordsAt(output, |a|, words)
  {
    assert output[..|a + words|] == a + words;
  }

  /** The words of line i stand in the output behind those of the lines before it; a data line has
      one, with its value. */
  ghost predicate InPlace(x: Syntax, labels: Labels, lines: seq<Line>, output: seq<int>, i: nat)
    requires i < |lines|
  {
    && ThirdPass(x, labels, lines, i).Some? && Emit(x, labels, lines[i].code).Some?
    && WordsAt(output, |ThirdPass(x, labels, lines, i).value|, Emit(x, labels, lines[i].code).value)
    && (lines[i].code.Directive? ==>
          && lines[i].code.value.Some?
          && Emit(x, labels, lines[i].code).value == [lines[i].code.value.value % 0x1_0000])
  }

  lemma AllInPlace(x: Syntax, labels: Labels, lines: seq<Line>, i: nat)
    requires i < |lines| && ThirdPass(x, labels, lines, |lines|).Some?
    ensures InPlace(x, labels, lines, ThirdPass(x, labels, lines, |lines|).value, i)
  {
    hide Emit, ThirdPass, WordsAt;
    ThirdPassPrefix(x, labels, lines, i, |lines|);
    ThirdPassPrefix(x, labels, lines, i + 1, |lines|);
    ThirdPassNext(x, labels, lines, i);
    if lines[i].code.Directive? { DataWord(x, labels, lines[i].code); }
    var before, words := ThirdPass(x, labels, lines, i).value, Emit(x, labels, lines[i].code).value;
    PrefixHolds(before, words, ThirdPass(x, labels, lines, |lines|).value);
  }

  lemma ThirdPassNext(x: Syntax, labels: Labels, lines: seq<Line>, i: nat)
    requires i < |lines| && ThirdPass(x, labels, lines, i + 1).Some?
    ensures ThirdPass(x, labels, lines, i).Some? && Emit(x, labels, lines[i].code).Some?
    ensures ThirdPass(x, labels, lines, i + 1).value
         == ThirdPass(x, labels, lines, i).value + Emit(x, labels, lines[i].code).value
  {
    hide Emit;
  }

  lemma DataWord(x: Syntax, labels: Labels, code: Code)
    requires code.Directive? && Emit(x, labels, code).Some?
    ensures code.value.Some? && Emit(x, labels, code).value == [code.value.value % 0x1_0000]
  {
  }

  /** The data are where their labels say. */
  ghost predicate DataAtLabels(labels: Labels, lines: seq<Line>, output: seq<int>) {
    forall i, l, v | 0 <= i < |lines| && lines[i] == Line(Some(l), Directive(Some(v))) ::
      l in labels && labels[l] < |output| && output[labels[l]] == v % 0x1_0000
  }

  lemma AddressesFindData(x: Syntax, labels: Labels, lines: seq<Line>)
    requires ThirdPass(x, labels, lines, |lines|).Some? && LabelsAreAddresses(x, labels, lines)
    ensures DataAtLabels(labels, lines, ThirdPass(x, labels, lines, |lines|).value)
  {
    hide ThirdPass, Emit;
    forall i, l, v | 0 <= i < |lines| && lines[i] == Line(Some(l), Directive(Some(v)))
      ensures l in labels && labels[l] < |ThirdPass(x, labels, lines, |lines|).value|
      ensures ThirdPass(x, labels, lines, |lines|).value[labels[l]] == v % 0x1_0000
    {
      AllInPlace(x, labels, lines, i);
    }
  }

  // ----- No label moves down -----

  /** No two lines have the same label. */
  ghost predicate DistinctLabels(lines: seq<Line>) {
    forall i, j | 0 <= i < j < |lines| && lines[i].name.Some? && lines[j].name.Some? :: lines[i].name != lines[j].name
  }

  ghost predicate AtMost(a: Labels, b: Labels) {
    a.Keys == b.Keys && forall l | l in a :: a[l] <= b[l]
  }

  ghost predicate HasLabels(lines: seq<Line>, labels: Labels) {
    forall i | 0 <= i < |lines| && lines[i].name.Some? :: lines[i].name.value in labels
  }

  lemma SizeMonotonic(x: Syntax, a: Labels, b: Labels, code: Code)
    requires AtMost(a, b)
    ensures Size(x, a, code) <= Size(x, b, code)
  {
  }

  /** Starting from greater labels, every position and every label comes out at least as great. */
  lemma {:induction false} FixUpMonotonic(x: Syntax, lines: seq<Line>, a: Labels, b: Labels, k: nat)
    requires AtMost(a, b) && HasLabels(lines, a) && k <= |lines|
    ensures AtMost(FixUp(x, lines, a, k).labels, FixUp(x, lines, b, k).labels)
    ensures FixUp(x, lines, a, k).pos <= FixUp(x, lines, b, k).pos
    ensures FixUp(x, lines, a, k).labels.Keys == a.Keys
  {
    if k > 0 {
      FixUpMonotonic(x, lines, a, b, k - 1);
      var p, q, line := FixUp(x, lines, a, k - 1), FixUp(x, lines, b, k - 1), lines[k - 1];
      hide Size, FixUp;
      assert line.name.Some? ==> line.name.value in a;
      SizeMonotonic(x, FixUpLine(x, p, line).labels, FixUpLine(x, q, line).labels, line.code);
    }
  }

  /** The first pass records the position of each label's line. */
  lemma {:induction false} FirstLabels(lines: seq<Line>, i: nat, k: nat)
    requires DistinctLabels(lines) && i < k <= |lines| && lines[i].name.Some?
    ensures lines[i].name.value in FirstPass(lines, k).labels
    ensures FirstPass(lines, k).labels[lines[i].name.value] == FirstPass(lines, i).pos
  {
    if i < k - 1 { FirstLabels(lines, i, k - 1); }
  }

  lemma {:induction false} FirstKeys(lines: seq<Line>, k: nat, l: string) returns (i: nat)
    requires k <= |lines| && l in FirstPass(lines, k).labels
    ensures i < k && lines[i].name == Some(l)
  {
    if lines[k - 1].name == Some(l) {
      i := k - 1;
    } else {
      i := FirstKeys(lines, k - 1, l);
    }
  }

  lemma FirstHasLabels(lines: seq<Line>)
    requires DistinctLabels(lines)
    ensures HasLabels(lines, FirstPass(lines, |lines|).labels)
  {
    forall i | 0 <= i < |lines| && lines[i].name.Some?
      ensures lines[i].name.value in FirstPass(lines, |lines|).labels
    {
      FirstLabels(lines, i, |lines|);
    }
  }

  /** The first fix-up moves no label down. */
  lemma {:induction false} FirstFixUp(x: Syntax, lines: seq<Line>, k: nat)
    requires DistinctLabels(lines) && k <= |lines|
    ensures var first := FirstPass(lines, |lines|).labels;
            AtMost(first, FixUp(x, lines, first, k).labels) && FirstPass(lines, k).pos <= FixUp(x, lines, first, k).pos
  {
    if k > 0 {
      FirstFixUp(x, lines, k - 1);
      if lines[k - 1].name.Some? { FirstLabels(lines, k - 1, |lines|); }
    }
  }

  /** Across the iterations no label address ever decreases. */
  lemma {:induction false} LabelsNeverDecrease(x: Syntax, lines: seq<Line>, n: nat)
    requires DistinctLabels(lines)
    ensures HasLabels(lines, Iterate(x, lines, n)) && AtMost(Iterate(x, lines, n), Iterate(x, lines, n + 1))
  {
    if n == 0 {
      FirstHasLabels(lines);
      FirstFixUp(x, lines, |lines|);
    } else {
      LabelsNeverDecrease(x, lines, n - 1);
      FixUpMonotonic(x, lines, Iterate(x, lines, n - 1), Iterate(x, lines, n), |lines|);
    }
  }

  // ----- Stable labels are the right ones -----

  /** The words before line k, as the second pass counts them with fixed labels. */
  function Position(x: Syntax, labels: Labels, lines: seq<Line>, k: nat): nat
    requires k <= |lines|
  {
    if k == 0 then 0 else Position(x, labels, lines, k - 1) + Size(x, labels, lines[k - 1].code)
  }

  ghost predicate Consistent(x: Syntax, labels: Labels, lines: seq<Line>, k: nat)
    requires k <= |lines|
  {
    forall i | 0 <= i < k && lines[i].name.Some? ::
      lines[i].name.value in labels && labels[lines[i].name.value] == Position(x, labels, lines, i)
  }

  /** An iteration changes nothing exactly when every label is the position of its line. */
  lemma {:induction false} UnchangedIsConsistent(x: Syntax, labels: Labels, lines: seq<Line>, k: nat)
    requires k <= |lines|
    ensures !FixUp(x, lines, labels, k).changed <==> Consistent(x, labels, lines, k)
    ensures !FixUp(x, lines, labels, k).changed ==>
              && FixUp(x, lines, labels, k).labels == labels
              && FixUp(x, lines, labels, k).pos == Position(x, labels, lines, k)
  {
    if k > 0 {
      UnchangedIsConsistent(x, labels, lines, k - 1);
      hide Size;
    }
  }

  // ----- How long labels can go on moving -----

  function Names(lines: seq<Line>): set<string> {
    set i | 0 <= i < |lines| && lines[i].name.Some? :: lines[i].name.value
  }

  /** A memory instruction whose address operand is one of the names. */
  predicate RefersTo(names: set<string>, code: Code) {
    code.Instruction? && IsMemory(code.mnemonic) && code.operands != [] && AddressOperand(code.operands) in names
  }

  /** Of the first k lines, those that are such instructions. */
  function Refs(names: set<string>, lines: seq<Line>, k: nat): nat
    requires k <= |lines|
  {
    if k == 0 then 0 else Refs(names, lines, k - 1) + if RefersTo(names, lines[k - 1].code) then 1 else 0
  }

  /** The memory instructions of a source that address a label. */
  function LabelRefs(lines: seq<Line>): nat { Refs(Names(lines), lines, |lines|) }

  /** Of them, those among the first k lines that an iteration counts two words for. */
  function Long(x: Syntax, lines: seq<Line>, labels: Labels, k: nat): (n: nat)
    requires k <= |lines|
  {
    if k == 0 then 0
    else
      var code := lines[k - 1].code;
      Long(x, lines, labels, k - 1)
      + if RefersTo(labels.Keys, code) && Size(x, FixUp(x, lines, labels, k).labels, code) == 2 then 1 else 0
  }

  lemma {:induction false} LongAtMostRefs(x: Syntax, lines: seq<Line>, labels: Labels, k: nat)
    requires k <= |lines|
    ensures Long(x, lines, labels, k) <= Refs(labels.Keys, lines, k)
  {
    if k > 0 { LongAtMostRefs(x, lines, labels, k - 1); }
  }

  /** Only an instruction that addresses a label depends on the labels. */
  lemma SizeGrowth(x: Syntax, a: Labels, b: Labels, code: Code)
    requires AtMost(a, b)
    ensures Size(x, a, code) <= Size(x, b, code)
    ensures if RefersTo(a.Keys, code) then 1 <= Size(x, a, code) else Size(x, a, code) == Size(x, b, code)
  {
  }

  /** From one iteration to a later one positions grow by what has become long before them. */
  lemma LongStep(x: Syntax, lines: seq<Line>, a: Labels, b: Labels, k: nat)
    requires AtMost(a, b) && HasLabels(lines, a) && 0 < k <= |lines|
    ensures FixUp(x, lines, b, k).pos - FixUp(x, lines, a, k).pos - (Long(x, lines, b, k) - Long(x, lines, a, k))
         == FixUp(x, lines, b, k - 1).pos - FixUp(x, lines, a, k - 1).pos
            - (Long(x, lines, b, k - 1) - Long(x, lines, a, k - 1))
    ensures Long(x, lines, b, k) - Long(x, lines, a, k) >= Long(x, lines, b, k - 1) - Long(x, lines, a, k - 1)
  {
    var p, q, line := FixUp(x, lines, a, k), FixUp(x, lines, b, k), lines[k - 1];
    FixUpMonotonic(x, lines, a, b, k);
    SizeGrowth(x, p.labels, q.labels, line.code);
    assert p.pos == FixUp(x, lines, a, k - 1).pos + Size(x, p.labels, line.code);
    assert q.pos == FixUp(x, lines, b, k - 1).pos + Size(x, q.labels, line.code);
    hide Size, FixUp, RefersTo, HasLabels;
  }

  lemma {:induction false} LongGrowth(x: Syntax, lines: seq<Line>, a: Labels, b: Labels, k: nat)
    requires AtMost(a, b) && HasLabels(lines, a) && k <= |lines|
    ensures FixUp(x, lines, b, k).pos - FixUp(x, lines, a, k).pos == Long(x, lines, b, k) - Long(x, lines, a, k) >= 0
  {
    if k > 0 {
      LongGrowth(x, lines, a, b, k - 1);
      LongStep(x, lines, a, b, k);
    }
  }

  lemma {:induction false} LongBefore(x: Syntax, lines: seq<Line>, a: Labels, b: Labels, k: nat, n: nat)
    requires AtMost(a, b) && HasLabels(lines, a) && k <= n <= |lines|
    ensures Long(x, lines, b, k) - Long(x, lines, a, k) <= Long(x, lines, b, n) - Long(x, lines, a, n)
  {
    hide FixUp, Long;
    if k < n {
      LongBefore(x, lines, a, b, k, n - 1);
      LongStep(x, lines, a, b, n);
    }
  }

  /** An iteration leaves each label at the position of its line. */
  lemma {:induction false} LabelsArePositions(x: Syntax, lines: seq<Line>, labels: Labels, i: nat, k: nat)
    requires DistinctLabels(lines) && i < k <= |lines| && lines[i].name.Some?
    ensures lines[i].name.value in FixUp(x, lines, labels, k).labels
    ensures FixUp(x, lines, labels, k).labels[lines[i].name.value] == FixUp(x, lines, labels, i).pos
  {
    hide Size;
    if i < k - 1 { LabelsArePositions(x, lines, labels, i, k - 1); }
  }

  /** When no instruction has become long since the iteration before, nothing moves. */
  lemma {:induction false} NoGrowthNoMove(x: Syntax, lines: seq<Line>, a: Labels, b: Labels, k: nat)
    requires DistinctLabels(lines) && HasLabels(lines, a) && AtMost(a, b) && b == FixUp(x, lines, a, |lines|).labels
    requires Long(x, lines, a, |lines|) == Long(x, lines, b, |lines|) && k <= |lines|
    ensures !FixUp(x, lines, b, k).changed && FixUp(x, lines, b, k).labels == b
  {
    if k > 0 {
      NoGrowthNoMove(x, lines, a, b, k - 1);
      if lines[k - 1].name.Some? {
        LabelsArePositions(x, lines, a, k - 1, |lines|);
        LongGrowth(x, lines, a, b, k - 1);
        LongBefore(x, lines, a, b, k - 1, |lines|);
      }
      hide Size, Long;
    }
  }

  lemma {:induction false} FirstNames(lines: seq<Line>, k: nat)
    requires k <= |lines|
    ensures FirstPass(lines, k).labels.Keys == Names(lines[..k])
  {
    if k > 0 {
      FirstNames(lines, k - 1);
      var name := lines[k - 1].name;
      var before, now := lines[..k - 1], lines[..k];
      assert now[k - 1] == lines[k - 1];
      assert Names(now) == Names(before) + if name.Some? then {name.value} else {} by {
        assert forall i | 0 <= i < k - 1 :: now[i] == before[i];
      }
    }
  }

  lemma {:induction false} IterateNames(x: Syntax, lines: seq<Line>, n: nat)
    requires DistinctLabels(lines)
    ensures Iterate(x, lines, n).Keys == Names(lines)
  {
    if n == 0 {
      FirstNames(lines, |lines|);
      assert lines[..|lines|] == lines;
    } else {
      IterateNames(x, lines, n - 1);
      LabelsNeverDecrease(x, lines, n - 1);
    }
  }

  /** Labels that still move after n iterations have made n instructions long, one at least in each. */
  lemma {:induction false} MovingIsGrowing(x: Syntax, lines: seq<Line>, n: nat)
    requires DistinctLabels(lines) && FixUp(x, lines, Iterate(x, lines, n), |lines|).changed
    ensures Long(x, lines, Iterate(x, lines, n), |lines|) >= n
  {
    hide FixUp, Long, Size;
    if n > 0 {
      var a, b := Iterate(x, lines, n - 1), Iterate(x, lines, n);
      LabelsNeverDecrease(x, lines, n - 1);
      UnchangedIsConsistent(x, a, lines, |lines|);
      assert FixUp(x, lines, a, |lines|).changed;
      MovingIsGrowing(x, lines, n - 1);
      LongGrowth(x, lines, a, b, |lines|);
      if Long(x, lines, a, |lines|) == Long(x, lines, b, |lines|) {
        NoGrowthNoMove(x, lines, a, b, |lines|);
      }
    }
  }

  /** A source whose labels still move after n iterations addresses labels at least n times. */
  lemma MovingNeedsRefs(x: Syntax, lines: seq<Line>, n: nat)
    requires DistinctLabels(lines) && FixUp(x, lines, Iterate(x, lines, n), |lines|).changed
    ensures LabelRefs(lines) >= n
  {
    MovingIsGrowing(x, lines, n);
    IterateNames(x, lines, n);
    LongAtMostRefs(x, lines, Iterate(x, lines, n), |lines|);
  }

  // ----- What the third pass emits -----

  /** The registers are numbered 0 to 3, and none of their names is also a number. */
  ghost predicate Sound(x: Syntax) {
    forall s | x.register(s).Some? :: x.register(s).value < 4 && x.value(s) == None
  }

  /** The operand counts that the instruction set declares, and no label with a register's name. */
  predicate Declared(labels: Labels, code: Code) {
    code.Instruction? ==>
      && (code.mnemonic.PLAY? || code.mnemonic.LSR? ==> |code.operands| <= 1)
      && (code.mnemonic.LSR? && code.operands != [] ==> code.operands[0] !in labels)
  }

  /** The third pass emits as many words as the second one counts. */
  lemma EmitSize(x: Syntax, labels: Labels, code: Code)
    requires Sound(x) && Declared(labels, code) && Emit(x, labels, code).Some?
    ensures |Emit(x, labels, code).value| == Size(x, labels, code)
  {
    hide Word, Mode, Opcode, Joined;
    if code.Instruction? {
      assert IsMemory(code.mnemonic) ==> !IsBranch(code.mnemonic);
      if IsMemory(code.mnemonic) {
        hide Target;
        assert code.mnemonic.LSR? ==> !NeedsAbsolute(x, labels, code.operands[0]) by { LsrIsShort(x, labels, code); }
      }
    }
  }

  lemma LsrIsShort(x: Syntax, labels: Labels, code: Code)
    requires Sound(x) && Declared(labels, code) && Emit(x, labels, code).Some? && code.Instruction?
    ensures code.mnemonic.LSR? ==> code.operands != [] && !NeedsAbsolute(x, labels, code.operands[0])
  {
  }

  lemma {:induction false} ThirdPassSize(x: Syntax, labels: Labels, lines: seq<Line>, k: nat)
    requires k <= |lines| && Sound(x) && forall i | 0 <= i < |lines| :: Declared(labels, lines[i].code)
    requires ThirdPass(x, labels, lines, |lines|).Some?
    ensures ThirdPass(x, labels, lines, k).Some?
    ensures |ThirdPass(x, labels, lines, k).value| == Position(x, labels, lines, k)
    decreases k
  {
    ThirdPassPrefix(x, labels, lines, k, |lines|);
    if k > 0 {
      ThirdPassSize(x, labels, lines, k - 1);
      EmitSize(x, labels, lines[k - 1].code);
    }
  }

  lemma {:induction false} ThirdPassPrefix(x: Syntax, labels: Labels, lines: seq<Line>, k: nat, n: nat)
    requires k <= n <= |lines| && ThirdPass(x, labels, lines, n).Some?
    ensures ThirdPass(x, labels, lines, k).Some?
    ensures ThirdPass(x, labels, lines, k).value <= ThirdPass(x, labels, lines, n).value
  {
    if k < n { ThirdPassPrefix(x, labels, lines, k, n - 1); }
  }

  /** Every label equals the number of words that the third pass emits before its line. */
  ghost predicate LabelsAreAddresses(x: Syntax, labels: Labels, lines: seq<Line>)
    requires ThirdPass(x, labels, lines, |lines|).Some?
  {
    forall i | 0 <= i < |lines| && lines[i].name.Some? ::
      && lines[i].name.value in labels && ThirdPass(x, labels, lines, i).Some?
      && labels[lines[i].name.value] == |ThirdPass(x, labels, lines, i).value|
  }

  /** The labels are the addresses in the emitted program exactly when one more iteration of the
      second pass would leave labels_changed false. */
  lemma AddressesExactlyWhenStable(x: Syntax, labels: Labels, lines: seq<Line>)
    requires Sound(x) && forall i | 0 <= i < |lines| :: Declared(labels, lines[i].code)
    requires ThirdPass(x, labels, lines, |lines|).Some?
    ensures LabelsAreAddresses(x, labels, lines) <==> !FixUp(x, lines, labels, |lines|).changed
  {
    UnchangedIsConsistent(x, labels, lines, |lines|);
    hide FixUp, ThirdPass, Position, Declared, Sound;
    forall i | 0 <= i < |lines|
      ensures ThirdPass(x, labels, lines, i).Some?
      ensures |ThirdPass(x, labels, lines, i).value| == Position(x, labels, lines, i)
    {
      ThirdPassSize(x, labels, lines, i);
    }
  }

  // ----- What is emitted can be read back -----

  datatype Fields = Fields(opcode: nat, reg: nat, mode: nat, low: nat)

  /** The fields of an instruction word as the processor takes them apart. */
  function Decode(word: nat): Fields {
    Fields(word / 4096, word / 1024 % 4, word / 256 % 4, word % 256)
  }

  /** Or-ing bits into free places adds them. */
  lemma {:induction false} OrIsSum(a: nat, b: nat, k: nat)
    requires b < Pow2(k)
    ensures BitOr(a * Pow2(k), b) == a * Pow2(k) + b
  {
    if k == 0 {
      OrZero(a);
    } else {
      var p := a * Pow2(k - 1);
      assert a * Pow2(k) == 2 * p;
      OrIsSum(a, b / 2, k - 1);
      assert BitOr(2 * p, b) == 2 * BitOr(p, b / 2) + b % 2;
    }
  }

  lemma FieldWidths()
    ensures Pow2(8) == 256 && Pow2(10) == 1024 && Pow2(12) == 4096
  {
    assert Pow2(4) == 16;
    assert Pow2(8) == 256;
  }

  lemma WordIsSum(opcode: nat, reg: nat, mode: nat, value: int)
    requires opcode < 16 && reg < 4 && mode < 4
    ensures Word(opcode, reg, mode, value) == opcode * 4096 + reg * 1024 + mode * 256 + value % 256
  {
    hide BitOr, Pow2;
    FieldWidths();
    OrIsSum(opcode, reg * 1024, 12);
    OrIsSum(opcode * 4 + reg, mode * 256, 10);
    OrIsSum(opcode * 16 + reg * 4 + mode, value % 256, 8);
  }

  lemma SumDecodes(opcode: nat, reg: nat, mode: nat, low: nat)
    requires opcode < 16 && reg < 4 && mode < 4 && low < 256
    ensures Decode(opcode * 4096 + reg * 1024 + mode * 256 + low) == Fields(opcode, reg, mode, low)
  {
    var w := opcode * 4096 + reg * 1024 + mode * 256 + low;
    assert w / 256 == opcode * 16 + reg * 4 + mode && w / 1024 == opcode * 4 + reg && w / 4096 == opcode;
  }

  /** The fields of a word do not overlap. */
  lemma WordRoundTrip(opcode: nat, reg: nat, mode: nat, value: int)
    requires opcode < 16 && reg < 4 && mode < 4
    ensures 0 <= Word(opcode, reg, mode, value) < 0x1_0000
    ensures Decode(Word(opcode, reg, mode, value)) == Fields(opcode, reg, mode, value % 256)
  {
    hide Word, Decode;
    WordIsSum(opcode, reg, mode, value);
    SumDecodes(opcode, reg, mode, value % 256);
  }

  /** The instructions with an operand in memory, without AND. */
  predicate HasAddress(m: Mnemonic) {
    m.LD? || m.STORE? || m.ADD? || m.SUB? || m.OR? || m.CMP? || m.PLAY? || m.UART?
  }

  /** The address operand as the third pass takes it. */
  function EmittedOperand(m: Mnemonic, operands: seq<string>): string
    requires |operands| > 1 || (m.PLAY? && operands != [])
  {
    if m.PLAY? then operands[0] else operands[1]
  }

  /** The address that the words of an instruction give. */
  function AddressIn(words: seq<int>): Option<int>
    requires words != [] && words[0] >= 0
  {
    if Decode(words[0]).mode == 0 then Some(Decode(words[0]).low)
    else if Decode(words[0]).mode == 2 && |words| > 1 then Some(words[1])
    else None
  }

  /** The operand is a direct address of 16 bits. */
  predicate IsAddress(x: Syntax, labels: Labels, op: string) {
    && (op == [] || op[0] != '#') && !('[' in op && ']' in op)
    && Target(x, labels, op).Some? && 0 <= Target(x, labels, op).value < 0x1_0000
  }

  /** What the third pass can encode. */
  predicate Encodable(x: Syntax, labels: Labels, code: Code) {
    match code
    case Blank => true
    case Directive(value) => value.Some?
    case Instruction(m, operands) =>
      && !m.Unknown? && operands != []
      && (HasRegister(m) ==> x.register(operands[0]).Some?)
      && (m.BRA? || m.BEQ? || m.BPL? ==> operands[0] in labels || x.value(operands[0]).Some?)
      && (HasAddress(m) && !m.PLAY? ==> |operands| >= 2)
      && (m.LDI? ==> |operands| >= 2 && x.value(operands[1]).Some?)
      && (m.AND? ==> AndOperand(x, labels, Joined(operands[1..])))
  }

  predicate HasRegister(m: Mnemonic) { !m.BRA? && !m.BEQ? && !m.BPL? && !m.PLAY? }

  /** A readable value or offset, or an address that one word has room for. */
  predicate AndOperand(x: Syntax, labels: Labels, op: string) {
    if op != [] && op[0] == '#' then x.value(op).Some?
    else if '[' in op && ']' in op then x.offset(op).Some?
    else Target(x, labels, op) == None || Target(x, labels, op).value <= 255
  }

  /** Every other line raises an exception. */
  lemma EncodesExactly(x: Syntax, labels: Labels, code: Code)
    ensures Emit(x, labels, code).Some? <==> Encodable(x, labels, code)
  {
    hide Word, Mode, Opcode, Joined, Target;
  }

  lemma MemoryWords(x: Syntax, labels: Labels, m: Mnemonic, operands: seq<string>) returns (reg: nat)
    requires Sound(x) && HasAddress(m) && Emit(x, labels, Instruction(m, operands)).Some?
    ensures (|operands| > 1 || (m.PLAY? && operands != [])) && reg < 4
    ensures if m.PLAY? then reg == 0 else x.register(operands[0]) == Some(reg)
    ensures var words, op := Emit(x, labels, Instruction(m, operands)).value, EmittedOperand(m, operands);
            words == if NeedsAbsolute(x, labels, op) then
                       [Word(Opcode(m), reg, 2, 0), Target(x, labels, op).value % 0x1_0000]
                     else
                       [Word(Opcode(m), reg, Mode(op), if op in labels then labels[op] else Or(x.value(op), 0))]
  {
    hide Word, Opcode, Mode, Target;
    reg := if m.PLAY? then 0 else x.register(operands[0]).value;
  }

  lemma ModeBound(op: string)
    ensures Mode(op) < 4
  {
  }

  /** From the words of a memory instruction its opcode and register can be read back. */
  lemma MemoryReadsBack(x: Syntax, labels: Labels, m: Mnemonic, operands: seq<string>)
    requires Sound(x) && HasAddress(m) && Emit(x, labels, Instruction(m, operands)).Some?
    ensures var words := Emit(x, labels, Instruction(m, operands)).value;
            && words != [] && 0 <= words[0] < 0x1_0000 && Decode(words[0]).opcode == Opcode(m)
            && operands != []
            && if m.PLAY? then Decode(words[0]).reg == 0 else x.register(operands[0]) == Some(Decode(words[0]).reg)
  {
    var reg := MemoryWords(x, labels, m, operands);
    var op := EmittedOperand(m, operands);
    hide Emit, Word, Decode, Opcode, Sound, NeedsAbsolute, Target, Mode;
    ModeBound(op);
    WordRoundTrip(Opcode(m), reg, 2, 0);
    WordRoundTrip(Opcode(m), reg, Mode(op), if op in labels then labels[op] else Or(x.value(op), 0));
  }

  /** And so can its address, be it that of a label or a number, in one word or two. */
  lemma AddressReadsBack(x: Syntax, labels: Labels, m: Mnemonic, operands: seq<string>)
    requires Sound(x) && HasAddress(m) && Emit(x, labels, Instruction(m, operands)).Some?
    ensures var words := Emit(x, labels, Instruction(m, operands)).value;
            && words != [] && words[0] >= 0 && (|operands| > 1 || (m.PLAY? && operands != []))
            && (IsAddress(x, labels, EmittedOperand(m, operands)) ==>
                  && AddressIn(words) == Target(x, labels, EmittedOperand(m, operands))
                  && (|words| == 2 <==> Target(x, labels, EmittedOperand(m, operands)).value > 255))
  {
    var reg := MemoryWords(x, labels, m, operands);
    var op := EmittedOperand(m, operands);
    var value := if op in labels then labels[op] else Or(x.value(op), 0);
    hide Emit, Word, Decode, Opcode, Sound, AddressIn;
    ModeBound(op);
    if NeedsAbsolute(x, labels, op) {
      hide IsImmediate, IsIndexed;
      LongAddress(Opcode(m), reg, Target(x, labels, op).value);
    } else {
      ShortAddress(Opcode(m), reg, Mode(op), value);
      assert IsAddress(x, labels, op) ==> Mode(op) == 0 && Target(x, labels, op) == Some(value);
    }
  }

  lemma LongAddress(opcode: nat, reg: nat, t: int)
    requires opcode < 16 && reg < 4
    ensures Word(opcode, reg, 2, 0) >= 0
    ensures 0 <= t < 0x1_0000 ==> AddressIn([Word(opcode, reg, 2, 0), t % 0x1_0000]) == Some(t)
  {
    hide Word, Decode, BitOr;
    WordRoundTrip(opcode, reg, 2, 0);
  }

  lemma ShortAddress(opcode: nat, reg: nat, mode: nat, value: int)
    requires opcode < 16 && reg < 4 && mode < 4
    ensures Word(opcode, reg, mode, value) >= 0
    ensures mode == 0 && 0 <= value <= 255 ==> AddressIn([Word(opcode, reg, mode, value)]) == Some(value)
  {
    hide Word, Decode, BitOr;
    WordRoundTrip(opcode, reg, mode, value);
  }

  /** And its immediate value. */
  lemma ImmediateReadsBack(x: Syntax, labels: Labels, m: Mnemonic, operands: seq<string>, op: string)
    requires Sound(x) && HasAddress(m) && Emit(x, labels, Instruction(m, operands)).Some?
    requires (|operands| > 1 || (m.PLAY? && operands != [])) && op == EmittedOperand(m, operands)
    requires op !in labels && op != [] && op[0] == '#' && x.value(op).Some?
    ensures var words := Emit(x, labels, Instruction(m, operands)).value;
            && words != [] && words[0] >= 0
            && Decode(words[0]).mode == 1 && Decode(words[0]).low == x.value(op).value % 256
  {
    var reg := MemoryWords(x, labels, m, operands);
    hide Emit, Word, Decode, Opcode, Sound;
    WordRoundTrip(Opcode(m), reg, 1, x.value(op).value);
  }

  /** An indexed operand: the mode is there, but the offset only if it is 0, since _parse_value
      fails on the brackets. */
  lemma OffsetIsLost(x: Syntax, labels: Labels, m: Mnemonic, operands: seq<string>, op: string, offset: int)
    requires Sound(x) && HasAddress(m) && Emit(x, labels, Instruction(m, operands)).Some?
    requires (|operands| > 1 || (m.PLAY? && operands != [])) && op == EmittedOperand(m, operands)
    requires op !in labels && !IsImmediate(op) && IsIndexed(op) && x.value(op) == None && x.offset(op) == Some(offset)
    ensures var words := Emit(x, labels, Instruction(m, operands)).value;
            && |words| == 1 && words[0] >= 0 && Decode(words[0]).mode == 3
            && (Decode(words[0]).low == offset % 256 <==> offset % 256 == 0)
  {
    var reg := MemoryWords(x, labels, m, operands);
    hide Emit, Word, Decode, Opcode, Sound;
    WordRoundTrip(Opcode(m), reg, 3, 0);
  }

  /** From the words of a branch its opcode and its target. */
  lemma BranchReadsBack(x: Syntax, labels: Labels, m: Mnemonic, operands: seq<string>)
    requires (m.BRA? || m.BEQ? || m.BPL?) && Emit(x, labels, Instruction(m, operands)).Some?
    ensures operands != [] && (operands[0] in labels || x.value(operands[0]).Some?)
    ensures var words := Emit(x, labels, Instruction(m, operands)).value;
            && |words| == 2 && 0 <= words[0] < 0x1_0000
            && Decode(words[0]) == Fields(Opcode(m), 0, 1, 0)
            && words[1] == (if operands[0] in labels then labels[operands[0]] else x.value(operands[0]).value)
                           % 0x1_0000
  {
    hide Word, Decode, BitOr;
    WordRoundTrip(Opcode(m), 0, 1, 0);
  }

  /** From the word of any other instruction its opcode and register, and the value that LDI loads. */
  lemma OtherReadsBack(x: Syntax, labels: Labels, m: Mnemonic, operands: seq<string>)
    requires Sound(x) && (m.LDI? || m.LSR? || m.AND? || m.KEY0? || m.KEY1?)
    requires Emit(x, labels, Instruction(m, operands)).Some?
    ensures operands != [] && (m.LDI? ==> |operands| > 1 && x.value(operands[1]).Some?)
    ensures var words := Emit(x, labels, Instruction(m, operands)).value;
            && |words| == 1 && 0 <= words[0] < 0x1_0000
            && Decode(words[0]).opcode == Opcode(m) && x.register(operands[0]) == Some(Decode(words[0]).reg)
            && (!m.AND? ==> Decode(words[0]).mode == 0)
            && (!m.AND? ==> Decode(words[0]).low == if m.LDI? then x.value(operands[1]).value % 256 else 0)
  {
    forall mode: nat, value: int | mode < 4
      ensures var w := Word(Opcode(m), x.register(operands[0]).value, mode, value);
              0 <= w < 0x1_0000 && Decode(w) == Fields(Opcode(m), x.register(operands[0]).value, mode, value % 256)
    {
      WordRoundTrip(Opcode(m), x.register(operands[0]).value, mode, value);
    }
    hide Word, Decode, Joined;
  }

  lemma AndWords(x: Syntax, labels: Labels, operands: seq<string>, op: string)
      returns (reg: nat, mode: nat, value: int)
    requires Sound(x) && Emit(x, labels, Instruction(AND, operands)).Some?
    requires operands != [] && op == Joined(operands[1..])
    ensures reg < 4 && x.register(operands[0]) == Some(reg)
    ensures Emit(x, labels, Instruction(AND, operands)).value == [Word(Opcode(AND), reg, mode, value)]
    ensures if IsImmediate(op) then mode == 1 && x.value(op) == Some(value)
            else if IsIndexed(op) then mode == 3 && x.offset(op) == Some(value)
            else mode == 0 && value <= 255 && value == Or(Target(x, labels, op), 0xFF)
  {
    hide Word, Opcode, Joined, Target, IsImmediate, IsIndexed;
    reg := x.register(operands[0]).value;
    mode := if IsImmediate(op) then 1 else if IsIndexed(op) then 3 else 0;
    value := if IsImmediate(op) then x.value(op).value
             else if IsIndexed(op) then x.offset(op).value
             else Or(Target(x, labels, op), 0xFF);
  }

  /** From the word of AND its operand, with the offset of an indexed one; a direct address is a short
      one, or 255 when it is neither a label nor a number. */
  lemma AndReadsBack(x: Syntax, labels: Labels, operands: seq<string>, op: string)
    requires Sound(x) && Emit(x, labels, Instruction(AND, operands)).Some?
    requires operands != [] && op == Joined(operands[1..])
    ensures |operands| == 2 ==> op == operands[1]
    ensures var words := Emit(x, labels, Instruction(AND, operands)).value;
            && |words| == 1 && words[0] >= 0
            && var f := Decode(words[0]);
               if IsImmediate(op) then x.value(op).Some? && f.mode == 1 && f.low == x.value(op).value % 256
               else if IsIndexed(op) then x.offset(op).Some? && f.mode == 3 && f.low == x.offset(op).value % 256
               else
                 && f.mode == 0 && (Target(x, labels, op).Some? ==> Target(x, labels, op).value <= 255)
                 && f.low == if Target(x, labels, op).Some? then Target(x, labels, op).value % 256 else 255
  {
    hide Emit, Word, Decode, Target, IsImmediate, IsIndexed, Opcode, Sound;
    var reg, mode, value := AndWords(x, labels, operands, op);
    OpcodeIsIndex(AND, 0);
    WordRoundTrip(Opcode(AND), reg, mode, value);
  }
}
