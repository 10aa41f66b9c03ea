// The loops of compile_file in Snake/docs/compiler/compiler.py.
module Assembler {
  import opened Prelude
  import opened AssemblerSpec

  const MAX_ITERATIONS := 5

  class CPUCompiler {
    const syntax: Syntax
    var labels: Labels
    var binaryOutput: seq<int>

    constructor (syntax: Syntax)
      ensures this.syntax == syntax
    {
      this.syntax := syntax;
      labels, binaryOutput := map[], [];
    }

    method CollectLabels(lines: seq<Line>)
      modifies `labels
      ensures labels == FirstPass(lines, |lines|).labels
    {
      labels := map[];
      var currentPos: nat := 0;
      for i := 0 to |lines|
        invariant labels == FirstPass(lines, i).labels && currentPos == FirstPass(lines, i).pos
      {
        var line := lines[i];
        if line.name.Some? {
          labels := labels[line.name.value := currentPos];
        }
        match line.code {
          case Blank =>
          case Directive(_) => currentPos := currentPos + 1;
          case Instruction(m, _) => currentPos := currentPos + if IsBranch(m) then 2 else 1;
        }
      }
    }

    /** One iteration of the second pass; false stands for IndexError. */
    method FixUpLabels(lines: seq<Line>) returns (ok: bool, labelsChanged: bool)
      modifies `labels
      ensures ok <==> forall i | 0 <= i < |lines| :: !Fails(lines[i].code)
      ensures ok ==> labels == FixUp(syntax, lines, old(labels), |lines|).labels
      ensures ok ==> labelsChanged == FixUp(syntax, lines, old(labels), |lines|).changed
    {
      labelsChanged := false;
      var currentPos: nat := 0;
      for i := 0 to |lines|
        invariant forall j | 0 <= j < i :: !Fails(lines[j].code)
        invariant Pass(labels, currentPos, labelsChanged) == FixUp(syntax, lines, old(labels), i)
      {
        var line := lines[i];
        if line.name.Some? {
          if line.name.value !in labels || labels[line.name.value] != currentPos {
            labels := labels[line.name.value := currentPos];
            labelsChanged := true;
          }
        }
        match line.code {
          case Blank =>
          case Directive(_) => currentPos := currentPos + 1;
          case Instruction(m, operands) =>
            if IsBranch(m) {
              currentPos := currentPos + 2;
            } else if IsMemory(m) {
              if operands == [] {
                return false, labelsChanged;
              }
              var addrOperand := if |operands| > 1 then operands[1] else operands[0];
              currentPos := currentPos + if NeedsAbsolute(syntax, labels, addrOperand) then 2 else 1;
            } else {
              currentPos := currentPos + 1;
            }
        }
      }
      ok := true;
    }

    /** The third pass; false stands for any exception. */
    method Generate(lines: seq<Line>) returns (ok: bool)
      modifies `binaryOutput
      ensures ok <==> ThirdPass(syntax, labels, lines, |lines|).Some?
      ensures ok ==> binaryOutput == ThirdPass(syntax, labels, lines, |lines|).value
    {
      hide Emit;
      binaryOutput := [];
      for i := 0 to |lines|
        invariant ThirdPass(syntax, labels, lines, i) == Some(binaryOutput)
      {
        var words := Emit(syntax, labels, lines[i].code);
        if words == None {
          FailureStays(syntax, labels, lines, i + 1, |lines|);
          return false;
        }
        binaryOutput := binaryOutput + words.value;
      }
      ok := true;
    }

    /** compile_file.  It never looks at whether the labels have become stable. */
    method CompileFile(lines: seq<Line>) returns (ok: bool, ghost iterations: nat, ghost stable: bool)
      modifies this
      ensures ok ==> iterations <= MAX_ITERATIONS && labels == Iterate(syntax, lines, iterations)
      ensures ok ==> ThirdPass(syntax, labels, lines, |lines|) == Some(binaryOutput)
      ensures !ok ==>
                || (exists i :: 0 <= i < |lines| && Fails(lines[i].code))
                || ThirdPass(syntax, labels, lines, |lines|) == None
      ensures ok ==> if stable then !FixUp(syntax, lines, labels, |lines|).changed else iterations == MAX_ITERATIONS
      ensures ok && Sound(syntax) && (forall i | 0 <= i < |lines| :: Declared(labels, lines[i].code))
                && (stable || (DistinctLabels(lines) && LabelRefs(lines) <= 4)) ==>
                LabelsAreAddresses(syntax, labels, lines) && DataAtLabels(labels, lines, binaryOutput)
      ensures ok ==> forall i | 0 <= i < |lines| :: InPlace(syntax, labels, lines, binaryOutput, i)
    {
      hide FixUp, ThirdPass, Declared, InPlace, DataAtLabels;
      CollectLabels(lines);
      var labelsChanged := true;
      var iteration := 0;
      while labelsChanged && iteration < MAX_ITERATIONS
        invariant iteration <= MAX_ITERATIONS && labels == Iterate(syntax, lines, iteration)
        invariant !labelsChanged ==> !FixUp(syntax, lines, labels, |lines|).changed
        decreases MAX_ITERATIONS - iteration
      {
        iteration := iteration + 1;
        ghost var was := labels;
        ok, labelsChanged := FixUpLabels(lines);
        if !ok {
          return false, iteration, false;
        }
        if !labelsChanged { UnchangedIsConsistent(syntax, was, lines, |lines|); }
      }
      ok := Generate(lines);
      iterations, stable := iteration, !labelsChanged;
      if ok && Sound(syntax) && forall i | 0 <= i < |lines| :: Declared(labels, lines[i].code) {
        AddressesExactlyWhenStable(syntax, labels, lines);
        if LabelsAreAddresses(syntax, labels, lines) { AddressesFindData(syntax, labels, lines); }
      }
      if !stable && DistinctLabels(lines) && LabelRefs(lines) <= 4 {
        FourRefsSettle(syntax, lines);
      }
      if ok {
        forall i | 0 <= i < |lines|
          ensures InPlace(syntax, labels, lines, binaryOutput, i)
        {
          AllInPlace(syntax, labels, lines, i);
        }
      }
    }
  }

  lemma {:induction false} FailureStays(x: Syntax, labels: Labels, lines: seq<Line>, k: nat, n: nat)
    requires k <= n <= |lines| && ThirdPass(x, labels, lines, k) == None
    ensures ThirdPass(x, labels, lines, n) == None
  {
    hide Emit;
    if k < n { FailureStays(x, labels, lines, k, n - 1); }
  }

  // ----- When five iterations are enough -----

  /** After its last iteration compile_file has labels that no further one would move. */
  ghost predicate Settles(x: Syntax, lines: seq<Line>) {
    !FixUp(x, lines, Iterate(x, lines, MAX_ITERATIONS), |lines|).changed
  }

  lemma FourRefsSettle(x: Syntax, lines: seq<Line>)
    requires DistinctLabels(lines) && LabelRefs(lines) <= 4
    ensures Settles(x, lines)
  {
    hide FixUp, Iterate, LabelRefs;
    if !Settles(x, lines) { MovingNeedsRefs(x, lines, MAX_ITERATIONS); }
  }

  /** op is a number above 255. */
  predicate IsLarge(x: Syntax, op: string) {
    !IsImmediate(op) && !IsIndexed(op) && x.value(op).Some? && x.value(op).value > 255
  }

  /** Labels of different lengths, all longer than op. */
  function Name(op: string, j: nat): string { seq(|op| + j + 1, i => 'a') }

  /** A load from address op, five from the labels at the end, 245 words of data, and five
      labelled words. */
  function Chain(op: string): seq<Line> {
    seq(256, i requires 0 <= i < 256 =>
      if i == 0 then Line(None, Instruction(LD, ["R0", op]))
      else if i < 6 then Line(None, Instruction(LD, ["R0", Name(op, i - 1)]))
      else if i < 251 then Line(None, Directive(Some(0)))
      else Line(Some(Name(op, i - 251)), Directive(Some(0))))
  }

  lemma ChainDistinct(op: string)
    ensures DistinctLabels(Chain(op))
  {
    forall i, j | 0 <= i < j < 256 && Chain(op)[i].name.Some? && Chain(op)[j].name.Some?
      ensures Chain(op)[i].name != Chain(op)[j].name
    {
      assert |Chain(op)[i].name.value| < |Chain(op)[j].name.value|;
    }
  }

  /** The last five words are c words further back than with one word for each load. */
  ghost predicate Shifted(op: string, labels: Labels, c: nat) {
    op !in labels && forall j | 0 <= j < 5 :: Name(op, j) in labels && labels[Name(op, j)] == 251 + c + j
  }

  /** The loads from labels among the first k that take two words. */
  function LongLoads(c: nat, k: nat): nat {
    if c <= 5 && k > 5 - c then k - (5 - c) else 0
  }

  lemma {:induction false} ChainFirst(op: string, k: nat)
    requires k <= 256
    ensures FirstPass(Chain(op), k).pos == k
    ensures forall l | l in FirstPass(Chain(op), k).labels :: |l| > |op|
    ensures forall j | 0 <= j && 251 + j < k :: Name(op, j) in FirstPass(Chain(op), k).labels
                                             && FirstPass(Chain(op), k).labels[Name(op, j)] == 251 + j
  {
    if k > 0 {
      ChainFirst(op, k - 1);
    }
  }

  lemma {:induction false} ChainLoads(x: Syntax, op: string, labels: Labels, c: nat, k: nat)
    requires k <= 5 && c <= 5 && Shifted(op, labels, c) && IsLarge(x, op)
    ensures FixUp(x, Chain(op), labels, k + 1) == Pass(labels, k + 2 + LongLoads(c, k), false)
  {
    hide IsImmediate, IsIndexed;
    if k > 0 {
      ChainLoads(x, op, labels, c, k - 1);
      assert Chain(op)[k].code.operands[1] == Name(op, k - 1);
    } else {
      assert FixUp(x, Chain(op), labels, 0) == Pass(labels, 0, false);
      assert Chain(op)[0].code.operands[1] == op;
    }
  }

  lemma {:induction false} ChainData(x: Syntax, op: string, labels: Labels, c: nat, k: nat)
    requires 6 <= k <= 251 && c <= 5 && Shifted(op, labels, c) && IsLarge(x, op)
    ensures FixUp(x, Chain(op), labels, k) == Pass(labels, k + 1 + c, false)
  {
    if k == 6 {
      ChainLoads(x, op, labels, c, 5);
    } else {
      ChainData(x, op, labels, c, k - 1);
    }
  }

  lemma {:induction false} ChainLabels(x: Syntax, op: string, labels: Labels, c: nat, k: nat)
    requires 251 <= k <= 256 && c <= 5 && Shifted(op, labels, c) && IsLarge(x, op)
    ensures FixUp(x, Chain(op), labels, k).pos == k + 1 + c && op !in FixUp(x, Chain(op), labels, k).labels
    ensures k > 251 ==> FixUp(x, Chain(op), labels, k).changed
    ensures forall j | 0 <= j < 5 :: Name(op, j) in FixUp(x, Chain(op), labels, k).labels
              && FixUp(x, Chain(op), labels, k).labels[Name(op, j)] == 251 + j + if 251 + j < k then c + 1 else c
  {
    if k == 251 {
      ChainData(x, op, labels, c, 251);
    } else {
      ChainLabels(x, op, labels, c, k - 1);
      assert |Name(op, k - 252)| > |op|;
      assert forall j | 0 <= j < 5 && Name(op, j) == Name(op, k - 252) :: |Name(op, j)| == |op| + j + 1;
    }
  }

  /** Each iteration lengthens one more load, which pushes one more label past 255. */
  lemma {:induction false} ChainIterate(x: Syntax, op: string, n: nat)
    requires n <= 6 && IsLarge(x, op)
    ensures Shifted(op, Iterate(x, Chain(op), n), n)
  {
    if n == 0 {
      ChainFirst(op, 256);
    } else {
      ChainIterate(x, op, n - 1);
      ChainLabels(x, op, Iterate(x, Chain(op), n - 1), n - 1, 256);
    }
  }

  lemma {:induction false} ChainRefs(op: string, names: set<string>, k: nat)
    requires k <= 256 && op !in names
    ensures Refs(names, Chain(op), k) <= if k < 6 then k - (if k > 0 then 1 else 0) else 5
  {
    if k > 0 {
      ChainRefs(op, names, k - 1);
      hide IsMemory;
      assert k - 1 == 0 ==> AddressOperand(Chain(op)[0].code.operands) == op;
    }
  }

  lemma ChainMoves(x: Syntax, op: string)
    requires IsLarge(x, op)
    ensures DistinctLabels(Chain(op)) && LabelRefs(Chain(op)) <= 5 && !Settles(x, Chain(op))
  {
    ChainDistinct(op);
    ChainIterate(x, op, 5);
    ChainLabels(x, op, Iterate(x, Chain(op), 5), 5, 256);
    IterateNames(x, Chain(op), 5);
    ChainRefs(op, Names(Chain(op)), 256);
  }

  /** compile_file's five iterations make the labels settle in every source with at most m memory
      instructions that address labels exactly when m is at most four. */
  lemma SettlesExactly(x: Syntax, op: string, m: nat)
    requires IsLarge(x, op)
    ensures (forall lines | DistinctLabels(lines) && LabelRefs(lines) <= m :: Settles(x, lines)) <==> m <= 4
  {
    hide Settles, DistinctLabels, LabelRefs;
    if m <= 4 {
      forall lines | DistinctLabels(lines) && LabelRefs(lines) <= m
        ensures Settles(x, lines)
      {
        FourRefsSettle(x, lines);
      }
    } else {
      ChainMoves(x, op);
    }
  }

  lemma {:induction false} ChainEmits(x: Syntax, op: string, labels: Labels, k: nat)
    requires k <= 256 && x.register("R0").Some?
    ensures ThirdPass(x, labels, Chain(op), k).Some?
  {
    if k > 0 {
      ChainEmits(x, op, labels, k - 1);
      hide Word, NeedsAbsolute;
    }
  }

  /** After the five iterations that compile_file allows itself the labels are still moving, so
      they are not the addresses in the program that it emits. */
  lemma FiveAreTooFew(x: Syntax, op: string)
    requires Sound(x) && x.register("R0").Some? && IsLarge(x, op)
    ensures ThirdPass(x, Iterate(x, Chain(op), MAX_ITERATIONS), Chain(op), 256).Some?
    ensures !LabelsAreAddresses(x, Iterate(x, Chain(op), MAX_ITERATIONS), Chain(op))
  {
    ChainEmits(x, op, Iterate(x, Chain(op), 5), 256);
    ChainMoves(x, op);
    hide Emit, FixUp, ThirdPass, Iterate;
    AddressesExactlyWhenStable(x, Iterate(x, Chain(op), 5), Chain(op));
  }
}
