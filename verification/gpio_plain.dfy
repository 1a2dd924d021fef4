/** What a program of bus accesses means on a plain memory, without bus cycles, encodings or halves. */
module GpioPlain {
  import opened Basics
  import opened GpioWords
  import opened WishboneMaster
  import opened GpioBus

  /** 16-bit cells; only addresses of twelve bits are used. */
  type Plain = Half -> Half

  function Poke(mem: Plain, add: Half, data: Half): Plain {
    (x: Half) => if x == add & 0x0FFF then data else mem(x)
  }

  /** A read whose address has bit 12 set is a write of zero. */
  function AfterRead(mem: Plain, add: Half): Plain {
    if add & 0x1000 == 0 then mem else Poke(mem, add, 0)
  }

  function ReadValue(mem: Plain, add: Half): Half {
    if add & 0x1000 == 0 then mem(add & 0x0FFF) else 0
  }

  /** The high half of a 32-bit register, as `HalvesValue` has it, is at its address and the low half at the next. */
  function PlainStep(mem: Plain, c: Call): Plain {
    match c
    case Call16W(data, add) => Poke(mem, add, data)
    case Call16R(add) => AfterRead(mem, add)
    case Call32W(wide, add) => Poke(Poke(mem, add, High(wide)), add + 1, Low(wide))
    case Call32R(add) => AfterRead(AfterRead(mem, add), add + 1)
  }

  function PlainAnswer(mem: Plain, c: Call): Word {
    match c
    case Call16R(add) => ReadValue(mem, add) as Word
    case Call32R(add) => Joined(ReadValue(mem, add), ReadValue(AfterRead(mem, add), add + 1))
    case _ => 0
  }

  function PlainAfter(mem: Plain, calls: seq<Call>): Plain {
    if calls == [] then mem else PlainStep(PlainAfter(mem, Front(calls)), Last(calls))
  }

  ghost predicate Agree(mem: Plain, regs: Registers) {
    forall x: Half :: mem(x) == Peek(regs, x)
  }

  lemma WritesPlainly(mem: Plain, regs: Registers, data: Half, add: Half)
    requires Agree(mem, regs)
    ensures Agree(Poke(mem, add, data), Effect(regs, OpOf(WriteWord(data, add))))
  {
    RequestMeaning(data, add);
  }

  lemma ReadsPlainly(mem: Plain, regs: Registers, add: Half)
    requires Agree(mem, regs)
    ensures Agree(AfterRead(mem, add), Effect(regs, OpOf(ReadWord(add))))
    ensures ReadValue(mem, add) == Answer(regs, OpOf(ReadWord(add)))
  {
    RequestMeaning(0, add);
  }

  /** One access does to the registers, and answers, what it does on a plain memory. */
  lemma CallPlain(mem: Plain, regs: Registers, c: Call)
    requires Agree(mem, regs)
    ensures Agree(PlainStep(mem, c), EffectOf(regs, CallOps(c))) && CallAnswer(regs, c) == PlainAnswer(mem, c)
  {
    match c
    case Call16W(data, add) =>
      EffectOfOne(regs, OpOf(WriteWord(data, add)));
      WritesPlainly(mem, regs, data, add);
    case Call16R(add) =>
      EffectOfOne(regs, OpOf(ReadWord(add)));
      ReadsPlainly(mem, regs, add);
    case Call32W(wide, add) => Write32Plain(mem, regs, wide, add);
    case Call32R(add) =>
      Read32Plain(mem, regs, add);
      Read32Answers(mem, regs, add);
  }

  lemma Write32Plain(mem: Plain, regs: Registers, wide: Word, add: Half)
    requires Agree(mem, regs)
    ensures Agree(PlainStep(mem, Call32W(wide, add)), EffectOf(regs, Write32Ops(wide, add)))
  {
    var first := OpOf(WriteWord(High(wide), add));
    WritesPlainly(mem, regs, High(wide), add);
    WritesPlainly(Poke(mem, add, High(wide)), Effect(regs, first), Low(wide), add + 1);
    EffectOfTwo(regs, Write32Ops(wide, add));
  }

  lemma Read32Plain(mem: Plain, regs: Registers, add: Half)
    requires Agree(mem, regs)
    ensures Agree(PlainStep(mem, Call32R(add)), EffectOf(regs, Read32Ops(add)))
    ensures ReadValue(mem, add) == Answer(regs, Read32Ops(add)[0])
    ensures ReadValue(AfterRead(mem, add), add + 1) == Answer(Effect(regs, Read32Ops(add)[0]), Read32Ops(add)[1])
  {
    var ops := Read32Ops(add);
    FirstRead(mem, regs, add, ops[0]);
    FirstRead(AfterRead(mem, add), Effect(regs, ops[0]), add + 1, ops[1]);
    EffectOfTwo(regs, ops);
  }

  lemma Read32Answers(mem: Plain, regs: Registers, add: Half)
    requires ReadValue(mem, add) == Answer(regs, Read32Ops(add)[0])
    requires ReadValue(AfterRead(mem, add), add + 1) == Answer(Effect(regs, Read32Ops(add)[0]), Read32Ops(add)[1])
    ensures Read32(regs, add) == PlainAnswer(mem, Call32R(add))
  {
  }

  lemma FirstRead(mem: Plain, regs: Registers, add: Half, op: Op)
    requires Agree(mem, regs) && op == OpOf(ReadWord(add))
    ensures Agree(AfterRead(mem, add), Effect(regs, op)) && ReadValue(mem, add) == Answer(regs, op)
  {
    ReadsPlainly(mem, regs, add);
  }

  lemma {:induction false} ProgramPlainAfter(mem: Plain, regs: Registers, calls: seq<Call>, n: nat)
    requires Agree(mem, regs) && n <= |calls|
    ensures Agree(PlainAfter(mem, calls[..n]), RegsAfter(regs, calls, n))
  {
    if n > 0 {
      ProgramPlainAfter(mem, regs, calls, n - 1);
      CallPlain(PlainAfter(mem, calls[..n - 1]), RegsAfter(regs, calls, n - 1), calls[n - 1]);
      assert Front(calls[..n]) == calls[..n - 1];
      ProgramOpsNext(calls, n - 1);
      EffectOfConcat(regs, ProgramOps(calls[..n - 1]), CallOps(calls[n - 1]));
    }
  }

  /**
   * The bus as a plain memory. Whatever accesses the bus carries out, at whatever addresses, the registers end up
   * as a plain memory would, and every read answers what that memory holds at its place in the program.
   */
  lemma ProgramPlain(mem: Plain, m0: Master, calls: seq<Call>, m: Master, answers: seq<Word>)
    requires Agree(mem, m0.regs) && RanProgram(m0, calls, m, answers)
    ensures Agree(PlainAfter(mem, calls), m.regs)
    ensures forall j :: 0 <= j < |calls| ==> answers[j] == PlainAnswer(PlainAfter(mem, calls[..j]), calls[j])
  {
    ProgramPlainAfter(mem, m0.regs, calls, |calls|);
    assert calls[..|calls|] == calls;
    forall j | 0 <= j < |calls| ensures answers[j] == PlainAnswer(PlainAfter(mem, calls[..j]), calls[j]) {
      ProgramPlainAfter(mem, m0.regs, calls, j);
      CallPlain(PlainAfter(mem, calls[..j]), RegsAfter(m0.regs, calls, j), calls[j]);
    }
  }
}
