/** Where the fixed-point look-up tables lie in memory, and changing the table in use over the bus. */
module LutLayout {
  import opened Basics
  import opened GpioWords
  import opened WishboneMaster
  import opened GpioBus

  type U32 = n: nat | n < U32_RANGE

  function AsWord(n: U32): Word { n as Word }

  const START_ADD_OFFSET: Half := 0x0C
  const END_ADD_OFFSET: Half := 0x10

  function Wrap(n: int): (w: nat)
    ensures w < U32_RANGE
  {
    n % U32_RANGE
  }

  lemma WrapAdd(a: int, b: int)
    ensures Wrap(Wrap(a) + b) == Wrap(a + b)
  {
  }

  lemma WrapSub(a: int, b: int)
    ensures Wrap(a + b - Wrap(b)) == Wrap(a) && Wrap(a + b + (U32_RANGE - Wrap(b))) == Wrap(a)
  {
  }

  lemma WrapDifference(a: int, b: int, k: int, l: int)
    requires Wrap(a + k) == Wrap(b + l)
    ensures Wrap(b - a) == Wrap(k - l)
  {
  }

  /** First and last address of a table, in unsigned 32-bit arithmetic. */
  function TableStart(size: nat, idx: nat): nat { Wrap(size * idx) }
  function TableEnd(size: nat, idx: nat): nat { Wrap(size * idx + size - 1) }

  class Lutf {
    const add: Half
    var xMin: nat
    var xRange: nat
    var lutSizeM1: U32
    var startAdd: U32
    var endAdd: U32
    var ctrl: nat

    constructor (add: Half)
      ensures this.add == add && xMin == xRange == lutSizeM1 == startAdd == endAdd == ctrl == 0
    {
      this.add := add;
      xMin, xRange, lutSizeM1, startAdd, endAdd, ctrl := 0, 0, 0, 0, 0, 0;
    }

    /** LUTF_SendConfig, up to writing the structure out. */
    method SendConfig(xmin: nat, xrange: nat, lutSize: nat, tableIdx: nat)
      requires xmin < U32_RANGE && xrange < U32_RANGE && lutSize < U32_RANGE && tableIdx < U32_RANGE
      modifies this
      ensures xMin == xmin && xRange == xrange && ctrl == 0
      ensures lutSizeM1 == Wrap(lutSize - 1) && TableSize() == lutSize
      ensures startAdd == TableStart(lutSize, tableIdx) && endAdd == TableEnd(lutSize, tableIdx)
    {
      ConfigAddresses(lutSize, tableIdx);
      xMin, xRange := xmin, xrange;
      lutSizeM1 := Wrap(lutSize - 1);
      startAdd := Wrap(lutSize * tableIdx);
      endAdd := Wrap(startAdd + lutSize - 1);
      ctrl := 0;
    }

    /**
     * LUTF_UpdateTableIdx: the addresses a full configuration with that index gives, for the table size the
     * object holds, wrap-around and size 0 included; and on the twelve-bit bus both address registers of the
     * module read back as them.
     */
    method UpdateTableIdx(bus: Uc2, tableIdx: nat)
      requires tableIdx < U32_RANGE && bus.Valid()
      modifies this`startAdd, this`endAdd, bus
      ensures startAdd == TableStart(TableSize(), tableIdx) && endAdd == TableEnd(TableSize(), tableIdx)
      ensures bus.Valid() && (add < 0x0FE0 ==> Holds(bus.master.regs, add, AsWord(startAdd), AsWord(endAdd)))
    {
      UpdateAddresses(lutSizeM1, tableIdx);
      startAdd := Wrap(Wrap(lutSizeM1 + 1) * tableIdx);
      endAdd := Wrap(startAdd + lutSizeM1);
      WriteAddresses(bus, add, AsWord(startAdd), AsWord(endAdd));
    }

    /** The table size the object holds: the one it was last configured with. */
    function TableSize(): nat
      reads this
    {
      Wrap(lutSizeM1 + 1)
    }
  }

  /** The module's two address registers read as these values. */
  ghost predicate Holds(regs: Registers, add: Half, start: Word, end: Word) {
    Read32(regs, add + START_ADD_OFFSET) == start && Read32(regs, add + END_ADD_OFFSET) == end
  }

  /** The start address is the register at 0x0C, the end address the one at 0x10. */
  lemma RegisterOffsets(add: Half)
    ensures add + START_ADD_OFFSET == add + 0x0C && add + END_ADD_OFFSET == add + 0x10
  {
  }

  method WriteAddresses(bus: Uc2, add: Half, start: Word, end: Word)
    requires bus.Valid()
    modifies bus
    ensures bus.Valid() && (add < 0x0FE0 ==> Holds(bus.master.regs, add, start, end))
  {
    ghost var regs := bus.master.regs;
    var _ := bus.WbWrite32(start, add + START_ADD_OFFSET);
    var _ := bus.WbWrite32(end, add + END_ADD_OFFSET);
    if add < 0x0FE0 {
      Apart(add);
      TwoRegisters(regs, start, add + START_ADD_OFFSET, end, add + END_ADD_OFFSET);
    }
  }

  /** The four cells of the two registers are different twelve-bit addresses. */
  lemma Apart(add: Half)
    requires add < 0x0FE0
    ensures var s, e := add + START_ADD_OFFSET, add + END_ADD_OFFSET;
            s < 0x0FFF && e < 0x0FFF && s != e && s + 1 != e && s != e + 1 && s + 1 != e + 1
  {
  }

  lemma ConfigAddresses(size: nat, idx: nat)
    ensures Wrap(TableStart(size, idx) + size - 1) == TableEnd(size, idx)
    ensures size < U32_RANGE ==> Wrap(Wrap(size - 1) + 1) == size
  {
    StartThenEnd(size * idx, size);
    SizeKept(size);
  }

  lemma SizeKept(size: nat)
    ensures size < U32_RANGE ==> Wrap(Wrap(size - 1) + 1) == size
  {
    WrapAdd(size - 1, 1);
  }

  lemma StartThenEnd(start: nat, size: nat)
    ensures Wrap(Wrap(start) + size - 1) == Wrap(start + size - 1)
  {
    WrapAdd(start, size - 1);
  }

  lemma UpdateAddresses(m1: U32, idx: nat)
    ensures Wrap(TableStart(Wrap(m1 + 1), idx) + m1) == TableEnd(Wrap(m1 + 1), idx)
  {
    var size := Wrap(m1 + 1);
    SizeRoundTrip(m1);
    EndFromStart(size * idx, size, m1);
  }

  lemma SizeRoundTrip(m1: U32)
    ensures Wrap(Wrap(m1 + 1) - 1) == m1
  {
    WrapAdd(m1 + 1, -1);
  }

  lemma EndFromStart(start: nat, size: nat, m1: nat)
    requires m1 == Wrap(size - 1)
    ensures Wrap(Wrap(start) + m1) == Wrap(start + size - 1)
  {
    WrapTwo(start, size - 1);
  }

  lemma WrapTwo(a: int, b: int)
    ensures Wrap(Wrap(a) + Wrap(b)) == Wrap(a + b)
  {
    WrapAdd(a, Wrap(b));
    WrapAdd(b, a);
  }

  /** The registers with `data` written to the two cells from `add`. */
  ghost predicate Stored(regs: Registers, data: Word, add: Half, after: Registers)
    requires add < 0x0FFF
  {
    && Read32(after, add) == data
    && forall other: Half :: other != add && other != add + 1 ==> Peek(after, other) == Peek(regs, other)
  }

  lemma WriteStores(regs: Registers, data: Word, add: Half)
    requires add < 0x0FFF
    ensures Stored(regs, data, add, EffectOf(regs, Write32Ops(data, add)))
  {
    forall other: Half ensures var after := EffectOf(regs, Write32Ops(data, add));
                               Read32(after, add) == data
                               && (other != add && other != add + 1 ==> Peek(after, other) == Peek(regs, other)) {
      RegisterRoundTrip(regs, data, add, other);
    }
  }

  /** Two 32-bit writes to different cells do not disturb each other. */
  lemma TwoRegisters(regs: Registers, data1: Word, add1: Half, data2: Word, add2: Half)
    requires add1 < 0x0FFF && add2 < 0x0FFF
    requires add1 != add2 && add1 + 1 != add2 && add1 != add2 + 1 && add1 + 1 != add2 + 1
    ensures var after := EffectOf(EffectOf(regs, Write32Ops(data1, add1)), Write32Ops(data2, add2));
            Read32(after, add1) == data1 && Read32(after, add2) == data2
  {
    var mid := EffectOf(regs, Write32Ops(data1, add1));
    WriteStores(regs, data1, add1);
    WriteStores(mid, data2, add2);
    Survives(mid, add1, data2, add2, EffectOf(mid, Write32Ops(data2, add2)));
  }

  lemma Survives(regs: Registers, add1: Half, data2: Word, add2: Half, after: Registers)
    requires add1 < 0x0FFF && add2 < 0x0FFF && Stored(regs, data2, add2, after)
    requires add1 != add2 && add1 + 1 != add2 && add1 != add2 + 1 && add1 + 1 != add2 + 1
    ensures Read32(after, add1) == Read32(regs, add1)
  {
    SameHalves(regs, after, add1);
  }

  /** Registers that agree on both halves read the same. */
  lemma SameHalves(regs1: Registers, regs2: Registers, add: Half)
    requires add < 0x0FFF
    requires Peek(regs1, add) == Peek(regs2, add) && Peek(regs1, add + 1) == Peek(regs2, add + 1)
    ensures Read32(regs1, add) == Read32(regs2, add)
  {
    TwelveBits(add);
    NoHighBits(add);
    NoHighBits(add + 1);
    Read32Of(regs1, add);
    Read32Of(regs2, add);
  }

  // ---- The tables' address ranges ----

  /** Consecutive tables abut, in wrapping arithmetic, whatever the size and index. */
  lemma TablesAbut(size: nat, idx: nat)
    ensures Wrap(TableEnd(size, idx) + 1) == TableStart(size, idx + 1)
  {
    assert size * (idx + 1) == size * idx + size;
    WrapAdd(size * idx + size - 1, 1);
  }

  function Spot(a: nat, k: nat): nat { Wrap(a + k) }

  /** Ranges of `size` cells from a and from b share a cell. */
  ghost predicate Meets(a: nat, b: nat, size: nat) {
    exists k: nat, l: nat :: k < size && l < size && Spot(a, k) == Spot(b, l)
  }

  ghost predicate Overlap(size: nat, i: nat, j: nat) {
    Meets(size * i, size * j, size)
  }

  /** They do exactly when the wrapped distance is less than their size in one direction or the other. */
  lemma MeetsExact(a: nat, b: nat, size: nat)
    requires size >= 1
    ensures var d := Wrap(b - a); Meets(a, b, size) <==> d < size || d > U32_RANGE - size
  {
    var d := Wrap(b - a);
    if d < size {
      WrapAdd(b - a, a);
      assert Spot(a, d) == Spot(b, 0);
    } else if d > U32_RANGE - size {
      WrapSub(a, b - a);
      assert Spot(a, 0) == Spot(b, U32_RANGE - d);
    }
    if Meets(a, b, size) {
      var k: nat, l: nat :| k < size && l < size && Spot(a, k) == Spot(b, l);
      WrapDifference(a, b, k, l);
    }
  }

  /** Tables i and j overlap exactly when the wrapped distance of their starts is less than a table. */
  lemma OverlapExact(size: nat, i: nat, j: nat)
    requires size >= 1
    ensures var d := Wrap(size * j - size * i); Overlap(size, i, j) <==> d < size || d > U32_RANGE - size
  {
    MeetsExact(size * i, size * j, size);
  }

  /** Without overflow, the tables are disjoint ranges in index order. */
  lemma TablesDisjoint(size: nat, i: nat, j: nat)
    requires size >= 1 && i < j && size * (j + 1) <= U32_RANGE
    ensures TableStart(size, i) <= TableEnd(size, i) < TableStart(size, j) <= TableEnd(size, j)
    ensures TableStart(size, i) == size * i && TableEnd(size, i) == size * i + size - 1
    ensures !Overlap(size, i, j)
  {
    assert size * i + size == size * (i + 1);
    assert size * j + size == size * (j + 1);
    Ordered(size, i + 1, j);
    RangesApart(size, size * i, size * j);
  }

  lemma RangesApart(size: nat, a: nat, b: nat)
    requires size >= 1 && a + size <= b && b + size <= U32_RANGE
    ensures Wrap(a) == a && Wrap(a + size - 1) == a + size - 1 && Wrap(b) == b && Wrap(b + size - 1) == b + size - 1
    ensures !Meets(a, b, size)
  {
    MeetsExact(a, b, size);
  }

  lemma Ordered(size: nat, i: nat, j: nat)
    requires i <= j
    ensures size * i <= size * j
  {
  }
}
