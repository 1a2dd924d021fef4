/** The PLB memory test as a program on a possibly faulty memory. */
module MemoryTest {
  import opened Basics
  import opened Words

  /** Bits of a cell that always read 0, or else always read 1. */
  datatype Stuck = Stuck(zero: Word, one: Word)

  /**
   * A memory behind the bridge. A byte offset selects any list of cells: none (nothing drives the bus, which
   * then reads as `idle`), one, or several, and different offsets may select the same cell. A write reaches
   * every selected cell; a read wires the selected cells together, as OR or as AND.
   */
  datatype Chip = Chip(select: nat -> seq<nat>, stuck: nat -> Stuck, idle: Word, wiredOr: bool)

  /** What was last written to each cell; the starting map is any power-up contents, absent cells holding 0. */
  type Cells = map<nat, Word>

  function Held(cells: Cells, c: nat): Word {
    if c in cells then cells[c] else Zero()
  }

  /** What cell c drives onto the bus. */
  function Seen(chip: Chip, cells: Cells, c: nat): Word {
    seq(WIDTH, i requires 0 <= i < WIDTH => (Held(cells, c)[i] || chip.stuck(c).one[i]) && !chip.stuck(c).zero[i])
  }

  function Join(chip: Chip, x: Word, y: Word): Word {
    seq(WIDTH, i requires 0 <= i < WIDTH => if chip.wiredOr then x[i] || y[i] else x[i] && y[i])
  }

  function Wired(chip: Chip, cells: Cells, sel: seq<nat>): Word {
    if sel == [] then chip.idle
    else if |sel| == 1 then Seen(chip, cells, sel[0])
    else Join(chip, Seen(chip, cells, sel[0]), Wired(chip, cells, sel[1..]))
  }

  function Load(chip: Chip, cells: Cells, offset: nat): Word {
    Wired(chip, cells, chip.select(offset))
  }

  function Store(chip: Chip, cells: Cells, offset: nat, v: Word): Cells {
    cells + map c | c in chip.select(offset) :: v
  }

  // Words are numbered from 0; word k is at byte offset 4 * k.

  function At(chip: Chip, k: nat): seq<nat> {
    chip.select(4 * k)
  }

  function LoadWord(chip: Chip, cells: Cells, k: nat): Word {
    Load(chip, cells, 4 * k)
  }

  function StoreWord(chip: Chip, cells: Cells, k: nat, v: Word): Cells {
    Store(chip, cells, 4 * k, v)
  }

  /** DATA_CNT, four times MEM_DEPTH, is an unsigned 32-bit integer. */
  predicate GoodDepth(depth: nat) {
    4 * depth < U32_RANGE
  }

  datatype Pattern = Rising | Falling | Checkered | Complement

  /** What MemeTest writes at a byte offset of a memory of dataCnt bytes. */
  function Datum(p: Pattern, dataCnt: nat, offset: nat): Word
    requires offset <= dataCnt
  {
    ToWord(match p
           case Rising => offset
           case Falling => dataCnt - offset
           case Checkered => 0xAAAAAAAA
           case Complement => 0x55555555)
  }

  /** What it writes to word k. */
  function Data(p: Pattern, depth: nat, k: nat): Word
    requires k <= depth
  {
    Datum(p, 4 * depth, 4 * k)
  }

  /** The cells after the first n words were written in ascending order. */
  function Written(chip: Chip, cells: Cells, p: Pattern, depth: nat, n: nat): Cells
    requires n <= depth
  {
    if n == 0 then cells
    else StoreWord(chip, Written(chip, cells, p, depth, n - 1), n - 1, Data(p, depth, n - 1))
  }

  lemma WrittenNext(chip: Chip, cells: Cells, p: Pattern, depth: nat, k: nat)
    requires k < depth
    ensures Written(chip, cells, p, depth, k + 1)
            == Store(chip, Written(chip, cells, p, depth, k), 4 * k, Datum(p, 4 * depth, 4 * k))
  {
  }

  ghost predicate ReadsBack(chip: Chip, cells: Cells, p: Pattern, depth: nat, k: nat)
    requires k <= depth
  {
    LoadWord(chip, cells, k) == Data(p, depth, k)
  }

  /** Every word reads back right after the pattern was written everywhere. */
  ghost predicate Holds(chip: Chip, cells: Cells, p: Pattern, depth: nat) {
    forall k :: 0 <= k < depth ==> ReadsBack(chip, Written(chip, cells, p, depth, depth), p, depth, k)
  }

  function AfterRising(chip: Chip, cells: Cells, depth: nat): Cells { Written(chip, cells, Rising, depth, depth) }
  function AfterFalling(chip: Chip, cells: Cells, depth: nat): Cells {
    Written(chip, AfterRising(chip, cells, depth), Falling, depth, depth)
  }
  function AfterCheckered(chip: Chip, cells: Cells, depth: nat): Cells {
    Written(chip, AfterFalling(chip, cells, depth), Checkered, depth, depth)
  }

  /** How many of the four patterns read back wrong, each written over the one before. */
  ghost function Misses(chip: Chip, cells: Cells, depth: nat): nat {
    (if Holds(chip, cells, Rising, depth) then 0 else 1)
    + (if Holds(chip, AfterRising(chip, cells, depth), Falling, depth) then 0 else 1)
    + (if Holds(chip, AfterFalling(chip, cells, depth), Checkered, depth) then 0 else 1)
    + (if Holds(chip, AfterCheckered(chip, cells, depth), Complement, depth) then 0 else 1)
  }

  class Memory {
    const chip: Chip
    var cells: Cells

    constructor (chip: Chip, cells: Cells)
      ensures this.chip == chip && this.cells == cells
    {
      this.chip, this.cells := chip, cells;
    }

    /** PLB_MEM_RW. */
    method Access(write: bool, offset: nat, data: Word) returns (read: Word)
      modifies this
      ensures cells == if write then Store(chip, old(cells), offset, data) else old(cells)
      ensures read == if write then Zero() else Load(chip, cells, offset)
    {
      read := Zero();
      if !write {
        read := Wired(chip, cells, chip.select(offset));
      } else {
        cells := cells + map c | c in chip.select(offset) :: data;
      }
    }

    /** A writing loop of MemeTest. */
    method Fill(p: Pattern, depth: nat)
      requires GoodDepth(depth)
      modifies this
      ensures cells == Written(chip, old(cells), p, depth, depth)
    {
      var index := 0;
      ghost var k := 0;
      while index < 4 * depth
        invariant index == 4 * k && k <= depth
        invariant cells == Written(chip, old(cells), p, depth, k)
      {
        WrittenNext(chip, old(cells), p, depth, k);
        var _ := Access(true, index, Datum(p, 4 * depth, index));
        index, k := index + 4, k + 1;
      }
    }

    /** A checking loop of MemeTest: it stops at the first wrong word. */
    method Check(p: Pattern, depth: nat) returns (failed: bool)
      requires GoodDepth(depth)
      modifies this
      ensures cells == old(cells)
      ensures !failed <==> forall k :: 0 <= k < depth ==> ReadsBack(chip, cells, p, depth, k)
    {
      failed := false;
      var index := 0;
      ghost var k := 0;
      while index < 4 * depth
        invariant index == 4 * k && k <= depth && cells == old(cells) && !failed
        invariant forall j :: 0 <= j < k ==> ReadsBack(chip, cells, p, depth, j)
      {
        var read := Access(false, index, Zero());
        if read != Datum(p, 4 * depth, index) {
          assert !ReadsBack(chip, cells, p, depth, k);
          failed := true;
          break;
        }
        index, k := index + 4, k + 1;
      }
    }

    /** One writing loop and the checking loop after it. */
    method RunPattern(p: Pattern, depth: nat) returns (failed: bool)
      requires GoodDepth(depth)
      modifies this
      ensures cells == Written(chip, old(cells), p, depth, depth)
      ensures !failed <==> Holds(chip, old(cells), p, depth)
    {
      Fill(p, depth);
      failed := Check(p, depth);
    }

    /** MemeTest: the number of patterns that read back wrong. The last pattern written stays in the memory. */
    method MemeTest(depth: nat) returns (errors: nat)
      requires GoodDepth(depth)
      modifies this
      ensures errors == Misses(chip, old(cells), depth)
      ensures cells == Written(chip, AfterCheckered(chip, old(cells), depth), Complement, depth, depth)
    {
      errors := 0;
      var failed := RunPattern(Rising, depth);
      if failed { errors := errors + 1; }
      failed := RunPattern(Falling, depth);
      if failed { errors := errors + 1; }
      failed := RunPattern(Checkered, depth);
      if failed { errors := errors + 1; }
      failed := RunPattern(Complement, depth);
      if failed { errors := errors + 1; }
    }
  }
}
