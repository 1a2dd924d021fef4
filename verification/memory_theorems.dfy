/** Which faults the memory test finds: all of a fault model, and where that model ends. */
module MemoryTheorems {
  import opened Basics
  import opened Words
  import opened MemoryTest

  // ---- The fault model ----

  ghost predicate Unstuck(chip: Chip, c: nat) {
    forall i :: 0 <= i < WIDTH ==> !chip.stuck(c).zero[i] && !chip.stuck(c).one[i]
  }

  /** Every word's offset selects some cell, no cell is selected by two of them, and none is stuck. */
  ghost predicate Healthy(chip: Chip, depth: nat) {
    && (forall o: nat :: o < depth ==> At(chip, o) != [])
    && (forall o: nat, c :: o < depth && c in At(chip, o) ==> Unstuck(chip, c))
    && (forall o: nat, p: nat, c :: o < depth && p < depth && c in At(chip, o) && c in At(chip, p) ==> o == p)
  }

  /** No word has both kinds of fault: where several cells answer together, none of them is stuck. */
  ghost predicate OneKindPerWord(chip: Chip, depth: nat) {
    forall o: nat, c, d :: o < depth && c in At(chip, o) && d in At(chip, o) && c != d ==> Unstuck(chip, c)
  }

  // ---- What a pattern leaves in a cell ----

  /** The last of the first n words whose write reaches cell c. */
  ghost function LastWriter(chip: Chip, c: nat, n: nat): nat {
    if n == 0 then 0 else if c in At(chip, n - 1) then n - 1 else LastWriter(chip, c, n - 1)
  }

  lemma {:induction false} WrittenByLast(chip: Chip, cells: Cells, p: Pattern, depth: nat, n: nat, c: nat, o: nat)
    requires n <= depth && o < n && c in At(chip, o)
    ensures var w := LastWriter(chip, c, n);
            && o <= w < n && c in At(chip, w)
            && Held(Written(chip, cells, p, depth, n), c) == Data(p, depth, w)
  {
    if c !in At(chip, n - 1) {
      WrittenByLast(chip, cells, p, depth, n - 1, c, o);
    }
  }

  lemma SeenUnstuck(chip: Chip, cells: Cells, c: nat)
    requires Unstuck(chip, c)
    ensures Seen(chip, cells, c) == Held(cells, c)
  {
  }

  /** Wiring identical values changes nothing. */
  lemma {:induction false} WiredSame(chip: Chip, cells: Cells, sel: seq<nat>, v: Word)
    requires sel != [] && forall c <- sel :: Seen(chip, cells, c) == v
    ensures Wired(chip, cells, sel) == v
  {
    assert sel[0] in sel;
    if |sel| > 1 {
      WiredSame(chip, cells, sel[1..], v);
      assert Join(chip, v, v) == v;
    }
  }

  /** The bus shows at most, or at least, the bits of each cell. */
  lemma {:induction false} WiredBounds(chip: Chip, cells: Cells, sel: seq<nat>, c: nat)
    requires c in sel
    ensures if chip.wiredOr then Within(Seen(chip, cells, c), Wired(chip, cells, sel))
            else Within(Wired(chip, cells, sel), Seen(chip, cells, c))
  {
    if |sel| > 1 && c != sel[0] {
      assert c in sel[1..];
      WiredBounds(chip, cells, sel[1..], c);
    }
  }

  /** What an unstuck cell of word o holds bounds what the word reads as. */
  lemma SharedBits(chip: Chip, cells: Cells, o: nat, c: nat)
    requires c in At(chip, o) && Unstuck(chip, c)
    ensures if chip.wiredOr then Within(Held(cells, c), LoadWord(chip, cells, o))
            else Within(LoadWord(chip, cells, o), Held(cells, c))
  {
    SeenUnstuck(chip, cells, c);
    WiredBounds(chip, cells, At(chip, o), c);
  }

  // ---- Soundness ----

  lemma HealthyHolds(chip: Chip, cells: Cells, p: Pattern, depth: nat)
    requires GoodDepth(depth) && Healthy(chip, depth)
    ensures Holds(chip, cells, p, depth)
  {
    var after := Written(chip, cells, p, depth, depth);
    forall o: nat | o < depth ensures ReadsBack(chip, after, p, depth, o) {
      forall c <- At(chip, o) ensures Seen(chip, after, c) == Data(p, depth, o) {
        WrittenByLast(chip, cells, p, depth, depth, c, o);
        SeenUnstuck(chip, after, c);
      }
      WiredSame(chip, after, At(chip, o), Data(p, depth, o));
    }
  }

  // ---- Completeness ----

  /** The two checkered patterns find a word without a cell and a cell with a stuck bit. */
  lemma CheckersFindStuck(chip: Chip, cells1: Cells, cells2: Cells, depth: nat, o: nat)
    requires GoodDepth(depth) && OneKindPerWord(chip, depth) && o < depth
    requires Holds(chip, cells1, Checkered, depth) && Holds(chip, cells2, Complement, depth)
    ensures At(chip, o) != [] && forall c <- At(chip, o) :: Unstuck(chip, c)
  {
    var after1 := Written(chip, cells1, Checkered, depth, depth);
    var after2 := Written(chip, cells2, Complement, depth, depth);
    assert ReadsBack(chip, after1, Checkered, depth, o) && ReadsBack(chip, after2, Complement, depth, o);
    CheckerBits(0);
    var sel := At(chip, o);
    forall c <- sel ensures Unstuck(chip, c) {
      if forall d <- sel :: d == c {
        WiredSame(chip, after1, sel, Seen(chip, after1, c));
        WiredSame(chip, after2, sel, Seen(chip, after2, c));
        WrittenByLast(chip, cells1, Checkered, depth, depth, c, o);
        WrittenByLast(chip, cells2, Complement, depth, depth, c, o);
        CheckeredCellUnstuck(chip, after1, after2, c);
      }
    }
  }

  lemma CheckeredCellUnstuck(chip: Chip, cells1: Cells, cells2: Cells, c: nat)
    requires Held(cells1, c) == Seen(chip, cells1, c) == ToWord(0xAAAAAAAA)
    requires Held(cells2, c) == Seen(chip, cells2, c) == ToWord(0x55555555)
    ensures Unstuck(chip, c)
  {
    forall i | 0 <= i < WIDTH ensures !chip.stuck(c).zero[i] && !chip.stuck(c).one[i] {
      CheckerBits(i);
      assert Seen(chip, cells1, c)[i] == (i % 2 == 1) && Seen(chip, cells2, c)[i] == (i % 2 == 0);
    }
  }

  lemma RampOrders(p: Pattern, depth: nat, j: nat, k: nat)
    requires GoodDepth(depth) && (p == Rising || p == Falling) && j < depth && k < depth
    requires Within(Data(p, depth, j), Data(p, depth, k))
    ensures if p == Rising then j <= k else k <= j
  {
    if p == Rising {
      WithinOrders(4 * j, 4 * k);
    } else {
      WithinOrders(4 * depth - 4 * j, 4 * depth - 4 * k);
    }
  }

  /** On an OR-wired bus the rising ramp finds every unstuck cell that a later offset also writes. */
  lemma RisingFindsSharing(chip: Chip, cells: Cells, depth: nat, o: nat, c: nat)
    requires GoodDepth(depth) && o < depth && c in At(chip, o) && Unstuck(chip, c)
    requires chip.wiredOr && Holds(chip, cells, Rising, depth)
    ensures LastWriter(chip, c, depth) == o
  {
    var w, after := LastWriter(chip, c, depth), Written(chip, cells, Rising, depth, depth);
    assert ReadsBack(chip, after, Rising, depth, o);
    WrittenByLast(chip, cells, Rising, depth, depth, c, o);
    SharedBits(chip, after, o, c);
    RampOrders(Rising, depth, w, o);
  }

  /** On an AND-wired bus the falling ramp does. */
  lemma FallingFindsSharing(chip: Chip, cells: Cells, depth: nat, o: nat, c: nat)
    requires GoodDepth(depth) && o < depth && c in At(chip, o) && Unstuck(chip, c)
    requires !chip.wiredOr && Holds(chip, cells, Falling, depth)
    ensures LastWriter(chip, c, depth) == o
  {
    var w, after := LastWriter(chip, c, depth), Written(chip, cells, Falling, depth, depth);
    assert ReadsBack(chip, after, Falling, depth, o);
    WrittenByLast(chip, cells, Falling, depth, depth, c, o);
    SharedBits(chip, after, o, c);
    RampOrders(Falling, depth, o, w);
  }

  /**
   * The memory test is a sound and complete detector. At any depth, for any decoding of offsets to cells, any
   * stuck bits, either bus polarity and any initial contents, as long as no word combines both kinds of
   * fault, MemeTest counts zero errors exactly when the memory is fault-free.
   */
  lemma DetectsExactly(chip: Chip, cells: Cells, depth: nat)
    requires GoodDepth(depth) && OneKindPerWord(chip, depth)
    ensures Misses(chip, cells, depth) == 0 <==> Healthy(chip, depth)
  {
    var c1, c2 := AfterRising(chip, cells, depth), AfterFalling(chip, cells, depth);
    var c3 := AfterCheckered(chip, cells, depth);
    if Healthy(chip, depth) {
      HealthyHolds(chip, cells, Rising, depth);
      HealthyHolds(chip, c1, Falling, depth);
      HealthyHolds(chip, c2, Checkered, depth);
      HealthyHolds(chip, c3, Complement, depth);
    }
    if Misses(chip, cells, depth) == 0 {
      forall o: nat | o < depth
        ensures At(chip, o) != []
        ensures forall c <- At(chip, o) :: Unstuck(chip, c) && LastWriter(chip, c, depth) == o
      {
        CheckersFindStuck(chip, c2, c3, depth, o);
        forall c <- At(chip, o) ensures LastWriter(chip, c, depth) == o {
          if chip.wiredOr {
            RisingFindsSharing(chip, cells, depth, o, c);
          } else {
            FallingFindsSharing(chip, c1, depth, o, c);
          }
        }
      }
    }
  }

  /**
   * What passing buys: after a pass the tested words behave as random-access memory for every data, not just
   * the four patterns. A word reads back what was stored in it, and storing elsewhere does not disturb it.
   */
  lemma PassingIsRam(chip: Chip, cells: Cells, depth: nat, now: Cells, o: nat, p: nat, v: Word)
    requires GoodDepth(depth) && OneKindPerWord(chip, depth) && Misses(chip, cells, depth) == 0
    requires o < depth && p < depth
    ensures LoadWord(chip, StoreWord(chip, now, o, v), o) == v
    ensures o != p ==> LoadWord(chip, StoreWord(chip, now, p, v), o) == LoadWord(chip, now, o)
  {
    DetectsExactly(chip, cells, depth);
    StoredReadsBack(chip, StoreWord(chip, now, o, v), o, v);
    if o != p {
      StoredElsewhere(chip, now, o, p, v);
    }
  }

  lemma StoredElsewhere(chip: Chip, cells: Cells, o: nat, p: nat, v: Word)
    requires forall c <- At(chip, o) :: c !in At(chip, p)
    ensures LoadWord(chip, StoreWord(chip, cells, p, v), o) == LoadWord(chip, cells, o)
  {
    WiredAgree(chip, cells, StoreWord(chip, cells, p, v), At(chip, o));
  }

  lemma StoredReadsBack(chip: Chip, cells: Cells, o: nat, v: Word)
    requires At(chip, o) != [] && forall c <- At(chip, o) :: Unstuck(chip, c) && Held(cells, c) == v
    ensures LoadWord(chip, cells, o) == v
  {
    forall c <- At(chip, o) ensures Seen(chip, cells, c) == v {
      SeenUnstuck(chip, cells, c);
    }
    WiredSame(chip, cells, At(chip, o), v);
  }

  lemma {:induction false} WiredAgree(chip: Chip, cells1: Cells, cells2: Cells, sel: seq<nat>)
    requires forall c <- sel :: Held(cells1, c) == Held(cells2, c)
    ensures Wired(chip, cells1, sel) == Wired(chip, cells2, sel)
  {
    if sel != [] {
      assert sel[0] in sel;
      assert Seen(chip, cells1, sel[0]) == Seen(chip, cells2, sel[0]);
      if |sel| > 1 {
        WiredAgree(chip, cells1, cells2, sel[1..]);
      }
    }
  }

  /** With one cell or none behind every offset, the stuck bits may be anything. */
  lemma SingleCellWords(chip: Chip, depth: nat)
    requires forall k: nat :: k < depth ==> |At(chip, k)| <= 1
    ensures OneKindPerWord(chip, depth)
  {
  }

  // ---- main's repeat loop ----

  /** What a pattern finds does not depend on what the memory held before: every cell a word reads from has
      just been written. */
  lemma HoldsIgnoresContents(chip: Chip, cells1: Cells, cells2: Cells, p: Pattern, depth: nat)
    ensures Holds(chip, cells1, p, depth) <==> Holds(chip, cells2, p, depth)
  {
    var after1, after2 := Written(chip, cells1, p, depth, depth), Written(chip, cells2, p, depth, depth);
    forall k | 0 <= k < depth
      ensures ReadsBack(chip, after1, p, depth, k) <==> ReadsBack(chip, after2, p, depth, k)
    {
      forall c <- At(chip, k) ensures Held(after1, c) == Held(after2, c) {
        WrittenByLast(chip, cells1, p, depth, depth, c, k);
        WrittenByLast(chip, cells2, p, depth, depth, c, k);
      }
      WiredAgree(chip, after1, after2, At(chip, k));
    }
  }

  /** So two runs of MemeTest on one memory count the same errors, for any decoding and any stuck bits. */
  lemma MissesRepeat(chip: Chip, cells1: Cells, cells2: Cells, depth: nat)
    ensures Misses(chip, cells1, depth) == Misses(chip, cells2, depth)
  {
    HoldsIgnoresContents(chip, cells1, cells2, Rising, depth);
    HoldsIgnoresContents(chip, AfterRising(chip, cells1, depth), AfterRising(chip, cells2, depth), Falling, depth);
    HoldsIgnoresContents(chip, AfterFalling(chip, cells1, depth), AfterFalling(chip, cells2, depth), Checkered, depth);
    HoldsIgnoresContents(chip, AfterCheckered(chip, cells1, depth), AfterCheckered(chip, cells2, depth),
                         Complement, depth);
  }

  const LOOP_MAX: nat := 1024

  /** main: repeat the test until it has counted errors. All 1024 passes say what the first one says. */
  method RepeatTest(mem: Memory, depth: nat) returns (errorsCount: nat, passes: nat)
    requires GoodDepth(depth)
    modifies mem
    ensures errorsCount == Misses(mem.chip, old(mem.cells), depth)
    ensures passes == if errorsCount == 0 then 1024 else 1
    ensures OneKindPerWord(mem.chip, depth) ==> (errorsCount == 0 <==> Healthy(mem.chip, depth))
  {
    errorsCount, passes := 0, 0;
    ghost var cells := mem.cells;
    while passes < LOOP_MAX
      invariant passes <= LOOP_MAX && errorsCount == 0
      invariant passes > 0 ==> Misses(mem.chip, cells, depth) == 0
    {
      MissesRepeat(mem.chip, cells, mem.cells, depth);
      var errors := mem.MemeTest(depth);
      errorsCount := errorsCount + errors;
      passes := passes + 1;
      if errorsCount != 0 {
        break;
      }
    }
    if OneKindPerWord(mem.chip, depth) {
      DetectsExactly(mem.chip, cells, depth);
    }
  }

  // ---- Both ramps are needed ----

  function Faultless(): Stuck {
    Stuck(Zero(), Zero())
  }

  lemma TwoCells(chip: Chip, cells: Cells, a: nat, b: nat)
    ensures Wired(chip, cells, [a, b]) == Join(chip, Seen(chip, cells, a), Seen(chip, cells, b))
  {
    assert [a, b][1..] == [b];
  }

  /** Word 0 also drives word 1's cell, on an AND-wired bus. */
  function SharedAnd(): Chip {
    Chip((o: nat) => if o == 0 then [0, 1] else [o / 4], (c: nat) => Faultless(), Zero(), false)
  }

  lemma SharedAndParts(k: nat)
    ensures var chip := SharedAnd();
            At(chip, k) == (if k == 0 then [0, 1] else [k]) && !chip.wiredOr && Unstuck(chip, k)
  {
    assert SharedAnd().select(4 * k) == if 4 * k == 0 then [0, 1] else [4 * k / 4];
    assert SharedAnd().stuck(k) == Faultless();
  }

  lemma {:induction false} SharedAndWriters(c: nat, n: nat)
    ensures c < n ==> LastWriter(SharedAnd(), c, n) == c
  {
    if n > 0 {
      SharedAndParts(n - 1);
      if c < n - 1 {
        SharedAndWriters(c, n - 1);
      }
    }
  }

  lemma SharedAndHolds(cells: Cells, p: Pattern, depth: nat, k: nat)
    requires 2 <= depth && GoodDepth(depth) && !p.Falling? && k < depth
    ensures ReadsBack(SharedAnd(), Written(SharedAnd(), cells, p, depth, depth), p, depth, k)
  {
    var chip := SharedAnd();
    var after := Written(chip, cells, p, depth, depth);
    SharedAndParts(k);
    SharedAndParts(1);
    SharedAndWriters(k, depth);
    WrittenByLast(chip, cells, p, depth, depth, k, k);
    SeenUnstuck(chip, after, k);
    if k == 0 {
      SharedAndWriters(1, depth);
      WrittenByLast(chip, cells, p, depth, depth, 1, 1);
      SeenUnstuck(chip, after, 1);
      TwoCells(chip, after, 0, 1);
      FirstWithinSecond(p, depth);
      JoinWithin(chip, Data(p, depth, 0), Data(p, depth, 1));
    }
  }

  lemma JoinWithin(chip: Chip, x: Word, y: Word)
    requires !chip.wiredOr && Within(x, y)
    ensures Join(chip, x, y) == x
  {
  }

  lemma FirstWithinSecond(p: Pattern, depth: nat)
    requires 2 <= depth && !p.Falling?
    ensures Within(Data(p, depth, 0), Data(p, depth, 1))
  {
    if p == Rising {
      BitsZero(WIDTH);
      assert Data(p, depth, 0) == Bits(0, WIDTH);
    }
  }

  /** Without the falling ramp, the sharing goes unseen at any depth of at least two words. */
  lemma FallingRampNeeded(cells: Cells, depth: nat)
    requires 2 <= depth && GoodDepth(depth)
    ensures var chip := SharedAnd();
            && !Healthy(chip, depth) && OneKindPerWord(chip, depth)
            && Holds(chip, cells, Rising, depth)
            && Holds(chip, cells, Checkered, depth) && Holds(chip, cells, Complement, depth)
  {
    var chip := SharedAnd();
    forall k | 0 <= k < depth
      ensures forall c <- At(chip, k) :: Unstuck(chip, c)
      ensures ReadsBack(chip, Written(chip, cells, Rising, depth, depth), Rising, depth, k)
      ensures ReadsBack(chip, Written(chip, cells, Checkered, depth, depth), Checkered, depth, k)
      ensures ReadsBack(chip, Written(chip, cells, Complement, depth, depth), Complement, depth, k)
    {
      SharedAndParts(0);
      SharedAndParts(1);
      SharedAndParts(k);
      SharedAndHolds(cells, Rising, depth, k);
      SharedAndHolds(cells, Checkered, depth, k);
      SharedAndHolds(cells, Complement, depth, k);
    }
    SharedAndParts(0);
    SharedAndParts(1);
    assert 1 in At(chip, 0) && 1 in At(chip, 1);
  }

  lemma {:induction false} BitsZero(k: nat)
    ensures forall i :: 0 <= i < k ==> !Bits(0, k)[i]
  {
    if k > 0 {
      BitsZero(k - 1);
    }
  }

  /** The word before the last two also drives the last word's cell, on an OR-wired bus. */
  function SharedOr(depth: nat): Chip
    requires depth >= 3
  {
    Chip((o: nat) => if o / 4 == depth - 3 then [depth - 3, depth - 1] else [o / 4],
         (c: nat) => Faultless(), Zero(), true)
  }

  lemma SharedOrParts(depth: nat, k: nat)
    requires depth >= 3
    ensures var chip := SharedOr(depth);
            && At(chip, k) == (if k == depth - 3 then [depth - 3, depth - 1] else [k])
            && chip.wiredOr && Unstuck(chip, k)
  {
    assert SharedOr(depth).select(4 * k) == if 4 * k / 4 == depth - 3 then [depth - 3, depth - 1] else [4 * k / 4];
    assert SharedOr(depth).stuck(k) == Faultless();
  }

  lemma {:induction false} SharedOrWriters(depth: nat, c: nat, n: nat)
    requires depth >= 3 && n <= depth
    ensures c < n ==> LastWriter(SharedOr(depth), c, n) == c
  {
    if n > 0 {
      SharedOrParts(depth, n - 1);
      if c < n - 1 {
        SharedOrWriters(depth, c, n - 1);
      }
    }
  }

  /** Each cell drives the datum of its own word. */
  lemma SharedOrSeen(cells: Cells, p: Pattern, depth: nat, c: nat)
    requires 3 <= depth && c < depth
    ensures var chip := SharedOr(depth);
            Seen(chip, Written(chip, cells, p, depth, depth), c) == Data(p, depth, c)
  {
    var chip := SharedOr(depth);
    SharedOrParts(depth, c);
    SharedOrWriters(depth, c, depth);
    WrittenByLast(chip, cells, p, depth, depth, c, c);
    SeenUnstuck(chip, Written(chip, cells, p, depth, depth), c);
  }

  lemma SharedOrHolds(cells: Cells, p: Pattern, depth: nat, k: nat)
    requires 3 <= depth && !p.Rising? && k < depth
    ensures ReadsBack(SharedOr(depth), Written(SharedOr(depth), cells, p, depth, depth), p, depth, k)
  {
    var chip := SharedOr(depth);
    SharedOrParts(depth, k);
    SharedOrSeen(cells, p, depth, k);
    if k == depth - 3 {
      SharedOrSeen(cells, p, depth, depth - 1);
      TwoCells(chip, Written(chip, cells, p, depth, depth), k, depth - 1);
      JoinCovers(chip, p, depth);
    }
  }

  lemma JoinCovers(chip: Chip, p: Pattern, depth: nat)
    requires chip.wiredOr && 3 <= depth && !p.Rising?
    ensures Join(chip, Data(p, depth, depth - 3), Data(p, depth, depth - 1)) == Data(p, depth, depth - 3)
  {
    LastWithinEarlier(p, depth);
  }

  /** The falling ramp's last datum is 4 and the one two words earlier is 12. */
  lemma LastWithinEarlier(p: Pattern, depth: nat)
    requires 3 <= depth && !p.Rising?
    ensures Within(Data(p, depth, depth - 1), Data(p, depth, depth - 3))
  {
    if p == Falling {
      FourWithinTwelve(4 * depth - 4 * (depth - 1), 4 * depth - 4 * (depth - 3));
    }
  }

  lemma FourWithinTwelve(four: nat, twelve: nat)
    requires four == 4 && twelve == 12
    ensures Within(ToWord(four), ToWord(twelve))
  {
    BitsZero(WIDTH - 3);
    assert Bits(four / 2 / 2, WIDTH - 2) == [true] + Bits(0, WIDTH - 3);
    assert Bits(four / 2, WIDTH - 1) == [false] + Bits(four / 2 / 2, WIDTH - 2);
    assert ToWord(four) == [false] + Bits(four / 2, WIDTH - 1);
    assert Bits(twelve / 2 / 2, WIDTH - 2)[0];
    assert Bits(twelve / 2, WIDTH - 1) == [false] + Bits(twelve / 2 / 2, WIDTH - 2);
    assert ToWord(twelve) == [false] + Bits(twelve / 2, WIDTH - 1);
  }

  lemma SharedOrPasses(cells: Cells, p: Pattern, depth: nat)
    requires 3 <= depth && GoodDepth(depth) && !p.Rising?
    ensures Holds(SharedOr(depth), cells, p, depth)
  {
    forall k | 0 <= k < depth
      ensures ReadsBack(SharedOr(depth), Written(SharedOr(depth), cells, p, depth, depth), p, depth, k)
    {
      SharedOrHolds(cells, p, depth, k);
    }
  }

  /** Without the rising ramp, that sharing goes unseen at any depth of at least three words. */
  lemma RisingRampNeeded(cells: Cells, depth: nat)
    requires 3 <= depth && GoodDepth(depth)
    ensures var chip := SharedOr(depth);
            && !Healthy(chip, depth) && OneKindPerWord(chip, depth)
            && Holds(chip, cells, Falling, depth)
            && Holds(chip, cells, Checkered, depth) && Holds(chip, cells, Complement, depth)
  {
    var chip := SharedOr(depth);
    SharedOrPasses(cells, Falling, depth);
    SharedOrPasses(cells, Checkered, depth);
    SharedOrPasses(cells, Complement, depth);
    SharedOrParts(depth, depth - 1);
    forall k | 0 <= k < depth
      ensures forall c <- At(chip, k) :: Unstuck(chip, c)
    {
      SharedOrParts(depth, k);
    }
    SharedOrParts(depth, depth - 3);
    assert depth - 1 in At(chip, depth - 3) && depth - 1 in At(chip, depth - 1);
  }
}
