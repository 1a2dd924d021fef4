/** Exactly which memories pass the memory test, and for which decodings passing means working. */
module MemoryBoundary {
  import opened Basics
  import opened Words
  import opened MemoryTest
  import opened MemoryTheorems

  // One bit lane at a time. The bus shows the value wiredOr (1 on an OR bus, 0 on an AND bus) as soon as one of
  // the selected cells drives it: the dominant value.

  /** Bit i of cell c is not stuck. */
  predicate Live(chip: Chip, c: nat, i: nat)
    requires i < WIDTH
  {
    !chip.stuck(c).zero[i] && !chip.stuck(c).one[i]
  }

  /** It is stuck at the dominant value. */
  predicate Jams(chip: Chip, c: nat, i: nat)
    requires i < WIDTH
  {
    if chip.wiredOr then chip.stuck(c).one[i] && !chip.stuck(c).zero[i] else chip.stuck(c).zero[i]
  }

  lemma SeenBit(chip: Chip, cells: Cells, c: nat, i: nat)
    requires i < WIDTH
    ensures Seen(chip, cells, c)[i] == chip.wiredOr <==>
            Jams(chip, c, i) || (Live(chip, c, i) && Held(cells, c)[i] == chip.wiredOr)
  {
  }

  lemma {:induction false} WiredBit(chip: Chip, cells: Cells, sel: seq<nat>, i: nat)
    requires sel != [] && i < WIDTH
    ensures Wired(chip, cells, sel)[i] == chip.wiredOr <==>
            exists c <- sel :: Seen(chip, cells, c)[i] == chip.wiredOr
  {
    if |sel| > 1 {
      WiredBit(chip, cells, sel[1..], i);
      assert sel == [sel[0]] + sel[1..];
    }
  }

  ghost predicate AnyLive(chip: Chip, o: nat, i: nat)
    requires i < WIDTH
  {
    exists c <- At(chip, o) :: Live(chip, c, i)
  }

  ghost predicate AnyJams(chip: Chip, o: nat, i: nat)
    requires i < WIDTH
  {
    exists c <- At(chip, o) :: Jams(chip, c, i)
  }

  /** Some live cell of word o holds the dominant value. */
  ghost predicate AnyDrives(chip: Chip, cells: Cells, o: nat, i: nat)
    requires i < WIDTH
  {
    exists c <- At(chip, o) :: Live(chip, c, i) && Held(cells, c)[i] == chip.wiredOr
  }

  lemma LoadBit(chip: Chip, cells: Cells, o: nat, i: nat)
    requires At(chip, o) != [] && i < WIDTH
    ensures LoadWord(chip, cells, o)[i] == chip.wiredOr <==> AnyJams(chip, o, i) || AnyDrives(chip, cells, o, i)
  {
    WiredBit(chip, cells, At(chip, o), i);
    forall c <- At(chip, o)
      ensures Seen(chip, cells, c)[i] == chip.wiredOr <==>
              Jams(chip, c, i) || (Live(chip, c, i) && Held(cells, c)[i] == chip.wiredOr)
    {
      SeenBit(chip, cells, c, i);
    }
  }

  // ---- Which memories pass ----

  ghost predicate Dominant(chip: Chip, p: Pattern, depth: nat, o: nat, i: nat)
    requires o < depth && i < WIDTH
  {
    Data(p, depth, o)[i] == chip.wiredOr
  }

  /** Some live cell of word o was last written with the dominant value. */
  ghost predicate LastDominant(chip: Chip, p: Pattern, depth: nat, o: nat, i: nat)
    requires o < depth && i < WIDTH
  {
    exists c <- At(chip, o) :: Live(chip, c, i) && Dominates(chip, p, depth, c, i)
  }

  ghost predicate Dominates(chip: Chip, p: Pattern, depth: nat, c: nat, i: nat)
    requires i < WIDTH
  {
    LastWriter(chip, c, depth) < depth && Dominant(chip, p, depth, LastWriter(chip, c, depth), i)
  }

  /** Bit i of word o reads right after pattern p. */
  ghost predicate BitRight(chip: Chip, p: Pattern, depth: nat, o: nat, i: nat)
    requires o < depth && i < WIDTH
  {
    if At(chip, o) == [] then chip.idle[i] == Data(p, depth, o)[i]
    else Dominant(chip, p, depth, o, i) <==> AnyJams(chip, o, i) || LastDominant(chip, p, depth, o, i)
  }

  lemma LastCells(chip: Chip, cells: Cells, p: Pattern, depth: nat, o: nat, i: nat)
    requires o < depth && i < WIDTH
    ensures AnyDrives(chip, Written(chip, cells, p, depth, depth), o, i) <==> LastDominant(chip, p, depth, o, i)
  {
    var after := Written(chip, cells, p, depth, depth);
    forall c <- At(chip, o)
      ensures Held(after, c)[i] == chip.wiredOr <==> Dominates(chip, p, depth, c, i)
    {
      WrittenByLast(chip, cells, p, depth, depth, c, o);
    }
  }

  lemma BitReads(chip: Chip, cells: Cells, p: Pattern, depth: nat, o: nat, i: nat)
    requires o < depth && i < WIDTH
    ensures LoadWord(chip, Written(chip, cells, p, depth, depth), o)[i] == Data(p, depth, o)[i]
            <==> BitRight(chip, p, depth, o, i)
  {
    if At(chip, o) != [] {
      LoadBit(chip, Written(chip, cells, p, depth, depth), o, i);
      LastCells(chip, cells, p, depth, o, i);
    }
  }

  ghost predicate WordRight(chip: Chip, p: Pattern, depth: nat, o: nat)
    requires o < depth
  {
    forall i: nat :: i < WIDTH ==> BitRight(chip, p, depth, o, i)
  }

  lemma WordReads(chip: Chip, cells: Cells, p: Pattern, depth: nat, o: nat)
    requires o < depth
    ensures ReadsBack(chip, Written(chip, cells, p, depth, depth), p, depth, o) <==> WordRight(chip, p, depth, o)
  {
    var seen, want := LoadWord(chip, Written(chip, cells, p, depth, depth), o), Data(p, depth, o);
    forall i: nat | i < WIDTH ensures seen[i] == want[i] <==> BitRight(chip, p, depth, o, i) {
      BitReads(chip, cells, p, depth, o, i);
    }
    if WordRight(chip, p, depth, o) {
      forall i: nat | i < WIDTH ensures seen[i] == want[i] {
        assert BitRight(chip, p, depth, o, i);
      }
      assert seen == want;
    }
  }

  lemma HoldsExact(chip: Chip, cells: Cells, p: Pattern, depth: nat)
    ensures Holds(chip, cells, p, depth) <==> forall o: nat :: o < depth ==> WordRight(chip, p, depth, o)
  {
    forall o: nat | o < depth
      ensures ReadsBack(chip, Written(chip, cells, p, depth, depth), p, depth, o) <==> WordRight(chip, p, depth, o)
    {
      WordReads(chip, cells, p, depth, o);
    }
  }

  /**
   * A bit lane of a word that the test cannot fault: some cell of the word works there, none is stuck at the
   * dominant value, and in both ramps the word's own datum is dominant exactly if that of a working cell's last
   * writer is.
   */
  ghost predicate BitPasses(chip: Chip, depth: nat, o: nat, i: nat)
    requires o < depth && i < WIDTH
  {
    && AnyLive(chip, o, i) && !AnyJams(chip, o, i)
    && (Dominant(chip, Rising, depth, o, i) <==> LastDominant(chip, Rising, depth, o, i))
    && (Dominant(chip, Falling, depth, o, i) <==> LastDominant(chip, Falling, depth, o, i))
  }

  ghost predicate Passes(chip: Chip, depth: nat) {
    forall o: nat, i: nat :: o < depth && i < WIDTH ==> BitPasses(chip, depth, o, i)
  }

  /** In the checkered patterns all words agree, so a lane is dominant exactly if a cell works there. */
  lemma CheckeredLast(chip: Chip, p: Pattern, depth: nat, o: nat, i: nat)
    requires o < depth && i < WIDTH && (p == Checkered || p == Complement)
    ensures LastDominant(chip, p, depth, o, i) <==> Dominant(chip, p, depth, o, i) && AnyLive(chip, o, i)
  {
    forall c <- At(chip, o)
      ensures Dominates(chip, p, depth, c, i) <==> Dominant(chip, p, depth, o, i)
    {
      WrittenByLast(chip, map[], p, depth, depth, c, o);
    }
  }

  lemma BitPassesExact(chip: Chip, depth: nat, o: nat, i: nat)
    requires o < depth && i < WIDTH
    ensures (forall p: Pattern :: BitRight(chip, p, depth, o, i)) <==> BitPasses(chip, depth, o, i)
  {
    CheckerBits(i);
    CheckeredLast(chip, Checkered, depth, o, i);
    CheckeredLast(chip, Complement, depth, o, i);
    assert Dominant(chip, Checkered, depth, o, i) <==> !Dominant(chip, Complement, depth, o, i);
    if forall p: Pattern :: BitRight(chip, p, depth, o, i) {
      assert BitRight(chip, Rising, depth, o, i) && BitRight(chip, Falling, depth, o, i);
      assert BitRight(chip, Checkered, depth, o, i) && BitRight(chip, Complement, depth, o, i);
    }
    if BitPasses(chip, depth, o, i) {
      forall p: Pattern ensures BitRight(chip, p, depth, o, i) {
        match p case Rising => case Falling => case Checkered => case Complement =>
      }
    }
  }

  /**
   * Which memories pass, exactly, whatever their faults and their contents: MemeTest counts zero errors if and
   * only if every bit lane of every word is one it cannot fault.
   */
  lemma PassesExact(chip: Chip, cells: Cells, depth: nat)
    ensures Misses(chip, cells, depth) == 0 <==> Passes(chip, depth)
  {
    HoldsExact(chip, cells, Rising, depth);
    HoldsExact(chip, AfterRising(chip, cells, depth), Falling, depth);
    HoldsExact(chip, AfterFalling(chip, cells, depth), Checkered, depth);
    HoldsExact(chip, AfterCheckered(chip, cells, depth), Complement, depth);
    AllRight(chip, depth);
  }

  ghost predicate AllWordsRight(chip: Chip, p: Pattern, depth: nat) {
    forall o: nat :: o < depth ==> WordRight(chip, p, depth, o)
  }

  lemma AllRight(chip: Chip, depth: nat)
    ensures (forall p: Pattern :: AllWordsRight(chip, p, depth)) <==> Passes(chip, depth)
    ensures (forall p: Pattern :: AllWordsRight(chip, p, depth)) <==>
            && AllWordsRight(chip, Rising, depth) && AllWordsRight(chip, Falling, depth)
            && AllWordsRight(chip, Checkered, depth) && AllWordsRight(chip, Complement, depth)
  {
    if forall p: Pattern :: AllWordsRight(chip, p, depth) {
      forall o: nat, i: nat | o < depth && i < WIDTH ensures BitPasses(chip, depth, o, i) {
        forall p: Pattern ensures BitRight(chip, p, depth, o, i) {
          assert AllWordsRight(chip, p, depth) && WordRight(chip, p, depth, o);
        }
        BitPassesExact(chip, depth, o, i);
      }
    }
    if Passes(chip, depth) {
      forall p: Pattern, o: nat, i: nat | o < depth && i < WIDTH ensures BitRight(chip, p, depth, o, i) {
        assert BitPasses(chip, depth, o, i);
        BitPassesExact(chip, depth, o, i);
      }
    }
    forall p: Pattern
      ensures && AllWordsRight(chip, Rising, depth) && AllWordsRight(chip, Falling, depth)
              && AllWordsRight(chip, Checkered, depth) && AllWordsRight(chip, Complement, depth)
              ==> AllWordsRight(chip, p, depth)
    {
      match p case Rising => case Falling => case Checkered => case Complement =>
    }
  }

  /** The patterns that some word does not read back. */
  ghost function FailingPatterns(chip: Chip, depth: nat): set<Pattern> {
    set p | p in {Rising, Falling, Checkered, Complement} && !AllWordsRight(chip, p, depth)
  }

  /** The number MemeTest returns, whatever the faults and the contents: one for each failing pattern, 0 to 4. */
  lemma MissesCount(chip: Chip, cells: Cells, depth: nat)
    ensures Misses(chip, cells, depth) == |FailingPatterns(chip, depth)| <= 4
  {
    HoldsExact(chip, cells, Rising, depth);
    HoldsExact(chip, AfterRising(chip, cells, depth), Falling, depth);
    HoldsExact(chip, AfterFalling(chip, cells, depth), Checkered, depth);
    HoldsExact(chip, AfterCheckered(chip, cells, depth), Complement, depth);
    CountPatterns(FailingPatterns(chip, depth));
  }

  lemma CountPatterns(ps: set<Pattern>)
    ensures |ps| == (if Rising in ps then 1 else 0) + (if Falling in ps then 1 else 0)
                    + (if Checkered in ps then 1 else 0) + (if Complement in ps then 1 else 0)
  {
    var ramps, checks := ps * {Rising, Falling}, ps * {Checkered, Complement};
    forall p | p in ps ensures p in ramps + checks {
      match p case Rising => case Falling => case Checkered => case Complement =>
    }
    assert ps == ramps + checks;
    CountDisjoint(ramps, checks);
    CountTwo(ramps, Rising, Falling);
    CountTwo(checks, Checkered, Complement);
  }

  lemma CountDisjoint<T>(a: set<T>, b: set<T>)
    requires a !! b
    ensures |a + b| == |a| + |b|
  {
  }

  lemma CountTwo(ps: set<Pattern>, p: Pattern, q: Pattern)
    requires p != q && ps <= {p, q}
    ensures |ps| == (if p in ps then 1 else 0) + (if q in ps then 1 else 0)
  {
    assert ps == (if p in ps then {p} else {}) + (if q in ps then {q} else {});
  }

  /** A memory none of whose offsets selects a cell, on a bus that idles at 0, fails every pattern at any depth of at
      least two words. */
  lemma AbsentCountsFour(chip: Chip, cells: Cells, depth: nat)
    requires 2 <= depth && GoodDepth(depth) && chip.idle == Zero() && forall o: nat :: o < depth ==> At(chip, o) == []
    ensures Misses(chip, cells, depth) == 4
  {
    AbsentFails(chip, Rising, depth, 1);
    AbsentFails(chip, Falling, depth, 0);
    AbsentFails(chip, Checkered, depth, 0);
    AbsentFails(chip, Complement, depth, 0);
    CountPatterns(FailingPatterns(chip, depth));
    MissesCount(chip, cells, depth);
  }

  lemma AbsentFails(chip: Chip, p: Pattern, depth: nat, o: nat)
    requires GoodDepth(depth) && o < depth && At(chip, o) == [] && chip.idle == Zero() && (p == Rising ==> o > 0)
    ensures !AllWordsRight(chip, p, depth)
  {
    var i := NonzeroBit(p, depth, o);
    assert !BitRight(chip, p, depth, o, i) && !WordRight(chip, p, depth, o);
  }

  lemma NonzeroBit(p: Pattern, depth: nat, o: nat) returns (i: nat)
    requires GoodDepth(depth) && o < depth && (p == Rising ==> o > 0)
    ensures i < WIDTH && Data(p, depth, o)[i]
  {
    match p
    case Checkered =>
      CheckerBits(1);
      i := 1;
    case Complement =>
      CheckerBits(0);
      i := 0;
    case _ =>
      var w := Data(p, depth, o);
      if forall j :: 0 <= j < WIDTH ==> !w[j] {
        BitsZero(WIDTH);
        assert Within(w, ToWord(0));
        WithinOrders(if p == Rising then 4 * o else 4 * depth - 4 * o, 0);
        assert false;
      }
      i :| 0 <= i < WIDTH && w[i];
  }

  // ---- Which memories work ----

  /** Random-access memory: every tested word keeps what is stored in it, whatever is stored in the others. */
  ghost predicate IsRam(chip: Chip, depth: nat) {
    && (forall now: Cells, o: nat, v: Word :: o < depth ==> Keeps(chip, now, o, v))
    && (forall now: Cells, o: nat, p: nat, v: Word ::
          o < depth && p < depth && o != p ==> Undisturbed(chip, now, o, p, v))
  }

  ghost predicate Keeps(chip: Chip, now: Cells, o: nat, v: Word) {
    LoadWord(chip, StoreWord(chip, now, o, v), o) == v
  }

  ghost predicate Undisturbed(chip: Chip, now: Cells, o: nat, p: nat, v: Word) {
    LoadWord(chip, StoreWord(chip, now, p, v), o) == LoadWord(chip, now, o)
  }

  /** Some working bit belongs to two tested words. */
  ghost predicate SharesLive(chip: Chip, depth: nat) {
    exists o: nat, p: nat, c: nat, i: nat ::
      o < depth && p < depth && o != p && i < WIDTH && c in At(chip, o) && c in At(chip, p) && Live(chip, c, i)
  }

  /** In every bit lane of every word some cell works and none is stuck at the dominant value. */
  ghost predicate Answers(chip: Chip, depth: nat) {
    forall o: nat, i: nat :: o < depth && i < WIDTH ==> AnyLive(chip, o, i) && !AnyJams(chip, o, i)
  }

  function Flat(b: bool): Word { seq(WIDTH, i => b) }

  lemma StoredBit(chip: Chip, now: Cells, o: nat, v: Word, i: nat)
    requires At(chip, o) != [] && i < WIDTH
    ensures LoadWord(chip, StoreWord(chip, now, o, v), o)[i] == chip.wiredOr <==>
            AnyJams(chip, o, i) || (AnyLive(chip, o, i) && v[i] == chip.wiredOr)
  {
    LoadBit(chip, StoreWord(chip, now, o, v), o, i);
    forall c <- At(chip, o) ensures Held(StoreWord(chip, now, o, v), c) == v {
    }
  }

  /** Which memories work, exactly: those that answer in every lane and share no working bit. */
  lemma RamExact(chip: Chip, depth: nat)
    ensures IsRam(chip, depth) <==> Answers(chip, depth) && !SharesLive(chip, depth)
  {
    if Answers(chip, depth) && !SharesLive(chip, depth) {
      WorksAsRam(chip, depth);
    }
    if IsRam(chip, depth) {
      RamAnswers(chip, depth);
      RamShares(chip, depth);
    }
  }

  lemma WorksAsRam(chip: Chip, depth: nat)
    requires Answers(chip, depth) && !SharesLive(chip, depth)
    ensures IsRam(chip, depth)
  {
    forall now: Cells, o: nat, v: Word | o < depth ensures Keeps(chip, now, o, v) {
      var seen := LoadWord(chip, StoreWord(chip, now, o, v), o);
      forall i: nat | i < WIDTH ensures seen[i] == v[i] {
        assert AnyLive(chip, o, i) && !AnyJams(chip, o, i);
        StoredBit(chip, now, o, v, i);
      }
      assert seen == v;
    }
    forall now: Cells, o: nat, p: nat, v: Word | o < depth && p < depth && o != p
      ensures Undisturbed(chip, now, o, p, v)
    {
      OthersStay(chip, depth, now, o, p, v);
    }
  }

  lemma OthersStay(chip: Chip, depth: nat, now: Cells, o: nat, p: nat, v: Word)
    requires Answers(chip, depth) && !SharesLive(chip, depth) && o < depth && p < depth && o != p
    ensures Undisturbed(chip, now, o, p, v)
  {
    var after := StoreWord(chip, now, p, v);
    forall i: nat | i < WIDTH ensures LoadWord(chip, after, o)[i] == LoadWord(chip, now, o)[i] {
      assert AnyLive(chip, o, i);
      LoadBit(chip, after, o, i);
      LoadBit(chip, now, o, i);
      forall c <- At(chip, o) | Live(chip, c, i) ensures Held(after, c) == Held(now, c) {
        assert c !in At(chip, p);
      }
    }
    assert LoadWord(chip, after, o) == LoadWord(chip, now, o);
  }

  lemma RamAnswers(chip: Chip, depth: nat)
    requires IsRam(chip, depth)
    ensures Answers(chip, depth)
  {
    forall o: nat, i: nat | o < depth && i < WIDTH ensures AnyLive(chip, o, i) && !AnyJams(chip, o, i) {
      assert Keeps(chip, map[], o, Flat(true)) && Keeps(chip, map[], o, Flat(false));
      assert Flat(true)[i] != Flat(false)[i];
      if At(chip, o) != [] {
        StoredBit(chip, map[], o, Flat(true), i);
        StoredBit(chip, map[], o, Flat(false), i);
      }
    }
  }

  lemma RamShares(chip: Chip, depth: nat)
    requires IsRam(chip, depth)
    ensures !SharesLive(chip, depth)
  {
    forall o: nat, p: nat, c: nat, i: nat
      | o < depth && p < depth && o != p && i < WIDTH && c in At(chip, o) && c in At(chip, p)
      ensures !Live(chip, c, i)
    {
      var low, high := Flat(!chip.wiredOr), Flat(chip.wiredOr);
      var now := StoreWord(chip, map[], o, low);
      assert Keeps(chip, map[], o, low) && Undisturbed(chip, now, o, p, high);
      LoadBit(chip, StoreWord(chip, now, p, high), o, i);
      assert Held(StoreWord(chip, now, p, high), c) == high;
    }
  }

  /** Of the memories that pass, those work that share no working bit. */
  lemma PassingWorksExact(chip: Chip, cells: Cells, depth: nat)
    requires Misses(chip, cells, depth) == 0
    ensures IsRam(chip, depth) <==> !SharesLive(chip, depth)
  {
    PassesExact(chip, cells, depth);
    RamExact(chip, depth);
    forall o: nat, i: nat | o < depth && i < WIDTH ensures AnyLive(chip, o, i) && !AnyJams(chip, o, i) {
      assert BitPasses(chip, depth, o, i);
    }
  }

  // ---- For which decodings passing means working ----

  ghost function WithStuck(chip: Chip, stuck: nat -> Stuck): Chip {
    chip.(stuck := stuck)
  }

  /** The memory with these stuck bits passes. */
  ghost predicate PassesWith(chip: Chip, cells: Cells, depth: nat, stuck: nat -> Stuck) {
    Misses(WithStuck(chip, stuck), cells, depth) == 0
  }

  lemma {:induction false} SameWriters(chip: Chip, stuck: nat -> Stuck, c: nat, n: nat)
    ensures LastWriter(WithStuck(chip, stuck), c, n) == LastWriter(chip, c, n)
  {
    if n > 0 {
      assert At(WithStuck(chip, stuck), n - 1) == At(chip, n - 1);
      SameWriters(chip, stuck, c, n - 1);
    }
  }

  /** Bit i of cell c could work without a ramp finding it: wherever it answers, it drives the dominant value only
      if the word's own datum is dominant. */
  ghost predicate Usable(chip: Chip, depth: nat, c: nat, i: nat)
    requires i < WIDTH
  {
    forall o: nat :: o < depth && c in At(chip, o) ==>
      && (Dominates(chip, Rising, depth, c, i) ==> Dominant(chip, Rising, depth, o, i))
      && (Dominates(chip, Falling, depth, c, i) ==> Dominant(chip, Falling, depth, o, i))
  }

  ghost predicate AnyUsable(chip: Chip, depth: nat, o: nat, i: nat)
    requires i < WIDTH
  {
    exists c <- At(chip, o) :: Usable(chip, depth, c, i)
  }

  ghost predicate UsableDominant(chip: Chip, p: Pattern, depth: nat, o: nat, i: nat)
    requires i < WIDTH
  {
    exists c <- At(chip, o) :: Usable(chip, depth, c, i) && Dominates(chip, p, depth, c, i)
  }

  ghost predicate Coverable(chip: Chip, depth: nat, o: nat, i: nat)
    requires o < depth && i < WIDTH
  {
    && AnyUsable(chip, depth, o, i)
    && (Dominant(chip, Rising, depth, o, i) ==> UsableDominant(chip, Rising, depth, o, i))
    && (Dominant(chip, Falling, depth, o, i) ==> UsableDominant(chip, Falling, depth, o, i))
  }

  /** Every bit lane of every word can be had from cells whose sharing the ramps cannot find. This depends on the
      decoding and the bus polarity only. */
  ghost predicate Maskable(chip: Chip, depth: nat) {
    forall o: nat, i: nat :: o < depth && i < WIDTH ==> Coverable(chip, depth, o, i)
  }

  lemma SameDominates(chip: Chip, stuck: nat -> Stuck, p: Pattern, depth: nat, c: nat, i: nat)
    requires i < WIDTH
    ensures Dominates(WithStuck(chip, stuck), p, depth, c, i) <==> Dominates(chip, p, depth, c, i)
  {
    SameWriters(chip, stuck, c, depth);
  }

  /** In a memory that passes every working bit is usable. */
  lemma LiveIsUsable(chip: Chip, stuck: nat -> Stuck, depth: nat, c: nat, i: nat)
    requires Passes(WithStuck(chip, stuck), depth) && i < WIDTH && Live(WithStuck(chip, stuck), c, i)
    ensures Usable(chip, depth, c, i)
  {
    var faulty := WithStuck(chip, stuck);
    SameDominates(chip, stuck, Rising, depth, c, i);
    SameDominates(chip, stuck, Falling, depth, c, i);
    forall o: nat | o < depth && c in At(chip, o)
      ensures Dominates(chip, Rising, depth, c, i) ==> Dominant(chip, Rising, depth, o, i)
      ensures Dominates(chip, Falling, depth, c, i) ==> Dominant(chip, Falling, depth, o, i)
    {
      assert BitPasses(faulty, depth, o, i) && c in At(faulty, o);
    }
  }

  lemma PassingIsMaskable(chip: Chip, stuck: nat -> Stuck, depth: nat)
    requires Passes(WithStuck(chip, stuck), depth)
    ensures Maskable(chip, depth)
  {
    var faulty := WithStuck(chip, stuck);
    forall o: nat, i: nat | o < depth && i < WIDTH ensures Coverable(chip, depth, o, i) {
      assert BitPasses(faulty, depth, o, i);
      forall c <- At(chip, o) | Live(faulty, c, i)
        ensures Usable(chip, depth, c, i)
        ensures Dominates(faulty, Rising, depth, c, i) ==> Dominates(chip, Rising, depth, c, i)
        ensures Dominates(faulty, Falling, depth, c, i) ==> Dominates(chip, Falling, depth, c, i)
      {
        LiveIsUsable(chip, stuck, depth, c, i);
        SameDominates(chip, stuck, Rising, depth, c, i);
        SameDominates(chip, stuck, Falling, depth, c, i);
      }
    }
  }

  /** Stick every bit that is not usable at the value that drives nothing. */
  ghost function Mask(chip: Chip, depth: nat): nat -> Stuck {
    (c: nat) => Stuck(
      seq(WIDTH, i requires 0 <= i < WIDTH => chip.wiredOr && !Usable(chip, depth, c, i)),
      seq(WIDTH, i requires 0 <= i < WIDTH => !chip.wiredOr && !Usable(chip, depth, c, i)))
  }

  lemma MaskedBits(chip: Chip, depth: nat, c: nat, i: nat)
    requires i < WIDTH
    ensures var masked := WithStuck(chip, Mask(chip, depth));
            (Live(masked, c, i) <==> Usable(chip, depth, c, i)) && !Jams(masked, c, i)
  {
    var masked := WithStuck(chip, Mask(chip, depth));
    assert masked.stuck(c) == Mask(chip, depth)(c);
  }

  lemma MaskPasses(chip: Chip, depth: nat)
    requires Maskable(chip, depth)
    ensures Passes(WithStuck(chip, Mask(chip, depth)), depth)
  {
    var masked := WithStuck(chip, Mask(chip, depth));
    forall o: nat, i: nat | o < depth && i < WIDTH ensures BitPasses(masked, depth, o, i) {
      assert Coverable(chip, depth, o, i) && At(masked, o) == At(chip, o);
      forall c <- At(chip, o)
        ensures (Live(masked, c, i) <==> Usable(chip, depth, c, i)) && !Jams(masked, c, i)
        ensures Dominates(masked, Rising, depth, c, i) <==> Dominates(chip, Rising, depth, c, i)
        ensures Dominates(masked, Falling, depth, c, i) <==> Dominates(chip, Falling, depth, c, i)
      {
        MaskedBits(chip, depth, c, i);
        SameDominates(chip, Mask(chip, depth), Rising, depth, c, i);
        SameDominates(chip, Mask(chip, depth), Falling, depth, c, i);
      }
    }
  }

  /** So a decoding is maskable exactly if some memory with it passes. */
  lemma MaskableExact(chip: Chip, cells: Cells, depth: nat)
    ensures (exists stuck :: PassesWith(chip, cells, depth, stuck)) <==> Maskable(chip, depth)
  {
    forall stuck | PassesWith(chip, cells, depth, stuck) ensures Maskable(chip, depth) {
      PassesExact(WithStuck(chip, stuck), cells, depth);
      PassingIsMaskable(chip, stuck, depth);
    }
    if Maskable(chip, depth) {
      MaskPasses(chip, depth);
      PassesExact(WithStuck(chip, Mask(chip, depth)), cells, depth);
      assert PassesWith(chip, cells, depth, Mask(chip, depth));
    }
  }

  /** Some cell belongs to two tested words. */
  ghost predicate SharesCell(chip: Chip, depth: nat) {
    exists o: nat, p: nat, c: nat :: o < depth && p < depth && o != p && c in At(chip, o) && c in At(chip, p)
  }

  /** The lowest two bits never differ between words in any of the four patterns. */
  lemma LowBitsUniform(p: Pattern, depth: nat, j: nat, k: nat, i: nat)
    requires j <= depth && k <= depth && i < 2
    ensures Data(p, depth, j)[i] == Data(p, depth, k)[i]
  {
    match p
    case Rising =>
      LowBitsOfMultiple(j);
      LowBitsOfMultiple(k);
    case Falling =>
      LowBitsOfMultiple(depth - j);
      LowBitsOfMultiple(depth - k);
    case Checkered =>
    case Complement =>
  }

  lemma LowBitsOfMultiple(n: nat)
    ensures !ToWord(4 * n)[0] && !ToWord(4 * n)[1]
  {
    assert Bits(4 * n, WIDTH)[1..] == Bits(2 * n, WIDTH - 1);
  }

  lemma LowBitUsable(chip: Chip, depth: nat, c: nat)
    ensures Usable(chip, depth, c, 0)
  {
    forall o: nat | o < depth && c in At(chip, o)
      ensures Dominates(chip, Rising, depth, c, 0) ==> Dominant(chip, Rising, depth, o, 0)
      ensures Dominates(chip, Falling, depth, c, 0) ==> Dominant(chip, Falling, depth, o, 0)
    {
      WrittenByLast(chip, map[], Rising, depth, depth, c, o);
      LowBitsUniform(Rising, depth, LastWriter(chip, c, depth), o, 0);
      LowBitsUniform(Falling, depth, LastWriter(chip, c, depth), o, 0);
    }
  }

  /**
   * For which decodings passing means working. For any decoding and either bus polarity: every memory with that
   * decoding that passes, whatever its stuck bits, is random-access memory if and only if not both some cell
   * belongs to two tested words and the decoding is maskable.
   */
  lemma WorkingExact(chip: Chip, cells: Cells, depth: nat)
    ensures (forall stuck :: PassesWith(chip, cells, depth, stuck) ==> IsRam(WithStuck(chip, stuck), depth))
            <==> (Maskable(chip, depth) ==> !SharesCell(chip, depth))
  {
    forall stuck | PassesWith(chip, cells, depth, stuck) && !IsRam(WithStuck(chip, stuck), depth)
      ensures Maskable(chip, depth) && SharesCell(chip, depth)
    {
      var faulty := WithStuck(chip, stuck);
      PassesExact(faulty, cells, depth);
      PassingIsMaskable(chip, stuck, depth);
      PassingWorksExact(faulty, cells, depth);
      var o: nat, p: nat, c: nat, i: nat :| o < depth && p < depth && o != p && i < WIDTH
                                           && c in At(faulty, o) && c in At(faulty, p) && Live(faulty, c, i);
      assert c in At(chip, o) && c in At(chip, p);
    }
    if Maskable(chip, depth) && SharesCell(chip, depth) {
      MaskHides(chip, cells, depth);
    }
  }

  lemma MaskHides(chip: Chip, cells: Cells, depth: nat)
    requires Maskable(chip, depth) && SharesCell(chip, depth)
    ensures PassesWith(chip, cells, depth, Mask(chip, depth)) && !IsRam(WithStuck(chip, Mask(chip, depth)), depth)
  {
    var masked := WithStuck(chip, Mask(chip, depth));
    MaskPasses(chip, depth);
    PassesExact(masked, cells, depth);
    PassingWorksExact(masked, cells, depth);
    var o: nat, p: nat, c: nat :| o < depth && p < depth && o != p && c in At(chip, o) && c in At(chip, p);
    LowBitUsable(chip, depth, c);
    MaskedBits(chip, depth, c, 0);
    assert c in At(masked, o) && c in At(masked, p) && Live(masked, c, 0);
  }

  // ---- For which decodings passing means fault-free ----

  /** Every tested word has at most one cell, and shares it with no other. */
  ghost predicate OneCellEach(chip: Chip, depth: nat) {
    && (forall o: nat, c, d :: o < depth && c in At(chip, o) && d in At(chip, o) ==> c == d)
    && !SharesCell(chip, depth)
  }

  /** All cells work but d, which drives nothing. */
  ghost function OnlyStuck(chip: Chip, d: nat): nat -> Stuck {
    (c: nat) =>
      if c != d then Faultless() else if chip.wiredOr then Stuck(Flat(true), Zero()) else Stuck(Zero(), Flat(true))
  }

  lemma OnlyStuckBits(chip: Chip, d: nat, c: nat, i: nat)
    requires i < WIDTH
    ensures var faulty := WithStuck(chip, OnlyStuck(chip, d));
            (Live(faulty, c, i) <==> c != d) && !Jams(faulty, c, i)
  {
    var faulty := WithStuck(chip, OnlyStuck(chip, d));
    assert faulty.stuck(c) == OnlyStuck(chip, d)(c);
    assert Flat(true)[i] && !Zero()[i] && Faultless() == Stuck(Zero(), Zero());
  }

  ghost predicate HasOther(chip: Chip, o: nat, d: nat) {
    exists c <- At(chip, o) :: c != d
  }

  /** Without sharing, a word that has another cell does not need cell d. */
  lemma SpareHides(chip: Chip, depth: nat, d: nat)
    requires !SharesCell(chip, depth)
    requires forall o: nat :: o < depth ==> HasOther(chip, o, d)
    ensures Passes(WithStuck(chip, OnlyStuck(chip, d)), depth)
  {
    var faulty := WithStuck(chip, OnlyStuck(chip, d));
    forall o: nat, i: nat | o < depth && i < WIDTH ensures BitPasses(faulty, depth, o, i) {
      assert At(faulty, o) == At(chip, o) && HasOther(chip, o, d);
      forall c <- At(chip, o)
        ensures (Live(faulty, c, i) <==> c != d) && !Jams(faulty, c, i) && LastWriter(faulty, c, depth) == o
      {
        OnlyStuckBits(chip, d, c, i);
        WrittenByLast(faulty, map[], Rising, depth, depth, c, o);
        assert c in At(chip, LastWriter(faulty, c, depth));
      }
    }
  }

  /**
   * For which decodings the test is complete. For any decoding and either bus polarity: every memory with that
   * decoding that passes, whatever its stuck bits, is fault-free if and only if no memory with that decoding can
   * pass or every tested word has a single cell of its own.
   */
  lemma CompleteExact(chip: Chip, cells: Cells, depth: nat)
    requires GoodDepth(depth)
    ensures (forall stuck :: PassesWith(chip, cells, depth, stuck) ==> Healthy(WithStuck(chip, stuck), depth))
            <==> (Maskable(chip, depth) ==> OneCellEach(chip, depth))
  {
    forall stuck | PassesWith(chip, cells, depth, stuck) && (Maskable(chip, depth) ==> OneCellEach(chip, depth))
      ensures Healthy(WithStuck(chip, stuck), depth)
    {
      PassesExact(WithStuck(chip, stuck), cells, depth);
      PassingIsMaskable(chip, stuck, depth);
      OneCellDetects(chip, cells, depth, stuck);
    }
    if Maskable(chip, depth) && !OneCellEach(chip, depth) {
      var stuck := HiddenFault(chip, cells, depth);
    }
  }

  lemma OneCellDetects(chip: Chip, cells: Cells, depth: nat, stuck: nat -> Stuck)
    requires GoodDepth(depth) && OneCellEach(chip, depth) && PassesWith(chip, cells, depth, stuck)
    ensures Healthy(WithStuck(chip, stuck), depth)
  {
    var faulty := WithStuck(chip, stuck);
    assert OneKindPerWord(faulty, depth) by {
      forall o: nat, c, d | o < depth && c in At(faulty, o) && d in At(faulty, o) ensures c == d {
        assert c in At(chip, o) && d in At(chip, o);
      }
    }
    DetectsExactly(faulty, cells, depth);
  }

  lemma HiddenFault(chip: Chip, cells: Cells, depth: nat) returns (stuck: nat -> Stuck)
    requires Maskable(chip, depth) && !OneCellEach(chip, depth)
    ensures PassesWith(chip, cells, depth, stuck) && !Healthy(WithStuck(chip, stuck), depth)
  {
    if SharesCell(chip, depth) {
      stuck := Mask(chip, depth);
      MaskPasses(chip, depth);
      SharingUnhealthy(chip, depth, stuck);
    } else {
      var o: nat, c, d :| o < depth && c in At(chip, o) && d in At(chip, o) && c != d;
      stuck := OnlyStuck(chip, d);
      forall k: nat | k < depth ensures HasOther(chip, k, d) {
        SpareCell(chip, depth, o, c, d, k);
      }
      SpareHides(chip, depth, d);
      OnlyStuckBits(chip, d, d, 0);
      assert d in At(WithStuck(chip, stuck), o) && !Unstuck(WithStuck(chip, stuck), d);
    }
    PassesExact(WithStuck(chip, stuck), cells, depth);
  }

  lemma SharingUnhealthy(chip: Chip, depth: nat, stuck: nat -> Stuck)
    requires SharesCell(chip, depth)
    ensures !Healthy(WithStuck(chip, stuck), depth)
  {
    var o: nat, p: nat, c: nat :| o < depth && p < depth && o != p && c in At(chip, o) && c in At(chip, p);
    assert c in At(WithStuck(chip, stuck), o) && c in At(WithStuck(chip, stuck), p);
  }

  lemma SpareCell(chip: Chip, depth: nat, o: nat, c: nat, d: nat, k: nat)
    requires Maskable(chip, depth) && !SharesCell(chip, depth) && o < depth && k < depth
    requires c in At(chip, o) && d in At(chip, o) && c != d
    ensures HasOther(chip, k, d)
  {
    assert Coverable(chip, depth, k, 0);
    var x :| x in At(chip, k) && Usable(chip, depth, x, 0);
    assert x == d ==> k == o;
  }

  /** A decoding in which every tested word has a cell of its own is maskable. */
  lemma OwnCellsMaskable(chip: Chip, depth: nat, own: nat -> nat)
    requires forall o: nat :: o < depth ==> own(o) in At(chip, o)
    requires forall o: nat, p: nat :: o < depth && p < depth && o != p ==> own(o) !in At(chip, p)
    ensures Maskable(chip, depth)
  {
    forall o: nat, i: nat | o < depth && i < WIDTH ensures Coverable(chip, depth, o, i) {
      var c := own(o);
      WrittenByLast(chip, map[], Rising, depth, depth, c, o);
      assert LastWriter(chip, c, depth) == o;
      assert Usable(chip, depth, c, i);
    }
  }

  /** So if every tested word has a cell of its own, the test is complete exactly if it has no other, and passing
      means working exactly if no other is shared. */
  lemma OwnCellsExact(chip: Chip, cells: Cells, depth: nat, own: nat -> nat)
    requires GoodDepth(depth) && forall o: nat :: o < depth ==> own(o) in At(chip, o)
    requires forall o: nat, p: nat :: o < depth && p < depth && o != p ==> own(o) !in At(chip, p)
    ensures (forall stuck :: PassesWith(chip, cells, depth, stuck) ==> Healthy(WithStuck(chip, stuck), depth))
            <==> (forall o: nat, c :: o < depth && c in At(chip, o) ==> c == own(o))
    ensures (forall stuck :: PassesWith(chip, cells, depth, stuck) ==> IsRam(WithStuck(chip, stuck), depth))
            <==> !SharesCell(chip, depth)
  {
    OwnCellsMaskable(chip, depth, own);
    CompleteExact(chip, cells, depth);
    WorkingExact(chip, cells, depth);
  }

  // ---- An example ----

  function HighBits(): Word {
    seq(WIDTH, i => i >= 2)
  }

  /** Every word also drives one more cell, whose bits above the lowest two are stuck at 1. */
  function LowBitsShared(depth: nat): Chip {
    Chip((o: nat) => [o / 4, depth],
         (c: nat) => if c == depth then Stuck(Zero(), HighBits()) else Faultless(), Zero(), false)
  }

  lemma LowBitsParts(depth: nat, k: nat)
    ensures var chip := LowBitsShared(depth);
            && At(chip, k) == [k, depth] && !chip.wiredOr
            && (k != depth ==> Unstuck(chip, k))
            && chip.stuck(depth) == Stuck(Zero(), HighBits())
  {
    var chip := LowBitsShared(depth);
    assert chip.select(4 * k) == [4 * k / 4, depth];
    assert chip.stuck(depth) == Stuck(Zero(), HighBits());
    if k != depth {
      assert chip.stuck(k) == Faultless();
    }
  }

  lemma {:induction false} OnlyOwnCell(depth: nat, c: nat, n: nat)
    requires n <= depth
    ensures c < n ==> LastWriter(LowBitsShared(depth), c, n) == c
    ensures c == depth && n > 0 ==> LastWriter(LowBitsShared(depth), c, n) == n - 1
  {
    if n > 0 {
      assert At(LowBitsShared(depth), n - 1) == [n - 1, depth];
      if c < n - 1 {
        OnlyOwnCell(depth, c, n - 1);
      }
    }
  }

  /** The two cells of a word, bit by bit: its own works, the shared one only in the lowest two bits. */
  lemma LowBitsCells(depth: nat, o: nat, i: nat)
    requires o < depth && i < WIDTH
    ensures var chip := LowBitsShared(depth);
            && At(chip, o) == [o, depth] && !Jams(chip, o, i) && !Jams(chip, depth, i)
            && Live(chip, o, i) && (Live(chip, depth, i) <==> i < 2)
            && LastWriter(chip, o, depth) == o && LastWriter(chip, depth, depth) == depth - 1
  {
    var chip := LowBitsShared(depth);
    LowBitsParts(depth, o);
    OnlyOwnCell(depth, o, depth);
    OnlyOwnCell(depth, depth, depth);
    assert chip.stuck(depth).one[i] == (i >= 2) && !chip.stuck(depth).zero[i];
  }

  lemma LowBitsLast(p: Pattern, depth: nat, o: nat, i: nat)
    requires o < depth && i < WIDTH
    ensures var chip := LowBitsShared(depth);
            Dominant(chip, p, depth, o, i) <==> LastDominant(chip, p, depth, o, i)
  {
    var chip := LowBitsShared(depth);
    LowBitsCells(depth, o, i);
    assert o in At(chip, o);
    if i < 2 {
      LowBitsUniform(p, depth, o, depth - 1, i);
    }
  }

  lemma LowBitsLane(depth: nat, o: nat, i: nat)
    requires o < depth && i < WIDTH
    ensures BitPasses(LowBitsShared(depth), depth, o, i)
  {
    LowBitsCells(depth, o, i);
    assert o in At(LowBitsShared(depth), o);
    LowBitsLast(Rising, depth, o, i);
    LowBitsLast(Falling, depth, o, i);
  }

  lemma LowBitsPasses(depth: nat)
    ensures Passes(LowBitsShared(depth), depth)
  {
    forall o: nat, i: nat | o < depth && i < WIDTH ensures BitPasses(LowBitsShared(depth), depth, o, i) {
      LowBitsLane(depth, o, i);
    }
  }

  /**
   * The fault model cannot be dropped. At any depth of at least two words there is a memory combining both
   * kinds of fault that MemeTest passes, and yet a word stored in word 0 is lost when word 1 is written.
   */
  lemma BlindSpot(depth: nat, cells: Cells)
    requires GoodDepth(depth) && depth >= 2
    ensures var chip, v := LowBitsShared(depth), seq(WIDTH, i => true);
            && Misses(chip, cells, depth) == 0 && !OneKindPerWord(chip, depth)
            && LoadWord(chip, StoreWord(chip, StoreWord(chip, cells, 0, v), 1, Zero()), 0) != v
  {
    var chip, v := LowBitsShared(depth), seq(WIDTH, i => true);
    LowBitsPasses(depth);
    PassesExact(chip, cells, depth);
    LowBitsParts(depth, 0);
    LowBitsParts(depth, 1);
    assert chip.stuck(depth).one[2];
    assert 0 in At(chip, 0) && depth in At(chip, 0) && !Unstuck(chip, depth);
    var after := StoreWord(chip, StoreWord(chip, cells, 0, v), 1, Zero());
    TwoCells(chip, after, 0, depth);
    assert Held(after, depth) == Zero();
    assert !chip.stuck(depth).one[0];
    assert !Seen(chip, after, depth)[0];
    assert !LoadWord(chip, after, 0)[0] && v[0];
  }
}
