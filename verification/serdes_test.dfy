/** SerdesInterruptTest as a transition system: one step per turn of its loop, with the core and the interrupt
    handler free to act at any moment of it. */
module SerdesTest {
  import opened Basics
  import opened SerdesCore
  import opened SerdesLevels

  /** The words a counter produces: from `first` on, modulo 2^32. */
  function Ramp(first: nat, n: nat): (s: seq<nat>)
    ensures |s| == n && forall i :: 0 <= i < n ==> s[i] == (first + i) % U32_RANGE
  {
    seq(n, i requires 0 <= i => (first + i) % U32_RANGE)
  }

  lemma RampChains(a: nat, b: nat)
    ensures Ramp(0, a) + Ramp(a, b) == Ramp(0, a + b)
  {
  }

  lemma RampAppend(first: nat, n: nat)
    ensures Ramp(first, n) + [(first + n) % U32_RANGE] == Ramp(first, n + 1)
  {
  }

  const PAGES: nat := 512
  const PAGE: nat := 128

  /** After SerdesInit, with the read-occupancy trigger at a page. */
  const START: Snapshot := Snapshot(EMPTY, PAGE, false, false, true)

  /** Between turns: the next word to write, and the pages read. */
  datatype Test = Test(s: Snapshot, outData: nat, pages: nat)

  /** The flag tests at the head of a turn send the program to read a page. */
  predicate ReadsPage(m: Snapshot) {
    m.reached && !m.overRun
  }

  /** One turn. m is the instance when its read flags are tested, n when its write flag is. */
  ghost predicate TurnVia(t: Test, m: Snapshot, n: Snapshot, t': Test) {
    && Does(t.s, [], 0, m)
    && Does(m, [], if ReadsPage(m) then PAGE else 0, n)
    && Does(n, if n.wrEmpty then Ramp(t.outData, 16) else [], 0, t'.s)
    && t'.outData == t.outData + (if n.wrEmpty then 16 else 0)
    && t'.pages == t.pages + (if ReadsPage(m) then 1 else 0)
  }

  ghost predicate Turn(t: Test, t': Test) {
    exists m, n :: TurnVia(t, m, n, t')
  }

  ghost predicate TurnAt(ts: seq<Test>, i: nat)
    requires i + 1 < |ts|
  {
    ts[i].pages < PAGES && Turn(ts[i], ts[i + 1])
  }

  /** The test from its start, through any number of turns, under any interrupt schedule. */
  ghost predicate IsTestRun(ts: seq<Test>) {
    && ts != [] && ts[0] == Test(START, 0, 0)
    && forall i: nat :: i + 1 < |ts| ==> TurnAt(ts, i)
  }

  lemma TestRunExtends(ts: seq<Test>, t: Test)
    requires IsTestRun(ts) && Last(ts).pages < PAGES && Turn(Last(ts), t)
    ensures IsTestRun(ts + [t]) && Last(ts + [t]) == t
  {
    var all := ts + [t];
    forall i: nat | i + 1 < |all| ensures TurnAt(all, i) {
      if i + 1 < |ts| {
        assert TurnAt(ts, i) && all[i] == ts[i] && all[i + 1] == ts[i + 1];
      } else {
        assert all[i] == Last(ts) && all[i + 1] == t;
      }
    }
  }

  // ---- What every turn keeps ----

  /** Everything sent is the counter's ramp, the words read are whole pages, and no overrun is flagged. */
  ghost predicate TestInv(t: Test) {
    && LoopInv(t.s.loop) && t.s.loop.sent == Ramp(0, t.outData)
    && |t.s.loop.read| == PAGE * t.pages && !t.s.overRun && t.s.trigLevel == PAGE
  }

  lemma TurnKeeps(t: Test, t': Test)
    requires TestInv(t) && Turn(t, t')
    ensures TestInv(t') && t'.pages <= t.pages + 1
  {
    var m, n :| TurnVia(t, m, n, t');
    var puts, gets: nat := if n.wrEmpty then Ramp(t.outData, 16) else [], if ReadsPage(m) then PAGE else 0;
    DoesBoth(t.s, [], 0, m, [], gets, n);
    DoesEffects(t.s, [], gets, n);
    DoesEffects(n, puts, 0, t'.s);
    TestGrows(t, gets, n, puts, t');
  }

  lemma TestGrows(t: Test, gets: nat, n: Snapshot, puts: seq<nat>, t': Test)
    requires TestInv(t) && Effects(t.s, [], gets, n) && Effects(n, puts, 0, t'.s) && LoopInv(t'.s.loop)
    requires puts == Ramp(t.outData, |puts|)
    requires t'.outData == t.outData + |puts| && PAGE * t'.pages == PAGE * t.pages + gets
    ensures TestInv(t')
  {
    RampChains(t.outData, |puts|);
    assert n.loop.sent == t.s.loop.sent;
  }

  lemma {:induction false} TestRunInv(ts: seq<Test>, i: nat)
    requires IsTestRun(ts) && i < |ts|
    ensures TestInv(ts[i]) && ts[i].pages <= PAGES
  {
    if i > 0 {
      TestRunInv(ts, i - 1);
      assert TurnAt(ts, i - 1);
      TurnKeeps(ts[i - 1], ts[i]);
    }
  }

  /**
   * The interrupt test, under any schedule of the core and of the handler. After any number of turns the test
   * has read whole pages, no overrun is flagged, and the words read are the counter's for as long as no word was
   * dropped before the last one; no word is dropped while no more than 512 are on their way.
   */
  lemma TestReadsRamp(ts: seq<Test>)
    requires IsTestRun(ts)
    ensures var t := Last(ts);
            && ReadsRamp(t.s.loop) && |t.s.loop.read| == PAGE * t.pages && !t.s.overRun
            && (t.s.loop.peak <= FIFO_DEPTH ==> Lossless(t.s.loop) && t.s.loop.read == Ramp(0, PAGE * t.pages))
  {
    TestRunInv(ts, |ts| - 1);
    RampRead(Last(ts).s.loop);
  }

  // ---- The words read ----

  /** Every word read is the counter's word of some position, the positions strictly increase, and the words
      are 0, 1, 2, ... for as long as no word was dropped before the last one read; while the counter has
      not wrapped, no longer than that. */
  ghost predicate ReadsRamp(l: Loop) {
    && |l.read| <= |l.kept|
    && (forall i :: 0 <= i < |l.read| ==> i <= l.kept[i] && l.read[i] == l.kept[i] % U32_RANGE)
    && (forall i, j :: 0 <= i < j < |l.read| ==> l.kept[i] < l.kept[j])
    && (|l.read| > 0 && Last(l.kept[..|l.read|]) == |l.read| - 1 ==> l.read == Ramp(0, |l.read|))
    && (|l.read| > 0 && |l.sent| <= U32_RANGE && l.read == Ramp(0, |l.read|) ==>
          Last(l.kept[..|l.read|]) == |l.read| - 1)
    && (Lossless(l) ==> l.read == Ramp(0, |l.read|))
  }

  lemma RampRead(l: Loop)
    requires LoopInv(l) && l.sent == Ramp(0, |l.sent|)
    ensures ReadsRamp(l)
  {
    KeptWords(l);
    if Lossless(l) {
      RampWhole(l);
    }
    if |l.read| > 0 {
      KeptSkips(l);
      RampLast(l);
    }
  }

  lemma KeptWords(l: Loop)
    requires LoopInv(l) && l.sent == Ramp(0, |l.sent|)
    ensures forall i :: 0 <= i < |l.read| ==> l.read[i] == l.kept[i] % U32_RANGE
  {
    forall i | 0 <= i < |l.read| ensures l.read[i] == l.kept[i] % U32_RANGE {
      assert l.read[i] == (l.read + l.rd)[i] == l.sent[l.kept[i]] == Ramp(0, |l.sent|)[l.kept[i]];
    }
  }

  lemma RampWhole(l: Loop)
    requires LoopInv(l) && l.sent == Ramp(0, |l.sent|) && Lossless(l)
    ensures l.read == Ramp(0, |l.read|)
  {
    AllThere(l);
    RampPrefix(l.read, l.rd + l.wr);
  }

  lemma RampPrefix(front: seq<nat>, rest: seq<nat>)
    requires front + rest == Ramp(0, |front + rest|)
    ensures front == Ramp(0, |front|)
  {
    assert front == (front + rest)[..|front|];
  }

  lemma KeptSkips(l: Loop)
    requires LoopInv(l) && |l.read| > 0
    ensures (forall i :: 0 <= i < |l.read| ==> l.kept[i] == i) <==> l.kept[|l.read| - 1] == |l.read| - 1
  {
    LoopExact(l);
  }

  lemma RampLast(l: Loop)
    requires 0 < |l.read| <= |l.kept| && forall i :: 0 <= i < |l.read| ==> l.read[i] == l.kept[i] % U32_RANGE
    requires (forall i :: 0 <= i < |l.read| ==> l.kept[i] == i) <==> l.kept[|l.read| - 1] == |l.read| - 1
    ensures l.kept[|l.read| - 1] == |l.read| - 1 ==> l.read == Ramp(0, |l.read|)
    ensures |l.read| <= U32_RANGE && l.kept[|l.read| - 1] < U32_RANGE && l.read == Ramp(0, |l.read|) ==>
              l.kept[|l.read| - 1] == |l.read| - 1
  {
    var last := |l.read| - 1;
    if l.read == Ramp(0, |l.read|) {
      assert l.kept[last] % U32_RANGE == Ramp(0, |l.read|)[last] == last % U32_RANGE;
    }
  }

  // ---- An overrun that nobody sees ----

  /** n words written and moved, none read: the read FIFO has the first 512, the others are lost. */
  function Flooded(n: nat): Loop {
    var held := if n < FIFO_DEPTH then n else FIFO_DEPTH;
    Loop([], Ramp(0, held), Ramp(0, n), [], n, seq(held, i => i), n)
  }

  lemma FloodsOn(n: nat)
    ensures var full := Push(Flooded(n), n % U32_RANGE); full.wr != [] && Shift(full) == Flooded(n + 1)
  {
    var full := Push(Flooded(n), n % U32_RANGE);
    assert full.sent == Ramp(0, n + 1) && full.wr == [n % U32_RANGE] && full.wr[1..] == [];
    if n < FIFO_DEPTH {
      assert Shift(full).rd == Ramp(0, n + 1);
      assert Shift(full).kept == seq(n + 1, i => i);
    }
  }

  /** k words written from the n-th on, each moved at once. */
  lemma {:induction false} BurstFloods(s: Snapshot, n: nat, k: nat)
    requires s.loop == Flooded(n)
    ensures Does(s, Ramp(n, k), 0, s.(loop := Flooded(n + k)))
  {
    if k == 0 {
      DoesNothing(s);
      assert s.(loop := Flooded(n)) == s && Ramp(n, 0) == [];
    } else {
      BurstFloods(s, n, k - 1);
      FloodsMore(s, Ramp(n, k - 1), s.(loop := Flooded(n + k - 1)), n + k - 1);
      RampAppend(n, k - 1);
    }
  }

  lemma FloodsMore(s: Snapshot, puts: seq<nat>, m: Snapshot, n: nat)
    requires Does(s, puts, 0, m) && m.loop == Flooded(n)
    ensures Does(s, puts + [n % U32_RANGE], 0, m.(loop := Flooded(n + 1)))
  {
    var e := Put(n % U32_RANGE);
    FloodsOn(n);
    DoesOne(s, puts, 0, m, e);
    DoesOne(s, puts + [n % U32_RANGE], 0, Do(m, e), Moves);
  }

  function FloodedTest(i: nat): Test {
    Test(START.(loop := Flooded(16 * i)), 16 * i, 0)
  }

  lemma FloodedTurn(i: nat)
    ensures Turn(FloodedTest(i), FloodedTest(i + 1))
  {
    var t, t' := FloodedTest(i), FloodedTest(i + 1);
    BurstFloods(t.s, 16 * i, 16);
    DoesNothing(t.s);
    assert TurnVia(t, t.s, t.s, t');
  }

  /**
   * The test loses words and never learns of it. If the handler does not run, the test goes on writing sixteen
   * words a turn and reads none: from the 33rd turn on every word is lost, and no overrun is flagged.
   */
  lemma LosesUnseen(turns: nat) returns (ts: seq<Test>)
    ensures IsTestRun(ts) && |ts| == turns + 1 && Last(ts) == FloodedTest(turns)
    ensures var t := Last(ts);
            && t.outData == t.s.loop.moved == 16 * turns && t.s.loop.read == [] && !t.s.overRun
            && |t.s.loop.kept| == (if turns <= 32 then 16 * turns else 512)
            && (Lossless(t.s.loop) <==> turns <= 32)
  {
    ts := seq(turns + 1, i requires 0 <= i => FloodedTest(i));
    assert Flooded(0) == EMPTY;
    forall i: nat | i + 1 < |ts| ensures TurnAt(ts, i) {
      FloodedTurn(i);
    }
  }

  // ---- When a turn ends ----

  /** The test's read flag is set, though there is less than a page to read. */
  predicate StaleFlag(t: Test) {
    t.s.reached && OnHand(t.s) < PAGE
  }

  /** The turn hangs in its read: m is the instance when the flags are tested, s the one that waits for good. */
  ghost predicate HangsVia(t: Test, m: Snapshot, got: nat, s: Snapshot) {
    Does(t.s, [], 0, m) && ReadsPage(m) && got < PAGE && Does(m, [], got, s) && Starved(s)
  }

  /** What happens before the flags are tested does not decide whether there is a page to read. */
  lemma PageOnHand(t: Test, m: Snapshot)
    requires TestInv(t) && Does(t.s, [], 0, m)
    ensures LoopInv(m.loop) && (PAGE <= OnHand(m) <==> PAGE <= OnHand(t.s)) && (PAGE <= OnHand(m) <==> PAGE <= Safe(m))
  {
    DoesLevels(t.s, 0, m);
  }

  /** Once the flags are tested, the turn can end if and only if they do not call for a read or there is a page on
      hand at its start; and then its read ends under every timing. */
  lemma TurnEndsExact(t: Test, m: Snapshot)
    requires TestInv(t) && Does(t.s, [], 0, m)
    ensures (exists n, t' :: TurnVia(t, m, n, t')) <==> (ReadsPage(m) ==> PAGE <= OnHand(t.s))
    ensures PAGE <= OnHand(t.s) ==> MustEnd(m, PAGE)
  {
    PageOnHand(t, m);
    ReadEndsExact(m, PAGE);
    if ReadsPage(m) ==> PAGE <= OnHand(t.s) {
      var n := ReadsThrough(m, if ReadsPage(m) then PAGE else 0);
      DoesLevels(m, if ReadsPage(m) then PAGE else 0, n);
      var t' := WritesOn(t, m, n);
    }
  }

  /** A turn can always be finished from the test of its write flag on. */
  lemma WritesOn(t: Test, m: Snapshot, n: Snapshot) returns (t': Test)
    requires Does(t.s, [], 0, m) && Does(m, [], if ReadsPage(m) then PAGE else 0, n) && LoopInv(n.loop)
    ensures TurnVia(t, m, n, t') && t'.s.reached == n.reached
  {
    var p := WritesThrough(n, if n.wrEmpty then Ramp(t.outData, 16) else []);
    t' := Test(p, t.outData + (if n.wrEmpty then 16 else 0), t.pages + (if ReadsPage(m) then 1 else 0));
  }

  /** While the driver only waits, the handler sets the read flag only when there is a page, and clears it only
      when there is none in the read FIFO. */
  ghost predicate Follows(s: Snapshot, s': Snapshot) {
    && |s.loop.rd| <= |s'.loop.rd| && OnHand(s') <= OnHand(s) && s'.trigLevel == s.trigLevel
    && (s.reached && |s.loop.rd| >= s.trigLevel ==> s'.reached)
    && (!s.reached && OnHand(s) < s.trigLevel ==> !s'.reached)
  }

  lemma {:induction false} FlagFollows(s: Snapshot, es: seq<Event>, s': Snapshot)
    requires Ran(s, es, s') && Puts(es) == [] && Gets(es) == 0
    ensures Follows(s, s')
  {
    if es != [] {
      var m :| Ran(s, Front(es), m) && Happens(m, Last(es), s');
      FlagFollows(s, Front(es), m);
      QuietEvent(es);
      FlagStep(m, Last(es));
      FollowsChain(s, m, s');
    }
  }

  lemma QuietEvent(es: seq<Event>)
    requires es != [] && Puts(es) == [] && Gets(es) == 0
    ensures !Last(es).Put? && !Last(es).Get? && Puts(Front(es)) == [] && Gets(Front(es)) == 0
  {
  }

  lemma FlagStep(s: Snapshot, e: Event)
    requires Can(s, e) && !e.Put? && !e.Get?
    ensures Follows(s, Do(s, e))
  {
  }

  lemma FollowsChain(s: Snapshot, m: Snapshot, n: Snapshot)
    requires Follows(s, m) && Follows(m, n)
    ensures Follows(s, n)
  {
  }

  lemma FlagAtTest(t: Test, m: Snapshot)
    requires TestInv(t) && Does(t.s, [], 0, m)
    ensures t.s.reached && |t.s.loop.rd| >= PAGE ==> ReadsPage(m)
    ensures !t.s.reached && OnHand(t.s) < PAGE ==> !ReadsPage(m)
  {
    var es :| Ran(t.s, es, m) && Puts(es) == [] && Gets(es) == 0;
    FlagFollows(t.s, es, m);
    DoesEffects(t.s, [], 0, m);
  }

  /** A turn can hang if and only if the read flag is stale at its start. */
  lemma TurnHangsExact(t: Test)
    requires TestInv(t)
    ensures (exists m, got, s :: HangsVia(t, m, got, s)) <==> StaleFlag(t)
  {
    forall m, got, s | HangsVia(t, m, got, s) ensures StaleFlag(t) {
      FlagAtTest(t, m);
      TurnEndsExact(t, m);
    }
    if StaleFlag(t) {
      var s := ReadsThrough(t.s, OnHand(t.s));
      DoesNothing(t.s);
      DoesLevels(t.s, OnHand(t.s), s);
      assert HangsVia(t, t.s, OnHand(t.s), s);
    }
  }

  /** In the middle of a read, too, what the test has read is the ramp's. */
  lemma ReadingRamp(ts: seq<Test>, gets: nat, s: Snapshot)
    requires IsTestRun(ts) && Does(Last(ts).s, [], gets, s)
    ensures LoopInv(s.loop) && ReadsRamp(s.loop) && !s.overRun && Last(ts).s.loop.read <= s.loop.read
  {
    TestRunInv(ts, |ts| - 1);
    DoesEffects(Last(ts).s, [], gets, s);
    RampRead(s.loop);
  }

  /** So also when it hangs; and its flag was stale when the turn began. */
  lemma HangsOnRamp(ts: seq<Test>, s: Snapshot)
    requires IsTestRun(ts) && exists m, got :: HangsVia(Last(ts), m, got, s)
    ensures LoopInv(s.loop) && ReadsRamp(s.loop) && !s.overRun && Last(ts).s.loop.read <= s.loop.read
    ensures |Last(ts).s.loop.read| == PAGE * Last(ts).pages && StaleFlag(Last(ts)) && Starved(s)
  {
    var t := Last(ts);
    TestRunInv(ts, |ts| - 1);
    var m, got :| HangsVia(t, m, got, s);
    TurnHangsExact(t);
    DoesBoth(t.s, [], 0, m, [], got, s);
    ReadingRamp(ts, got, s);
  }

  /** The test can hang for good. Its flags are only as fresh as the last interrupt: if the handler runs once, when
      the first page is there, the test reads that page and then starts on a second one that is not coming. */
  lemma StaleFlagHangs() returns (ts: seq<Test>)
    ensures IsTestRun(ts) && |ts| == 10 && StaleFlag(Last(ts))
    ensures exists m, got, s :: HangsVia(Last(ts), m, got, s)
  {
    ts := LosesUnseen(8);
    var t := Last(ts);
    TestRunInv(ts, 8);
    var h := Do(t.s, ChecksRead);
    var m := Do(h, ChecksWrite);
    DoesNothing(t.s);
    DoesOne(t.s, [], 0, t.s, ChecksRead);
    DoesOne(t.s, [], 0, h, ChecksWrite);
    var n := ReadsOff(m, PAGE);
    DoesEffects(m, [], PAGE, n);
    var t' := WritesOn(t, m, n);
    FewAfterPage(t, m, n, t');
    TestRunExtends(ts, t');
    ts := ts + [t'];
    TurnHangsExact(t');
  }

  lemma FewAfterPage(t: Test, m: Snapshot, n: Snapshot, t': Test)
    requires TestInv(t) && Lossless(t.s.loop) && OnHand(t.s) == PAGE && TurnVia(t, m, n, t')
    requires ReadsPage(m) && t'.s.reached
    ensures TestInv(t') && StaleFlag(t')
  {
    TurnKeeps(t, t');
    DoesLossless(t.s, [], 0, m);
    DoesLossless(m, [], PAGE, n);
    var puts := if n.wrEmpty then Ramp(t.outData, 16) else [];
    DoesLossless(n, puts, 0, t'.s);
  }

  // ---- When a turn can lose a word ----

  /** Some timing of the turn loses a word. */
  ghost predicate CanLose(t: Test) {
    exists t' :: Turn(t, t') && !Lossless(t'.s.loop)
  }

  /** More than 512 words are on hand at its start, or will be once it has written sixteen more and need not first
      read a page. */
  predicate Crowded(t: Test) {
    OnHand(t.s) > FIFO_DEPTH || (OnHand(t.s) + 16 > FIFO_DEPTH && (!t.s.reached || |t.s.loop.rd| < PAGE))
  }

  /** When a turn can lose a word: from the levels and the read flag at its start. */
  lemma TurnLosesExact(t: Test)
    requires TestInv(t) && Lossless(t.s.loop)
    ensures CanLose(t) <==> Crowded(t)
  {
    if Crowded(t) {
      LosesOne(t);
    } else {
      forall t' | Turn(t, t') ensures Lossless(t'.s.loop) {
        TurnLossless(t, t');
      }
    }
  }

  lemma TurnLossless(t: Test, t': Test)
    requires TestInv(t) && Lossless(t.s.loop) && !Crowded(t) && Turn(t, t')
    ensures Lossless(t'.s.loop) && OnHand(t'.s) <= OnHand(t.s) + 16
  {
    var m, n :| TurnVia(t, m, n, t');
    var gets: nat := if ReadsPage(m) then PAGE else 0;
    var puts := if n.wrEmpty then Ramp(t.outData, 16) else [];
    DoesLossless(t.s, [], 0, m);
    FlagAtTest(t, m);
    DoesLossless(m, [], gets, n);
    DoesLossless(n, puts, 0, t'.s);
  }

  lemma LosesOne(t: Test)
    requires TestInv(t) && Lossless(t.s.loop) && Crowded(t)
    ensures CanLose(t)
  {
    if OnHand(t.s) > FIFO_DEPTH {
      var m := MovesAll(t.s);
      DoesEffects(t.s, [], 0, m);
      LosslessLevels(t.s);
      Overflowed(m);
      LossCarries(t, m);
    } else {
      var m := FlagDown(t.s);
      var n := ReadyToWrite(m);
      var t' := FloodsFrom(t, m, n);
    }
  }

  lemma LossCarries(t: Test, m: Snapshot)
    requires TestInv(t) && OnHand(t.s) >= PAGE && Does(t.s, [], 0, m) && LoopInv(m.loop) && !Lossless(m.loop)
    ensures CanLose(t)
  {
    TurnEndsExact(t, m);
    var n, t' :| TurnVia(t, m, n, t');
    LossStays(m, [], if ReadsPage(m) then PAGE else 0, n);
    LossStays(n, if n.wrEmpty then Ramp(t.outData, 16) else [], 0, t'.s);
  }

  /** The handler finds less than a page in the read FIFO, unless the flag is down already. */
  lemma FlagDown(s: Snapshot) returns (m: Snapshot)
    requires LoopInv(s.loop) && s.trigLevel == PAGE && (!s.reached || |s.loop.rd| < PAGE)
    ensures Does(s, [], 0, m) && m == s.(reached := false)
  {
    DoesNothing(s);
    m := s;
    if s.reached {
      DoesOne(s, [], 0, s, ChecksRead);
      m := Do(s, ChecksRead);
    }
  }

  /** The core empties the write FIFO, and the handler sees that. */
  lemma ReadyToWrite(m: Snapshot) returns (n: Snapshot)
    requires LoopInv(m.loop)
    ensures Does(m, [], 0, n) && LoopInv(n.loop) && n.wrEmpty
    ensures n.loop.sent == m.loop.sent && n.loop.read == m.loop.read
  {
    var k := MovesAll(m);
    DoesOne(m, [], 0, k, ChecksWrite);
    n := Do(k, ChecksWrite);
    DoesEffects(m, [], 0, n);
    assert m.loop.sent + [] == m.loop.sent;
  }

  lemma FloodsFrom(t: Test, m: Snapshot, n: Snapshot) returns (t': Test)
    requires TestInv(t) && Does(t.s, [], 0, m) && !ReadsPage(m) && Does(m, [], 0, n) && LoopInv(n.loop) && n.wrEmpty
    requires InFlight(n.loop) + 16 > FIFO_DEPTH
    ensures Turn(t, t') && !Lossless(t'.s.loop)
  {
    var puts := Ramp(t.outData, 16);
    var k := WritesThrough(n, puts);
    var p := MovesAll(k);
    DoesBoth(n, puts, 0, k, [], 0, p);
    DoesEffects(n, puts, 0, p);
    Overflowed(p);
    t' := Test(p, t.outData + 16, t.pages);
    assert TurnVia(t, m, n, t');
  }

  lemma {:induction false} EarlyLossless(ts: seq<Test>, i: nat)
    requires IsTestRun(ts) && i < |ts| && i <= 32
    ensures TestInv(ts[i]) && Lossless(ts[i].s.loop) && OnHand(ts[i].s) <= 16 * i
  {
    TestRunInv(ts, i);
    if i > 0 {
      EarlyLossless(ts, i - 1);
      assert TurnAt(ts, i - 1);
      TurnLossless(ts[i - 1], ts[i]);
    }
  }

  /** From which turn on the test can have lost a word: 32 turns are safe under every schedule, and any more are not. */
  lemma FirstLossExact(turns: nat)
    ensures (exists ts :: IsTestRun(ts) && |ts| == turns + 1 && !Lossless(Last(ts).s.loop)) <==> turns > 32
  {
    if turns > 32 {
      var ts := LosesUnseen(turns);
    } else {
      forall ts | IsTestRun(ts) && |ts| == turns + 1 ensures Lossless(Last(ts).s.loop) {
        EarlyLossless(ts, turns);
      }
    }
  }
}
