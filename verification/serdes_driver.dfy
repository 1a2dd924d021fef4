/** The SERDES driver's blocking transfers and its two self-tests. */
module SerdesDriver {
  import opened Basics
  import opened SerdesCore
  import opened SerdesLevels
  import opened SerdesTest

  class Serdes {
    var loop: Loop

    // Instance status, set by the interrupt handler.
    var rdOccupancyTrigLevel: nat
    var rdOccupancyReached: bool
    var rdFifoOverRun: bool
    var wrEmpty: bool

    function State(): Snapshot
      reads this
    {
      Snapshot(loop, rdOccupancyTrigLevel, rdOccupancyReached, rdFifoOverRun, wrEmpty)
    }

    ghost predicate Valid()
      reads this
    {
      LoopInv(loop)
    }

    /** SerdesInit: both FIFOs reset, loopback on. */
    constructor SerdesInit(trigLevel: nat)
      ensures Valid() && State() == Snapshot(EMPTY, trigLevel, false, false, true)
    {
      loop := EMPTY;
      rdOccupancyTrigLevel := trigLevel;
      rdOccupancyReached, rdFifoOverRun, wrEmpty := false, false, true;
    }

    // ---- What happens beside the program ----

    /** The serializer moves a word. */
    method MoveWord()
      requires Valid() && loop.wr != []
      modifies this`loop
      ensures Valid() && State() == Do(old(State()), Moves)
    {
      ShiftKeeps(loop);
      loop := Shift(loop);
    }

    /** Time passes: the serializer moves any number of words, at least `least` if there are so many. */
    method Settle(least: nat)
      requires Valid()
      modifies this`loop
      ensures Valid() && Does(old(State()), [], 0, State())
      ensures least <= |old(loop.wr)| ==> |loop.wr| + least <= |old(loop.wr)|
    {
      var steps: nat := *;
      if steps < least { steps := least; }
      ghost var goal := steps;
      DoesNothing(State());
      while steps > 0 && loop.wr != []
        invariant Valid() && Does(old(State()), [], 0, State())
        invariant |loop.wr| + (goal - steps) <= |old(loop.wr)| && steps <= goal
      {
        ghost var before := State();
        MoveWord();
        DoesOne(old(State()), [], 0, before, Moves);
        steps := steps - 1;
      }
    }

    /** SerDesHandler: it samples the two levels one after the other, and always clears the overrun flag. */
    method Handler()
      requires Valid()
      modifies this`loop, this`rdOccupancyReached, this`wrEmpty, this`rdFifoOverRun
      ensures Valid() && Does(old(State()), [], 0, State()) && |loop.wr| <= |old(loop.wr)|
      ensures (wrEmpty <==> loop.wr == []) && !rdFifoOverRun
      ensures rdOccupancyReached == (|old(loop.rd)| >= rdOccupancyTrigLevel)
    {
      DoesNothing(State());
      rdOccupancyReached := |loop.rd| >= rdOccupancyTrigLevel;
      DoesOne(old(State()), [], 0, old(State()), ChecksRead);
      ghost var s := State();
      Settle(0);
      ghost var m := State();
      DoesBoth(old(State()), [], 0, s, [], 0, m);
      wrEmpty := FIFO_DEPTH - |loop.wr| >= 512;
      rdFifoOverRun := false;
      DoesOne(old(State()), [], 0, m, ChecksWrite);
    }

    /** Any stretch of time: the core moves words, and the handler may run, any number of times. */
    method Pause(least: nat)
      requires Valid()
      modifies this
      ensures Valid() && Does(old(State()), [], 0, State())
      ensures least <= |old(loop.wr)| ==> |loop.wr| + least <= |old(loop.wr)|
    {
      Settle(least);
      var times: nat := *;
      while times > 0
        invariant Valid() && Does(old(State()), [], 0, State())
        invariant least <= |old(loop.wr)| ==> |loop.wr| + least <= |old(loop.wr)|
      {
        ghost var s := State();
        Handler();
        ghost var m := State();
        Settle(0);
        DoesBoth(old(State()), [], 0, s, [], 0, m);
        DoesBoth(old(State()), [], 0, m, [], 0, State());
        times := times - 1;
      }
    }

    // ---- The blocking transfers ----

    /** Wait for room. The core moves a word after some finite number of polls. */
    method AwaitRoom()
      requires Valid()
      modifies this
      ensures Valid() && Does(old(State()), [], 0, State()) && |loop.wr| < FIFO_DEPTH
    {
      Pause(0);
      var patience: nat := *;
      while |loop.wr| == FIFO_DEPTH
        invariant Valid() && Does(old(State()), [], 0, State())
        decreases |loop.wr|, patience
      {
        ghost var s := State();
        Pause(if patience == 0 then 1 else 0);
        DoesBoth(old(State()), [], 0, s, [], 0, State());
        if patience > 0 { patience := patience - 1; }
      }
    }

    /** Wait for a word. This never ends exactly when both FIFOs are empty: nothing will ever come. */
    method AwaitWord() returns (hangs: bool)
      requires Valid()
      modifies this
      ensures Valid() && Does(old(State()), [], 0, State())
      ensures if hangs then loop.rd == [] && loop.wr == [] else loop.rd != []
    {
      Pause(0);
      var patience: nat := *;
      while loop.rd == [] && loop.wr != []
        invariant Valid() && Does(old(State()), [], 0, State())
        decreases |loop.wr|, patience
      {
        ghost var s := State();
        Pause(if patience == 0 then 1 else 0);
        DoesBoth(old(State()), [], 0, s, [], 0, State());
        if patience > 0 { patience := patience - 1; }
      }
      hangs := loop.rd == [];
    }

    method PutWord(w: nat)
      requires Valid()
      modifies this
      ensures Valid() && Does(old(State()), [w], 0, State())
    {
      AwaitRoom();
      ghost var s := State();
      PushKeeps(loop, w);
      loop := Push(loop, w);
      DoesOne(old(State()), [], 0, s, Put(w));
      assert [] + [w] == [w];
    }

    method GetWord() returns (hangs: bool, word: nat)
      requires Valid()
      modifies this
      ensures Valid() && Does(old(State()), [], if hangs then 0 else 1, State())
      ensures hangs ==> loop.rd == [] && loop.wr == []
      ensures !hangs ==> loop.read == old(loop.read) + [word]
    {
      hangs := AwaitWord();
      ghost var s := State();
      DoesEffects(old(State()), [], 0, s);
      if hangs {
        word := 0;
      } else {
        word := loop.rd[0];
        PopKeeps(loop);
        loop := Pop(loop);
        DoesOne(old(State()), [], 0, s, Get);
      }
    }

    /** SerdesWriteBuf: for each word wait for room, then write. */
    method WriteBuf(buf: array<nat>, count: nat)
      requires Valid() && count <= buf.Length
      modifies this
      ensures Valid() && Does(old(State()), buf[..count], 0, State())
    {
      DoesNothing(State());
      var i := 0;
      while i < count
        invariant i <= count && Valid() && Does(old(State()), buf[..i], 0, State())
      {
        ghost var s := State();
        PutWord(buf[i]);
        DoesBoth(old(State()), buf[..i], 0, s, [buf[i]], 0, State());
        i := i + 1;
        assert buf[..i] == buf[..i - 1] + [buf[i - 1]];
      }
    }

    /** One word of SerdesReadBuf, after the words in buf[..i]. */
    method GetInto(buf: array<nat>, i: nat, ghost read0: seq<nat>) returns (hangs: bool)
      requires Valid() && i < buf.Length && loop.read == read0 + buf[..i]
      modifies this, buf
      ensures Valid() && Does(old(State()), [], if hangs then 0 else 1, State())
      ensures forall j :: 0 <= j < buf.Length && (hangs || j != i) ==> buf[j] == old(buf[j])
      ensures if hangs then loop.rd == [] && loop.wr == [] && loop.read == read0 + buf[..i]
              else loop.read == read0 + buf[..i + 1]
    {
      ghost var s, front := State(), buf[..i];
      var word;
      hangs, word := GetWord();
      if hangs {
        DoesEffects(s, [], 0, State());
      } else {
        buf[i] := word;
        assert buf[..i + 1] == front + [word];
        Associates(read0, front, [word]);
      }
    }

    /** SerdesReadBuf: for each word wait until there is one, then read. `got` words are read before it returns or
        hangs; a read of at most 512 words hangs exactly if fewer are on hand when it starts. */
    method ReadBuf(buf: array<nat>, count: nat) returns (hangs: bool, ghost got: nat)
      requires Valid() && count <= buf.Length
      modifies this, buf
      ensures Valid() && Does(old(State()), [], got, State()) && got <= count
      ensures loop.read == old(loop.read) + buf[..got]
      ensures forall j :: got <= j < buf.Length ==> buf[j] == old(buf[j])
      ensures if hangs then Starved(State()) && got < count else got == count
      ensures if hangs then Safe(old(State())) < count else count <= OnHand(old(State()))
      ensures count <= FIFO_DEPTH ==> (hangs <==> OnHand(old(State())) < count)
    {
      DoesNothing(State());
      hangs := false;
      var i := 0;
      while i < count
        invariant i <= count && Valid() && Does(old(State()), [], i, State()) && !hangs
        invariant loop.read == old(loop.read) + buf[..i]
        invariant forall j :: i <= j < buf.Length ==> buf[j] == old(buf[j])
      {
        ghost var s := State();
        hangs := GetInto(buf, i, old(loop.read));
        DoesBoth(old(State()), [], i, s, [], if hangs then 0 else 1, State());
        if hangs {
          DoesLevels(old(State()), i, State());
          return true, i;
        }
        i := i + 1;
      }
      DoesLevels(old(State()), count, State());
      got := count;
    }
  }

  // ---- SerdesSelfTest ----

  /** Read back everything that was sent, with nothing dropped: the FIFOs are empty. */
  lemma AllRead(l: Loop)
    requires LoopInv(l) && Lossless(l) && |l.read| == |l.sent|
    ensures l.read == l.sent && l.rd == [] && l.wr == []
  {
    AllThere(l);
    assert |l.read + (l.rd + l.wr)| == |l.sent|;
  }

  /** Nothing dropped and fewer words read than sent: a read cannot hang. */
  lemma CannotHang(l: Loop)
    requires LoopInv(l) && Lossless(l) && |l.read| < |l.sent|
    ensures l.rd != [] || l.wr != []
  {
  }

  /** The write buffer's next sixteen words, from the one in place 0. */
  method NextWords(wrBuf: array<nat>, k: nat)
    requires wrBuf.Length == 16 && wrBuf[0] == k % U32_RANGE
    modifies wrBuf
    ensures wrBuf[..] == Ramp(k, 16)
  {
    for i := 1 to 16
      invariant forall j :: 0 <= j < i ==> wrBuf[j] == (k + j) % U32_RANGE
    {
      wrBuf[i] := (wrBuf[0] + i) % U32_RANGE;
    }
  }

  /** Between turns: k words have gone round, and there were never more than sixteen on the way. */
  ghost predicate Rounds(s: Serdes, k: nat)
    reads s
  {
    s.Valid() && s.loop.read == s.loop.sent == Ramp(0, k) && s.loop.peak <= 16
  }

  /** Sixteen words written. */
  method SendRound(s: Serdes, wrBuf: array<nat>, k: nat)
    requires Rounds(s, k) && wrBuf.Length == 16 && wrBuf[..] == Ramp(k, 16)
    modifies s
    ensures s.Valid() && s.loop.sent == Ramp(0, k + 16) && s.loop.read == Ramp(0, k) && s.loop.peak <= 16
  {
    assert wrBuf[..16] == wrBuf[..];
    ghost var before := s.State();
    s.WriteBuf(wrBuf, 16);
    DoesEffects(before, wrBuf[..16], 0, s.State());
    RampChains(k, 16);
  }

  /** And read back. */
  method ReceiveRound(s: Serdes, rdBuf: array<nat>, k: nat)
    requires s.Valid() && s.loop.sent == Ramp(0, k + 16) && s.loop.read == Ramp(0, k) && s.loop.peak <= 16
    requires rdBuf.Length == 16
    modifies s, rdBuf
    ensures Rounds(s, k + 16) && rdBuf[..] == Ramp(k, 16)
  {
    ghost var before := s.State();
    var hangs;
    ghost var got;
    hangs, got := s.ReadBuf(rdBuf, 16);
    DoesEffects(before, [], got, s.State());
    if hangs {
      CannotHang(s.loop);
      assert false;
    }
    assert rdBuf[..16] == rdBuf[..];
    RoundRead(s.loop, k, rdBuf[..]);
  }

  lemma RoundRead(l: Loop, k: nat, words: seq<nat>)
    requires LoopInv(l) && Lossless(l) && |words| == 16
    requires l.sent == Ramp(0, k + 16) && l.read == Ramp(0, k) + words
    ensures l.read == l.sent && words == Ramp(k, 16)
  {
    AllRead(l);
    RampTail(k, words);
  }

  lemma RampTail(k: nat, tail: seq<nat>)
    requires Ramp(0, k) + tail == Ramp(0, k + |tail|)
    ensures tail == Ramp(k, |tail|)
  {
    RampChains(k, |tail|);
    assert tail == (Ramp(0, k) + tail)[k..] && Ramp(k, |tail|) == (Ramp(0, k) + Ramp(k, |tail|))[k..];
  }

  /** One turn of SerdesSelfTest's loop, k words having gone round so far. */
  method SelfTestTurn(s: Serdes, wrBuf: array<nat>, rdBuf: array<nat>, k: nat)
    requires Rounds(s, k) && wrBuf.Length == rdBuf.Length == 16 && wrBuf != rdBuf && wrBuf[0] == k % U32_RANGE
    modifies s, wrBuf, rdBuf
    ensures Rounds(s, k + 16) && wrBuf[0] == (k + 16) % U32_RANGE && rdBuf[..] == Ramp(k, 16)
  {
    NextWords(wrBuf, k);
    SendRound(s, wrBuf, k);
    wrBuf[0] := (wrBuf[0] + 16) % U32_RANGE;
    ReceiveRound(s, rdBuf, k);
  }

  /**
   * `rounds` turns of SerdesSelfTest's endless loop, the core moving words at any moment and the handler running
   * at any moment. Every turn ends, nothing is dropped, and what is printed is 0, 1, 2, ... modulo 2^32: the
   * k-th word read back is the k-th word written.
   */
  method SerdesSelfTest(rounds: nat) returns (printed: seq<nat>)
    ensures printed == Ramp(0, 16 * rounds)
  {
    var s := new Serdes.SerdesInit(0);
    var wrBuf, rdBuf := new nat[16], new nat[16];
    wrBuf[0] := 0;
    printed := [];
    for r := 0 to rounds
      invariant fresh(s) && Rounds(s, 16 * r) && printed == Ramp(0, 16 * r)
      invariant wrBuf[0] == (16 * r) % U32_RANGE
    {
      SelfTestTurn(s, wrBuf, rdBuf, 16 * r);
      RampChains(16 * r, 16);
      printed := printed + rdBuf[..];
    }
  }

  // ---- SerdesInterruptTest ----

  /** The reading half of a turn: a page, if the flags say so. */
  method ReadPage(s: Serdes, rdBuf: array<nat>) returns (grabbed: bool, hangs: bool, ghost got: nat)
    requires s.Valid() && rdBuf.Length == PAGE
    modifies s, rdBuf
    ensures s.Valid() && Does(old(s.State()), [], got, s.State())
    ensures grabbed == ReadsPage(old(s.State())) && (hangs <==> grabbed && OnHand(old(s.State())) < PAGE)
    ensures hangs ==> got < PAGE && Starved(s.State())
    ensures !hangs ==> got == (if grabbed then PAGE else 0)
    ensures !hangs ==> s.loop.read == if grabbed then old(s.loop.read) + rdBuf[..] else old(s.loop.read)
  {
    DoesNothing(s.State());
    grabbed, hangs, got := false, false, 0;
    if s.rdOccupancyReached {
      if !s.rdFifoOverRun {
        hangs, got := s.ReadBuf(rdBuf, PAGE);
        assert !hangs ==> rdBuf[..got] == rdBuf[..];
        grabbed := true;
      }
    }
  }

  /** The writing half: sixteen more words, if the flag says so. */
  method WriteBurst(s: Serdes, wrBuf: array<nat>, outData: nat) returns (outData': nat)
    requires s.Valid() && wrBuf.Length == 16
    modifies s, wrBuf
    ensures s.Valid() && Does(old(s.State()), if old(s.wrEmpty) then Ramp(outData, 16) else [], 0, s.State())
    ensures outData' == outData + if old(s.wrEmpty) then 16 else 0
  {
    DoesNothing(s.State());
    outData' := outData;
    if s.wrEmpty {
      for j := 0 to 16
        modifies wrBuf
        invariant outData' == outData + j
        invariant forall i :: 0 <= i < j ==> wrBuf[i] == (outData + i) % U32_RANGE
      {
        wrBuf[j] := outData' % U32_RANGE;
        outData' := outData' + 1;
      }
      assert wrBuf[..16] == Ramp(outData, 16);
      s.WriteBuf(wrBuf, 16);
    }
  }

  /** A turn up to the end of its read; m is the instance when the flags are tested. */
  method ReadHalf(s: Serdes, rdBuf: array<nat>) returns (grabbed: bool, hangs: bool, ghost m: Snapshot, ghost got: nat)
    requires s.Valid() && rdBuf.Length == PAGE
    modifies s, rdBuf
    ensures s.Valid() && Does(old(s.State()), [], 0, m) && Does(m, [], got, s.State())
    ensures grabbed == ReadsPage(m) && (hangs <==> grabbed && OnHand(old(s.State())) < PAGE)
    ensures if hangs then got < PAGE && Starved(s.State()) else got == (if grabbed then PAGE else 0)
    ensures !hangs ==> s.loop.read == if grabbed then old(s.loop.read) + rdBuf[..] else old(s.loop.read)
  {
    s.Pause(0);
    m := s.State();
    DoesLevels(old(s.State()), 0, m);
    DoesEffects(old(s.State()), [], 0, m);
    grabbed, hangs, got := ReadPage(s, rdBuf);
  }

  /** The rest of it, which reads nothing. */
  method WriteHalf(s: Serdes, wrBuf: array<nat>, outData: nat) returns (outData': nat, ghost n: Snapshot)
    requires s.Valid() && wrBuf.Length == 16
    modifies s, wrBuf
    ensures s.Valid() && s.loop.read == old(s.loop.read) && Does(old(s.State()), [], 0, n)
    ensures Does(n, if n.wrEmpty then Ramp(outData, 16) else [], 0, s.State())
    ensures outData' == outData + if n.wrEmpty then 16 else 0
  {
    s.Pause(0);
    n := s.State();
    DoesEffects(old(s.State()), [], 0, n);
    outData' := WriteBurst(s, wrBuf, outData);
    DoesEffects(n, if n.wrEmpty then Ramp(outData, 16) else [], 0, s.State());
  }

  /** One turn of SerdesInterruptTest's loop: a turn of the transition system, unless its read hangs. It hangs
      exactly if the flags call for a read though less than a page was on hand at its start. */
  method InterruptTestTurn(s: Serdes, rdBuf: array<nat>, wrBuf: array<nat>, outData: nat, ghost pages: nat)
    returns (outData': nat, grabbed: bool, hangs: bool)
    requires s.Valid() && rdBuf.Length == PAGE && wrBuf.Length == 16 && rdBuf != wrBuf
    modifies s, rdBuf, wrBuf
    ensures s.Valid() && (hangs <==> grabbed && OnHand(old(s.State())) < PAGE)
    ensures !hangs ==>
              && Turn(Test(old(s.State()), outData, pages), Test(s.State(), outData', pages + if grabbed then 1 else 0))
              && s.loop.read == if grabbed then old(s.loop.read) + rdBuf[..] else old(s.loop.read)
    ensures hangs ==>
              exists m, got :: HangsVia(Test(old(s.State()), outData, pages), m, got, s.State())
  {
    ghost var m, got;
    grabbed, hangs, m, got := ReadHalf(s, rdBuf);
    if hangs {
      assert HangsVia(Test(old(s.State()), outData, pages), m, got, s.State());
      return outData, grabbed, true;
    }
    ghost var k := s.State();
    ghost var n;
    outData', n := WriteHalf(s, wrBuf, outData);
    DoesBoth(m, [], got, k, [], 0, n);
    ghost var t' := Test(s.State(), outData', pages + if grabbed then 1 else 0);
    assert TurnVia(Test(old(s.State()), outData, pages), m, n, t');
  }

  /** A turn with the bookkeeping of the pages stored. */
  method StoringTurn(s: Serdes, rdBuf: array<nat>, wrBuf: array<nat>, outData: nat, stored: seq<nat>, pages: nat)
    returns (outData': nat, stored': seq<nat>, pages': nat, hangs: bool)
    requires s.Valid() && stored == s.loop.read
    requires rdBuf.Length == PAGE && wrBuf.Length == 16 && rdBuf != wrBuf
    modifies s, rdBuf, wrBuf
    ensures s.Valid()
    ensures !hangs ==>
              && stored' == s.loop.read && pages' <= pages + 1
              && Turn(Test(old(s.State()), outData, pages), Test(s.State(), outData', pages'))
    ensures hangs ==>
              && stored' == stored && pages' == pages
              && exists m, got :: HangsVia(Test(old(s.State()), outData, pages), m, got, s.State())
  {
    stored', pages' := stored, pages;
    var grabbed;
    outData', grabbed, hangs := InterruptTestTurn(s, rdBuf, wrBuf, outData, pages);
    if !hangs && grabbed {
      stored', pages' := stored + rdBuf[..], pages + 1;
    }
  }

  /**
   * SerdesInterruptTest, watched for any number of turns of its loop, the core moving words and the handler
   * running at any moment. It is a run of the transition system, so what is proved of those holds: whatever it
   * has read obeys ReadsRamp, the pages it stored are that reading, no word is dropped while no more than 512
   * are on their way, and it never reports an overrun. This holds even while a read hangs. It makes all the
   * turns, unless it has its 512 pages or a read hangs before.
   */
  method SerdesInterruptTest(turns: nat)
    returns (s: Serdes, stored: seq<nat>, pages: nat, hangs: bool, ghost ts: seq<Test>)
    ensures s.Valid() && ReadsRamp(s.loop) && !s.rdFifoOverRun
    ensures s.loop.peak <= FIFO_DEPTH ==> Lossless(s.loop)
    ensures stored <= s.loop.read && |stored| == PAGE * pages && pages <= PAGES
    ensures IsTestRun(ts) && (!hangs ==> Last(ts).s == s.State() && Last(ts).pages == pages && stored == s.loop.read)
    ensures hangs ==> StaleFlag(Last(ts)) && Starved(s.State())
    ensures if hangs then pages < 512 && |ts| <= turns else |ts| <= turns + 1 && (pages == 512 || |ts| == turns + 1)
  {
    s := new Serdes.SerdesInit(PAGE);
    var rdBuf, wrBuf := new nat[PAGE], new nat[16];
    var outData, t := 0, 0;
    stored, pages, hangs := [], 0, false;
    ts := [Test(START, 0, 0)];
    while pages < PAGES && t < turns
      invariant fresh(s) && s.Valid() && !hangs && stored == s.loop.read && pages <= PAGES
      invariant IsTestRun(ts) && Last(ts) == Test(s.State(), outData, pages) && |ts| == t + 1 && t <= turns
      decreases turns - t
    {
      outData, stored, pages, hangs := StoringTurn(s, rdBuf, wrBuf, outData, stored, pages);
      if hangs {
        HangsOnRamp(ts, s.State());
        return;
      }
      TestRunExtends(ts, Test(s.State(), outData, pages));
      ts, t := ts + [Test(s.State(), outData, pages)], t + 1;
    }
    TestReadsRamp(ts);
  }
}
