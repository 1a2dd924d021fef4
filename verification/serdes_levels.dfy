/** What the levels of the two FIFOs say about the reads and the losses still to come. */
module SerdesLevels {
  import opened Basics
  import opened SerdesCore

  /** The words on hand, wherever they are. */
  function OnHand(s: Snapshot): nat {
    |s.loop.rd| + |s.loop.wr|
  }

  /** As many of them as no timing of the core can lose. */
  function Safe(s: Snapshot): nat {
    if OnHand(s) < FIFO_DEPTH then OnHand(s) else FIFO_DEPTH
  }

  /** The driver waits for a word and there is none anywhere. */
  predicate Starved(s: Snapshot) {
    s.loop.rd == [] && s.loop.wr == []
  }

  // ---- What any timing does to the words on hand ----

  /** Reading takes words away, and so does the core when it moves one to a full FIFO. */
  lemma {:induction false} RanLevels(s: Snapshot, es: seq<Event>, s': Snapshot)
    requires LoopInv(s.loop) && Ran(s, es, s') && Puts(es) == []
    ensures LoopInv(s'.loop) && Safe(s) <= Gets(es) + OnHand(s') <= OnHand(s)
  {
    RanEffects(s, es, s');
    if es != [] {
      var m :| Ran(s, Front(es), m) && Happens(m, Last(es), s');
      RanLevels(s, Front(es), m);
    }
  }

  lemma DoesLevels(s: Snapshot, gets: nat, s': Snapshot)
    requires LoopInv(s.loop) && Does(s, [], gets, s')
    ensures LoopInv(s'.loop) && Safe(s) <= gets + OnHand(s') <= OnHand(s)
  {
    var es :| Ran(s, es, s') && Puts(es) == [] && Gets(es) == gets;
    RanLevels(s, es, s');
  }

  /** Nothing the core or the handler does ends a wait for a word that is nowhere. */
  lemma StarvedForever(s: Snapshot, gets: nat, s': Snapshot)
    requires LoopInv(s.loop) && Starved(s) && Does(s, [], gets, s')
    ensures Starved(s') && gets == 0
  {
    DoesLevels(s, gets, s');
  }

  // ---- Some timings ----

  lemma DoesThen(s: Snapshot, e: Event, m: Snapshot, puts: seq<nat>, gets: nat, s': Snapshot)
    requires Can(s, e) && m == Do(s, e) && !e.Put? && Does(m, puts, gets, s')
    ensures Does(s, puts, gets + (if e.Get? then 1 else 0), s')
  {
    DoesNothing(s);
    DoesOne(s, [], 0, s, e);
    DoesBoth(s, [], if e.Get? then 1 else 0, m, puts, gets, s');
  }

  /** The core moves every word: those the read FIFO has no room for are lost. */
  lemma {:induction false} MovesAll(s: Snapshot) returns (s': Snapshot)
    requires |s.loop.rd| <= FIFO_DEPTH
    ensures Does(s, [], 0, s') && s' == s.(loop := s'.loop)
    ensures s'.loop.wr == [] && |s'.loop.rd| == Safe(s)
    decreases |s.loop.wr|
  {
    if s.loop.wr == [] {
      DoesNothing(s);
      s' := s;
    } else {
      s' := MovesAll(Do(s, Moves));
      DoesThen(s, Moves, Do(s, Moves), [], 0, s');
    }
  }

  lemma {:induction false} ReadsOff(s: Snapshot, k: nat) returns (s': Snapshot)
    requires k <= |s.loop.rd|
    ensures Does(s, [], k, s') && s' == s.(loop := s'.loop)
    ensures s'.loop.rd == s.loop.rd[k..] && s'.loop.wr == s.loop.wr
  {
    if k == 0 {
      DoesNothing(s);
      s' := s;
    } else {
      var m := ReadsOff(s, k - 1);
      DoesOne(s, [], k - 1, m, Get);
      s' := Do(m, Get);
    }
  }

  /** The core moves a word just when the driver waits for one: none is lost. */
  lemma {:induction false} ReadsThrough(s: Snapshot, count: nat) returns (s': Snapshot)
    requires count <= OnHand(s)
    ensures Does(s, [], count, s')
    decreases count
  {
    if count == 0 {
      DoesNothing(s);
      s' := s;
    } else {
      var m := if s.loop.rd == [] then Do(s, Moves) else s;
      s' := ReadsThrough(Do(m, Get), count - 1);
      DoesThen(m, Get, Do(m, Get), [], count - 1, s');
      if s.loop.rd == [] {
        DoesThen(s, Moves, m, [], count, s');
      }
    }
  }

  /** The core makes room whenever the driver waits for it. */
  lemma {:induction false} WritesThrough(s: Snapshot, puts: seq<nat>) returns (s': Snapshot)
    requires LoopInv(s.loop)
    ensures Does(s, puts, 0, s') && LoopInv(s'.loop) && s' == s.(loop := s'.loop)
  {
    if puts == [] {
      DoesNothing(s);
      s' := s;
    } else {
      var m := WritesThrough(s, Front(puts));
      s' := WritesOne(s, Front(puts), m, Last(puts));
      assert Front(puts) + [Last(puts)] == puts;
    }
  }

  lemma WritesOne(s: Snapshot, puts: seq<nat>, k: Snapshot, w: nat) returns (s': Snapshot)
    requires Does(s, puts, 0, k) && LoopInv(k.loop)
    ensures Does(s, puts + [w], 0, s') && LoopInv(s'.loop) && s' == k.(loop := s'.loop)
  {
    var m := k;
    if |k.loop.wr| == FIFO_DEPTH {
      DoesOne(s, puts, 0, k, Moves);
      ShiftKeeps(k.loop);
      m := Do(k, Moves);
    }
    DoesOne(s, puts, 0, m, Put(w));
    PushKeeps(m.loop, w);
    s' := Do(m, Put(w));
  }

  // ---- When a read ends ----

  /** Some timing lets a read of `count` words end. */
  ghost predicate CanEnd(s: Snapshot, count: nat) {
    exists s' :: Does(s, [], count, s')
  }

  /** No timing makes it hang. */
  ghost predicate MustEnd(s: Snapshot, count: nat) {
    forall got: nat, s' :: got < count && Does(s, [], got, s') ==> !Starved(s')
  }

  /**
   * When a read ends, from the levels at its start. Some timing of the core lets it end if and only if the words
   * are on hand, in either FIFO; every timing does if and only if besides they are not more than the read FIFO
   * can hold. So a read of up to 512 words does not depend on the timing at all.
   */
  lemma ReadEndsExact(s: Snapshot, count: nat)
    requires LoopInv(s.loop)
    ensures CanEnd(s, count) <==> count <= OnHand(s)
    ensures MustEnd(s, count) <==> count <= Safe(s)
  {
    forall got: nat, s' | Does(s, [], got, s')
      ensures got <= OnHand(s) && (Starved(s') ==> Safe(s) <= got)
    {
      DoesLevels(s, got, s');
    }
    if count <= OnHand(s) {
      var s' := ReadsThrough(s, count);
    }
    if Safe(s) < count {
      var m := MovesAll(s);
      var s' := ReadsOff(m, Safe(s));
      DoesBoth(s, [], 0, m, [], Safe(s), s');
      assert Does(s, [], Safe(s), s') && Starved(s');
    }
  }

  // ---- When a word is lost ----

  lemma LosslessLevels(s: Snapshot)
    requires LoopInv(s.loop)
    ensures Lossless(s.loop) <==> OnHand(s) == InFlight(s.loop)
  {
  }

  /** With never more than 512 words on hand nothing is lost. */
  lemma {:induction false} RanLossless(s: Snapshot, es: seq<Event>, s': Snapshot)
    requires LoopInv(s.loop) && Lossless(s.loop) && Ran(s, es, s') && OnHand(s) + |Puts(es)| <= FIFO_DEPTH
    ensures LoopInv(s'.loop) && Lossless(s'.loop) && OnHand(s') + Gets(es) == OnHand(s) + |Puts(es)|
  {
    RanEffects(s, es, s');
    if es != [] {
      var m :| Ran(s, Front(es), m) && Happens(m, Last(es), s');
      RanLossless(s, Front(es), m);
      LosslessLevels(s);
    }
  }

  lemma DoesLossless(s: Snapshot, puts: seq<nat>, gets: nat, s': Snapshot)
    requires LoopInv(s.loop) && Lossless(s.loop) && Does(s, puts, gets, s') && OnHand(s) + |puts| <= FIFO_DEPTH
    ensures LoopInv(s'.loop) && Lossless(s'.loop) && OnHand(s') + gets == OnHand(s) + |puts|
  {
    var es :| Ran(s, es, s') && Puts(es) == puts && Gets(es) == gets;
    RanLossless(s, es, s');
  }

  /** A lost word stays lost. */
  lemma {:induction false} RanLossStays(s: Snapshot, es: seq<Event>, s': Snapshot)
    requires LoopInv(s.loop) && !Lossless(s.loop) && Ran(s, es, s')
    ensures LoopInv(s'.loop) && !Lossless(s'.loop)
  {
    RanEffects(s, es, s');
    if es != [] {
      var m :| Ran(s, Front(es), m) && Happens(m, Last(es), s');
      RanLossStays(s, Front(es), m);
    }
  }

  lemma LossStays(s: Snapshot, puts: seq<nat>, gets: nat, s': Snapshot)
    requires LoopInv(s.loop) && !Lossless(s.loop) && Does(s, puts, gets, s')
    ensures LoopInv(s'.loop) && !Lossless(s'.loop)
  {
    var es :| Ran(s, es, s') && Puts(es) == puts && Gets(es) == gets;
    RanLossStays(s, es, s');
  }

  /** More than 512 words sent and not read, and none left to move: some are lost. */
  lemma Overflowed(s: Snapshot)
    requires LoopInv(s.loop) && s.loop.wr == [] && InFlight(s.loop) > FIFO_DEPTH
    ensures !Lossless(s.loop)
  {
  }

  /** When a word can be lost. While the driver does something else, some timing of the core loses a word if and
      only if more than 512 are on hand, however few of them are in the read FIFO. */
  lemma LossExact(s: Snapshot)
    requires LoopInv(s.loop) && Lossless(s.loop)
    ensures (forall s' :: Does(s, [], 0, s') ==> Lossless(s'.loop)) <==> OnHand(s) <= FIFO_DEPTH
  {
    if OnHand(s) <= FIFO_DEPTH {
      forall s' | Does(s, [], 0, s') ensures Lossless(s'.loop) {
        DoesLossless(s, [], 0, s');
      }
    } else {
      var s' := MovesAll(s);
      DoesEffects(s, [], 0, s');
      LosslessLevels(s);
      Overflowed(s');
    }
  }
}
