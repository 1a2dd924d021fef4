/** The SERDES core in loopback: words go from the write FIFO to the read FIFO, and are dropped when it is full. */
module SerdesCore {
  import opened Basics

  const FIFO_DEPTH: nat := 512

  /**
   * The FIFOs with their history: every word written, every word read, how many words have left the write
   * FIFO, which of those (by position in `sent`) the read FIFO took, and the most words there ever were
   * between writing and reading.
   */
  datatype Loop = Loop(
    wr: seq<nat>, rd: seq<nat>, sent: seq<nat>, read: seq<nat>, moved: nat, kept: seq<nat>, peak: nat)

  const EMPTY: Loop := Loop([], [], [], [], 0, [], 0)

  ghost predicate LoopInv(l: Loop) {
    && |l.wr| <= FIFO_DEPTH && |l.rd| <= FIFO_DEPTH
    && l.moved <= |l.sent| && l.wr == l.sent[l.moved..]
    && |l.kept| == |l.read| + |l.rd|
    && (forall i :: 0 <= i < |l.kept| ==> i <= l.kept[i] < l.moved && l.sent[l.kept[i]] == (l.read + l.rd)[i])
    && (forall i, j :: 0 <= i < j < |l.kept| ==> l.kept[i] < l.kept[j])
    && |l.kept| <= l.moved
    && InFlight(l) <= l.peak && (l.peak <= FIFO_DEPTH ==> Lossless(l))
  }

  /** The serializer takes one word and feeds it back. */
  function Shift(l: Loop): Loop
    requires l.wr != []
  {
    var m := l.(wr := l.wr[1..], moved := l.moved + 1);
    if |l.rd| < FIFO_DEPTH then m.(rd := l.rd + [l.wr[0]], kept := l.kept + [l.moved]) else m
  }

  function Push(l: Loop, w: nat): Loop {
    var m := l.(wr := l.wr + [w], sent := l.sent + [w]);
    if InFlight(m) > l.peak then m.(peak := InFlight(m)) else m
  }

  function Pop(l: Loop): Loop
    requires l.rd != []
  {
    l.(rd := l.rd[1..], read := l.read + [l.rd[0]])
  }

  lemma ShiftKeeps(l: Loop)
    requires LoopInv(l) && l.wr != []
    ensures LoopInv(Shift(l))
  {
    var m := Shift(l);
    assert l.wr[0] == l.sent[l.moved];
    assert m.wr == l.sent[l.moved + 1..];
    if |l.rd| < FIFO_DEPTH {
      assert m.read + m.rd == (l.read + l.rd) + [l.wr[0]];
    }
    if l.peak <= FIFO_DEPTH {
      ShiftLossless(l);
    }
  }

  lemma PushKeeps(l: Loop, w: nat)
    requires LoopInv(l) && |l.wr| < FIFO_DEPTH
    ensures LoopInv(Push(l, w))
  {
    assert (l.sent + [w])[l.moved..] == l.sent[l.moved..] + [w];
  }

  lemma PopKeeps(l: Loop)
    requires LoopInv(l) && l.rd != []
    ensures LoopInv(Pop(l))
  {
    assert Pop(l).read + Pop(l).rd == l.read + l.rd;
  }

  /** Whether no word has been dropped. */
  predicate Lossless(l: Loop) {
    |l.kept| == l.moved
  }

  /** Words written and not yet read, as long as none was dropped. */
  function InFlight(l: Loop): int {
    |l.sent| - |l.read|
  }

  /** With no more than a FIFO's depth in flight, nothing is dropped. */
  lemma ShiftLossless(l: Loop)
    requires LoopInv(l) && l.wr != [] && Lossless(l) && InFlight(l) <= FIFO_DEPTH
    ensures Lossless(Shift(l))
  {
    assert |l.wr| == |l.sent| - l.moved;
  }

  /**
   * What was read is the beginning of what was sent, position by position, exactly as long as every word
   * moved before the last one read was kept; and without any drop nothing is missing anywhere.
   */
  lemma LoopExact(l: Loop)
    requires LoopInv(l)
    ensures Lossless(l) ==> l.read + l.rd + l.wr == l.sent
    ensures (forall i :: 0 <= i < |l.read| ==> l.kept[i] == i) <==>
            (|l.read| > 0 ==> l.kept[|l.read| - 1] == |l.read| - 1)
    ensures forall i :: 0 <= i < |l.read| ==> l.read[i] == l.sent[l.kept[i]]
  {
    forall i | 0 <= i < |l.read| ensures l.read[i] == l.sent[l.kept[i]] {
      assert (l.read + l.rd)[i] == l.read[i];
    }
    if |l.read| > 0 && l.kept[|l.read| - 1] == |l.read| - 1 {
      Squeezed(l.kept, |l.read| - 1);
    }
    if Lossless(l) && l.moved > 0 {
      Squeezed(l.kept, l.moved - 1);
      assert l.read + l.rd == l.sent[..l.moved];
    }
  }

  lemma AllThere(l: Loop)
    requires LoopInv(l) && Lossless(l)
    ensures l.read + (l.rd + l.wr) == l.sent
  {
    LoopExact(l);
    Associates(l.read, l.rd, l.wr);
  }

  /** Strictly increasing positions, each at least its index, that end on their index never skip. */
  lemma {:induction false} Squeezed(kept: seq<nat>, n: nat)
    requires n < |kept| && kept[n] <= n
    requires forall i :: 0 <= i < |kept| ==> i <= kept[i]
    requires forall i, j :: 0 <= i < j < |kept| ==> kept[i] < kept[j]
    ensures forall i :: 0 <= i <= n ==> kept[i] == i
  {
    if n > 0 {
      assert kept[n - 1] < kept[n];
      Squeezed(kept, n - 1);
    }
  }

  // ---- Everything that can happen to a driver instance and its core ----

  /** The core and the instance's status fields. */
  datatype Snapshot = Snapshot(loop: Loop, trigLevel: nat, reached: bool, overRun: bool, wrEmpty: bool)

  /**
   * The core moves a word; the interrupt handler reads the read FIFO's level, or the write FIFO's and ends; the
   * driver writes or reads a word.
   */
  datatype Event = Moves | ChecksRead | ChecksWrite | Put(word: nat) | Get

  predicate Can(s: Snapshot, e: Event) {
    match e
    case Moves => s.loop.wr != []
    case Put(w) => |s.loop.wr| < FIFO_DEPTH
    case Get => s.loop.rd != []
    case _ => true
  }

  function Do(s: Snapshot, e: Event): Snapshot
    requires Can(s, e)
  {
    match e
    case Moves => s.(loop := Shift(s.loop))
    case ChecksRead => s.(reached := |s.loop.rd| >= s.trigLevel)
    case ChecksWrite => s.(wrEmpty := FIFO_DEPTH - |s.loop.wr| >= 512, overRun := false)
    case Put(w) => s.(loop := Push(s.loop, w))
    case Get => s.(loop := Pop(s.loop))
  }

  /** These events lead from s to s'. */
  ghost predicate Ran(s: Snapshot, es: seq<Event>, s': Snapshot) {
    if es == [] then s' == s
    else exists m :: Ran(s, Front(es), m) && Happens(m, Last(es), s')
  }

  ghost predicate Happens(m: Snapshot, e: Event, s': Snapshot) {
    Can(m, e) && s' == Do(m, e)
  }

  lemma RanOne(s: Snapshot, es: seq<Event>, m: Snapshot, e: Event)
    requires Ran(s, es, m) && Can(m, e)
    ensures Ran(s, es + [e], Do(m, e))
  {
    assert Front(es + [e]) == es && Happens(m, e, Do(m, e));
  }

  lemma {:induction false} RanChains(s: Snapshot, a: seq<Event>, m: Snapshot, b: seq<Event>, n: Snapshot)
    requires Ran(s, a, m) && Ran(m, b, n)
    ensures Ran(s, a + b, n)
  {
    if b == [] {
      assert a + b == a;
    } else {
      var front, e := Front(b), Last(b);
      var k :| Ran(m, front, k) && Happens(k, e, n);
      RanChains(s, a, m, front, k);
      RanOne(s, a + front, k, e);
      assert (a + front) + [e] == a + b;
    }
  }

  /** The words the driver writes, and how many it reads. */
  function Puts(es: seq<Event>): seq<nat> {
    if es == [] then [] else Puts(Front(es)) + (if Last(es).Put? then [Last(es).word] else [])
  }

  function Gets(es: seq<Event>): nat {
    if es == [] then 0 else Gets(Front(es)) + (if Last(es).Get? then 1 else 0)
  }

  lemma TransfersOne(es: seq<Event>, e: Event)
    ensures Puts(es + [e]) == Puts(es) + (if e.Put? then [e.word] else [])
    ensures Gets(es + [e]) == Gets(es) + (if e.Get? then 1 else 0)
  {
    assert Front(es + [e]) == es;
  }

  lemma {:induction false} TransfersConcat(a: seq<Event>, b: seq<Event>)
    ensures Puts(a + b) == Puts(a) + Puts(b) && Gets(a + b) == Gets(a) + Gets(b)
  {
    if b == [] {
      assert a + b == a;
    } else {
      var front, e := Front(b), Last(b);
      TransfersConcat(a, front);
      TransfersOne(a + front, e);
      assert (a + front) + [e] == a + b;
      Associates(Puts(a), Puts(front), if e.Put? then [e.word] else []);
    }
  }

  /** Some events lead from s to s' in which the driver writes these words and reads so many; the core and the
      handler act at any moment. */
  ghost predicate Does(s: Snapshot, puts: seq<nat>, gets: nat, s': Snapshot) {
    exists es :: Ran(s, es, s') && Puts(es) == puts && Gets(es) == gets
  }

  lemma DoesNothing(s: Snapshot)
    ensures Does(s, [], 0, s)
  {
    assert Ran(s, [], s);
  }

  lemma DoesOne(s: Snapshot, puts: seq<nat>, gets: nat, m: Snapshot, e: Event)
    requires Does(s, puts, gets, m) && Can(m, e)
    ensures e.Put? ==> Does(s, puts + [e.word], gets, Do(m, e))
    ensures e.Get? ==> Does(s, puts, gets + 1, Do(m, e))
    ensures !e.Put? && !e.Get? ==> Does(s, puts, gets, Do(m, e))
  {
    var es :| Ran(s, es, m) && Puts(es) == puts && Gets(es) == gets;
    RanOne(s, es, m, e);
    TransfersOne(es, e);
  }

  lemma DoesBoth(s: Snapshot, p: seq<nat>, g: nat, m: Snapshot, q: seq<nat>, h: nat, n: Snapshot)
    requires Does(s, p, g, m) && Does(m, q, h, n)
    ensures Does(s, p + q, g + h, n)
    ensures p == [] ==> Does(s, q, g + h, n)
    ensures q == [] ==> Does(s, p, g + h, n)
  {
    var a :| Ran(s, a, m) && Puts(a) == p && Gets(a) == g;
    var b :| Ran(m, b, n) && Puts(b) == q && Gets(b) == h;
    RanChains(s, a, m, b, n);
    TransfersConcat(a, b);
    NothingAdded(p, q);
  }

  lemma NothingAdded(p: seq<nat>, q: seq<nat>)
    ensures p == [] ==> p + q == q
    ensures q == [] ==> p + q == p
  {
  }

  /** What a stretch of events does: it writes and reads what the driver wrote and read, in order, the core only
      moves on, and the overrun flag is never set. */
  ghost predicate Effects(s: Snapshot, puts: seq<nat>, gets: nat, s': Snapshot) {
    && s'.loop.sent == s.loop.sent + puts && s.loop.moved <= s'.loop.moved
    && s.loop.read <= s'.loop.read && |s'.loop.read| == |s.loop.read| + gets
    && s'.loop.peak <= (if s.loop.peak > InFlight(s.loop) + |puts| then s.loop.peak else InFlight(s.loop) + |puts|)
    && s'.trigLevel == s.trigLevel && (s'.overRun ==> s.overRun)
  }

  lemma DoKeeps(s: Snapshot, e: Event)
    requires LoopInv(s.loop) && Can(s, e)
    ensures LoopInv(Do(s, e).loop)
    ensures Effects(s, if e.Put? then [e.word] else [], if e.Get? then 1 else 0, Do(s, e))
  {
    match e
    case Moves => ShiftKeeps(s.loop);
    case Put(w) => PushKeeps(s.loop, w);
    case Get => PopKeeps(s.loop);
    case _ =>
  }

  lemma EffectsChain(s: Snapshot, p: seq<nat>, g: nat, m: Snapshot, q: seq<nat>, h: nat, n: Snapshot)
    requires Effects(s, p, g, m) && Effects(m, q, h, n)
    ensures Effects(s, p + q, g + h, n)
  {
  }

  lemma {:induction false} RanEffects(s: Snapshot, es: seq<Event>, s': Snapshot)
    requires LoopInv(s.loop) && Ran(s, es, s')
    ensures LoopInv(s'.loop) && Effects(s, Puts(es), Gets(es), s')
  {
    if es != [] {
      var front, e := Front(es), Last(es);
      var m :| Ran(s, front, m) && Happens(m, e, s');
      RanEffects(s, front, m);
      DoKeeps(m, e);
      EffectsChain(s, Puts(front), Gets(front), m, if e.Put? then [e.word] else [], if e.Get? then 1 else 0, s');
    }
  }

  lemma DoesEffects(s: Snapshot, puts: seq<nat>, gets: nat, s': Snapshot)
    requires LoopInv(s.loop) && Does(s, puts, gets, s')
    ensures LoopInv(s'.loop) && Effects(s, puts, gets, s')
  {
    var es :| Ran(s, es, s') && Puts(es) == puts && Gets(es) == gets;
    RanEffects(s, es, s');
  }
}
