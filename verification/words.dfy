/** 32-bit words seen bit by bit, least significant bit first. */
module Words {
  import opened Basics

  const WIDTH: nat := 32

  type Word = w: seq<bool> | |w| == WIDTH witness seq(WIDTH, i => false)

  function Zero(): Word {
    seq(WIDTH, i => false)
  }

  function Pow2(k: nat): nat {
    if k == 0 then 1 else 2 * Pow2(k - 1)
  }

  function Bits(n: nat, k: nat): (s: seq<bool>)
    ensures |s| == k
  {
    if k == 0 then [] else [n % 2 == 1] + Bits(n / 2, k - 1)
  }

  function Value(s: seq<bool>): nat {
    if s == [] then 0 else (if s[0] then 1 else 0) + 2 * Value(s[1..])
  }

  /** The word an unsigned 32-bit number is stored as. */
  function ToWord(n: nat): Word {
    Bits(n, WIDTH)
  }

  lemma {:induction false} ValueOfBits(n: nat, k: nat)
    requires n < Pow2(k)
    ensures Value(Bits(n, k)) == n
  {
    if k > 0 {
      ValueOfBits(n / 2, k - 1);
      assert Bits(n, k)[1..] == Bits(n / 2, k - 1);
    }
  }

  lemma RangeIsPow2()
    ensures Pow2(WIDTH) == U32_RANGE
  {
    assert Pow2(8) == 0x100;
    assert Pow2(16) == 0x1_0000;
    assert Pow2(24) == 0x100_0000;
  }

  predicate Within(s: seq<bool>, t: seq<bool>)
    requires |s| == |t|
  {
    forall i :: 0 <= i < |s| && s[i] ==> t[i]
  }

  /** Adding bits never makes a number smaller. */
  lemma {:induction false} WithinIsAtMost(s: seq<bool>, t: seq<bool>)
    requires |s| == |t| && Within(s, t)
    ensures Value(s) <= Value(t)
  {
    if s != [] {
      assert Within(s[1..], t[1..]);
      WithinIsAtMost(s[1..], t[1..]);
    }
  }

  /** Two numbers whose words are one within the other are ordered the same way. */
  lemma WithinOrders(m: nat, n: nat)
    requires m < U32_RANGE && n < U32_RANGE && Within(ToWord(m), ToWord(n))
    ensures m <= n
  {
    RangeIsPow2();
    ValueOfBits(m, WIDTH);
    ValueOfBits(n, WIDTH);
    WithinIsAtMost(ToWord(m), ToWord(n));
  }

  /** The k-bit number whose bits alternate, starting from `first` in bit 0. */
  function Alternating(first: bool, k: nat): nat
    decreases k
  {
    if k == 0 then 0 else (if first then 1 else 0) + 2 * Alternating(!first, k - 1)
  }

  lemma {:induction false} AlternatingBits(first: bool, k: nat, i: nat)
    requires i < k
    ensures Bits(Alternating(first, k), k)[i] == ((i % 2 == 0) == first)
    decreases k
  {
    if i > 0 {
      AlternatingBits(!first, k - 1, i - 1);
    }
  }

  lemma {:induction false} AlternatingValue(k: nat)
    ensures 3 * Alternating(false, 2 * k) == 2 * (Pow2(2 * k) - 1)
    ensures 3 * Alternating(true, 2 * k) == Pow2(2 * k) - 1
  {
    if k > 0 {
      AlternatingValue(k - 1);
      assert Pow2(2 * k) == 2 * Pow2(2 * k - 1) == 4 * Pow2(2 * (k - 1));
      assert Alternating(false, 2 * k) == 2 * Alternating(true, 2 * k - 1) == 2 + 4 * Alternating(false, 2 * (k - 1));
      assert Alternating(true, 2 * k) == 1 + 2 * Alternating(false, 2 * k - 1)
             == 1 + 4 * Alternating(true, 2 * (k - 1));
    }
  }

  /** 0xAAAAAAAA and 0x55555555 set every bit between them, and no bit twice. */
  lemma CheckerBits(i: nat)
    requires i < WIDTH
    ensures ToWord(0xAAAAAAAA)[i] == (i % 2 == 1) && ToWord(0x55555555)[i] == (i % 2 == 0)
  {
    RangeIsPow2();
    AlternatingValue(WIDTH / 2);
    AlternatingBits(false, WIDTH, i);
    AlternatingBits(true, WIDTH, i);
  }
}
