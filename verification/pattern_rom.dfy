/** The pattern generator's configuration, and the window of interferogram ROM it makes the hardware play. */
module PatternRom {
  import opened Basics

  const ROM_LENGTH: nat := 1024
  /** The ROM entry of the zero path difference. */
  const ZPD_POS: nat := 508

  class PatGenConfig {
    var zSize: nat
    var ySize: nat
    var xSize: nat
    var tagSize: nat
    var imgSize: nat
    var imagePause: nat
    var diagSize: nat
    var payloadSize: nat
    var config: nat
    var romZStart: nat
    var romInitIndex: nat

    constructor ()
      ensures zSize == ySize == xSize == tagSize == imgSize == imagePause == 0
      ensures diagSize == payloadSize == config == romZStart == romInitIndex == 0
    {
      zSize, ySize, xSize, tagSize, imgSize, imagePause := 0, 0, 0, 0, 0, 0;
      diagSize, payloadSize, config, romZStart, romInitIndex := 0, 0, 0, 0, 0;
    }

    /** The configuration PG_Start computes, on unsigned 32-bit fields. */
    method Start(z: nat, y: nat, x: nat, tag: nat, avg: nat, diag: nat, missingImages: nat)
      requires z < U32_RANGE && y < U32_RANGE && x < U32_RANGE && tag < U32_RANGE
      requires avg < U32_RANGE && diag < U32_RANGE && missingImages < U32_RANGE
      modifies this
      ensures zSize == (z - missingImages) % U32_RANGE && (missingImages <= z ==> zSize == z - missingImages)
      ensures ySize == y && xSize == x && tagSize == tag && imagePause == 1 && config == 0
      ensures imgSize == x * y % U32_RANGE && payloadSize == (x * y + tag) % U32_RANGE
      ensures diagSize == if zSize <= 65535 && 1 <= avg <= 32 then avg * diag % U32_RANGE else diag
      ensures WindowInRom(zSize, romZStart, romInitIndex)
      ensures 1 <= zSize < MAX_IMAGES ==> (Centred(zSize, romZStart, romInitIndex) <==> zSize <= MAX_CENTRED)
    {
      ChooseSizes(z, y, x, tag, avg, diag, missingImages);
      ChooseWindow();
    }

    method ChooseSizes(z: nat, y: nat, x: nat, tag: nat, avg: nat, diag: nat, missingImages: nat)
      requires z < U32_RANGE && y < U32_RANGE && x < U32_RANGE && tag < U32_RANGE
      requires avg < U32_RANGE && diag < U32_RANGE && missingImages < U32_RANGE
      modifies this
      ensures zSize == (z - missingImages) % U32_RANGE && (missingImages <= z ==> zSize == z - missingImages)
      ensures ySize == y && xSize == x && tagSize == tag && imagePause == 1 && config == 0
      ensures imgSize == x * y % U32_RANGE && payloadSize == (x * y + tag) % U32_RANGE
      ensures diagSize == if zSize <= 65535 && 1 <= avg <= 32 then avg * diag % U32_RANGE else diag
    {
      zSize := (z - missingImages) % U32_RANGE;
      ySize, xSize, tagSize := y, x, tag;
      imgSize := x * y % U32_RANGE;
      imagePause := 1;
      if zSize > 65535 || avg < 1 || avg > 32 {
        diagSize := diag;
      } else {
        diagSize := avg * diag % U32_RANGE;
      }
      payloadSize := (xSize * ySize + tagSize) % U32_RANGE;
      config := 0;
    }

    /** PG_Start's choice of the ROM entries to play. */
    method ChooseWindow()
      modifies this`romZStart, this`romInitIndex
      ensures WindowInRom(zSize, romZStart, romInitIndex)
      ensures 1 <= zSize < MAX_IMAGES ==> (Centred(zSize, romZStart, romInitIndex) <==> zSize <= MAX_CENTRED)
    {
      if zSize > ROM_LENGTH {
        romZStart := (zSize - ROM_LENGTH) / 2;
        romInitIndex := 0;
      } else {
        romZStart := 0;
        var temp: int := ZPD_POS - zSize / 2;
        if temp < 0 {
          romInitIndex := 0;
        } else {
          romInitIndex := temp;
        }
      }
      if 1 <= zSize < MAX_IMAGES {
        CentredExact(zSize, romZStart, romInitIndex);
      }
    }
  }

  /**
   * What a window must be for a cube of z images, played from entry `init` at image `start`: its entries lie
   * inside the ROM and its images inside the cube. A cube longer than the ROM plays all of it, in its middle to
   * within one image. A shorter cube is all window, and plays the zero path difference in its middle image, or
   * starts at the first entry when the ROM does not reach back that far. Either way the zero path difference
   * is at most 4 images before the middle.
   */
  predicate WindowInRom(z: nat, start: nat, init: nat) {
    var used := if z < ROM_LENGTH then z else ROM_LENGTH;
    && init + used <= ROM_LENGTH
    && start + used <= z
    && -4 <= start + (ZPD_POS - init) - z / 2 <= 0
    && (z > ROM_LENGTH ==> init == 0 && 0 <= (z - ROM_LENGTH - start) - start <= 1)
    && (z <= ROM_LENGTH ==> start == 0 && (if init > 0 then ZPD_POS - init == z / 2 else z / 2 >= ZPD_POS))
  }

  // ---- The generator that plays the window ----

  const U16_RANGE: nat := 0x1_0000

  /** The generator counts images, and holds the cube's size, in 24 bits. */
  const MAX_IMAGES: nat := 0x100_0000

  /** Generating image n lets the ROM index advance: the low 16 bits of the image number have reached the 16-bit
      start register. */
  predicate Advances(start: nat, n: nat) {
    n % U16_RANGE >= start % U16_RANGE
  }

  /** The ROM index while image n (from 1) is generated: it starts at `init` and stays at the last entry. */
  function RomIndex(start: nat, init: nat, n: nat): nat {
    if n <= 1 then init
    else
      var i := RomIndex(start, init, n - 1);
      if Advances(start, n - 1) && i < ROM_LENGTH - 1 then i + 1 else i
  }

  /** The first image whose number reaches the start register. */
  function FirstMoving(start: nat): nat {
    if start % U16_RANGE == 0 then 1 else start % U16_RANGE
  }

  /** Up to 65536 images the index waits for the start image, then plays an entry per image to the end of the ROM. */
  lemma {:induction false} RomIndexClosed(start: nat, init: nat, n: nat)
    requires 1 <= n <= U16_RANGE && init < ROM_LENGTH
    ensures RomIndex(start, init, n) == Straight(FirstMoving(start), init, n)
  {
    if n > 1 {
      RomIndexClosed(start, init, n - 1);
    }
  }

  function Straight(first: nat, init: nat, n: nat): nat {
    var i := init + if n <= first then 0 else n - first;
    if i < ROM_LENGTH then i else ROM_LENGTH - 1
  }

  /** The index never goes back. */
  lemma {:induction false} RomIndexRises(start: nat, init: nat, n: nat, m: nat)
    requires 1 <= n <= m && init < ROM_LENGTH
    ensures init <= RomIndex(start, init, n) <= RomIndex(start, init, m) < ROM_LENGTH
  {
    if m > 1 {
      RomIndexRises(start, init, if n < m then n else m - 1, m - 1);
    }
  }

  // ---- Where the zero path difference is played ----

  /** The zero path difference is played during image c and no other of the z images. */
  ghost predicate PlaysZpdAt(z: nat, start: nat, init: nat, c: nat) {
    && 1 <= c <= z
    && forall n :: 1 <= n <= z ==> (RomIndex(start, init, n) == ZPD_POS <==> n == c)
  }

  /** It is played during exactly one image, the one after the middle or at most four before it. */
  ghost predicate Centred(z: nat, start: nat, init: nat) {
    exists c: nat :: PlaysZpdAt(z, start, init, c) && -4 <= c - z / 2 <= 1
  }

  /** The largest cube PG_Start centres. */
  const MAX_CENTRED: nat := 131079

  /**
   * Centring, exactly. In a cube of z images configured by PG_Start the zero path difference is played in the
   * middle if and only if z is at most 131079. Beyond, the image number no longer fits the comparison with the
   * start register: the index moves too early, or stalls on the zero path difference.
   */
  lemma CentredExact(z: nat, start: nat, init: nat)
    requires 1 <= z < MAX_IMAGES && WindowInRom(z, start, init)
    ensures Centred(z, start, init) <==> z <= MAX_CENTRED
  {
    if z <= MAX_CENTRED {
      StaysCentred(z, start, init);
    } else if Centred(z, start, init) {
      var c: nat :| PlaysZpdAt(z, start, init, c) && -4 <= c - z / 2 <= 1;
      LosesCentre(z, start, init, c);
      assert false;
    }
  }

  lemma StartOf(z: nat, start: nat, init: nat)
    requires ROM_LENGTH < z && WindowInRom(z, start, init)
    ensures init == 0 && start == z / 2 - ROM_LENGTH / 2
  {
  }

  lemma StaysCentred(z: nat, start: nat, init: nat)
    requires 1 <= z <= MAX_CENTRED && WindowInRom(z, start, init)
    ensures Centred(z, start, init)
  {
    assert start < U16_RANGE - (ZPD_POS - init) by {
      if z > ROM_LENGTH {
        StartOf(z, start, init);
      }
    }
    var c := FirstMoving(start) + (ZPD_POS - init);
    PlayedOnce(z, start, init, c);
    assert -4 <= c - z / 2 <= 1;
  }

  /** An index that passes the zero path difference within the first 65536 images plays it once. */
  lemma PlayedOnce(z: nat, start: nat, init: nat, c: nat)
    requires init <= ZPD_POS && c == FirstMoving(start) + (ZPD_POS - init) && c <= z && c < U16_RANGE
    requires init < ZPD_POS || FirstMoving(start) == 1
    ensures PlaysZpdAt(z, start, init, c)
  {
    forall n | 1 <= n <= z ensures RomIndex(start, init, n) == ZPD_POS <==> n == c {
      if n <= U16_RANGE {
        RomIndexClosed(start, init, n);
      } else {
        RomIndexClosed(start, init, U16_RANGE);
        RomIndexRises(start, init, U16_RANGE, n);
      }
    }
  }

  /** Either the index passes the zero path difference too early, or the one image that plays it is one that
      lets the index advance, and there is none near the middle. */
  lemma LosesCentre(z: nat, start: nat, init: nat, c: nat)
    requires MAX_CENTRED < z && WindowInRom(z, start, init) && PlaysZpdAt(z, start, init, c)
    ensures c < z / 2 - 4 || c > z / 2 + 1
  {
    StartOf(z, start, init);
    if start % U16_RANGE < U16_RANGE - ZPD_POS {
      var played := FirstMoving(start) + ZPD_POS;
      PlayedOnce(z, start, init, played);
      assert RomIndex(start, init, played) == ZPD_POS;
    } else if c < z {
      assert RomIndex(start, init, c + 1) != RomIndex(start, init, c);
      assert Advances(start, c);
      MiddleStalls(start, c);
    }
  }

  lemma MiddleStalls(start: nat, c: nat)
    requires start % U16_RANGE >= U16_RANGE - ZPD_POS && Advances(start, c)
    ensures c < start + ZPD_POS || c > start + ZPD_POS + 5
  {
    assert c - start < U16_RANGE ==> c / U16_RANGE <= start / U16_RANGE + 1;
  }

  /** The smallest cube that is not centred: it plays the zero path difference in images 65536 and 65537. */
  lemma FirstUncentred()
    ensures WindowInRom(MAX_CENTRED + 1, 65028, 0)
    ensures RomIndex(65028, 0, 65536) == RomIndex(65028, 0, 65537) == ZPD_POS
    ensures !Centred(MAX_CENTRED + 1, 65028, 0)
  {
    RomIndexClosed(65028, 0, 65536);
    assert !Advances(65028, 65536);
    CentredExact(MAX_CENTRED + 1, 65028, 0);
  }

  // ---- Whether the window is played without a break ----

  /** Every image plays its own entry of the window: the index waits for the start image, then advances with every
      image up to the last entry. */
  ghost predicate PlaysWindow(z: nat, start: nat, init: nat) {
    forall n :: 1 <= n <= z ==> RomIndex(start, init, n) == Straight(if start == 0 then 1 else start, init, n)
  }

  /** The largest cube whose window is played without a break. */
  const MAX_UNBROKEN: nat := 130051

  /** A cube of up to 1024 images plays an entry per image, a longer one the whole ROM, if and only if it has at
      most 130051 images; between that and 131079 the index stalls, but after the zero path difference. */
  lemma UnbrokenExact(z: nat, start: nat, init: nat)
    requires 1 <= z < MAX_IMAGES && WindowInRom(z, start, init)
    ensures PlaysWindow(z, start, init) <==> z <= MAX_UNBROKEN
  {
    if z > ROM_LENGTH {
      StartOf(z, start, init);
    }
    if z <= MAX_UNBROKEN {
      PlaysUnbroken(z, start, init);
    } else if start < U16_RANGE {
      RomIndexClosed(start, init, U16_RANGE);
      assert !Advances(start, U16_RANGE);
      assert RomIndex(start, init, U16_RANGE + 1) == RomIndex(start, init, U16_RANGE);
      assert Straight(start, init, U16_RANGE + 1) == Straight(start, init, U16_RANGE) + 1;
    } else {
      var m := FirstMoving(start);
      RomIndexClosed(start, init, m + 1);
      assert Straight(start, init, m + 1) == init;
    }
  }

  lemma PlaysUnbroken(z: nat, start: nat, init: nat)
    requires 1 <= z <= MAX_UNBROKEN && WindowInRom(z, start, init)
    ensures PlaysWindow(z, start, init)
  {
    var first := if start == 0 then 1 else start;
    assert start <= MAX_UNBROKEN / 2 - ROM_LENGTH / 2 by {
      if z > ROM_LENGTH {
        StartOf(z, start, init);
      }
    }
    assert FirstMoving(start) == first;
    forall n | 1 <= n <= z ensures RomIndex(start, init, n) == Straight(first, init, n) {
      if n <= U16_RANGE {
        RomIndexClosed(start, init, n);
      } else {
        RomIndexEnds(start, init, n);
      }
    }
  }

  /** The last entry is reached within 65536 images. */
  lemma RomIndexEnds(start: nat, init: nat, n: nat)
    requires U16_RANGE < n && init < ROM_LENGTH && FirstMoving(start) + ROM_LENGTH <= U16_RANGE + 1
    ensures RomIndex(start, init, n) == ROM_LENGTH - 1 == Straight(FirstMoving(start), init, n)
  {
    RomIndexClosed(start, init, U16_RANGE);
    RomIndexRises(start, init, U16_RANGE, n);
  }
}
