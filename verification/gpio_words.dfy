/** The 32-bit words the processor and the Wishbone master exchange over GPIO. */
module GpioWords {

  type Word = bv32
  type Half = bv16

  // Processor to master: 31 valid, 30 acknowledge, 29 bus cycle, 28 write, 27-16 address, 15-0 data.

  const VALID: Word := 0x8000_0000
  const RELEASE: Word := 0x4000_0000
  const CYCLE: Word := 0x2000_0000
  const WRITE: Word := 0x1000_0000

  /** What WB_write16, WB_read16 and their final acknowledge put on GPIO_OUT. */
  function WriteWord(data: Half, add: Half): Word { (data as Word) | ((add as Word) << 16) | 0xB000_0000 }
  function ReadWord(add: Half): Word { ((add as Word) << 16) | 0xA000_0000 }
  const DONE_WORD: Word := 0xC000_0000

  predicate Requests(w: Word) { w & VALID != 0 && w & CYCLE != 0 }
  predicate Releases(w: Word) { w & VALID != 0 && w & RELEASE != 0 && w & CYCLE == 0 }

  function Address(w: Word): Half { ((w >> 16) & 0x0FFF) as Half }
  function Payload(w: Word): Half { (w & 0xFFFF) as Half }

  datatype Op = Read(add: Half) | Write(add: Half, data: Half)

  /** The bus cycle the master performs for a request word. */
  function OpOf(w: Word): Op {
    if w & WRITE != 0 then Write(Address(w), Payload(w)) else Read(Address(w))
  }

  lemma WriteMeaning(data: Half, add: Half)
    ensures var w := WriteWord(data, add);
            Requests(w) && !Releases(w) && OpOf(w) == Write(add & 0x0FFF, data)
  {
    var w := WriteWord(data, add);
    assert w & WRITE != 0;
    assert Address(w) == add & 0x0FFF;
    assert Payload(w) == data;
  }

  lemma ReadMeaning(add: Half)
    ensures var r := ReadWord(add);
            && Requests(r) && !Releases(r)
            && OpOf(r) == if add & 0x1000 == 0 then Read(add & 0x0FFF) else Write(add & 0x0FFF, 0)
  {
    var r := ReadWord(add);
    assert (r & WRITE != 0) <==> (add & 0x1000 != 0);
    assert Address(r) == add & 0x0FFF;
    assert Payload(r) == 0;
  }

  /** Address bits above the twelve the bus has leak into the command bits: the address is truncated, and bit
      12 turns a read into a write of zero. */
  lemma RequestMeaning(data: Half, add: Half)
    ensures Requests(WriteWord(data, add)) && Requests(ReadWord(add))
    ensures !Releases(WriteWord(data, add)) && !Releases(ReadWord(add))
    ensures OpOf(WriteWord(data, add)) == Write(add & 0x0FFF, data)
    ensures OpOf(ReadWord(add)) == if add & 0x1000 == 0 then Read(add & 0x0FFF) else Write(add & 0x0FFF, 0)
    ensures Releases(DONE_WORD) && !Requests(DONE_WORD) && !Requests(0)
  {
    WriteMeaning(data, add);
    ReadMeaning(add);
  }

  /** Requests mean what the caller asked exactly on the twelve-bit addresses. */
  lemma RequestsExact(data: Half, add: Half)
    ensures OpOf(WriteWord(data, add)) == Write(add, data) <==> add & 0xF000 == 0
    ensures OpOf(ReadWord(add)) == Read(add) <==> add & 0xF000 == 0
  {
    RequestMeaning(data, add);
    assert add & 0x0FFF == add <==> add & 0xF000 == 0;
    assert add & 0xF000 == 0 ==> add & 0x1000 == 0;
  }

  // Master to processor: 16 acknowledge, 15-0 data read.

  const ACKED: Word := 0x0001_0000

  function ReplyWord(ack: bool, data: Half): Word {
    (if ack then ACKED else 0) | (data as Word)
  }

  lemma ReplyMeaning(ack: bool, data: Half)
    ensures ReplyWord(ack, data) & ACKED == 0 <==> !ack
    ensures Payload(ReplyWord(ack, data)) == data
  {
  }

  // ---- 32-bit registers as two halves ----

  function High(data: Word): Half { ((data & 0xFFFF_0000) >> 16) as Half }
  function Low(data: Word): Half { (data & 0x0000_FFFF) as Half }
  function Joined(high: Half, low: Half): Word { ((high as Word) << 16) | (low as Word) }

  lemma HalvesJoin(data: Word, high: Half, low: Half)
    ensures Joined(High(data), Low(data)) == data
    ensures High(Joined(high, low)) == high && Low(Joined(high, low)) == low
  {
  }

  /** Which half is which. */
  lemma HalvesValue(data: Word, high: Half, low: Half)
    ensures High(data) as Word == data / 0x1_0000 && Low(data) as Word == data % 0x1_0000
    ensures Joined(high, low) == (high as Word) * 0x1_0000 + low as Word
  {
  }

  /** The words on the wires, spelled out on an example. */
  lemma WordsSpelled()
    ensures WriteWord(0x1234, 0x0056) == 0xB056_1234 && ReadWord(0x0056) == 0xA056_0000 && DONE_WORD == 0xC000_0000
    ensures ReplyWord(true, 0x5678) == 0x0001_5678 && ReplyWord(false, 0x5678) == 0x0000_5678
    ensures High(0x1234_5678) == 0x1234 && Low(0x1234_5678) == 0x5678
  {
  }

  lemma NextAddressDiffers(add: Half)
    ensures add & 0x0FFF != (add + 1) & 0x0FFF
  {
  }
}
