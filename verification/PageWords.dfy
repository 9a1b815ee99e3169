/** The 32-bit words that the kernel stores in page directories and page tables. */
module PageWords {
  import opened Wrappers

  const FRAMES := 0x10_0000 // 4 KiB frames in a 32-bit physical address space

  type FrameNo = f: int | 0 <= f < FRAMES
  type Slot = i: int | 0 <= i < 1024

  /** A 32-bit word seen through the fields of a paging entry (Intel SDM Volume 3A,
      section 4.3): frame is bits 12..31, p, rw and user are bits 0, 1 and 2, bit9 and
      bit10 are the copy-on-write marks of mm.c, and mid (bits 3..8) and bit11 are unused.
      The assignments `&= ~1`, `&= ~2`, `|= 0x200`, ... of mm.c are updates of one field. */
  datatype Word = Word(frame: FrameNo, p: bool, rw: bool, user: bool,
                       bit9: bool, bit10: bool, mid: SixBits, bit11: bool)

  type SixBits = n: int | 0 <= n < 64

  const ZERO := Word(0, false, false, false, false, false, 0, false)

  /** The word (frame & 0xFFFFF000) | flags | 1 that map_page stores. */
  function Entry(frame: FrameNo, rw: bool, user: bool): Word {
    Word(frame, true, rw, user, false, false, 0, false)
  }

  type Page = s: seq<Word> | |s| == 1024 witness seq(1024, _ => ZERO)

  function ZeroPage(): Page {
    seq(1024, _ => ZERO)
  }

  // Words are taken apart from the low end: one bit, or the six bits of mid, at a time.

  function Odd(n: nat): bool { n % 2 == 1 }

  function Half(n: nat): nat { n / 2 }

  function Push(b: bool, n: nat): nat { 2 * n + if b then 1 else 0 }

  function SixLow(n: nat): SixBits { n % 64 }

  function SixHigh(n: nat): nat { n / 64 }

  function PushSix(m: SixBits, n: nat): nat { 64 * n + m }

  lemma PushPop(b: bool, m: SixBits, n: nat)
    ensures Odd(Push(b, n)) == b && Half(Push(b, n)) == n && Push(Odd(n), Half(n)) == n
    ensures SixLow(PushSix(m, n)) == m && SixHigh(PushSix(m, n)) == n && PushSix(SixLow(n), SixHigh(n)) == n
  {
    hide Odd, Half, Push, SixLow, SixHigh, PushSix;
    PopBit(b, n);
    PopSix(m, n);
    PushBack(n);
  }

  lemma PopBit(b: bool, n: nat)
    ensures Odd(Push(b, n)) == b && Half(Push(b, n)) == n
  {
  }

  lemma PopSix(m: SixBits, n: nat)
    ensures SixLow(PushSix(m, n)) == m && SixHigh(PushSix(m, n)) == n
  {
  }

  lemma PushBack(n: nat)
    ensures Push(Odd(n), Half(n)) == n && PushSix(SixLow(n), SixHigh(n)) == n
  {
  }

  /** The unused and upper half of a word: bits 9, 10, 11 and the frame. */
  function Upper(w: Word): nat {
    Push(w.bit9, Push(w.bit10, Push(w.bit11, w.frame)))
  }

  function Encode(w: Word): nat {
    Push(w.p, Push(w.rw, Push(w.user, PushSix(w.mid, Upper(w)))))
  }

  lemma EncodeFits(w: Word)
    ensures Encode(w) < 0x1_0000_0000
  {
  }

  function Bit(b: bool): nat {
    if b then 1 else 0
  }

  /** The weights of the fields. */
  lemma EncodeWeights(w: Word)
    ensures Encode(w) == 0x1 * Bit(w.p) + 0x2 * Bit(w.rw) + 0x4 * Bit(w.user) + 0x8 * w.mid
      + 0x200 * Bit(w.bit9) + 0x400 * Bit(w.bit10) + 0x800 * Bit(w.bit11) + 0x1000 * w.frame
  {
  }

  function Decode(n: Uint32): Word {
    var n3 := Half(Half(Half(n)));
    var n9 := SixHigh(n3);
    Word(n / 4096, Odd(n), Odd(Half(n)), Odd(Half(Half(n))),
         Odd(n9), Odd(Half(n9)), SixLow(n3), Odd(Half(Half(n9))))
  }

  lemma FrameBits(n: Uint32)
    ensures var n9 := SixHigh(Half(Half(Half(n)))); Half(Half(Half(n9))) == n / 4096
  {
    assert n / 2 / 2 / 2 == n / 8;
    assert n / 8 / 64 == n / 512;
    assert n / 512 / 2 / 2 / 2 == n / 4096;
  }

  /** Words and their fields are in one-to-one correspondence, so nothing is lost by
      describing memory with records. */
  lemma EncodeDecode(n: Uint32)
    ensures Encode(Decode(n)) == n
  {
    hide Odd, Half, Push, SixLow, SixHigh, PushSix;
    var n3 := Half(Half(Half(n)));
    var n9 := SixHigh(n3);
    FrameBits(n);
    PushPop(false, 0, n);
    PushPop(false, 0, Half(n));
    PushPop(false, 0, Half(Half(n)));
    PushPop(false, 0, n3);
    PushPop(false, 0, n9);
    PushPop(false, 0, Half(n9));
    PushPop(false, 0, Half(Half(n9)));
  }

  lemma DecodeEncode(w: Word)
    ensures Encode(w) < 0x1_0000_0000 && Decode(Encode(w)) == w
  {
    hide Odd, Half, Push, SixLow, SixHigh, PushSix;
    EncodeFits(w);
    FrameBits(Encode(w));
    PushPop(w.bit11, 0, w.frame);
    PushPop(w.bit10, 0, Push(w.bit11, w.frame));
    PushPop(w.bit9, 0, Push(w.bit10, Push(w.bit11, w.frame)));
    PushPop(false, w.mid, Upper(w));
    PushPop(w.user, 0, PushSix(w.mid, Upper(w)));
    PushPop(w.rw, 0, Push(w.user, PushSix(w.mid, Upper(w))));
    PushPop(w.p, 0, Push(w.rw, Push(w.user, PushSix(w.mid, Upper(w)))));
  }
}
