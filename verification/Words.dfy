/** 32-bit machine words, the sizes every layer shares, and single-bit access
    to a word as the shifts and masks of the C sources perform it. */
module Words {
  type u32 = x: int | 0 <= x < 0x1_0000_0000

  // A frame has 4096 bytes or 1024 words; so have a page table and the directory.

  /** The low 32 bits of a wider value. */
  function Wrap(x: int): u32 { x % 0x1_0000_0000 }

  /** Unsigned 32-bit addition and subtraction keep the low 32 bits. */
  function Add32(x: u32, y: u32): u32 {
    if x + y < 0x1_0000_0000 then x + y else x + y - 0x1_0000_0000
  }

  function Sub32(x: u32, y: u32): u32 {
    if y <= x then x - y else x - y + 0x1_0000_0000
  }

  /** Both are the low 32 bits of the exact result. */
  lemma SumWraps(x: u32, y: u32)
    ensures Add32(x, y) == (x + y) % 0x1_0000_0000 && Sub32(x, y) == (x - y) % 0x1_0000_0000
  {
  }

  /** `x & ~(4095)` */
  function PageDown(x: u32): (r: u32)
    ensures r % 4096 == 0 && r <= x < r + 4096
  {
    x - x % 4096
  }

  /** `(x + PAGE_SIZE - 1) & ~(PAGE_SIZE - 1)`, wrapping like the source does. */
  function PageUp(x: u32): (r: u32)
    ensures r % 4096 == 0
    ensures x <= 0xFFFF_F000 ==> x <= r < x + 4096
  {
    PageDown(Add32(x, 4095))
  }

  /** Word `w` does not occur in `h` from `n` on. */
  ghost predicate NoneFrom(h: seq<u32>, n: nat, w: u32) {
    forall j: nat | n <= j < |h| :: h[j] != w
  }

  /** `(w >> b) & 1` */
  predicate Bit(w: nat, b: nat) {
    if b == 0 then w % 2 == 1 else Bit(w / 2, b - 1)
  }

  /** `w | (1 << b)` */
  function WithBit(w: nat, b: nat): nat {
    if b == 0 then w + 1 - w % 2 else 2 * WithBit(w / 2, b - 1) + w % 2
  }

  /** `w & ~(1 << b)` */
  function WithoutBit(w: nat, b: nat): nat {
    if b == 0 then w - w % 2 else 2 * WithoutBit(w / 2, b - 1) + w % 2
  }

  /** `2^n - 1`, the word whose low n bits are all set. */
  function Ones(n: nat): nat {
    if n == 0 then 0 else 2 * Ones(n - 1) + 1
  }

  lemma {:induction false} WithBitFits(w: nat, b: nat, n: nat)
    requires b < n && w <= Ones(n)
    ensures WithBit(w, b) <= Ones(n)
  {
    if b > 0 {
      WithBitFits(w / 2, b - 1, n - 1);
    }
  }

  lemma {:induction false} WithBitMeaning(w: nat, b: nat, c: nat)
    ensures Bit(WithBit(w, b), c) <==> (c == b || Bit(w, c))
  {
    assert WithBit(w, b) / 2 == if b == 0 then w / 2 else WithBit(w / 2, b - 1);
    if b > 0 && c > 0 {
      WithBitMeaning(w / 2, b - 1, c - 1);
    }
  }

  lemma {:induction false} WithoutBitFits(w: nat, b: nat)
    ensures WithoutBit(w, b) <= w
  {
    if b > 0 {
      WithoutBitFits(w / 2, b - 1);
    }
  }

  lemma {:induction false} WithoutBitMeaning(w: nat, b: nat, c: nat)
    ensures Bit(WithoutBit(w, b), c) <==> (c != b && Bit(w, c))
  {
    assert WithoutBit(w, b) / 2 == if b == 0 then w / 2 else WithoutBit(w / 2, b - 1);
    if b > 0 && c > 0 {
      WithoutBitMeaning(w / 2, b - 1, c - 1);
    }
  }

  /** Clearing a bit undoes setting it. */
  lemma {:induction false} SetThenClear(w: nat, b: nat)
    requires !Bit(w, b)
    ensures WithoutBit(WithBit(w, b), b) == w
  {
    if b > 0 {
      SetThenClear(w / 2, b - 1);
      assert WithBit(w, b) / 2 == WithBit(w / 2, b - 1);
    }
  }

  lemma {:induction false} OnesAreSet(n: nat, b: nat)
    requires b < n
    ensures Bit(Ones(n), b)
  {
    assert Ones(n) / 2 == Ones(n - 1);
    if b > 0 {
      OnesAreSet(n - 1, b - 1);
    }
  }

  lemma {:induction false} SomeClearBit(w: nat, n: nat) returns (b: nat)
    requires w < Ones(n)
    ensures b < n && !Bit(w, b)
  {
    if w % 2 == 0 {
      b := 0;
    } else {
      var c := SomeClearBit(w / 2, n - 1);
      b := c + 1;
    }
  }

  /** The whole-word test `w == 0xFFFFFFFF` asks whether every bit is set. */
  lemma FullWord(w: nat, n: nat)
    requires w <= Ones(n)
    ensures w == Ones(n) <==> forall b: nat | b < n :: Bit(w, b)
  {
    if w < Ones(n) {
      var b := SomeClearBit(w, n);
    } else {
      forall b: nat | b < n ensures Bit(w, b) {
        OnesAreSet(n, b);
      }
    }
  }

  lemma Ones32()
    ensures Ones(32) == 0xFFFF_FFFF
  {
    assert Ones(8) == 0xFF;
    assert Ones(16) == 0xFFFF;
    assert Ones(24) == 0xFF_FFFF;
  }
}
