/**
 * The easy-fs bitmap allocator: `blocks` consecutive disk blocks, each seen
 * as a `BitmapBlock` of 64 words of 64 bits, one bit per allocatable unit.
 *
 * Words are numbers below 2^64 and bit `i` of a word is its `i`-th binary
 * digit, so `1u64 << i` is `Pow2(i)`, `|` is `Or` and the bit test
 * `w & (1u64 << i) > 0` is `IsSet(w, i)`.
 */
module Bitmaps {
  import opened Types
  import opened BlockCaches

  /**
   * Bits in one bitmap block (`BLOCK_BITS`): `BLOCK_SZ * 8` with the
   * `BLOCK_SZ` of `BlockCaches` (512), written out so that the arithmetic
   * below sees a literal.
   */
  const BLOCK_BITS: nat := 4096

  /** Words in one bitmap block: `BitmapBlock` is `[u64; 64]`. */
  const BLOCK_WORDS: nat := 64

  /** A `u64`. */
  type u64 = w: int | 0 <= w < 0x1_0000_0000_0000_0000

  /** `u64::MAX`: a word with every bit allocated. */
  const WORD_MAX: u64 := 0xFFFF_FFFF_FFFF_FFFF

  // ---------------------------------------------------------------------
  // Bits of a number.
  // ---------------------------------------------------------------------

  /** `2^i`: the value of `1u64 << i` for `i < 64`. */
  function Pow2(i: nat): (r: nat)
    ensures r > 0
  {
    if i == 0 then 1 else 2 * Pow2(i - 1)
  }

  /** Eight more bits multiply by 256. */
  lemma {:induction false} Pow2Byte(a: nat)
    ensures Pow2(a + 8) == 256 * Pow2(a)
  {
    if a == 0 {
      assert Pow2(1) == 2;
      assert Pow2(2) == 4;
      assert Pow2(3) == 8;
      assert Pow2(4) == 16;
      assert Pow2(5) == 32;
      assert Pow2(6) == 64;
      assert Pow2(7) == 128;
    } else {
      Pow2Byte(a - 1);
      assert Pow2(a + 8) == 2 * Pow2(a + 7);
    }
  }

  /** A `u64` is a number below 2^64. */
  lemma Pow2Word()
    ensures Pow2(64) == WORD_MAX + 1
  {
    Pow2Byte(0);
    assert Pow2(8) == 256;
    Pow2Byte(8);
    Pow2Byte(16);
    Pow2Byte(24);
    Pow2Byte(32);
    Pow2Byte(40);
    Pow2Byte(48);
    Pow2Byte(56);
  }

  /** Bit `i` of `w`: the test `w & (1 << i) > 0`. */
  predicate IsSet(w: nat, i: nat)
  {
    if i == 0 then w % 2 == 1 else IsSet(w / 2, i - 1)
  }

  /** Bitwise or, digit by digit. */
  function Or(a: nat, b: nat): (r: nat)
    decreases a + b
  {
    if a == 0 && b == 0 then 0
    else 2 * Or(a / 2, b / 2) + (if a % 2 == 1 || b % 2 == 1 then 1 else 0)
  }

  lemma {:induction false} ZeroBits(j: nat)
    ensures !IsSet(0, j)
  {
    if j > 0 {
      ZeroBits(j - 1);
    }
  }

  /** A bit of `a | b` is set exactly when it is set in `a` or in `b`. */
  lemma {:induction false} OrBits(a: nat, b: nat, j: nat)
    ensures IsSet(Or(a, b), j) == (IsSet(a, j) || IsSet(b, j))
  {
    if a == 0 && b == 0 {
      ZeroBits(j);
    } else if j > 0 {
      OrBits(a / 2, b / 2, j - 1);
    }
  }

  /** `a | b` has no more digits than the wider of `a` and `b`. */
  lemma {:induction false} OrBound(a: nat, b: nat, n: nat)
    requires a < Pow2(n) && b < Pow2(n)
    ensures Or(a, b) < Pow2(n)
  {
    if n > 0 && (a != 0 || b != 0) {
      OrBound(a / 2, b / 2, n - 1);
    }
  }

  /** `1 << i` has bit `i` set and no other. */
  lemma {:induction false} Pow2Bits(i: nat, j: nat)
    ensures IsSet(Pow2(i), j) == (i == j)
  {
    if i == 0 {
      if j > 0 {
        ZeroBits(j - 1);
      }
    } else if j > 0 {
      Pow2Bits(i - 1, j - 1);
    }
  }

  lemma {:induction false} OrZero(a: nat)
    ensures Or(a, 0) == a
    decreases a
  {
    if a != 0 {
      OrZero(a / 2);
    }
  }

  /** Or-ing in a clear bit adds it: no carry happens. */
  lemma {:induction false} OrClearBit(w: nat, i: nat)
    requires !IsSet(w, i)
    ensures Or(w, Pow2(i)) == w + Pow2(i)
  {
    if i == 0 {
      OrZero(w / 2);
    } else {
      OrClearBit(w / 2, i - 1);
    }
  }

  /** Subtracting a set bit borrows nothing: it clears that bit and no other. */
  lemma {:induction false} SubtractBit(w: nat, i: nat, j: nat)
    requires IsSet(w, i)
    ensures w >= Pow2(i)
    ensures IsSet(w - Pow2(i), j) == (j != i && IsSet(w, j))
  {
    if i == 0 {
      if j > 0 {
        assert (w - 1) / 2 == w / 2;
      }
    } else {
      SubtractBit(w / 2, i - 1, if j == 0 then 0 else j - 1);
      assert (w - Pow2(i)) / 2 == w / 2 - Pow2(i - 1);
      assert (w - Pow2(i)) % 2 == w % 2;
    }
  }

  /** The bits below `n` are all set. */
  ghost predicate OnesBelow(w: nat, n: nat)
  {
    forall j :: 0 <= j < n ==> IsSet(w, j)
  }

  lemma {:induction false} AllOnes(w: nat, n: nat)
    requires w < Pow2(n) && OnesBelow(w, n)
    ensures w == Pow2(n) - 1
  {
    if n > 0 {
      assert IsSet(w, 0);
      forall j | 0 <= j < n - 1
        ensures IsSet(w / 2, j)
      {
        assert IsSet(w, j + 1);
      }
      AllOnes(w / 2, n - 1);
    }
  }

  lemma {:induction false} OnesBits(n: nat, j: nat)
    requires j < n
    ensures IsSet(Pow2(n) - 1, j)
  {
    if j > 0 {
      assert (Pow2(n) - 1) / 2 == Pow2(n - 1) - 1;
      OnesBits(n - 1, j - 1);
    }
  }

  /** A word whose 64 bits are all set is `u64::MAX`. */
  lemma AllOnesIsMax(w: u64)
    requires OnesBelow(w, 64)
    ensures w == WORD_MAX
  {
    Pow2Word();
    AllOnes(w, 64);
  }

  /** Every bit of `u64::MAX` is set. */
  lemma MaxAt(i: nat)
    requires i < 64
    ensures IsSet(WORD_MAX, i)
  {
    Pow2Word();
    OnesBits(64, i);
  }

  lemma {:induction false} Pow2Mono(i: nat, j: nat)
    requires i <= j
    ensures Pow2(i) <= Pow2(j)
  {
    if i < j {
      Pow2Mono(i, j - 1);
    }
  }

  /** `w | (1 << i)` is a `u64` again. */
  lemma OrWord(w: u64, i: nat)
    requires i < 64
    ensures Or(w, Pow2(i)) <= WORD_MAX
  {
    Pow2Word();
    Pow2Mono(i, 63);
    OrBound(w, Pow2(i), 64);
  }

  /** `u64::trailing_ones`: the number of set bits below the lowest clear one. */
  function TrailingOnes(w: u64): (n: nat)
    ensures n <= 64 && OnesBelow(w, n)
    ensures n < 64 ==> !IsSet(w, n)
    ensures n == 64 <==> w == WORD_MAX
  {
    OnesFrom(w, 0)
  }

  /** The count of `TrailingOnes` once the `k` lowest bits are known to be set. */
  function OnesFrom(w: u64, k: nat): (n: nat)
    requires k <= 64 && OnesBelow(w, k)
    ensures k <= n <= 64 && OnesBelow(w, n)
    ensures n < 64 ==> !IsSet(w, n)
    ensures n == 64 <==> w == WORD_MAX
    decreases 64 - k
  {
    if k == 64 then
      AllOnesIsMax(w);
      64
    else if IsSet(w, k) then
      OnesFrom(w, k + 1)
    else
      assert w != WORD_MAX by { MaxAt(k); }
      k
  }

  // ---------------------------------------------------------------------
  // The `BitmapBlock` view of a block's bytes: 64 little-endian words.
  // ---------------------------------------------------------------------

  /** The number whose little-endian bytes are `b`. */
  function LoadWord(b: seq<byte>): (w: nat)
    ensures w < Pow2(8 * |b|)
  {
    if |b| == 0 then 0
    else
      Pow2Byte(8 * (|b| - 1));
      b[0] + 256 * LoadWord(b[1..])
  }

  /** The `n` little-endian bytes of `w`. */
  function StoreWord(w: nat, n: nat): (b: seq<byte>)
    ensures |b| == n
  {
    if n == 0 then [] else [w % 256] + StoreWord(w / 256, n - 1)
  }

  lemma {:induction false} LoadStore(w: nat, n: nat)
    requires w < Pow2(8 * n)
    ensures LoadWord(StoreWord(w, n)) == w
  {
    if n > 0 {
      Pow2Byte(8 * (n - 1));
      LoadStore(w / 256, n - 1);
      assert StoreWord(w, n)[1..] == StoreWord(w / 256, n - 1);
    }
  }

  lemma {:induction false} StoreLoad(b: seq<byte>)
    ensures StoreWord(LoadWord(b), |b|) == b
  {
    if |b| > 0 {
      StoreLoad(b[1..]);
      assert (b[0] + 256 * LoadWord(b[1..])) / 256 == LoadWord(b[1..]);
      assert b == [b[0]] + b[1..];
    }
  }

  /** The number whose little-endian bytes are the `n` bytes of `bs` from `off` on. */
  function LoadAt(bs: seq<byte>, off: nat, n: nat): (w: nat)
    requires off + n <= |bs|
    ensures w < Pow2(8 * n)
    decreases n
  {
    if n == 0 then 0
    else
      Pow2Byte(8 * (n - 1));
      bs[off] + 256 * LoadAt(bs, off + 1, n - 1)
  }

  /** `LoadAt` reads the same bytes as `LoadWord` on the slice. */
  lemma {:induction false} LoadAtSlice(bs: seq<byte>, off: nat, n: nat)
    requires off + n <= |bs|
    ensures LoadAt(bs, off, n) == LoadWord(bs[off..off + n])
    decreases n
  {
    if n > 0 {
      LoadAtSlice(bs, off + 1, n - 1);
      assert bs[off..off + n][1..] == bs[off + 1..off + n];
    }
  }

  /** Dropping `k` bytes moves every offset down by `k`. */
  lemma {:induction false} LoadAtShift(bs: seq<byte>, k: nat, off: nat, n: nat)
    requires k <= |bs| && off + n <= |bs| - k
    ensures LoadAt(bs[k..], off, n) == LoadAt(bs, off + k, n)
    decreases n
  {
    if n > 0 {
      LoadAtShift(bs, k, off + 1, n - 1);
    }
  }

  /**
   * Bit `i` of `x + 2^k * y`, for `x` below `2^k`: bit `i` of `x` below `k`,
   * bit `i - k` of `y` from `k` on.
   */
  lemma {:induction false} IsSetSplit(x: nat, y: nat, k: nat, i: nat)
    requires x < Pow2(k)
    ensures IsSet(x + Pow2(k) * y, i) == if i < k then IsSet(x, i) else IsSet(y, i - k)
    decreases k
  {
    if k > 0 {
      var z := Pow2(k - 1) * y;
      assert Pow2(k) * y == 2 * z;
      assert (x + 2 * z) / 2 == x / 2 + z && (x + 2 * z) % 2 == x % 2;
      if i > 0 {
        IsSetSplit(x / 2, y, k - 1, i - 1);
      }
    }
  }

  /** Bit `i` of the number in the `n` bytes from `off` is bit `i % 8` of byte `off + i / 8`. */
  lemma {:induction false} LoadAtBit(bs: seq<byte>, off: nat, n: nat, i: nat)
    requires off + n <= |bs| && i < 8 * n
    ensures IsSet(LoadAt(bs, off, n), i) == IsSet(bs[off + i / 8], i % 8)
    decreases n
  {
    Pow2Byte(0);
    IsSetSplit(bs[off], LoadAt(bs, off + 1, n - 1), 8, i);
    if i >= 8 {
      LoadAtBit(bs, off + 1, n - 1, i - 8);
    }
  }

  /** `LoadAt` reads bytes `off` to `off + n - 1` and no other. */
  lemma {:induction false} LoadAtFrame(bs: seq<byte>, cs: seq<byte>, off: nat, n: nat)
    requires off + n <= |bs| && off + n <= |cs|
    requires forall i :: off <= i < off + n ==> bs[i] == cs[i]
    ensures LoadAt(bs, off, n) == LoadAt(cs, off, n)
    decreases n
  {
    if n > 0 {
      LoadAtFrame(bs, cs, off + 1, n - 1);
    }
  }

  /** Taking `2^t` from byte `k` takes `2^e`, with `e == 8 * (k - off) + t`, from the number. */
  lemma {:induction false} LoadAtSub(bs: seq<byte>, cs: seq<byte>, off: nat, n: nat, k: nat, t: nat, e: nat)
    requires off <= k < off + n <= |bs| && |cs| == |bs|
    requires cs[k] + Pow2(t) == bs[k]
    requires forall i :: 0 <= i < |bs| && i != k ==> cs[i] == bs[i]
    requires e == 8 * (k - off) + t
    ensures LoadAt(cs, off, n) + Pow2(e) == LoadAt(bs, off, n)
    decreases n
  {
    if k == off {
      LoadAtFrame(bs, cs, off + 1, n - 1);
    } else {
      LoadAtSub(bs, cs, off + 1, n - 1, k, t, e - 8);
      Pow2Byte(e - 8);
    }
  }

  /** Word `i` of a byte buffer: the `u64` in bytes `8 * i` to `8 * i + 7`. */
  function WordAt(bs: seq<byte>, i: nat): u64
    requires 8 * i + 8 <= |bs|
  {
    Pow2Word();
    LoadAt(bs, 8 * i, 8)
  }

  /** The words a byte buffer holds; a trailing partial word is not one. */
  function Words(bs: seq<byte>): (ws: seq<u64>)
    ensures |ws| == |bs| / 8
  {
    seq(|bs| / 8, i requires 0 <= i < |bs| / 8 => WordAt(bs, i))
  }

  /** The words of a buffer are its first word followed by the words of the rest. */
  lemma WordsCons(bs: seq<byte>)
    requires |bs| >= 8
    ensures Words(bs) == [LoadWord(bs[..8])] + Words(bs[8..])
  {
    LoadAtSlice(bs, 0, 8);
    assert bs[0..8] == bs[..8];
    forall i | 0 < i < |bs| / 8
      ensures Words(bs)[i] == Words(bs[8..])[i - 1]
    {
      LoadAtShift(bs, 8, 8 * (i - 1), 8);
    }
  }

  /** The bytes that hold `ws`. */
  function Bytes(ws: seq<u64>): (bs: seq<byte>)
    ensures |bs| == 8 * |ws|
  {
    if ws == [] then [] else StoreWord(ws[0], 8) + Bytes(ws[1..])
  }

  /** Writing words and reading them back gives the same words. */
  lemma {:induction false} WordsOfBytes(ws: seq<u64>)
    ensures Words(Bytes(ws)) == ws
  {
    if ws != [] {
      var bs := Bytes(ws);
      WordsCons(bs);
      assert bs[..8] == StoreWord(ws[0], 8);
      assert bs[8..] == Bytes(ws[1..]);
      Pow2Word();
      LoadStore(ws[0], 8);
      WordsOfBytes(ws[1..]);
    }
  }

  /** Reading the words of a whole number of words and writing them back gives the same bytes. */
  lemma {:induction false} BytesOfWords(bs: seq<byte>)
    requires |bs| % 8 == 0
    ensures Bytes(Words(bs)) == bs
    decreases |bs|
  {
    if |bs| != 0 {
      WordsCons(bs);
      StoreLoad(bs[..8]);
      BytesOfWords(bs[8..]);
      assert bs == bs[..8] + bs[8..];
    }
  }

  // ---------------------------------------------------------------------
  // One bitmap block as 64 words; bit `j` of it is bit `j % 64` of word
  // `j / 64`.
  // ---------------------------------------------------------------------

  /** Bit `j` of a bitmap block. */
  predicate BitIn(ws: seq<u64>, j: nat)
    requires |ws| == BLOCK_WORDS && j < BLOCK_BITS
  {
    IsSet(ws[j / 64], j % 64)
  }

  /** Every word of the block is `u64::MAX`. */
  predicate BlockFull(ws: seq<u64>)
  {
    forall w :: 0 <= w < |ws| ==> ws[w] == WORD_MAX
  }

  /** `j` is the lowest clear bit of the block. */
  ghost predicate LowestFreeIn(ws: seq<u64>, j: nat)
    requires |ws| == BLOCK_WORDS
  {
    j < BLOCK_BITS && !BitIn(ws, j) && forall k :: 0 <= k < j ==> BitIn(ws, k)
  }

  /** The block after `bitmap_block[j / 64] |= 1u64 << (j % 64)`. */
  function SetIn(ws: seq<u64>, j: nat): (r: seq<u64>)
    requires |ws| == BLOCK_WORDS && j < BLOCK_BITS
    ensures |r| == BLOCK_WORDS
  {
    OrWord(ws[j / 64], j % 64);
    ws[j / 64 := Or(ws[j / 64], Pow2(j % 64))]
  }

  /** The block after `bitmap_block[j / 64] -= 1u64 << (j % 64)`, on a set bit. */
  function ClearIn(ws: seq<u64>, j: nat): (r: seq<u64>)
    requires |ws| == BLOCK_WORDS && j < BLOCK_BITS && BitIn(ws, j)
    ensures |r| == BLOCK_WORDS
  {
    SubtractBit(ws[j / 64], j % 64, 0);
    ws[j / 64 := ws[j / 64] - Pow2(j % 64)]
  }

  /** Setting bit `j` of a block sets that bit and no other. */
  lemma SetInEffect(ws: seq<u64>, j: nat, k: nat)
    requires |ws| == BLOCK_WORDS && j < BLOCK_BITS && k < BLOCK_BITS
    ensures BitIn(SetIn(ws, j), k) == (k == j || BitIn(ws, k))
  {
    if k / 64 == j / 64 {
      OrBits(ws[j / 64], Pow2(j % 64), k % 64);
      Pow2Bits(j % 64, k % 64);
    }
  }

  /** Clearing set bit `j` of a block clears that bit and no other. */
  lemma ClearInEffect(ws: seq<u64>, j: nat, k: nat)
    requires |ws| == BLOCK_WORDS && j < BLOCK_BITS && k < BLOCK_BITS && BitIn(ws, j)
    ensures BitIn(ClearIn(ws, j), k) == (k != j && BitIn(ws, k))
  {
    if k / 64 == j / 64 {
      SubtractBit(ws[j / 64], j % 64, k % 64);
    }
  }

  /** A block is full exactly when every one of its bits is set. */
  lemma {:induction false} BlockFullIff(ws: seq<u64>)
    requires |ws| == BLOCK_WORDS
    ensures BlockFull(ws) <==> forall j :: 0 <= j < BLOCK_BITS ==> BitIn(ws, j)
  {
    if BlockFull(ws) {
      forall j | 0 <= j < BLOCK_BITS
        ensures BitIn(ws, j)
      {
        MaxAt(j % 64);
      }
    }
    if forall j :: 0 <= j < BLOCK_BITS ==> BitIn(ws, j) {
      forall w | 0 <= w < BLOCK_WORDS
        ensures ws[w] == WORD_MAX
      {
        forall i | 0 <= i < 64
          ensures IsSet(ws[w], i)
        {
          assert BitIn(ws, w * 64 + i);
        }
        AllOnesIsMax(ws[w]);
      }
    }
  }

  /** `iter().enumerate().find(|(_, bits64)| **bits64 != u64::MAX)`, from word `start` on. */
  function FirstNotFull(ws: seq<u64>, start: nat): (r: Option<nat>)
    requires start <= |ws|
    ensures r.Some? ==> start <= r.value < |ws| && ws[r.value] != WORD_MAX
    ensures r.Some? ==> forall w :: start <= w < r.value ==> ws[w] == WORD_MAX
    ensures r.None? <==> forall w :: start <= w < |ws| ==> ws[w] == WORD_MAX
    decreases |ws| - start
  {
    if start == |ws| then None
    else if ws[start] != WORD_MAX then Some(start)
    else FirstNotFull(ws, start + 1)
  }

  /**
   * The bit the closure of `alloc` picks in a block whose first not-full word
   * is `w`: the lowest clear bit of the block.
   */
  lemma {:induction false} FirstClearIsLowest(ws: seq<u64>, w: nat)
    requires |ws| == BLOCK_WORDS && FirstNotFull(ws, 0) == Some(w)
    ensures TrailingOnes(ws[w]) < 64
    ensures LowestFreeIn(ws, w * 64 + TrailingOnes(ws[w]))
  {
    var i := TrailingOnes(ws[w]);
    var j := w * 64 + i;
    assert j / 64 == w && j % 64 == i;
    forall k | 0 <= k < j
      ensures BitIn(ws, k)
    {
      if k / 64 < w {
        MaxAt(k % 64);
      } else {
        assert k % 64 < i;
      }
    }
  }

  /**
   * The bit the closure of `alloc` picks in a block: the lowest clear bit
   * (`trailing_ones`) of the first word that is not `u64::MAX`, as an index
   * into the block; none when every word is full.
   */
  function PickIn(ws: seq<u64>): (r: Option<nat>)
    requires |ws| == BLOCK_WORDS
    ensures r.None? <==> BlockFull(ws)
    ensures r.Some? ==> LowestFreeIn(ws, r.value)
  {
    var found := FirstNotFull(ws, 0);
    if found.None? then
      None
    else
      var w := found.value;
      FirstClearIsLowest(ws, w);
      Some(w * 64 + TrailingOnes(ws[w]))
  }

  /**
   * The closure `alloc` runs on the view of block `blockId`: set the picked
   * bit and report its index in the whole bitmap; a full block comes back
   * untouched, with no index.
   */
  function AllocInBlock(blockId: nat, view: seq<byte>): (r: (seq<byte>, Option<nat>))
    requires |view| == BLOCK_SZ
    ensures |r.0| == BLOCK_SZ
  {
    var ws := Words(view);
    var pick := PickIn(ws);
    if pick.None? then (view, None)
    else (Bytes(SetIn(ws, pick.value)), Some(blockId * BLOCK_BITS + pick.value))
  }

  /**
   * The closure of `alloc` on block `blockId` yields nothing exactly when the
   * block is full, and then writes nothing back; otherwise it sets the
   * block's lowest clear bit and yields that bit's index in the bitmap.
   */
  lemma AllocInBlockEffect(blockId: nat, view: seq<byte>)
    requires |view| == BLOCK_SZ
    ensures var r := AllocInBlock(blockId, view);
            (r.1.None? <==> BlockFull(Words(view))) &&
            (r.1.None? ==> r.0 == view) &&
            (r.1.Some? ==>
               var j := r.1.value - blockId * BLOCK_BITS;
               blockId * BLOCK_BITS <= r.1.value && j < BLOCK_BITS &&
               LowestFreeIn(Words(view), j) && Words(r.0) == SetIn(Words(view), j))
  {
    var ws := Words(view);
    var pick := PickIn(ws);
    if pick.Some? {
      WordsOfBytes(SetIn(ws, pick.value));
    }
  }

  /** When the block has a clear bit, the closure of `alloc` sets the one `PickIn` picks and yields its index. */
  lemma AllocInBlockPicked(blockId: nat, view: seq<byte>)
    requires |view| == BLOCK_SZ && PickIn(Words(view)).Some?
    ensures var j := PickIn(Words(view)).value; var p: nat := blockId * BLOCK_BITS + j;
            AllocInBlock(blockId, view) == (Bytes(SetIn(Words(view), j)), Some(p))
  {
  }

  /** Bit `j` of a block read as bytes: bit `j % 8` of byte `j / 8`. */
  predicate BitInBytes(view: seq<byte>, j: nat)
    requires |view| == BLOCK_SZ && j < BLOCK_BITS
  {
    IsSet(view[j / 8], j % 8)
  }

  /** Bit `j` of a block read as bytes is bit `j` of the block read as words. */
  lemma BitInBytesIff(view: seq<byte>, j: nat)
    requires |view| == BLOCK_SZ && j < BLOCK_BITS
    ensures BitInBytes(view, j) == BitIn(Words(view), j)
  {
    LoadAtBit(view, 8 * (j / 64), 8, j % 64);
    assert 8 * (j / 64) + (j % 64) / 8 == j / 8 && (j % 64) % 8 == j % 8;
  }

  /**
   * The closure `dealloc` runs on bit `j` of a block, that is on bit
   * `j % 64` of word `j / 64`, once its assertion that the bit is set has
   * passed: subtract that bit.  On the block's bytes this takes `2^(j % 8)`
   * from byte `j / 8`; `DeallocInBlockEffect` shows it is the subtraction
   * on the word.
   */
  function DeallocInBlock(j: nat, view: seq<byte>): (r: (seq<byte>, ()))
    requires |view| == BLOCK_SZ && j < BLOCK_BITS
    requires BitInBytes(view, j)
    ensures |r.0| == BLOCK_SZ
  {
    SubtractBit(view[j / 8], j % 8, 0);
    (view[j / 8 := view[j / 8] - Pow2(j % 8)], ())
  }

  /**
   * The closure of `dealloc` is `bitmap_block[j / 64] -= 1u64 << (j % 64)`
   * on the block's words: it clears bit `j` and no other.
   */
  lemma DeallocInBlockEffect(j: nat, view: seq<byte>)
    requires |view| == BLOCK_SZ && j < BLOCK_BITS && BitInBytes(view, j)
    ensures BitIn(Words(view), j)
    ensures Words(DeallocInBlock(j, view).0) == ClearIn(Words(view), j)
  {
    BitInBytesIff(view, j);
    var after := DeallocInBlock(j, view).0;
    var ws, ws1 := Words(view), Words(after);
    forall i | 0 <= i < BLOCK_WORDS
      ensures ws1[i] == if i == j / 64 then ws[i] - Pow2(j % 64) else ws[i]
    {
      DeallocWord(j, view, i);
    }
  }

  /** Word `i` of a block after the closure of `dealloc` on its bit `j`. */
  lemma DeallocWord(j: nat, view: seq<byte>, i: nat)
    requires |view| == BLOCK_SZ && j < BLOCK_BITS && BitInBytes(view, j) && i < BLOCK_WORDS
    ensures WordAt(DeallocInBlock(j, view).0, i)
            == if i == j / 64 then WordAt(view, i) - Pow2(j % 64) else WordAt(view, i)
  {
    if i == j / 64 {
      DeallocHit(j, view);
    } else {
      DeallocMiss(j, view, i);
    }
  }

  /** The word holding bit `j` loses `2^(j % 64)`. */
  lemma DeallocHit(j: nat, view: seq<byte>)
    requires |view| == BLOCK_SZ && j < BLOCK_BITS && BitInBytes(view, j)
    ensures LoadAt(DeallocInBlock(j, view).0, 8 * (j / 64), 8) + Pow2(j % 64) == LoadAt(view, 8 * (j / 64), 8)
  {
    var off, k, t := 8 * (j / 64), j / 8, j % 8;
    ByteOfBit(j);
    SubtractBit(view[k], t, 0);
    var after := view[k := view[k] - Pow2(t)];
    assert DeallocInBlock(j, view).0 == after;
    LoadAtSub(view, after, off, 8, k, t, j % 64);
  }

  /** Every other word is untouched. */
  lemma DeallocMiss(j: nat, view: seq<byte>, i: nat)
    requires |view| == BLOCK_SZ && j < BLOCK_BITS && BitInBytes(view, j) && i < BLOCK_WORDS && i != j / 64
    ensures LoadAt(DeallocInBlock(j, view).0, 8 * i, 8) == LoadAt(view, 8 * i, 8)
  {
    ByteOfBit(j);
    LoadAtFrame(view, DeallocInBlock(j, view).0, 8 * i, 8);
  }

  /** Byte `j / 8` holding bit `j` lies in word `j / 64`, at bit offset `j % 64` of it. */
  lemma ByteOfBit(j: nat)
    ensures 8 * (j / 64) <= j / 8 < 8 * (j / 64) + 8
    ensures 8 * (j / 8 - 8 * (j / 64)) + j % 8 == j % 64
  {
  }

  // ---------------------------------------------------------------------
  // The whole bitmap: one 64-word block per bitmap block, bit `p` in block
  // `p / BLOCK_BITS`.
  // ---------------------------------------------------------------------

  /** `decomposition`: split a bit index into block, word and bit-in-word. */
  function Decomposition(bit: nat): (r: (nat, nat, nat))
    ensures bit == r.0 * BLOCK_BITS + r.1 * 64 + r.2
    ensures r.1 < BLOCK_WORDS && r.2 < 64
  {
    var blockPos := bit / BLOCK_BITS;
    var rest := bit % BLOCK_BITS;
    (blockPos, rest / 64, rest % 64)
  }

  /** Every in-range triple is the decomposition of exactly one index. */
  lemma DecompositionUnique(blockPos: nat, word: nat, inner: nat)
    requires word < BLOCK_WORDS && inner < 64
    ensures Decomposition(blockPos * BLOCK_BITS + word * 64 + inner) == (blockPos, word, inner)
  {
    var bit := blockPos * BLOCK_BITS + word * 64 + inner;
    assert bit / BLOCK_BITS == blockPos;
    assert bit % BLOCK_BITS == word * 64 + inner;
  }

  /** The block of `decomposition` is `bit / BLOCK_BITS`; word and bit-in-word locate `bit % BLOCK_BITS` in it. */
  lemma DecompositionSplit(bit: nat)
    ensures var (blockPos, word, inner) := Decomposition(bit);
            bit / BLOCK_BITS == blockPos && bit % BLOCK_BITS == word * 64 + inner
  {
  }

  /** Bit `bit` lies inside a bitmap of `n` blocks exactly when its block does. */
  lemma BlockOfBit(bit: nat, n: nat)
    ensures bit < n * BLOCK_BITS <==> bit / BLOCK_BITS < n
  {
  }

  /** Sequences of the same length that agree everywhere but at `b` differ at most at `b`. */
  lemma UpdateOne<T>(s0: seq<T>, s1: seq<T>, b: nat)
    requires |s0| == |s1| && b < |s0|
    requires forall k :: 0 <= k < |s0| && k != b ==> s1[k] == s0[k]
    ensures s1 == s0[b := s1[b]]
  {
  }

  /** The word view of each of a sequence of blocks. */
  function Lift(bs: seq<seq<byte>>): (c: seq<seq<u64>>)
    ensures |c| == |bs|
  {
    if bs == [] then [] else [Words(bs[0])] + Lift(bs[1..])
  }

  /** Block `k` of the word view is the words of raw block `k`. */
  lemma {:induction false} LiftAt(bs: seq<seq<byte>>, k: nat)
    requires k < |bs|
    ensures Lift(bs)[k] == Words(bs[k])
    decreases k
  {
    if k > 0 {
      LiftAt(bs[1..], k - 1);
    }
  }

  /** `LiftAt` for every block. */
  lemma LiftAll(bs: seq<seq<byte>>)
    ensures forall k :: 0 <= k < |bs| ==> Lift(bs)[k] == Words(bs[k])
  {
    forall k | 0 <= k < |bs|
      ensures Lift(bs)[k] == Words(bs[k])
    {
      LiftAt(bs, k);
    }
  }

  /** Blocks of `BLOCK_SZ` bytes are blocks of `BLOCK_WORDS` words. */
  lemma LiftWellFormed(bs: seq<seq<byte>>)
    requires BlockSized(bs)
    ensures WellFormed(Lift(bs))
  {
    forall k | 0 <= k < |bs|
      ensures |Lift(bs)[k]| == BLOCK_WORDS
    {
      LiftAt(bs, k);
    }
  }

  /** Rewriting one block rewrites its word view and no other. */
  lemma LiftUpdate(bs: seq<seq<byte>>, b: nat, x: seq<byte>)
    requires b < |bs|
    ensures Lift(bs[b := x]) == Lift(bs)[b := Words(x)]
  {
    LiftAll(bs);
    LiftAll(bs[b := x]);
  }

  ghost predicate WellFormed(c: seq<seq<u64>>)
  {
    forall b :: 0 <= b < |c| ==> |c[b]| == BLOCK_WORDS
  }

  /** Bit `p` of the bitmap is allocated. */
  ghost predicate Allocated(c: seq<seq<u64>>, p: nat)
    requires WellFormed(c) && p < |c| * BLOCK_BITS
  {
    BitIn(c[p / BLOCK_BITS], p % BLOCK_BITS)
  }

  /** Every word of every block is `u64::MAX`. */
  ghost predicate Full(c: seq<seq<u64>>)
  {
    forall b :: 0 <= b < |c| ==> BlockFull(c[b])
  }

  /** Blocks `0` to `b - 1` are full. */
  ghost predicate FullBelow(c: seq<seq<u64>>, b: nat)
  {
    forall k :: 0 <= k < b && k < |c| ==> BlockFull(c[k])
  }

  /** `p` is the lowest free bit of the bitmap. */
  ghost predicate LowestFree(c: seq<seq<u64>>, p: nat)
    requires WellFormed(c)
  {
    p < |c| * BLOCK_BITS && !Allocated(c, p) && forall q :: 0 <= q < p ==> Allocated(c, q)
  }

  /** The bitmap with bit `p` allocated. */
  ghost function SetBitAt(c: seq<seq<u64>>, p: nat): (r: seq<seq<u64>>)
    requires WellFormed(c) && p < |c| * BLOCK_BITS
    ensures WellFormed(r) && |r| == |c|
  {
    c[p / BLOCK_BITS := SetIn(c[p / BLOCK_BITS], p % BLOCK_BITS)]
  }

  /** The bitmap with allocated bit `p` freed. */
  ghost function ClearBitAt(c: seq<seq<u64>>, p: nat): (r: seq<seq<u64>>)
    requires WellFormed(c) && p < |c| * BLOCK_BITS && Allocated(c, p)
    ensures WellFormed(r) && |r| == |c|
  {
    c[p / BLOCK_BITS := ClearIn(c[p / BLOCK_BITS], p % BLOCK_BITS)]
  }

  /**
   * The closure of `dealloc` run on the block holding allocated bit `p`
   * frees `p` in the bitmap: `c1` is `c` with that block rewritten.
   */
  lemma DeallocStep(c: seq<seq<u64>>, c1: seq<seq<u64>>, p: nat, view: seq<byte>, written: seq<byte>)
    requires WellFormed(c) && p < |c| * BLOCK_BITS
    requires |view| == BLOCK_SZ && Words(view) == c[p / BLOCK_BITS]
    requires BitInBytes(view, p % BLOCK_BITS)
    requires written == DeallocInBlock(p % BLOCK_BITS, view).0
    requires c1 == c[p / BLOCK_BITS := Words(written)]
    ensures Allocated(c, p)
    ensures c1 == ClearBitAt(c, p)
  {
    DeallocInBlockEffect(p % BLOCK_BITS, view);
  }

  /** Allocating bit `p` sets bit `p` and leaves every other bit as it was. */
  lemma SetBitAtEffect(c: seq<seq<u64>>, p: nat, q: nat)
    requires WellFormed(c) && p < |c| * BLOCK_BITS && q < |c| * BLOCK_BITS
    ensures Allocated(SetBitAt(c, p), q) == (q == p || Allocated(c, q))
  {
    if q / BLOCK_BITS == p / BLOCK_BITS {
      SetInEffect(c[p / BLOCK_BITS], p % BLOCK_BITS, q % BLOCK_BITS);
    }
  }

  /** Freeing bit `p` clears bit `p` and leaves every other bit as it was. */
  lemma ClearBitAtEffect(c: seq<seq<u64>>, p: nat, q: nat)
    requires WellFormed(c) && p < |c| * BLOCK_BITS && q < |c| * BLOCK_BITS && Allocated(c, p)
    ensures Allocated(ClearBitAt(c, p), q) == (q != p && Allocated(c, q))
  {
    if q / BLOCK_BITS == p / BLOCK_BITS {
      ClearInEffect(c[p / BLOCK_BITS], p % BLOCK_BITS, q % BLOCK_BITS);
    }
  }

  /** Freeing a bit that was just allocated gives back the bitmap it was allocated in. */
  lemma ClearUndoesSet(c: seq<seq<u64>>, p: nat)
    requires WellFormed(c) && p < |c| * BLOCK_BITS && !Allocated(c, p)
    ensures Allocated(SetBitAt(c, p), p)
    ensures ClearBitAt(SetBitAt(c, p), p) == c
  {
    var b := p / BLOCK_BITS;
    var j := p % BLOCK_BITS;
    SetBitAtEffect(c, p, p);
    OrClearBit(c[b][j / 64], j % 64);
    assert ClearIn(SetIn(c[b], j), j) == c[b];
  }

  /** Allocating a bit that was just freed gives back the bitmap it was freed in. */
  lemma SetUndoesClear(c: seq<seq<u64>>, p: nat)
    requires WellFormed(c) && p < |c| * BLOCK_BITS && Allocated(c, p)
    ensures SetBitAt(ClearBitAt(c, p), p) == c
  {
    var b := p / BLOCK_BITS;
    var j := p % BLOCK_BITS;
    var w := c[b][j / 64];
    SubtractBit(w, j % 64, j % 64);
    OrClearBit(w - Pow2(j % 64), j % 64);
    assert SetIn(ClearIn(c[b], j), j) == c[b];
  }

  /** The bitmap is full, in the sense `alloc` tests, exactly when no bit is free. */
  lemma FullIff(c: seq<seq<u64>>)
    requires WellFormed(c)
    ensures Full(c) <==> forall p :: 0 <= p < |c| * BLOCK_BITS ==> Allocated(c, p)
  {
    if Full(c) {
      forall p | 0 <= p < |c| * BLOCK_BITS
        ensures Allocated(c, p)
      {
        BlockFullIff(c[p / BLOCK_BITS]);
      }
    }
    if forall p :: 0 <= p < |c| * BLOCK_BITS ==> Allocated(c, p) {
      forall b | 0 <= b < |c|
        ensures BlockFull(c[b])
      {
        forall j | 0 <= j < BLOCK_BITS
          ensures BitIn(c[b], j)
        {
          var p := b * BLOCK_BITS + j;
          assert p / BLOCK_BITS == b && p % BLOCK_BITS == j;
          assert Allocated(c, p);
        }
        BlockFullIff(c[b]);
      }
    }
  }

  /** There is at most one lowest free bit. */
  lemma LowestFreeUnique(c: seq<seq<u64>>, p: nat, q: nat)
    requires WellFormed(c) && LowestFree(c, p) && LowestFree(c, q)
    ensures p == q
  {
  }

  /**
   * When the blocks before `b` are full, the lowest free bit of block `b` is
   * the lowest free bit of the bitmap.
   */
  lemma LowestFreeAcross(c: seq<seq<u64>>, b: nat, j: nat)
    requires WellFormed(c) && b < |c|
    requires FullBelow(c, b)
    requires LowestFreeIn(c[b], j)
    ensures LowestFree(c, b * BLOCK_BITS + j)
  {
    var p := b * BLOCK_BITS + j;
    assert p / BLOCK_BITS == b && p % BLOCK_BITS == j;
    forall q | 0 <= q < p
      ensures Allocated(c, q)
    {
      if q / BLOCK_BITS < b {
        BlockFullIff(c[q / BLOCK_BITS]);
      } else {
        assert q % BLOCK_BITS < j;
      }
    }
  }

  /**
   * Freeing bit `p` when every bit below it is allocated makes `p` the lowest
   * free bit: the next `alloc` hands `p` back.
   */
  lemma DeallocThenAlloc(c: seq<seq<u64>>, p: nat)
    requires WellFormed(c) && p < |c| * BLOCK_BITS && Allocated(c, p)
    requires forall q :: 0 <= q < p ==> Allocated(c, q)
    ensures LowestFree(ClearBitAt(c, p), p)
  {
    ClearBitAtEffect(c, p, p);
    forall q | 0 <= q < p
      ensures Allocated(ClearBitAt(c, p), q)
    {
      ClearBitAtEffect(c, p, q);
    }
  }

  /**
   * What one pass of `alloc` over bitmap block `b` (whose bytes are `view`)
   * does to the bitmap `c` once the blocks before it are full: it finds
   * nothing exactly when block `b` is full too, and then writes back the same
   * bytes; otherwise it finds the lowest free bit of the whole bitmap and
   * sets exactly that bit.
   */
  lemma AllocStep(c: seq<seq<u64>>, b: nat, view: seq<byte>)
    requires WellFormed(c) && b < |c| && |view| == BLOCK_SZ && Words(view) == c[b]
    requires FullBelow(c, b)
    ensures var r := AllocInBlock(b, view);
            r.1.None? ==> r.0 == view && BlockFull(c[b])
    ensures var r := AllocInBlock(b, view);
            r.1.Some? ==>
              r.1.value < |c| * BLOCK_BITS && r.1.value / BLOCK_BITS == b && !Full(c) &&
              LowestFree(c, r.1.value) && c[b := Words(r.0)] == SetBitAt(c, r.1.value)
  {
    var ws := Words(view);
    var pick := PickIn(ws);
    if pick.Some? {
      var j := pick.value;
      var p := b * BLOCK_BITS + j;
      AllocInBlockPicked(b, view);
      assert p / BLOCK_BITS == b && p % BLOCK_BITS == j;
      LowestFreeAcross(c, b, j);
      WordsOfBytes(SetIn(ws, j));
    }
  }

  /** Every block of `bs` has the size of a block. */
  ghost predicate BlockSized(bs: seq<seq<byte>>)
  {
    forall k :: 0 <= k < |bs| ==> |bs[k]| == BLOCK_SZ
  }

  /**
   * `AllocStep` on the word view of the raw blocks `bs`: when the closure of
   * `alloc` run on block `b` yields `pos` and rewrites that block alone,
   * giving `bs1`, it either found nothing and `bs1` is `bs`, or it rewrote
   * the bitmap as `SetBitAt` does at the lowest free bit.
   */
  lemma AllocRaw(bs: seq<seq<byte>>, bs1: seq<seq<byte>>, b: nat, pos: Option<nat>)
    requires BlockSized(bs) && b < |bs| && |bs1| == |bs|
    requires FullBelow(Lift(bs), b)
    requires forall k :: 0 <= k < |bs| && k != b ==> bs1[k] == bs[k]
    requires (bs1[b], pos) == AllocInBlock(b, bs[b])
    ensures WellFormed(Lift(bs))
    ensures pos.None? ==> bs1 == bs && BlockFull(Lift(bs)[b])
    ensures pos.Some? ==>
              pos.value < |bs| * BLOCK_BITS && pos.value / BLOCK_BITS == b && !Full(Lift(bs)) &&
              LowestFree(Lift(bs), pos.value) && Lift(bs1) == SetBitAt(Lift(bs), pos.value)
  {
    LiftAll(bs);
    AllocStep(Lift(bs), b, bs[b]);
    UpdateOne(bs, bs1, b);
    LiftUpdate(bs, b, bs1[b]);
  }

  /**
   * `DeallocStep` on the word view of the raw blocks `bs`: the closure of
   * `dealloc` run on the block holding allocated bit `p` frees that bit of
   * the bitmap and nothing else.
   */
  lemma DeallocRaw(bs: seq<seq<byte>>, bs1: seq<seq<byte>>, p: nat)
    requires BlockSized(bs) && p < |bs| * BLOCK_BITS
    requires BitInBytes(bs[p / BLOCK_BITS], p % BLOCK_BITS)
    requires |bs1| == |bs| && bs1[p / BLOCK_BITS] == DeallocInBlock(p % BLOCK_BITS, bs[p / BLOCK_BITS]).0
    requires forall k :: 0 <= k < |bs| && k != p / BLOCK_BITS ==> bs1[k] == bs[k]
    ensures WellFormed(Lift(bs))
    ensures Allocated(Lift(bs), p)
    ensures Lift(bs1) == ClearBitAt(Lift(bs), p)
  {
    var b := p / BLOCK_BITS;
    var written := bs1[b];
    LiftWellFormed(bs);
    LiftAt(bs, b);
    UpdateOne(bs, bs1, b);
    LiftUpdate(bs, b, written);
    DeallocStep(Lift(bs), Lift(bs1), p, bs[b], written);
  }


  /** `Bitmap`: the bitmap occupies `blocks` disk blocks from `startBlockId` on. */
  class Bitmap {
    const startBlockId: nat
    const blocks: nat

    /** `Bitmap::new`. */
    constructor (startBlockId: nat, blocks: nat)
      ensures this.startBlockId == startBlockId && this.blocks == blocks
    {
      this.startBlockId := startBlockId;
      this.blocks := blocks;
    }

    /** `maximum`: the number of bits the bitmap holds. */
    function Maximum(): (m: nat)
      ensures m == blocks * BLOCK_BITS
    {
      blocks * BLOCK_BITS
    }

    /** Disk block `id` is one of the bitmap's blocks. */
    predicate Owns(id: nat)
    {
      startBlockId <= id < startBlockId + blocks
    }

    /** The bitmap's blocks, as the users of the cache `mgr` see them. */
    ghost function Raw(mgr: BlockCacheManager): (r: seq<seq<byte>>)
      reads mgr, mgr.Entries(), mgr.device
      requires mgr.Valid()
      ensures |r| == blocks
    {
      RawPrefix(mgr, blocks)
    }

    /** The first `n` blocks of `Raw(mgr)`. */
    ghost function RawPrefix(mgr: BlockCacheManager, n: nat): (r: seq<seq<byte>>)
      reads mgr, mgr.Entries(), mgr.device
      requires mgr.Valid()
      ensures |r| == n
    {
      if n == 0 then [] else RawPrefix(mgr, n - 1) + [mgr.Block(startBlockId + n - 1)]
    }

    /** Block `k` of `RawPrefix(mgr, n)` is disk block `startBlockId + k` as the cache shows it. */
    lemma {:induction false} RawPrefixAll(mgr: BlockCacheManager, n: nat)
      requires mgr.Valid()
      ensures forall k :: 0 <= k < n ==> RawPrefix(mgr, n)[k] == mgr.Block(startBlockId + k)
    {
      if n > 0 {
        RawPrefixAll(mgr, n - 1);
      }
    }

    /** Block `k` of `Raw(mgr)` is disk block `startBlockId + k` as the cache shows it. */
    lemma RawAll(mgr: BlockCacheManager)
      requires mgr.Valid()
      ensures forall k :: 0 <= k < blocks ==> Raw(mgr)[k] == mgr.Block(startBlockId + k)
    {
      RawPrefixAll(mgr, blocks);
    }

    /** The bitmap as words, as the users of the cache `mgr` see its blocks. */
    ghost function Content(mgr: BlockCacheManager): (c: seq<seq<u64>>)
      reads mgr, mgr.Entries(), mgr.device
      requires mgr.Valid()
      ensures |c| == blocks && WellFormed(c)
    {
      RawAll(mgr);
      LiftAll(Raw(mgr));
      Lift(Raw(mgr))
    }

    /**
     * One pass of the loop of `alloc`: `get_block_cache(block_id +
     * start_block_id).lock().modify(0, ...)` with the closure of
     * `AllocInBlock` on bitmap block `b`, the blocks before which are full.
     * It finds nothing exactly when block `b` is full too, and then leaves the
     * bitmap as it was; otherwise it finds the lowest free bit of the whole
     * bitmap and sets exactly that bit.
     */
    method AllocIn(mgr: BlockCacheManager, b: nat, ghost c0: seq<seq<u64>>) returns (pos: Option<nat>)
      requires mgr.Valid() && mgr.Serves(startBlockId + b) && b < blocks
      requires c0 == Content(mgr) && FullBelow(c0, b)
      modifies mgr`queue, mgr.Entries(), mgr.device
      ensures mgr.Valid()
      ensures old(mgr.CanAcquire()) ==> mgr.CanAcquire()
      ensures forall id :: old(mgr.Serves(id)) ==> mgr.Serves(id)
      ensures forall e :: e in old(mgr.Entries()) && old(e.holders) >= 2 ==> e in mgr.Entries() && e.holders == old(e.holders)
      ensures forall id :: !Owns(id) ==> mgr.Block(id) == old(mgr.Block(id))
      ensures forall e :: e in mgr.Entries() ==> e in old(mgr.Entries()) || fresh(e)
      ensures pos.None? ==> BlockFull(c0[b]) && Content(mgr) == c0
      ensures pos.Some? ==>
                pos.value < Maximum() && !Full(c0) && LowestFree(c0, pos.value) &&
                Content(mgr) == SetBitAt(c0, pos.value) && pos.value / BLOCK_BITS == b
      ensures mgr.Dirty(startBlockId + b)
    {
      ghost var r0 := Raw(mgr);
      RawAll(mgr);
      var pass := v requires |v| == BLOCK_SZ => AllocInBlock(b, v);
      assert pass(r0[b]) == AllocInBlock(b, r0[b]);
      pos := mgr.ModifyWhole(startBlockId + b, pass);
      AllocAfter(mgr, r0, b, pos);
    }

    /**
     * The bitmap after one pass of `alloc` over block `b`, from the raw blocks
     * `r0` before it: block `b` holds what the closure wrote and the others
     * are as they were.
     */
    lemma AllocAfter(mgr: BlockCacheManager, r0: seq<seq<byte>>, b: nat, pos: Option<nat>)
      requires mgr.Valid() && |r0| == blocks && b < blocks
      requires BlockSized(r0) && FullBelow(Lift(r0), b)
      requires forall k :: 0 <= k < blocks && k != b ==> mgr.Block(startBlockId + k) == r0[k]
      requires (mgr.Block(startBlockId + b), pos) == AllocInBlock(b, r0[b])
      ensures WellFormed(Lift(r0))
      ensures pos.None? ==> BlockFull(Lift(r0)[b]) && Content(mgr) == Lift(r0)
      ensures pos.Some? ==>
                pos.value < Maximum() && !Full(Lift(r0)) && LowestFree(Lift(r0), pos.value) &&
                Content(mgr) == SetBitAt(Lift(r0), pos.value) && pos.value / BLOCK_BITS == b
    {
      ghost var r1 := Raw(mgr);
      RawAll(mgr);
      AllocRaw(r0, r1, b, pos);
    }

    /**
     * `alloc`: scan the bitmap blocks in order, running the closure of
     * `AllocInBlock` on each through the cache, and stop at the first block
     * that yields an index.  Each pass (`AllocIn`) marks the block it scans
     * modified, full or not.
     */
    method Alloc(mgr: BlockCacheManager) returns (r: Option<nat>)
      requires mgr.Valid() && mgr.CanAcquire()
      modifies mgr`queue, mgr.Entries(), mgr.device
      ensures mgr.Valid() && mgr.CanAcquire()
      ensures forall e :: e in old(mgr.Entries()) && old(e.holders) >= 2 ==> e in mgr.Entries() && e.holders == old(e.holders)
      ensures forall e :: e in mgr.Entries() ==> e in old(mgr.Entries()) || fresh(e)
      ensures forall id :: !Owns(id) ==> mgr.Block(id) == old(mgr.Block(id))
      ensures r.None? <==> Full(old(Content(mgr)))
      ensures r.None? ==> Content(mgr) == old(Content(mgr))
      ensures r.Some? ==>
                r.value < Maximum() && LowestFree(old(Content(mgr)), r.value) &&
                Content(mgr) == SetBitAt(old(Content(mgr)), r.value)
    {
      ghost var c0 := Content(mgr);
      var b := 0;
      while b < blocks
        invariant b <= blocks
        invariant mgr.Valid() && mgr.CanAcquire()
        invariant forall e :: e in old(mgr.Entries()) && old(e.holders) >= 2 ==> e in mgr.Entries() && e.holders == old(e.holders)
        invariant forall e :: e in mgr.Entries() ==> e in old(mgr.Entries()) || fresh(e)
        invariant forall id :: !Owns(id) ==> mgr.Block(id) == old(mgr.Block(id))
        invariant Content(mgr) == c0
        invariant FullBelow(c0, b)
      {
        var pos := AllocIn(mgr, b, c0);
        if pos.Some? {
          return pos;
        }
        b := b + 1;
      }
      return None;
    }

    /**
     * The `modify` of `dealloc` on disk block `startBlockId + b` through the
     * cache, clearing bit `j` of that block: the block becomes the result of
     * the closure and every other block is left as it was.
     */
    method DeallocIn(mgr: BlockCacheManager, b: nat, j: nat)
      requires mgr.Valid() && mgr.Serves(startBlockId + b) && j < BLOCK_BITS
      requires BitInBytes(mgr.Block(startBlockId + b), j)
      modifies mgr`queue, mgr.Entries(), mgr.device
      ensures mgr.Valid()
      ensures old(mgr.CanAcquire()) ==> mgr.CanAcquire()
      ensures forall id :: old(mgr.Serves(id)) ==> mgr.Serves(id)
      ensures forall e :: e in old(mgr.Entries()) && old(e.holders) >= 2 ==> e in mgr.Entries() && e.holders == old(e.holders)
      ensures forall e :: e in mgr.Entries() ==> e in old(mgr.Entries()) || fresh(e)
      ensures mgr.Block(startBlockId + b) == DeallocInBlock(j, old(mgr.Block(startBlockId + b))).0
      ensures forall id :: id != startBlockId + b ==> mgr.Block(id) == old(mgr.Block(id))
      ensures mgr.Dirty(startBlockId + b)
    {
      var clear := v requires |v| == BLOCK_SZ && BitInBytes(v, j) => DeallocInBlock(j, v);
      ghost var after := clear(mgr.Block(startBlockId + b));
      var _ := mgr.ModifyWhole(startBlockId + b, clear);
    }

    /**
     * `dealloc`: clear bit `bit` of the bitmap, which must be set (`dealloc`
     * asserts so; `BitInBytesIff` shows the byte reading of that assertion
     * is the word reading).  The block it lies in is computed by
     * `decomposition` and is not checked against `blocks`; inside the bitmap,
     * the bit was allocated and is now free, and nothing else changed.
     */
    method Dealloc(mgr: BlockCacheManager, bit: nat)
      requires mgr.Valid() && mgr.Serves(startBlockId + bit / BLOCK_BITS)
      requires BitInBytes(mgr.Block(startBlockId + bit / BLOCK_BITS), bit % BLOCK_BITS)
      modifies mgr`queue, mgr.Entries(), mgr.device
      ensures mgr.Valid()
      ensures old(mgr.CanAcquire()) ==> mgr.CanAcquire()
      ensures forall id :: old(mgr.Serves(id)) ==> mgr.Serves(id)
      ensures forall e :: e in old(mgr.Entries()) && old(e.holders) >= 2 ==> e in mgr.Entries() && e.holders == old(e.holders)
      ensures forall e :: e in mgr.Entries() ==> e in old(mgr.Entries()) || fresh(e)
      ensures var id := startBlockId + bit / BLOCK_BITS;
              mgr.Block(id) == DeallocInBlock(bit % BLOCK_BITS, old(mgr.Block(id))).0
      ensures forall id :: id != startBlockId + bit / BLOCK_BITS ==> mgr.Block(id) == old(mgr.Block(id))
      ensures bit < Maximum() ==>
                Allocated(old(Content(mgr)), bit) &&
                Content(mgr) == ClearBitAt(old(Content(mgr)), bit)
    {
      var (blockPos, word, inner) := Decomposition(bit);
      DecompositionSplit(bit);
      var j := word * 64 + inner;
      ghost var r0 := Raw(mgr);
      RawAll(mgr);
      ghost var view := mgr.Block(startBlockId + blockPos);
      DeallocIn(mgr, blockPos, j);
      if bit < Maximum() {
        BlockOfBit(bit, blocks);
        ghost var r1 := Raw(mgr);
        RawAll(mgr);
        forall k | 0 <= k < blocks && k != blockPos
          ensures r1[k] == r0[k]
        {
          assert mgr.Block(startBlockId + k) == old(mgr.Block(startBlockId + k));
        }
        assert r0[blockPos] == view;
        assert r1[blockPos] == DeallocInBlock(j, view).0;
        DeallocRaw(r0, r1, bit);
        assert old(Content(mgr)) == Lift(r0) && Content(mgr) == Lift(r1);
      }
    }
  }
}
