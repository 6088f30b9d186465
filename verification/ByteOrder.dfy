/**
 Fixed-width unsigned integers, their little-endian memory image and `qsox::byteswap`.
 Only little-endian hosts are modelled, as include/qsox/Util.hpp does.
 */
module ByteOrder {
  type u8 = x: int | 0 <= x < 0x100
  type u16 = x: int | 0 <= x < 0x1_0000
  type u32 = x: int | 0 <= x < 0x1_0000_0000

  function Pow256(width: nat): (p: nat)
    ensures p > 0
  {
    if width == 0 then 1 else 256 * Pow256(width - 1)
  }

  /** What `memcpy` out of an integer of `width` bytes sees: the low byte first. */
  function Store(width: nat, v: nat): (bs: seq<u8>)
    ensures |bs| == width
  {
    if width == 0 then [] else [v % 256] + Store(width - 1, v / 256)
  }

  /** What `memcpy` into an integer makes of the bytes. */
  function Load(bs: seq<u8>): (v: nat)
    ensures v < Pow256(|bs|)
  {
    if bs == [] then 0 else bs[0] + 256 * Load(bs[1..])
  }

  function Reverse(bs: seq<u8>): (r: seq<u8>)
    ensures |r| == |bs|
  {
    if bs == [] then [] else Reverse(bs[1..]) + [bs[0]]
  }

  /** `_byteswapImpl` at any width, as `__builtin_bswap32` and `__builtin_bswap64` define it. */
  function Byteswap(width: nat, v: nat): (r: nat)
    ensures r < Pow256(width)
  {
    Load(Reverse(Store(width, v)))
  }

  /** The 16-bit expression `(uint16_t)((val >> 8) | (val << 8))`; the two operands share no bit, so `|` adds. */
  function Bswap16(v: u16): u16 {
    (v / 256 + v * 256) % 0x1_0000
  }

  lemma {:induction false} LoadStore(width: nat, v: nat)
    requires v < Pow256(width)
    ensures Load(Store(width, v)) == v
  {
    if width > 0 {
      assert v / 256 < Pow256(width - 1);
      LoadStore(width - 1, v / 256);
    }
  }

  lemma {:induction false} StoreLoad(bs: seq<u8>)
    ensures Store(|bs|, Load(bs)) == bs
  {
    if bs != [] {
      StoreLoad(bs[1..]);
      assert Load(bs) % 256 == bs[0] && Load(bs) / 256 == Load(bs[1..]);
    }
  }

  lemma {:induction false} ReverseAppend(bs: seq<u8>, b: u8)
    ensures Reverse(bs + [b]) == [b] + Reverse(bs)
  {
    if bs != [] {
      ReverseAppend(bs[1..], b);
      assert (bs + [b])[1..] == bs[1..] + [b];
    }
  }

  lemma {:induction false} ReverseTwice(bs: seq<u8>)
    ensures Reverse(Reverse(bs)) == bs
  {
    if bs != [] {
      ReverseTwice(bs[1..]);
      ReverseAppend(Reverse(bs[1..]), bs[0]);
    }
  }

  lemma {:induction false} ReverseAt(bs: seq<u8>, k: nat)
    requires k < |bs|
    ensures Reverse(bs)[k] == bs[|bs| - 1 - k]
  {
    if k < |bs| - 1 {
      ReverseAt(bs[1..], k);
    }
  }

  /** Swapping moves byte k of memory to byte width-1-k, and doing it twice undoes it, at every width. */
  lemma ByteswapReversesBytes(width: nat, v: nat, k: nat)
    requires v < Pow256(width) && k < width
    ensures Store(width, Byteswap(width, v))[k] == Store(width, v)[width - 1 - k]
    ensures Byteswap(width, Byteswap(width, v)) == v
  {
    var bs := Store(width, v);
    StoreLoad(Reverse(bs));
    ReverseAt(bs, k);
    ReverseTwice(bs);
    LoadStore(width, v);
  }

  lemma TwoBytes(lo: u8, hi: u8)
    ensures var v := 256 * (hi as nat) + lo as nat;
            && v / 256 == hi && v % 256 == lo
            && Store(2, v) == [lo, hi] && Load([lo, hi]) == v && Reverse([lo, hi]) == [hi, lo]
  {
    assert Store(1, hi) == [hi];
    assert [lo, hi][1..] == [hi];
    assert Load([hi]) == hi && Reverse([hi]) == [hi];
  }

  lemma ModMultiple(q: nat, r: nat)
    requires r < 0x1_0000
    ensures (0x1_0000 * q + r) % 0x1_0000 == r
  {}

  lemma SwapValue(lo: nat, hi: nat)
    requires lo < 256 && hi < 256
    ensures Bswap16(256 * hi + lo) == 256 * lo + hi
  {
    var v, r := 256 * hi + lo, 256 * lo + hi;
    assert v / 256 == hi;
    assert v / 256 + v * 256 == 0x1_0000 * hi + r;
    ModMultiple(hi, r);
  }

  /** The expression used for 16 bits is the two-byte instance. */
  lemma Bswap16IsByteswap(v: u16)
    ensures Bswap16(v) == Byteswap(2, v)
    ensures Store(2, Bswap16(v)) == [v / 256, v % 256]
    ensures Bswap16(Bswap16(v)) == v
  {
    TwoBytes(v % 256, v / 256);
    TwoBytes(v / 256, v % 256);
    SwapValue(v % 256, v / 256);
    SwapValue(v / 256, v % 256);
  }
}
