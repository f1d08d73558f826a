/**
 * Fixed-width unsigned integers and their big-endian byte encoding, as the
 * `byteorder` crate's `write_uint::<BigEndian>` / `read_uint::<BigEndian>` do.
 */
module ByteOrder {
  type u8 = x: int | 0 <= x < 0x100
  type u16 = x: int | 0 <= x < 0x1_0000
  type u32 = x: int | 0 <= x < 0x1_0000_0000
  type u64 = x: int | 0 <= x < 0x1_0000_0000_0000_0000

  /** 256 to the power n: one more than the largest value that fits in n bytes. */
  function Pow256(n: nat): (r: nat)
    ensures r >= 1
  {
    if n == 0 then 1 else 256 * Pow256(n - 1)
  }

  lemma Pow256Values()
    ensures Pow256(1) == 0x100 && Pow256(2) == 0x1_0000
    ensures Pow256(4) == 0x1_0000_0000 && Pow256(6) == 0x1_0000_0000_0000
    ensures Pow256(8) == 0x1_0000_0000_0000_0000
  {
  }

  lemma {:induction false} Pow256Monotone(m: nat, n: nat)
    requires m <= n
    ensures Pow256(m) <= Pow256(n)
  {
    if m < n {
      Pow256Monotone(m, n - 1);
    }
  }

  /** The big-endian encoding of n in exactly `size` bytes. */
  function EncodeUint(n: nat, size: nat): (r: seq<u8>)
    requires n < Pow256(size)
    ensures |r| == size
    decreases size
  {
    if size == 0 then []
    else EncodeUint(n / 256, size - 1) + [n % 256]
  }

  /** The number whose big-endian encoding is s. */
  function DecodeUint(s: seq<u8>): (r: nat)
    ensures r < Pow256(|s|)
  {
    if s == [] then 0
    else DecodeUint(s[..|s| - 1]) * 256 + s[|s| - 1]
  }

  /** Decoding undoes encoding. */
  lemma {:induction false} DecodeEncodeUint(n: nat, size: nat)
    requires n < Pow256(size)
    ensures DecodeUint(EncodeUint(n, size)) == n
  {
    if size > 0 {
      var e := EncodeUint(n, size);
      assert e[..size - 1] == EncodeUint(n / 256, size - 1);
      DecodeEncodeUint(n / 256, size - 1);
    }
  }

  /** Encoding undoes decoding: every byte string is the encoding of its value. */
  lemma {:induction false} EncodeDecodeUint(s: seq<u8>)
    ensures EncodeUint(DecodeUint(s), |s|) == s
  {
    if s != [] {
      var init := s[..|s| - 1];
      var n := DecodeUint(s);
      assert n / 256 == DecodeUint(init) && n % 256 == s[|s| - 1];
      EncodeDecodeUint(init);
      assert s == init + [s[|s| - 1]];
    }
  }

  /** Decoding is injective on strings of the same length. */
  lemma EncodeUintInjective(m: nat, n: nat, size: nat)
    requires m < Pow256(size) && n < Pow256(size)
    requires EncodeUint(m, size) == EncodeUint(n, size)
    ensures m == n
  {
    DecodeEncodeUint(m, size);
    DecodeEncodeUint(n, size);
  }

  /** The encoding of hi * 256^k + lo is hi's encoding followed by lo's in k bytes. */
  lemma {:induction false} EncodeUintSplit(n: nat, hi: nat, lo: nat, size: nat, k: nat)
    requires k <= size && n < Pow256(size) && lo < Pow256(k) && n == hi * Pow256(k) + lo
    ensures hi < Pow256(size - k)
    ensures EncodeUint(n, size) == EncodeUint(hi, size - k) + EncodeUint(lo, k)
  {
    if k > 0 {
      var q := SplitStep(n, hi, lo, size, k);
      EncodeUintSplit(q, hi, lo / 256, size - 1, k - 1);
      var a, b := EncodeUint(hi, size - k), EncodeUint(lo / 256, k - 1);
      assert EncodeUint(n, size) == (a + b) + [lo % 256];
      assert EncodeUint(lo, k) == b + [lo % 256];
    }
  }

  /** Dropping the last byte of hi * 256^k + lo drops the last byte of lo. */
  lemma SplitStep(n: nat, hi: nat, lo: nat, size: nat, k: nat) returns (q: nat)
    requires 0 < k <= size && n < Pow256(size) && lo < Pow256(k) && n == hi * Pow256(k) + lo
    ensures q == hi * Pow256(k - 1) + lo / 256
    ensures n / 256 == q && n % 256 == lo % 256
    ensures q < Pow256(size - 1) && lo / 256 < Pow256(k - 1)
  {
    var p := Pow256(k - 1);
    q := hi * p + lo / 256;
    assert hi * (256 * p) == 256 * (hi * p);
    assert n == 256 * q + lo % 256;
  }
}
