/** src/quic/packets/utils.rs: packet-number truncation and EOF mapping. */
module PacketUtils {
  import opened ByteOrder
  import opened Errors

  /** `truncate_u64`: the number with all but its `byteCount` least significant
      bytes cleared.  The shift `1 << (byteCount * 8)` must stay below 64 bits. */
  function TruncateU64(number: u64, byteCount: nat): (r: u64)
    requires byteCount < 8
    ensures r < Pow256(byteCount)
    ensures EncodeUint(r, byteCount) == EncodeUint(number, 8)[8 - byteCount..]
  {
    Pow256Values();
    Pow256Monotone(byteCount, 8);
    LowBytes(number, 8, byteCount);
    number % Pow256(byteCount)
  }

  /** The last k bytes of an n-byte encoding encode the number modulo 256^k. */
  lemma {:induction false} LowBytes(number: nat, n: nat, k: nat)
    requires k <= n && number < Pow256(n)
    ensures Pow256(k) > 0
    ensures EncodeUint(number % Pow256(k), k) == EncodeUint(number, n)[n - k..]
    decreases n
  {
    if k == 0 {
    } else {
      var e := EncodeUint(number, n);
      assert e == EncodeUint(number / 256, n - 1) + [number % 256];
      LowBytes(number / 256, n - 1, k - 1);
      var low := number % Pow256(k);
      ModDivPow(number, k);
      assert EncodeUint(low, k) == EncodeUint(low / 256, k - 1) + [low % 256];
      assert e[n - k..] == EncodeUint(number / 256, n - 1)[n - 1 - (k - 1)..] + [number % 256];
    }
  }

  lemma ModDivPow(number: nat, k: nat)
    requires k >= 1
    ensures (number % Pow256(k)) / 256 == (number / 256) % Pow256(k - 1)
    ensures (number % Pow256(k)) % 256 == number % 256
  {
    var p := Pow256(k - 1);
    assert Pow256(k) == 256 * p;
    var q := number / (256 * p);
    var m := number % (256 * p);
    var a := m / 256;
    var b := m % 256;
    assert number == (256 * p) * q + m;
    assert m == 256 * a + b;
    assert number == 256 * (p * q + a) + b;
    DivModUnique(number, 256, p * q + a, b);
    assert a < p by {
      if a >= p {
        MulMonotone(256, p, a);
      }
    }
    DivModUnique(p * q + a, p, q, a);
  }

  /** Quotient and remainder are determined by any decomposition n == d*a + b. */
  lemma DivModUnique(n: int, d: int, a: int, b: int)
    requires d > 0 && n == d * a + b && 0 <= b < d
    ensures n / d == a && n % d == b
  {
    var x := a - n / d;
    assert d * x == n % d - b;
    if x >= 1 {
      MulMonotone(d, 1, x);
    } else if x <= -1 {
      MulMonotone(d, 1, -x);
    }
  }

  lemma MulMonotone(d: int, x: int, y: int)
    requires d > 0 && x <= y
    ensures d * x <= d * y
  {
  }

  /** Truncation to the full width it already fits in changes nothing. */
  lemma TruncateIdentity(number: u64, byteCount: nat)
    requires byteCount < 8 && number < Pow256(byteCount)
    ensures TruncateU64(number, byteCount) == number
  {
    DivModUnique(number, Pow256(byteCount), 0, number);
  }

  /** Truncating twice is truncating once. */
  lemma TruncateIdempotent(number: u64, byteCount: nat)
    requires byteCount < 8
    ensures TruncateU64(TruncateU64(number, byteCount), byteCount) == TruncateU64(number, byteCount)
  {
    TruncateIdentity(TruncateU64(number, byteCount), byteCount);
  }

  /** `map_unexpected_eof`: running out of input while decoding is a decoding
      error; any other io error is passed on unchanged. */
  function MapUnexpectedEof(e: IoError): (r: Error)
    ensures e.kind == UnexpectedEof ==> r.Decoding?
    ensures e.kind != UnexpectedEof ==> r == Io(e)
  {
    if e.kind == UnexpectedEof then Decoding("Unexpected EOF when decoding a packet")
    else Io(e)
  }

  /** `.map_err(map_unexpected_eof)?` applied to an io result. */
  function MapEof<T>(r: IoResult<T>): (q: Result<T>)
    ensures r.IoOk? <==> q.Ok?
    ensures r.IoOk? ==> q.value == r.value
    ensures r.IoErr? ==> q.error == MapUnexpectedEof(r.ioError)
  {
    match r
    case IoOk(v) => Ok(v)
    case IoErr(e) => Err(MapUnexpectedEof(e))
  }
}
