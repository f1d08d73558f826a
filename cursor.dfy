/**
 * Reads from an in-memory `io::Cursor`.  The remaining input is a byte
 * sequence; a successful read returns the value and the input left after it.
 * Reading past the end fails with an io error of kind UnexpectedEof, which is
 * the only failure an in-memory cursor reports.
 */
module Cursor {
  import opened ByteOrder
  import opened Errors

  datatype Parsed<+T> = Parsed(value: T, rest: seq<u8>)

  /** `read_u8` */
  function ReadU8(s: seq<u8>): (r: IoResult<Parsed<u8>>)
    ensures r.IoOk? <==> |s| >= 1
    ensures r.IoOk? ==> s == [r.value.value] + r.value.rest
    ensures r.IoErr? ==> r.ioError == EofError
  {
    if |s| < 1 then IoErr(EofError) else IoOk(Parsed(s[0], s[1..]))
  }

  /** `read_uint::<BigEndian>(size)` */
  function ReadUint(s: seq<u8>, size: nat): (r: IoResult<Parsed<nat>>)
    ensures r.IoOk? <==> |s| >= size
    ensures r.IoOk? ==> r.value.value < Pow256(size)
    ensures r.IoOk? ==> s == EncodeUint(r.value.value, size) + r.value.rest
    ensures r.IoErr? ==> r.ioError == EofError
  {
    if |s| < size then IoErr(EofError)
    else
      EncodeDecodeUint(s[..size]);
      assert s == s[..size] + s[size..];
      IoOk(Parsed(DecodeUint(s[..size]), s[size..]))
  }

  /** `read_u16::<BigEndian>` */
  function ReadU16(s: seq<u8>): (r: IoResult<Parsed<u16>>)
    ensures r.IoOk? <==> |s| >= 2
    ensures r.IoOk? ==> s == EncodeUint(r.value.value, 2) + r.value.rest
    ensures r.IoErr? ==> r.ioError == EofError
  {
    Pow256Values();
    match ReadUint(s, 2)
    case IoOk(p) => IoOk(Parsed(p.value as u16, p.rest))
    case IoErr(e) => IoErr(e)
  }

  /** `read_u32::<BigEndian>` */
  function ReadU32(s: seq<u8>): (r: IoResult<Parsed<u32>>)
    ensures r.IoOk? <==> |s| >= 4
    ensures r.IoOk? ==> s == EncodeUint(r.value.value, 4) + r.value.rest
    ensures r.IoErr? ==> r.ioError == EofError
  {
    Pow256Values();
    match ReadUint(s, 4)
    case IoOk(p) => IoOk(Parsed(p.value as u32, p.rest))
    case IoErr(e) => IoErr(e)
  }

  /** `read_u64::<BigEndian>`, and `read_uint` of at most 8 bytes as a u64. */
  function ReadU64(s: seq<u8>, size: nat): (r: IoResult<Parsed<u64>>)
    requires size <= 8
    ensures r.IoOk? <==> |s| >= size
    ensures r.IoOk? ==> r.value.value < Pow256(size)
    ensures r.IoOk? ==> s == EncodeUint(r.value.value, size) + r.value.rest
    ensures r.IoErr? ==> r.ioError == EofError
  {
    Pow256Values();
    Pow256Monotone(size, 8);
    match ReadUint(s, size)
    case IoOk(p) => IoOk(Parsed(p.value as u64, p.rest))
    case IoErr(e) => IoErr(e)
  }

  /** `read_exact` into a buffer of n bytes. */
  function ReadExact(s: seq<u8>, n: nat): (r: IoResult<Parsed<seq<u8>>>)
    ensures r.IoOk? <==> |s| >= n
    ensures r.IoOk? ==> |r.value.value| == n && s == r.value.value + r.value.rest
    ensures r.IoErr? ==> r.ioError == EofError
  {
    if |s| < n then IoErr(EofError)
    else
      assert s == s[..n] + s[n..];
      IoOk(Parsed(s[..n], s[n..]))
  }

  /** `read_to_end`: everything that is left; an in-memory cursor cannot fail here. */
  function ReadToEnd(s: seq<u8>): (r: IoResult<Parsed<seq<u8>>>)
    ensures r.IoOk? && r.value.value == s && r.value.rest == []
  {
    IoOk(Parsed(s, []))
  }

  /** The items a loop has collected so far, in front of what the rest of the input decodes to. */
  function Prepend<T>(acc: seq<T>, r: Result<Parsed<seq<T>>>): (q: Result<Parsed<seq<T>>>)
    ensures q.Ok? <==> r.Ok?
    ensures r.Err? ==> q == r
    ensures r.Ok? ==> q.value == Parsed(acc + r.value.value, r.value.rest)
  {
    if r.Ok? then Ok(Parsed(acc + r.value.value, r.value.rest)) else r
  }

  lemma PrependEmpty<T>(r: Result<Parsed<seq<T>>>)
    ensures Prepend([], r) == r
  {
    if r.Ok? {
      assert [] + r.value.value == r.value.value;
    }
  }

  lemma PrependAppend<T>(acc: seq<T>, x: T, r: Result<Parsed<seq<T>>>)
    ensures Prepend(acc, Prepend([x], r)) == Prepend(acc + [x], r)
  {
    if r.Ok? {
      assert acc + ([x] + r.value.value) == (acc + [x]) + r.value.value;
    }
  }

  lemma PrependDone<T>(acc: seq<T>, rest: seq<u8>)
    ensures Prepend(acc, Ok(Parsed([], rest))) == Ok(Parsed(acc, rest))
  {
    assert acc + [] == acc;
  }

  /** Reading `size` bytes back from an encoding yields the encoded number. */
  lemma ReadUintEncoded(n: nat, size: nat, rest: seq<u8>)
    requires n < Pow256(size)
    ensures ReadUint(EncodeUint(n, size) + rest, size) == IoOk(Parsed(n, rest))
  {
    var s := EncodeUint(n, size) + rest;
    assert s[..size] == EncodeUint(n, size);
    assert s[size..] == rest;
    DecodeEncodeUint(n, size);
  }

  lemma ReadU8Encoded(n: u8, rest: seq<u8>)
    ensures ReadU8([n] + rest) == IoOk(Parsed(n, rest))
  {
    assert ([n] + rest)[1..] == rest;
  }

  lemma ReadU16Encoded(n: u16, rest: seq<u8>)
    ensures Pow256(2) == 0x1_0000
    ensures ReadU16(EncodeUint(n, 2) + rest) == IoOk(Parsed(n, rest))
  {
    Pow256Values();
    ReadUintEncoded(n, 2, rest);
  }

  lemma ReadU32Encoded(n: u32, rest: seq<u8>)
    ensures Pow256(4) == 0x1_0000_0000
    ensures ReadU32(EncodeUint(n, 4) + rest) == IoOk(Parsed(n, rest))
  {
    Pow256Values();
    ReadUintEncoded(n, 4, rest);
  }

  lemma ReadU64Encoded(n: u64, size: nat, rest: seq<u8>)
    requires size <= 8 && n < Pow256(size)
    ensures ReadU64(EncodeUint(n, size) + rest, size) == IoOk(Parsed(n, rest))
  {
    ReadUintEncoded(n, size, rest);
  }
}
