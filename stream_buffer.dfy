/**
 * src/quic/engine/stream_buffer.rs: the receive-side reassembly buffer of a
 * stream.  The buffer is a window of slots starting at stream offset
 * `nextIndex`; a slot holds a received byte or is a gap.  Data may arrive out
 * of order; only the filled slots at the front of the window can be read.
 */
module StreamBuffers {
  import opened ByteOrder
  import opened Options
  import opened Errors

  /** One position of the window: a received byte, or a gap. */
  type Slot = Option<u8>

  function Min(a: int, b: int): int {
    if a <= b then a else b
  }

  /** `n` gaps. */
  function Gaps(n: nat): (r: seq<Slot>)
    ensures |r| == n && forall k :: 0 <= k < n ==> r[k] == None
  {
    seq(n, _ => None)
  }

  /** Received bytes as filled slots. */
  function Filled(data: seq<u8>): (r: seq<Slot>)
    ensures |r| == |data| && forall k :: 0 <= k < |data| ==> r[k] == Some(data[k])
  {
    seq(|data|, k requires 0 <= k < |data| => Some(data[k]))
  }

  /** `extend_buffer`: the window grown with gaps to at least n slots. */
  function Padded(b: seq<Slot>, n: nat): (r: seq<Slot>)
    ensures |r| == if n <= |b| then |b| else n
    ensures forall k :: 0 <= k < |r| ==> r[k] == if k < |b| then b[k] else None
  {
    if n <= |b| then b else b + Gaps(n - |b|)
  }

  /** Byte k of data arriving at window position `start` lands on a slot that
      already holds a different byte. */
  predicate Conflict(b: seq<Slot>, start: nat, data: seq<u8>, k: nat) {
    k < |data| && start + k < |b| && b[start + k].Some? && b[start + k].value != data[k]
  }

  /** The arriving data matches every byte already stored in its range. */
  predicate Agrees(b: seq<Slot>, start: nat, data: seq<u8>) {
    forall k :: 0 <= k < |data| ==> !Conflict(b, start, data, k)
  }

  /** The window with `data` written from position `start` on: inside the data's
      range a slot holds the data byte, elsewhere it is unchanged; the window
      grows when the data runs past its end. */
  function Overlay(b: seq<Slot>, start: nat, data: seq<u8>): (r: seq<Slot>)
    requires start <= |b|
    ensures |r| == if start + |data| <= |b| then |b| else start + |data|
    ensures forall k :: 0 <= k < |r| ==>
      r[k] == if start <= k < start + |data| then Some(data[k - start]) else b[k]
  {
    var n := if start + |data| <= |b| then |b| else start + |data|;
    seq(n, k requires 0 <= k < n => if start <= k < start + |data| then Some(data[k - start]) else b[k])
  }

  /** The window after `add_data` accepts `data` at position `start`. */
  function Add(b: seq<Slot>, start: nat, data: seq<u8>): seq<Slot> {
    Overlay(Padded(b, start), start, data)
  }

  /** The index of the first byte of `data` that conflicts with the window. */
  function FirstConflict(b: seq<Slot>, start: nat, data: seq<u8>): (j: nat)
    requires !Agrees(b, start, data)
    ensures Conflict(b, start, data, j)
    ensures forall k :: 0 <= k < j ==> !Conflict(b, start, data, k)
  {
    FirstConflictFrom(b, start, data, 0)
  }

  function FirstConflictFrom(b: seq<Slot>, start: nat, data: seq<u8>, i: nat): (j: nat)
    requires i <= |data| && !Agrees(b, start, data)
    requires forall k :: 0 <= k < i ==> !Conflict(b, start, data, k)
    ensures i <= j && Conflict(b, start, data, j)
    ensures forall k :: 0 <= k < j ==> !Conflict(b, start, data, k)
    decreases |data| - i
  {
    if Conflict(b, start, data, i) then i else FirstConflictFrom(b, start, data, i + 1)
  }

  /** The number of filled slots at the front of the window: what can be read
      in order. */
  function ReadyCount(b: seq<Slot>): (n: nat)
    ensures n <= |b|
    ensures forall k :: 0 <= k < n ==> b[k].Some?
    ensures n < |b| ==> b[n].None?
  {
    if b == [] || b[0].None? then 0 else 1 + ReadyCount(b[1..])
  }

  const AlreadyDelivered: string := "Stream data already delivered"
  const Mismatch: string := "Mismatch with bytes already in buffer"

  class StreamBuffer {
    const capacity: nat
    /** The stream offset of the first slot. */
    var nextIndex: nat
    var buffer: seq<Slot>

    /** The window never holds more slots than its capacity. */
    ghost predicate Valid()
      reads this
    {
      |buffer| <= capacity
    }

    /** `StreamBuffer::new`: an empty window at offset 0. */
    constructor (capacity: nat)
      ensures Valid()
      ensures this.capacity == capacity && nextIndex == 0 && buffer == []
    {
      this.capacity := capacity;
      nextIndex := 0;
      buffer := [];
    }

    /** The stream offset of the last slot the window can hold.  The u64
        subtraction fails when the window is both empty-sized and at offset 0. */
    function MaximumAcceptedOffset(): (m: int)
      reads this
      requires nextIndex + capacity >= 1
      ensures m + 1 == nextIndex + capacity
    {
      nextIndex + capacity - 1
    }

    /** `StreamBuffer::add_data`.  Data reaching past the window is rejected and
        so is data starting before the window, both leaving the window as it
        was.  Otherwise the window is padded with gaps to the data's start and
        the bytes are written one by one: a byte that differs from the one
        already stored ends the call with an error, after the bytes before it
        have been written. */
    method AddData(offset: u64, data: seq<u8>) returns (r: Result<()>)
      requires Valid()
      requires nextIndex + capacity >= 1
      requires 1 <= offset + |data| < 0x1_0000_0000_0000_0000
      modifies this
      ensures Valid() && nextIndex == old(nextIndex)
      ensures offset + |data| - 1 > old(MaximumAcceptedOffset()) ==>
        r == Err(BufferOverflow) && buffer == old(buffer)
      ensures offset + |data| - 1 <= old(MaximumAcceptedOffset()) && offset < nextIndex ==>
        r == Err(Error.InvalidData(AlreadyDelivered)) && buffer == old(buffer)
      ensures offset + |data| - 1 <= old(MaximumAcceptedOffset()) && offset >= nextIndex ==>
        var start := offset - nextIndex;
        var b := Padded(old(buffer), start);
        if Agrees(b, start, data) then r == Ok(()) && buffer == Overlay(b, start, data)
        else r == Err(Error.InvalidData(Mismatch)) && buffer == Overlay(b, start, data[..FirstConflict(b, start, data)])
    {
      var maxAvailableIndex := MaximumAcceptedOffset();
      var maxArrivingIndex := offset + |data| - 1;
      if maxArrivingIndex > maxAvailableIndex {
        return Err(BufferOverflow);
      }
      if offset < nextIndex {
        return Err(Error.InvalidData(AlreadyDelivered));
      }
      var start := offset - nextIndex;
      ExtendBuffer(start);
      r := Merge(start, data);
    }

    /** The loop of `add_data` and its tail: each arriving byte is checked
        against the slot it lands on, gaps are filled, and the bytes past the
        end of the window are appended.  The first conflicting byte stops the
        merge, keeping what was merged before it. */
    method Merge(start: nat, data: seq<u8>) returns (r: Result<()>)
      requires start <= |buffer|
      modifies this
      ensures nextIndex == old(nextIndex)
      ensures Agrees(old(buffer), start, data) ==> r == Ok(()) && buffer == Overlay(old(buffer), start, data)
      ensures !Agrees(old(buffer), start, data) ==>
        r == Err(Error.InvalidData(Mismatch)) &&
        buffer == Overlay(old(buffer), start, data[..FirstConflict(old(buffer), start, data)])
    {
      ghost var b := buffer;
      var overlappingCount := Min(|data|, |buffer| - start);
      OverlayNothing(b, start, data);
      var i := 0;
      while i < overlappingCount
        invariant i <= overlappingCount
        invariant forall k :: 0 <= k < i ==> !Conflict(b, start, data, k)
        invariant buffer == Overlay(b, start, data[..i])
        invariant nextIndex == old(nextIndex)
      {
        var next := i + 1;
        match buffer[start + i] {
          case Some(existing) =>
            if existing != data[i] {
              FirstConflictIs(b, start, data, i);
              return Err(Error.InvalidData(Mismatch));
            }
            OverlayKeep(b, start, data, i, next);
          case None =>
            OverlayFill(b, start, data, i, next);
            buffer := buffer[start + i := Some(data[i])];
        }
        i := next;
      }
      OverlayRest(b, start, data, overlappingCount);
      buffer := buffer + Filled(data[overlappingCount..]);
      return Ok(());
    }

    /** `extend_buffer`: gaps pushed until the window has `start` slots. */
    method ExtendBuffer(start: nat)
      modifies this
      ensures buffer == Padded(old(buffer), start) && nextIndex == old(nextIndex)
    {
      ghost var b0 := buffer;
      var n := |buffer|;
      while n < start
        invariant |buffer| == n && |b0| <= n && (n == |b0| || n <= start)
        invariant forall k :: 0 <= k < n ==> buffer[k] == if k < |b0| then b0[k] else None
        invariant nextIndex == old(nextIndex)
      {
        buffer := buffer + [None];
        n := n + 1;
      }
      assert |buffer| == |Padded(b0, start)|;
      assert forall k :: 0 <= k < |buffer| ==> buffer[k] == Padded(b0, start)[k];
    }

    /** `StreamBuffer::pull_data`: copies the filled slots at the front of the
        window into `buf`, as many as fit, drops them from the window and moves
        the window past them.  The rest of `buf` is untouched. */
    method PullData(buf: array<u8>) returns (count: nat)
      requires Valid()
      modifies this, buf
      ensures Valid()
      ensures count == Min(buf.Length, ReadyCount(old(buffer)))
      ensures forall k :: 0 <= k < count ==> old(buffer)[k] == Some(buf[k])
      ensures buf[count..] == old(buf[count..])
      ensures buffer == old(buffer)[count..] && nextIndex == old(nextIndex) + count
    {
      var possibleSize := Min(buf.Length, |buffer|);
      var actualSize := 0;
      var i := 0;
      while i < possibleSize
        invariant actualSize == i <= possibleSize
        invariant buffer == old(buffer) && nextIndex == old(nextIndex)
        invariant forall k :: 0 <= k < i ==> buffer[k] == Some(buf[k])
        invariant buf[i..] == old(buf[i..])
      {
        match buffer[i] {
          case Some(b) =>
            buf[i] := b;
            actualSize := actualSize + 1;
          case None =>
            break;
        }
        i := i + 1;
      }
      buffer := buffer[actualSize..];
      nextIndex := nextIndex + actualSize;
      return actualSize;
    }

    /** `StreamBuffer::is_readable`: the first slot is filled. */
    predicate IsReadable(): (r: bool)
      reads this
      ensures r <==> ReadyCount(buffer) > 0
    {
      |buffer| > 0 && buffer[0].Some?
    }

    /** `StreamBuffer::is_empty`: no slot of the window is filled. */
    method IsEmpty() returns (empty: bool)
      ensures empty <==> forall k :: 0 <= k < |buffer| ==> buffer[k].None?
    {
      empty := true;
      var i := 0;
      while i < |buffer|
        invariant i <= |buffer|
        invariant forall k :: 0 <= k < i ==> buffer[k].None?
      {
        if buffer[i].Some? {
          empty := false;
          break;
        }
        i := i + 1;
      }
    }
  }

  /** A conflict with none before it is the first one. */
  lemma FirstConflictIs(b: seq<Slot>, start: nat, data: seq<u8>, i: nat)
    requires i < |data| && start + i < |b| && b[start + i].Some? && b[start + i].value != data[i]
    requires forall k :: 0 <= k < i ==> !Conflict(b, start, data, k)
    ensures !Agrees(b, start, data) && FirstConflict(b, start, data) == i
  {
    assert Conflict(b, start, data, i);
    var j := FirstConflict(b, start, data);
    assert !(j < i);
  }

  /** Before the write loop nothing has been written. */
  lemma OverlayNothing(b: seq<Slot>, start: nat, data: seq<u8>)
    requires start <= |b|
    ensures Overlay(b, start, data[..0]) == b
  {
  }

  /** A byte equal to the stored one leaves the slot as it is. */
  lemma OverlayKeep(b: seq<Slot>, start: nat, data: seq<u8>, i: nat, next: nat)
    requires start + i < |b| && i < |data| && next == i + 1
    requires b[start + i] == Some(data[i])
    ensures Overlay(b, start, data[..next]) == Overlay(b, start, data[..i])
  {
  }

  /** A byte arriving on a gap fills it. */
  lemma OverlayFill(b: seq<Slot>, start: nat, data: seq<u8>, i: nat, next: nat)
    requires start + i < |b| && i < |data| && next == i + 1
    ensures Overlay(b, start, data[..next]) == Overlay(b, start, data[..i])[start + i := Some(data[i])]
  {
  }

  /** Once the bytes over existing slots are written, the others are appended. */
  lemma OverlayRest(b: seq<Slot>, start: nat, data: seq<u8>, overlap: nat)
    requires start <= |b| && overlap == Min(|data|, |b| - start)
    ensures Agrees(b, start, data) <==> forall k :: 0 <= k < overlap ==> !Conflict(b, start, data, k)
    ensures Overlay(b, start, data[..overlap]) + Filled(data[overlap..]) == Overlay(b, start, data)
  {
  }

  /** Re-adding bytes over the same stored bytes is accepted and changes nothing. */
  lemma ReAddStored(b: seq<Slot>, start: nat, data: seq<u8>)
    requires start + |data| <= |b|
    requires forall k :: 0 <= k < |data| ==> b[start + k] == Some(data[k])
    ensures Agrees(Padded(b, start), start, data) && Add(b, start, data) == b
  {
  }

  /** Adding the same data twice is the same as adding it once; the second add
      is accepted. */
  lemma AddIdempotent(b: seq<Slot>, start: nat, data: seq<u8>)
    ensures Agrees(Padded(Add(b, start, data), start), start, data)
    ensures Add(Add(b, start, data), start, data) == Add(b, start, data)
  {
    var a := Add(b, start, data);
    assert forall k :: 0 <= k < |data| ==> a[start + k] == Some(data[k]);
    ReAddStored(a, start, data);
  }

  /** Two adds of disjoint ranges are accepted in either order when each is
      accepted on its own, and leave the same window. */
  lemma AddCommute(b: seq<Slot>, s1: nat, d1: seq<u8>, s2: nat, d2: seq<u8>)
    requires s1 + |d1| <= s2
    requires Agrees(Padded(b, s1), s1, d1) && Agrees(Padded(b, s2), s2, d2)
    ensures Agrees(Padded(Add(b, s1, d1), s2), s2, d2)
    ensures Agrees(Padded(Add(b, s2, d2), s1), s1, d1)
    ensures Add(Add(b, s1, d1), s2, d2) == Add(Add(b, s2, d2), s1, d1)
  {
    var x := Add(Add(b, s1, d1), s2, d2);
    var y := Add(Add(b, s2, d2), s1, d1);
    assert |x| == |y|;
    forall k | 0 <= k < |x|
      ensures x[k] == y[k]
    {
    }
    AgreesAfterDisjoint(b, s1, d1, s2, d2);
    AgreesAfterDisjoint2(b, s1, d1, s2, d2);
  }

  lemma AgreesAfterDisjoint(b: seq<Slot>, s1: nat, d1: seq<u8>, s2: nat, d2: seq<u8>)
    requires s1 + |d1| <= s2
    requires Agrees(Padded(b, s2), s2, d2)
    ensures Agrees(Padded(Add(b, s1, d1), s2), s2, d2)
  {
    var a := Padded(Add(b, s1, d1), s2);
    forall k | 0 <= k < |d2|
      ensures !Conflict(a, s2, d2, k)
    {
      assert !Conflict(Padded(b, s2), s2, d2, k);
    }
  }

  lemma AgreesAfterDisjoint2(b: seq<Slot>, s1: nat, d1: seq<u8>, s2: nat, d2: seq<u8>)
    requires s1 + |d1| <= s2
    requires Agrees(Padded(b, s1), s1, d1)
    ensures Agrees(Padded(Add(b, s2, d2), s1), s1, d1)
  {
    var a := Padded(Add(b, s2, d2), s1);
    forall k | 0 <= k < |d1|
      ensures !Conflict(a, s1, d1, k)
    {
      assert !Conflict(Padded(b, s1), s1, d1, k);
    }
  }

  /** Into an empty window, two consecutive ranges added in either order leave
      their bytes in offset order, all of them readable. */
  lemma AddInOrder(d1: seq<u8>, d2: seq<u8>)
    ensures Agrees(Padded(Add([], 0, d1), |d1|), |d1|, d2)
    ensures Agrees(Padded(Add([], |d1|, d2), 0), 0, d1)
    ensures Add(Add([], 0, d1), |d1|, d2) == Filled(d1 + d2)
    ensures Add(Add([], |d1|, d2), 0, d1) == Filled(d1 + d2)
    ensures ReadyCount(Filled(d1 + d2)) == |d1| + |d2|
  {
    AddCommute([], 0, d1, |d1|, d2);
    var x := Add(Add([], 0, d1), |d1|, d2);
    assert |x| == |d1 + d2|;
    forall k | 0 <= k < |x|
      ensures x[k] == Filled(d1 + d2)[k]
    {
    }
    FilledReady(d1 + d2);
  }

  /** Every slot of a run of received bytes is readable. */
  lemma FilledReady(data: seq<u8>)
    ensures ReadyCount(Filled(data)) == |data|
  {
  }
}

/** The buffer tests of src/quic/engine/tests/stream_buffer.rs run on the model. */
module StreamBufferScenarios {
  import opened ByteOrder
  import opened Options
  import opened Errors
  import opened StreamBuffers

  /** `test_add_data`: the counts every pull returns and the last contents of
      the two-byte destination. */
  method AddDataScenario() returns (counts: seq<nat>, last: seq<u8>)
    ensures counts == [2, 1, 0, 2, 2, 0, 0] && last == [6, 7]
  {
    var sb := new StreamBuffer(100);
    var buf := new u8[2](_ => 0);
    var c1, c2 := FirstRange(sb, buf);
    var c3 := LaterRanges(sb, buf);
    var c4, c5, c6, c7 := Drain(sb, buf);
    counts := [c1, c2, c3, c4, c5, c6, c7];
    last := buf[..];
  }

  /** Bytes 1, 2, 3 at offset 0, read two and then one at a time. */
  method FirstRange(sb: StreamBuffer, buf: array<u8>) returns (c1: nat, c2: nat)
    requires sb.Valid() && sb.capacity == 100 && sb.nextIndex == 0 && sb.buffer == [] && buf.Length == 2
    modifies sb, buf
    ensures sb.Valid() && sb.capacity == 100 && sb.nextIndex == 3 && sb.buffer == []
    ensures c1 == 2 && c2 == 1 && buf[..] == [3, 2]
  {
    assert Padded([], 0) == [];
    assert Overlay([], 0, [1, 2, 3]) == [Some(1), Some(2), Some(3)];
    var r := sb.AddData(0, [1, 2, 3]);
    Ready3(1, 2, 3);
    c1 := sb.PullData(buf);
    assert buf[0] == 1 && buf[1] == 2;
    assert [Some(1), Some(2), Some(3)][2..] == [Some(3)];
    c2 := sb.PullData(buf);
    assert buf[0] == 3 && buf[1] == 2;
    assert buf[..] == [3, 2];
  }

  /** Bytes 5, 6, 7 at offset 4 leave a gap at 3 and nothing to read; byte 4
      at offset 3 fills it. */
  method LaterRanges(sb: StreamBuffer, buf: array<u8>) returns (c3: nat)
    requires sb.Valid() && sb.capacity == 100 && sb.nextIndex == 3 && sb.buffer == [] && buf.Length == 2
    requires buf[..] == [3, 2]
    modifies sb, buf
    ensures sb.Valid() && sb.capacity == 100 && sb.nextIndex == 3
    ensures sb.buffer == [Some(4), Some(5), Some(6), Some(7)]
    ensures c3 == 0 && buf[..] == [3, 2]
  {
    assert Padded([], 1) == [None];
    assert Overlay([None], 1, [5, 6, 7]) == [None, Some(5), Some(6), Some(7)];
    var r := sb.AddData(4, [5, 6, 7]);
    c3 := sb.PullData(buf);
    assert buf[..] == buf[0..];
    var b := [None, Some(5), Some(6), Some(7)];
    assert Padded(b, 0) == b;
    assert Agrees(b, 0, [4]);
    assert Overlay(b, 0, [4]) == [Some(4), Some(5), Some(6), Some(7)];
    r := sb.AddData(3, [4]);
  }

  /** Reads 4, 5, then 6, 7, then nothing twice. */
  method Drain(sb: StreamBuffer, buf: array<u8>) returns (c4: nat, c5: nat, c6: nat, c7: nat)
    requires sb.Valid() && sb.capacity == 100 && sb.nextIndex == 3 && buf.Length == 2
    requires sb.buffer == [Some(4), Some(5), Some(6), Some(7)]
    modifies sb, buf
    ensures c4 == 2 && c5 == 2 && c6 == 0 && c7 == 0 && buf[..] == [6, 7]
  {
    Ready4(4, 5, 6, 7);
    c4 := sb.PullData(buf);
    assert [Some(4), Some(5), Some(6), Some(7)][2..] == [Some(6), Some(7)];
    Ready2(6, 7);
    c5 := sb.PullData(buf);
    assert buf[0] == 6 && buf[1] == 7;
    c6 := sb.PullData(buf);
    assert buf[..] == buf[0..];
    c7 := sb.PullData(buf);
    assert buf[..] == buf[0..];
    assert buf[..] == [6, 7];
  }

  lemma Ready2(x: u8, y: u8)
    ensures ReadyCount([Some(x), Some(y)]) == 2
  {
    FilledReady([x, y]);
    assert Filled([x, y]) == [Some(x), Some(y)];
  }

  lemma Ready3(x: u8, y: u8, z: u8)
    ensures ReadyCount([Some(x), Some(y), Some(z)]) == 3
  {
    FilledReady([x, y, z]);
    assert Filled([x, y, z]) == [Some(x), Some(y), Some(z)];
  }

  lemma Ready4(w: u8, x: u8, y: u8, z: u8)
    ensures ReadyCount([Some(w), Some(x), Some(y), Some(z)]) == 4
  {
    FilledReady([w, x, y, z]);
    assert Filled([w, x, y, z]) == [Some(w), Some(x), Some(y), Some(z)];
  }

  /** `test_overflow`: two bytes at offset 2 of a three-byte window overflow. */
  method OverflowScenario() returns (r: Result<()>)
    ensures r == Err(BufferOverflow)
  {
    var sb := new StreamBuffer(3);
    r := sb.AddData(0, [1, 2]);
    r := sb.AddData(2, [3, 4]);
  }

  /** `test_mismatch`: different bytes at stored offsets are invalid data. */
  method MismatchScenario() returns (r: Result<()>)
    ensures r.Err? && r.error.InvalidData?
  {
    var sb := new StreamBuffer(3);
    r := sb.AddData(0, [1, 2]);
    assert Overlay([], 0, [1, 2]) == [Some(1), Some(2)];
    assert Conflict([Some(1), Some(2)], 0, [3, 4], 0);
    r := sb.AddData(0, [3, 4]);
  }
}
