/**
 * The buffered stream over partial receives and sends.
 *
 * The kernel is an adversary: each receive delivers any non-empty prefix of what is
 * still to arrive, each send takes any non-empty prefix of what it is given, and
 * either may fail instead.
 */
module Sockets {
  import opened Bytes
  import opened ByteBuffers

  const SOCKET_BUFFER_SIZE: nat := 8192

  /** What `read` returns and leaves, as a function of the incoming stream alone. */
  function TakeSpec(s: bytes, size: nat, fully: bool): Outcome<(bytes, bytes)> {
    if size <= |s| then Ok((s[..size], s[size..]))
    else if fully then Throw(SocketClosed)
    else Ok((s, []))
  }

  /**
   * How the incoming stream was cut: where it ends, how much of it has been received, and
   * where each receive ended.  Offsets count from the first octet of the stream.
   */
  datatype Schedule = Schedule(end: nat, received: nat, cuts: set<nat>) {
    /** What is still buffered of the last receive begins where an earlier one ended, or later. */
    ghost predicate Holds(buffered: nat) {
      && received in cuts && buffered <= received
      && forall c :: c in cuts ==> c == received || c + buffered <= received
    }

    function Plus(n: nat): Schedule {
      this.(received := received + n, cuts := cuts + {received + n})
    }
  }

  lemma ReceivedMore(a: Schedule, n: nat)
    requires a.Holds(0) && 0 < n
    ensures a.Plus(n).Holds(0) && a.Plus(n).Holds(n) && Later(a, a.Plus(n))
  {
  }

  lemma HoldsLess(a: Schedule, n: nat, m: nat)
    requires a.Holds(n) && m <= n
    ensures a.Holds(m)
    ensures m < n ==> forall c :: c in a.cuts ==> c == a.received || c + m < a.received
  {
  }

  /** The same stream after some more receives: nothing that was received is cut again. */
  ghost predicate Later(a: Schedule, b: Schedule) {
    && b.end == a.end && a.received <= b.received && a.cuts <= b.cuts
    && forall c :: c in b.cuts && c !in a.cuts ==> c > a.received
  }

  lemma LaterStill(a: Schedule, b: Schedule, c: Schedule)
    requires Later(a, b) && Later(b, c)
    ensures Later(a, c)
  {
  }

  lemma NotYetLater(a: Schedule)
    ensures Later(a, a)
  {
  }

  class Socket {
    const inBuffer: ByteBuffer
    const outBuffer: ByteBuffer
    var arriving: bytes  // what the peer will still deliver before it closes
    var sent: bytes      // what the kernel has accepted
    ghost var schedule: Schedule

    ghost function Repr(): set<object> {
      {this, inBuffer, inBuffer.data, outBuffer, outBuffer.data}
    }

    ghost predicate Valid()
      reads Repr()
    {
      && inBuffer != outBuffer && inBuffer.data != outBuffer.data
      && inBuffer.data.Length == outBuffer.data.Length == SOCKET_BUFFER_SIZE
      && inBuffer.Valid() && outBuffer.Valid()
      && schedule.end == schedule.received + |arriving| && schedule.Holds(|inBuffer.Contents()|)
    }

    /** Everything a reader has yet to see: buffered, then still to arrive. */
    ghost function Incoming(): bytes
      reads Repr()
      requires Valid()
    {
      inBuffer.Contents() + arriving
    }

    /** Everything ever written: accepted by the kernel, then buffered. */
    ghost function Outgoing(): bytes
      reads Repr()
      requires Valid()
    {
      sent + outBuffer.Contents()
    }

    /** The octets a reader gets without a receive. */
    ghost function Buffered(): (b: bytes)
      reads Repr()
      requires Valid()
      ensures |b| <= |Incoming()| && b == Incoming()[..|b|]
      ensures |b| <= SOCKET_BUFFER_SIZE
      ensures schedule.end + |b| == schedule.received + |Incoming()| && schedule.received in schedule.cuts
    {
      inBuffer.Contents()
    }

    /** The last receive was needed for what has been read: all before it ended earlier. */
    ghost predicate Fresh()
      reads Repr()
      requires Valid()
    {
      forall c :: c in schedule.cuts ==> c == schedule.received || c + |Incoming()| < schedule.end
    }

    /** The octets written but not yet accepted by the kernel. */
    ghost function Unsent(): (b: bytes)
      reads Repr()
      requires Valid()
      ensures b == [] ==> sent == Outgoing()
      ensures |b| <= SOCKET_BUFFER_SIZE
    {
      outBuffer.Contents()
    }

    constructor (peer: bytes)
      ensures Valid() && fresh(Repr())
      ensures Incoming() == peer && Outgoing() == []
    {
      inBuffer := new ByteBuffer(SOCKET_BUFFER_SIZE);
      outBuffer := new ByteBuffer(SOCKET_BUFFER_SIZE);
      arriving, sent := peer, [];
      schedule := Schedule(|peer|, 0, {0});
    }

    // ---------------------------------------------------------------- input

    /** `io_listener::on_recv`: the kernel fills some of the write chunk. */
    method OnRecv() returns (status: int)
      requires Valid() && inBuffer.Contents() == []
      modifies this`arriving, this`schedule, inBuffer.data
      ensures Valid() && inBuffer.Contents() == old(inBuffer.Contents())
      ensures status == 0 ==> old(arriving) == [] || inBuffer.Capacity() == 0
      ensures status <= 0 ==> arriving == old(arriving)
      ensures 0 < status ==> status <= inBuffer.Capacity() && status <= |old(arriving)|
      ensures 0 < status ==> arriving == old(arriving)[status..]
      ensures 0 < status ==> inBuffer.data[inBuffer.end..inBuffer.end + status] == old(arriving)[..status]
      ensures status <= 0 ==> schedule == old(schedule)
      ensures 0 < status ==> schedule == old(schedule).Plus(status)
    {
      hide Schedule.Holds, Later;
      var size := inBuffer.Capacity();
      if * {
        status :| status < 0;
        return;
      }
      if size == 0 || arriving == [] {
        return 0;
      }
      status :| 1 <= status <= size && status <= |arriving|;
      Fill(arriving[..status]);
      arriving := arriving[status..];
      ReceivedMore(schedule, status);
      schedule := schedule.Plus(status);
    }

    /** The octets of one receive, at the write pointer. */
    method Fill(src: bytes)
      requires Valid() && |src| <= inBuffer.Capacity()
      modifies inBuffer.data
      ensures Valid() && inBuffer.Contents() == old(inBuffer.Contents())
      ensures inBuffer.data[inBuffer.end..inBuffer.end + |src|] == src
    {
      forall i | 0 <= i < |src| {
        inBuffer.data[inBuffer.end + i] := src[i];
      }
      assert inBuffer.data[inBuffer.end..inBuffer.end + |src|] == src;
      assert inBuffer.Contents() == old(inBuffer.Contents());
    }

    /**
     * Every receive has room: it is only ever issued on an empty buffer, which offers
     * its whole array, so a zero status means that the peer has closed.
     */
    method RecvIncoming(ghost start: Schedule) returns (status: int)
      requires Valid() && Buffered() == [] && Later(start, schedule)
      modifies Repr()
      ensures Valid() && Incoming() == old(Incoming())
      ensures Outgoing() == old(Outgoing()) && sent == old(sent)
      ensures status == 0 ==> Incoming() == []
      ensures 0 < status ==> |Buffered()| == status
      ensures status <= 0 ==> Buffered() == []
      ensures Later(start, schedule)
      ensures status <= 0 ==> schedule == old(schedule) && (old(Fresh()) ==> Fresh())
    {
      hide Schedule.Holds, Later;
      ghost var s, before := arriving, schedule;
      Unit(s);
      status := OnRecv();
      if 0 < status {
        ReceivedMore(before, status);
        LaterStill(start, before, schedule);
        assert s[..status] + s[status..] == s;
        assert inBuffer.Contents() == [];
        inBuffer.IncrementWriteP(status);
        assert inBuffer.Contents() == s[..status];
      }
    }

    /** The chunk is the buffered part of the stream; it is empty only at its end. */
    method Peek() returns (r: Outcome<bytes>)
      requires Valid()
      modifies Repr()
      ensures Valid() && Incoming() == old(Incoming())
      ensures Outgoing() == old(Outgoing()) && sent == old(sent)
      ensures r.Throw? ==> r.error == IoError
      ensures r.Ok? ==> r.value == Buffered()
      ensures r.Ok? && r.value == [] ==> Incoming() == []
      ensures Later(old(schedule), schedule)
    {
      var chunk := inBuffer.GetReadChunk();
      if chunk == [] {
        var status := RecvIncoming(schedule);
        if status < 0 {
          return Throw(IoError);
        }
        chunk := inBuffer.GetReadChunk();
      }
      return Ok(chunk);
    }

    method Seek(offset: nat)
      requires Valid() && offset <= |Buffered()|
      modifies Repr()
      ensures Valid() && Incoming() == old(Incoming())[offset..]
      ensures Outgoing() == old(Outgoing()) && sent == old(sent)
      ensures schedule == old(schedule)
    {
      ghost var before := |inBuffer.Contents()|;
      inBuffer.IncrementReadP(offset);
      HoldsLess(schedule, before, |inBuffer.Contents()|);
    }

    /** One `byte_buffer::read` of the input buffer. */
    method ReadBuffered(size: nat) returns (taken: bytes)
      requires Valid()
      modifies Repr()
      ensures Valid()
      ensures Outgoing() == old(Outgoing()) && sent == old(sent)
      ensures |taken| == if size <= |old(Buffered())| then size else |old(Buffered())|
      ensures |taken| < size ==> Buffered() == []
      ensures taken == old(Incoming())[..|taken|] && Incoming() == old(Incoming())[|taken|..]
      ensures schedule == old(schedule) && (taken != [] ==> Fresh())
    {
      hide Schedule.Holds;
      ghost var before := |inBuffer.Contents()|;
      taken := inBuffer.Read(size);
      HoldsLess(schedule, before, |inBuffer.Contents()|);
    }

    /** `read`: the value and the rest of the stream do not depend on the segmentation. */
    method Read(size: nat, fully: bool) returns (r: Outcome<bytes>)
      requires Valid()
      modifies Repr()
      ensures Valid()
      ensures Outgoing() == old(Outgoing()) && sent == old(sent)
      ensures match r
        case Throw(e) => e == IoError || Throw(e) == TakeSpec(old(Incoming()), size, fully)
        case Ok(taken) => TakeSpec(old(Incoming()), size, fully) == Ok((taken, Incoming()))
      ensures size <= |old(Buffered())| ==> r.Ok?
      ensures Later(old(schedule), schedule) && (r.Ok? && r.value != [] ==> Fresh())
    {
      hide *;
      ghost var s := Incoming();
      ghost var start := schedule;
      NotYetLater(start);
      var taken := ReadBuffered(size);
      while |taken| < size
        invariant Valid() && Outgoing() == old(Outgoing()) && sent == old(sent)
        invariant |taken| <= size && |taken| <= |s|
        invariant |taken| < size ==> Buffered() == []
        invariant taken == s[..|taken|] && Incoming() == s[|taken|..]
        invariant Later(start, schedule) && (taken != [] ==> Fresh())
        decreases |Incoming()|
      {
        var status := RecvIncoming(start);
        if status < 0 {
          return Throw(IoError);
        } else if status == 0 {
          TakeAll(s, taken, size, fully);
          if fully {
            return Throw(SocketClosed);
          }
          return Ok(taken);
        }
        var more := ReadBuffered(size - |taken|);
        SliceStep(s, |taken|, |more|);
        taken := taken + more;
      }
      TakeSome(s, taken, size, fully);
      return Ok(taken);
    }

    method NothingBuffered() returns (empty: bool)
      requires Valid()
      ensures empty <==> Buffered() == []
    {
      return inBuffer.Available() == 0;
    }

    /** Whether a read of this size finds all its octets buffered, and so never suspends. */
    method HasBuffered(size: nat) returns (all: bool)
      requires Valid()
      ensures all <==> size <= |Buffered()|
    {
      return size <= inBuffer.Available();
    }

    /**
     * What a receive does whose coroutine was destroyed: it stays in flight beside the
     * next one, into the same buffer, so that anything may be read from here on.
     */
    method StrayReceive()
      requires Valid() && Buffered() == []
      modifies this`arriving, this`schedule
      ensures Valid() && |Incoming()| <= |old(Incoming())| && schedule.cuts == old(schedule).cuts
      ensures Outgoing() == old(Outgoing()) && sent == old(sent)
    {
      var disturbed: bytes :| |disturbed| <= |arriving|;
      arriving := disturbed;
      schedule := schedule.(end := schedule.received + |disturbed|);
    }

    /** `byte_buffer::read_c` of the input buffer. */
    method ReadBufferedC() returns (c: int)
      requires Valid()
      modifies Repr()
      ensures Valid() && Outgoing() == old(Outgoing()) && sent == old(sent)
      ensures old(Buffered()) == [] ==> c == -1 && Incoming() == old(Incoming())
      ensures old(Buffered()) != [] ==> c == old(Incoming())[0] && Incoming() == old(Incoming())[1..]
      ensures schedule == old(schedule)
    {
      ghost var before := |inBuffer.Contents()|;
      c := inBuffer.ReadC();
      HoldsLess(schedule, before, |inBuffer.Contents()|);
    }

    /** `read_c`: the next octet, or -1 at the end of the stream. */
    method ReadC(fully: bool) returns (r: Outcome<int>)
      requires Valid()
      modifies Repr()
      ensures Valid()
      ensures Outgoing() == old(Outgoing()) && sent == old(sent)
      ensures match r
        case Throw(e) => e == IoError || (e == SocketClosed && fully && old(Incoming()) == [])
        case Ok(c) => if old(Incoming()) == [] then c == -1 && !fully && Incoming() == []
                      else c == old(Incoming())[0] && Incoming() == old(Incoming())[1..]
      ensures Later(old(schedule), schedule)
    {
      hide Valid, Incoming, Outgoing, Buffered;
      var empty := NothingBuffered();
      if empty {
        var status := RecvIncoming(schedule);
        if status < 0 {
          return Throw(IoError);
        } else if status == 0 && fully {
          return Throw(SocketClosed);
        }
      }
      var c := ReadBufferedC();
      return Ok(c);
    }

    /** `skip_buffer` on the input buffer. */
    method SkipBuffer(size: nat) returns (skipped: nat)
      requires Valid()
      modifies Repr()
      ensures Valid()
      ensures Outgoing() == old(Outgoing()) && sent == old(sent)
      ensures skipped == if size <= |old(Buffered())| then size else |old(Buffered())|
      ensures skipped < size ==> Buffered() == []
      ensures Incoming() == old(Incoming())[skipped..]
      ensures schedule == old(schedule)
    {
      skipped := Min(inBuffer.Available(), size);
      ghost var before := |inBuffer.Contents()|;
      inBuffer.IncrementReadP(skipped);
      HoldsLess(schedule, before, |inBuffer.Contents()|);
    }

    /** One turn of `skip`: a receive, and as many of its octets as are still to be skipped. */
    method RecvAndSkip(size: nat, ghost start: Schedule) returns (status: int, more: nat)
      requires Valid() && Buffered() == [] && 0 < size && Later(start, schedule)
      modifies Repr()
      ensures Valid() && Outgoing() == old(Outgoing()) && sent == old(sent) && Later(start, schedule)
      ensures status == 0 ==> old(Incoming()) == []
      ensures status <= 0 ==> more == 0 && Incoming() == old(Incoming())
      ensures 0 < status ==> 0 < more <= size && more <= |old(Incoming())| && Incoming() == old(Incoming())[more..]
      ensures 0 < status && more < size ==> Buffered() == []
    {
      hide *;
      more := 0;
      status := RecvIncoming(start);
      if 0 < status {
        more := SkipBuffer(size);
      }
    }

    /** `skip`: as `read`, with the octets dropped and their number returned. */
    method Skip(size: nat, fully: bool) returns (r: Outcome<nat>)
      requires Valid()
      modifies Repr()
      ensures Valid()
      ensures Outgoing() == old(Outgoing()) && sent == old(sent)
      ensures match r
        case Throw(e) => e == IoError || Throw(e) == TakeSpec(old(Incoming()), size, fully)
        case Ok(n) => n <= |old(Incoming())|
                      && TakeSpec(old(Incoming()), size, fully) == Ok((old(Incoming())[..n], Incoming()))
      ensures Later(old(schedule), schedule)
    {
      hide *;
      ghost var s, start := Incoming(), schedule;
      NotYetLater(start);
      var failed, total := SkipLoop(size, start);
      if failed {
        return Throw(IoError);
      }
      if total < size {
        SkipAll(s, total, size, fully);
        if fully {
          return Throw(SocketClosed);
        }
      } else {
        SkipSome(s, size, fully);
      }
      return Ok(total);
    }

    /** The loop of `skip`: it stops short at the end of the stream alone. */
    method SkipLoop(size: nat, ghost start: Schedule) returns (failed: bool, total: nat)
      requires Valid() && Later(start, schedule)
      modifies Repr()
      ensures Valid() && Outgoing() == old(Outgoing()) && sent == old(sent) && Later(start, schedule)
      ensures total <= size && total <= |old(Incoming())|
      ensures !failed ==> Incoming() == old(Incoming())[total..] && (total < size ==> Incoming() == [])
    {
      hide *;
      ghost var s := Incoming();
      total := SkipBuffer(size);
      while total < size
        invariant Valid() && Outgoing() == old(Outgoing()) && sent == old(sent) && Later(start, schedule)
        invariant total <= size && total <= |s| && Incoming() == s[total..]
        invariant total < size ==> Buffered() == []
        decreases |Incoming()|
      {
        var status, more := RecvAndSkip(size - total, start);
        if status <= 0 {
          return status < 0, total;
        }
        DropStep(s, total, more);
        total := total + more;
      }
      return false, total;
    }

    // --------------------------------------------------------------- output

    /** `io_listener::on_send`: the kernel takes a non-empty prefix, or fails. */
    method OnSend(chunk: bytes) returns (status: int)
      requires chunk != []
      modifies this`sent
      ensures status != 0 && status <= |chunk|
      ensures sent == if status < 0 then old(sent) else old(sent) + chunk[..status]
    {
      if * {
        status :| status < 0;
      } else {
        status :| 1 <= status <= |chunk|;
        sent := sent + chunk[..status];
      }
    }

    /** One turn of `flush`: what the kernel takes leaves the buffer, in order. */
    method SendSome(chunk: bytes) returns (status: int)
      requires Valid() && chunk == Unsent() && chunk != []
      modifies Repr()
      ensures Valid() && Outgoing() == old(Outgoing()) && Incoming() == old(Incoming())
      ensures old(sent) <= sent
      ensures status != 0 && (0 < status ==> |Unsent()| < |chunk|)
      ensures schedule == old(schedule)
    {
      hide Schedule.Holds;
      status := OnSend(chunk);
      if status < 0 {
        return;
      }
      outBuffer.IncrementReadP(status);
      Resplit(old(sent), chunk, status);
    }

    /** `flush`: nothing stays buffered, nothing is lost, duplicated or reordered. */
    method Flush() returns (r: Outcome<()>)
      requires Valid()
      modifies Repr()
      ensures Valid() && Outgoing() == old(Outgoing()) && Incoming() == old(Incoming())
      ensures old(sent) <= sent
      ensures r.Throw? ==> r.error == IoError
      ensures r.Ok? ==> Unsent() == [] && sent == Outgoing()
      ensures schedule == old(schedule)
    {
      var chunk := outBuffer.GetReadChunk();
      while chunk != []
        invariant Valid() && chunk == Unsent()
        invariant Outgoing() == old(Outgoing()) && Incoming() == old(Incoming())
        invariant old(sent) <= sent && schedule == old(schedule)
        decreases |chunk|
      {
        var status := SendSome(chunk);
        if status < 0 {
          return Throw(IoError);
        }
        chunk := outBuffer.GetReadChunk();
      }
      return Ok(());
    }

    /** One `byte_buffer::write` to the output buffer. */
    method WriteBuffered(src: bytes) returns (n: nat)
      requires Valid()
      modifies Repr()
      ensures Valid() && Incoming() == old(Incoming()) && sent == old(sent)
      ensures n <= |src| && Outgoing() == old(Outgoing()) + src[..n]
      ensures old(Unsent()) == [] && src != [] ==> 0 < n
      ensures schedule == old(schedule)
    {
      n := outBuffer.Write(src);
    }

    /** `write`: all of src is appended, whatever its size; on failure a prefix of it is. */
    method Write(src: bytes) returns (r: Outcome<()>)
      requires Valid()
      modifies Repr()
      ensures Valid() && Incoming() == old(Incoming()) && old(sent) <= sent
      ensures r.Throw? ==> r.error == IoError
      ensures r.Throw? ==> exists n | 0 <= n <= |src| :: Outgoing() == old(Outgoing()) + src[..n]
      ensures r.Ok? ==> Outgoing() == old(Outgoing()) + src
      ensures schedule == old(schedule)
    {
      hide *;
      var total: nat := WriteBuffered(src);
      while total < |src|
        invariant Valid() && Incoming() == old(Incoming()) && old(sent) <= sent && schedule == old(schedule)
        invariant total <= |src| && Outgoing() == old(Outgoing()) + src[..total]
        decreases |src| - total
      {
        var f := Flush();
        if f.Throw? {
          return Throw(f.error);
        }
        var n := WriteBuffered(src[total..]);
        AppendStep(old(Outgoing()), src, total, n);
        total := total + n;
      }
      assert src[..total] == src;
      return Ok(());
    }
  }

  lemma AppendStep(s: bytes, src: bytes, total: nat, n: nat)
    requires total + n <= |src|
    ensures (s + src[..total]) + src[total..][..n] == s + src[..total + n]
  {
    SliceStep(src, total, n);
  }

  lemma TakeSome(s: bytes, taken: bytes, size: nat, fully: bool)
    requires size <= |s| && |taken| == size && taken == s[..|taken|]
    ensures TakeSpec(s, size, fully) == Ok((taken, s[|taken|..]))
  {
  }

  lemma Resplit(s: bytes, chunk: bytes, k: nat)
    requires k <= |chunk|
    ensures (s + chunk[..k]) + chunk[k..] == s + chunk && s <= s + chunk[..k]
  {
    assert chunk[..k] + chunk[k..] == chunk;
    Assoc(s, chunk[..k], chunk[k..]);
  }

  lemma DropStep(s: bytes, k: nat, m: nat)
    requires k + m <= |s|
    ensures s[k..][m..] == s[k + m..]
  {
  }

  lemma SkipSome(s: bytes, size: nat, fully: bool)
    requires size <= |s|
    ensures TakeSpec(s, size, fully) == Ok((s[..size], s[size..]))
  {
  }

  lemma SkipAll(s: bytes, total: nat, size: nat, fully: bool)
    requires total <= |s| && s[total..] == [] && total < size
    ensures TakeSpec(s, size, fully) == if fully then Throw(SocketClosed) else Ok((s[..total], []))
  {
    TakeAll(s, s[..total], size, fully);
  }

  lemma TakeAll(s: bytes, taken: bytes, size: nat, fully: bool)
    requires |taken| <= |s| && taken == s[..|taken|] && s[|taken|..] == [] && |taken| < size
    ensures TakeSpec(s, size, fully) == if fully then Throw(SocketClosed) else Ok((taken, []))
  {
    assert |s[|taken|..]| == |s| - |taken|;
    assert taken == s;
  }
}
