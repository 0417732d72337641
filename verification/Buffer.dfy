/**
  muduo's Buffer: a byte vector with a read and a write index, proved to refine
  the plain byte sequence that stands between the two indexes.
 */
module Buffer {
  import opened Bytes

  const CHEAP_PREPEND := 8
  const INITIAL_SIZE := 1024
  const EXTRA_SIZE := 65536

  class Buffer {
    var buffer: bytes
    var readerIndex: nat
    var writerIndex: nat

    ghost predicate Valid()
      reads this
    {
      readerIndex <= writerIndex <= |buffer| && CHEAP_PREPEND <= |buffer|
    }

    /** The readable bytes: everything that a caller can observe. */
    function Contents(): (c: bytes)
      reads this
      requires Valid()
      ensures |c| == writerIndex - readerIndex
    {
      buffer[readerIndex..writerIndex]
    }

    function ReadableBytes(): (n: nat)
      reads this
      requires Valid()
      ensures n == |Contents()|
    {
      writerIndex - readerIndex
    }

    function WritableBytes(): nat
      reads this
      requires Valid()
    {
      |buffer| - writerIndex
    }

    function PrependableBytes(): nat
      reads this
    {
      readerIndex
    }

    constructor (initialSize: nat := INITIAL_SIZE)
      ensures Valid() && Contents() == []
      ensures WritableBytes() == initialSize && PrependableBytes() == 8
    {
      buffer := seq(CHEAP_PREPEND + initialSize, _ => 0);
      readerIndex := CHEAP_PREPEND;
      writerIndex := CHEAP_PREPEND;
    }

    method RetrieveAll()
      requires Valid()
      modifies `readerIndex, `writerIndex
      ensures Valid() && Contents() == [] && PrependableBytes() == 8
    {
      readerIndex := CHEAP_PREPEND;
      writerIndex := CHEAP_PREPEND;
    }

    /** Drop a prefix; dropping everything also makes the whole vector writable again. */
    method Retrieve(len: nat)
      requires Valid() && len <= ReadableBytes()
      modifies `readerIndex, `writerIndex
      ensures Valid() && Contents() == old(Contents())[len..]
    {
      if len < ReadableBytes() {
        readerIndex := readerIndex + len;
      } else {
        RetrieveAll();
      }
    }

    method RetrieveAsString(len: nat) returns (result: bytes)
      requires Valid() && len <= ReadableBytes()
      modifies `readerIndex, `writerIndex
      ensures Valid() && Contents() == old(Contents())[len..] && result == old(Contents())[..len]
    {
      result := buffer[readerIndex..readerIndex + len];
      Retrieve(len);
    }

    /** The forward copy of makeSpace: source and destination overlap, and the destination comes first. */
    method MoveToFront()
      requires Valid() && CHEAP_PREPEND < readerIndex
      modifies this
      ensures Valid() && Contents() == old(Contents()) && readerIndex == CHEAP_PREPEND
      ensures |buffer| == |old(buffer)|
    {
      ghost var was := buffer;
      var readable := writerIndex - readerIndex;
      for i := 0 to readable
        invariant |buffer| == |was| && readerIndex == old(readerIndex) && writerIndex == old(writerIndex)
        invariant buffer[CHEAP_PREPEND..CHEAP_PREPEND + i] == was[readerIndex..readerIndex + i]
        invariant buffer[CHEAP_PREPEND + i..] == was[CHEAP_PREPEND + i..]
      {
        assert buffer[readerIndex + i] == buffer[CHEAP_PREPEND + i..][readerIndex - CHEAP_PREPEND]
            == was[readerIndex + i];
        ghost var done := buffer[CHEAP_PREPEND..CHEAP_PREPEND + i];
        buffer := buffer[CHEAP_PREPEND + i := buffer[readerIndex + i]];
        assert buffer[CHEAP_PREPEND..CHEAP_PREPEND + i + 1] == done + [was[readerIndex + i]];
        assert was[readerIndex..readerIndex + i + 1] == was[readerIndex..readerIndex + i] + [was[readerIndex + i]];
      }
      readerIndex := CHEAP_PREPEND;
      writerIndex := readerIndex + readable;
    }

    method MakeSpace(len: nat)
      requires Valid() && WritableBytes() < len
      modifies this
      ensures Valid() && Contents() == old(Contents()) && WritableBytes() >= len
    {
      if WritableBytes() + PrependableBytes() < len + CHEAP_PREPEND {
        buffer := buffer + seq(writerIndex + len - |buffer|, _ => 0);
      } else {
        assert CHEAP_PREPEND < readerIndex;
        MoveToFront();
      }
    }

    method EnsureWritableBytes(len: nat)
      requires Valid()
      modifies this
      ensures Valid() && Contents() == old(Contents()) && WritableBytes() >= len
    {
      if WritableBytes() < len {
        MakeSpace(len);
      }
    }

    method HasWritten(len: nat)
      requires Valid() && len <= WritableBytes()
      modifies `writerIndex
      ensures Valid() && writerIndex == old(writerIndex) + len
      ensures Contents() == old(Contents()) + buffer[old(writerIndex)..old(writerIndex) + len]
    {
      writerIndex := writerIndex + len;
    }

    method Unwrite(len: nat)
      requires Valid() && len <= ReadableBytes()
      modifies `writerIndex
      ensures Valid() && Contents() == old(Contents())[..old(ReadableBytes()) - len]
    {
      writerIndex := writerIndex - len;
    }

    method Append(data: bytes)
      requires Valid()
      modifies this
      ensures Valid() && Contents() == old(Contents()) + data
    {
      EnsureWritableBytes(|data|);
      buffer := buffer[..writerIndex] + data + buffer[writerIndex + |data|..];
      HasWritten(|data|);
    }

    method Prepend(data: bytes)
      requires Valid() && |data| <= PrependableBytes()
      modifies this
      ensures Valid() && Contents() == data + old(Contents())
    {
      readerIndex := readerIndex - |data|;
      buffer := buffer[..readerIndex] + data + buffer[readerIndex + |data|..];
    }

    /** shrink: copy into a fresh buffer with `reserve` spare bytes, then swap with it. */
    method Shrink(reserve: nat)
      requires Valid()
      modifies this
      ensures Valid() && Contents() == old(Contents())
    {
      var other := new Buffer();
      other.EnsureWritableBytes(ReadableBytes() + reserve);
      other.Append(Contents());
      buffer, readerIndex, writerIndex := other.buffer, other.readerIndex, other.writerIndex;
    }

    /**
      readFd: readv fills the writable bytes first and a 64 KiB stack buffer after them, unless there
      is that much room already. `received` is what the kernel delivered, None being an error.
     */
    method ReadFd(received: Option<bytes>) returns (n: int)
      requires Valid()
      requires received.Some? ==>
                 |received.value| <= WritableBytes() + if WritableBytes() < EXTRA_SIZE then EXTRA_SIZE else 0
      modifies this
      ensures Valid()
      ensures Contents() == old(Contents()) + if received.Some? then received.value else []
      ensures n == if received.Some? then |received.value| else -1
    {
      var writable := WritableBytes();
      if received.None? {
        n := -1;
      } else {
        var data := received.value;
        n := |data|;
        if n <= writable {
          buffer := buffer[..writerIndex] + data + buffer[writerIndex + n..];
          writerIndex := writerIndex + n;
        } else {
          buffer := buffer[..writerIndex] + data[..writable];
          writerIndex := |buffer|;
          assert Contents() == old(Contents()) + data[..writable];
          Append(data[writable..]);
          assert data == data[..writable] + data[writable..];
        }
      }
    }

    method AppendInt32(x: int32)
      requires Valid()
      modifies this
      ensures Valid() && Contents() == old(Contents()) + BigEndian32(Unsigned32(x))
    {
      Append(BigEndian32(Unsigned32(x)));
    }

    function PeekInt32(): int32
      reads this
      requires Valid() && ReadableBytes() >= 4
    {
      Signed32(Read32(Contents()))
    }

    function PeekInt8(): int8
      reads this
      requires Valid() && ReadableBytes() >= 1
    {
      Signed8(Contents()[0])
    }

    /** Whatever appendInt32 put in front comes back. */
    method ReadInt32() returns (x: int32)
      requires Valid() && ReadableBytes() >= 4
      modifies `readerIndex, `writerIndex
      ensures Valid() && Contents() == old(Contents())[4..] && x == old(PeekInt32())
      ensures forall y: int32 :: BigEndian32(Unsigned32(y)) <= old(Contents()) ==> x == y
    {
      x := PeekInt32();
      forall y: int32 | BigEndian32(Unsigned32(y)) <= Contents()
        ensures x == y
      {
        RoundTrip32(Unsigned32(y), Contents()[4..]);
        assert Contents() == BigEndian32(Unsigned32(y)) + Contents()[4..];
      }
      Retrieve(4);
    }

    method ReadInt8() returns (x: int8)
      requires Valid() && ReadableBytes() >= 1
      modifies `readerIndex, `writerIndex
      ensures Valid() && Contents() == old(Contents())[1..] && x == old(PeekInt8())
    {
      x := PeekInt8();
      Retrieve(1);
    }
  }

  /** Any run of appends, retrieves, prepends and shrinks acts on the contents as on a plain sequence. */
  datatype Op =
    | Append(data: bytes)
    | Retrieve(len: nat)
    | Prepend(data: bytes)
    | Unwrite(len: nat)
    | Shrink(reserve: nat)
    | ReadFd(data: bytes)

  /** The effect on a plain sequence; None where an assertion of the class would fail for it. */
  function Apply(contents: bytes, op: Op): Option<bytes> {
    match op
    case Append(data) => Some(contents + data)
    case ReadFd(data) => Some(contents + data)
    case Prepend(data) => Some(data + contents)
    case Shrink(_) => Some(contents)
    case Retrieve(len) => if len <= |contents| then Some(contents[len..]) else None
    case Unwrite(len) => if len <= |contents| then Some(contents[..|contents| - len]) else None
  }

  ghost function ApplyAll(contents: bytes, ops: seq<Op>): Option<bytes> {
    if ops == [] then Some(contents)
    else
      var r := ApplyAll(contents, ops[..|ops| - 1]);
      if r.Some? then Apply(r.value, ops[|ops| - 1]) else None
  }

  /** What the class's assertions ask of the caller, and what a readv of that size can deliver. */
  predicate Allowed(b: Buffer, op: Op)
    reads b
    requires b.Valid()
  {
    match op
    case Append(_) => true
    case Shrink(_) => true
    case Retrieve(len) => len <= b.ReadableBytes()
    case Unwrite(len) => len <= b.ReadableBytes()
    case Prepend(data) => |data| <= b.PrependableBytes()
    case ReadFd(data) => |data| <= b.WritableBytes() + if b.WritableBytes() < EXTRA_SIZE then EXTRA_SIZE else 0
  }

  /**
    A run of operations until the first one that the class's own assertions forbid: a prefix longer than
    the contents, or a prepend without room. The buffer then holds what a plain sequence would hold.
   */
  method Perform(b: Buffer, ops: seq<Op>) returns (done: nat)
    requires b.Valid()
    modifies b
    ensures b.Valid() && done <= |ops|
    ensures ApplyAll(old(b.Contents()), ops[..done]) == Some(b.Contents())
    ensures done < |ops| ==> !Allowed(b, ops[done])
  {
    done := 0;
    while done < |ops|
      invariant b.Valid() && done <= |ops|
      invariant ApplyAll(old(b.Contents()), ops[..done]) == Some(b.Contents())
    {
      if !Allowed(b, ops[done]) {
        return;
      }
      match ops[done] {
        case Append(data) => b.Append(data);
        case Shrink(reserve) => b.Shrink(reserve);
        case Retrieve(len) => b.Retrieve(len);
        case Unwrite(len) => b.Unwrite(len);
        case Prepend(data) => b.Prepend(data);
        case ReadFd(data) => var _ := b.ReadFd(Some(data));
      }
      assert ops[..done + 1][..done] == ops[..done];
      done := done + 1;
    }
  }
}
