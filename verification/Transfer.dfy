/** Reading and writing a remote file through one AFC descriptor (src/afc.rs): a seek followed by a loop of
    requests of at most 1 MiB refines one slice or one splice of the file. */
module Transfer {
  import opened Wrappers

  const MAX_TRANSFER := 1024 * 1024
  const TWO_32 := 0x1_0000_0000
  const TWO_63 := 0x8000_0000_0000_0000
  const TWO_64 := 0x1_0000_0000_0000_0000

  type Byte = x: int | 0 <= x < 256

  datatype Error = DeviceError

  function Min(a: nat, b: nat): nat { if a <= b then a else b }

  function Max(a: nat, b: nat): nat { if a >= b then a else b }

  /** file[offset..min(offset + size, len)], empty past the end. */
  function Slice(file: seq<Byte>, offset: nat, size: nat): seq<Byte> {
    file[Min(offset, |file|)..Min(offset + size, |file|)]
  }

  /** The file with `data` placed at `offset` and any gap before it filled with zeros.
      Placing nothing changes nothing. */
  function Splice(file: seq<Byte>, offset: nat, data: seq<Byte>): seq<Byte> {
    if data == [] then file
    else seq(Max(|file|, offset + |data|), i requires 0 <= i < Max(|file|, offset + |data|) =>
           if offset <= i < offset + |data| then data[i - offset]
           else if i < |file| then file[i]
           else 0)
  }

  /** Two adjacent splices are one. */
  lemma SplicesJoin(file: seq<Byte>, offset: nat, first: seq<Byte>, second: seq<Byte>)
    requires first != []
    ensures Splice(Splice(file, offset, first), offset + |first|, second) == Splice(file, offset, first + second)
  {
    if second == [] {
      assert first + second == first;
    } else {
      var left := Splice(Splice(file, offset, first), offset + |first|, second);
      var right := Splice(file, offset, first + second);
      assert |left| == |right|;
      forall i | 0 <= i < |left| ensures left[i] == right[i] {
      }
    }
  }

  lemma SpliceNothing(file: seq<Byte>, offset: nat)
    ensures Splice(file, offset, []) == file
  {
  }

  /** Reading the range just written gives back what was written. */
  lemma ReadBack(file: seq<Byte>, offset: nat, data: seq<Byte>)
    ensures Slice(Splice(file, offset, data), offset, |data|) == data
  {
    var after := Splice(file, offset, data);
    if data != [] {
      assert |Slice(after, offset, |data|)| == |data|;
    }
  }

  /** Reading anywhere else gives what was there before. */
  lemma ReadElsewhere(file: seq<Byte>, offset: nat, data: seq<Byte>, start: nat, size: nat)
    requires start + size <= Min(offset, |file|) || start >= offset + |data|
    ensures Slice(Splice(file, offset, data), start, size) == Slice(file, start, size)
  {
    var after := Splice(file, offset, data);
    if data != [] {
      assert |Slice(after, start, size)| == |Slice(file, start, size)|;
    }
  }

  /** A gap between the end of the file and what is written reads as zeros. */
  lemma GapIsZero(file: seq<Byte>, offset: nat, data: seq<Byte>)
    requires data != []
    ensures |Splice(file, offset, data)| == if |file| >= offset + |data| then |file| else offset + |data|
    ensures forall i | |file| <= i < offset :: Splice(file, offset, data)[i] == 0
  {
  }

  function Chunks(size: nat): nat {
    (size + MAX_TRANSFER - 1) / MAX_TRANSFER
  }

  /** How many Read requests a device that is short only at the end of the file is sent. */
  function ReadRequests(size: nat, available: nat): nat {
    Min(Chunks(size), available / MAX_TRANSFER + 1)
  }

  /** `offset as i64` */
  function AsI64(offset: nat): int
    requires offset < TWO_64
  {
    if offset < TWO_63 then offset else offset - TWO_64
  }

  /** The cast keeps the 64 bits and reads them in two's complement. */
  lemma CastIsTwosComplement(offset: nat)
    requires offset < TWO_64
    ensures -0x8000_0000_0000_0000 <= AsI64(offset) < 0x8000_0000_0000_0000
    ensures AsI64(offset) % 0x1_0000_0000_0000_0000 == offset
  {
  }

  /** The started MiB of a transfer. */
  lemma ChunksAreMiB(size: nat)
    ensures (Chunks(size) - 1) * 1_048_576 < size <= Chunks(size) * 1_048_576 || Chunks(size) == size == 0
  {
  }

  /** An open file on the device. Any request may be refused, which changes nothing. */
  class RemoteFile {
    var content: seq<Byte>
    var position: nat
    const eager: bool   // reads are short only at the end of the file
    ghost var refused: nat   // requests refused so far
    ghost var target: int    // the position the last seek asked for

    constructor (content: seq<Byte>, eager: bool)
      ensures this.content == content && position == 0 && this.eager == eager && refused == 0
    {
      this.content, position, this.eager, refused, this.target := content, 0, eager, 0, 0;
    }

    method Seek(target: int) returns (ok: bool)
      modifies this`position, this`refused, this`target
      ensures this.target == target
      ensures refused == old(refused) + if ok then 0 else 1
      ensures ok ==> target >= 0 && position == target
      ensures !ok ==> position == old(position)
    {
      ok := *;
      this.target := target;
      ok := ok && target >= 0;
      if ok {
        position := target;
      } else {
        refused := refused + 1;
      }
    }

    method Read(amount: nat) returns (data: Option<seq<Byte>>)
      modifies this`position, this`refused
      ensures refused == old(refused) + if data.Some? then 0 else 1
      ensures data.None? ==> position == old(position)
      ensures data.Some? ==>
                && |data.value| <= amount && data.value == Slice(content, old(position), |data.value|)
                && position == old(position) + |data.value|
                && (eager ==> data.value == Slice(content, old(position), amount))
    {
      var ok: bool := *;
      if !ok {
        refused := refused + 1;
        return None;
      }
      var all := Slice(content, position, amount);
      var count :| 0 <= count <= |all|;
      var sent := if eager then all else all[..count];
      position := position + |sent|;
      data := Some(sent);
    }

    method Write(chunk: seq<Byte>) returns (ok: bool)
      modifies this
      ensures refused == old(refused) + if ok then 0 else 1
      ensures ok ==> content == Splice(old(content), old(position), chunk) && position == old(position) + |chunk|
      ensures !ok ==> content == old(content) && position == old(position)
    {
      ok := *;
      if ok {
        content := Splice(content, position, chunk);
        position := position + |chunk|;
      } else {
        refused := refused + 1;
      }
    }
  }

  class AfcTransport {
    const file: RemoteFile
    var packetNumber: nat
    ghost var requests: nat   // requests sent since the transport was made

    ghost predicate Valid()
      reads this
    {
      packetNumber == requests % TWO_64
    }

    constructor (file: RemoteFile)
      ensures this.file == file && requests == 0 && Valid()
    {
      this.file, packetNumber, requests := file, 0, 0;
    }

    /** Every request takes the next packet number, refused or not; the 64-bit counter wraps. */
    method NumberPacket() returns (number: nat)
      requires Valid()
      modifies this
      ensures Valid() && requests == old(requests) + 1 && number == old(requests) % TWO_64
    {
      number := packetNumber;
      packetNumber := (packetNumber + 1) % TWO_64;
      requests := requests + 1;
    }

    method Seek(offset: nat) returns (ok: bool)
      requires Valid() && offset < TWO_64
      modifies this, file`position, file`refused, file`target
      ensures file.target % TWO_64 == offset && -TWO_63 <= file.target < TWO_63
      ensures Valid() && requests == old(requests) + 1
      ensures file.refused == old(file.refused) + if ok then 0 else 1
      ensures ok ==> offset < TWO_63 && file.position == offset
    {
      var _ := NumberPacket();
      CastIsTwosComplement(offset);
      ok := file.Seek(AsI64(offset));
    }

    /** The bytes returned are a prefix of the requested slice. A device that reads short only at the end of the
        file yields exactly the slice, in exactly ReadRequests requests after the seek. */
    method Read(offset: nat, size: nat) returns (reply: Result<seq<Byte>, Error>)
      requires Valid() && offset < TWO_64 && size < TWO_32
      modifies this, file`position, file`refused, file`target
      ensures Valid()
      ensures file.refused == old(file.refused) + if reply.Ok? then 0 else 1
      ensures offset >= TWO_63 ==> reply.Err?
      ensures reply.Ok? ==> reply.value <= Slice(file.content, offset, size)
      ensures reply.Ok? && file.eager ==>
                && reply.value == Slice(file.content, offset, size)
                && requests == old(requests) + 1 + ReadRequests(size, |file.content| - Min(offset, |file.content|))
      ensures requests <= old(requests) + 1 + Chunks(size)
    {
      hide Slice, Chunks, ReadRequests, AsI64, Valid;
      ghost var content := file.content;
      var found := Seek(offset);
      if !found {
        return Err(DeviceError);
      }
      var output: seq<Byte> := [];
      var remaining: nat := size;
      ghost var full := 0;
      SliceOfNothing(content, offset);
      while remaining > 0
        invariant Valid() && requests == old(requests) + 1 + full && file.refused == old(file.refused)
        invariant file.position == offset + |output| && |output| + remaining == size
        invariant output == Slice(content, offset, |output|)
        invariant if remaining > 0 then |output| == full * MAX_TRANSFER else full == Chunks(size)
        invariant output == [] || offset + |output| <= |content|
      {
        var amount := Min(remaining, MAX_TRANSFER);
        RequestCount(size, remaining, full);
        var _ := NumberPacket();
        var response := file.Read(amount);
        if response.None? {
          return Err(DeviceError);
        }
        var count := |response.value|;
        if count == 0 || count < amount {
          LastRequest(content, offset, output, response.value, amount, size, full, file.eager);
          output := output + response.value;
          return Ok(output);
        }
        SlicesJoin(content, offset, |output|, count);
        SliceInside(content, offset + |output|, count);
        output := output + response.value;
        full := full + 1;
        remaining := remaining - count;
      }
      AllRequested(size, |content| - Min(offset, |content|));
      reply := Ok(output);
    }

    /** On success the file is the old one with the bytes at `offset`. A failure after `chunks` accepted
        requests leaves exactly those chunks applied. */
    method Write(offset: nat, bytes: seq<Byte>) returns (reply: Result<nat, Error>, ghost chunks: nat)
      requires Valid() && offset < TWO_64
      modifies this, file
      ensures Valid()
      ensures file.refused == old(file.refused) + if reply.Ok? then 0 else 1
      ensures offset >= TWO_63 ==> reply.Err? && chunks == 0
      ensures chunks <= Chunks(|bytes|)
      ensures file.content == Splice(old(file.content), offset, bytes[..Min(chunks * MAX_TRANSFER, |bytes|)])
      ensures reply.Ok? ==> file.content == Splice(old(file.content), offset, bytes) && reply.value == |bytes| % TWO_32
      ensures requests == old(requests) + 1 + (if reply.Ok? then Chunks(|bytes|) else chunks)
              || (reply.Err? && requests == old(requests) + 2 + chunks)
    {
      hide Splice, AsI64;
      chunks := 0;
      ghost var before := file.content;
      SpliceNothing(before, offset);
      assert bytes[..0] == [];
      var found := Seek(offset);
      if !found {
        return Err(DeviceError), chunks;
      }
      var sent := 0;
      while sent < |bytes|
        invariant Valid() && requests == old(requests) + 1 + chunks && file.refused == old(file.refused)
        invariant sent == Min(chunks * MAX_TRANSFER, |bytes|) && chunks <= Chunks(|bytes|)
        invariant sent == |bytes| ==> chunks == Chunks(|bytes|)
        invariant file.position == offset + sent
        invariant file.content == Splice(before, offset, bytes[..sent])
      {
        var next := Min(sent + MAX_TRANSFER, |bytes|);
        var chunk := bytes[sent..next];
        var _ := NumberPacket();
        var ok := file.Write(chunk);
        if !ok {
          return Err(DeviceError), chunks;
        }
        assert bytes[..sent] + chunk == bytes[..next];
        if sent > 0 {
          SplicesJoin(before, offset, bytes[..sent], chunk);
        }
        sent := next;
        chunks := chunks + 1;
      }
      assert bytes[..|bytes|] == bytes;
      reply := Ok(|bytes| % TWO_32);
    }
  }

  lemma SlicesJoin(file: seq<Byte>, offset: nat, first: nat, second: nat)
    requires first == 0 || offset + first <= |file|
    ensures Slice(file, offset, first) + Slice(file, offset + first, second) == Slice(file, offset, first + second)
  {
  }

  lemma SliceIsPrefix(file: seq<Byte>, offset: nat, size: nat, larger: nat)
    requires size <= larger
    ensures Slice(file, offset, size) <= Slice(file, offset, larger)
  {
  }

  /** While bytes remain, the request about to be sent is within the budget, and the last one meets it. */
  lemma RequestCount(size: nat, remaining: nat, full: nat)
    requires 0 < remaining <= size && size - remaining == full * MAX_TRANSFER
    ensures full + 1 <= Chunks(size)
    ensures remaining <= MAX_TRANSFER ==> full + 1 == Chunks(size)
  {
  }

  lemma ShortCount(size: nat, full: nat, count: nat, available: nat)
    requires available == full * MAX_TRANSFER + count && count < MAX_TRANSFER && full + 1 <= Chunks(size)
    ensures ReadRequests(size, available) == full + 1
  {
  }

  lemma SliceOfNothing(file: seq<Byte>, offset: nat)
    ensures Slice(file, offset, 0) == [] && Chunks(0) == 0
  {
  }

  lemma SliceInside(file: seq<Byte>, offset: nat, size: nat)
    requires |Slice(file, offset, size)| == size
    ensures size == 0 || offset + size <= |file|
  {
  }

  lemma AllRequested(size: nat, available: nat)
    requires size == 0 || size <= available
    ensures ReadRequests(size, available) == Chunks(size)
  {
  }

  /** A slice that comes up short has reached the end of the file. */
  lemma ShortRead(file: seq<Byte>, offset: nat, done: nat, amount: nat, size: nat)
    requires done == 0 || offset + done <= |file|
    requires |Slice(file, offset, done)| == done && 0 < amount && done + amount <= size
    requires |Slice(file, offset + done, amount)| < amount
    ensures Slice(file, offset, done + amount) == Slice(file, offset, size)
    ensures |file| - Min(offset, |file|) == done + |Slice(file, offset + done, amount)|
  {
  }

  /** The request that comes back short is the last one: what has been read is a prefix of the slice, and all of it
      from a device that is short only at the end of the file. */
  lemma LastRequest(file: seq<Byte>, offset: nat, output: seq<Byte>, response: seq<Byte>, amount: nat, size: nat, full: nat, eager: bool)
    requires output == Slice(file, offset, |output|) && (output == [] || offset + |output| <= |file|)
    requires response == Slice(file, offset + |output|, |response|) && |response| < amount
    requires |output| <= size && |output| == full * MAX_TRANSFER && amount == Min(size - |output|, MAX_TRANSFER) && full + 1 <= Chunks(size)
    requires eager ==> response == Slice(file, offset + |output|, amount)
    ensures output + response <= Slice(file, offset, size)
    ensures eager ==> output + response == Slice(file, offset, size)
                      && ReadRequests(size, |file| - Min(offset, |file|)) == full + 1
  {
    hide Slice, Chunks, ReadRequests;
    SlicesJoin(file, offset, |output|, |response|);
    SliceIsPrefix(file, offset, |output + response|, size);
    if eager {
      SlicesJoin(file, offset, |output|, amount);
      ShortRead(file, offset, |output|, amount, size);
      ShortCount(size, full, |response|, |file| - Min(offset, |file|));
    }
  }
}
