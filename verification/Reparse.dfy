/** The symbolic-link reparse buffer (section 2.1.2.4 of [MS-FSCC]) as src/windows_filesystem.rs writes
    and parses it. */
module Reparse {
  import opened Wrappers
  import opened Utf16

  type Byte = x: int | 0 <= x < 256

  datatype Error = InvalidParameter | NotSupported

  const TAG_SYMLINK := 0xA000_000C
  const HEADER := 20

  function AsU16(n: nat): Unit { n % 0x1_0000 }

  function Le16(n: Unit): seq<Byte> { [n % 256, n / 256] }

  function Le32(n: nat): seq<Byte>
    requires n < 0x1_0000_0000
  {
    [n % 256, n / 256 % 256, n / 0x1_0000 % 256, n / 0x100_0000]
  }

  function FromLe(low: int, high: int): int { low + 256 * high }

  function U16At(bytes: seq<Byte>, at: nat): Unit
    requires at + 2 <= |bytes|
  {
    FromLe(bytes[at], bytes[at + 1])
  }

  function U32At(bytes: seq<Byte>, at: nat): nat
    requires at + 4 <= |bytes|
  {
    FromLe(bytes[at], bytes[at + 1]) + 0x1_0000 * FromLe(bytes[at + 2], bytes[at + 3])
  }

  /** The units as little-endian bytes. */
  function UnitBytes(units: seq<Unit>): seq<Byte> {
    seq(2 * |units|, k requires 0 <= k < 2 * |units| => if k % 2 == 0 then units[k / 2] % 256 else units[k / 2] / 256)
  }

  /** chunks_exact(2) and from_le_bytes. */
  function BytesUnits(bytes: seq<Byte>): seq<Unit> {
    seq(|bytes| / 2, i requires 0 <= i < |bytes| / 2 => FromLe(bytes[2 * i], bytes[2 * i + 1]))
  }

  lemma UnitsOfSlice(units: seq<Unit>, start: nat, end: nat)
    requires start <= end <= |units|
    ensures BytesUnits(UnitBytes(units)[2 * start..2 * end]) == units[start..end]
  {
    hide UnitBytes;
    UnitBytesLength(units);
    var bytes := UnitBytes(units)[2 * start..2 * end];
    forall i | 0 <= i < end - start ensures BytesUnits(bytes)[i] == units[start + i] {
      UnitBytesAt(units, start + i);
      assert bytes[2 * i] == UnitBytes(units)[2 * (start + i)];
      assert bytes[2 * i + 1] == UnitBytes(units)[2 * (start + i) + 1];
    }
  }

  lemma UnitBytesAt(units: seq<Unit>, i: nat)
    requires i < |units|
    ensures |UnitBytes(units)| == 2 * |units|
    ensures UnitBytes(units)[2 * i] as int + 256 * UnitBytes(units)[2 * i + 1] as int == units[i]
    ensures UnitBytes(units)[2 * i] == Le16(units[i])[0] && UnitBytes(units)[2 * i + 1] == Le16(units[i])[1]
  {
  }

  function TotalBytes(wide: seq<Unit>): nat { HEADER + 4 * |wide| }

  /** The twenty bytes before the names: tag, data length, reserved, the offset and length of the substitute
      name, the offset and length of the print name, and the flag of a relative link. */
  function Header(units: nat): (bytes: seq<Byte>)
    ensures |bytes| == HEADER
  {
    var data, path := AsU16(12 + 4 * units), AsU16(2 * units);
    [ 0x0C, 0x00, 0x00, 0xA0, data % 256, data / 256, 0, 0,
      0, 0, path % 256, path / 256,
      path % 256, path / 256, path % 256, path / 256,
      1, 0, 0, 0 ]
  }

  /** The whole buffer: the header and the name twice, as substitute name and as print name. */
  function Layout(wide: seq<Unit>): seq<Byte> {
    Header(|wide|) + UnitBytes(wide + wide)
  }

  /** What is written for a link target: its separators turned into backslashes, in UTF-16. */
  function Wide(target: string): seq<Unit> { Encode(Replace(target, '/', '\\')) }

  function Parse(buffer: seq<Byte>): Result<string, Error> {
    if |buffer| < HEADER || U32At(buffer, 0) != TAG_SYMLINK then Err(NotSupported)
    else
      var start := HEADER + U16At(buffer, 12);
      var length := U16At(buffer, 14);
      if start + length > |buffer| || length % 2 != 0 then Err(InvalidParameter)
      else Ok(Replace(DecodeLossy(BytesUnits(buffer[start..start + length])), '\\', '/'))
  }

  lemma HeaderFields(units: nat)
    ensures var h := Header(units);
            && U32At(h, 0) == TAG_SYMLINK && U16At(h, 4) == AsU16(12 + 4 * units)
            && U16At(h, 8) == 0 && U16At(h, 10) == AsU16(2 * units)
            && U16At(h, 12) == AsU16(2 * units) && U16At(h, 14) == AsU16(2 * units) && U32At(h, 16) == 1
  {
  }

  lemma FieldsOfBuffer(buffer: seq<Byte>, units: nat)
    requires |buffer| >= HEADER && buffer[..HEADER] == Header(units)
    ensures U32At(buffer, 0) == TAG_SYMLINK && U16At(buffer, 4) == AsU16(12 + 4 * units)
    ensures U16At(buffer, 8) == 0 && U16At(buffer, 10) == AsU16(2 * units)
    ensures U16At(buffer, 12) == AsU16(2 * units) && U16At(buffer, 14) == AsU16(2 * units)
  {
    HeaderFields(units);
    forall i | 0 <= i < HEADER ensures buffer[i] == Header(units)[i] {
      assert buffer[..HEADER][i] == buffer[i];
    }
  }

  lemma UnitBytesLength(units: seq<Unit>)
    ensures |UnitBytes(units)| == 2 * |units|
  {
  }

  lemma LayoutParts(wide: seq<Unit>, tail: seq<Byte>, start: nat, end: nat)
    requires start <= end <= 4 * |wide|
    ensures |Layout(wide)| == TotalBytes(wide)
    ensures (Layout(wide) + tail)[..HEADER] == Header(|wide|)
    ensures |UnitBytes(wide + wide)| == 4 * |wide|
    ensures (Layout(wide) + tail)[HEADER + start..HEADER + end] == UnitBytes(wide + wide)[start..end]
  {
    hide UnitBytes, Header;
    UnitBytesLength(wide + wide);
  }

  lemma WrappedLength(units: nat)
    ensures AsU16(2 * units) == 2 * (units % 0x8000)
  {
  }

  /** The parser reads the print name where the header says it is, whatever follows the buffer's content.
      Past 32767 units the 16-bit fields have wrapped and it reads from the middle of the names. */
  lemma ParseOfLayout(wide: seq<Unit>, tail: seq<Byte>)
    ensures var r := |wide| % 0x8000;
            Parse(Layout(wide) + tail) == Ok(Replace(DecodeLossy((wide + wide)[r..2 * r]), '\\', '/'))
  {
    hide UnitBytes, BytesUnits, DecodeLossy, Replace, Header, Layout, U16At, U32At, AsU16;
    var buffer, r := Layout(wide) + tail, |wide| % 0x8000;
    LayoutParts(wide, tail, 2 * r, 4 * r);
    FieldsOfBuffer(buffer, |wide|);
    WrappedLength(|wide|);
    UnitsOfSlice(wide + wide, r, 2 * r);
  }

  /** Parsing what was written gives the target back, with `/` for every separator, exactly when the target
      has at most 32767 units. */
  lemma RoundTrip(target: string, tail: seq<Byte>)
    ensures Parse(Layout(Wide(target)) + tail) == Ok(Replace(target, '\\', '/')) <==> |Wide(target)| <= 0x7FFF
  {
    hide Layout, Parse, Encode, DecodeLossy, Replace;
    var wide, backslashed := Wide(target), Replace(target, '/', '\\');
    var r := |wide| % 0x8000;
    var read := (wide + wide)[r..2 * r];
    ParseOfLayout(wide, tail);
    if |wide| <= 0x7FFF {
      assert read == wide;
      DecodeOfEncode(backslashed);
      ReplaceBack(target, '/', '\\');
    } else {
      LossyKeepsLength(read);
      ReplaceKeepsLength(DecodeLossy(read), '\\', '/');
      ReplaceKeepsLength(target, '\\', '/');
      ReplaceKeepsLength(target, '/', '\\');
      assert |Encode(Replace(target, '\\', '/'))| == |wide| != r;
    }
  }

  /** What is written has no slash in it, a backslash wherever the target had either separator, and every other
      character of the target in its place. */
  lemma WideSeparators(target: string)
    ensures 0x2F !in Wide(target)
    ensures 0x5C in Wide(target) <==> '/' in target || '\\' in target
    ensures exists written ::
              && Wide(target) == Encode(written) && |written| == |target|
              && forall i | 0 <= i < |target| :: written[i] == if target[i] == '/' then '\\' else target[i]
  {
    var written := Replace(target, '/', '\\');
    ReplaceReplaces(target, '/', '\\');
    UnitOfChar(written, '/');
    UnitOfChar(written, '\\');
    assert (exists i :: 0 <= i < |written| && written[i] == '\\')
           <==> (exists i :: 0 <= i < |target| && (target[i] == '/' || target[i] == '\\'));
  }

  // ----- The parser on any buffer at all -----

  /** The buffer begins with the tag 0xA000000C, lowest byte first, and is long enough for the header. */
  predicate Tagged(buffer: seq<Byte>) {
    |buffer| >= 20 && buffer[..4] == [0x0C, 0x00, 0x00, 0xA0]
  }

  /** Exactly when the parser fails, and how: bytes 12 and 13 hold the offset of the print name from byte 20,
      and bytes 14 and 15 its length. */
  lemma ParseFails(buffer: seq<Byte>)
    ensures Parse(buffer) == Err(NotSupported) <==> !Tagged(buffer)
    ensures Parse(buffer) == Err(InvalidParameter) <==>
              Tagged(buffer)
              && (20 + (buffer[12] as int + 256 * buffer[13] as int) + (buffer[14] as int + 256 * buffer[15] as int) > |buffer| || buffer[14] % 2 == 1)
  {
    hide DecodeLossy, BytesUnits;
    if |buffer| >= 20 {
      assert buffer[..4] == [buffer[0], buffer[1], buffer[2], buffer[3]];
      assert (buffer[14] as int + 256 * buffer[15] as int) % 2 == buffer[14] % 2;
    }
  }

  /** What it returns when it does not fail: a text of as many units as the length says, without backslashes. */
  lemma ParseReturns(buffer: seq<Byte>)
    requires Parse(buffer).Ok?
    ensures '\\' !in Parse(buffer).value
    ensures 2 * |Encode(Parse(buffer).value)| == buffer[14] as int + 256 * buffer[15] as int
  {
    hide DecodeLossy, Encode;
    var start, length := 20 + U16At(buffer, 12), U16At(buffer, 14);
    var text := DecodeLossy(BytesUnits(buffer[start..start + length]));
    LossyKeepsLength(BytesUnits(buffer[start..start + length]));
    ReplaceKeepsLength(text, '\\', '/');
    ReplaceReplaces(text, '\\', '/');
  }

  /** Whoever wrote the buffer, a name at the print offset is what is read, with `/` for its backslashes. */
  lemma ParseReadsPrintName(header: seq<Byte>, gap: seq<Byte>, name: string, tail: seq<Byte>)
    requires |header| == 20 && header[..4] == [0x0C, 0x00, 0x00, 0xA0]
    requires header[12] as int + 256 * header[13] as int == |gap| && header[14] as int + 256 * header[15] as int == 2 * |Encode(name)|
    ensures Parse(header + gap + UnitBytes(Encode(name)) + tail) == Ok(Replace(name, '\\', '/'))
  {
    hide DecodeLossy, Encode, UnitBytes, BytesUnits, Replace;
    var units := Encode(name);
    var buffer := header + gap + UnitBytes(units) + tail;
    UnitBytesLength(units);
    assert buffer[..20] == header;
    assert buffer[..4] == header[..4];
    assert buffer[12] == header[12] && buffer[13] == header[13] && buffer[14] == header[14] && buffer[15] == header[15];
    ParseFails(buffer);
    var start := 20 + |gap|;
    assert buffer[start..start + 2 * |units|] == UnitBytes(units)[2 * 0..2 * |units|];
    UnitsOfSlice(units, 0, |units|);
    assert units[0..|units|] == units;
    DecodeOfEncode(name);
  }

  /** A target without backslashes comes back as itself. */
  lemma RoundTripPlain(target: string, tail: seq<Byte>)
    requires '\\' !in target && |Wide(target)| <= 0x7FFF
    ensures Parse(Layout(Wide(target)) + tail) == Ok(target)
  {
    RoundTrip(target, tail);
    assert Replace(target, '\\', '/') == target;
  }

  /** A reader that follows the substitute-name fields sees the target with backslashes. */
  lemma SubstituteName(target: string)
    requires |Wide(target)| <= 0x7FFF
    ensures var b := Layout(Wide(target));
            var start, length := HEADER + U16At(b, 8), U16At(b, 10);
            start + length <= |b| && DecodeLossy(BytesUnits(b[start..start + length])) == Replace(target, '/', '\\')
  {
    hide Header, UnitBytes, Encode, DecodeLossy, BytesUnits, Layout, U16At, U32At;
    var wide := Wide(target);
    var b := Layout(wide);
    assert b == b + [];
    LayoutParts(wide, [], 0, 2 * |wide|);
    FieldsOfBuffer(b, |wide|);
    UnitsOfSlice(wide + wide, 0, |wide|);
    assert (wide + wide)[0..|wide|] == wide;
    DecodeOfEncode(Replace(target, '/', '\\'));
  }

  /** The data-length field counts everything after the first eight bytes exactly up to 16380 units. */
  lemma DataLength(wide: seq<Unit>)
    ensures |Layout(wide)| == TotalBytes(wide)
    ensures U16At(Layout(wide), 4) == TotalBytes(wide) - 8 <==> |wide| <= 16380
  {
    hide Header, UnitBytes, Layout, U16At, U32At;
    assert Layout(wide) == Layout(wide) + [];
    LayoutParts(wide, [], 0, 0);
    FieldsOfBuffer(Layout(wide), |wide|);
  }

  // ----- The writer -----

  /** `buffer[at..at + bytes.len()].copy_from_slice(bytes)` */
  method CopyInto(buffer: array<Byte>, at: nat, bytes: seq<Byte>)
    requires at + |bytes| <= buffer.Length
    modifies buffer
    ensures forall i | 0 <= i < buffer.Length ::
              buffer[i] == if at <= i < at + |bytes| then bytes[i - at] else old(buffer[i])
  {
    forall i | 0 <= i < |bytes| {
      buffer[at + i] := bytes[i];
    }
  }

  method WriteSymlinkReparse(target: string, buffer: array<Byte>) returns (reply: Result<nat, Error>)
    modifies buffer
    ensures reply == if buffer.Length < TotalBytes(Wide(target)) then Err(InvalidParameter) else Ok(TotalBytes(Wide(target)))
    ensures buffer[..] == if reply.Ok? then Layout(Wide(target)) + old(buffer[..])[reply.value..] else old(buffer[..])
  {
    hide Header, UnitBytes, Wide;
    var wide := Wide(target);
    var pathBytes := |wide| * 2;
    var total := HEADER + pathBytes * 2;
    if buffer.Length < total {
      return Err(InvalidParameter);
    }
    WriteHeader(buffer, pathBytes, total);
    WriteUnits(buffer, HEADER, wide + wide);
    UnitBytesLength(wide + wide);
    assert buffer[..] == Header(|wide|) + UnitBytes(wide + wide) + old(buffer[..])[total..];
    reply := Ok(total);
  }

  /** Clears the part to be written and fills in the fields one by one. */
  method WriteHeader(buffer: array<Byte>, pathBytes: nat, total: nat)
    requires pathBytes % 2 == 0 && HEADER <= total == HEADER + 2 * pathBytes <= buffer.Length
    modifies buffer
    ensures forall i | 0 <= i < HEADER :: buffer[i] == Header(pathBytes / 2)[i]
    ensures forall i | total <= i < buffer.Length :: buffer[i] == old(buffer[i])
  {
    hide AsU16, Le16;
    CopyInto(buffer, 0, seq(total, i => 0));
    WriteDataFields(buffer, AsU16(12 + pathBytes * 2));
    WriteNameFields(buffer, AsU16(pathBytes));
    HeaderBytes(pathBytes / 2);
  }

  lemma HeaderBytes(units: nat)
    ensures forall i | 0 <= i < HEADER ::
              Header(units)[i] == if 10 <= i < 16 then Le16(AsU16(2 * units))[i % 2]
                                  else if 16 <= i then Le32(1)[i - 16]
                                  else if 4 <= i < 6 then Le16(AsU16(12 + 4 * units))[i - 4]
                                  else if i < 4 then Le32(TAG_SYMLINK)[i] else 0
  {
  }

  /** The tag and the data length. */
  method WriteDataFields(buffer: array<Byte>, data: Unit)
    requires HEADER <= buffer.Length
    modifies buffer
    ensures forall i | 0 <= i < buffer.Length ::
              buffer[i] == if i < 4 then Le32(TAG_SYMLINK)[i] else if i < 6 then Le16(data)[i - 4] else old(buffer[i])
  {
    CopyInto(buffer, 0, Le32(TAG_SYMLINK));
    CopyInto(buffer, 4, Le16(data));
  }

  /** The offset and length of both names, and the flag. */
  method WriteNameFields(buffer: array<Byte>, path: Unit)
    requires HEADER <= buffer.Length
    modifies buffer
    ensures forall i | 0 <= i < buffer.Length ::
              buffer[i] == if 10 <= i < 16 then Le16(path)[i % 2] else if 16 <= i < 20 then Le32(1)[i - 16] else old(buffer[i])
  {
    CopyInto(buffer, 10, Le16(path));
    CopyInto(buffer, 12, Le16(path));
    CopyInto(buffer, 14, Le16(path));
    CopyInto(buffer, 16, Le32(1));
  }

  /** The loop that writes the units two bytes at a time. */
  method WriteUnits(buffer: array<Byte>, at: nat, units: seq<Unit>)
    requires at + 2 * |units| <= buffer.Length
    modifies buffer
    ensures |UnitBytes(units)| == 2 * |units|
    ensures forall i | 0 <= i < buffer.Length ::
              buffer[i] == if at <= i < at + 2 * |units| then UnitBytes(units)[i - at] else old(buffer[i])
  {
    hide UnitBytes;
    UnitBytesLength(units);
    var index := 0;
    while index < |units|
      invariant 0 <= index <= |units|
      invariant forall i | 0 <= i < buffer.Length ::
                  buffer[i] == if at <= i < at + 2 * index then UnitBytes(units)[i - at] else old(buffer[i])
    {
      UnitBytesAt(units, index);
      CopyInto(buffer, at + index * 2, Le16(units[index]));
      index := index + 1;
    }
  }
}
