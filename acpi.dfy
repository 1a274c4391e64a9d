/** The fixed-layout binary record of the kernel's generic-netlink ACPI event
    (`struct acpi_genl_event`): a 20-byte zero-padded device-class C string,
    a 16-byte zero-padded bus-id C string, then the event type and the event
    data as 32-bit unsigned integers; 44 bytes in all. The integers are written
    least significant byte first: the source writes the host's native byte
    order, and the model fixes little-endian. Text is kept as bytes; a string read back must be UTF-8. */
module Acpi {
  import opened Wrappers
  import opened Primitives

  const DeviceClassWidth: nat := 20
  const BusIdWidth: nat := 16
  const U32Width: nat := 4
  /** `AcpiGenlAttr::Event`: the attribute that carries the record. */
  const EventAttr: u16 := 1

  datatype DeviceClass = DeviceClass(value: seq<byte>) {
    /** `DeviceClass::size`: the constant type size, whatever the text. */
    function Size(): (r: nat)
      ensures r == DeviceClassWidth
    {
      DeviceClassTypeSize().value
    }
  }

  datatype BusId = BusId(value: seq<byte>) {
    /** `BusId::size`: the constant type size, whatever the text. */
    function Size(): (r: nat)
      ensures r == BusIdWidth
    {
      BusIdTypeSize().value
    }
  }

  datatype AcpiEvent = AcpiEvent(deviceClass: DeviceClass, busId: BusId, eventType: u32, eventData: u32)

  /** Serialization failures. `SliceOutOfRange` stands for the panic of a
      sub-slice taken past the end of the buffer. */
  datatype SerError = BufferNotFilled | UnexpectedEob | SliceOutOfRange

  /** Deserialization failures. `SliceOutOfRange` stands for the panic of a
      sub-slice taken past the end of the buffer. */
  datatype DeError = BufferNotParsed | UnexpectedEob | NoNullByte | InvalidUtf8 | SliceOutOfRange

  // ---------------------------------------------------------------- sizes

  /** `DeviceClass::type_size`: the field is known to be 20 bytes wide. */
  function DeviceClassTypeSize(): (r: Option<nat>)
    ensures r == Some(20)
  {
    Some(DeviceClassWidth)
  }

  /** `BusId::type_size`: the field is known to be 16 bytes wide. */
  function BusIdTypeSize(): (r: Option<nat>)
    ensures r == Some(16)
  {
    Some(BusIdWidth)
  }

  /** `u32::type_size`: four bytes. */
  function U32TypeSize(): (r: Option<nat>)
    ensures r == Some(4)
  {
    Some(U32Width)
  }

  /** One step of the `and_then` chain in `AcpiEvent::type_size`: `count`
      more fields of size `size` added to the size so far, when both are known. */
  function AndThenAdd(acc: Option<nat>, size: Option<nat>, count: nat): (r: Option<nat>)
    ensures r.Some? <==> acc.Some? && size.Some?
    ensures r.Some? ==> r.value == acc.value + size.value * count
  {
    match acc
    case None => None
    case Some(a) =>
      match size
      case None => None
      case Some(s) => Some(a + s * count)
  }

  /** `AcpiEvent::type_size`: the field sizes added up, 20 + 16 + 2 * 4. */
  function AcpiEventTypeSize(): (r: Option<nat>)
    ensures r == Some(44)
  {
    AndThenAdd(AndThenAdd(DeviceClassTypeSize(), BusIdTypeSize(), 1), U32TypeSize(), 2)
  }

  /** `AcpiEvent::size`: the same for every event, and equal to the type size. */
  function AcpiEventSize(e: AcpiEvent): (r: nat)
    ensures Some(r) == AcpiEventTypeSize()
  {
    e.deviceClass.Size() + e.busId.Size() + U32Width + U32Width
  }

  // ---------------------------------------------------------------- bytes

  predicate IsContinuation(b: byte) {
    0x80 <= b <= 0xBF
  }

  /** Well-formed UTF-8 (the table of section 4 of RFC 3629), the check that
      turning bytes into a Rust `String` makes. */
  predicate ValidUtf8(b: seq<byte>)
    decreases |b|
  {
    if |b| == 0 then true
    else if b[0] <= 0x7F then ValidUtf8(b[1..])
    else if 0xC2 <= b[0] <= 0xDF then
      |b| >= 2 && IsContinuation(b[1]) && ValidUtf8(b[2..])
    else if b[0] == 0xE0 then
      |b| >= 3 && 0xA0 <= b[1] <= 0xBF && IsContinuation(b[2]) && ValidUtf8(b[3..])
    else if (0xE1 <= b[0] <= 0xEC) || (0xEE <= b[0] <= 0xEF) then
      |b| >= 3 && IsContinuation(b[1]) && IsContinuation(b[2]) && ValidUtf8(b[3..])
    else if b[0] == 0xED then
      |b| >= 3 && 0x80 <= b[1] <= 0x9F && IsContinuation(b[2]) && ValidUtf8(b[3..])
    else if b[0] == 0xF0 then
      |b| >= 4 && 0x90 <= b[1] <= 0xBF && IsContinuation(b[2]) && IsContinuation(b[3]) && ValidUtf8(b[4..])
    else if 0xF1 <= b[0] <= 0xF3 then
      |b| >= 4 && IsContinuation(b[1]) && IsContinuation(b[2]) && IsContinuation(b[3]) && ValidUtf8(b[4..])
    else if b[0] == 0xF4 then
      |b| >= 4 && 0x80 <= b[1] <= 0x8F && IsContinuation(b[2]) && IsContinuation(b[3]) && ValidUtf8(b[4..])
    else false
  }

  function Zeros(n: nat): (r: seq<byte>)
    ensures |r| == n && forall i :: 0 <= i < n ==> r[i] == 0
  {
    seq(n, _ => 0)
  }

  function U32ToBytes(x: u32): (r: seq<byte>)
    ensures |r| == U32Width
  {
    [x % 0x100, (x / 0x100) % 0x100, (x / 0x1_0000) % 0x100, x / 0x100_0000]
  }

  function U32FromBytes(b: seq<byte>): u32
    requires |b| == U32Width
  {
    b[0] as int + 0x100 * b[1] as int + 0x1_0000 * b[2] as int + 0x100_0000 * b[3] as int
  }

  /** The four-byte form of a `u32` is a bijection: both round trips hold. */
  lemma U32RoundTrip(x: u32)
    ensures U32FromBytes(U32ToBytes(x)) == x
  {
    var b := U32ToBytes(x);
    assert x / 0x1_0000 == (x / 0x100) / 0x100;
    assert x / 0x100_0000 == (x / 0x1_0000) / 0x100;
    assert x / 0x1_0000 == 0x100 * b[3] as int + b[2] as int;
    assert x / 0x100 == 0x100 * (x / 0x1_0000) + b[1] as int;
    assert x == 0x100 * (x / 0x100) + b[0] as int;
  }

  lemma U32BytesRoundTrip(b: seq<byte>)
    requires |b| == U32Width
    ensures U32ToBytes(U32FromBytes(b)) == b
  {
    var x := U32FromBytes(b);
    var q1 := b[1] as int + 0x100 * b[2] as int + 0x1_0000 * b[3] as int;
    var q2 := b[2] as int + 0x100 * b[3] as int;
    assert x == b[0] as int + 0x100 * q1;
    assert q1 == b[1] as int + 0x100 * q2;
    assert x % 0x100 == b[0] && x / 0x100 == q1;
    assert q1 % 0x100 == b[1] && q1 / 0x100 == q2;
    assert q2 % 0x100 == b[2] && q2 / 0x100 == b[3];
    assert x / 0x1_0000 == q1 / 0x100;
    assert x / 0x100_0000 == q2 / 0x100;
  }

  /** `Iterator::position` for one byte value: the index of its first occurrence. */
  function Position(s: seq<byte>, x: byte): (r: Option<nat>)
    ensures r.Some? ==> r.value < |s| && s[r.value] == x && x !in s[..r.value]
    ensures r.None? ==> x !in s
  {
    if |s| == 0 then None
    else if s[0] == x then Some(0)
    else
      match Position(s[1..], x)
      case None => None
      case Some(k) =>
        assert s[..k + 1] == [s[0]] + s[1..][..k];
        Some(k + 1)
  }

  /** Only the first occurrence is found. */
  lemma PositionUnique(s: seq<byte>, x: byte, p: nat)
    requires p < |s| && s[p] == x && x !in s[..p]
    ensures Position(s, x) == Some(p)
  {
  }

  // ---------------------------------------------------------------- decoding

  /** neli's `String::deserialize` on a zero-terminated buffer: the bytes
      before the terminator, provided they are UTF-8. */
  function StringDeserialize(mem: seq<byte>): (r: Result<seq<byte>, DeError>)
    requires |mem| > 0
    ensures r.Ok? <==> ValidUtf8(mem[..|mem| - 1])
    ensures r.Ok? ==> r.value + [mem[|mem| - 1]] == mem
    ensures r.Err? ==> r.error == InvalidUtf8
  {
    var text := mem[..|mem| - 1];
    if ValidUtf8(text) then Ok(text) else Err(InvalidUtf8)
  }

  /** The body that `DeviceClass::deserialize` and `BusId::deserialize` share,
      for a field `width` bytes wide. */
  function DeserializeCString(mem: seq<byte>, width: nat): (r: Result<seq<byte>, DeError>)
    ensures |mem| > width ==> r == Err(BufferNotParsed)
    ensures |mem| < width ==> r == Err(DeError.UnexpectedEob)
    ensures |mem| == width && 0 !in mem ==> r == Err(NoNullByte)
    ensures r.Ok? ==> |mem| == width && |r.value| < width && mem[..|r.value| + 1] == r.value + [0]
    ensures r.Ok? ==> 0 !in r.value && ValidUtf8(r.value)
  {
    if |mem| > width then Err(BufferNotParsed)
    else if |mem| < width then Err(DeError.UnexpectedEob)
    else
      match Position(mem, 0)
      case None => Err(NoNullByte)
      case Some(p) =>
        assert mem[..p + 1][..p] == mem[..p];
        StringDeserialize(mem[..p + 1])
  }

  /** A field decodes to `t` exactly when the region is `width` bytes, starts
      with `t` and a zero byte, `t` holds no zero byte and is UTF-8: the text is
      the bytes before the first zero byte, whatever follows it. */
  lemma DeserializeCStringIff(mem: seq<byte>, width: nat, t: seq<byte>)
    ensures DeserializeCString(mem, width) == Ok(t) <==>
      |mem| == width && |t| < width && mem[..|t| + 1] == t + [0] && 0 !in t && ValidUtf8(t)
  {
    if |mem| == width && |t| < width && mem[..|t| + 1] == t + [0] && 0 !in t && ValidUtf8(t) {
      assert mem[..|t|] == t by {
        assert mem[..|t|] == mem[..|t| + 1][..|t|];
      }
      assert mem[|t|] == mem[..|t| + 1][|t|];
      PositionUnique(mem, 0, |t|);
      assert mem[..|t| + 1][..|t|] == t;
    }
  }

  /** `DeviceClass::deserialize`. */
  function DeserializeDeviceClass(mem: seq<byte>): (r: Result<DeviceClass, DeError>)
    ensures |mem| > DeviceClassWidth ==> r == Err(BufferNotParsed)
    ensures |mem| < DeviceClassWidth ==> r == Err(DeError.UnexpectedEob)
    ensures |mem| == DeviceClassWidth && 0 !in mem ==> r == Err(NoNullByte)
    ensures r.Ok? ==> DeserializeCString(mem, DeviceClassWidth) == Ok(r.value.value)
  {
    match DeserializeCString(mem, DeviceClassWidth)
    case Ok(t) => Ok(DeviceClass(t))
    case Err(e) => Err(e)
  }

  /** `BusId::deserialize`. */
  function DeserializeBusId(mem: seq<byte>): (r: Result<BusId, DeError>)
    ensures |mem| > BusIdWidth ==> r == Err(BufferNotParsed)
    ensures |mem| < BusIdWidth ==> r == Err(DeError.UnexpectedEob)
    ensures |mem| == BusIdWidth && 0 !in mem ==> r == Err(NoNullByte)
    ensures r.Ok? ==> DeserializeCString(mem, BusIdWidth) == Ok(r.value.value)
  {
    match DeserializeCString(mem, BusIdWidth)
    case Ok(t) => Ok(BusId(t))
    case Err(e) => Err(e)
  }

  /** `AcpiEvent::deserialize`: the fields decoded in layout order from
      consecutive sub-slices of their type sizes; a buffer left over afterwards
      is `BufferNotParsed`. */
  function Deserialize(mem: seq<byte>): (r: Result<AcpiEvent, DeError>)
    ensures r.Ok? ==> |mem| == 44
  {
    if |mem| < DeviceClassWidth then Err(DeError.SliceOutOfRange)
    else
      var dc :- DeserializeDeviceClass(mem[..DeviceClassWidth]);
      if |mem| < DeviceClassWidth + BusIdWidth then Err(DeError.SliceOutOfRange)
      else
        var bus :- DeserializeBusId(mem[DeviceClassWidth..DeviceClassWidth + BusIdWidth]);
        if |mem| < 44 then Err(DeError.SliceOutOfRange)
        else if |mem| != 44 then Err(BufferNotParsed)
        else Ok(AcpiEvent(dc, bus, U32FromBytes(mem[36..40]), U32FromBytes(mem[40..44])))
  }

  // ---------------------------------------------------------------- encoding

  /** Both strings fit their fields together with their terminators. */
  predicate Fits(e: AcpiEvent) {
    |e.deviceClass.value| < DeviceClassWidth && |e.busId.value| < BusIdWidth
  }

  /** An event that survives a round trip: it fits, neither string holds a
      zero byte, and both are UTF-8 (as every Rust `String` is). */
  predicate WellFormed(e: AcpiEvent) {
    && Fits(e)
    && 0 !in e.deviceClass.value && 0 !in e.busId.value
    && ValidUtf8(e.deviceClass.value) && ValidUtf8(e.busId.value)
  }

  /** A string, its terminator and zero padding up to `width` bytes. */
  function EncodeCString(s: seq<byte>, width: nat): (r: seq<byte>)
    requires |s| < width
    ensures |r| == width
  {
    s + [0] + Zeros(width - |s| - 1)
  }

  /** The record as the kernel lays it out: device class, bus id, event type,
      event data, each string zero-padded to its field. */
  function Encode(e: AcpiEvent): (r: seq<byte>)
    requires Fits(e)
    ensures |r| == AcpiEventSize(e)
  {
    EncodeCString(e.deviceClass.value, DeviceClassWidth)
      + EncodeCString(e.busId.value, BusIdWidth)
      + U32ToBytes(e.eventType)
      + U32ToBytes(e.eventData)
  }

  /** `buf` with `data` written over it from offset `off`. */
  function Overwrite(buf: seq<byte>, off: nat, data: seq<byte>): (r: seq<byte>)
    requires off + |data| <= |buf|
    ensures |r| == |buf|
    ensures forall k :: off + |data| <= k < |buf| ==> r[k] == buf[k]
  {
    buf[..off] + data + buf[off + |data|..]
  }

  lemma OverwriteAt(buf: seq<byte>, off: nat, data: seq<byte>, k: nat)
    requires off + |data| <= |buf| && k < |buf|
    ensures Overwrite(buf, off, data)[k] == if off <= k < off + |data| then data[k - off] else buf[k]
  {
  }

  /** What `AcpiEvent::serialize` does to a buffer: the outcome and the buffer
      afterwards. The fields go into consecutive sub-slices of their sizes; a
      sub-slice past the end (a short buffer) or a string too long for its
      field stops with `SliceOutOfRange`, keeping the fields already written;
      a longer buffer has every field written and is `BufferNotFilled`. */
  function SerializeEffect(e: AcpiEvent, buf: seq<byte>): (r: (Result<(), SerError>, seq<byte>))
    ensures |r.1| == |buf|
    ensures forall k :: 44 <= k < |buf| ==> r.1[k] == buf[k]
  {
    var dc := e.deviceClass.value;
    var bus := e.busId.value;
    if |buf| < DeviceClassWidth || |dc| >= DeviceClassWidth then (Err(SerError.SliceOutOfRange), buf)
    else
      var b1 := Overwrite(buf, 0, dc + [0]);
      if |buf| < 36 || |bus| >= BusIdWidth then (Err(SerError.SliceOutOfRange), b1)
      else
        var b2 := Overwrite(b1, 20, bus + [0]);
        if |buf| < 40 then (Err(SerError.SliceOutOfRange), b2)
        else
          var b3 := Overwrite(b2, 36, U32ToBytes(e.eventType));
          if |buf| < 44 then (Err(SerError.SliceOutOfRange), b3)
          else
            var b4 := Overwrite(b3, 40, U32ToBytes(e.eventData));
            (if |buf| == 44 then Ok(()) else Err(BufferNotFilled), b4)
  }

  /** Serialization succeeds exactly for a 44-byte buffer and an event that
      fits; a longer buffer is `BufferNotFilled`, anything else a slice past
      the end. */
  lemma SerializeOutcome(e: AcpiEvent, buf: seq<byte>)
    ensures SerializeEffect(e, buf).0 == Ok(()) <==> |buf| == 44 && Fits(e)
    ensures SerializeEffect(e, buf).0 == Err(BufferNotFilled) <==> |buf| > 44 && Fits(e)
    ensures SerializeEffect(e, buf).0 == Err(SerError.SliceOutOfRange) <==> |buf| < 44 || !Fits(e)
  {
  }

  /** The bytes a 44-byte buffer must hold to decode to `e`: each string with
      its terminator at the start of its field, and the two integers. */
  ghost predicate Carries(mem: seq<byte>, e: AcpiEvent)
    requires |mem| == 44 && Fits(e)
  {
    var dc := e.deviceClass.value;
    var bus := e.busId.value;
    && mem[..|dc| + 1] == dc + [0]
    && mem[20..20 + |bus| + 1] == bus + [0]
    && mem[36..40] == U32ToBytes(e.eventType)
    && mem[40..44] == U32ToBytes(e.eventData)
  }

  /** Decoding is characterised completely: a buffer decodes to `e` exactly
      when it is 44 bytes long, `e` is well formed and the buffer carries `e`;
      the padding after each terminator is never read. */
  lemma DeserializeIff(mem: seq<byte>, e: AcpiEvent)
    ensures Deserialize(mem) == Ok(e) <==> |mem| == 44 && WellFormed(e) && Carries(mem, e)
  {
    var dc := e.deviceClass.value;
    var bus := e.busId.value;
    if |mem| == 44 && Fits(e) {
      var f1 := mem[..20];
      var f2 := mem[20..36];
      assert f1[..|dc| + 1] == mem[..|dc| + 1];
      assert f2[..|bus| + 1] == mem[20..20 + |bus| + 1];
      DeserializeCStringIff(f1, DeviceClassWidth, dc);
      DeserializeCStringIff(f2, BusIdWidth, bus);
      U32RoundTrip(e.eventType);
      U32RoundTrip(e.eventData);
      U32BytesRoundTrip(mem[36..40]);
      U32BytesRoundTrip(mem[40..44]);
      if Deserialize(mem) == Ok(e) {
        assert DeserializeCString(f1, DeviceClassWidth) == Ok(dc);
        assert DeserializeCString(f2, BusIdWidth) == Ok(bus);
      }
    }
  }

  /** The zero-padded encoding carries the event. */
  lemma EncodeCarries(e: AcpiEvent)
    requires Fits(e)
    ensures Carries(Encode(e), e)
  {
    var dc := e.deviceClass.value;
    var bus := e.busId.value;
    var m := Encode(e);
    var c1 := EncodeCString(dc, DeviceClassWidth);
    var c2 := EncodeCString(bus, BusIdWidth);
    assert m == c1 + c2 + U32ToBytes(e.eventType) + U32ToBytes(e.eventData);
    assert m[..|dc| + 1] == c1[..|dc| + 1] == dc + [0];
    assert m[20..20 + |bus| + 1] == c2[..|bus| + 1] == bus + [0];
  }

  /** Round trip: a well-formed event decodes from its encoding. */
  lemma DeserializeEncode(e: AcpiEvent)
    requires WellFormed(e)
    ensures Deserialize(Encode(e)) == Ok(e)
  {
    EncodeCarries(e);
    DeserializeIff(Encode(e), e);
  }

  /** Serializing into a zeroed 44-byte buffer leaves exactly the encoding. */
  lemma SerializeZeroed(e: AcpiEvent)
    requires Fits(e)
    ensures SerializeEffect(e, Zeros(44)) == (Ok(()), Encode(e))
  {
    var dc := e.deviceClass.value;
    var bus := e.busId.value;
    var b4 := SerializeEffect(e, Zeros(44)).1;
    var m := Encode(e);
    var c1 := EncodeCString(dc, DeviceClassWidth);
    var c2 := EncodeCString(bus, BusIdWidth);
    assert m[..20] == c1 && m[20..36] == c2;
    assert m[36..40] == U32ToBytes(e.eventType) && m[40..] == U32ToBytes(e.eventData);
    forall k | 0 <= k < 44 ensures b4[k] == m[k] {
      if k < 20 {
        assert m[k] == c1[k];
      } else if k < 36 {
        assert m[k] == c2[k - 20];
      } else if k < 40 {
        assert m[k] == m[36..40][k - 36];
      } else {
        assert m[k] == m[40..][k - 40];
      }
      var b1 := Overwrite(Zeros(44), 0, dc + [0]);
      var b2 := Overwrite(b1, 20, bus + [0]);
      var b3 := Overwrite(b2, 36, U32ToBytes(e.eventType));
      OverwriteAt(Zeros(44), 0, dc + [0], k);
      OverwriteAt(b1, 20, bus + [0], k);
      OverwriteAt(b2, 36, U32ToBytes(e.eventType), k);
      OverwriteAt(b3, 40, U32ToBytes(e.eventData), k);
    }
    assert b4 == m;
  }

  /** Round trip through any 44-byte buffer: whatever the buffer held before,
      a well-formed event serialized into it decodes back to itself. */
  lemma SerializeDeserialize(e: AcpiEvent, buf: seq<byte>)
    requires WellFormed(e) && |buf| == 44
    ensures Deserialize(SerializeEffect(e, buf).1) == Ok(e)
  {
    var dc := e.deviceClass.value;
    var bus := e.busId.value;
    var b1 := Overwrite(buf, 0, dc + [0]);
    var b2 := Overwrite(b1, 20, bus + [0]);
    var b3 := Overwrite(b2, 36, U32ToBytes(e.eventType));
    var b4 := Overwrite(b3, 40, U32ToBytes(e.eventData));
    assert b4 == SerializeEffect(e, buf).1;
    assert b4[..|dc| + 1] == dc + [0] by {
      forall k | 0 <= k < |dc| + 1 ensures b4[k] == (dc + [0])[k] {
        OverwriteAt(buf, 0, dc + [0], k);
        OverwriteAt(b1, 20, bus + [0], k);
        OverwriteAt(b2, 36, U32ToBytes(e.eventType), k);
        OverwriteAt(b3, 40, U32ToBytes(e.eventData), k);
      }
    }
    assert b4[20..20 + |bus| + 1] == bus + [0] by {
      forall k | 0 <= k < |bus| + 1 ensures b4[20 + k] == (bus + [0])[k] {
        OverwriteAt(b1, 20, bus + [0], 20 + k);
        OverwriteAt(b2, 36, U32ToBytes(e.eventType), 20 + k);
        OverwriteAt(b3, 40, U32ToBytes(e.eventData), 20 + k);
      }
    }
    assert b4[36..40] == U32ToBytes(e.eventType) by {
      forall k | 0 <= k < 4 ensures b4[36 + k] == U32ToBytes(e.eventType)[k] {
        OverwriteAt(b2, 36, U32ToBytes(e.eventType), 36 + k);
        OverwriteAt(b3, 40, U32ToBytes(e.eventData), 36 + k);
      }
    }
    assert b4[40..44] == U32ToBytes(e.eventData);
    DeserializeIff(b4, e);
  }

  // ---------------------------------------------------------------- in-place serialization

  /** neli's `u32::serialize` into a four-byte sub-slice starting at `off`. */
  method SerializeU32(x: u32, mem: array<byte>, off: nat)
    requires off + U32Width <= mem.Length
    modifies mem
    ensures mem[..] == Overwrite(old(mem[..]), off, U32ToBytes(x))
  {
    var bytes := U32ToBytes(x);
    mem[off] := bytes[0];
    mem[off + 1] := bytes[1];
    mem[off + 2] := bytes[2];
    mem[off + 3] := bytes[3];
    forall k | 0 <= k < mem.Length ensures mem[..][k] == Overwrite(old(mem[..]), off, bytes)[k] {
      OverwriteAt(old(mem[..]), off, bytes, k);
    }
  }

  /** The body that `DeviceClass::serialize` and `BusId::serialize` share, for
      a field `width` bytes wide, writing into the sub-slice `mem[off..off + len]`:
      the sub-slice must be exactly `width` bytes; then the string and its
      terminator are written at its start and the rest is left as it was. */
  method SerializeCString(s: seq<byte>, width: nat, mem: array<byte>, off: nat, len: nat)
    returns (r: Result<(), SerError>)
    requires off + len <= mem.Length
    modifies mem
    ensures len > width ==> r == Err(BufferNotFilled)
    ensures len < width ==> r == Err(SerError.UnexpectedEob)
    ensures len == width && |s| >= width ==> r == Err(SerError.SliceOutOfRange)
    ensures len == width && |s| < width ==> r == Ok(())
    ensures r.Ok? ==> mem[..] == Overwrite(old(mem[..]), off, s + [0])
    ensures r.Err? ==> mem[..] == old(mem[..])
  {
    if len > width {
      return Err(BufferNotFilled);
    } else if len < width {
      return Err(SerError.UnexpectedEob);
    }
    var position := |s| + 1;
    if position > len {
      return Err(SerError.SliceOutOfRange);
    }
    var i := 0;
    while i < |s|
      invariant 0 <= i <= |s|
      invariant forall k :: 0 <= k < mem.Length ==> mem[k] == if off <= k < off + i then s[k - off] else old(mem[k])
    {
      mem[off + i] := s[i];
      i := i + 1;
    }
    mem[off + |s|] := 0;
    forall k | 0 <= k < mem.Length ensures mem[..][k] == Overwrite(old(mem[..]), off, s + [0])[k] {
      OverwriteAt(old(mem[..]), off, s + [0], k);
    }
    return Ok(());
  }

  /** `DeviceClass::serialize` into the sub-slice `mem[off..off + len]`. */
  method SerializeDeviceClass(dc: DeviceClass, mem: array<byte>, off: nat, len: nat)
    returns (r: Result<(), SerError>)
    requires off + len <= mem.Length
    modifies mem
    ensures len > DeviceClassWidth ==> r == Err(BufferNotFilled)
    ensures len < DeviceClassWidth ==> r == Err(SerError.UnexpectedEob)
    ensures len == DeviceClassWidth && |dc.value| >= DeviceClassWidth ==> r == Err(SerError.SliceOutOfRange)
    ensures len == DeviceClassWidth && |dc.value| < DeviceClassWidth ==> r == Ok(())
    ensures r.Ok? ==> mem[..] == Overwrite(old(mem[..]), off, dc.value + [0])
    ensures r.Err? ==> mem[..] == old(mem[..])
  {
    r := SerializeCString(dc.value, dc.Size(), mem, off, len);
  }

  /** `BusId::serialize` into the sub-slice `mem[off..off + len]`. */
  method SerializeBusId(bus: BusId, mem: array<byte>, off: nat, len: nat)
    returns (r: Result<(), SerError>)
    requires off + len <= mem.Length
    modifies mem
    ensures len > BusIdWidth ==> r == Err(BufferNotFilled)
    ensures len < BusIdWidth ==> r == Err(SerError.UnexpectedEob)
    ensures len == BusIdWidth && |bus.value| >= BusIdWidth ==> r == Err(SerError.SliceOutOfRange)
    ensures len == BusIdWidth && |bus.value| < BusIdWidth ==> r == Ok(())
    ensures r.Ok? ==> mem[..] == Overwrite(old(mem[..]), off, bus.value + [0])
    ensures r.Err? ==> mem[..] == old(mem[..])
  {
    r := SerializeCString(bus.value, bus.Size(), mem, off, len);
  }

  /** `AcpiEvent::serialize`: the four fields written in layout order into
      consecutive sub-slices of `mem`. */
  method Serialize(e: AcpiEvent, mem: array<byte>) returns (r: Result<(), SerError>)
    modifies mem
    ensures (r, mem[..]) == SerializeEffect(e, old(mem[..]))
  {
    var pos := 0;
    if mem.Length < pos + e.deviceClass.Size() {
      return Err(SerError.SliceOutOfRange);
    }
    r := SerializeDeviceClass(e.deviceClass, mem, pos, e.deviceClass.Size());
    if r.Err? {
      return;
    }
    pos := pos + e.deviceClass.Size();
    if mem.Length < pos + e.busId.Size() {
      return Err(SerError.SliceOutOfRange);
    }
    r := SerializeBusId(e.busId, mem, pos, e.busId.Size());
    if r.Err? {
      return;
    }
    pos := pos + e.busId.Size();
    if mem.Length < pos + U32Width {
      return Err(SerError.SliceOutOfRange);
    }
    SerializeU32(e.eventType, mem, pos);
    pos := pos + U32Width;
    if mem.Length < pos + U32Width {
      return Err(SerError.SliceOutOfRange);
    }
    SerializeU32(e.eventData, mem, pos);
    pos := pos + U32Width;
    if pos != mem.Length {
      return Err(BufferNotFilled);
    }
    return Ok(());
  }

  /** neli's `serialize(&event, false)`, as the tests call it: a zeroed buffer
      of the event's size, serialized into. */
  method SerializeToBuffer(e: AcpiEvent) returns (buf: array<byte>, r: Result<(), SerError>)
    ensures fresh(buf) && buf.Length == AcpiEventSize(e)
    ensures r.Ok? <==> Fits(e)
    ensures r.Ok? ==> buf[..] == Encode(e)
  {
    buf := new byte[AcpiEventSize(e)](_ => 0);
    assert buf[..] == Zeros(44);
    r := Serialize(e, buf);
    SerializeOutcome(e, Zeros(44));
    if r.Ok? {
      SerializeZeroed(e);
    }
  }

  // ---------------------------------------------------------------- the netlink message

  /** One netlink attribute: its type and its payload bytes. */
  datatype NlAttr = NlAttr(nlaType: u16, payload: seq<byte>)

  /** The payload of a received netlink message: a generic-netlink message
      (reduced to its attributes), an error report, an acknowledgement, or
      nothing. */
  datatype NlPayload = Payload(attrs: seq<NlAttr>) | ErrPayload(errno: int) | Ack | Empty

  datatype NlError =
    | Netlink(errno: int)
    | UnexpectedAck
    | EmptyPacket
    | AttributeNotFound
    | Malformed(deError: DeError)

  /** The first attribute of the given type. */
  function FindAttr(attrs: seq<NlAttr>, nlaType: u16): (r: Option<nat>)
    ensures r.Some? ==> r.value < |attrs| && attrs[r.value].nlaType == nlaType
    ensures r.Some? ==> forall j :: 0 <= j < r.value ==> attrs[j].nlaType != nlaType
    ensures r.None? ==> forall j :: 0 <= j < |attrs| ==> attrs[j].nlaType != nlaType
  {
    if |attrs| == 0 then None
    else if attrs[0].nlaType == nlaType then Some(0)
    else
      match FindAttr(attrs[1..], nlaType)
      case None => None
      case Some(k) => Some(k + 1)
  }

  /** `i` is the index of the first `Event` attribute. */
  ghost predicate FirstEventAttr(attrs: seq<NlAttr>, i: int) {
    0 <= i < |attrs| && attrs[i].nlaType == EventAttr && forall j :: 0 <= j < i ==> attrs[j].nlaType != EventAttr
  }

  /** `acpi_event`: only a generic-netlink payload yields an event, decoded
      from its first `Event` attribute. */
  function AcpiEventOf(msg: NlPayload): (r: Result<AcpiEvent, NlError>)
    ensures msg.ErrPayload? ==> r == Err(Netlink(msg.errno))
    ensures msg.Ack? ==> r == Err(UnexpectedAck)
    ensures msg.Empty? ==> r == Err(EmptyPacket)
    ensures r.Ok? <==> msg.Payload? && (exists i :: FirstEventAttr(msg.attrs, i) && Deserialize(msg.attrs[i].payload).Ok?)
    ensures r.Ok? ==> exists i :: FirstEventAttr(msg.attrs, i) && Deserialize(msg.attrs[i].payload) == Ok(r.value)
  {
    match msg
    case ErrPayload(errno) => Err(Netlink(errno))
    case Ack => Err(UnexpectedAck)
    case Empty => Err(EmptyPacket)
    case Payload(attrs) =>
      match FindAttr(attrs, EventAttr)
      case None =>
        assert forall k :: !FirstEventAttr(attrs, k);
        Err(AttributeNotFound)
      case Some(i) =>
        assert FirstEventAttr(attrs, i);
        assert forall k :: FirstEventAttr(attrs, k) ==> k == i;
        match Deserialize(attrs[i].payload)
        case Ok(e) => Ok(e)
        case Err(de) => Err(Malformed(de))
  }

  /** A message whose first `Event` attribute holds the encoding of a
      well-formed event yields that event. */
  lemma AcpiEventOfEncoded(before: seq<NlAttr>, e: AcpiEvent, after: seq<NlAttr>)
    requires WellFormed(e)
    requires forall j :: 0 <= j < |before| ==> before[j].nlaType != EventAttr
    ensures AcpiEventOf(Payload(before + [NlAttr(EventAttr, Encode(e))] + after)) == Ok(e)
  {
    var attrs := before + [NlAttr(EventAttr, Encode(e))] + after;
    assert attrs[|before|] == NlAttr(EventAttr, Encode(e));
    assert FindAttr(attrs, EventAttr) == Some(|before|);
    DeserializeEncode(e);
  }

  // ---------------------------------------------------------------- the byte-exact test vector

  const TestEvent := AcpiEvent(DeviceClass([65, 65, 65, 65, 65, 65]), BusId([65, 65, 65, 65, 65]), 5, 7)

  const TestBytes: seq<byte> :=
    [65, 65, 65, 65, 65, 65, 0, 0, 0, 0, 0, 0, 0, 0, 0, 0, 0, 0, 0, 0]
    + [65, 65, 65, 65, 65, 0, 0, 0, 0, 0, 0, 0, 0, 0, 0, 0]
    + [5, 0, 0, 0]
    + [7, 0, 0, 0]

  /** "AAAAAA", "AAAAA", 5, 7 encode to the pinned bytes, and the pinned bytes
      decode to that event. */
  lemma TestVector()
    ensures Fits(TestEvent) && Encode(TestEvent) == TestBytes
    ensures Deserialize(TestBytes) == Ok(TestEvent)
  {
    assert EncodeCString(TestEvent.deviceClass.value, DeviceClassWidth)
      == [65, 65, 65, 65, 65, 65, 0, 0, 0, 0, 0, 0, 0, 0, 0, 0, 0, 0, 0, 0];
    assert EncodeCString(TestEvent.busId.value, BusIdWidth)
      == [65, 65, 65, 65, 65, 0, 0, 0, 0, 0, 0, 0, 0, 0, 0, 0];
    assert U32ToBytes(5) == [5, 0, 0, 0];
    assert U32ToBytes(7) == [7, 0, 0, 0];
    DeserializeEncode(TestEvent);
  }
}
