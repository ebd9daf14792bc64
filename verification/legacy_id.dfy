/**
 * The older 15-byte identifier of `id.go`, derived from rs/xid: four bytes of seconds since the
 * epoch 1500000000, one flag byte, four machine bytes, two pid bytes and a 31-bit counter, all
 * big-endian. Its generator, the short form, the byte and UUID-style text forms and the two
 * orders.
 */
module LegacyId {
  import opened Wrappers
  import opened Bytes

  const RawLen: nat := 15
  const UuidLen: nat := 36
  /** 2017-07-14T02:40:00Z in Unix seconds. */
  const Epoch: int := 1500000000

  /** An identifier: the Go array `[15]byte`. */
  type Raw = s: seq<byte> | |s| == RawLen witness seq(RawLen, _ => 0)

  /** The four machine bytes a generator stamps on its identifiers. */
  type Machine = s: seq<byte> | |s| == 4 witness seq(4, _ => 0)

  /** `ErrInvalidID`, the only error of this format. */
  datatype Error = InvalidId

  // ---------------------------------------------------------------------------------------------
  // Layout and generator

  /** The byte layout `newID` and `fromShort` write. */
  function Layout(secs: u32, flag: byte, machine: Machine, pid: u16, incr: u32): (id: Raw) {
    BE(secs, 4) + [flag] + machine + BE(pid, 2) + BE(incr, 4)
  }

  /** `randFlag`: a random byte with its top bit set, marking the flag as not chosen by the user. */
  function RandFlag(b: byte): (f: byte)
    ensures f >= 0x80 && f % 0x80 == b % 0x80
  {
    if b >= 0x80 then b else b + 0x80
  }

  /** `randCounter`: four random bytes with the top two bits of the first cleared. */
  function RandCounter(b: seq<byte>): (c: u32)
    requires |b| == 4
    ensures c < 0x4000_0000 && c % 0x100_0000 == BEValue(b[1..])
  {
    ThreeBytes(b[1..]);
    BEValueBound(b[1..]);
    assert Pow(256, 3) == 0x100_0000;
    DivModUnique((b[0] % 0x40) as int * 0x100_0000 + BEValue(b[1..]), 0x100_0000, (b[0] % 0x40) as int, BEValue(b[1..]));
    (b[0] % 0x40) as int * 0x100_0000 + b[1] as int * 0x1_0000 + b[2] as int * 0x100 + b[3]
  }

  lemma ThreeBytes(s: seq<byte>)
    requires |s| == 3
    ensures BEValue(s) == s[0] as int * 0x1_0000 + s[1] as int * 0x100 + s[2]
  {
    assert s[..2][..1] == s[..1] && s[..1][..0] == [];
    assert Val(s[..1], 256) == s[0];
    assert Val(s[..2], 256) == s[0] as int * 0x100 + s[1];
  }

  /** Writes `Layout(secs, flag, machine, pid, incr)` field by field into a zeroed buffer. */
  method WriteLayout(secs: u32, flag: byte, machine: Machine, pid: u16, incr: u32) returns (id: Raw)
    ensures id == Layout(secs, flag, machine, pid, incr)
  {
    var buf := new byte[RawLen](_ => 0);
    PutBigEndian(buf, 0, 4, secs);
    buf[4] := flag;
    ghost var head := buf[..5];
    assert head == BE(secs, 4) + [flag];
    CopyInto(buf, 5, machine);
    PutBigEndian(buf, 9, 2, pid);
    PutBigEndian(buf, 11, 4, incr);
    assert buf[..5] == head && buf[5..9] == machine;
    assert buf[9..11] == BE(pid, 2) && buf[11..] == BE(incr, 4);
    assert buf[..] == buf[..5] + buf[5..9] + buf[9..11] + buf[11..];
    id := buf[..];
  }

  /** The generator of the legacy format: its machine bytes, pid, flag and counter. */
  class Generator {
    var machineId: Machine
    var pid: u16
    var flag: byte
    var counter: u32

    /** The default generator `init` builds from the host's machine bytes, the pid, one random
        byte for the flag and four for the starting counter. */
    constructor (machine: Machine, pid0: u16, flagByte: byte, counterBytes: seq<byte>)
      requires |counterBytes| == 4
      ensures machineId == machine && pid == pid0
      ensures flag == RandFlag(flagByte) && counter == RandCounter(counterBytes)
    {
      machineId := machine;
      pid := pid0;
      flag := RandFlag(flagByte);
      counter := RandCounter(counterBytes);
    }

    /**
     * `newID` for a time `unixSecs` seconds since 1970: the seconds since the epoch truncated to
     * 32 bits, the flag, the machine bytes, the pid, and the incremented counter with its top bit
     * cleared. The result always passes `FromBytes`.
     */
    method NewId(unixSecs: int64) returns (id: Raw)
      modifies this
      ensures machineId == old(machineId) && pid == old(pid) && flag == old(flag)
      ensures counter == (old(counter) + 1) % 0x1_0000_0000
      ensures id == Layout((unixSecs - Epoch) % 0x1_0000_0000, flag, machineId, pid, counter % 0x8000_0000)
      ensures id[11] < 0x80 && FromBytes(id) == Ok(id)
    {
      counter := (counter + 1) % 0x1_0000_0000;
      var incr := counter % 0x8000_0000;
      id := WriteLayout((unixSecs - Epoch) % 0x1_0000_0000, flag, machineId, pid, incr);
      CounterByte(incr);
    }
  }

  /** A counter below 2^31 leaves the top bit of byte 11 clear. */
  lemma CounterByte(incr: u32)
    requires incr < 0x8000_0000
    ensures BE(incr, 4)[0] < 0x80
  {
    PowFour();
    BERoundTrip(incr, 4);
    CounterRange(BE(incr, 4));
  }

  lemma PowFour()
    ensures Pow(256, 4) == 0x1_0000_0000
  {
    assert Pow(256, 2) == 0x1_0000;
    PowAdd(256, 2, 2);
  }

  // ---------------------------------------------------------------------------------------------
  // Byte form

  /** `FromBytes`: accepts exactly the 15-byte strings whose counter has its top bit clear. */
  function FromBytes(b: seq<byte>): (r: Result<Raw, Error>)
    ensures r.Ok? <==> |b| == RawLen && b[11] < 0x80
    ensures r.Ok? ==> r.value == b
    ensures r.Err? ==> r.error == InvalidId
  {
    if |b| != RawLen || b[11] >= 0x80 then Err(InvalidId) else Ok(b)
  }

  // ---------------------------------------------------------------------------------------------
  // Accessors

  /** `Time().Unix()`: the stored seconds plus the epoch, so never before the epoch and less
      than 2^32 seconds after it. */
  function UnixSeconds(id: Raw): (r: int)
    ensures Epoch <= r < Epoch + 0x1_0000_0000
  {
    CounterRange(id[..4]);
    BEValue(id[..4]) + Epoch
  }

  /** `Machine()`: the four machine bytes, the slot between the flag and the pid. */
  function MachineBytes(id: Raw): (m: Machine)
    ensures id == id[..5] + m + id[9..]
  {
    id[5..9]
  }

  /** `Pid()` (and `Port()`): bytes 9 and 10, as `binary.BigEndian.Uint16` reads them. */
  function Pid(id: Raw): (p: u16)
    ensures p == id[9] as int * 0x100 + id[10]
  {
    var s := id[9..11];
    assert s[..1] == [s[0]] && s[..1][..0] == [];
    assert Val(s[..1], 256) == s[0];
    assert BEValue(s) == s[0] as int * 0x100 + s[1];
    BEValue(s)
  }

  /** `Counter()`: bytes 11 to 14 read as an `int32`, negative when the top bit is set. */
  function Counter(id: Raw): (r: int)
    ensures -0x8000_0000 <= r < 0x8000_0000
    ensures r >= 0 <==> id[11] < 0x80
  {
    var c := BEValue(id[11..]);
    CounterRange(id[11..]);
    if c < 0x8000_0000 then c else c - 0x1_0000_0000
  }

  lemma CounterRange(s: seq<byte>)
    requires |s| == 4
    ensures BEValue(s) < 0x1_0000_0000
    ensures BEValue(s) < 0x8000_0000 <==> s[0] < 0x80
  {
    BEValueBound(s);
    PowFour();
    BEValueBound(s[1..]);
    assert Pow(256, 3) == 0x100_0000;
    ValPrepend(s[0], s[1..], 256);
    assert [s[0]] + s[1..] == s;
  }

  /** The accessors read back the fields the layout writes. */
  lemma AccessorsOfLayout(secs: u32, flag: byte, machine: Machine, pid: u16, incr: u32)
    requires incr < 0x8000_0000
    ensures var id := Layout(secs, flag, machine, pid, incr);
            UnixSeconds(id) == secs + Epoch && MachineBytes(id) == machine && Pid(id) == pid &&
            Counter(id) == incr && id[4] == flag
  {
    var id := Layout(secs, flag, machine, pid, incr);
    assert id[..4] == BE(secs, 4) && id[9..11] == BE(pid, 2) && id[11..] == BE(incr, 4);
    PowFour();
    assert Pow(256, 2) == 0x1_0000;
    BERoundTrip(secs, 4);
    BERoundTrip(pid, 2);
    BERoundTrip(incr, 4);
  }

  // ---------------------------------------------------------------------------------------------
  // Short form

  /**
   * `Short`: `int64(t)<<31 | int64(c)` for the 32-bit time `t` and counter `c`. The shift cannot
   * overflow, so the result is never negative. When the counter's top bit is set it lands on the
   * lowest time bit, which the `|` then forces to one.
   */
  function Short(id: Raw): (r: int64)
    ensures r >= 0
    ensures id[11] < 0x80 ==> r == BEValue(id[..4]) * 0x8000_0000 + BEValue(id[11..])
  {
    var t, c := BEValue(id[..4]), BEValue(id[11..]);
    CounterRange(id[..4]);
    CounterRange(id[11..]);
    if c < 0x8000_0000 then t * 0x8000_0000 + c else t / 2 * 0x1_0000_0000 + c
  }

  /** The time and counter `fromShort` recovers: `uint32(short>>31)` and the low 31 bits. */
  function ShortFields(short: int64): (r: (u32, u32))
    requires short >= 0
    ensures r.1 < 0x8000_0000 && r.0 * 0x8000_0000 + r.1 == short
  {
    (short / 0x8000_0000, short % 0x8000_0000)
  }

  /** `fromShort` as a value: an error for a negative input, otherwise the layout with time and
      counter from `short` and flag, machine and pid from the generator. */
  function FromShortOf(flag: byte, machine: Machine, pid: u16, short: int64): (r: Result<Raw, Error>)
    ensures r.Ok? <==> short >= 0
    ensures r.Err? ==> r.error == InvalidId
    ensures r.Ok? ==> r.value[4] == flag && MachineBytes(r.value) == machine && FromBytes(r.value) == Ok(r.value)
  {
    if short < 0 then Err(InvalidId)
    else
      var (t, c) := ShortFields(short);
      CounterByte(c);
      Ok(Layout(t, flag, machine, pid, c))
  }

  /** `fromShort`, writing the fields into a buffer. */
  method FromShort(g: Generator, short: int64) returns (r: Result<Raw, Error>)
    ensures r == FromShortOf(g.flag, g.machineId, g.pid, short)
  {
    if short < 0 {
      return Err(InvalidId);
    }
    var id := WriteLayout(short / 0x8000_0000, g.flag, g.machineId, g.pid, short % 0x8000_0000);
    r := Ok(id);
  }

  /** Every non-negative short form comes back from the identifier `fromShort` builds. */
  lemma ShortOfFromShort(flag: byte, machine: Machine, pid: u16, short: int64)
    requires short >= 0
    ensures FromShortOf(flag, machine, pid, short).Ok?
    ensures Short(FromShortOf(flag, machine, pid, short).value) == short
  {
    var (t, c) := ShortFields(short);
    var id := Layout(t, flag, machine, pid, c);
    AccessorsOfLayout(t, flag, machine, pid, c);
    assert id[..4] == BE(t, 4) && id[11..] == BE(c, 4);
    PowFour();
    BERoundTrip(t, 4);
    BERoundTrip(c, 4);
    CounterByte(c);
  }

  /** An identifier whose flag, machine and pid are the generator's, and whose counter has its top
      bit clear, is rebuilt exactly from its short form. */
  lemma FromShortOfShort(id: Raw)
    requires id[11] < 0x80
    ensures FromShortOf(id[4], MachineBytes(id), Pid(id), Short(id)) == Ok(id)
  {
    var t, c := BEValue(id[..4]), BEValue(id[11..]);
    CounterRange(id[..4]);
    CounterRange(id[11..]);
    DivModUnique(Short(id), 0x8000_0000, t, c);
    BEOfValue(id[..4]);
    BEOfValue(id[9..11]);
    BEOfValue(id[11..]);
    BEValueBound(id[9..11]);
    assert Pow(256, 2) == 0x1_0000;
    assert id == id[..4] + [id[4]] + id[5..9] + id[9..11] + id[11..];
  }

  // ---------------------------------------------------------------------------------------------
  // UUID-style text

  /** The 8-4-4-4-12 grouping of `UUID`: the 30 hex digits of the bytes, split 8-4-4-4-10, with
      `"00"` in front of the last group. */
  function UuidText(id: Raw): (t: seq<byte>)
    ensures |t| == UuidLen
    ensures t[8] == t[13] == t[18] == t[23] == '-' as int && t[24] == t[25] == '0' as int
    ensures t[..8] + t[9..13] + t[14..18] + t[19..23] + t[26..] == HexEncode(id)
  {
    var h := HexEncode(id);
    var dash := '-' as int;
    var t := h[..8] + [dash] + h[8..12] + [dash] + h[12..16] + [dash] + h[16..20] + [dash] +
             ['0' as int, '0' as int] + h[20..];
    assert t[..8] == h[..8] && t[9..13] == h[8..12] && t[14..18] == h[12..16];
    assert t[19..23] == h[16..20] && t[26..] == h[20..];
    assert h == h[..8] + h[8..12] + h[12..16] + h[16..20] + h[20..];
    t
  }

  /** `UUID`: hex-encodes into the buffer from position 6, then slides the groups into place
      front to back and writes the separators. */
  method Uuid(id: Raw) returns (text: seq<byte>)
    ensures text == UuidText(id)
  {
    var h := HexEncode(id);
    var buf := new byte[UuidLen](_ => 0);
    CopyInto(buf, 6, h);
    ghost var b0 := buf[..];
    assert b0[6..] == h;
    SlideGroup(buf, 0, 6, 8);
    ghost var b1 := buf[..];
    SlideGroup(buf, 9, 14, 4);
    ghost var b2 := buf[..];
    SlideGroup(buf, 14, 18, 4);
    ghost var b3 := buf[..];
    SlideGroup(buf, 19, 22, 4);
    ghost var b4 := buf[..];
    buf[24], buf[25] := '0' as int, '0' as int;
    text := buf[..];
    UuidSlides(b0, b1, b2, b3, b4, text, id);
  }

  /** `copy(b[dst:dst+n], b[src:src+n])` followed by a separator at `dst+n`. */
  function Slide(b: seq<byte>, dst: nat, src: nat, n: nat): (r: seq<byte>)
    requires dst < src && src + n <= |b|
    ensures |r| == |b|
  {
    b[..dst] + b[src..src + n] + ['-' as int] + b[dst + n + 1..]
  }

  /** One step of `UUID`, in place. */
  method SlideGroup(buf: array<byte>, dst: nat, src: nat, n: nat)
    requires dst < src && src + n <= buf.Length
    modifies buf
    ensures buf[..] == Slide(old(buf[..]), dst, src, n)
  {
    ghost var o := buf[..];
    CopyWithin(buf, dst, src, n);
    ghost var b := buf[..];
    buf[dst + n] := '-' as int;
    SlideOfCopy(o, b, dst, src, n);
  }

  lemma SlideOfCopy(o: seq<byte>, b: seq<byte>, dst: nat, src: nat, n: nat)
    requires dst < src && src + n <= |o|
    requires b == o[..dst] + o[src..src + n] + o[dst + n..]
    ensures b[dst + n := '-' as int] == Slide(o, dst, src, n)
  {
    var r := Slide(o, dst, src, n);
    forall i | 0 <= i < |o|
      ensures b[dst + n := '-' as int][i] == r[i]
    {
      if i < dst {
        assert b[i] == o[i] && r[i] == o[i];
      } else if i < dst + n {
        assert b[i] == o[i - dst + src] && r[i] == o[i - dst + src];
      } else if i > dst + n {
        assert b[i] == o[i] && r[i] == o[i];
      }
    }
  }

  /** The four slides and the two zeros of `UUID`, applied to the hex digits at position 6,
      give `UuidText`. */
  lemma UuidSlides(b0: seq<byte>, b1: seq<byte>, b2: seq<byte>, b3: seq<byte>, b4: seq<byte>,
                   b: seq<byte>, id: Raw)
    requires |b0| == UuidLen && b0[6..] == HexEncode(id)
    requires b1 == Slide(b0, 0, 6, 8) && b2 == Slide(b1, 9, 14, 4)
    requires b3 == Slide(b2, 14, 18, 4) && b4 == Slide(b3, 19, 22, 4)
    requires b == b4[24 := '0' as int][25 := '0' as int]
    ensures b == UuidText(id)
  {
    var h := HexEncode(id);
    assert forall i :: 6 <= i < UuidLen ==> b0[i] == h[i - 6] by {
      forall i | 6 <= i < UuidLen ensures b0[i] == h[i - 6] {
        assert b0[6..][i - 6] == b0[i];
      }
    }
    SlidePoint(b0, b1, 0, 6, 8);
    SlidePoint(b1, b2, 9, 14, 4);
    SlidePoint(b2, b3, 14, 18, 4);
    SlidePoint(b3, b4, 19, 22, 4);
    UuidFromPieces(b, id);
  }

  /** `Slide` position by position. */
  lemma SlidePoint(b: seq<byte>, r: seq<byte>, dst: nat, src: nat, n: nat)
    requires dst < src && src + n <= |b| && r == Slide(b, dst, src, n)
    ensures forall i :: 0 <= i < dst ==> r[i] == b[i]
    ensures forall i :: dst <= i < dst + n ==> r[i] == b[i + src - dst]
    ensures r[dst + n] == '-' as int
    ensures forall i :: dst + n < i < |b| ==> r[i] == b[i]
  {
  }

  /** A 36-byte text with the separators of `UuidText` in place and the hex digits of `id` in the
      order `UUID` leaves them is `UuidText(id)`. */
  lemma UuidFromPieces(b: seq<byte>, id: Raw)
    requires |b| == UuidLen
    requires b[8] == b[13] == b[18] == b[23] == '-' as int && b[24] == b[25] == '0' as int
    requires var h := HexEncode(id);
             && (forall i :: 0 <= i < 8 ==> b[i] == h[i])
             && (forall i :: 9 <= i < 13 ==> b[i] == h[i - 1])
             && (forall i :: 14 <= i < 18 ==> b[i] == h[i - 2])
             && (forall i :: 19 <= i < 23 ==> b[i] == h[i - 3])
             && (forall i :: 26 <= i < UuidLen ==> b[i] == h[i - 6])
    ensures b == UuidText(id)
  {
    var t := UuidText(id);
    var h := HexEncode(id);
    forall i | 0 <= i < UuidLen
      ensures b[i] == t[i]
    {
      if i < 8 {
        assert t[i] == t[..8][i];
      } else if 9 <= i < 13 {
        assert t[i] == t[9..13][i - 9];
      } else if 14 <= i < 18 {
        assert t[i] == t[14..18][i - 14];
      } else if 19 <= i < 23 {
        assert t[i] == t[19..23][i - 19];
      } else if 26 <= i {
        assert t[i] == t[26..][i - 26];
      }
    }
  }

  /** The 30 characters `FromUUID` hex-decodes: every position except the four separators and the
      two characters in front of the last group. */
  function UuidPayload(u: seq<byte>): (p: seq<byte>)
    requires |u| == UuidLen
    ensures |p| == 30
  {
    u[..8] + u[9..13] + u[14..18] + u[19..23] + u[26..]
  }

  /** `FromUUID` as a value: it succeeds exactly for 36 characters whose 30 payload characters are
      all hexadecimal digits, and returns the bytes they spell. */
  function ParseUuid(u: seq<byte>): (r: Result<Raw, Error>)
    ensures r.Ok? <==> |u| == UuidLen && forall i :: 0 <= i < 30 ==> HexNibble(UuidPayload(u)[i]).Some?
    ensures r.Ok? ==> |u| == UuidLen && Some(r.value) == HexDecode(UuidPayload(u))
  {
    if |u| != UuidLen then Err(InvalidId)
    else
      HexDecodeFails(UuidPayload(u));
      match HexDecode(UuidPayload(u))
      case None => Err(InvalidId)
      case Some(b) => Ok(b)
  }

  /** `FromUUID`: copies the text, gathers the payload groups to the front and decodes them in
      place. */
  method FromUuid(u: seq<byte>) returns (r: Result<Raw, Error>)
    ensures r == ParseUuid(u)
  {
    if |u| != UuidLen {
      return Err(InvalidId);
    }
    var text := new byte[UuidLen](i requires 0 <= i < UuidLen => u[i]);
    assert text[..8] == u[..8];
    CopyInto(text, 8, u[9..13]);
    CopyInto(text, 12, u[14..18]);
    CopyInto(text, 16, u[19..23]);
    CopyInto(text, 20, u[26..36]);
    assert text[..30] == UuidPayload(u) by {
      assert text[..8] == u[..8] && text[8..12] == u[9..13] && text[12..16] == u[14..18];
      assert text[16..20] == u[19..23] && text[20..30] == u[26..];
      assert text[..30] == text[..8] + text[8..12] + text[12..16] + text[16..20] + text[20..30];
    }
    var decoded := HexDecode(text[..30]);
    if decoded.None? {
      return Err(InvalidId);
    }
    r := Ok(decoded.value);
  }

  /** `FromUUID(UUID(id)) == id`. */
  lemma UuidRoundTrip(id: Raw)
    ensures ParseUuid(UuidText(id)) == Ok(id)
  {
    HexRoundTrip(id);
  }

  /** `FromUUID` fails exactly when the length is wrong or some payload character is not a
      hexadecimal digit. */
  lemma ParseUuidFails(u: seq<byte>)
    requires |u| == UuidLen
    ensures ParseUuid(u).Err? <==> exists i :: 0 <= i < 30 && HexNibble(UuidPayload(u)[i]).None?
  {
    HexDecodeFails(UuidPayload(u));
  }

  /** The separators and the two characters in front of the last group are never inspected. */
  lemma ParseUuidIgnoresSeparators(u: seq<byte>, v: seq<byte>)
    requires |u| == |v| == UuidLen
    requires forall i :: 0 <= i < UuidLen && i !in {8, 13, 18, 23, 24, 25} ==> u[i] == v[i]
    ensures ParseUuid(u) == ParseUuid(v)
  {
    assert UuidPayload(u) == UuidPayload(v) by {
      assert u[..8] == v[..8] && u[9..13] == v[9..13] && u[14..18] == v[14..18];
      assert u[19..23] == v[19..23] && u[26..] == v[26..];
    }
  }

  // ---------------------------------------------------------------------------------------------
  // Orders

  /** `Compare`: `bytes.Compare` of the two identifiers, zero exactly for equal identifiers and
      negated by swapping them. */
  function Compare(a: Raw, b: Raw): (r: int)
    ensures -1 <= r <= 1
    ensures r == 0 <==> a == b
    ensures Bytes.Compare(b, a) == -r
  {
    CompareZero(a, b);
    CompareSwap(a, b);
    Bytes.Compare(a, b)
  }

  /** `byMachine.Less`: machine and pid first, then time, then counter. No identifier is less than
      itself, nor than one that differs from it only in the flag byte. */
  function LessByMachine(a: Raw, b: Raw): (r: bool)
    ensures r ==> exists i :: 0 <= i < RawLen && i != 4 && a[i] != b[i]
  {
    CompareZero(a[5..11], b[5..11]);
    CompareZero(a[..4], b[..4]);
    CompareZero(a[11..], b[11..]);
    var m := Bytes.Compare(a[5..11], b[5..11]);
    if m != 0 then m < 0
    else
      var t := Bytes.Compare(a[..4], b[..4]);
      if t != 0 then t < 0 else Bytes.Compare(a[11..], b[11..]) < 0
  }

  /** The bytes `LessByMachine` compares, in the order it compares them. */
  function MachineKey(id: Raw): (k: seq<byte>)
    ensures |k| == 14
  {
    id[5..11] + id[..4] + id[11..]
  }

  /** `byMachine.Less` is the lexicographic order of the rearranged bytes. */
  lemma LessByMachineIsKeyOrder(a: Raw, b: Raw)
    ensures LessByMachine(a, b) <==> Bytes.Compare(MachineKey(a), MachineKey(b)) < 0
  {
    CompareConcat(a[5..11], b[5..11], a[..4] + a[11..], b[..4] + b[11..]);
    CompareConcat(a[..4], b[..4], a[11..], b[11..]);
    CompareZero(a[5..11], b[5..11]);
    CompareZero(a[..4], b[..4]);
    assert MachineKey(a) == a[5..11] + (a[..4] + a[11..]);
    assert MachineKey(b) == b[5..11] + (b[..4] + b[11..]);
  }

  /** `byMachine.Less` is a strict weak order: irreflexive, asymmetric and transitive, and two
      identifiers are incomparable exactly when they differ at most in the flag byte, which it
      never reads. */
  lemma LessByMachineStrictWeak(a: Raw, b: Raw, c: Raw)
    ensures !LessByMachine(a, a)
    ensures LessByMachine(a, b) ==> !LessByMachine(b, a)
    ensures !LessByMachine(a, b) && !LessByMachine(b, a) <==> MachineKey(a) == MachineKey(b)
    ensures LessByMachine(a, b) && LessByMachine(b, c) ==> LessByMachine(a, c)
  {
    LessByMachineIsKeyOrder(a, a);
    LessByMachineIsKeyOrder(a, b);
    LessByMachineIsKeyOrder(b, a);
    LessByMachineIsKeyOrder(b, c);
    LessByMachineIsKeyOrder(a, c);
    CompareZero(MachineKey(a), MachineKey(a));
    CompareSwap(MachineKey(a), MachineKey(b));
    CompareZero(MachineKey(a), MachineKey(b));
    if LessByMachine(a, b) && LessByMachine(b, c) {
      CompareTransitive(MachineKey(a), MachineKey(b), MachineKey(c));
    }
  }

  /** Two identifiers have the same `byMachine` key exactly when they agree everywhere except
      possibly the flag byte. */
  lemma SameKey(a: Raw, b: Raw)
    ensures MachineKey(a) == MachineKey(b) <==> forall i :: 0 <= i < RawLen && i != 4 ==> a[i] == b[i]
  {
    if MachineKey(a) == MachineKey(b) {
      forall i | 0 <= i < RawLen && i != 4
        ensures a[i] == b[i]
      {
        if i < 4 {
          assert a[i] == MachineKey(a)[i + 6] && b[i] == MachineKey(b)[i + 6];
        } else if i < 11 {
          assert a[i] == MachineKey(a)[i - 5] && b[i] == MachineKey(b)[i - 5];
        } else {
          assert a[i] == MachineKey(a)[i - 1] && b[i] == MachineKey(b)[i - 1];
        }
      }
    }
  }
}
