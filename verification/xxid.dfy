/**
 * The identifier record of `xxid.go`: its fields, the per-type width tables, the variable-width
 * binary form, the base-62 form built on it, the flag and short-form accessors and the JSON
 * quoting.
 */
module Xxid {
  import opened Wrappers
  import opened Bytes
  import Base62

  // ---------------------------------------------------------------------------------------------
  // Errors

  /** The error values of the package; `InvalidBase62Character` carries the offending byte. */
  datatype Error =
    | IncorrectBinaryLength
    | IncorrectBase62Length
    | IncorrectStringLength
    | InvalidStringRepr
    | InvalidJsonString
    | UnknownMachineIdType
    | InvalidBase62Character(c: byte)
    | UnsupportedMachineIdLength
      /** Reported by the corrected base-62 parser for a text whose value overflows its width. */
    | Base62Overflow

  // ---------------------------------------------------------------------------------------------
  // The record and its tables

  /** Machine ID types: Random, HostID, IPv4, IPv6, Specified4, Specified8, Specified16. */
  const Random: byte := 0
  const HostId: byte := 1
  const IPv4: byte := 2
  const IPv6: byte := 3
  const Specified4: byte := 4
  const Specified8: byte := 5
  const Specified16: byte := 6
  const MaxMachineIdType: byte := Specified16

  const MinBinEncodedLen: nat := 16
  const MinBase62EncodedLen: nat := 22
  const MaxBase62EncodedLen: nat := 38
  const MinStringEncodedLen: nat := 38

  /** The fixed 16-byte machine ID array of the record. */
  type MachineBytes = s: seq<byte> | |s| == 16 witness seq(16, _ => 0)

  /** An identifier. `mIdType` is the Go `uint8` type tag; only 0..6 are produced by the package. */
  datatype Id = Id(
    timeMsec: int64,
    pidOrPort: u16,
    counter: u16,
    flag: u16,
    mIdType: byte,
    machineId: MachineBytes)

  const ZeroId: Id := Id(0, 0, 0, 0, 0, seq(16, _ => 0))

  const MachineIdLengths: seq<nat> := [4, 4, 4, 16, 4, 8, 16]
  const BinEncodedLengths: seq<nat> := [16, 16, 16, 28, 16, 20, 28]
  const B62EncodedLengths: seq<nat> := [22, 22, 22, 38, 22, 27, 38]
  const StrEncodedLengths: seq<nat> := [38, 38, 38, 62, 38, 46, 62]

  /** `binDecodedLength`: the binary width behind each base-62 width, 0 for every other length. */
  function BinDecodedLength(n: nat): (r: nat)
    ensures r != 0 <==> n in {22, 27, 38}
    ensures r != 0 ==> r % 4 == 0 && r in BinEncodedLengths
  {
    if n == 22 then 16 else if n == 27 then 20 else if n == 38 then 28 else 0
  }

  /** The four width tables agree: a 4-byte machine ID gives 16 binary bytes, 22 base-62 and 38
      string characters; an 8-byte one 20, 27 and 46; a 16-byte one 28, 38 and 62. */
  lemma TablesAgree(t: byte)
    requires t <= MaxMachineIdType
    ensures var (m, b, e, s) := (MachineIdLengths[t], BinEncodedLengths[t], B62EncodedLengths[t],
                                 StrEncodedLengths[t]);
            || (m == 4 && b == 16 && e == 22 && s == 38)
            || (m == 8 && b == 20 && e == 27 && s == 46)
            || (m == 16 && b == 28 && e == 38 && s == 62)
    ensures BinDecodedLength(B62EncodedLengths[t]) == BinEncodedLengths[t]
  {
    match t
    case 0 => case 1 => case 2 => case 3 => case 4 => case 5 => case 6 =>
  }

  /** A known type and no stray machine bytes past the type's machine ID length: what the
      generator produces and what the text forms can carry. */
  ghost predicate WellTyped(id: Id) {
    && id.mIdType <= MaxMachineIdType
    && forall i :: MachineIdLengths[id.mIdType] <= i < 16 ==> id.machineId[i] == 0
  }

  /** An identifier the binary form can represent exactly: well typed, with a 45-bit
      non-negative time. */
  ghost predicate Canonical(id: Id) {
    WellTyped(id) && 0 <= id.timeMsec < 0x2000_0000_0000
  }

  // ---------------------------------------------------------------------------------------------
  // Accessors

  /** `MachineID()`: the first 4, 8 or 16 bytes of the machine ID array, by type. */
  function MachineId(id: Id): (r: seq<byte>)
    requires id.mIdType <= MaxMachineIdType
    ensures |r| == MachineIdLengths[id.mIdType] && |r| in {4, 8, 16}
    ensures r <= id.machineId
  {
    id.machineId[..MachineIdLengths[id.mIdType]]
  }

  /** `flag | flagMask`: the flag with its private "explicitly set" bit 15 raised. */
  function MarkFlag(f: u16): (r: u16)
    ensures r >= 0x8000 && r % 0x8000 == f % 0x8000
  {
    if f / 0x8000 % 2 == 1 then f else f + 0x8000
  }

  /** `SetFlag`: a copy of the identifier whose flag is `f | 0x8000` (bit 15 set). */
  function SetFlag(id: Id, f: u16): (r: Id)
    ensures r == id.(flag := r.flag)
    ensures r.flag >= 0x8000 && r.flag % 0x8000 == f % 0x8000
    ensures Flag(r) == f % 0x8000
  {
    id.(flag := MarkFlag(f))
  }

  /** `Flag`: zero unless bit 15 is set, otherwise the flag with bit 15 cleared. */
  function Flag(id: Id): (r: u16)
    ensures r < 0x8000
    ensures id.flag < 0x8000 ==> r == 0
    ensures id.flag >= 0x8000 ==> r + 0x8000 == id.flag
  {
    if id.flag / 0x8000 % 2 == 0 then 0 else id.flag % 0x8000
  }

  /** `t<<16 | c` on `int64`: the shift wraps in 64 bits and `c` fills the 16 zero bits it leaves. */
  function Pack(t: int, c: u16): (r: int64)
    ensures r % 0x1_0000 == c
    ensures -0x8000_0000_0000 <= t < 0x8000_0000_0000 ==> r == t * 0x1_0000 + c
  {
    PackRange(t, c);
    WrapInt64(t * 0x1_0000) + c
  }

  lemma PackRange(t: int, c: u16)
    ensures -0x8000_0000_0000_0000 <= WrapInt64(t * 0x1_0000) + c <= MaxInt64
    ensures (WrapInt64(t * 0x1_0000) + c) % 0x1_0000 == c
  {
    var w := WrapInt64(t * 0x1_0000);
    var m := t * 0x1_0000 % 0x1_0000_0000_0000_0000;
    assert m % 0x1_0000 == 0;
    assert w == m || w == m - 0x1_0000_0000_0000_0000;
    assert w % 0x1_0000 == 0;
  }

  /** `Short`: `timeMsec<<16 | counter`, the counter in the low 16 bits; without wrap-around for a
      time within the signed 48-bit range. */
  function Short(id: Id): (r: int64)
    ensures r % 0x1_0000 == id.counter
    ensures -0x8000_0000_0000 <= id.timeMsec < 0x8000_0000_0000 ==> r == id.timeMsec * 0x1_0000 + id.counter
  {
    Pack(id.timeMsec, id.counter)
  }

  /** The order in which one generator mints identifiers: by time, then by counter. */
  predicate Before(a: Id, b: Id) {
    a.timeMsec < b.timeMsec || (a.timeMsec == b.timeMsec && a.counter < b.counter)
  }

  /** Within the signed 48-bit time range the short form orders identifiers by time, then counter. */
  lemma ShortOrder(a: Id, b: Id)
    requires -0x8000_0000_0000 <= a.timeMsec < 0x8000_0000_0000
    requires -0x8000_0000_0000 <= b.timeMsec < 0x8000_0000_0000
    ensures Short(a) < Short(b) <==> Before(a, b)
  {
    if a.timeMsec < b.timeMsec {
      assert Short(a) < (a.timeMsec + 1) * 0x1_0000 <= Short(b);
    } else if b.timeMsec < a.timeMsec {
      assert Short(b) < (b.timeMsec + 1) * 0x1_0000 <= Short(a);
    }
  }

  /** Within the signed 48-bit time range the short form determines time and counter. */
  lemma ShortInjective(a: Id, b: Id)
    requires -0x8000_0000_0000 <= a.timeMsec < 0x8000_0000_0000
    requires -0x8000_0000_0000 <= b.timeMsec < 0x8000_0000_0000
    requires Short(a) == Short(b)
    ensures a.timeMsec == b.timeMsec && a.counter == b.counter
  {
    DivModUnique(Short(a), 0x1_0000, a.timeMsec, a.counter);
    DivModUnique(Short(a), 0x1_0000, b.timeMsec, b.counter);
  }

  // ---------------------------------------------------------------------------------------------
  // Binary form

  /** The 48-bit first group: the low 48 bits of `timeMsec<<3 | mIdType`. */
  function Header(id: Id): nat {
    (id.timeMsec * 8 + id.mIdType) % 0x1_0000_0000_0000
  }

  /** The binary form: header, counter, machine ID, pid or port and flag, big-endian. */
  function BinaryForm(id: Id): (b: seq<byte>)
    requires id.mIdType <= MaxMachineIdType
    ensures |b| == BinEncodedLengths[id.mIdType]
  {
    BE(Header(id), 6) + BE(id.counter, 2) + MachineId(id) + BE(id.pidOrPort, 2) + BE(id.flag, 2)
  }

  /** The value `PutUint64` receives: `uint64(timeMsec)<<3 | uint64(mIdType)`. */
  function HeaderWord(id: Id): nat
    requires id.mIdType <= MaxMachineIdType
  {
    (id.timeMsec % 0x1_0000_0000_0000_0000) * 8 % 0x1_0000_0000_0000_0000 + id.mIdType
  }

  /** Bytes 2..8 of the 64-bit word are the 48-bit header. */
  lemma HeaderOfWord(id: Id)
    requires id.mIdType <= MaxMachineIdType
    ensures BE(HeaderWord(id), 8)[2..] == BE(Header(id), 6)
  {
    var x := HeaderWord(id);
    HeaderLow(id);
    SixBytes(x);
  }

  lemma HeaderLow(id: Id)
    requires id.mIdType <= MaxMachineIdType
    ensures HeaderWord(id) % 0x1_0000_0000_0000 == Header(id)
  {
    WordMod(id.timeMsec, id.mIdType);
  }

  lemma SixBytes(x: nat)
    ensures BE(x, 8)[2..] == BE(x % 0x1_0000_0000_0000, 6)
  {
    PowBytes();
    BESuffix(x, 2, 6);
  }

  lemma PowBytes()
    ensures Pow(256, 2) == 0x1_0000
    ensures Pow(256, 4) == 0x1_0000_0000
    ensures Pow(256, 6) == 0x1_0000_0000_0000
    ensures Pow(256, 8) == 0x1_0000_0000_0000_0000
  {
    assert Pow(256, 2) == 0x1_0000;
    PowAdd(256, 2, 2);
    PowAdd(256, 4, 2);
    PowAdd(256, 4, 4);
  }

  /** Reducing modulo 2^64 and shifting left by 3 bits leave the low 48 bits unaffected. */
  lemma WordMod(t: int, ty: nat)
    ensures ((t % 0x1_0000_0000_0000_0000) * 8 % 0x1_0000_0000_0000_0000 + ty) % 0x1_0000_0000_0000
         == (t * 8 + ty) % 0x1_0000_0000_0000
  {
    var p := 0x1_0000_0000_0000;
    var a := t % 0x1_0000_0000_0000_0000;
    var q := t / 0x1_0000_0000_0000_0000;
    var b := a * 8 % 0x1_0000_0000_0000_0000;
    var q2 := a * 8 / 0x1_0000_0000_0000_0000;
    ModShift(b + ty, q2 * 0x1_0000, p);
    ModShift(t * 8 + ty, -q * 0x80000, p);
  }

  lemma ModShift(r: int, k: int, p: int)
    requires p > 0
    ensures (k * p + r) % p == r % p
  {
    DivModUnique(k * p + r, p, k + r / p, r % p);
  }

  /**
   * `encodeBinary`: writes the 64-bit header word, slides its low six bytes to the front, then
   * writes the counter, the type's share of the machine ID, pid or port, and the flag.
   */
  method EncodeBinary(id: Id) returns (b: seq<byte>)
    requires id.mIdType <= MaxMachineIdType
    ensures b == BinaryForm(id)
  {
    var out := new byte[BinEncodedLengths[id.mIdType]](_ => 0);
    WriteBinaryHead(out, id);
    ghost var head := out[..8];
    WriteBinaryMachine(out, id);
    var offset := 8 + |MachineId(id)|;
    ghost var body := out[..offset];
    PutBigEndian(out, offset, 2, id.pidOrPort);
    PutBigEndian(out, offset + 2, 2, id.flag);
    assert out[..offset] == body;
    assert out[offset..] == BE(id.pidOrPort, 2) + BE(id.flag, 2);
    assert out[..] == out[..offset] + out[offset..];
    b := out[..];
  }

  /** The first eight bytes of `encodeBinary`: the header word with its top two bytes slid out,
      then the counter. */
  method WriteBinaryHead(out: array<byte>, id: Id)
    requires id.mIdType <= MaxMachineIdType && out.Length >= 12
    modifies out
    ensures out[..8] == BE(Header(id), 6) + BE(id.counter, 2)
    ensures out[8..] == old(out[8..])
  {
    ghost var o := out[..];
    PutBigEndian(out, 0, 8, HeaderWord(id));
    ghost var s1 := out[..];
    CopyWithin(out, 0, 2, 6);
    ghost var s2 := out[..];
    PutBigEndian(out, 6, 2, id.counter);
    HeaderOfWord(id);
    HeadSteps(o, s1, s2, out[..], BE(HeaderWord(id), 8), BE(id.counter, 2));
  }

  /** The three writes of `WriteBinaryHead` on plain sequences: eight bytes `w` at the front,
      bytes 2..8 slid to 0..6, then two bytes `c` at offset 6. */
  lemma HeadSteps(o: seq<byte>, s1: seq<byte>, s2: seq<byte>, s3: seq<byte>, w: seq<byte>, c: seq<byte>)
    requires |o| >= 8 && |w| == 8 && |c| == 2
    requires s1 == o[..0] + w + o[8..]
    requires s2 == s1[..0] + s1[2..8] + s1[6..]
    requires s3 == s2[..6] + c + s2[8..]
    ensures s3[..8] == w[2..] + c && s3[8..] == o[8..]
  {
    assert s1[2..8] == w[2..];
    assert s1[8..] == o[8..];
    assert s2[..6] == w[2..];
    assert s2[8..] == s1[8..];
    assert s3[..8] == s2[..6] + c;
  }

  /** The machine ID bytes `encodeBinary` copies after the counter, as many as the type says. */
  method WriteBinaryMachine(out: array<byte>, id: Id)
    requires id.mIdType <= MaxMachineIdType && out.Length == BinEncodedLengths[id.mIdType]
    modifies out
    ensures out[..8 + |MachineId(id)|] == old(out[..8]) + MachineId(id)
    ensures out[8 + |MachineId(id)|..] == old(out[8 + |MachineId(id)|..])
  {
    TablesAgree(id.mIdType);
    var t := id.mIdType;
    if t == Random || t == HostId || t == IPv4 || t == Specified4 {
      CopyInto(out, 8, id.machineId[..4]);
    } else if t == Specified8 {
      CopyInto(out, 8, id.machineId[..8]);
    } else {
      CopyInto(out, 8, id.machineId[..16]);
    }
  }

  /** The type tag in the first six bytes of a binary form. */
  function BinaryType(src: seq<byte>): nat
    requires |src| >= 8
  {
    BEValue(src[..8]) / 0x1_0000 % 8
  }

  /**
   * `decodeBinary`: rejects a short input, then an unknown type, then a length that is not the
   * type's; otherwise reads the fields back.
   */
  function DecodeBinary(src: seq<byte>): (r: Result<Id, Error>)
    ensures |src| < MinBinEncodedLen ==> r == Err(IncorrectBinaryLength)
    ensures |src| >= MinBinEncodedLen && BinaryType(src) > MaxMachineIdType as nat ==>
              r == Err(UnknownMachineIdType)
    ensures |src| >= MinBinEncodedLen && BinaryType(src) <= MaxMachineIdType as nat ==>
              (r.Ok? <==> |src| == BinEncodedLengths[BinaryType(src)])
    ensures r.Err? ==> r.error in {IncorrectBinaryLength, UnknownMachineIdType}
  {
    if |src| < MinBinEncodedLen then Err(IncorrectBinaryLength)
    else if BinaryType(src) > MaxMachineIdType as nat then Err(UnknownMachineIdType)
    else if |src| != BinEncodedLengths[BinaryType(src)] then Err(IncorrectBinaryLength)
    else Ok(ReadFields(src))
  }

  /** The field reads of `decodeBinary` once the length and type checks have passed; the machine
      ID array keeps zeros past the type's length. */
  function ReadFields(src: seq<byte>): (id: Id)
    requires |src| >= MinBinEncodedLen && BinaryType(src) <= MaxMachineIdType as nat
    requires |src| == BinEncodedLengths[BinaryType(src)]
    ensures id.mIdType == BinaryType(src)
  {
    var tmp := BEValue(src[..8]) / 0x1_0000;
    var t := tmp % 8;
    var mlen := MachineIdLengths[t];
    FirstSix(src);
    var offset := 8 + mlen;
    TwoBytes(src[6..8]);
    TwoBytes(src[offset..offset + 2]);
    TwoBytes(src[offset + 2..offset + 4]);
    Id(
      timeMsec := tmp / 8,
      counter := BEValue(src[6..8]),
      machineId := src[8..offset] + seq(16 - mlen, _ => 0),
      pidOrPort := BEValue(src[offset..offset + 2]),
      flag := BEValue(src[offset + 2..offset + 4]),
      mIdType := t)
  }

  /** `Uint64(src[:8]) >> 16` is the big-endian value of the first six bytes. */
  lemma FirstSix(src: seq<byte>)
    requires |src| >= 8
    ensures BEValue(src[..8]) / 0x1_0000 == BEValue(src[..6]) < 0x1_0000_0000_0000
  {
    PowBytes();
    assert src[..8] == src[..6] + src[6..8];
    ValConcat(src[..6], src[6..8], 256);
    BEValueBound(src[..6]);
    BEValueBound(src[6..8]);
    DivModUnique(BEValue(src[..8]), 0x1_0000, BEValue(src[..6]), BEValue(src[6..8]));
  }

  lemma TwoBytes(s: seq<byte>)
    requires |s| == 2
    ensures BEValue(s) < 0x1_0000
  {
    BEValueBound(s);
    assert Pow(256, 2) == 0x1_0000;
  }

  /** The first eight bytes of a binary form: `PutUint64` then `>> 16` recovers the header. */
  lemma FirstWord(h: nat, c: u16)
    requires h < 0x1_0000_0000_0000
    ensures BEValue(BE(h, 6) + BE(c, 2)) / 0x1_0000 == h
  {
    PowBytes();
    ValConcat(BE(h, 6), BE(c, 2), 256);
    BERoundTrip(h, 6);
    BERoundTrip(c, 2);
    DivModUnique(BEValue(BE(h, 6) + BE(c, 2)), 0x1_0000, h, c);
  }

  /** Decoding the binary form of a canonical identifier gives it back. */
  lemma BinaryRoundTrip(id: Id)
    requires Canonical(id)
    ensures DecodeBinary(BinaryForm(id)) == Ok(id)
  {
    var b := BinaryForm(id);
    var m := MachineIdLengths[id.mIdType];
    var h := Header(id);
    PowBytes();
    assert h == id.timeMsec * 8 + id.mIdType by {
      DivBelow(id.timeMsec * 8 + id.mIdType, 0x1_0000_0000_0000);
    }
    assert b[..8] == BE(h, 6) + BE(id.counter, 2);
    assert b[6..8] == BE(id.counter, 2);
    assert b[8 + m..10 + m] == BE(id.pidOrPort, 2);
    assert b[10 + m..12 + m] == BE(id.flag, 2);
    FirstWord(h, id.counter);
    DivModUnique(h, 8, id.timeMsec, id.mIdType);
    BERoundTrip(id.counter, 2);
    BERoundTrip(id.pidOrPort, 2);
    BERoundTrip(id.flag, 2);
    assert b[8..8 + m] + seq(16 - m, _ => 0) == id.machineId;
  }

  /** Whatever `decodeBinary` accepts is the binary form of the canonical identifier it returns. */
  lemma BinaryDecodeSound(src: seq<byte>)
    requires DecodeBinary(src).Ok?
    ensures Canonical(DecodeBinary(src).value)
    ensures BinaryForm(DecodeBinary(src).value) == src
  {
    var id := ReadFields(src);
    assert DecodeBinary(src).value == id;
    var m := MachineIdLengths[id.mIdType];
    var tmp := BEValue(src[..6]);
    FirstSix(src);
    assert id.timeMsec == tmp / 8 && id.mIdType == tmp % 8;
    assert Header(id) == tmp by {
      DivBelow(tmp, 0x1_0000_0000_0000);
    }
    assert BE(Header(id), 6) == src[..6] by {
      BEOfValue(src[..6]);
    }
    assert BE(id.counter, 2) == src[6..8] by {
      BEOfValue(src[6..8]);
    }
    assert BE(id.pidOrPort, 2) == src[8 + m..10 + m] by {
      BEOfValue(src[8 + m..10 + m]);
    }
    assert BE(id.flag, 2) == src[10 + m..12 + m] by {
      BEOfValue(src[10 + m..12 + m]);
    }
    assert MachineId(id) == src[8..8 + m];
    assert |src| == 12 + m;
    assert src[..8] == src[..6] + src[6..8];
    assert src[..8 + m] == src[..8] + src[8..8 + m];
    assert src[..10 + m] == src[..8 + m] + src[8 + m..10 + m];
    assert src == src[..10 + m] + src[10 + m..12 + m];
  }

  /** Binary forms of canonical identifiers order by time first, whatever their other fields. */
  lemma BinaryOrder(a: Id, b: Id)
    requires Canonical(a) && Canonical(b) && a.timeMsec < b.timeMsec
    ensures Compare(BinaryForm(a), BinaryForm(b)) == -1
  {
    var ha, hb := Header(a), Header(b);
    DivBelow(a.timeMsec * 8 + a.mIdType, 0x1_0000_0000_0000);
    DivBelow(b.timeMsec * 8 + b.mIdType, 0x1_0000_0000_0000);
    assert ha < hb;
    var ra := BE(a.counter, 2) + MachineId(a) + BE(a.pidOrPort, 2) + BE(a.flag, 2);
    var rb := BE(b.counter, 2) + MachineId(b) + BE(b.pidOrPort, 2) + BE(b.flag, 2);
    assert BinaryForm(a) == BE(ha, 6) + ra;
    assert BinaryForm(b) == BE(hb, 6) + rb;
    PowBytes();
    BERoundTrip(ha, 6);
    BERoundTrip(hb, 6);
    CompareVal(BE(ha, 6), BE(hb, 6), 256);
    CompareConcat(BE(ha, 6), BE(hb, 6), ra, rb);
  }

  /** Binary forms of canonical identifiers of one type order as they were minted: by time, then
      by counter. */
  lemma BinaryOrderBefore(a: Id, b: Id)
    requires Canonical(a) && Canonical(b) && a.mIdType == b.mIdType && Before(a, b)
    ensures Compare(BinaryForm(a), BinaryForm(b)) == -1
  {
    if a.timeMsec < b.timeMsec {
      BinaryOrder(a, b);
    } else {
      var h := Header(a);
      assert Header(b) == h;
      var ra := MachineId(a) + BE(a.pidOrPort, 2) + BE(a.flag, 2);
      var rb := MachineId(b) + BE(b.pidOrPort, 2) + BE(b.flag, 2);
      var ca, cb := BE(a.counter, 2), BE(b.counter, 2);
      assert BinaryForm(a) == BE(h, 6) + (ca + ra);
      assert BinaryForm(b) == BE(h, 6) + (cb + rb);
      CompareConcat(BE(h, 6), BE(h, 6), ca + ra, cb + rb);
      PowBytes();
      BERoundTrip(a.counter, 2);
      BERoundTrip(b.counter, 2);
      CompareVal(ca, cb, 256);
      CompareConcat(ca, cb, ra, rb);
    }
  }

  /** Identifiers of one type whose short forms increase, as successive `New` calls produce them,
      have increasing binary and base-62 forms. */
  lemma ShortOrderIsTextOrder(a: Id, b: Id)
    requires Canonical(a) && Canonical(b) && a.mIdType == b.mIdType && Short(a) < Short(b)
    ensures Compare(BinaryForm(a), BinaryForm(b)) == -1
    ensures Compare(Base62Text(a), Base62Text(b)) == -1
  {
    ShortOrder(a, b);
    BinaryOrderBefore(a, b);
    Base62Order(a, b);
  }

  // ---------------------------------------------------------------------------------------------
  // Base-62 form

  /** The base-62 form: the binary form as one big-endian number, in 22, 27 or 38 characters. */
  function Base62Text(id: Id): (t: seq<byte>)
    requires id.mIdType <= MaxMachineIdType
    ensures |t| == B62EncodedLengths[id.mIdType]
  {
    Base62.Encode(BEValue(BinaryForm(id)), B62EncodedLengths[id.mIdType])
  }

  /** The binary form of every type fits its base-62 width. */
  lemma Base62Room(id: Id)
    requires id.mIdType <= MaxMachineIdType
    ensures |BinaryForm(id)| % 4 == 0 && B62EncodedLengths[id.mIdType] > 0
    ensures Pow(256, |BinaryForm(id)|) <= Pow(62, B62EncodedLengths[id.mIdType])
    ensures BEValue(BinaryForm(id)) < Pow(62, B62EncodedLengths[id.mIdType])
  {
    TablesAgree(id.mIdType);
    WidthFits(id.mIdType);
    BEValueBound(BinaryForm(id));
  }

  lemma WidthFits(t: byte)
    requires t <= MaxMachineIdType
    ensures Pow(256, BinEncodedLengths[t]) <= Pow(62, B62EncodedLengths[t])
  {
    TablesAgree(t);
    Base62.Widths(BinEncodedLengths[t], B62EncodedLengths[t]);
  }

  /** `Base62`: encodes the binary form into a buffer of the type's base-62 width. */
  method Base62Form(id: Id) returns (r: seq<byte>)
    requires id.mIdType <= MaxMachineIdType
    ensures r == Base62Text(id)
  {
    var buf := EncodeBinary(id);
    var out := new byte[B62EncodedLengths[id.mIdType]];
    Base62Room(id);
    Base62.EncodeBase62(out, buf);
    r := out[..];
  }

  /** `ParseBase62` with an overflow check: a text of a supported width whose value does not fit
      the binary width is rejected instead of being decoded. */
  function FromBase62(src: seq<byte>): (r: Result<Id, Error>)
    ensures r == Err(IncorrectBase62Length) <==> BinDecodedLength(|src|) == 0
    ensures BinDecodedLength(|src|) != 0 && Base62.FirstInvalid(src).Some? ==>
              r == Err(InvalidBase62Character(Base62.FirstInvalid(src).value))
    ensures r == Err(Base62Overflow) <==>
              BinDecodedLength(|src|) != 0 && Base62.FirstInvalid(src).None? &&
              Base62.TextValue(src) >= Pow(256, BinDecodedLength(|src|))
  {
    if |src| < MinBase62EncodedLen || |src| > MaxBase62EncodedLen then Err(IncorrectBase62Length)
    else
      var binLen := BinDecodedLength(|src|);
      if binLen == 0 then Err(IncorrectBase62Length)
      else match Base62.FirstInvalid(src)
        case Some(c) => Err(InvalidBase62Character(c))
        case None =>
          if Base62.TextValue(src) >= Pow(256, binLen) then Err(Base62Overflow)
          else DecodeBinary(BE(Base62.TextValue(src), binLen))
  }

  /** The outcome of a Go call that may panic. */
  datatype Outcome<T> = Returns(result: T) | Panics

  /**
   * `ParseBase62` as written: after validating the characters it runs `decodeBase62`, whose write
   * index falls below zero (an index-out-of-range panic) when the text needs more 4-byte groups
   * than the binary width holds.
   */
  function ParseBase62AsWritten(src: seq<byte>): (o: Outcome<Result<Id, Error>>)
    ensures o.Panics? <==> FromBase62(src) == Err(Base62Overflow)
    ensures o.Returns? ==> o.result == FromBase62(src)
  {
    if |src| < MinBase62EncodedLen || |src| > MaxBase62EncodedLen then Returns(Err(IncorrectBase62Length))
    else
      var binLen := BinDecodedLength(|src|);
      if binLen == 0 then Returns(Err(IncorrectBase62Length))
      else match Base62.FirstInvalid(src)
        case Some(c) => Returns(Err(InvalidBase62Character(c)))
        case None =>
          Base62.GroupsFit(src, binLen / 4);
          if 4 * Base62.Groups(src) > binLen then Panics
          else Returns(DecodeBinary(BE(Base62.TextValue(src), binLen)))
  }

  /** "z" followed by 21 '0's: 22 alphabet characters whose value, 61 * 62^21, exceeds 2^128. */
  const OverflowingText: seq<byte> := ['z' as int] + seq(21, _ => '0' as int)

  /** The as-written parser panics on a text of a valid length made only of alphabet characters. */
  lemma AsWrittenPanics()
    ensures |OverflowingText| == MinBase62EncodedLen
    ensures Base62.FirstInvalid(OverflowingText) == None
    ensures ParseBase62AsWritten(OverflowingText) == Panics
  {
    OverflowingDigits();
    OverflowingValue();
    ShortOverflowPanics(OverflowingText);
  }

  /** Any 22-character alphabet text whose value needs more than 16 bytes makes the as-written
      parser panic. */
  lemma ShortOverflowPanics(src: seq<byte>)
    requires |src| == 22 && Base62.FirstInvalid(src) == None
    requires Base62.TextValue(src) >= Pow(256, 16)
    ensures ParseBase62AsWritten(src) == Panics
  {
    Base62.GroupsFit(src, 4);
  }

  lemma OverflowingDigits()
    ensures Base62.Digits(OverflowingText) == [61] + seq(21, _ => 0)
  {
    assert Base62.DecEntry('z' as int) == 61 && Base62.DecEntry('0' as int) == 0;
  }

  lemma OverflowingValue()
    requires Base62.Digits(OverflowingText) == [61] + seq(21, _ => 0)
    ensures Base62.TextValue(OverflowingText) >= Pow(256, 16)
  {
    var zs: seq<nat> := seq(21, _ => 0);
    ValPrepend(61, zs, 62);
    ValZero(zs, 62);
    assert Pow(62, 10) == 839299365868340224;
    assert Pow(62, 11) == 52036560683837093888;
    PowAdd(62, 10, 11);
    PowBytes();
    PowAdd(256, 8, 8);
  }

  /** `ParseBase62`, corrected: rejects an overflowing text before decoding it. */
  method ParseBase62(src: seq<byte>) returns (r: Result<Id, Error>)
    ensures r == FromBase62(src)
  {
    if |src| < MinBase62EncodedLen || |src| > MaxBase62EncodedLen {
      return Err(IncorrectBase62Length);
    }
    var binLen := BinDecodedLength(|src|);
    if binLen == 0 {
      return Err(IncorrectBase62Length);
    }
    if Base62.FirstInvalid(src).None? && Base62.TextValue(src) >= Pow(256, binLen) {
      return Err(Base62Overflow);
    }
    var err, b := DecodeZeroed(src, binLen);
    if err.Some? {
      return Err(InvalidBase62Character(err.value));
    }
    r := DecodeBinary(b);
  }

  /** The decoding half of `ParseBase62`, for a text whose value fits `binLen` bytes: decodes
      into a zeroed buffer of that width. */
  method DecodeZeroed(src: seq<byte>, binLen: nat) returns (err: Option<byte>, b: seq<byte>)
    requires binLen % 4 == 0 && binLen > 0 && |src| > 0
    requires Base62.FirstInvalid(src).None? ==> Base62.TextValue(src) < Pow(256, binLen)
    ensures err == Base62.FirstInvalid(src)
    ensures err.None? ==> b == BE(Base62.TextValue(src), binLen)
  {
    var buf := new byte[binLen](_ => 0);
    ghost var zeros := buf[..];
    err := Base62.DecodeBase62(buf, src);
    if err.None? {
      PaddedDecode(src, binLen, zeros, buf[..]);
    }
    b := buf[..];
  }

  /** The buffer `DecodeZeroed` decodes into starts zeroed, so after `decodeBase62` it holds the
      text's value at the full binary width. */
  lemma PaddedDecode(src: seq<byte>, binLen: nat, zeros: seq<byte>, after: seq<byte>)
    requires |src| > 0 && Base62.FirstInvalid(src).None? && Base62.TextValue(src) < Pow(256, binLen)
    requires |zeros| == binLen && (forall i :: 0 <= i < binLen ==> zeros[i] == 0)
    requires 4 * Base62.Groups(src) <= binLen
    requires after == zeros[..binLen - 4 * Base62.Groups(src)] + BE(Base62.TextValue(src), 4 * Base62.Groups(src))
    ensures after == BE(Base62.TextValue(src), binLen)
  {
    var g := Base62.Groups(src);
    Base62.ZeroPadded(Base62.TextValue(src), 4 * g, binLen) by {
      DigitCountBound(Base62.TextValue(src), g, Base62.Limb);
      Base62.LimbPow(g);
    }
    assert zeros[..binLen - 4 * g] == seq(binLen - 4 * g, _ => 0);
  }

  /** Parsing the base-62 form of a canonical identifier gives it back, also as written. */
  lemma Base62RoundTrip(id: Id)
    requires Canonical(id)
    ensures FromBase62(Base62Text(id)) == Ok(id)
    ensures ParseBase62AsWritten(Base62Text(id)) == Returns(Ok(id))
  {
    var b := BinaryForm(id);
    var t := Base62Text(id);
    var len := BinEncodedLengths[id.mIdType];
    TablesAgree(id.mIdType);
    assert BinDecodedLength(|t|) == len == |b|;
    Base62Room(id);
    Base62.DecodeEncode(BEValue(b), |t|);
    BEValueBound(b);
    BEOfValue(b);
    BinaryRoundTrip(id);
    assert FromBase62(t) == DecodeBinary(b);
  }

  /** Whatever the corrected parser accepts from a 7-bit text is the base-62 form of the canonical
      identifier it returns. */
  lemma Base62DecodeSound(src: seq<byte>)
    requires FromBase62(src).Ok?
    requires forall i :: 0 <= i < |src| ==> src[i] < 128
    ensures Canonical(FromBase62(src).value)
    ensures Base62Text(FromBase62(src).value) == src
  {
    var binLen := BinDecodedLength(|src|);
    var v := Base62.TextValue(src);
    var b := BE(v, binLen);
    assert FromBase62(src) == DecodeBinary(b);
    var id := DecodeBinary(b).value;
    BinaryDecodeSound(b);
    TablesAgree(id.mIdType);
    assert B62EncodedLengths[id.mIdType] == |src|;
    BERoundTrip(v, binLen);
    Base62.EncodeDecode(src);
  }

  /** Base-62 forms of canonical identifiers of one type order as they were minted: by time,
      then by counter. */
  lemma Base62Order(a: Id, b: Id)
    requires Canonical(a) && Canonical(b) && a.mIdType == b.mIdType && Before(a, b)
    ensures Compare(Base62Text(a), Base62Text(b)) == -1
  {
    Base62Room(a);
    Base62.EncodePreservesOrder(BinaryForm(a), BinaryForm(b), B62EncodedLengths[a.mIdType]);
    BinaryOrderBefore(a, b);
  }

  // ---------------------------------------------------------------------------------------------
  // JSON

  const Quote: byte := '"' as int

  /** `MarshalJSON`: the base-62 form between double quotes. */
  method MarshalJson(id: Id) returns (out: seq<byte>)
    requires id.mIdType <= MaxMachineIdType
    ensures out == [Quote] + Base62Text(id) + [Quote]
  {
    var text := Base62Form(id);
    out := [Quote] + text + [Quote];
  }

  /** What `UnmarshalJSON` parses: a quoted text, unquoted and handed to the base-62 parser. */
  function FromJson(buf: seq<byte>): (r: Result<Id, Error>)
    ensures |buf| < 2 || buf[0] != Quote || buf[|buf| - 1] != Quote ==> r == Err(InvalidJsonString)
    ensures r != Err(InvalidJsonString) ==> r == FromBase62(buf[1..|buf| - 1])
  {
    if |buf| < 2 || buf[0] != Quote || buf[|buf| - 1] != Quote then Err(InvalidJsonString)
    else FromBase62(buf[1..|buf| - 1])
  }

  /** `UnmarshalJSON`: replaces the receiver only when parsing succeeds. */
  method UnmarshalJson(current: Id, buf: seq<byte>) returns (next: Id, err: Option<Error>)
    ensures FromJson(buf).Ok? ==> next == FromJson(buf).value && err == None
    ensures FromJson(buf).Err? ==> next == current && err == Some(FromJson(buf).error)
  {
    if |buf| < 2 || buf[0] != Quote || buf[|buf| - 1] != Quote {
      return current, Some(InvalidJsonString);
    }
    var tmp := ParseBase62(buf[1..|buf| - 1]);
    if tmp.Err? {
      return current, Some(tmp.error);
    }
    next, err := tmp.value, None;
  }

  /** Unmarshalling a marshalled canonical identifier gives it back. */
  lemma JsonRoundTrip(id: Id)
    requires Canonical(id)
    ensures FromJson([Quote] + Base62Text(id) + [Quote]) == Ok(id)
  {
    var t := Base62Text(id);
    assert ([Quote] + t + [Quote])[1..|t| + 1] == t;
    Base62RoundTrip(id);
  }
}
