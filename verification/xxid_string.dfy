/**
 * The human-readable string form of an identifier (`String`, `ParseString` and `int2byte` in
 * `xxid.go`): a 17-character local timestamp `yyyyMMddhhmmssSSS`, the flag in hex, the type
 * digit, the machine ID in hex, then pid or port and counter in hex.
 *
 * Calendar arithmetic and time zones are not modelled: `String` receives the calendar fields of
 * the identifier's time as a `Calendar` value, and `ParseString` receives the parse of the
 * 14-digit date and clock prefix as a `Clock` function.
 */
module XxidString {
  import opened Wrappers
  import opened Bytes
  import opened Xxid

  /** What `t.Date()` and `t.Clock()` return for the identifier's time in the local zone. */
  datatype Calendar = Calendar(year: int, month: int, day: int, hour: int, minute: int, second: int)

  /** `time.ParseInLocation("20060102150405", text, time.Local)` followed by `Unix()`: the
      seconds since the epoch, or `None` when the text is not a date and clock. */
  type Clock = seq<byte> -> Option<int64>

  const Zero: byte := '0' as int

  // ---------------------------------------------------------------------------------------------
  // Decimal fields

  /** What `int2byte` writes into `n` bytes: Go's truncating `%` and `/` by 10, each remainder
      plus '0' kept to its low 8 bits, the last remainder in the last byte. */
  function DecimalField(val: int, n: nat): (r: seq<byte>)
    ensures |r| == n
    decreases n
  {
    if n == 0 then [] else DecimalField(GoQuo(val, 10), n - 1) + [(GoRem(val, 10) + Zero) % 256]
  }

  /** The text of a string of decimal digits. */
  function DigitText(ds: seq<nat>): (t: seq<byte>)
    requires IsDigits(ds, 10)
    ensures |t| == |ds|
    ensures forall i :: 0 <= i < |ds| ==> t[i] == ds[i] + Zero
  {
    seq(|ds|, i requires 0 <= i < |ds| => ds[i] + Zero)
  }

  /** The text of a non-empty digit string is all ASCII digits and reads back as the number the
      digits denote. */
  lemma DigitTextValue(ds: seq<nat>)
    requires IsDigits(ds, 10) && |ds| > 0
    ensures DigitValues(DigitText(ds)) == Some(Val(ds, 10))
  {
    var t := DigitText(ds);
    assert seq(|t|, i requires 0 <= i < |t| => t[i] - Zero) == ds;
  }

  /** For a non-negative value `int2byte` writes its low `n` decimal digits, zero-padded. */
  lemma {:induction false} DecimalFieldDigits(val: nat, n: nat)
    ensures DecimalField(val, n) == DigitText(ToBase(val, n, 10))
  {
    if n > 0 {
      DecimalFieldDigits(val / 10, n - 1);
      ToBaseUnfold(val, n, 10);
      DigitTextSnoc(ToBase(val / 10, n - 1, 10), val % 10);
    }
  }

  lemma DigitTextSnoc(ds: seq<nat>, d: nat)
    requires IsDigits(ds, 10) && d < 10
    ensures DigitText(ds + [d]) == DigitText(ds) + [d + Zero]
  {
  }

  /** The digit values of a non-empty text of ASCII digits. */
  function DigitValues(s: seq<byte>): (r: Option<nat>)
    ensures r.Some? <==> |s| > 0 && forall i :: 0 <= i < |s| ==> Zero <= s[i] <= Zero + 9
  {
    if |s| > 0 && forall i :: 0 <= i < |s| ==> Zero <= s[i] <= Zero + 9 then
      Some(Val(seq(|s|, i requires 0 <= i < |s| => s[i] - Zero), 10))
    else None
  }

  /** `strconv.ParseInt(s, 10, 0)`: an optional sign followed by at least one decimal digit. */
  function ParseInt(s: seq<byte>): (r: Option<int>)
    ensures |s| > 0 && Zero <= s[0] <= Zero + 9 ==> r == DigitValues(s)
  {
    if |s| > 0 && (s[0] == '+' as int || s[0] == '-' as int) then
      match DigitValues(s[1..])
      case None => None
      case Some(v) =>
        var x: int := if s[0] == '-' as int then -(v as int) else v;
        Some(x)
    else DigitValues(s)
  }

  /** `strconv.ParseInt` with a sign: '+' reads the digits that follow, '-' reads them negated,
      and a text that starts with neither a sign nor a digit fails. */
  lemma ParseIntSigned(s: seq<byte>)
    ensures |s| > 0 && s[0] == '+' as int ==> ParseInt(s) == DigitValues(s[1..])
    ensures |s| > 0 && s[0] == '-' as int ==>
              (ParseInt(s).Some? <==> DigitValues(s[1..]).Some?) &&
              (ParseInt(s).Some? ==> ParseInt(s).value == -(DigitValues(s[1..]).value as int))
    ensures ParseInt(s).Some? ==>
              |s| > 0 && (Zero <= s[0] <= Zero + 9 || s[0] == '+' as int || s[0] == '-' as int)
  {
  }

  /** A one-character field holds the digit itself. */
  lemma SingleDigit(v: nat)
    requires v < 10
    ensures DecimalField(v, 1) == [Zero + v]
  {
    assert GoRem(v, 10) == v;
    assert DecimalField(GoQuo(v, 10), 0) == [];
  }

  /** A value with at most `n` digits reads back from the field `int2byte` writes for it. */
  lemma DecimalRoundTrip(val: nat, n: nat)
    requires n > 0 && val < Pow(10, n)
    ensures ParseInt(DecimalField(val, n)) == Some(val)
  {
    var ds := ToBase(val, n, 10);
    DecimalFieldDigits(val, n);
    DigitTextValue(ds);
    ToBaseExact(val, n, 10);
  }

  /** `int2byte(bs[off:off+n], val)`: fills the field from its last byte backwards. */
  method Int2Byte(bs: array<byte>, off: nat, n: nat, val: int)
    requires off + n <= bs.Length
    modifies bs
    ensures bs[..] == old(bs[..off]) + DecimalField(val, n) + old(bs[off + n..])
  {
    ghost var o := bs[..];
    ghost var want := DecimalField(val, n);
    var v := val;
    var idx := n;
    while idx > 0
      invariant 0 <= idx <= n && bs.Length == |o|
      invariant DecimalField(v, idx) == want[..idx]
      invariant forall j :: 0 <= j < bs.Length && !(off + idx <= j < off + n) ==> bs[j] == o[j]
      invariant forall j :: off + idx <= j < off + n ==> bs[j] == want[j - off]
    {
      assert want[..idx - 1] == DecimalField(GoQuo(v, 10), idx - 1);
      bs[off + idx - 1] := (GoRem(v, 10) + Zero) % 256;
      v := GoQuo(v, 10);
      idx := idx - 1;
    }
    Splice(bs[..], o, off, want);
  }

  // ---------------------------------------------------------------------------------------------
  // The string form

  /** The 17-character timestamp: year, month, day, hour, minute, second and milliseconds. */
  function Timestamp(cal: Calendar, msec: int): (r: seq<byte>)
    ensures |r| == 17
  {
    DecimalField(cal.year, 4) + DecimalField(cal.month, 2) + DecimalField(cal.day, 2)
    + DecimalField(cal.hour, 2) + DecimalField(cal.minute, 2) + DecimalField(cal.second, 2)
    + DecimalField(msec, 3)
  }

  /** The string form with a given millisecond field. */
  function StringWith(id: Id, cal: Calendar, msec: int): (r: seq<byte>)
    requires id.mIdType <= MaxMachineIdType
    ensures |r| == StrEncodedLengths[id.mIdType]
  {
    TablesAgree(id.mIdType);
    Timestamp(cal, msec) + HexEncode(BE(id.flag, 2)) + DecimalField(id.mIdType, 1)
    + HexEncode(MachineId(id)) + HexWords([id.pidOrPort, id.counter])
  }

  /** `String` as written: the millisecond field is `timeMsec % 1000` with Go's truncating `%`,
      negative before 1970. */
  function StringFormAsWritten(id: Id, cal: Calendar): (r: seq<byte>)
    requires id.mIdType <= MaxMachineIdType
    ensures id.timeMsec >= 0 ==> r == StringForm(id, cal)
  {
    StringWith(id, cal, GoRem(id.timeMsec, 1000))
  }

  /** `String`, corrected: the millisecond field is the non-negative remainder, matching the
      whole seconds the calendar fields show. */
  function StringForm(id: Id, cal: Calendar): (r: seq<byte>)
    requires id.mIdType <= MaxMachineIdType
    ensures |r| == StrEncodedLengths[id.mIdType]
  {
    StringWith(id, cal, id.timeMsec % 1000)
  }

  /** Writes the 17-character timestamp at the front of `out`. */
  method WriteTimestamp(out: array<byte>, cal: Calendar, msec: int)
    requires out.Length >= 17
    modifies out
    ensures out[..] == Timestamp(cal, msec) + old(out[17..])
  {
    ghost var o := out[..];
    ghost var b := out[..];
    ghost var p: seq<byte> := [];
    Int2Byte(out, 0, 4, cal.year);
    Advance(b, out[..], 0, DecimalField(cal.year, 4), 17);
    p, b := DecimalField(cal.year, 4), out[..];
    Int2Byte(out, 4, 2, cal.month);
    Advance(b, out[..], 4, DecimalField(cal.month, 2), 17);
    p, b := p + DecimalField(cal.month, 2), out[..];
    Int2Byte(out, 6, 2, cal.day);
    Advance(b, out[..], 6, DecimalField(cal.day, 2), 17);
    p, b := p + DecimalField(cal.day, 2), out[..];
    Int2Byte(out, 8, 2, cal.hour);
    Advance(b, out[..], 8, DecimalField(cal.hour, 2), 17);
    p, b := p + DecimalField(cal.hour, 2), out[..];
    Int2Byte(out, 10, 2, cal.minute);
    Advance(b, out[..], 10, DecimalField(cal.minute, 2), 17);
    p, b := p + DecimalField(cal.minute, 2), out[..];
    Int2Byte(out, 12, 2, cal.second);
    Advance(b, out[..], 12, DecimalField(cal.second, 2), 17);
    p, b := p + DecimalField(cal.second, 2), out[..];
    Int2Byte(out, 14, 3, msec);
    Advance(b, out[..], 14, DecimalField(msec, 3), 17);
    assert out[..17] == Timestamp(cal, msec);
    assert out[17..] == o[17..];
    assert out[..] == out[..17] + out[17..];
  }

  /** Big-endian 16-bit words in hex, four characters each. */
  function HexWords(ws: seq<u16>): (r: seq<byte>)
    ensures |r| == 4 * |ws|
  {
    if |ws| == 0 then [] else HexWords(ws[..|ws| - 1]) + HexEncode(BE(ws[|ws| - 1], 2))
  }

  /** The loop of `String` over pid or port and counter: each word in hex at the next four
      characters. */
  method WriteHexWords(out: array<byte>, off: nat, ws: seq<u16>)
    requires off + 4 * |ws| == out.Length
    modifies out
    ensures out[..] == old(out[..off]) + HexWords(ws)
  {
    ghost var o := out[..off];
    var offset := off;
    var i := 0;
    while i < |ws|
      invariant 0 <= i <= |ws| && offset == off + 4 * i
      invariant out[..offset] == o + HexWords(ws[..i])
    {
      assert ws[..i + 1][..i] == ws[..i];
      var w := HexEncode(BE(ws[i], 2));
      assert HexWords(ws[..i + 1]) == HexWords(ws[..i]) + w;
      ghost var b := out[..];
      CopyInto(out, offset, w);
      Advance(b, out[..], offset, w, offset + 4);
      assert (o + HexWords(ws[..i])) + w == o + (HexWords(ws[..i]) + w);
      offset := offset + 4;
      i := i + 1;
    }
    assert ws[..i] == ws;
    assert out[..] == out[..offset];
  }

  /** The first 22 characters of `String`: timestamp, flag in hex and the type digit. */
  method WriteHead(out: array<byte>, id: Id, cal: Calendar, msec: int)
    requires out.Length >= 22
    modifies out
    ensures out[..] == Timestamp(cal, msec) + HexEncode(BE(id.flag, 2))
                       + DecimalField(id.mIdType, 1) + old(out[22..])
  {
    ghost var o := out[..];
    WriteTimestamp(out, cal, msec);
    ghost var b := out[..];
    var flag := HexEncode(BE(id.flag, 2));
    CopyInto(out, 17, flag);
    Advance(b, out[..], 17, flag, 21);
    ghost var c := out[..];
    Int2Byte(out, 21, 1, id.mIdType);
    Advance(c, out[..], 21, DecimalField(id.mIdType, 1), 22);
    assert out[22..] == o[22..];
    assert out[..] == out[..22] + out[22..];
  }

  /** `String`: timestamp, flag, type digit, machine ID, then pid or port and counter in a loop. */
  method StringOf(id: Id, cal: Calendar) returns (s: seq<byte>)
    requires id.mIdType <= MaxMachineIdType
    ensures s == StringForm(id, cal)
  {
    TablesAgree(id.mIdType);
    var out := new byte[StrEncodedLengths[id.mIdType]];
    WriteHead(out, id, cal, id.timeMsec % 1000);
    var offset := 22;
    var mIdLen := MachineIdLengths[id.mIdType];
    var mid := HexEncode(MachineId(id));
    ghost var b := out[..];
    CopyInto(out, offset, mid);
    Advance(b, out[..], offset, mid, offset + mIdLen * 2);
    offset := offset + mIdLen * 2;
    WriteHexWords(out, offset, [id.pidOrPort, id.counter]);
    s := out[..];
  }

  // ---------------------------------------------------------------------------------------------
  // Parsing

  /** The machine ID type `str[21] - '0'` as the `uint8` it is in Go. */
  function TypeDigit(str: seq<byte>): (t: byte)
    requires |str| > 21
    ensures t <= MaxMachineIdType <==> Zero <= str[21] <= Zero + 6
  {
    (str[21] - Zero) % 256
  }

  /** `parseTimestamp`: the clock reading of the first 14 characters in milliseconds plus the
      3-character millisecond field, in 64-bit arithmetic. */
  function ParseTimestamp(buf: seq<byte>, clock: Clock): (r: Option<int64>)
    requires |buf| == 17
    ensures r.Some? <==> clock(buf[..14]).Some? && ParseInt(buf[14..17]).Some?
    ensures r.Some? ==> var ms := clock(buf[..14]).value * 1000 + ParseInt(buf[14..17]).value;
              r.value % 0x1_0000_0000_0000_0000 == ms % 0x1_0000_0000_0000_0000 &&
              (-0x8000_0000_0000_0000 <= ms <= MaxInt64 ==> r.value == ms)
  {
    match clock(buf[..14])
    case None => None
    case Some(sec) =>
      match ParseInt(buf[14..17])
      case None => None
      case Some(msec) => Some(WrapInt64(sec * 1000 + msec))
  }

  /** `parseUint16`: four hexadecimal characters as a big-endian 16-bit value; it fails exactly
      when one of them is not a hexadecimal digit. */
  function HexUint16(buf: seq<byte>): (r: Option<u16>)
    requires |buf| == 4
    ensures r.Some? <==> forall i :: 0 <= i < 4 ==> HexNibble(buf[i]).Some?
  {
    HexDecodeFails(buf);
    match HexDecode(buf)
    case None => None
    case Some(b) =>
      TwoBytes(b);
      Some(BEValue(b))
  }

  /** The value `parseUint16` reads is the four hexadecimal digits' value, most significant first. */
  lemma HexUint16Value(buf: seq<byte>)
    requires |buf| == 4 && HexUint16(buf).Some?
    ensures && HexNibble(buf[0]).Some? && HexNibble(buf[1]).Some?
            && HexNibble(buf[2]).Some? && HexNibble(buf[3]).Some?
    ensures HexUint16(buf).value == HexNibble(buf[0]).value * 0x1000 + HexNibble(buf[1]).value * 0x100
                                   + HexNibble(buf[2]).value * 0x10 + HexNibble(buf[3]).value
  {
    HexPairs(buf, HexDecode(buf).value);
  }

  lemma HexPairs(buf: seq<byte>, b: seq<byte>)
    requires |buf| == 4 && HexDecode(buf) == Some(b)
    ensures |b| == 2 && HexNibble(buf[0]).Some? && HexNibble(buf[1]).Some?
    ensures HexNibble(buf[2]).Some? && HexNibble(buf[3]).Some?
    ensures BEValue(b) == HexNibble(buf[0]).value * 0x1000 + HexNibble(buf[1]).value * 0x100
                          + HexNibble(buf[2]).value * 0x10 + HexNibble(buf[3]).value
  {
    assert HexDecode(buf[2..][2..]) == Some([]);
    assert b[..1] == [b[0]] && b[..1][..0] == [];
    assert Val(b[..1], 256) == b[0];
    assert BEValue(b) == b[0] as int * 0x100 + b[1];
  }

  /** What `ParseString` returns: length, type digit and length again are checked before any
      field is parsed; every field failure is `InvalidStringRepr`. */
  function FromString(str: seq<byte>, clock: Clock): (r: Result<Id, Error>)
    ensures |str| < MinStringEncodedLen ==> r == Err(IncorrectStringLength)
    ensures |str| >= MinStringEncodedLen && TypeDigit(str) > MaxMachineIdType ==>
              r == Err(UnknownMachineIdType)
    ensures (|str| >= MinStringEncodedLen && TypeDigit(str) <= MaxMachineIdType
             && |str| != StrEncodedLengths[TypeDigit(str)]) ==> r == Err(IncorrectStringLength)
    ensures r.Err? ==> r.error in {IncorrectStringLength, UnknownMachineIdType, InvalidStringRepr}
    ensures r.Ok? ==> WellTyped(r.value) && r.value.mIdType == TypeDigit(str)
  {
    if |str| < MinStringEncodedLen then Err(IncorrectStringLength)
    else if TypeDigit(str) > MaxMachineIdType then Err(UnknownMachineIdType)
    else if |str| != StrEncodedLengths[TypeDigit(str)] then Err(IncorrectStringLength)
    else ReadStringFields(str, clock)
  }

  /** The field parses of `ParseString` once the checks have passed. */
  function ReadStringFields(str: seq<byte>, clock: Clock): (r: Result<Id, Error>)
    requires |str| >= MinStringEncodedLen && TypeDigit(str) <= MaxMachineIdType
    requires |str| == StrEncodedLengths[TypeDigit(str)]
    ensures r.Err? ==> r.error == InvalidStringRepr
  {
    var t := TypeDigit(str);
    var m := MachineIdLengths[t];
    TablesAgree(t);
    match ParseTimestamp(str[..17], clock)
    case None => Err(InvalidStringRepr)
    case Some(timeMsec) =>
      match HexUint16(str[17..21])
      case None => Err(InvalidStringRepr)
      case Some(flag) =>
        match HexDecode(str[22..22 + 2 * m])
        case None => Err(InvalidStringRepr)
        case Some(mid) =>
          ReadWords(str[22 + 2 * m..30 + 2 * m], Id(timeMsec, 0, 0, flag, t, mid + seq(16 - m, _ => 0)))
  }

  /** The loop of `ParseString` over pid or port and counter: four hexadecimal characters
      each, stored into the identifier parsed so far. */
  function ReadWords(text: seq<byte>, id: Id): (r: Result<Id, Error>)
    requires |text| == 8
    ensures r.Err? ==> r.error == InvalidStringRepr
    ensures r.Ok? ==> r.value == id.(pidOrPort := r.value.pidOrPort, counter := r.value.counter)
  {
    match HexUint16(text[..4])
    case None => Err(InvalidStringRepr)
    case Some(pid) =>
      match HexUint16(text[4..])
      case None => Err(InvalidStringRepr)
      case Some(counter) => Ok(id.(pidOrPort := pid, counter := counter))
  }

  /** `ParseString`: the checks, then each field in turn, pid or port and counter in a loop. */
  method ParseString(str: seq<byte>, clock: Clock) returns (r: Result<Id, Error>)
    ensures r == FromString(str, clock)
  {
    if |str| < MinStringEncodedLen {
      return Err(IncorrectStringLength);
    }
    var t := TypeDigit(str);
    if t > MaxMachineIdType {
      return Err(UnknownMachineIdType);
    }
    if |str| != StrEncodedLengths[t] {
      return Err(IncorrectStringLength);
    }
    r := ParseFields(str, clock);
  }

  /** The field parses of `ParseString`, each returning `InvalidStringRepr` on failure. */
  method ParseFields(str: seq<byte>, clock: Clock) returns (r: Result<Id, Error>)
    requires |str| >= MinStringEncodedLen && TypeDigit(str) <= MaxMachineIdType
    requires |str| == StrEncodedLengths[TypeDigit(str)]
    ensures r == ReadStringFields(str, clock)
  {
    var t := TypeDigit(str);
    TablesAgree(t);
    var timeMsec := ParseTimestamp(str[..17], clock);
    if timeMsec.None? {
      return Err(InvalidStringRepr);
    }
    var flag := HexUint16(str[17..21]);
    if flag.None? {
      return Err(InvalidStringRepr);
    }
    var m := MachineIdLengths[t];
    var mid := HexDecode(str[22..22 + 2 * m]);
    if mid.None? {
      return Err(InvalidStringRepr);
    }
    var id := ZeroId.(timeMsec := timeMsec.value, flag := flag.value, mIdType := t,
                      machineId := mid.value + seq(16 - m, _ => 0));
    r := ParseWords(str[22 + 2 * m..30 + 2 * m], id);
  }

  /** The loop of `ParseString` over pid or port and counter. */
  method ParseWords(text: seq<byte>, id: Id) returns (r: Result<Id, Error>)
    requires |text| == 8
    ensures r == ReadWords(text, id)
  {
    var cur := id;
    var offset := 0;
    while offset < 8
      invariant offset in {0, 4, 8}
      invariant cur == id.(pidOrPort := cur.pidOrPort, counter := cur.counter)
      invariant offset >= 4 ==> HexUint16(text[..4]) == Some(cur.pidOrPort)
      invariant offset == 8 ==> HexUint16(text[4..]) == Some(cur.counter)
    {
      assert text[4..8] == text[4..];
      var x := HexUint16(text[offset..offset + 4]);
      if x.None? {
        return Err(InvalidStringRepr);
      }
      if offset == 0 {
        cur := cur.(pidOrPort := x.value);
      } else {
        cur := cur.(counter := x.value);
      }
      offset := offset + 4;
    }
    r := Ok(cur);
  }

  /** Where each field sits in the string form: timestamp at 0, flag at 17, type digit at 21,
      machine ID at 22, then pid or port and counter, four characters each. */
  lemma StringLayout(id: Id, cal: Calendar, msec: int)
    requires id.mIdType <= MaxMachineIdType
    ensures var s, m := StringWith(id, cal, msec), MachineIdLengths[id.mIdType];
            && |s| == 30 + 2 * m
            && s[..17] == Timestamp(cal, msec)
            && s[17..21] == HexEncode(BE(id.flag, 2))
            && s[21] == Zero + id.mIdType
            && s[22..22 + 2 * m] == HexEncode(MachineId(id))
            && s[22 + 2 * m..26 + 2 * m] == HexEncode(BE(id.pidOrPort, 2))
            && s[26 + 2 * m..30 + 2 * m] == HexEncode(BE(id.counter, 2))
  {
    var s := StringWith(id, cal, msec);
    var t, f := Timestamp(cal, msec), HexEncode(BE(id.flag, 2));
    var mid, p, c := HexEncode(MachineId(id)), HexEncode(BE(id.pidOrPort, 2)), HexEncode(BE(id.counter, 2));
    StringConcat(id, cal, msec);
    Pieces(s, t, f, [Zero + id.mIdType], mid, p, c);
  }

  /** The string form is the concatenation of its fields. */
  lemma StringConcat(id: Id, cal: Calendar, msec: int)
    requires id.mIdType <= MaxMachineIdType
    ensures StringWith(id, cal, msec)
         == Timestamp(cal, msec) + HexEncode(BE(id.flag, 2)) + [Zero + id.mIdType]
            + HexEncode(MachineId(id)) + (HexEncode(BE(id.pidOrPort, 2)) + HexEncode(BE(id.counter, 2)))
  {
    assert HexWords([id.pidOrPort, id.counter])
        == HexEncode(BE(id.pidOrPort, 2)) + HexEncode(BE(id.counter, 2)) by {
      assert [id.pidOrPort, id.counter][..1] == [id.pidOrPort];
    }
    SingleDigit(id.mIdType);
  }

  /** Each piece of a six-piece concatenation is the slice at its offset. */
  lemma Pieces(s: seq<byte>, t: seq<byte>, f: seq<byte>, d: seq<byte>, mid: seq<byte>,
               p: seq<byte>, c: seq<byte>)
    requires |d| == 1 && s == t + f + d + mid + (p + c)
    ensures var i := |t| + |f| + |d|;
            && s[..|t|] == t && s[|t|..|t| + |f|] == f && s[|t| + |f|] == d[0]
            && s[i..i + |mid|] == mid
            && s[i + |mid|..i + |mid| + |p|] == p
            && s[i + |mid| + |p|..i + |mid| + |p| + |c|] == c
  {
  }

  /** The string form reads back as the identifier, given a clock that maps its date and clock
      fields to the identifier's whole seconds. */
  lemma StringRoundTrip(id: Id, cal: Calendar, clock: Clock)
    requires WellTyped(id)
    requires clock(StringForm(id, cal)[..14]) == Some(id.timeMsec / 1000)
    ensures FromString(StringForm(id, cal), clock) == Ok(id)
  {
    StringFormFields(id, cal);
    FieldsParse(StringForm(id, cal), id, clock);
  }

  /** The corrected string form holds each field's encoding where `ParseString` reads it, and its
      millisecond field reads back as the milliseconds. */
  lemma StringFormFields(id: Id, cal: Calendar)
    requires id.mIdType <= MaxMachineIdType
    ensures var s, m := StringForm(id, cal), MachineIdLengths[id.mIdType];
            && |s| == StrEncodedLengths[id.mIdType] && |s| == 30 + 2 * m
            && ParseInt(s[14..17]) == Some(id.timeMsec % 1000)
            && s[17..21] == HexEncode(BE(id.flag, 2))
            && s[21] == Zero + id.mIdType
            && s[22..|s| - 8] == HexEncode(MachineId(id))
            && s[|s| - 8..|s| - 4] == HexEncode(BE(id.pidOrPort, 2))
            && s[|s| - 4..] == HexEncode(BE(id.counter, 2))
  {
    var s := StringForm(id, cal);
    var msec := id.timeMsec % 1000;
    StringLayout(id, cal, msec);
    TablesAgree(id.mIdType);
    MsecField(cal, msec);
    assert s[14..17] == s[..17][14..17];
    assert Pow(10, 3) == 1000;
    DecimalRoundTrip(msec, 3);
  }

  /** The last three characters of the timestamp are the millisecond field. */
  lemma MsecField(cal: Calendar, msec: int)
    ensures Timestamp(cal, msec)[14..17] == DecimalField(msec, 3)
  {
  }

  /** A text laid out as the string form of `id`, with a date and clock and a millisecond field
      that read back as its time, parses back to `id`. */
  lemma FieldsParse(s: seq<byte>, id: Id, clock: Clock)
    requires WellTyped(id)
    requires |s| == StrEncodedLengths[id.mIdType] && |s| == 30 + 2 * MachineIdLengths[id.mIdType]
    requires clock(s[..14]) == Some(id.timeMsec / 1000)
    requires ParseInt(s[14..17]) == Some(id.timeMsec % 1000)
    requires s[17..21] == HexEncode(BE(id.flag, 2))
    requires s[21] == Zero + id.mIdType
    requires s[22..|s| - 8] == HexEncode(MachineId(id))
    requires s[|s| - 8..|s| - 4] == HexEncode(BE(id.pidOrPort, 2))
    requires s[|s| - 4..] == HexEncode(BE(id.counter, 2))
    ensures FromString(s, clock) == Ok(id)
  {
    var t := id.mIdType;
    var m := MachineIdLengths[t];
    TablesAgree(t);
    HeadParse(s, id, clock);
    TailParse(s, id);
    Padded(id);
    assert ReadStringFields(s, clock) == Ok(id);
  }

  /** A well-typed identifier's machine ID array is its `MachineId` followed by zeros. */
  lemma Padded(id: Id)
    requires WellTyped(id)
    ensures MachineId(id) + seq(16 - MachineIdLengths[id.mIdType], _ => 0) == id.machineId
  {
  }

  /** The timestamp, flag and type digit of such a text. */
  lemma HeadParse(s: seq<byte>, id: Id, clock: Clock)
    requires id.mIdType <= MaxMachineIdType && |s| >= 22
    requires clock(s[..14]) == Some(id.timeMsec / 1000)
    requires ParseInt(s[14..17]) == Some(id.timeMsec % 1000)
    requires s[17..21] == HexEncode(BE(id.flag, 2))
    requires s[21] == Zero + id.mIdType
    ensures TypeDigit(s) == id.mIdType
    ensures ParseTimestamp(s[..17], clock) == Some(id.timeMsec)
    ensures HexUint16(s[17..21]) == Some(id.flag)
  {
    assert s[..17][..14] == s[..14] && s[..17][14..17] == s[14..17];
    HexWord(id.flag);
  }

  /** The machine ID, pid or port and counter of such a text. */
  lemma TailParse(s: seq<byte>, id: Id)
    requires id.mIdType <= MaxMachineIdType
    requires |s| == 30 + 2 * MachineIdLengths[id.mIdType]
    requires s[22..|s| - 8] == HexEncode(MachineId(id))
    requires s[|s| - 8..|s| - 4] == HexEncode(BE(id.pidOrPort, 2))
    requires s[|s| - 4..] == HexEncode(BE(id.counter, 2))
    ensures var m := MachineIdLengths[id.mIdType];
            && HexDecode(s[22..22 + 2 * m]) == Some(MachineId(id))
            && HexUint16(s[22 + 2 * m..30 + 2 * m][..4]) == Some(id.pidOrPort)
            && HexUint16(s[22 + 2 * m..30 + 2 * m][4..]) == Some(id.counter)
  {
    var m := MachineIdLengths[id.mIdType];
    HexRoundTrip(MachineId(id));
    HexWord(id.pidOrPort);
    HexWord(id.counter);
    assert s[22 + 2 * m..30 + 2 * m][..4] == s[|s| - 8..|s| - 4];
    assert s[22 + 2 * m..30 + 2 * m][4..] == s[|s| - 4..];
  }

  /** Four hexadecimal characters read back as the 16-bit word they encode. */
  lemma HexWord(w: u16)
    ensures HexUint16(HexEncode(BE(w, 2))) == Some(w)
  {
    PowBytes();
    HexRoundTrip(BE(w, 2));
    BERoundTrip(w, 2);
  }

  /** As written, an identifier one millisecond before 1970 prints a millisecond field of
      "00/", which `ParseString` rejects: its own string form does not parse. */
  lemma AsWrittenNegativeTime(id: Id, cal: Calendar, clock: Clock)
    requires WellTyped(id) && id.timeMsec == -1
    ensures StringFormAsWritten(id, cal)[14..17] == [Zero, Zero, '/' as int]
    ensures FromString(StringFormAsWritten(id, cal), clock) == Err(InvalidStringRepr)
  {
    var s := StringFormAsWritten(id, cal);
    StringLayout(id, cal, -1);
    TablesAgree(id.mIdType);
    MsecField(cal, -1);
    MinusOneField();
    assert s[14..17] == s[..17][14..17];
    MsecRejected(s, id.mIdType, clock);
  }

  /** A string whose millisecond field holds a character other than a digit does not parse. */
  lemma MsecRejected(s: seq<byte>, t: byte, clock: Clock)
    requires t <= MaxMachineIdType && |s| == StrEncodedLengths[t] && s[21] == Zero + t
    requires s[14..17] == [Zero, Zero, '/' as int]
    ensures FromString(s, clock) == Err(InvalidStringRepr)
  {
    assert TypeDigit(s) == t;
    assert s[..17][14..17] == s[14..17];
    assert ParseTimestamp(s[..17], clock) == None;
  }

  /** `int2byte` writes -1 into three bytes as "00/". */
  lemma MinusOneField()
    ensures DecimalField(-1, 3) == [Zero, Zero, '/' as int]
  {
    assert GoQuo(-1, 10) == 0 && GoRem(-1, 10) == -1;
    assert GoQuo(0, 10) == 0 && GoRem(0, 10) == 0;
    assert DecimalField(0, 1) == [Zero];
    assert DecimalField(0, 2) == [Zero, Zero];
  }
}
