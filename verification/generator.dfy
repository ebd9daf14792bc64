/**
 * The `Generator` of `generator.go`: the machine ID, its type, the pid or port and the flag that
 * every identifier it mints carries, the builder methods that change them, and `newID`, `New` and
 * `NewWithTime`. Address parsing (`net.IP.To4`, `To16`) happens before the model: the builder
 * methods take the byte slices those calls return.
 */
module IdGenerator {
  import opened Wrappers
  import opened Bytes
  import opened Xxid
  import opened Sequencer

  /** Go's `copy(dst[:n], src)`: the first `min(n, len(src))` bytes of `src` overwrite `dst`. */
  function CopyPrefix(dst: MachineBytes, n: nat, src: seq<byte>): (r: MachineBytes)
    requires n <= 16
    ensures var k := if |src| < n then |src| else n;
            r[..k] == src[..k] && r[k..] == dst[k..]
  {
    var k := if |src| < n then |src| else n;
    src[..k] + dst[k..]
  }

  /** The machine ID type `UseMachineID` selects for a given length, if the length is supported. */
  function SpecifiedType(n: nat): (r: Option<byte>)
    ensures r.Some? <==> n in {4, 8, 16}
    ensures r.Some? ==> r.value in {Specified4, Specified8, Specified16} && MachineIdLengths[r.value] == n
  {
    if n == 4 then Some(Specified4)
    else if n == 8 then Some(Specified8)
    else if n == 16 then Some(Specified16)
    else None
  }

  class Generator {
    var mIdType: byte
    var machineId: MachineBytes
    var pidOrPort: u16
    var flag: u16

    /** A known machine ID type, and a flag that is either unset or carries the "set" bit. */
    ghost predicate Valid()
      reads this
    {
      mIdType <= MaxMachineIdType && (flag == 0 || flag >= 0x8000)
    }

    /** The default generator `init` builds: a four-byte host or random machine ID, the pid. */
    constructor Default(host: seq<byte>, fromHost: bool, pid: u16)
      requires |host| == 4
      ensures mIdType == (if fromHost then HostId else Random)
      ensures machineId == host + seq(12, _ => 0) && pidOrPort == pid && flag == 0
      ensures Valid()
    {
      mIdType := if fromHost then HostId else Random;
      machineId := host + seq(12, _ => 0);
      pidOrPort := pid;
      flag := 0;
    }

    /** `NewGenerator`: the default generator's machine ID, type and pid, and no flag. */
    constructor (defaultGen: Generator)
      ensures mIdType == defaultGen.mIdType && machineId == defaultGen.machineId
      ensures pidOrPort == defaultGen.pidOrPort && flag == 0
      ensures Valid() <==> defaultGen.mIdType <= MaxMachineIdType
    {
      mIdType := defaultGen.mIdType;
      machineId := defaultGen.machineId;
      pidOrPort := defaultGen.pidOrPort;
      flag := 0;
    }

    /**
     * `UseMachineID`: a 4, 8 or 16-byte ID overwrites that prefix of the machine ID and selects
     * `Specified4`, `Specified8` or `Specified16`. Any other length is the
     * `errUnsupportedMachineIDLength` panic, here an error with the generator unchanged.
     */
    method UseMachineId(id: seq<byte>) returns (err: Option<Error>)
      modifies this
      ensures SpecifiedType(|id|).None? ==>
                err == Some(UnsupportedMachineIdLength) && unchanged(this)
      ensures SpecifiedType(|id|).Some? ==>
                && err == None && mIdType == SpecifiedType(|id|).value
                && machineId == id + old(machineId)[|id|..]
                && pidOrPort == old(pidOrPort) && flag == old(flag)
      ensures old(Valid()) ==> Valid()
    {
      var n := |id|;
      if n == 4 {
        mIdType := Specified4;
        machineId := CopyPrefix(machineId, 4, id);
      } else if n == 8 {
        mIdType := Specified8;
        machineId := CopyPrefix(machineId, 8, id);
      } else if n == 16 {
        mIdType := Specified16;
        machineId := CopyPrefix(machineId, 16, id);
      } else {
        return Some(UnsupportedMachineIdLength);
      }
      err := None;
    }

    /** `UseIPv4`, given `ip.To4()` (empty for an address that is not IPv4). */
    method UseIPv4(ip4: seq<byte>)
      modifies this
      ensures mIdType == IPv4 && machineId == CopyPrefix(old(machineId), 4, ip4)
      ensures pidOrPort == old(pidOrPort) && flag == old(flag)
      ensures old(Valid()) ==> Valid()
    {
      mIdType := IPv4;
      machineId := CopyPrefix(machineId, 4, ip4);
    }

    /** `UseIPv6`, given `ip.To16()`. */
    method UseIPv6(ip16: seq<byte>)
      modifies this
      ensures mIdType == IPv6 && machineId == CopyPrefix(old(machineId), 16, ip16)
      ensures pidOrPort == old(pidOrPort) && flag == old(flag)
      ensures old(Valid()) ==> Valid()
    {
      mIdType := IPv6;
      machineId := CopyPrefix(machineId, 16, ip16);
    }

    /** `UsePort`: a zero port leaves the generator as it is. */
    method UsePort(port: u16)
      modifies this
      ensures port == 0 ==> unchanged(this)
      ensures port > 0 ==> pidOrPort == port
      ensures mIdType == old(mIdType) && machineId == old(machineId) && flag == old(flag)
    {
      if port > 0 {
        pidOrPort := port;
      }
    }

    /** `UseFlag`: stores `f | 0x8000`; the top bit of `f` itself is dropped. */
    method UseFlag(f: u16)
      modifies this
      ensures flag == MarkFlag(f)
      ensures mIdType == old(mIdType) && machineId == old(machineId) && pidOrPort == old(pidOrPort)
      ensures old(Valid()) ==> Valid()
    {
      flag := MarkFlag(f);
    }

    /**
     * `newID`: an identifier with this generator's machine fields, the given time and counter, and
     * this generator's flag, or `randFlag()` of the random number `rnd` when the flag is zero.
     * Either way the identifier reports the flag set with `UseFlag`, or zero when none was.
     */
    function NewId(timeMsec: int64, counter: u16, rnd: u32): (id: Id)
      reads this
      ensures id.timeMsec == timeMsec && id.counter == counter && id.pidOrPort == pidOrPort
      ensures id.mIdType == mIdType && id.machineId == machineId
      ensures id.flag == if flag == 0 then RandFlag(rnd) else flag
      ensures Valid() ==> Flag(id) == flag % 0x8000
    {
      Id(timeMsec, pidOrPort, counter, if flag == 0 then RandFlag(rnd) else flag, mIdType, machineId)
    }

    /**
     * `New`: reads the sequencer for the clock reading `now` and mints an identifier from it. The
     * identifier's short form is the composite the sequencer stores, so it exceeds every one handed
     * out before.
     */
    method New(s: Sequencer, now: int64, rnd: u32) returns (id: Id)
      modifies s
      ensures var r := NextReading(old(s.timeAndCounter), now, s.counter % 0x1_0000);
              id == NewId(r.timeMsec, r.counter, rnd) && s.timeAndCounter == r.stored
      ensures s.counter == (old(s.counter) + 1) % 0x1_0000_0000
      ensures Short(id) == s.timeAndCounter
      ensures old(s.timeAndCounter) < MaxInt64 ==> Short(id) > old(s.timeAndCounter)
    {
      var t, c := s.ReadTimeAndCounter(now);
      id := NewId(t, c, rnd);
    }

    /** `NewWithTime` for a time given in nanoseconds since 1970: the milliseconds truncate toward
        zero, and the counter comes from `incrCounter` without the sequencer's check. */
    method NewWithTime(s: Sequencer, unixNano: int64, rnd: u32) returns (id: Id)
      modifies s
      ensures s.counter == (old(s.counter) + 1) % 0x1_0000_0000
      ensures s.timeAndCounter == old(s.timeAndCounter)
      ensures id == NewId(GoQuo(unixNano, 1_000_000), s.counter % 0x1_0000, rnd)
    {
      var c := s.IncrCounter();
      id := NewId(GoQuo(unixNano, 1_000_000), c, rnd);
    }
  }
}
