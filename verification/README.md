# xxid in Dafny

This project models the core of `xxid`, a Go library of globally unique, time-ordered identifiers.

An xxid identifier (`ID` in `xxid.go`) is a record. It holds:

- a 64-bit millisecond time;
- a 16-bit counter;
- a pid or port;
- a 16-bit flag;
- a machine ID type (0..6);
- a 16-byte machine ID array, of which the type selects the first 4, 8 or 16 bytes.

The library gives it three external forms:

- a binary form of 16, 20 or 28 bytes;
- a base-62 form of 22, 27 or 38 characters;
- a human-readable string form of 38, 46 or 62 characters.

A `Generator` mints identifiers from a monotonic time-and-counter sequencer. `id.go` holds the older 15-byte format derived from rs/xid: seconds since 1500000000, a flag byte, four machine bytes, a pid and a 31-bit counter. It has its own generator, short form, UUID-style text and orders.

The modules:

- `Wrappers` (wrappers.dfy): `Option` and `Result`.
- `Bytes` (bytes.dfy): the shared vocabulary of bytes and Go integers.
  - Big-endian values and their digits: `Val`, `ToBase`, `BE`, `BEValue`.
  - `bytes.Compare` as `Compare`.
  - `encoding/hex` as `HexEncode` and `HexDecode`.
  - Go's truncating `/` and `%` (`GoQuo`, `GoRem`) and 64-bit wrap-around (`WrapInt64`).
  - In-place buffer operations: `copy` as `CopyInto` and `CopyWithin`, `binary.BigEndian.PutUintN` as `PutBigEndian`.
- `Base62` (base62.go): the `dec` table, `encodeBase62` and `decodeBase62`. They are methods over arrays, proved against `Encode` and `BE`.
- `Xxid` (xxid.go): the record, the width tables, `encodeBinary`/`decodeBinary`, `Base62`/`ParseBase62`, `SetFlag`/`Flag`, `Short`, `MachineID` and the JSON quoting.
- `XxidString` (xxid.go): `String`, `ParseString` and `int2byte`.
- `Sequencer` (generator.go): the package counter and `readTimeAndCounter`, as a class.
- `IdGenerator` (generator.go): the `Generator` class, its builder methods, `newID`, `New` and `NewWithTime`.
- `LegacyId` (id.go): the 15-byte format.

Some inputs become parameters, because the model cannot compute them:

- the clock, as milliseconds, nanoseconds or seconds;
- random numbers;
- the host machine bytes and the pid;
- the calendar fields `String` prints, as a `Calendar` value;
- the parse of the 14-digit date prefix, as a `Clock` function.

Go's `uint8`, `uint16`, `uint32` and `int64` are subset types of `int`. Wrap-around is written out wherever the source can overflow.

## Model

| member | source | states |
|---|---|---|
| Bytes.CopyWithin | xxid.go:243 | `copy` within one buffer towards lower indices: the destination range holds the source range's old bytes and every other byte is unchanged |
| Bytes.PutBigEndian | xxid.go:246 | `binary.BigEndian.PutUintN`: the `n` bytes at the offset become the big-endian digits of the value and nothing else changes |
| Bytes.BERoundTrip | xxid.go:287 | reading back big-endian bytes gives the value written, for values that fit |
| Bytes.GoDivision | generator.go:118 | Go's truncating quotient and remainder recombine to the dividend |
| Bytes.HexRoundTrip | xxid.go:342 | hex-decoding the hex encoding of bytes gives the bytes back |
| Bytes.CompareZero | id.go:357-359 | `bytes.Compare` is 0 exactly for equal byte strings |
| Bytes.CompareSwap | id.go:357-359 | swapping the arguments of `bytes.Compare` negates the result |
| Bytes.CompareTransitive | id.go:357-359 | `bytes.Compare` is a transitive order |
| Base62.CharacterTable | base62.go:5 | the alphabet constant has 62 characters: the digits, then the upper-case letters, then the lower-case letters |
| Base62.CharacterMonotone | base62.go:4-5 | the alphabet is in ascending ASCII order, so digit order is character order |
| Base62.DecEntry | base62.go:13-26 | a `dec` entry is 0xff or the index of that character in the alphabet |
| Base62.DecEntryOfCharacter | base62.go:13-26 | every alphabet character's `dec` entry is its own index |
| Base62.InitDec | base62.go:13-26 | the initialiser fills all 128 entries of `dec` with the table above |
| Base62.Digits | base62.go:90-96 | each character, masked to its low 7 bits, becomes its alphabet index, or 0xff when it is not in the alphabet |
| Base62.FirstInvalid | base62.go:90-94 | no invalid character is found exactly when every masked character is a base-62 digit; any byte reported is in the text and invalid |
| Base62.FirstInvalidAt | base62.go:90-94 | the byte reported is the first invalid one, unmasked |
| Base62.LookupDigits | base62.go:89-96 | the validation loop returns the first invalid byte, or else the digit string |
| Base62.PackLimbs | base62.go:41-45 | the byte string split into 32-bit limbs has the same big-endian value |
| Base62.DivideDigits | base62.go:51-61 | one long-division pass leaves the quotient's digits without leading zeros and the remainder by the divisor |
| Base62.EncodeBase62 | base62.go:34-75 | `encodeBase62` fills `dst` with the `len(dst)` low-order base-62 digits of the source value, '0'-padded, when `len(src)` is a multiple of 4 and the value fits |
| Base62.DecodeEncode | base62.go:34-75 | an encoding holds only alphabet characters and denotes the encoded value |
| Base62.EncodeDecode | base62.go:85-121 | every valid 7-bit text is the encoding of its own value at its own width |
| Base62.EncodeOrder | base62.go:4-5 | encodings of one width compare as the numbers do, in both directions |
| Base62.EncodePreservesOrder | base62.go:4-5 | for byte strings of one length, the encodings compare as the byte strings do |
| Base62.Widths | xxid.go:91-92 | each binary width fits its base-62 width: 16/22, 20/27, 28/38 |
| Base62.DecodeBase62 | base62.go:85-121 | the error is the first invalid character, with `dst` untouched; otherwise the value's big-endian groups fill the end of `dst` and the bytes above them keep their old contents |
| Base62.WriteGroups | base62.go:97-119 | the division loop writes exactly the value's 4-byte groups at the end of `dst` |
| Base62.DecodeGroup | base62.go:102-118 | one pass writes the next group from the right and shrinks what is left to divide |
| Base62.StoreGroup | base62.go:113-116 | the four stores write one 32-bit group big-endian |
| Base62.GroupsFit | base62.go:79-84 | the decoder's "dst is long enough" precondition holds exactly when the text's value is below 256^len(dst) |
| Base62.ZeroPadded | xxid.go:406-407 | a zeroed buffer after decoding holds the value at the full width |
| Xxid.BinDecodedLength | xxid.go:94 | the decoded length is non-zero exactly for 22, 27 and 38, and is then a multiple of 4 |
| Xxid.TablesAgree | xxid.go:90-94 | the four width tables agree per type, and the decoded-length table inverts the base-62 one |
| Xxid.MachineId | xxid.go:175-177 | `MachineID()` is the 4-, 8- or 16-byte prefix of the machine ID array that the type selects |
| Xxid.MarkFlag | xxid.go:151 | `flag` with `flagMask` or-ed in has the high bit set and keeps the low 15 bits |
| Xxid.SetFlag | xxid.go:150-153 | only the flag changes, and `Flag()` afterwards reports the low 15 bits of the argument |
| Xxid.Flag | xxid.go:156-161 | 0 when the high bit is clear, otherwise the flag without the high bit |
| Xxid.Pack | xxid.go:233-235 | `t<<16` or-ed with `c` has the counter as its low 16 bits, and is `t * 65536 + c` when `t` fits in 48 signed bits |
| Xxid.Short | xxid.go:233-235 | `Short()` has the counter in its low 16 bits, and is `timeMsec * 65536 + counter` for a time within the signed 48-bit range |
| Xxid.ShortOrder | xxid.go:230-235 | within the signed 48-bit time range, `Short()` orders identifiers by time, then by counter |
| Xxid.ShortInjective | xxid.go:230-235 | two identifiers with 48-bit times and the same `Short()` have the same time and counter |
| Xxid.BinaryForm | xxid.go:237-266 | the binary form has `binEncodedLength[type]` bytes |
| Xxid.HeaderOfWord | xxid.go:242-243 | the low six bytes of the 64-bit word `timeMsec<<3` or-ed with the type are the 48-bit header |
| Xxid.EncodeBinary | xxid.go:237-266 | `encodeBinary` writes the binary form: header, counter, machine ID, pid or port, flag |
| Xxid.WriteBinaryHead | xxid.go:241-247 | the first eight bytes are the header and the counter, and every later byte keeps its old value |
| Xxid.WriteBinaryMachine | xxid.go:248-259 | the machine ID of the type's length follows at offset 8; the bytes before and after it keep their old values |
| Xxid.DecodeBinary | xxid.go:268-304 | fewer than 16 bytes, an unknown type and a length that does not match the type each give their error, and nothing else fails |
| Xxid.ReadFields | xxid.go:286-303 | the type decoded is the low three bits of the header |
| Xxid.BinaryRoundTrip | xxid.go:237-304 | decoding the binary form of a canonical identifier gives it back |
| Xxid.BinaryDecodeSound | xxid.go:268-304 | whatever `decodeBinary` accepts is the binary form of the canonical identifier it returns |
| Xxid.BinaryOrder | xxid.go:241-243 | binary forms of canonical identifiers order by time, whatever their other fields |
| Xxid.BinaryOrderBefore | xxid.go:237-247 | binary forms of canonical identifiers of one type order by time, then by counter |
| Xxid.ShortOrderIsTextOrder | xxid.go:230-247 | identifiers of one type whose `Short()` increases, as successive `New` calls give, have increasing binary and base-62 forms |
| Xxid.Base62Text | xxid.go:314-319 | the base-62 form has `b62EncodedLength[type]` characters |
| Xxid.Base62Room | xxid.go:314-319 | the binary form meets `encodeBase62`'s preconditions for the base-62 width |
| Xxid.Base62Form | xxid.go:314-319 | `Base62()` encodes the binary form at the type's base-62 width |
| Xxid.FromBase62 | xxid.go:396-411 | a bad length, the first invalid character and a value too large for the binary width each give their error; otherwise the result is `decodeBinary`'s |
| Xxid.ParseBase62 | xxid.go:396-411 | `ParseBase62`, corrected to reject an oversized value, decodes into a zeroed buffer and returns `FromBase62` |
| Xxid.DecodeZeroed | xxid.go:406-410 | decoding into a zeroed buffer reports the first invalid character, or gives the value big-endian at the full width |
| Xxid.ParseBase62AsWritten | xxid.go:396-411 | the code as written panics exactly where the corrected parse reports an overflow, and agrees with it elsewhere |
| Xxid.AsWrittenPanics | xxid.go:406-407 | "z" followed by 21 '0's has a valid length and only valid characters, yet the code as written panics on it |
| Xxid.ShortOverflowPanics | xxid.go:406-407 | every valid 22-character text whose value is at least 2^128 makes the code as written panic |
| Xxid.Base62RoundTrip | xxid.go:396-411 | parsing the base-62 form of a canonical identifier gives it back, with the code as written too |
| Xxid.Base62DecodeSound | xxid.go:396-411 | whatever `ParseBase62` accepts from 7-bit text is the base-62 form of the canonical identifier it returns |
| Xxid.Base62Order | xxid.go:314-319 | base-62 forms of canonical identifiers of one type order by time, then by counter |
| Xxid.MarshalJson | xxid.go:369-375 | `MarshalJSON` is the base-62 form between double quotes |
| Xxid.FromJson | xxid.go:378-388 | a text shorter than two bytes or not quoted at both ends is `errInvalidJSONString`; otherwise the inside goes to the corrected base-62 parse `FromBase62`, so an oversized value is an error where the code as written panics |
| Xxid.UnmarshalJson | xxid.go:378-388 | with the corrected `ParseBase62`: on success the receiver becomes the parsed identifier; on failure it is unchanged and the error is returned |
| Xxid.JsonRoundTrip | xxid.go:369-388 | unmarshalling the JSON of a canonical identifier gives it back |
| XxidString.DecimalField | xxid.go:494-501 | `int2byte` fills exactly the `n` bytes it is given; which digits it writes is `DecimalFieldDigits` |
| XxidString.DigitTextValue | xxid.go:498 | the text of a non-empty digit string is all ASCII digits and reads back as the number the digits denote |
| XxidString.DecimalFieldDigits | xxid.go:494-501 | for a non-negative value, `int2byte` writes its low `n` decimal digits, zero-padded on the left |
| XxidString.Int2Byte | xxid.go:494-501 | the loop writes the field into `bs[off..off+n]` and leaves the rest of the buffer unchanged |
| XxidString.SingleDigit | xxid.go:345 | the one-digit field of a value below 10 is that digit |
| XxidString.DigitValues | xxid.go:438 | a decimal value is read exactly when the text is non-empty and all digits |
| XxidString.ParseInt | xxid.go:438 | `strconv.ParseInt` of a text that starts with a digit reads the digits |
| XxidString.ParseIntSigned | xxid.go:438 | `strconv.ParseInt` reads the digits after '+', reads them negated after '-', and fails on a text that starts with neither a sign nor a digit |
| XxidString.DecimalRoundTrip | xxid.go:438 | parsing an `n`-digit field gives back any value below 10^n |
| XxidString.MinusOneField | xxid.go:498-499 | the three-character field of -1 is "00/" |
| XxidString.Timestamp | xxid.go:327-338 | the timestamp prefix has 17 characters |
| XxidString.WriteTimestamp | xxid.go:327-338 | the seven `int2byte` calls write the timestamp at the front of the buffer |
| XxidString.StringWith | xxid.go:323-366 | the string form has `strEncodedLength[type]` characters |
| XxidString.StringFormAsWritten | xxid.go:323-366 | `String` as written agrees with the corrected form for every non-negative time |
| XxidString.StringForm | xxid.go:323-366 | the corrected `String` has `strEncodedLength[type]` characters |
| XxidString.WriteHead | xxid.go:327-345 | timestamp, hex flag and type digit fill the first 22 characters |
| XxidString.WriteHexWords | xxid.go:354-363 | the pid-or-port and counter loop writes each value as four hex characters |
| XxidString.StringOf | xxid.go:323-366 | `String` writes the corrected string form |
| XxidString.StringLayout | xxid.go:323-366 | where each field sits in the string: timestamp, flag, type digit, machine ID, pid or port, counter |
| XxidString.TypeDigit | xxid.go:421-424 | the type digit is at most 6 exactly when the character is '0'..'6'; characters below '0' wrap in `uint8` |
| XxidString.FromString | xxid.go:415-492 | a short text, a bad type digit and a length that does not match the type each give their error before any field is read; field errors are `errInvalidStringRepr`; a result is well typed, of the digit's type |
| XxidString.ReadStringFields | xxid.go:429-491 | every field failure is `errInvalidStringRepr` |
| XxidString.ReadWords | xxid.go:477-489 | the loop over the two field pointers changes only pid or port and counter, and fails only with `errInvalidStringRepr` |
| XxidString.ParseString | xxid.go:415-492 | `ParseString` returns `FromString` |
| XxidString.ParseFields | xxid.go:452-491 | the field parses return `ReadStringFields` |
| XxidString.ParseWords | xxid.go:477-489 | the loop returns `ReadWords` |
| XxidString.StringRoundTrip | xxid.go:415-492 | parsing the corrected string form of a well-typed identifier gives it back, when the clock inverts the calendar |
| XxidString.FieldsParse | xxid.go:452-491 | a text holding each field's encoding parses to that identifier |
| XxidString.HeadParse | xxid.go:452-462 | the type digit, timestamp and flag parse back |
| XxidString.TailParse | xxid.go:467-489 | machine ID, pid or port and counter parse back from their hex |
| XxidString.ParseTimestamp | xxid.go:432-443 | `parseTimestamp` fails exactly when the date parse or the millisecond field fails; otherwise it is the seconds times 1000 plus the milliseconds, modulo 2^64 and exactly when that fits |
| XxidString.HexUint16 | xxid.go:444-450 | `parseUint16` succeeds exactly when all four characters are hex digits |
| XxidString.HexUint16Value | xxid.go:444-450 | the value `parseUint16` reads is the four hex digits' value, most significant first |
| XxidString.HexWord | xxid.go:444-450 | `parseUint16` inverts the four-character hex of a 16-bit value |
| XxidString.Padded | xxid.go:471 | a well-typed identifier's machine array is its machine ID followed by zeros |
| XxidString.AsWrittenNegativeTime | xxid.go:328-338 | for time -1, `String` as written prints "00/" as milliseconds and `ParseString` rejects its own output |
| XxidString.MsecRejected | xxid.go:438-441 | a millisecond field "00/" makes `ParseString` fail with `errInvalidStringRepr` |
| Sequencer.RandFlag | generator.go:159-161 | `randFlag()` is below 0x8000 |
| Sequencer.NextReading | generator.go:175-189 | the stored composite packs the returned time and counter; it exceeds the previous one unless that was the largest `int64`; the clock reading and counter come back unchanged when their composite is larger, otherwise the split of `prev + 1` |
| Sequencer.Run | generator.go:175-189 | successive calls give one reading per clock reading |
| Sequencer.RunBounds | generator.go:182-186 | every stored composite lies above the starting store and below the bound plus the number of calls |
| Sequencer.RunIncreasing | generator.go:172-189 | below `MaxInt64`, successive calls store strictly increasing composites, so no time-and-counter pair repeats |
| Sequencer.SaturatedStoreWraps | generator.go:183 | from the largest `int64`, `prev + 1` wraps to the smallest |
| Sequencer.Sequencer.constructor | generator.go:21-24 | the counter starts at the random seed and the store at zero |
| Sequencer.Sequencer.IncrCounter | generator.go:163-165 | the 32-bit counter goes up by one, wrapping, and its low 16 bits are returned |
| Sequencer.Sequencer.ReadTimeAndCounter | generator.go:175-189 | one call increments the counter and stores and returns `NextReading` of the old store |
| IdGenerator.CopyPrefix | generator.go:66 | `copy(dst[:n], src)` overwrites the first `min(n, len(src))` bytes and keeps the rest |
| IdGenerator.SpecifiedType | generator.go:63-75 | lengths 4, 8 and 16 select `Specified4`, `Specified8` and `Specified16`, and only those lengths are supported |
| IdGenerator.Generator.Default | generator.go:21-30 | the default generator: the host or random machine bytes as a 4-byte prefix, the pid, no flag |
| IdGenerator.Generator.constructor | generator.go:47-54 | `NewGenerator` copies the default generator's type, machine ID and pid, with no flag |
| IdGenerator.Generator.UseMachineId | generator.go:62-77 | a supported length sets the type and overwrites that prefix only; any other length is `errUnsupportedMachineIDLength` with the generator unchanged |
| IdGenerator.Generator.UseIPv4 | generator.go:80-84 | sets type `IPv4` and copies the 4 address bytes; pid or port and flag are unchanged |
| IdGenerator.Generator.UseIPv6 | generator.go:87-91 | sets type `IPv6` and copies the 16 address bytes; pid or port and flag are unchanged |
| IdGenerator.Generator.UsePort | generator.go:94-99 | port 0 changes nothing; any other port replaces pid or port and nothing else |
| IdGenerator.Generator.UseFlag | generator.go:105-108 | stores `f` with bit 15 set and changes nothing else |
| IdGenerator.Generator.NewId | xxid.go:129-142 | the generator's fields, the given time and counter, and the generator's flag or else `randFlag()`; the identifier reports the flag set with `UseFlag`, or 0 |
| IdGenerator.Generator.New | generator.go:111-114 | the identifier's `Short()` is the composite the sequencer stores, so it exceeds every earlier one |
| IdGenerator.Generator.NewWithTime | generator.go:117-121 | the milliseconds truncate toward zero, and the counter is incremented without touching the sequencer's store |
| LegacyId.RandFlag | id.go:68-75 | `randFlag()` has its top bit set and keeps the random byte's low 7 bits |
| LegacyId.RandCounter | id.go:78-84 | `randCounter()` is below 2^30 and its low 24 bits are the last three random bytes |
| LegacyId.WriteLayout | id.go:118-132 | the stores write seconds, flag, machine, pid and counter at bytes 0, 4, 5, 9 and 11 |
| LegacyId.Generator.constructor | id.go:51-58 | the default generator: the machine bytes, the pid, `randFlag()` and `randCounter()` |
| LegacyId.Generator.NewId | id.go:118-132 | increments the counter, wrapping, keeps machine, pid and flag, and writes the 32-bit seconds since the epoch, those fields and the counter's low 31 bits; the result passes `FromBytes` |
| LegacyId.CounterByte | id.go:129-131 | a counter below 2^31 leaves the top bit of byte 11 clear |
| LegacyId.FromBytes | id.go:325-332 | succeeds, returning the bytes, exactly when there are 15 of them and byte 11's top bit is clear; otherwise `ErrInvalidID` |
| LegacyId.UnixSeconds | id.go:198-202 | `Time().Unix()` lies between the epoch and 2^32 seconds after it |
| LegacyId.MachineBytes | id.go:215-217 | `Machine()` is the four-byte slot between the flag byte and the pid |
| LegacyId.Pid | id.go:234-236 | `Pid()` is byte 9 times 256 plus byte 10 |
| LegacyId.Counter | id.go:246-248 | `Counter()` is bytes 11..14 as an `int32`, non-negative exactly when byte 11's top bit is clear |
| LegacyId.AccessorsOfLayout | id.go:198-248 | `Time`, `Machine`, `Pid`, `Counter` and the flag byte read back what `newID` wrote |
| LegacyId.Short | id.go:287-291 | `Short()` is never negative, and is `t * 2^31 + c` when byte 11's top bit is clear |
| LegacyId.ShortFields | id.go:345-346 | the time and counter `fromShort` recovers recombine to the short form, with the counter below 2^31 |
| LegacyId.FromShortOf | id.go:339-353 | `fromShort` fails with `ErrInvalidID` exactly for a negative input; otherwise the identifier carries the given flag and machine bytes and passes `FromBytes` |
| LegacyId.FromShort | id.go:339-353 | `fromShort` writes the layout from the short form and the generator's flag, machine and pid, or returns `ErrInvalidID` for a negative input |
| LegacyId.ShortOfFromShort | id.go:339-353 | for every non-negative short form, `Short(fromShort(g, s)) == s` |
| LegacyId.FromShortOfShort | id.go:339-353 | an identifier whose counter has its top bit clear is rebuilt exactly from its short form and its own flag, machine and pid |
| LegacyId.UuidText | id.go:142-156 | 36 characters, '-' at 8, 13, 18 and 23, "00" at 24..25, and the 30 hex digits of the bytes in order elsewhere |
| LegacyId.Uuid | id.go:142-156 | the in-place copies and stores of `UUID()` produce that text |
| LegacyId.SlideGroup | id.go:145-152 | one `copy` within the buffer followed by a separator |
| LegacyId.UuidPayload | id.go:310-314 | the 30 characters `FromUUID` gathers for decoding |
| LegacyId.ParseUuid | id.go:306-322 | succeeds exactly for 36 characters whose 30 payload characters are all hex digits, returning the bytes they spell; every failure is `ErrInvalidID` |
| LegacyId.FromUuid | id.go:306-322 | the in-place gathering of `FromUUID` decodes that payload |
| LegacyId.UuidRoundTrip | id.go:306-322 | `FromUUID(UUID(id)) == id` for every 15-byte identifier |
| LegacyId.ParseUuidFails | id.go:315-318 | a 36-character text fails exactly when a payload character is not a hex digit |
| LegacyId.ParseUuidIgnoresSeparators | id.go:310-314 | positions 8, 13, 18, 23, 24 and 25 never affect the result |
| Bytes.HexDecodeFails | id.go:315 | an even-length text hex-decodes unless one of its characters is not a hex digit |
| LegacyId.Compare | id.go:357-359 | `Compare` is 0 exactly for equal identifiers and is negated by swapping them |
| LegacyId.LessByMachine | id.go:377-388 | `byMachine.Less` holds only between identifiers that differ somewhere outside the flag byte |
| LegacyId.MachineKey | id.go:377-388 | the 14 bytes `byMachine.Less` compares, in its order: machine and pid, then time, then counter |
| LegacyId.LessByMachineIsKeyOrder | id.go:377-388 | `byMachine.Less` is the lexicographic order of those keys |
| LegacyId.LessByMachineStrictWeak | id.go:373-388 | `byMachine.Less` is irreflexive, asymmetric and transitive, and two identifiers are incomparable exactly when their keys are equal |
| LegacyId.SameKey | id.go:377-388 | keys are equal exactly when the identifiers differ at most in the flag byte |

## Left out

- Host identity: `readMachineID`, `readProcessID`, the `/proc/self/cpuset` pid mixing, the md5 and crc32 hashing and the platform host-ID files. The machine bytes and the pid are constructor parameters.
- Randomness (`runtime_fastrand`, `crypto/rand`): the random numbers are parameters, and only the range facts of `randFlag` and `randCounter` are stated.
- Concurrency: the mutex in `readTimeAndCounter` and the atomic adds. Calls are modelled one at a time.
- Calendars and time zones: `time.Unix`, `t.Date()`, `t.Clock()` and `time.ParseInLocation`. `String` takes the calendar fields as a `Calendar` value and `ParseString` takes a `Clock` function. `parseTimestamp`'s `strconv.ParseInt` is modelled with its optional sign. Its range errors are not modelled: the three-character field cannot overflow.
- `ParseString` soundness: there is no lemma that every accepted string is the string form of the result. `hex.Decode` also accepts upper-case digits, and the `Clock` is abstract.
- `net` library calls: `IP()`, `IPPortAddr()` and `MachineIP()` are not modelled. `UseIPv4` and `UseIPv6` take the bytes that `ip.To4()` and `ip.To16()` return.
- `b2s` and `s2b`: the unsafe string conversions are identities on bytes.
- Trivial accessors of the xxid record: `Time`, `MachineIDType`, `Pid`, `Port`, `Counter`. `ParseBinary` is `DecodeBinary`.
- IdGenerator.Generator.UseMachineId: a shorter machine ID set after a longer one keeps the longer one's tail bytes in the array. The identifiers minted then are not `WellTyped`. The model records this state but proves no property about it.
- Machine IDs are `seq<byte>` values rather than fixed-size arrays, so aliasing of the array is not modelled.
- `UseMachineID` panics on an unsupported length. The model returns `UnsupportedMachineIdLength` and leaves the generator unchanged.
- Sequencer.NextReading: strict increase is stated only for a previous store below the largest `int64`. At that value, `prev + 1` wraps, as `SaturatedStoreWraps` shows.
- Legacy `Flag()`, at id.go:206-211: it reads byte 5, the first machine byte, although `newID` writes the flag to byte 4. It is not part of this model.
- Legacy `MachineID()` and `MachineIP()` re-read the machine bytes and are not modelled separately.
- Legacy `String`, `MarshalText`, `UnmarshalText` and `FromString`: they pass 15 bytes to `encodeBase62`, whose limb loop needs a multiple of 4. They also use a width constant that is not part of this model.
- Legacy `FromUUID`: it checks only the length and the hex characters. It accepts any characters at the separator positions and any counter top bit. The model states exactly this.
- `Sort` and `SortByMachine` are `sort.Sort` wrappers. Only their orders, `Compare` and `byMachine.Less`, are modelled.
- The SQL driver methods `Value` and `Scan`, and `IsNil`, `NilID` and `Bytes`: library glue.

## Findings

| source | as written | input that shows it | evidently intended | confidence | as-written member | corrected member |
|---|---|---|---|---|---|---|
| xxid.go:396-411 | `ParseBase62`, and `UnmarshalJSON` at xxid.go:378-388 which calls it, check only the text's length before `decodeBase62`, which writes four bytes per 32-bit group below the end of a buffer sized for the binary form | "z" followed by 21 '0's, a 22-character text of valid characters worth 61·62^21 ≥ 2^128: the fifth group would be written at index -4, an index-out-of-range panic | reject a text whose value does not fit the binary width with an error | not executed | Xxid.ParseBase62AsWritten, Xxid.AsWrittenPanics | Xxid.FromBase62, Xxid.ParseBase62, Xxid.Base62RoundTrip, Xxid.FromJson, Xxid.UnmarshalJson |
| xxid.go:328-338 | the millisecond field is `timeMsec % 1000` with Go's truncating `%`, negative before 1970 | time -1: `int2byte` prints "00/" as the milliseconds, and `ParseString` rejects the string `String` produced | the non-negative remainder, so that `ParseString(String(id))` gives `id` back | not executed | XxidString.StringFormAsWritten, XxidString.AsWrittenNegativeTime | XxidString.StringForm, XxidString.StringRoundTrip |
