/**
 * The base-62 big-number codec: the alphabet, the 128-entry decoding table, and the two
 * long-division loops that convert between a big-endian byte string and a fixed-width base-62 text.
 */
module Base62 {
  import opened Wrappers
  import opened Bytes

  /** The alphabet, in ascending ASCII order `0-9A-Za-z` (spelt in runs for the verifier). */
  const Characters: string :=
    "0123456789" + "ABCDEFGHIJKLM" + "NOPQRSTUVWXYZ" + "abcdefghijklm" + "nopqrstuvwxyz"
  const OffsetUppercase: nat := 10
  const OffsetLowercase: nat := 36
  /** The limb base of both division loops, `1 << 32`. */
  const Limb: nat := 0x1_0000_0000

  // ---------------------------------------------------------------------------------------------
  // Alphabet and decoding table

  predicate Ascending(s: string, first: int, k: nat)
    decreases |s| - k
  {
    k >= |s| || (s[k] as int == first + k && Ascending(s, first, k + 1))
  }

  lemma {:induction false} AscendingAll(s: string, first: int, k: nat)
    requires Ascending(s, first, k)
    ensures forall i :: k <= i < |s| ==> s[i] as int == first + i
    decreases |s| - k
  {
    if k < |s| {
      AscendingAll(s, first, k + 1);
    }
  }

  lemma AlphabetRuns()
    ensures |Characters| == 62
    ensures forall d :: 0 <= d < 10 ==> Characters[d] as int == '0' as int + d
    ensures forall d :: 10 <= d < 36 ==> Characters[d] as int == 'A' as int + (d - 10)
    ensures forall d :: 36 <= d < 62 ==> Characters[d] as int == 'a' as int + (d - 36)
  {
    DigitRun();
    UpperRun();
    LowerRun();
  }

  lemma DigitRun()
    ensures forall d :: 0 <= d < 10 ==> Characters[d] as int == '0' as int + d
  {
    assert Ascending("0123456789", '0' as int, 0);
    AscendingAll("0123456789", '0' as int, 0);
  }

  lemma UpperRun()
    ensures forall d :: 10 <= d < 36 ==> Characters[d] as int == 'A' as int + (d - 10)
  {
    assert Ascending("ABCDEFGHIJKLM", 'A' as int, 0);
    assert Ascending("NOPQRSTUVWXYZ", 'N' as int, 0);
    AscendingAll("ABCDEFGHIJKLM", 'A' as int, 0);
    AscendingAll("NOPQRSTUVWXYZ", 'N' as int, 0);
  }

  lemma LowerRun()
    ensures forall d :: 36 <= d < 62 ==> Characters[d] as int == 'a' as int + (d - 36)
  {
    assert Ascending("abcdefghijklm", 'a' as int, 0);
    assert Ascending("nopqrstuvwxyz", 'n' as int, 0);
    AscendingAll("abcdefghijklm", 'a' as int, 0);
    AscendingAll("nopqrstuvwxyz", 'n' as int, 0);
  }

  /** The ASCII code of digit `d`: `base62Characters[d]` (see `CharacterTable`). */
  function Character(d: nat): (c: byte)
    requires d < 62
  {
    if d < 10 then '0' as int + d
    else if d < 36 then 'A' as int + (d - OffsetUppercase)
    else 'a' as int + (d - OffsetLowercase)
  }

  /** The alphabet constant is the table `Character` computes. */
  lemma CharacterTable()
    ensures |Characters| == 62
    ensures forall d :: 0 <= d < 62 ==> Characters[d] as int == Character(d)
  {
    AlphabetRuns();
  }

  /** The alphabet is strictly ascending, so digit order is character order. */
  lemma CharacterMonotone(d1: nat, d2: nat)
    requires d1 < 62 && d2 < 62
    ensures d1 < d2 <==> Character(d1) < Character(d2)
  {
  }

  /** Entry `c` of the `dec` table: the digit an alphabet character stands for, 0xff for any other. */
  function DecEntry(c: nat): (d: byte)
    requires c < 128
    ensures d == 0xff || (d < 62 && Character(d) == c)
  {
    if '0' as int <= c <= '9' as int then c - '0' as int
    else if 'A' as int <= c <= 'Z' as int then OffsetUppercase + c - 'A' as int
    else if 'a' as int <= c <= 'z' as int then OffsetLowercase + c - 'a' as int
    else 0xff
  }

  /** Every alphabet character decodes to its own index; with `DecEntry`'s contract, the table
      holds exactly the inverse of the alphabet and 0xff elsewhere. */
  lemma DecEntryOfCharacter(d: nat)
    requires d < 62
    ensures DecEntry(Character(d)) == d
  {
  }

  lemma CharacterOfEntry(c: byte)
    requires c < 128 && DecEntry(c % 128) != 0xff
    ensures Character(DecEntry(c % 128)) == c
  {
  }

  /** The package initialiser that fills `dec` entry by entry. */
  method InitDec() returns (dec: array<byte>)
    ensures fresh(dec) && dec.Length == 128
    ensures forall c :: 0 <= c < 128 ==> dec[c] == DecEntry(c)
  {
    dec := new byte[128](_ => 0);
    var c := 0;
    while c < 128
      invariant 0 <= c <= 128
      invariant forall k :: 0 <= k < c ==> dec[k] == DecEntry(k)
    {
      dec[c] := DecEntry(c);
      c := c + 1;
    }
  }

  // ---------------------------------------------------------------------------------------------
  // Texts as numbers

  /** The digit values `decodeBase62` looks up for a text, each byte masked to its low 7 bits:
      the alphabet index of an alphabet character, 0xff for any other. */
  function Digits(s: seq<byte>): (ds: seq<nat>)
    ensures |ds| == |s|
    ensures forall i :: 0 <= i < |s| && ds[i] < 62 ==> Character(ds[i]) == s[i] % 128
    ensures forall i :: 0 <= i < |s| && ds[i] >= 62 ==>
              ds[i] == 0xff && forall d :: 0 <= d < 62 ==> Character(d) != s[i] % 128
  {
    seq(|s|, i requires 0 <= i < |s| => DecEntry(s[i] % 128) as nat)
  }

  /** The number a base-62 text denotes. */
  function TextValue(s: seq<byte>): nat {
    Val(Digits(s), 62)
  }

  /** The first byte of `s` outside the alphabet, unmasked, as `errInvalidBase62Character` reports it. */
  function FirstInvalid(s: seq<byte>): (r: Option<byte>)
    ensures r.None? <==> IsDigits(Digits(s), 62)
    ensures r.Some? ==> r.value in s && DecEntry(r.value % 128) == 0xff
  {
    if |s| == 0 then None
    else if DecEntry(s[0] % 128) == 0xff then Some(s[0])
    else
      var r := FirstInvalid(s[1..]);
      assert forall i :: 1 <= i < |s| ==> Digits(s)[i] == Digits(s[1..])[i - 1];
      r
  }

  /** When every byte before position `i` is valid and byte `i` is not, that byte is the error. */
  lemma {:induction false} FirstInvalidAt(s: seq<byte>, i: nat)
    requires i < |s| && DecEntry(s[i] % 128) == 0xff
    requires forall k :: 0 <= k < i ==> DecEntry(s[k] % 128) != 0xff
    ensures FirstInvalid(s) == Some(s[i])
  {
    if i > 0 {
      FirstInvalidAt(s[1..], i - 1);
    }
  }

  /** The text of a digit string. */
  function Chars(ds: seq<nat>): (t: seq<byte>)
    requires IsDigits(ds, 62)
    ensures |t| == |ds|
    ensures forall i :: 0 <= i < |ds| ==> t[i] == Character(ds[i])
  {
    seq(|ds|, i requires 0 <= i < |ds| => Character(ds[i]))
  }

  lemma DigitsOfChars(ds: seq<nat>)
    requires IsDigits(ds, 62)
    ensures Digits(Chars(ds)) == ds
  {
    forall i | 0 <= i < |ds|
      ensures Digits(Chars(ds))[i] == ds[i]
    {
      DecEntryOfCharacter(ds[i]);
    }
  }

  /** Texts of equal length compare as their digit strings do. */
  lemma {:induction false} CompareChars(a: seq<nat>, b: seq<nat>)
    requires |a| == |b| && IsDigits(a, 62) && IsDigits(b, 62)
    ensures Compare(Chars(a), Chars(b)) == Compare(a, b)
  {
    if |a| > 0 {
      CharacterMonotone(a[0], b[0]);
      CharacterMonotone(b[0], a[0]);
      assert Chars(a)[1..] == Chars(a[1..]);
      assert Chars(b)[1..] == Chars(b[1..]);
      CompareChars(a[1..], b[1..]);
    }
  }

  /** The `w`-character text that `encodeBase62` produces for `v`: its `w` low-order base-62 digits. */
  function Encode(v: nat, w: nat): (t: seq<byte>)
    ensures |t| == w
  {
    Chars(ToBase(v, w, 62))
  }

  /** A text produced by `Encode` holds only alphabet characters and denotes `v` again. */
  lemma DecodeEncode(v: nat, w: nat)
    requires v < Pow(62, w)
    ensures FirstInvalid(Encode(v, w)) == None
    ensures TextValue(Encode(v, w)) == v
  {
    DigitsOfChars(ToBase(v, w, 62));
    ToBaseExact(v, w, 62);
  }

  /** Every valid text is the encoding of its own value, at its own width. */
  lemma EncodeDecode(s: seq<byte>)
    requires IsDigits(Digits(s), 62) && forall i :: 0 <= i < |s| ==> s[i] < 128
    ensures Encode(TextValue(s), |s|) == s
  {
    DigitsOfValue(s);
    CharsOfDigits(s);
  }

  lemma DigitsOfValue(s: seq<byte>)
    requires IsDigits(Digits(s), 62)
    ensures ToBase(TextValue(s), |s|, 62) == Digits(s)
  {
    var ds := Digits(s);
    assert |ds| == |s| && TextValue(s) == Val(ds, 62);
    ValToBase(ds, 62);
  }

  lemma CharsOfDigits(s: seq<byte>)
    requires IsDigits(Digits(s), 62) && forall i :: 0 <= i < |s| ==> s[i] < 128
    ensures Chars(Digits(s)) == s
  {
    forall i | 0 <= i < |s|
      ensures Chars(Digits(s))[i] == s[i]
    {
      CharacterOfEntry(s[i]);
    }
  }

  /** Encodings of one width compare as the numbers do. */
  lemma EncodeOrder(v1: nat, v2: nat, w: nat)
    requires v1 < Pow(62, w) && v2 < Pow(62, w)
    ensures Compare(Encode(v1, w), Encode(v2, w)) < 0 <==> v1 < v2
    ensures Compare(Encode(v1, w), Encode(v2, w)) == 0 <==> v1 == v2
  {
    var a, b := ToBase(v1, w, 62), ToBase(v2, w, 62);
    CompareChars(a, b);
    CompareVal(a, b, 62);
    ToBaseExact(v1, w, 62);
    ToBaseExact(v2, w, 62);
  }

  /** The binary widths of the identifier forms fit their base-62 widths: 16/22, 20/27 and 28/38. */
  lemma Widths(bin: nat, text: nat)
    requires (bin == 16 && text == 22) || (bin == 20 && text == 27) || (bin == 28 && text == 38)
    ensures Pow(256, bin) <= Pow(62, text)
  {
    PowersOf62();
    PowersOf256();
  }

  lemma PowersOf62()
    ensures Pow(62, 22) == 2707803647802660400290261537185326956544
    ensures Pow(62, 27) == 2480707824361381849652170924082266893544595652608
    ensures Pow(62, 38) == 129087503241250537698846664983273034496615830269405106887493528059904
  {
    assert Pow(62, 5) == 916132832;
    assert Pow(62, 6) == 56800235584;
    PowAdd(62, 5, 6);
    PowAdd(62, 11, 11);
    PowAdd(62, 11, 5);
    PowAdd(62, 22, 5);
    PowAdd(62, 22, 16);
  }

  lemma PowersOf256()
    ensures Pow(256, 16) == 340282366920938463463374607431768211456
    ensures Pow(256, 20) == 1461501637330902918203684832716283019655932542976
    ensures Pow(256, 28) == 26959946667150639794667015087019630673637144422540572481103610249216
  {
    assert Pow(256, 4) == 4294967296;
    PowAdd(256, 4, 4);
    PowAdd(256, 8, 8);
    PowAdd(256, 16, 4);
    PowAdd(256, 8, 4);
    PowAdd(256, 16, 12);
  }

  /** For byte strings of one length, the order of their encodings is their own order. */
  lemma EncodePreservesOrder(s1: seq<byte>, s2: seq<byte>, w: nat)
    requires |s1| == |s2| && Pow(256, |s1|) <= Pow(62, w)
    ensures Compare(Encode(BEValue(s1), w), Encode(BEValue(s2), w)) == Compare(s1, s2)
  {
    BEValueBound(s1);
    BEValueBound(s2);
    EncodeOrder(BEValue(s1), BEValue(s2), w);
    CompareVal(s1, s2, 256);
  }

  // ---------------------------------------------------------------------------------------------
  // The division loops

  /**
   * One pass of the inner loop shared by both directions: divides the big-endian number `bp`
   * (digits in base `base`) by `d`, keeping no leading zero digit in the quotient.
   */
  method DivideDigits(bp: seq<nat>, base: nat, d: nat) returns (quotient: seq<nat>, remainder: nat)
    requires base >= 2 && d > 0 && IsDigits(bp, base)
    ensures IsDigits(quotient, base) && |quotient| <= |bp|
    ensures |quotient| > 0 ==> quotient[0] != 0
    ensures Val(quotient, base) == Val(bp, base) / d && remainder == Val(bp, base) % d
  {
    quotient, remainder := [], 0;
    var j := 0;
    while j < |bp|
      invariant 0 <= j <= |bp| && Dividing(bp, j, quotient, remainder, base, d)
    {
      var value := bp[j] + remainder * base;
      var digit := value / d;
      var next := if |quotient| != 0 || digit != 0 then quotient + [digit] else quotient;
      DivideStep(bp, j, quotient, remainder, base, d, digit, value % d, next);
      quotient, remainder := next, value % d;
      j := j + 1;
    }
    assert bp[..j] == bp;
    DivModUnique(Val(bp, base), d, Val(quotient, base), remainder);
  }

  /** The invariant of the long division after the first `j` digits. */
  ghost predicate Dividing(bp: seq<nat>, j: nat, q: seq<nat>, rem: nat, base: nat, d: nat)
    requires j <= |bp|
  {
    rem < d && IsDigits(q, base) && |q| <= j && (|q| > 0 ==> q[0] != 0) &&
    Val(bp[..j], base) == Val(q, base) * d + rem
  }

  /** One digit of the long division keeps `Dividing`. */
  lemma DivideStep(bp: seq<nat>, j: nat, q: seq<nat>, rem: nat, base: nat, d: nat, digit: nat, r: nat, next: seq<nat>)
    requires base >= 2 && d > 0 && j < |bp| && IsDigits(bp, base) && Dividing(bp, j, q, rem, base, d)
    requires digit == (bp[j] + rem * base) / d && r == (bp[j] + rem * base) % d
    requires next == if |q| != 0 || digit != 0 then q + [digit] else q
    ensures Dividing(bp, j + 1, next, r, base, d)
  {
    LongDivStep(Val(bp[..j], base), Val(q, base), rem, bp[j], base, d);
    ValPrefix(bp, j, base);
    ValSnoc(q, digit, base);
    ValSingle(digit, base);
    Regroup(Val(bp[..j + 1], base), Val(q + [digit], base), Val(bp[..j], base), Val(q, base), bp[j], digit, r, base, d);
  }

  /** Substituting both prefix values into one long-division step. */
  lemma Regroup(after: int, quotient: int, p: int, q: int, c: int, digit: int, r: int, base: int, d: int)
    requires after == p * base + c && quotient == q * base + digit
    requires p * base + c == (q * base + digit) * d + r
    ensures after == quotient * d + r
  {
  }

  /** The value of a four-byte group, as the limb-packing expression computes it. */
  lemma LimbValue(s: seq<nat>, i: nat)
    requires i + 4 <= |s|
    ensures Val(s[..i + 4], 256) ==
      Val(s[..i], 256) * Limb + (s[i] * 0x100_0000 + s[i + 1] * 0x1_0000 + s[i + 2] * 0x100 + s[i + 3])
  {
    ValPrefix(s, i, 256);
    ValPrefix(s, i + 1, 256);
    ValPrefix(s, i + 2, 256);
    ValPrefix(s, i + 3, 256);
  }

  /** One pass of the outer encoding loop: the remainder is the next digit from the right. */
  lemma EncodeStep(v: nat, w: nat, n: nat, hi: nat)
    requires 0 < n <= w && hi == v / Pow(62, w - n)
    ensures Encode(v, w)[n - 1] == Character(hi % 62)
    ensures hi / 62 == v / Pow(62, w - (n - 1))
  {
    ToBaseSplit(v, n, w - n, 62, hi);
    ToBaseUnfold(hi, n, 62);
    DivDiv(v, Pow(62, w - n), 62);
    assert Pow(62, w - n + 1) == 62 * Pow(62, w - n);
  }

  /** Once the quotient is zero, every position still unwritten holds the digit '0'. */
  lemma EncodePadding(v: nat, w: nat, n: nat)
    requires n <= w && v / Pow(62, w - n) == 0
    ensures forall j :: 0 <= j < n ==> Encode(v, w)[j] == '0' as int
  {
    ToBaseSplit(v, n, w - n, 62, 0);
    ToBaseZero(n, 62);
  }

  /** A number below `P` has quotient 0 by `P`, so a positive quotient leaves room to write. */
  lemma QuotientRoom(v: nat, w: nat, m: nat, x: nat)
    requires v < Pow(62, w) && x == v / Pow(62, m) && x > 0 && m <= w
    ensures m < w
  {
    if m == w {
      DivBelow(v, Pow(62, w));
    }
  }

  /** The first loop of `encodeBase62`: splits a byte string into big-endian 32-bit limbs. (The Go
      expression mixes `|` and `+`; the shifted fields do not overlap, so both amount to a sum.) */
  method PackLimbs(src: seq<byte>) returns (parts: seq<nat>)
    requires |src| % 4 == 0
    ensures |parts| == |src| / 4 && IsDigits(parts, Limb)
    ensures Val(parts, Limb) == BEValue(src)
  {
    parts := [];
    var i := 0;
    while i < |src|
      invariant 0 <= i <= |src| && i % 4 == 0
      invariant |parts| == i / 4 && IsDigits(parts, Limb)
      invariant Val(parts, Limb) == Val(src[..i], 256)
    {
      var x: nat := src[i] as int * 0x100_0000 + src[i + 1] as int * 0x1_0000 + src[i + 2] as int * 0x100 + src[i + 3];
      LimbValue(src, i);
      ValSnoc(parts, x, Limb);
      parts := parts + [x];
      i := i + 4;
    }
    assert src[..i] == src;
  }

  /**
   * `encodeBase62`: writes the base-62 text of the big-endian number `src` into all of `dst`,
   * padding on the left with '0'. The caller guarantees that `src` is whole 32-bit limbs and
   * that the number fits `dst` (otherwise the Go code indexes out of range).
   */
  method EncodeBase62(dst: array<byte>, src: seq<byte>)
    requires |src| % 4 == 0
    requires BEValue(src) < Pow(62, dst.Length)
    requires |src| > 0 ==> dst.Length > 0
    modifies dst
    ensures dst[..] == Encode(BEValue(src), dst.Length)
  {
    ghost var v := BEValue(src);
    ghost var e := Encode(v, dst.Length);
    var w := dst.Length;
    var parts := PackLimbs(src);
    var n := w;
    var bp := parts;
    while |bp| != 0
      invariant 0 <= n <= w && IsDigits(bp, Limb)
      invariant Val(bp, Limb) == v / Pow(62, w - n)
      invariant n < w && |bp| > 0 ==> bp[0] != 0
      invariant |bp| > 0 ==> n > 0
      invariant forall j :: n <= j < w ==> dst[j] == e[j]
      decreases Val(bp, Limb) + |bp|
    {
      ghost var hi := Val(bp, Limb);
      var quotient, remainder := DivideDigits(bp, Limb, 62);
      EncodeStep(v, w, n, hi);
      if |quotient| > 0 {
        ValPositive(quotient, Limb);
        QuotientRoom(v, w, w - (n - 1), Val(quotient, Limb));
      }
      n := n - 1;
      dst[n] := Character(remainder);
      bp := quotient;
    }

    // Pad the positions the division did not reach.
    EncodePadding(v, w, n);
    var k := 0;
    while k < n
      invariant 0 <= k <= n
      invariant forall j :: 0 <= j < k ==> dst[j] == '0' as int
      invariant forall j :: n <= j < w ==> dst[j] == e[j]
    {
      dst[k] := '0' as int;
      k := k + 1;
    }
    assert dst[..] == e;
  }

  /** The number of 4-byte groups `decodeBase62` writes for a digit string: none for the empty one. */
  function GroupCount(ds: seq<nat>): nat {
    if |ds| == 0 then 0 else DigitCount(Val(ds, 62), Limb)
  }

  /** The number of 4-byte groups `decodeBase62` writes for a text. */
  function Groups(s: seq<byte>): nat {
    GroupCount(Digits(s))
  }

  /** One pass of the outer decoding loop: the remainder is the next 4-byte group from the right. */
  lemma DecodeStep(v: nat, w: nat, n: nat, hi: nat)
    requires 4 <= n <= w && hi == v / Pow(256, w - n)
    ensures BE(v, w)[n - 4] == hi % Limb / 0x100_0000
    ensures BE(v, w)[n - 3] == hi % Limb / 0x1_0000 % 0x100
    ensures BE(v, w)[n - 2] == hi % Limb / 0x100 % 0x100
    ensures BE(v, w)[n - 1] == hi % Limb % 0x100
    ensures hi / Limb == v / Pow(256, w - (n - 4))
  {
    GroupBytes(hi % Limb);
    assert Pow(256, 4) == Limb;
    ToBaseSplit(v, n, w - n, 256, hi);
    ToBaseSplit(hi, n - 4, 4, 256, hi / Limb);
    ToBaseMod(hi, 4, 256);
    PowAdd(256, 4, w - n);
    DivDiv(v, Pow(256, w - n), Limb);
  }

  /** The four stores of a group: `byte(remainder >> 24)`, `>> 16`, `>> 8` and the low byte. */
  lemma GroupBytes(r: nat)
    requires r < Limb
    ensures BE(r, 4) == [r / 0x100_0000, r / 0x1_0000 % 0x100, r / 0x100 % 0x100, r % 0x100]
  {
    ToBaseUnfold(r, 4, 256);
    ToBaseUnfold(r / 0x100, 3, 256);
    ToBaseUnfold(r / 0x100 / 0x100, 2, 256);
    ToBaseUnfold(r / 0x100 / 0x100 / 0x100, 1, 256);
    DivDiv(r, 0x100, 0x100);
    DivDiv(r, 0x1_0000, 0x100);
    DivBelow(r / 0x100_0000, 0x100);
  }

  /** How the number of groups still to write shrinks by one per pass. */
  lemma GroupsStep(hi: nat, q: seq<nat>)
    requires Val(q, 62) == hi / Limb && (|q| > 0 ==> q[0] != 0)
    ensures |q| > 0 ==> DigitCount(hi, Limb) == 1 + DigitCount(Val(q, 62), Limb)
    ensures |q| == 0 ==> DigitCount(hi, Limb) == 1
  {
    if |q| > 0 {
      ValPositive(q, 62);
    }
  }

  /** A number below `P` has quotient 0 by `P`; a positive quotient by `256^m` leaves room below. */
  lemma GroupRoom(v: nat, w: nat, m: nat, x: nat)
    requires v < Pow(256, w) && x == v / Pow(256, m) && x > 0 && m <= w
    ensures m < w
  {
    if m == w {
      DivBelow(v, Pow(256, w));
    }
  }

  /**
   * `decodeBase62`: checks every character against the table before writing anything; then
   * writes the text's number in big-endian 4-byte groups from the right end of `dst`, leaving
   * the bytes in front of the highest group as they were. The caller guarantees that the
   * number fits `dst` (otherwise the Go code indexes out of range).
   */
  method DecodeBase62(dst: array<byte>, src: seq<byte>) returns (err: Option<byte>)
    requires dst.Length % 4 == 0
    requires FirstInvalid(src).None? ==> TextValue(src) < Pow(256, dst.Length)
    requires FirstInvalid(src).None? && |src| > 0 ==> dst.Length > 0
    modifies dst
    ensures err == FirstInvalid(src)
    ensures err.Some? ==> dst[..] == old(dst[..])
    ensures err.None? ==> 4 * Groups(src) <= dst.Length
    ensures err.None? ==>
              dst[..] == old(dst[..dst.Length - 4 * Groups(src)]) + BE(TextValue(src), 4 * Groups(src))
  {
    var parts;
    err, parts := LookupDigits(src);
    if err == None {
      WriteGroups(dst, parts);
    }
  }

  /** The first loop of `decodeBase62`: looks every character up in the table, stopping at the
      first one outside the alphabet. */
  method LookupDigits(src: seq<byte>) returns (err: Option<byte>, parts: seq<nat>)
    ensures err == FirstInvalid(src)
    ensures err == None ==> parts == Digits(src)
  {
    parts := [];
    var i := 0;
    while i < |src|
      invariant 0 <= i <= |src|
      invariant parts == Digits(src)[..i]
      invariant forall k :: 0 <= k < i ==> DecEntry(src[k] % 128) != 0xff
    {
      var x := DecEntry(src[i] % 128);
      if x == 0xff {
        FirstInvalidAt(src, i);
        return Some(src[i]), parts;
      }
      parts := parts + [x];
      i := i + 1;
    }
    assert parts == Digits(src);
    err := None;
  }

  /** The division loop of `decodeBase62`, for the validated digit string `ds`. */
  method WriteGroups(dst: array<byte>, ds: seq<nat>)
    requires dst.Length % 4 == 0 && IsDigits(ds, 62)
    requires Val(ds, 62) < Pow(256, dst.Length) && (|ds| > 0 ==> dst.Length > 0)
    modifies dst
    ensures 4 * GroupCount(ds) <= dst.Length
    ensures dst[..] == old(dst[..dst.Length - 4 * GroupCount(ds)]) + BE(Val(ds, 62), 4 * GroupCount(ds))
  {
    ghost var v := Val(ds, 62);
    ghost var o := dst[..];
    ghost var full := BE(v, dst.Length);
    var w := dst.Length;
    var n: nat := w;
    var bp := ds;
    ghost var g: nat, k: nat := 0, w / 4;
    PendingStart(ds, w);
    while |bp| > 0
      invariant Decoding(dst[..], o, full, ds, v, n, g, k, bp)
      decreases Val(bp, 62) + |bp|
    {
      bp := DecodeGroup(dst, n, bp, ds, v, g, k, o, full);
      n := n - 4;
      g, k := g + 1, k - 1;
    }
    PendingDone(ds, v, w, n, g, k, bp);
    DecodedSuffix(dst[..], o, full, v, n, w);
  }

  /** The whole state of the division loop: the value and group count still to go, and `b`
      holding the original bytes below `n` and the full big-endian form from `n` on. */
  ghost predicate Decoding(b: seq<byte>, o: seq<byte>, full: seq<byte>, ds: seq<nat>, v: nat,
                           n: nat, g: nat, k: nat, bp: seq<nat>) {
    && Pending(v, |b|, n, g, k, bp) && Counted(ds, g, bp)
    && |o| == |b| && full == BE(v, |b|)
    && (forall j :: 0 <= j < n ==> b[j] == o[j])
    && (forall j :: n <= j < |b| ==> b[j] == full[j])
  }

  /** Before the first pass nothing is written and all of `ds` is still to divide. */
  lemma PendingStart(ds: seq<nat>, w: nat)
    requires w % 4 == 0 && IsDigits(ds, 62)
    requires Val(ds, 62) < Pow(256, w) && (|ds| > 0 ==> w > 0)
    ensures Pending(Val(ds, 62), w, w, 0, w / 4, ds) && Counted(ds, 0, ds)
  {
    assert Pow(256, 0) == 1;
  }

  /** After the last pass the groups written are exactly `GroupCount(ds)` and nothing is left
      above them. */
  lemma PendingDone(ds: seq<nat>, v: nat, w: nat, n: nat, g: nat, k: nat, bp: seq<nat>)
    requires Pending(v, w, n, g, k, bp) && Counted(ds, g, bp) && |bp| == 0
    ensures w - n == 4 * GroupCount(ds) && v / Pow(256, w - n) == 0
  {
  }

  /** One pass of the division loop: divides `bp` by `1 << 32` and stores the remainder as the
      group below `n`. */
  method DecodeGroup(dst: array<byte>, n: nat, bp: seq<nat>, ghost ds: seq<nat>, ghost v: nat,
                     ghost g: nat, ghost k: nat, ghost o: seq<byte>, ghost full: seq<byte>)
      returns (quotient: seq<nat>)
    requires Decoding(dst[..], o, full, ds, v, n, g, k, bp) && |bp| > 0
    modifies dst
    ensures n >= 4 && g + 1 >= 0 && k >= 1
    ensures Decoding(dst[..], o, full, ds, v, n - 4, g + 1, k - 1, quotient)
    ensures Val(quotient, 62) + |quotient| < Val(bp, 62) + |bp|
  {
    var remainder;
    quotient, remainder := DivideDigits(bp, 62, Limb);
    PendingStep(v, dst.Length, n, g, k, bp, quotient, remainder);
    CountedStep(ds, g, bp, quotient);
    StoreGroup(dst, n - 4, remainder, o, full);
  }

  /** What the division loop of `decodeBase62` keeps about values: `g` groups written below
      `w`, and the digits `bp` still to divide hold the value above them. */
  ghost predicate Pending(v: nat, w: nat, n: nat, g: nat, k: nat, bp: seq<nat>) {
    && v < Pow(256, w) && n <= w && w - n == 4 * g && n == 4 * k && IsDigits(bp, 62)
    && Val(bp, 62) == v / Pow(256, w - n)
    && (g > 0 && |bp| > 0 ==> bp[0] != 0)
    && (|bp| > 0 ==> n >= 4)
  }

  /** What the division loop keeps about the number of groups `decodeBase62` writes. */
  ghost predicate Counted(ds: seq<nat>, g: nat, bp: seq<nat>) {
    && (|ds| > 0 && |bp| > 0 ==> GroupCount(ds) == g + DigitCount(Val(bp, 62), Limb))
    && (|ds| > 0 && |bp| == 0 ==> GroupCount(ds) == g)
    && (|ds| == 0 ==> g == 0 && |bp| == 0)
  }

  /** One pass of the division loop keeps `Pending`, gets closer to the end, and writes the
      bytes of the full big-endian form at `n - 4 .. n`. */
  lemma PendingStep(v: nat, w: nat, n: nat, g: nat, k: nat, bp: seq<nat>,
                    quotient: seq<nat>, remainder: nat)
    requires Pending(v, w, n, g, k, bp) && |bp| > 0 && k > 0
    requires IsDigits(quotient, 62) && |quotient| <= |bp| && (|quotient| > 0 ==> quotient[0] != 0)
    requires Val(quotient, 62) == Val(bp, 62) / Limb && remainder == Val(bp, 62) % Limb
    ensures Pending(v, w, n - 4, g + 1, k - 1, quotient)
    ensures Val(quotient, 62) + |quotient| < Val(bp, 62) + |bp|
    ensures BE(v, w)[n - 4] == remainder / 0x100_0000
    ensures BE(v, w)[n - 3] == remainder / 0x1_0000 % 0x100
    ensures BE(v, w)[n - 2] == remainder / 0x100 % 0x100
    ensures BE(v, w)[n - 1] == remainder % 0x100
  {
    DecodeStep(v, w, n, Val(bp, 62));
    if |quotient| > 0 {
      ValPositive(quotient, 62);
      GroupRoom(v, w, w - (n - 4), Val(quotient, 62));
      assert 0 < n - 4 == 4 * (k - 1);
    }
  }

  /** One pass of the division loop keeps `Counted`. */
  lemma CountedStep(ds: seq<nat>, g: nat, bp: seq<nat>, quotient: seq<nat>)
    requires Counted(ds, g, bp) && |bp| > 0
    requires Val(quotient, 62) == Val(bp, 62) / Limb && (|quotient| > 0 ==> quotient[0] != 0)
    ensures Counted(ds, g + 1, quotient)
  {
    GroupsStep(Val(bp, 62), quotient);
  }

  /** Writes one 32-bit group big-endian at `dst[at..at + 4]`, where `full` holds exactly those
      four bytes: the part of `dst` that agrees with `full` grows down to `at`. */
  method StoreGroup(dst: array<byte>, at: nat, r: nat, ghost o: seq<byte>, ghost full: seq<byte>)
    requires at + 4 <= dst.Length == |o| == |full| && r < Limb
    requires full[at] == r / 0x100_0000 && full[at + 1] == r / 0x1_0000 % 0x100
    requires full[at + 2] == r / 0x100 % 0x100 && full[at + 3] == r % 0x100
    requires forall j :: 0 <= j < at + 4 ==> dst[j] == o[j]
    requires forall j :: at + 4 <= j < dst.Length ==> dst[j] == full[j]
    modifies dst
    ensures forall j :: 0 <= j < at ==> dst[j] == o[j]
    ensures forall j :: at <= j < dst.Length ==> dst[j] == full[j]
  {
    dst[at] := r / 0x100_0000;
    dst[at + 1] := r / 0x1_0000 % 0x100;
    dst[at + 2] := r / 0x100 % 0x100;
    dst[at + 3] := r % 0x100;
  }

  lemma DecodedSuffix(b: seq<byte>, o: seq<byte>, full: seq<byte>, v: nat, n: nat, w: nat)
    requires n <= w == |b| == |o| && full == BE(v, w) && v / Pow(256, w - n) == 0
    requires forall j :: 0 <= j < n ==> b[j] == o[j]
    requires forall j :: n <= j < w ==> b[j] == full[j]
    ensures b == o[..n] + BE(v, w - n)
  {
    ToBaseSplit(v, n, w - n, 256, 0);
    assert full[n..] == BE(v, w - n);
    assert b == o[..n] + full[n..];
  }

  /** The decoder's precondition is exactly "the groups it writes fit": for a non-empty valid text,
      `TextValue(s) < 256^L` holds iff `4 * Groups(s) <= L`, for `L` a multiple of 4. */
  lemma GroupsFit(s: seq<byte>, g: nat)
    requires |s| > 0 && g >= 1
    ensures 4 * Groups(s) <= 4 * g <==> TextValue(s) < Pow(256, 4 * g)
  {
    DigitCountBound(TextValue(s), g, Limb);
    LimbPow(g);
  }

  lemma {:induction false} LimbPow(g: nat)
    ensures Pow(Limb, g) == Pow(256, 4 * g)
  {
    if g > 0 {
      LimbPow(g - 1);
      PowAdd(256, 4, 4 * (g - 1));
      assert Pow(256, 4) == Limb;
    }
  }

  /** A buffer of zero bytes after `DecodeBase62` holds the full-width big-endian number. */
  lemma ZeroPadded(v: nat, m: nat, w: nat)
    requires m <= w && v < Pow(256, m)
    ensures seq(w - m, _ => 0) + BE(v, m) == BE(v, w)
  {
    DivBelow(v, Pow(256, m));
    ToBaseSplit(v, w - m, m, 256, 0);
    ToBaseZero(w - m, 256);
  }
}
