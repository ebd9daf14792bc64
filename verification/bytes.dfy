/**
 * Fixed-width integers, big-endian digit strings, byte-wise comparison, hexadecimal text and the
 * buffer primitives (`copy`, `binary.BigEndian.PutUintN`) that the identifier codecs are built from.
 */
module Bytes {
  import opened Wrappers

  type byte = x: int | 0 <= x < 0x100
  type u16 = x: int | 0 <= x < 0x1_0000
  type u32 = x: int | 0 <= x < 0x1_0000_0000
  type int64 = x: int | -0x8000_0000_0000_0000 <= x < 0x8000_0000_0000_0000

  const MaxInt64: int := 0x7fff_ffff_ffff_ffff

  function Pow(b: nat, e: nat): (r: nat)
    ensures b > 0 ==> r > 0
  {
    if e == 0 then 1 else b * Pow(b, e - 1)
  }

  lemma {:induction false} PowAdd(b: nat, m: nat, n: nat)
    ensures Pow(b, m + n) == Pow(b, m) * Pow(b, n)
  {
    if m > 0 {
      var x, y := Pow(b, m - 1), Pow(b, n);
      PowAdd(b, m - 1, n);
      assert Pow(b, m + n) == b * (x * y);
      assert Pow(b, m) == b * x;
      MulAssoc(b, x, y);
    }
  }

  lemma MulAssoc(a: int, b: int, c: int)
    ensures a * (b * c) == (a * b) * c
  {
  }

  lemma {:induction false} PowMono(b: nat, m: nat, n: nat)
    requires b >= 1 && m <= n
    ensures Pow(b, m) <= Pow(b, n)
  {
    if m < n {
      PowMono(b, m, n - 1);
      MulLe(1, b, Pow(b, n - 1));
    }
  }

  lemma MulLe(a: int, c: int, k: nat)
    requires a <= c
    ensures a * k <= c * k
  {
  }

  /** The Euclidean quotient and remainder are the only ones with `0 <= r < d`. */
  lemma DivModUnique(n: int, d: int, q: int, r: int)
    requires d > 0 && 0 <= r < d && n == q * d + r
    ensures n / d == q && n % d == r
  {
    var q', r' := n / d, n % d;
    assert n == q' * d + r';
    if q' < q {
      MulLe(q' + 1, q, d);
      assert false;
    } else if q < q' {
      MulLe(q + 1, q', d);
      assert false;
    }
  }

  lemma DivBelow(v: nat, p: nat)
    requires v < p
    ensures v / p == 0 && v % p == v
  {
    DivModUnique(v, p, 0, v);
  }

  /**
   * One step of schoolbook long division: appending digit `c` (base `base`) to a dividend `p` whose
   * division by `d` gave `q` remainder `rem` yields the quotient digit `(c + rem * base) / d`.
   */
  lemma LongDivStep(p: nat, q: nat, rem: nat, c: nat, base: nat, d: nat)
    requires d > 0 && c < base && rem < d && p == q * d + rem
    ensures (c + rem * base) / d < base
    ensures p * base + c == (q * base + (c + rem * base) / d) * d + (c + rem * base) % d
  {
    var value := c + rem * base;
    var digit, r := value / d, value % d;
    assert value == digit * d + r;
    MulLe(rem, d - 1, base);
    assert value < d * base;
    if digit >= base {
      MulLe(base, digit, d);
    }
    assert p * base + c == q * base * d + value;
  }

  /** `(n / a) / b == n / (a * b)` for positive divisors. */
  lemma DivDiv(n: nat, a: nat, b: nat)
    requires a > 0 && b > 0
    ensures n / a / b == n / (a * b) && n % (a * b) == (n / a) % b * a + n % a
  {
    var q, r := n / a, n % a;
    var q2, r2 := q / b, q % b;
    MulLe(r2, b - 1, a);
    assert n == q2 * (a * b) + (r2 * a + r);
    DivModUnique(n, a * b, q2, r2 * a + r);
  }

  // ---------------------------------------------------------------------------------------------
  // Big-endian positional notation in an arbitrary base

  ghost predicate IsDigits(s: seq<nat>, base: nat) {
    forall i :: 0 <= i < |s| ==> s[i] < base
  }

  /** The number a big-endian digit string denotes (Horner's rule, last digit least significant). */
  function Val(s: seq<nat>, base: nat): nat {
    if |s| == 0 then 0 else Val(s[..|s| - 1], base) * base + s[|s| - 1]
  }

  lemma {:induction false} ValConcat(s: seq<nat>, t: seq<nat>, base: nat)
    ensures Val(s + t, base) == Val(s, base) * Pow(base, |t|) + Val(t, base)
  {
    if |t| == 0 {
      assert s + t == s;
    } else {
      var t' := t[..|t| - 1];
      assert (s + t)[..|s + t| - 1] == s + t';
      ValConcat(s, t', base);
      assert Val(s + t, base) == Val(s + t', base) * base + t[|t| - 1];
      assert Val(t, base) == Val(t', base) * base + t[|t| - 1];
      assert Pow(base, |t|) == base * Pow(base, |t'|);
      ConcatStep(Val(s, base), Pow(base, |t'|), Val(t', base), base, t[|t| - 1]);
    }
  }

  lemma ConcatStep(a: int, p: int, b: int, base: int, c: int)
    ensures (a * p + b) * base + c == a * (base * p) + (b * base + c)
  {
  }

  lemma ValSingle(d: nat, base: nat)
    ensures Val([d], base) == d
  {
    assert [d][..0] == [];
  }

  /** Adding a most-significant digit. */
  lemma ValPrepend(d: nat, s: seq<nat>, base: nat)
    ensures Val([d] + s, base) == d * Pow(base, |s|) + Val(s, base)
  {
    ValConcat([d], s, base);
    ValSingle(d, base);
  }

  lemma {:induction false} ValBound(s: seq<nat>, base: nat)
    requires IsDigits(s, base)
    ensures Val(s, base) < Pow(base, |s|)
  {
    if |s| > 0 {
      var p := s[..|s| - 1];
      var vp, d, q := Val(p, base), s[|s| - 1], Pow(base, |p|);
      ValBound(p, base);
      assert Val(s, base) == vp * base + d;
      assert Pow(base, |s|) == base * q;
      MulLe(vp, q - 1, base);
      assert (q - 1) * base == q * base - base;
    }
  }

  /** Leading zero digits do not change the value. */
  lemma {:induction false} ValLeadingZeros(z: seq<nat>, s: seq<nat>, base: nat)
    requires forall i :: 0 <= i < |z| ==> z[i] == 0
    ensures Val(z + s, base) == Val(s, base)
  {
    ValConcat(z, s, base);
    ValZero(z, base);
  }

  lemma {:induction false} ValZero(z: seq<nat>, base: nat)
    requires forall i :: 0 <= i < |z| ==> z[i] == 0
    ensures Val(z, base) == 0
  {
    if |z| > 0 {
      ValZero(z[..|z| - 1], base);
    }
  }

  /** A digit string whose leading digit is non-zero denotes a positive number. */
  lemma {:induction false} ValPositive(s: seq<nat>, base: nat)
    requires |s| > 0 && s[0] != 0 && base > 0
    ensures Val(s, base) > 0
  {
    ValPrepend(s[0], s[1..], base);
    assert [s[0]] + s[1..] == s;
    MulLe(1, s[0], Pow(base, |s| - 1));
  }

  /** The `n` low-order digits of `v` in `base`, most significant first. */
  function ToBase(v: nat, n: nat, base: nat): (r: seq<nat>)
    requires base >= 2
    ensures |r| == n && IsDigits(r, base)
  {
    if n == 0 then [] else ToBase(v / base, n - 1, base) + [v % base]
  }

  lemma {:induction false} ToBaseVal(v: nat, n: nat, base: nat)
    requires base >= 2
    ensures Val(ToBase(v, n, base), base) == v % Pow(base, n)
  {
    if n == 0 {
    } else {
      var r := ToBase(v, n, base);
      assert r[..n - 1] == ToBase(v / base, n - 1, base);
      ToBaseVal(v / base, n - 1, base);
      DivDiv(v, base, Pow(base, n - 1));
    }
  }

  /** Any digit string is the `ToBase` rendering of its own value: the notation is unique. */
  lemma {:induction false} ValToBase(s: seq<nat>, base: nat)
    requires base >= 2 && IsDigits(s, base)
    ensures ToBase(Val(s, base), |s|, base) == s
  {
    if |s| > 0 {
      var p := s[..|s| - 1];
      DivModUnique(Val(s, base), base, Val(p, base), s[|s| - 1]);
      ValToBase(p, base);
      assert s == p + [s[|s| - 1]];
    }
  }

  lemma ToBaseExact(v: nat, n: nat, base: nat)
    requires base >= 2 && v < Pow(base, n)
    ensures Val(ToBase(v, n, base), base) == v
  {
    ToBaseVal(v, n, base);
    DivModUnique(v, Pow(base, n), 0, v);
  }

  lemma ToBaseUnfold(v: nat, n: nat, base: nat)
    requires base >= 2 && n > 0
    ensures ToBase(v, n, base) == ToBase(v / base, n - 1, base) + [v % base]
  {
  }

  /** `ToBase` splits into a high part (`hi` is `v / base^m`) and a low part. */
  lemma {:induction false} ToBaseSplit(v: nat, k: nat, m: nat, base: nat, hi: nat)
    requires base >= 2 && hi == v / Pow(base, m)
    ensures ToBase(v, k + m, base) == ToBase(hi, k, base) + ToBase(v, m, base)
    decreases m
  {
    if m > 0 {
      var p := Pow(base, m - 1);
      assert Pow(base, m) == base * p;
      DivDiv(v, base, p);
      ToBaseSplit(v / base, k, m - 1, base, hi);
      ToBaseUnfold(v, k + m, base);
      ToBaseUnfold(v, m, base);
    }
  }

  /** The digits of `v` depend only on `v` modulo `base^n`. */
  lemma ToBaseMod(v: nat, n: nat, base: nat)
    requires base >= 2
    ensures ToBase(v, n, base) == ToBase(v % Pow(base, n), n, base)
  {
    ToBaseVal(v, n, base);
    ValToBase(ToBase(v, n, base), base);
  }

  lemma {:induction false} ToBaseZero(n: nat, base: nat)
    requires base >= 2
    ensures forall i :: 0 <= i < n ==> ToBase(0, n, base)[i] == 0
  {
    if n > 0 {
      ToBaseZero(n - 1, base);
      ToBaseUnfold(0, n, base);
    }
  }

  /** Appending a least-significant digit. */
  lemma ValSnoc(s: seq<nat>, d: nat, base: nat)
    ensures Val(s + [d], base) == Val(s, base) * base + d
  {
    assert (s + [d])[..|s|] == s;
  }

  /** Reading one more digit of `s`. */
  lemma ValPrefix(s: seq<nat>, j: nat, base: nat)
    requires j < |s|
    ensures Val(s[..j + 1], base) == Val(s[..j], base) * base + s[j]
  {
    assert s[..j + 1] == s[..j] + [s[j]];
    ValSnoc(s[..j], s[j], base);
  }

  /** Number of base-`base` digits the division loops of the codecs produce for `v` (at least one). */
  function DigitCount(v: nat, base: nat): (r: nat)
    requires base >= 2
    ensures r >= 1
    decreases v
  {
    if v < base then 1 else QuotientSmaller(v, base); 1 + DigitCount(v / base, base)
  }

  lemma QuotientSmaller(v: nat, base: nat)
    requires base >= 2 && v >= base
    ensures v / base < v
  {
    var q := v / base;
    assert q * base <= v;
    MulLe(2, base, q);
  }

  lemma QuotientBelow(v: nat, base: nat, p: nat, q: nat)
    requires base >= 2 && q == v / base
    ensures q < p <==> v < base * p
  {
    assert v == q * base + v % base;
    if q < p {
      MulLe(q + 1, p, base);
    } else {
      MulLe(p, q, base);
    }
  }

  /** `v` needs at most `n` digits exactly when it is below `base^n`. */
  lemma {:induction false} DigitCountBound(v: nat, n: nat, base: nat)
    requires base >= 2 && n >= 1
    ensures DigitCount(v, base) <= n <==> v < Pow(base, n)
    decreases n
  {
    var p := Pow(base, n - 1);
    assert Pow(base, n) == base * p;
    if v < base {
      assert Pow(base, 1) == base;
      PowMono(base, 1, n);
    } else if n == 1 {
    } else {
      var q := v / base;
      DigitCountBound(q, n - 1, base);
      QuotientBelow(v, base, p, q);
    }
  }

  // ---------------------------------------------------------------------------------------------
  // Byte strings

  /** `binary.BigEndian` encoding of the low `n` bytes of `v`. */
  function BE(v: nat, n: nat): (r: seq<byte>)
    ensures |r| == n
  {
    ToBase(v, n, 256)
  }

  /** `binary.BigEndian.UintN` read of a byte string. */
  function BEValue(s: seq<byte>): nat {
    Val(s, 256)
  }

  lemma BEValueBound(s: seq<byte>)
    ensures BEValue(s) < Pow(256, |s|)
  {
    ValBound(s, 256);
  }

  lemma BERoundTrip(v: nat, n: nat)
    requires v < Pow(256, n)
    ensures BEValue(BE(v, n)) == v
  {
    ToBaseExact(v, n, 256);
  }

  lemma BEOfValue(s: seq<byte>)
    ensures BE(BEValue(s), |s|) == s
  {
    ValToBase(s, 256);
  }

  /** The last `m` bytes of a big-endian form are the form of `v` modulo `256^m`. */
  lemma BESuffix(v: nat, k: nat, m: nat)
    ensures BE(v, k + m)[k..] == BE(v % Pow(256, m), m)
  {
    ToBaseSplit(v, k, m, 256, v / Pow(256, m));
    assert BE(v, k + m)[k..] == BE(v, m);
    ToBaseMod(v, m, 256);
  }

  /** `bytes.Compare`: lexicographic order, -1, 0 or 1. */
  function Compare(a: seq<nat>, b: seq<nat>): (r: int)
    ensures -1 <= r <= 1
  {
    if |a| == 0 && |b| == 0 then 0
    else if |a| == 0 then -1
    else if |b| == 0 then 1
    else if a[0] < b[0] then -1
    else if a[0] > b[0] then 1
    else Compare(a[1..], b[1..])
  }

  lemma {:induction false} CompareZero(a: seq<nat>, b: seq<nat>)
    ensures Compare(a, b) == 0 <==> a == b
  {
    if |a| > 0 && |b| > 0 && a[0] == b[0] {
      CompareZero(a[1..], b[1..]);
      assert a == [a[0]] + a[1..] && b == [b[0]] + b[1..];
    }
  }

  lemma {:induction false} CompareSwap(a: seq<nat>, b: seq<nat>)
    ensures Compare(b, a) == -Compare(a, b)
  {
    if |a| > 0 && |b| > 0 && a[0] == b[0] {
      CompareSwap(a[1..], b[1..]);
    }
  }

  lemma {:induction false} CompareTransitive(a: seq<nat>, b: seq<nat>, c: seq<nat>)
    requires Compare(a, b) < 0 && Compare(b, c) < 0
    ensures Compare(a, c) < 0
  {
    if |a| > 0 && |b| > 0 && |c| > 0 && a[0] == b[0] == c[0] {
      CompareTransitive(a[1..], b[1..], c[1..]);
    }
  }

  /** Two strings that share an equal-length prefix compare like their remainders; a difference
      inside equal-length prefixes decides the comparison. */
  lemma {:induction false} CompareConcat(a: seq<nat>, b: seq<nat>, x: seq<nat>, y: seq<nat>)
    requires |a| == |b|
    ensures Compare(a + x, b + y) == if a == b then Compare(x, y) else Compare(a, b)
  {
    if |a| > 0 {
      assert (a + x)[1..] == a[1..] + x;
      assert (b + y)[1..] == b[1..] + y;
      CompareConcat(a[1..], b[1..], x, y);
      if a[0] == b[0] && a != b {
        assert a == [a[0]] + a[1..] && b == [b[0]] + b[1..];
      }
    } else {
      assert a + x == x && b + y == y;
    }
  }

  lemma LeadingDigitDecides(d1: nat, d2: nat, x: nat, y: nat, p: nat)
    requires d1 < d2 && x < p && y < p
    ensures d1 * p + x < d2 * p + y
  {
    MulLe(d1 + 1, d2, p);
  }

  /** For digit strings of one length, lexicographic order is numeric order. */
  lemma {:induction false} CompareVal(a: seq<nat>, b: seq<nat>, base: nat)
    requires |a| == |b| && IsDigits(a, base) && IsDigits(b, base)
    ensures Compare(a, b) < 0 <==> Val(a, base) < Val(b, base)
    ensures Compare(a, b) == 0 <==> Val(a, base) == Val(b, base)
  {
    if |a| > 0 {
      var a', b' := a[1..], b[1..];
      var p := Pow(base, |a'|);
      var x, y := Val(a', base), Val(b', base);
      assert a == [a[0]] + a' && b == [b[0]] + b';
      ValPrepend(a[0], a', base);
      ValPrepend(b[0], b', base);
      assert Val(a, base) == a[0] * p + x && Val(b, base) == b[0] * p + y;
      ValBound(a', base);
      ValBound(b', base);
      if a[0] < b[0] {
        LeadingDigitDecides(a[0], b[0], x, y, p);
      } else if a[0] > b[0] {
        LeadingDigitDecides(b[0], a[0], y, x, p);
      } else {
        CompareVal(a', b', base);
      }
    }
  }

  // ---------------------------------------------------------------------------------------------
  // Go integer conversions

  /** Two's-complement reinterpretation of the low 64 bits of `x` (Go's `int64(...)` of a wider value). */
  function WrapInt64(x: int): (r: int64)
    ensures r % 0x1_0000_0000_0000_0000 == x % 0x1_0000_0000_0000_0000
    ensures -0x8000_0000_0000_0000 <= x <= MaxInt64 ==> r == x
  {
    var m := x % 0x1_0000_0000_0000_0000;
    if m <= MaxInt64 then m else m - 0x1_0000_0000_0000_0000
  }

  /** Go's `/` on signed integers: truncation toward zero. */
  function GoQuo(a: int, b: int): int
    requires b > 0
  {
    if a >= 0 then a / b else -((-a) / b)
  }

  /** Go's `%` on signed integers: the remainder has the sign of the dividend. */
  function GoRem(a: int, b: int): (r: int)
    requires b > 0
    ensures -b < r < b && (a >= 0 ==> 0 <= r) && (a <= 0 ==> r <= 0)
    ensures a >= 0 ==> r == a % b
  {
    if a >= 0 then a % b else -((-a) % b)
  }

  /** Go's quotient and remainder satisfy the division identity `a == (a / b) * b + a % b`. */
  lemma GoDivision(a: int, b: int)
    requires b > 0
    ensures a == GoQuo(a, b) * b + GoRem(a, b)
  {
    if a < 0 {
      assert -a == (-a) / b * b + (-a) % b;
    }
  }

  // ---------------------------------------------------------------------------------------------
  // Hexadecimal text (`encoding/hex`)

  /** Lower-case hexadecimal digit, as `hex.Encode` writes it. */
  function HexDigit(n: nat): (c: byte)
    requires n < 16
  {
    if n < 10 then '0' as int + n else 'a' as int + (n - 10)
  }

  /** The value of a hexadecimal digit in either case, as `hex.Decode` accepts it. */
  function HexNibble(c: byte): Option<nat> {
    if '0' as int <= c <= '9' as int then Some(c - '0' as int)
    else if 'a' as int <= c <= 'f' as int then Some(c - 'a' as int + 10)
    else if 'A' as int <= c <= 'F' as int then Some(c - 'A' as int + 10)
    else None
  }

  function HexEncode(b: seq<byte>): (r: seq<byte>)
    ensures |r| == 2 * |b|
  {
    if |b| == 0 then [] else [HexDigit(b[0] / 16), HexDigit(b[0] % 16)] + HexEncode(b[1..])
  }

  /** Decoding two hexadecimal characters into one byte. */
  function HexPair(hi: byte, lo: byte): Option<byte> {
    match (HexNibble(hi), HexNibble(lo))
    case (Some(h), Some(l)) => assert h < 16 && l < 16; Some(h * 16 + l)
    case _ => None
  }

  /** `hex.Decode`: `None` when the text has odd length or some character is not a hexadecimal digit. */
  function HexDecode(s: seq<byte>): (r: Option<seq<byte>>)
    ensures r.Some? ==> 2 * |r.value| == |s|
  {
    if |s| == 0 then Some([])
    else if |s| == 1 then None
    else
      match HexPair(s[0], s[1])
      case None => None
      case Some(x) =>
        match HexDecode(s[2..])
        case None => None
        case Some(rest) => Some([x] + rest)
  }

  /** An even-length text hex-decodes unless one of its characters is not a hexadecimal digit. */
  lemma {:induction false} HexDecodeFails(s: seq<byte>)
    requires |s| % 2 == 0
    ensures HexDecode(s).None? <==> exists i :: 0 <= i < |s| && HexNibble(s[i]).None?
  {
    if |s| > 0 {
      HexDecodeFails(s[2..]);
      if HexDecode(s[2..]).None? {
        var i :| 0 <= i < |s| - 2 && HexNibble(s[2..][i]).None?;
        assert HexNibble(s[i + 2]).None?;
      }
      if HexNibble(s[0]).None? || HexNibble(s[1]).None? {
        assert HexPair(s[0], s[1]).None?;
      } else {
        assert HexPair(s[0], s[1]).Some?;
        forall i | 2 <= i < |s|
          ensures s[i] == s[2..][i - 2]
        {
        }
      }
    }
  }

  /** Every hexadecimal string decodes back to the bytes that produced it. */
  lemma {:induction false} HexRoundTrip(b: seq<byte>)
    ensures HexDecode(HexEncode(b)) == Some(b)
  {
    if |b| > 0 {
      var e := HexEncode(b);
      assert e[2..] == HexEncode(b[1..]);
      HexRoundTrip(b[1..]);
      assert [b[0]] + b[1..] == b;
    }
  }

  lemma {:induction false} HexEncodeConcat(a: seq<byte>, b: seq<byte>)
    ensures HexEncode(a + b) == HexEncode(a) + HexEncode(b)
  {
    if |a| > 0 {
      assert (a + b)[1..] == a[1..] + b;
      HexEncodeConcat(a[1..], b);
    } else {
      assert a + b == b;
    }
  }

  /** Decoding an even-length prefix and the rest separately. */
  lemma {:induction false} HexDecodeConcat(s: seq<byte>, t: seq<byte>)
    requires |s| % 2 == 0
    ensures HexDecode(s + t) ==
      match (HexDecode(s), HexDecode(t))
      case (Some(x), Some(y)) => Some(x + y)
      case _ => None
  {
    if |s| == 0 {
      assert s + t == t;
      match HexDecode(t)
      case None =>
      case Some(y) => assert [] + y == y;
    } else {
      var st := s + t;
      assert st[2..] == s[2..] + t;
      assert st[0] == s[0] && st[1] == s[1];
      HexDecodeConcat(s[2..], t);
      match HexPair(s[0], s[1])
      case None =>
        assert HexDecode(st) == None;
        assert HexDecode(s) == None;
      case Some(x) =>
        assert HexDecode(s) == match HexDecode(s[2..]) case None => None case Some(u) => Some([x] + u);
        match (HexDecode(s[2..]), HexDecode(t))
        case (Some(u), Some(y)) =>
          assert [x] + u + y == [x] + (u + y);
        case _ =>
    }
  }

  lemma HexDecodePair(s: seq<byte>)
    requires |s| == 2
    ensures HexDecode(s) == match HexPair(s[0], s[1]) case Some(x) => Some([x]) case None => None
  {
    assert s[2..] == [];
    assert HexDecode(s[2..]) == Some([]);
    match HexPair(s[0], s[1])
    case None =>
    case Some(x) =>
      assert [x] + [] == [x];
  }

  // ---------------------------------------------------------------------------------------------
  // Buffer primitives

  /** Go's `copy(a[off:], src)` when `src` fits. */
  method CopyInto(a: array<byte>, off: nat, src: seq<byte>)
    requires off + |src| <= a.Length
    modifies a
    ensures a[..] == old(a[..off]) + src + old(a[off + |src|..])
  {
    ghost var o := a[..];
    var i := 0;
    while i < |src|
      invariant 0 <= i <= |src| && a.Length == |o|
      invariant forall j :: 0 <= j < a.Length && !(off <= j < off + i) ==> a[j] == o[j]
      invariant forall j :: off <= j < off + i ==> a[j] == src[j - off]
    {
      a[off + i] := src[i];
      i := i + 1;
    }
    Splice(a[..], o, off, src);
  }

  /** A buffer that agrees with `o` outside `[off, off + |src|)` and with `src` inside it. */
  lemma Splice(b: seq<byte>, o: seq<byte>, off: nat, src: seq<byte>)
    requires |b| == |o| && off + |src| <= |o|
    requires forall j :: 0 <= j < |b| && !(off <= j < off + |src|) ==> b[j] == o[j]
    requires forall j :: off <= j < off + |src| ==> b[j] == src[j - off]
    ensures b == o[..off] + src + o[off + |src|..]
  {
    var want := o[..off] + src + o[off + |src|..];
    forall j | 0 <= j < |b|
      ensures b[j] == want[j]
    {
      if j < off {
      } else if j < off + |src| {
      } else {
        assert want[j] == o[off + |src|..][j - off - |src|];
      }
    }
  }

  /** After writing `piece` at `off`, the buffer up to the end of the piece is the old prefix
      followed by the piece, and everything from `k` on is as it was. */
  lemma Advance(b1: seq<byte>, b2: seq<byte>, off: nat, piece: seq<byte>, k: nat)
    requires off + |piece| <= k <= |b1|
    requires b2 == b1[..off] + piece + b1[off + |piece|..]
    ensures b2[..off + |piece|] == b1[..off] + piece
    ensures b2[k..] == b1[k..]
  {
    assert b2[..off + |piece|] == b1[..off] + piece;
    assert b1[off + |piece|..][k - off - |piece|..] == b1[k..];
  }

  /** Go's `copy(a[dst:dst+n], a[src:src+n])` for an overlapping copy towards the front. */
  method CopyWithin(a: array<byte>, dst: nat, src: nat, n: nat)
    requires dst <= src && src + n <= a.Length
    modifies a
    ensures a[..] == old(a[..dst]) + old(a[src..src + n]) + old(a[dst + n..])
  {
    ghost var o := a[..];
    var i := 0;
    while i < n
      invariant 0 <= i <= n && Shifted(a[..], o, dst, src, i)
    {
      ghost var b := a[..];
      a[dst + i] := a[src + i];
      ShiftStep(b, a[..], o, dst, src, i);
      i := i + 1;
    }
    ShiftDone(a[..], o, dst, src, n);
  }

  /** `b` is `o` with its first `i` bytes from `src` on copied to `dst`. */
  ghost predicate Shifted(b: seq<byte>, o: seq<byte>, dst: nat, src: nat, i: nat) {
    && |b| == |o| && dst + i <= |b| && src + i <= |b|
    && (forall j :: 0 <= j < |b| && !(dst <= j < dst + i) ==> b[j] == o[j])
    && (forall j :: dst <= j < dst + i ==> b[j] == o[j - dst + src])
  }

  /** Copying one more byte forward keeps `Shifted`: the source byte is not yet overwritten. */
  lemma ShiftStep(b: seq<byte>, b': seq<byte>, o: seq<byte>, dst: nat, src: nat, i: nat)
    requires dst <= src && src + i < |b| && Shifted(b, o, dst, src, i)
    requires b' == b[dst + i := b[src + i]]
    ensures Shifted(b', o, dst, src, i + 1)
  {
    assert b[src + i] == o[src + i];
  }

  lemma ShiftDone(b: seq<byte>, o: seq<byte>, dst: nat, src: nat, n: nat)
    requires dst <= src && src + n <= |b| && Shifted(b, o, dst, src, n)
    ensures b == o[..dst] + o[src..src + n] + o[dst + n..]
  {
    var want := o[..dst] + o[src..src + n] + o[dst + n..];
    forall j | 0 <= j < |b|
      ensures b[j] == want[j]
    {
      if j < dst {
      } else if j < dst + n {
        assert want[j] == o[src..src + n][j - dst];
      } else {
        assert want[j] == o[dst + n..][j - dst - n];
      }
    }
  }

  /** `binary.BigEndian.PutUintN`: the low `n` bytes of `v`, most significant first. */
  method PutBigEndian(a: array<byte>, off: nat, n: nat, v: nat)
    requires off + n <= a.Length
    modifies a
    ensures a[..] == old(a[..off]) + BE(v, n) + old(a[off + n..])
  {
    ghost var o := a[..];
    ghost var be := BE(v, n);
    var k, x := n, v;
    while k > 0
      invariant 0 <= k <= n && a.Length == |o|
      invariant x == v / Pow(256, n - k)
      invariant forall j :: 0 <= j < a.Length && !(off + k <= j < off + n) ==> a[j] == o[j]
      invariant forall j :: off + k <= j < off + n ==> a[j] == be[j - off]
    {
      PutStep(v, n, k, x);
      a[off + k - 1] := x % 256;
      x := x / 256;
      k := k - 1;
    }
    Splice(a[..], o, off, be);
  }

  /** The byte `PutBigEndian` stores at position `k - 1` and the quotient it carries on. */
  lemma PutStep(v: nat, n: nat, k: nat, x: nat)
    requires 0 < k <= n && x == v / Pow(256, n - k)
    ensures BE(v, n)[k - 1] == x % 256
    ensures x / 256 == v / Pow(256, n - (k - 1))
  {
    ToBaseSplit(v, k, n - k, 256, x);
    ToBaseUnfold(x, k, 256);
    DivDiv(v, Pow(256, n - k), 256);
    assert Pow(256, n - k + 1) == 256 * Pow(256, n - k);
  }
}
