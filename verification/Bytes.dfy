/**
 Octets, C strings and the two byte orders the commands use: packed structs are
 read and written little-endian by the host, while the accelerator service
 hands register bytes over most significant first.
 */
module Bytes {

  type byte = x: int | 0 <= x < 256

  /** A C++ string: any octets, NUL included. */
  type Text = seq<byte>

  const TWO_64: int := 0x1_0000_0000_0000_0000

  type uint64 = x: int | 0 <= x < TWO_64

  /** static_cast<uint8_t> of a size. */
  function U8(n: nat): byte { n % 256 }

  /** The octets of a literal. */
  function Ascii(s: string): (t: Text)
    ensures |t| == |s|
  {
    seq(|s|, i requires 0 <= i < |s| => s[i] as int % 256)
  }

  lemma AsciiOctets(s: string, i: nat)
    requires i < |s| && s[i] as int < 256
    ensures Ascii(s)[i] == s[i] as int
  {
  }

  /** What a callee sees of c_str(): the octets before the first NUL. */
  function CStr(t: Text): (r: Text)
    ensures r <= t
    ensures 0 !in r
    ensures |r| < |t| ==> t[|r|] == 0
    ensures 0 !in t ==> r == t
  {
    if t == [] || t[0] == 0 then [] else [t[0]] + CStr(t[1..])
  }

  function Zeros(n: nat): (z: seq<byte>)
    ensures |z| == n
    ensures forall i :: 0 <= i < n ==> z[i] == 0
  {
    seq(n, _ => 0)
  }

  function Pow256(k: nat): (p: nat)
    ensures p > 0
  {
    if k == 0 then 1 else 256 * Pow256(k - 1)
  }

  /** Value of bytes stored least significant first. */
  function FromLE(bs: seq<byte>): nat {
    if bs == [] then 0 else bs[0] + 256 * FromLE(bs[1..])
  }

  /** The k low bytes of v, least significant first. */
  function ToLE(v: nat, k: nat): (bs: seq<byte>)
    ensures |bs| == k
  {
    if k == 0 then [] else [v % 256] + ToLE(v / 256, k - 1)
  }

  /** Positional value of bytes written most significant first. */
  function FromBE(bs: seq<byte>): nat {
    if bs == [] then 0 else bs[0] * Pow256(|bs| - 1) + FromBE(bs[1..])
  }

  function Reverse(bs: seq<byte>): (r: seq<byte>)
    ensures |r| == |bs|
    ensures forall i :: 0 <= i < |bs| ==> r[i] == bs[|bs| - 1 - i]
  {
    seq(|bs|, i requires 0 <= i < |bs| => bs[|bs| - 1 - i])
  }

  lemma {:induction false} FromLEBound(bs: seq<byte>)
    ensures FromLE(bs) < Pow256(|bs|)
  {
    if bs != [] {
      FromLEBound(bs[1..]);
    }
  }

  lemma {:induction false} FromLEAppend(bs: seq<byte>, b: byte)
    ensures FromLE(bs + [b]) == FromLE(bs) + b * Pow256(|bs|)
  {
    if bs == [] {
      assert ([] + [b])[1..] == [];
    } else {
      assert (bs + [b])[1..] == bs[1..] + [b];
      FromLEAppend(bs[1..], b);
      assert 256 * (b * Pow256(|bs| - 1)) == b * Pow256(|bs|);
    }
  }

  lemma {:induction false} BigEndianIsReversedLittleEndian(bs: seq<byte>)
    ensures FromBE(bs) == FromLE(Reverse(bs))
  {
    if bs != [] {
      BigEndianIsReversedLittleEndian(bs[1..]);
      assert Reverse(bs) == Reverse(bs[1..]) + [bs[0]];
      FromLEAppend(Reverse(bs[1..]), bs[0]);
    }
  }

  /** One step of a most-significant-first decoder. */
  lemma FromBEAppend(bs: seq<byte>, b: byte)
    ensures FromBE(bs + [b]) == FromBE(bs) * 256 + b
  {
    BigEndianIsReversedLittleEndian(bs);
    BigEndianIsReversedLittleEndian(bs + [b]);
    assert Reverse(bs + [b]) == [b] + Reverse(bs);
    assert ([b] + Reverse(bs))[1..] == Reverse(bs);
  }

  lemma FromLECons(b: byte, rest: seq<byte>)
    ensures FromLE([b] + rest) == b + 256 * FromLE(rest)
  {
    assert ([b] + rest)[1..] == rest;
  }

  /** The place values of both orders, on four octets. */
  lemma PlaceValues(a: byte, b: byte, c: byte, d: byte)
    ensures FromLE([a] + ([b] + ([c] + ([d] + [])))) == a + 256 * b + 0x1_0000 * c + 0x100_0000 * d
    ensures FromBE((([] + [a]) + [b]) + [c] + [d]) == 0x100_0000 * a + 0x1_0000 * b + 256 * c + d
  {
    FromLECons(d, []);
    FromLECons(c, [d] + []);
    FromLECons(b, [c] + ([d] + []));
    FromLECons(a, [b] + ([c] + ([d] + [])));
    FromBEAppend([], a);
    FromBEAppend([] + [a], b);
    FromBEAppend(([] + [a]) + [b], c);
    FromBEAppend((([] + [a]) + [b]) + [c], d);
  }

  lemma FromBEBound(bs: seq<byte>)
    ensures FromBE(bs) < Pow256(|bs|)
  {
    BigEndianIsReversedLittleEndian(bs);
    FromLEBound(Reverse(bs));
  }

  lemma {:induction false} Pow256Monotone(i: nat, j: nat)
    requires i <= j
    ensures Pow256(i) <= Pow256(j)
  {
    if i < j {
      Pow256Monotone(i, j - 1);
    }
  }

  lemma Pow256Four()
    ensures Pow256(4) == 0x1_0000_0000
  {
    assert Pow256(2) == 0x1_0000;
  }

  lemma SliceOfSlice(s: seq<byte>, i: nat, j: nat, k: nat)
    requires i + k <= j <= |s|
    ensures s[i..j][..k] == s[i..i + k]
  {
  }

  lemma Pow256Eight()
    ensures Pow256(8) == TWO_64
  {
    assert Pow256(2) == 0x1_0000;
    assert Pow256(4) == 0x1_0000_0000;
    assert Pow256(6) == 0x1_0000_0000_0000;
  }

  lemma UptoEightBytesFit(bs: seq<byte>)
    requires |bs| <= 8
    ensures FromLE(bs) < TWO_64
    ensures FromBE(bs) < TWO_64
  {
    FromLEBound(bs);
    FromBEBound(bs);
    Pow256Monotone(|bs|, 8);
    Pow256Eight();
  }

  lemma {:induction false} ToLEOfFromLE(bs: seq<byte>, k: nat)
    requires k <= |bs|
    ensures ToLE(FromLE(bs), k) == bs[..k]
  {
    if k > 0 {
      assert FromLE(bs) % 256 == bs[0] && FromLE(bs) / 256 == FromLE(bs[1..]);
      ToLEOfFromLE(bs[1..], k - 1);
      assert bs[..k] == [bs[0]] + bs[1..][..k - 1];
    }
  }

  lemma {:induction false} ToLEOfZero(k: nat)
    ensures ToLE(0, k) == Zeros(k)
  {
    if k > 0 {
      ToLEOfZero(k - 1);
    }
  }

  lemma {:induction false} ToLEPads(bs: seq<byte>, k: nat)
    requires |bs| <= k
    ensures ToLE(FromLE(bs), k) == bs + Zeros(k - |bs|)
  {
    if bs == [] {
      ToLEOfZero(k);
    } else {
      assert FromLE(bs) % 256 == bs[0] && FromLE(bs) / 256 == FromLE(bs[1..]);
      ToLEPads(bs[1..], k - 1);
      assert bs == [bs[0]] + bs[1..];
    }
  }

  lemma {:induction false} FromLEOfToLE(v: nat, k: nat)
    ensures FromLE(ToLE(v, k)) == v % Pow256(k)
  {
    if k > 0 {
      FromLEOfToLE(v / 256, k - 1);
      assert ToLE(v, k)[1..] == ToLE(v / 256, k - 1);
      SplitModulus(v, 256, Pow256(k - 1), Pow256(k));
    }
  }

  /** The low digit in base b and the rest of a number, taken modulo m = b * p. */
  lemma SplitModulus(v: nat, b: nat, p: nat, m: nat)
    requires b > 0 && p > 0 && m == b * p
    ensures m > 0 && v % m == v % b + b * ((v / b) % p)
  {
    var high, low := v / b, v % b;
    assert v == b * high + low;
    ModuloOfParts(b, p, m, high, low, v);
  }

  lemma ModuloOfParts(b: nat, p: nat, m: nat, high: nat, low: nat, v: nat)
    requires b > 0 && p > 0 && m == b * p && low < b && v == b * high + low
    ensures m > 0 && v % m == low + b * (high % p)
  {
    var q, c := high / p, high % p;
    assert high == p * q + c;
    ScaleBound(b, c, p);
    Recombine(b, p, q, c);
    DivisionIsUnique(v, m, q, low + b * c);
  }

  lemma Recombine(b: nat, p: nat, q: nat, c: nat)
    ensures b * (p * q + c) == (b * p) * q + b * c
  {
  }

  lemma {:induction false} ScaleBound(b: nat, c: nat, p: nat)
    requires c < p
    ensures b * c + b <= b * p
  {
    assert b * p == b * (p - 1) + b;
    if c < p - 1 {
      ScaleBound(b, c, p - 1);
    }
  }

  lemma DivisionIsUnique(v: nat, m: nat, q: nat, r: nat)
    requires m > 0 && v == m * q + r && r < m
    ensures v % m == r
  {
    var d := v / m - q;
    assert m * d == r - v % m by {
      assert m * (v / m) + v % m == m * q + r;
      assert m * d == m * (v / m) - m * q;
    }
    assert d >= 1 ==> m * d >= m;
    assert d <= -1 ==> m * d + m <= 0;
  }
}
