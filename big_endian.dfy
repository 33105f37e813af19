/** Bytes and fixed-width big-endian unsigned integers
    (`usize::to_be_bytes` / `usize::from_be_bytes`). */
module BigEndian {

  newtype byte = b: int | 0 <= b < 256

  function Pow256(n: nat): (p: nat)
    ensures p >= 1
  {
    if n == 0 then 1 else 256 * Pow256(n - 1)
  }

  /** The `width` bytes of `v`, most significant first. */
  function ToBytes(v: nat, width: nat): (r: seq<byte>)
    requires v < Pow256(width)
    ensures |r| == width
  {
    if width == 0 then [] else ToBytes(v / 256, width - 1) + [(v % 256) as byte]
  }

  /** The unsigned value of `s`, read most significant byte first. */
  function FromBytes(s: seq<byte>): (v: nat)
    ensures v < Pow256(|s|)
  {
    if s == [] then 0 else FromBytes(s[..|s| - 1]) * 256 + s[|s| - 1] as int
  }

  lemma {:induction false} FromToBytes(v: nat, width: nat)
    requires v < Pow256(width)
    ensures FromBytes(ToBytes(v, width)) == v
  {
    if width > 0 {
      var r := ToBytes(v, width);
      assert r[..width - 1] == ToBytes(v / 256, width - 1);
      FromToBytes(v / 256, width - 1);
    }
  }

  lemma {:induction false} ToFromBytes(s: seq<byte>)
    ensures ToBytes(FromBytes(s), |s|) == s
  {
    if s != [] {
      var init := s[..|s| - 1];
      ToFromBytes(init);
      assert s == init + [s[|s| - 1]];
    }
  }

  lemma DivUnique(v: nat, d: nat, t: nat, s: nat)
    requires d > 0 && s < d && v == d * t + s
    ensures v / d == t
  {
    var q, r := v / d, v % d;
    if q < t {
      assert d * t >= d * (q + 1) by { MulLeft(d, q + 1, t); }
    } else if q > t {
      assert d * q >= d * (t + 1) by { MulLeft(d, t + 1, q); }
    }
  }

  lemma MulLeft(d: nat, a: nat, b: nat)
    requires a <= b
    ensures d * a <= d * b
  {
  }

  lemma DivDiv(v: nat, p: nat)
    requires p >= 1
    ensures v / 256 / p == v / (256 * p)
  {
    var q, r := v / 256, v % 256;
    var t, u := q / p, q % p;
    assert q == p * t + u;
    assert v == (256 * p) * t + (256 * u + r);
    DivUnique(v, 256 * p, t, 256 * u + r);
  }

  /** Byte `i` of `ToBytes(v, width)` is digit `width - 1 - i` of `v` in
      base 256: the most significant byte comes first. */
  lemma {:induction false} ToBytesAt(v: nat, width: nat, i: nat)
    requires v < Pow256(width) && i < width
    ensures ToBytes(v, width)[i] as int == v / Pow256(width - 1 - i) % 256
  {
    if i < width - 1 {
      ToBytesAt(v / 256, width - 1, i);
      DivDiv(v, Pow256(width - 2 - i));
    }
  }
}
