/** The FTS3 variable-length integer: little-endian groups of seven bits, the
    high bit of a byte saying that another byte follows. */
module Varint {
  type Byte = b: int | 0 <= b < 256

  const VARINT_MAX := 10
  const TWO_63: int := 0x8000_0000_0000_0000
  const TWO_64: int := 0x1_0000_0000_0000_0000

  type Int64 = v: int | -TWO_63 <= v < TWO_63

  /** The two's complement reinterpretations between int64 and uint64. */
  function ToUnsigned(v: Int64): (u: nat)
    ensures u < TWO_64
  {
    if v < 0 then v + TWO_64 else v
  }

  function ToSigned(u: nat): (v: Int64)
    requires u < TWO_64
    ensures ToUnsigned(v) == u
  {
    if u < TWO_63 then u else u - TWO_64
  }

  /** The canonical encoding of an unsigned value. */
  function Encode(u: nat): (s: seq<Byte>)
    ensures |s| >= 1
  {
    if u < 128 then [u] else [u % 128 + 128] + Encode(u / 128)
  }

  /** The number that the bytes of `s` spell; `more` bounds how many further
      continuation bytes are followed, and the byte that ends the number is
      taken whole. */
  ghost predicate Readable(s: seq<Byte>, more: nat) {
    s != [] && (s[0] < 128 || more == 0 || Readable(s[1..], more - 1))
  }

  function Decode(s: seq<Byte>, more: nat): (r: (nat, nat))
    requires Readable(s, more)
    ensures 1 <= r.1 <= |s| && r.1 <= more + 1
  {
    if s[0] < 128 || more == 0 then (s[0], 1)
    else
      var rest := Decode(s[1..], more - 1);
      (s[0] - 128 + 128 * rest.0, rest.1 + 1)
  }

  // ---- shape of the encoding ----

  function Pow128(k: nat): (r: nat)
    ensures r >= 1
  {
    if k == 0 then 1 else 128 * Pow128(k - 1)
  }

  lemma {:induction false} LengthBound(u: nat, k: nat)
    requires 1 <= k && u < Pow128(k)
    ensures |Encode(u)| <= k
  {
    assert Pow128(k) == 128 * Pow128(k - 1);
    assert k == 1 ==> Pow128(k) == 128;
    if u >= 128 { LengthBound(u / 128, k - 1); }
  }

  lemma PowerFacts()
    ensures Pow128(9) == TWO_63
    ensures Pow128(10) == 128 * TWO_63
  {
    assert Pow128(1) == 128;
    assert Pow128(2) == 128 * 128;
    assert Pow128(3) == 128 * 128 * 128;
    assert Pow128(4) == 0x1000_0000;
    assert Pow128(5) == 0x8_0000_0000;
    assert Pow128(6) == 0x400_0000_0000;
    assert Pow128(7) == 0x2_0000_0000_0000;
    assert Pow128(8) == 0x100_0000_0000_0000;
  }

  /** No 64-bit value needs more than VARINT_MAX bytes, and no value below
      2^63 more than nine. */
  lemma SizeBound(u: nat)
    ensures u < TWO_64 ==> |Encode(u)| <= VARINT_MAX
    ensures u < TWO_63 ==> |Encode(u)| <= VARINT_MAX - 1
  {
    PowerFacts();
    if u < TWO_64 { LengthBound(u, 10); }
    if u < TWO_63 { LengthBound(u, 9); }
  }

  /** A negative int64 always takes the full ten bytes. */
  lemma NegativeIsTenBytes(v: Int64)
    requires v < 0
    ensures |Encode(ToUnsigned(v))| == VARINT_MAX
  {
    var u: nat := ToUnsigned(v);
    SizeBound(u);
    PowerFacts();
    LengthLower(u, 9);
  }

  lemma {:induction false} LengthLower(u: nat, k: nat)
    requires u >= Pow128(k)
    ensures |Encode(u)| >= k + 1
  {
    if k > 0 {
      assert Pow128(k) == 128 * Pow128(k - 1);
      LengthLower(u / 128, k - 1);
    }
  }

  lemma {:induction false} LengthMonotone(u: nat, w: nat)
    requires u <= w
    ensures |Encode(u)| <= |Encode(w)|
  {
    if w >= 128 && u >= 128 { LengthMonotone(u / 128, w / 128); }
  }

  /** One varint for a sum is never longer than the varints of the summands. */
  lemma {:induction false} LengthSubadditive(u: nat, w: nat)
    ensures |Encode(u + w)| <= |Encode(u)| + |Encode(w)|
  {
    if u < 128 && w < 128 {
      if u + w >= 128 { assert |Encode((u + w) / 128)| == 1; }
    } else if w < 128 {
      LengthMonotone(u + w, u + 128 * 127);
      LengthCarry(u, w);
    } else if u < 128 {
      LengthCarry(w, u);
    } else {
      var a, b := u / 128, w / 128;
      LengthSubadditive(a, b + 1);
      LengthCarry(b, 1);
      LengthMonotone((u + w) / 128, a + b + 1);
    }
  }

  lemma {:induction false} LengthCarry(u: nat, w: nat)
    requires w < 128
    ensures |Encode(u + w)| <= |Encode(u)| + 1
  {
    if u + w >= 128 {
      if u < 128 {
        assert |Encode((u + w) / 128)| == 1;
      } else {
        LengthCarry(u / 128, 1);
        LengthMonotone((u + w) / 128, u / 128 + 1);
      }
    }
  }

  /** Every byte but the last has its high bit set, the last has not, and the
      last is zero only for the value zero. */
  lemma {:induction false} EncodeShape(u: nat)
    ensures var s := Encode(u);
            && (forall i :: 0 <= i < |s| - 1 ==> s[i] >= 128)
            && s[|s| - 1] < 128
            && (u > 0 ==> s[|s| - 1] > 0)
            && (u > 1 ==> s[0] > 1)
  {
    if u >= 128 { EncodeShape(u / 128); }
  }

  // ---- round trip ----

  lemma {:induction false} DecodeEncode(u: nat, rest: seq<Byte>, more: nat)
    requires |Encode(u)| <= more + 1
    ensures Readable(Encode(u) + rest, more)
    ensures Decode(Encode(u) + rest, more) == (u, |Encode(u)|)
  {
    if u >= 128 {
      var s := Encode(u) + rest;
      assert s[1..] == Encode(u / 128) + rest;
      DecodeEncode(u / 128, rest, more - 1);
    }
  }

  /** The encoding is a prefix code: what follows it cannot be mistaken. */
  lemma EncodeInjective(u: nat, w: nat, r1: seq<Byte>, r2: seq<Byte>)
    requires Encode(u) + r1 == Encode(w) + r2
    ensures u == w && r1 == r2
  {
    var more := |Encode(u)| + |Encode(w)|;
    DecodeEncode(u, r1, more);
    DecodeEncode(w, r2, more);
    assert r1 == (Encode(u) + r1)[|Encode(u)|..];
    assert r2 == (Encode(w) + r2)[|Encode(w)|..];
  }

  // ---- modular arithmetic of the 64-bit accumulators ----

  function Wrap(x: nat): (r: nat)
    ensures r < TWO_64
  {
    x % TWO_64
  }

  lemma ModAdd(q: int, r: int, m: int)
    requires m > 0
    ensures (m * q + r) % m == r % m
  {
    var z := m * q + r;
    assert z == m * (z / m) + z % m;
    assert r == m * (r / m) + r % m;
    assert m * (z / m - q - r / m) == r % m - z % m;
    var d := z / m - q - r / m;
    assert d >= 1 ==> m * d >= m;
    assert d <= -1 ==> m * d <= -m;
  }

  lemma AccumulatorStep(X: nat, Y: nat, b: nat)
    ensures Wrap(Wrap(X) + Wrap(Y) * b) == Wrap(X + Y * b)
  {
    var q, k := X / TWO_64, Y / TWO_64;
    assert X == TWO_64 * q + Wrap(X);
    assert Y == TWO_64 * k + Wrap(Y);
    calc {
      X + Y * b;
      TWO_64 * q + Wrap(X) + (TWO_64 * k + Wrap(Y)) * b;
      { assert (TWO_64 * k + Wrap(Y)) * b == TWO_64 * (k * b) + Wrap(Y) * b; }
      TWO_64 * (q + k * b) + (Wrap(X) + Wrap(Y) * b);
    }
    ModAdd(q + k * b, Wrap(X) + Wrap(Y) * b, TWO_64);
  }

  /** The reading loop's own recurrence, over wrapping accumulators. */
  function DecodeWrapping(s: seq<Byte>, more: nat, x: nat, y: nat): (r: (nat, nat))
    requires Readable(s, more)
    ensures r.0 < TWO_64
  {
    if s[0] < 128 || more == 0 then (Wrap(x + y * s[0]), 1)
    else
      var rest := DecodeWrapping(s[1..], more - 1, Wrap(x + y * (s[0] % 128)), Wrap(y * 128));
      (rest.0, rest.1 + 1)
  }

  lemma Distribute(x: nat, y: nat, b: nat, e: nat)
    ensures x + y * (b + 128 * e) == (x + y * b) + (y * 128) * e
  {
  }

  /** Wrapping at every turn gives the true value modulo 2^64. */
  lemma {:induction false} DecodeWrappingCorrect(s: seq<Byte>, more: nat, X: nat, Y: nat)
    requires Readable(s, more)
    ensures DecodeWrapping(s, more, Wrap(X), Wrap(Y)) == (Wrap(X + Y * Decode(s, more).0), Decode(s, more).1)
  {
    if s[0] < 128 || more == 0 {
      AccumulatorStep(X, Y, s[0]);
    } else {
      var b, e := s[0] % 128, Decode(s[1..], more - 1);
      assert Wrap(Wrap(X) + Wrap(Y) * b) == Wrap(X + Y * b) by { AccumulatorStep(X, Y, b); }
      assert Wrap(Wrap(Y) * 128) == Wrap(Y * 128) by { AccumulatorStep(0, Y, 128); }
      DecodeWrappingCorrect(s[1..], more - 1, X + Y * b, Y * 128);
      Distribute(X, Y, b, e.0);
    }
  }

  // ---- writing into a buffer ----

  /** The buffer `s` with the bytes `t` written over it from offset `p`. */
  function Splice(s: seq<Byte>, p: nat, t: seq<Byte>): (r: seq<Byte>)
    requires p + |t| <= |s|
    ensures |r| == |s|
  {
    s[..p] + t + s[p + |t|..]
  }

  lemma SpliceEmpty(s: seq<Byte>, p: nat)
    requires p <= |s|
    ensures Splice(s, p, []) == s
  {
  }

  lemma SpliceSplice(s: seq<Byte>, p: nat, t: seq<Byte>, u: seq<Byte>)
    requires p + |t| + |u| <= |s|
    ensures Splice(Splice(s, p, t), p + |t|, u) == Splice(s, p, t + u)
  {
  }

  // ---- the routines ----

  /** Writes `v` at `o[p..]` and returns the number of bytes written. */
  method PutVarint(o: array<Byte>, p: nat, v: Int64) returns (n: nat)
    requires p + |Encode(ToUnsigned(v))| <= o.Length
    modifies o
    ensures n == |Encode(ToUnsigned(v))| <= VARINT_MAX
    ensures o[..] == Splice(old(o[..]), p, Encode(ToUnsigned(v)))
  {
    n := PutUnsigned(o, p, ToUnsigned(v));
    SizeBound(ToUnsigned(v));
  }

  method PutUnsigned(o: array<Byte>, p: nat, u: nat) returns (n: nat)
    requires p + |Encode(u)| <= o.Length
    modifies o
    ensures n == |Encode(u)|
    ensures o[..] == Splice(old(o[..]), p, Encode(u))
  {
    ghost var e := Encode(u);
    var vu, q := u, p;
    o[q] := vu % 128 + 128;
    q := q + 1;
    vu := vu / 128;
    while vu != 0
      invariant p < q <= p + |e| <= o.Length
      invariant if vu == 0 then q == p + |e| && o[q - 1] as int == e[q - 1 - p] as int + 128
                else Encode(vu) == e[q - p..] && o[q - 1] == e[q - 1 - p]
      invariant forall i :: p <= i < q - 1 ==> o[i] == e[i - p]
      invariant forall i :: 0 <= i < p || q <= i < o.Length ==> o[i] == old(o[i])
      decreases vu
    {
      assert Encode(vu)[0] == e[q - p];
      assert vu >= 128 ==> Encode(vu / 128) == e[q - p..][1..] == e[q + 1 - p..];
      o[q] := vu % 128 + 128;
      q := q + 1;
      vu := vu / 128;
    }
    o[q - 1] := o[q - 1] % 128;
    n := q - p;
    assert o[..] == Splice(old(o[..]), p, e);
  }

  /** Reads a number at `a[p..]`: at most VARINT_MAX continuation bytes, in
      wrapping 64-bit arithmetic. */
  method GetVarint(a: seq<Byte>, p: nat) returns (v: Int64, n: nat)
    requires p <= |a| && Readable(a[p..], VARINT_MAX)
    ensures n == Decode(a[p..], VARINT_MAX).1
    ensures ToUnsigned(v) == Wrap(Decode(a[p..], VARINT_MAX).0)
  {
    var x: nat, y: nat, q := 0, 1, p;
    ghost var whole := DecodeWrapping(a[p..], VARINT_MAX, 0, 1);
    assert whole == (Wrap(Decode(a[p..], VARINT_MAX).0), Decode(a[p..], VARINT_MAX).1) by {
      DecodeWrappingCorrect(a[p..], VARINT_MAX, 0, 1);
    }
    while a[q] >= 128 && q - p < VARINT_MAX
      invariant p <= q < |a| && q - p <= VARINT_MAX
      invariant Readable(a[q..], VARINT_MAX - (q - p))
      invariant whole.0 == DecodeWrapping(a[q..], VARINT_MAX - (q - p), x, y).0
      invariant whole.1 == q - p + DecodeWrapping(a[q..], VARINT_MAX - (q - p), x, y).1
      decreases |a| - q
    {
      assert a[q..][1..] == a[q + 1..];
      x, y := Wrap(x + y * (a[q] % 128)), Wrap(y * 128);
      q := q + 1;
    }
    v := ToSigned(Wrap(x + y * a[q]));
    n := q + 1 - p;
  }

  /** Where an encoded value stands at `a[p..]`, GetVarint reads it back. */
  lemma ReadBack(a: seq<Byte>, p: nat, u: nat, rest: seq<Byte>)
    requires u < TWO_64
    requires p <= |a| && a[p..] == Encode(u) + rest
    ensures Readable(a[p..], VARINT_MAX)
    ensures Decode(a[p..], VARINT_MAX) == (u, |Encode(u)|)
    ensures p + |Encode(u)| <= |a| && a[p + |Encode(u)|..] == rest
  {
    SizeBound(u);
    DecodeEncode(u, rest, VARINT_MAX);
    assert a[p + |Encode(u)|..] == a[p..][|Encode(u)|..];
  }
}
