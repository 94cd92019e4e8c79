/** Bytes, fixed-width unsigned integers and their in-memory form.

    Every multi-byte field of the protocol is copied with `memcpy`, so its bytes are in
    host order; the model fixes that order to little-endian on both hosts. */
module Bytes {

  type byte = b: int | 0 <= b < 256

  const TWO32: int := 0x1_0000_0000
  const TWO36: int := 0x10_0000_0000
  const TWO40: int := 0x100_0000_0000
  const TWO64: int := 0x1_0000_0000_0000_0000

  type u32 = n: int | 0 <= n < 0x1_0000_0000
  type u64 = n: int | 0 <= n < 0x1_0000_0000_0000_0000

  datatype Option<+T> = None | Some(value: T)

  type Text = seq<byte>
  type Path = seq<byte>

  const NUL: byte := 0
  const SPACE: byte := 32
  const SLASH: byte := 47
  const BAR: byte := 124

  function Min(a: int, b: int): int {
    if a <= b then a else b
  }

  /** `n` zero bytes. */
  function Zeros(n: nat): (r: seq<byte>)
    ensures |r| == n
    ensures forall i :: 0 <= i < n ==> r[i] == 0
  {
    seq(n, i => 0)
  }

  /** `s` copied into a zero-filled buffer of `n` bytes, cut where the buffer ends. */
  function Fit(s: seq<byte>, n: nat): (r: seq<byte>)
    ensures |r| == n
    ensures forall i :: 0 <= i < n ==> r[i] == if i < |s| then s[i] else 0
  {
    if |s| >= n then s[..n] else s + Zeros(n - |s|)
  }

  /** Reading a text chunk by chunk into zero-filled buffers is reading it into one. */
  lemma FitSplit(s: seq<byte>, c: nat, m: nat)
    requires c <= |s|
    ensures Fit(s, c) + Fit(s[c..], m) == Fit(s, c + m)
  {
  }

  lemma Assoc<T>(a: seq<T>, b: seq<T>, c: seq<T>)
    ensures a + b + c == a + (b + c)
  {
  }

  /** The `n` low bytes of `v`, least significant first. */
  function ToBytes(v: nat, n: nat): (r: seq<byte>)
    ensures |r| == n
    decreases n
  {
    if n == 0 then [] else [v % 256] + ToBytes(v / 256, n - 1)
  }

  function FromBytes(s: seq<byte>): nat {
    if s == [] then 0 else s[0] + 256 * FromBytes(s[1..])
  }

  function Pow256(n: nat): (r: nat)
    ensures r > 0
  {
    if n == 0 then 1 else 256 * Pow256(n - 1)
  }

  lemma PowersOf256()
    ensures Pow256(4) == TWO32 && Pow256(8) == TWO64
  {
    assert Pow256(2) == 65536;
    assert Pow256(4) == 256 * (256 * Pow256(2));
    assert Pow256(6) == 256 * (256 * Pow256(4));
    assert Pow256(8) == 256 * (256 * Pow256(6));
  }

  /** Writing an integer and reading it back keeps exactly its low `n` bytes. */
  lemma {:induction false} BytesRoundTrip(v: nat, n: nat)
    ensures FromBytes(ToBytes(v, n)) == v % Pow256(n)
    decreases n
  {
    if n == 0 {
    } else {
      var s := ToBytes(v, n);
      assert s[1..] == ToBytes(v / 256, n - 1);
      BytesRoundTrip(v / 256, n - 1);
      ModSplit(v, Pow256(n - 1));
    }
  }

  lemma ModSplit(v: nat, m: nat)
    requires m > 0
    ensures v % (256 * m) == v % 256 + 256 * ((v / 256) % m)
  {
    var hi, lo := v / 256, v % 256;
    var q, r := hi / m, hi % m;
    assert v == 256 * (m * q + r) + lo;
    assert 256 * (m * q) == (256 * m) * q;
    var rest := 256 * r + lo;
    assert rest < 256 * m;
    assert v == (256 * m) * q + rest;
    DivModUnique(v, 256 * m, q, rest);
  }

  lemma {:induction false} DivModUnique(v: int, d: int, q: int, r: int)
    requires d > 0 && 0 <= r < d && v == d * q + r
    ensures v / d == q && v % d == r
  {
    EuclidZero(d, q - v / d, r - v % d) by {
      assert v == d * (v / d) + v % d;
      assert d * (q - v / d) == d * q - d * (v / d);
    }
  }

  lemma EuclidZero(d: int, k: int, r: int)
    requires d > 0 && -d < r < d && d * k + r == 0
    ensures k == 0 && r == 0
  {
  }

  lemma U32RoundTrip(v: u32)
    ensures FromBytes(ToBytes(v, 4)) == v
  {
    BytesRoundTrip(v, 4);
    PowersOf256();
  }

  lemma U64RoundTrip(v: u64)
    ensures FromBytes(ToBytes(v, 8)) == v
  {
    BytesRoundTrip(v, 8);
    PowersOf256();
  }

  /** Whatever bytes are read as a 32- or 64-bit field, the value fits the field. */
  lemma {:induction false} FromBytesBound(s: seq<byte>)
    ensures FromBytes(s) < Pow256(|s|)
  {
    if s != [] {
      FromBytesBound(s[1..]);
    }
  }

  /** The low and the high half of an integer lie one after the other. */
  lemma {:induction false} ToBytesHalves(low: nat, high: nat, n: nat, m: nat)
    requires low < Pow256(n)
    ensures ToBytes(high * Pow256(n) + low, n + m) == ToBytes(low, n) + ToBytes(high, m)
    decreases n
  {
    if n > 0 {
      var q := Pow256(n - 1);
      var v := high * (256 * q) + low;
      assert high * (256 * q) == 256 * (high * q);
      DivModUnique(v, 256, high * q + low / 256, low % 256);
      ToBytesHalves(low / 256, high, n - 1, m);
      assert high * Pow256(n) + low == v;
    }
  }

  /** The sixth byte of a 64-bit field is bits 40..47 of its value. */
  lemma SixthByte(v: u64)
    ensures ToBytes(v, 8)[5] == (v / TWO40) % 256
  {
    var a := v / 256;
    var b := a / 256;
    var c := b / 256;
    var d := c / 256;
    var e := d / 256;
    assert ToBytes(v, 8)[5] == ToBytes(a, 7)[4];
    assert ToBytes(a, 7)[4] == ToBytes(b, 6)[3];
    assert ToBytes(b, 6)[3] == ToBytes(c, 5)[2];
    assert ToBytes(c, 5)[2] == ToBytes(d, 4)[1];
    assert ToBytes(d, 4)[1] == ToBytes(e, 3)[0];
    assert e == v / TWO40;
  }

  /** Concatenation of a sequence of byte strings. */
  function Flatten(ss: seq<seq<byte>>): seq<byte> {
    if ss == [] then [] else ss[0] + Flatten(ss[1..])
  }

  lemma {:induction false} FlattenAppend(a: seq<seq<byte>>, b: seq<seq<byte>>)
    ensures Flatten(a + b) == Flatten(a) + Flatten(b)
  {
    if a == [] {
      assert a + b == b;
    } else {
      FlattenAppend(a[1..], b);
      assert (a + b)[1..] == a[1..] + b;
      Assoc(a[0], Flatten(a[1..]), Flatten(b));
    }
  }

  /** `erase(remove(...))`: every occurrence of an element taken out, the others in order. */
  function Without<T(==, !new)>(s: seq<T>, x: T): (r: seq<T>)
    ensures forall y :: y in r <==> y in s && y != x
  {
    if s == [] then []
    else if s[0] == x then Without(s[1..], x)
    else [s[0]] + Without(s[1..], x)
  }
}
