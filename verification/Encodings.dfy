/**
  The network form of the typed values a serializer accepts: what each one is encoded as,
  and why a sequence of encodings can be read back in one way only.
 */
module Encodings {
  type Byte = x: int | 0 <= x < 256
  type UInt32 = x: int | 0 <= x < 0x1_0000_0000
  type Int32 = x: int | -0x8000_0000 <= x < 0x8000_0000

  /** A double is known by its 64 bits, read as a number; that does not depend on the host. */
  type Double = x: int | 0 <= x < 0x1_0000_0000_0000_0000

  /** The eight bytes a double has in memory. */
  type Memory = s: seq<Byte> | |s| == 8 witness [0, 0, 0, 0, 0, 0, 0, 0]

  datatype Point = Point(x: Double, y: Double, z: Double)
  datatype BoundingBox = BoundingBox(min: Point, max: Point)
  datatype Interval = Interval(t0: Double, t1: Double)

  /** The byte order of the host; both are covered. */
  const HOST_IS_LITTLE_ENDIAN: bool

  // ---------------------------------------------------------------- integers

  /** The low 32 bits, most significant byte first; shifts of negative numbers round down. */
  function Network(v: int): (s: seq<Byte>)
    ensures |s| == 4
  {
    [v / 0x100_0000 % 256, v / 0x1_0000 % 256, v / 0x100 % 256, v % 256]
  }

  function Unsigned(s: seq<Byte>): UInt32
    requires |s| == 4
  {
    s[0] as int * 0x100_0000 + s[1] as int * 0x1_0000 + s[2] as int * 0x100 + s[3] as int
  }

  /** The first byte of a signed number, read as a signed char. */
  function SignedChar(b: Byte): int {
    if b < 128 then b else b as int - 256
  }

  function Signed(s: seq<Byte>): Int32
    requires |s| == 4
  {
    SignedChar(s[0]) * 0x100_0000 + s[1] as int * 0x1_0000 + s[2] as int * 0x100 + s[3] as int
  }

  lemma Digits(q: int, a: Byte, b: Byte, c: Byte)
    ensures var v := q * 0x100_0000 + a as int * 0x1_0000 + b as int * 0x100 + c as int;
      v / 0x100_0000 == q && v / 0x1_0000 % 256 == a && v / 0x100 % 256 == b && v % 256 == c
  {
    var v := q * 0x100_0000 + a as int * 0x1_0000 + b as int * 0x100 + c as int;
    assert v / 0x100 == q * 0x1_0000 + a as int * 0x100 + b as int;
    assert v / 0x1_0000 == q * 0x100 + a as int;
  }

  lemma NetworkUnsigned(s: seq<Byte>)
    requires |s| == 4
    ensures Network(Unsigned(s)) == s
  {
    Digits(s[0], s[1], s[2], s[3]);
  }

  lemma NetworkSigned(s: seq<Byte>)
    requires |s| == 4
    ensures Network(Signed(s)) == s
  {
    Digits(SignedChar(s[0]), s[1], s[2], s[3]);
  }

  /** The four bytes tell two unsigned numbers apart, and two signed ones. */
  lemma NetworkInjective(v: int, w: int)
    requires Network(v) == Network(w)
    ensures 0 <= v < 0x1_0000_0000 && 0 <= w < 0x1_0000_0000 ==> v == w
    ensures -0x8000_0000 <= v < 0x8000_0000 && -0x8000_0000 <= w < 0x8000_0000 ==> v == w
  {
    hide Network, Unsigned;
    Low32(v);
    Low32(w);
  }

  lemma Low32(v: int)
    ensures Unsigned(Network(v)) == v % 0x1_0000_0000
  {
    var q1 := v / 0x100;
    var q2 := q1 / 0x100;
    var q3 := q2 / 0x100;
    assert v / 0x1_0000 == q2 && v / 0x100_0000 == q3;
    assert v == q3 * 0x100_0000 + q2 % 256 * 0x1_0000 + q1 % 256 * 0x100 + v % 256;
    var q4 := q3 / 0x100;
    assert v == q4 * 0x1_0000_0000 + Unsigned(Network(v));
  }

  // ---------------------------------------------------------------- bytes by significance

  /** The low `n` bytes of a number, the most significant first. */
  function Bytes(v: int, n: nat): (s: seq<Byte>)
    ensures |s| == n
    decreases n
  {
    if n == 0 then [] else Bytes(v / 256, n - 1) + [v % 256]
  }

  function ValueOf(s: seq<Byte>): nat {
    if s == [] then 0 else ValueOf(s[..|s| - 1]) * 256 + s[|s| - 1] as int
  }

  function Pow256(n: nat): (p: nat)
    ensures p > 0
  {
    if n == 0 then 1 else 256 * Pow256(n - 1)
  }

  lemma {:induction false} ValueOfBytes(v: nat, n: nat)
    requires v < Pow256(n)
    ensures ValueOf(Bytes(v, n)) == v
    decreases n
  {
    if n > 0 {
      ValueOfBytes(v / 256, n - 1);
      assert Bytes(v, n)[..n - 1] == Bytes(v / 256, n - 1);
    }
  }

  lemma {:induction false} BytesOfValue(s: seq<Byte>)
    ensures ValueOf(s) < Pow256(|s|) && Bytes(ValueOf(s), |s|) == s
    decreases |s|
  {
    if s != [] {
      var n := |s| - 1;
      BytesOfValue(s[..n]);
      var v, b := ValueOf(s[..n]), s[n] as int;
      assert ValueOf(s) == v * 256 + b;
      assert (v * 256 + b) / 256 == v && (v * 256 + b) % 256 == b;
      assert s == s[..n] + [s[n]];
    }
  }

  /** Bytes compare as numbers do: at the first difference the smaller number has the smaller byte. */
  lemma {:induction false} BytesAreOrdered(v: nat, w: nat, n: nat) returns (k: nat)
    requires v < w < Pow256(n)
    ensures k < n && Bytes(v, n)[..k] == Bytes(w, n)[..k] && Bytes(v, n)[k] < Bytes(w, n)[k]
    decreases n
  {
    assert Bytes(v, n)[..n - 1] == Bytes(v / 256, n - 1) && Bytes(w, n)[..n - 1] == Bytes(w / 256, n - 1);
    if v / 256 == w / 256 {
      k := n - 1;
    } else {
      k := BytesAreOrdered(v / 256, w / 256, n - 1);
      assert Bytes(v, n)[..k] == Bytes(v / 256, n - 1)[..k] && Bytes(w, n)[..k] == Bytes(w / 256, n - 1)[..k];
    }
  }

  lemma Widths()
    ensures Pow256(4) == 0x1_0000_0000 && Pow256(8) == 0x1_0000_0000_0000_0000
  {
    assert Pow256(2) == 0x1_0000;
    assert Pow256(6) == 0x1_0000_0000_0000;
  }

  /** The network form of a 32-bit number, signed or not, is that of its low 32 bits. */
  lemma NetworkIsBytes(v: int)
    ensures Network(v) == Bytes(v, 4) == Bytes(v % 0x1_0000_0000, 4)
  {
    hide ValueOf, Pow256;
    var q1 := v / 0x100;
    var q2 := q1 / 0x100;
    assert v / 0x1_0000 == q2 && v / 0x100_0000 == q2 / 0x100;
    FourBytes(v);
    FourBytes(v % 0x1_0000_0000);
    Low32(v);
    Low32(v % 0x1_0000_0000);
    NetworkUnsigned(Network(v));
    NetworkUnsigned(Network(v % 0x1_0000_0000));
  }

  lemma FourBytes(v: int)
    ensures Bytes(v, 4) == Network(v)
  {
    var q1 := v / 0x100;
    var q2 := q1 / 0x100;
    var q3 := q2 / 0x100;
    assert v / 0x1_0000 == q2 && v / 0x100_0000 == q3;
    assert Bytes(q3, 1) == Bytes(q3 / 0x100, 0) + [q3 % 256] == [q3 % 256];
    assert Bytes(q2, 2) == [q3 % 256, q2 % 256];
    assert Bytes(q1, 3) == [q3 % 256, q2 % 256, q1 % 256];
  }

  /** So the network bytes of unsigned numbers are ordered as the numbers are. */
  lemma NetworkIsOrdered(v: UInt32, w: UInt32) returns (k: nat)
    requires v < w
    ensures k < 4 && Network(v)[..k] == Network(w)[..k] && Network(v)[k] < Network(w)[k]
  {
    hide Network, Bytes;
    Widths();
    FourBytes(v);
    FourBytes(w);
    k := BytesAreOrdered(v, w, 4);
  }

  /** A signed number has the bytes of the unsigned one that differs by a multiple of 2^32. */
  lemma NetworkOfSigned(i: Int32)
    ensures Network(i) == Network(if i < 0 then i + 0x1_0000_0000 else i)
  {
    hide Network, Bytes;
    NetworkIsBytes(i);
    NetworkIsBytes(if i < 0 then i + 0x1_0000_0000 else i);
  }

  // ---------------------------------------------------------------- doubles

  function Reversed(d: Memory): (r: Memory)
    ensures forall i | 0 <= i < 8 :: r[i] == d[7 - i]
  {
    [d[7], d[6], d[5], d[4], d[3], d[2], d[1], d[0]]
  }

  /** How the host stores a double: a little-endian one keeps the least significant byte first. */
  function InMemory(d: Double): (m: Memory)
    ensures HOST_IS_LITTLE_ENDIAN ==> m[0] == d % 256
    ensures !HOST_IS_LITTLE_ENDIAN ==> m[7] == d % 256
    ensures forall i | 0 <= i < 8 :: m[i] == Bytes(d, 8)[if HOST_IS_LITTLE_ENDIAN then 7 - i else i]
  {
    if HOST_IS_LITTLE_ENDIAN then Reversed(Bytes(d, 8)) else Bytes(d, 8)
  }

  function FromMemory(m: Memory): (d: Double)
    ensures InMemory(d) == m
  {
    var s := if HOST_IS_LITTLE_ENDIAN then Reversed(m) else m;
    Widths();
    BytesOfValue(s);
    assert Reversed(Reversed(m)) == m;
    ValueOf(s)
  }

  /** Host to network, and network to host. */
  function Htond(d: Memory): (r: Memory) {
    if HOST_IS_LITTLE_ENDIAN then Reversed(d) else d
  }

  lemma HtondInverts(d: Memory)
    ensures Htond(Htond(d)) == d
  {
  }

  /** On either host what goes out is the double's bits, the most significant byte first. */
  lemma HtondIsNetworkOrder(d: Double)
    ensures Htond(InMemory(d)) == Bytes(d, 8)
    ensures Htond(Bytes(d, 8)) == InMemory(d)
  {
    hide Bytes;
    assert forall i | 0 <= i < 8 :: Htond(InMemory(d))[i] == Bytes(d, 8)[i];
  }

  lemma DoubleInjective(d: Double, e: Double)
    requires Bytes(d, 8) == Bytes(e, 8)
    ensures d == e
  {
    hide Bytes, ValueOf, Pow256;
    Widths();
    ValueOfBytes(d, 8);
    ValueOfBytes(e, 8);
  }

  // ---------------------------------------------------------------- typed values

  datatype Kind = Uint8Kind | Uint32Kind | Int32Kind | DoubleKind | PointKind | BoxKind | IntervalKind

  datatype Value =
    | Uint8Value(b: Byte)
    | Uint32Value(w: UInt32)
    | Int32Value(i: Int32)
    | DoubleValue(d: Double)
    | PointValue(p: Point)
    | BoxValue(box: BoundingBox)
    | IntervalValue(interval: Interval)

  function KindOf(v: Value): Kind {
    match v
    case Uint8Value(_) => Uint8Kind
    case Uint32Value(_) => Uint32Kind
    case Int32Value(_) => Int32Kind
    case DoubleValue(_) => DoubleKind
    case PointValue(_) => PointKind
    case BoxValue(_) => BoxKind
    case IntervalValue(_) => IntervalKind
  }

  function Size(k: Kind): nat {
    match k
    case Uint8Kind => 1
    case Uint32Kind => 4
    case Int32Kind => 4
    case DoubleKind => 8
    case PointKind => 24
    case BoxKind => 48
    case IntervalKind => 16
  }

  function EncodePoint(p: Point): (s: seq<Byte>)
    ensures |s| == 24
  {
    Bytes(p.x, 8) + Bytes(p.y, 8) + Bytes(p.z, 8)
  }

  function EncodeBox(b: BoundingBox): (s: seq<Byte>)
    ensures |s| == 48
  {
    EncodePoint(b.min) + EncodePoint(b.max)
  }

  function EncodeInterval(i: Interval): (s: seq<Byte>)
    ensures |s| == 16
  {
    Bytes(i.t0, 8) + Bytes(i.t1, 8)
  }

  function Encode(v: Value): (s: seq<Byte>)
    ensures |s| == Size(KindOf(v))
  {
    match v
    case Uint8Value(b) => [b]
    case Uint32Value(w) => Network(w)
    case Int32Value(i) => Network(i)
    case DoubleValue(d) => Bytes(d, 8)
    case PointValue(p) => EncodePoint(p)
    case BoxValue(b) => EncodeBox(b)
    case IntervalValue(i) => EncodeInterval(i)
  }

  /** Two streams that start with equally long blocks and agree, agree block by block. */
  lemma SameBlocks<T>(a: seq<T>, a': seq<T>, b: seq<T>, b': seq<T>)
    requires a + a' == b + b' && |a| == |b|
    ensures a == b && a' == b'
  {
    assert a == (a + a')[..|a|] && a' == (a + a')[|a|..];
    assert b == (b + b')[..|b|] && b' == (b + b')[|b|..];
  }

  lemma PointInjective(p: Point, q: Point)
    requires EncodePoint(p) == EncodePoint(q)
    ensures p == q
  {
    hide Bytes;
    SameBlocks(Bytes(p.x, 8) + Bytes(p.y, 8), Bytes(p.z, 8), Bytes(q.x, 8) + Bytes(q.y, 8), Bytes(q.z, 8));
    SameBlocks(Bytes(p.x, 8), Bytes(p.y, 8), Bytes(q.x, 8), Bytes(q.y, 8));
    DoubleInjective(p.x, q.x);
    DoubleInjective(p.y, q.y);
    DoubleInjective(p.z, q.z);
  }

  lemma EncodeInjective(v: Value, w: Value)
    requires KindOf(v) == KindOf(w) && Encode(v) == Encode(w)
    ensures v == w
  {
    hide Bytes, Network;
    match v
    case Uint8Value(_) =>
    case Uint32Value(n) => NetworkInjective(n, w.w);
    case Int32Value(n) => NetworkInjective(n, w.i);
    case DoubleValue(d) => DoubleInjective(d, w.d);
    case PointValue(p) => PointInjective(p, w.p);
    case BoxValue(b) =>
      SameBlocks(EncodePoint(b.min), EncodePoint(b.max), EncodePoint(w.box.min), EncodePoint(w.box.max));
      PointInjective(b.min, w.box.min);
      PointInjective(b.max, w.box.max);
    case IntervalValue(i) =>
      SameBlocks(Bytes(i.t0, 8), Bytes(i.t1, 8), Bytes(w.interval.t0, 8), Bytes(w.interval.t1, 8));
      DoubleInjective(i.t0, w.interval.t0);
      DoubleInjective(i.t1, w.interval.t1);
  }

  // ---------------------------------------------------------------- scripts

  function EncodeAll(vs: seq<Value>): seq<Byte>
    decreases |vs|
  {
    if vs == [] then [] else EncodeAll(vs[..|vs| - 1]) + Encode(vs[|vs| - 1])
  }

  function KindsOf(vs: seq<Value>): (ks: seq<Kind>)
    ensures |ks| == |vs| && forall i | 0 <= i < |vs| :: ks[i] == KindOf(vs[i])
  {
    seq(|vs|, i requires 0 <= i < |vs| => KindOf(vs[i]))
  }

  function Sizes(ks: seq<Kind>): nat
    decreases |ks|
  {
    if ks == [] then 0 else Sizes(ks[..|ks| - 1]) + Size(ks[|ks| - 1])
  }

  lemma {:induction false} EncodeAllSize(vs: seq<Value>)
    ensures |EncodeAll(vs)| == Sizes(KindsOf(vs))
    decreases |vs|
  {
    if vs != [] {
      var n := |vs| - 1;
      EncodeAllSize(vs[..n]);
      assert KindsOf(vs)[..n] == KindsOf(vs[..n]);
    }
  }

  /** A script needs the bytes of every start of it, and of what comes next. */
  lemma {:induction false} SizesGrow(ks: seq<Kind>, n: nat)
    requires n < |ks|
    ensures Sizes(ks[..n]) + Size(ks[n]) <= Sizes(ks)
    decreases |ks|
  {
    hide Size;
    if n < |ks| - 1 {
      SizesGrow(ks[..|ks| - 1], n);
      assert ks[..|ks| - 1][..n] == ks[..n];
    }
  }

  lemma NothingEncoded()
    ensures EncodeAll([]) == [] && KindsOf([]) == []
  {
  }

  lemma EncodeAllPush(vs: seq<Value>, v: Value)
    ensures EncodeAll(vs + [v]) == EncodeAll(vs) + Encode(v) && KindsOf(vs + [v]) == KindsOf(vs) + [KindOf(v)]
  {
    assert (vs + [v])[..|vs|] == vs;
  }

  /** Given the kinds, a stream starts with at most one script, whatever follows it. */
  lemma {:induction false} ScriptsAreUnambiguous(vs: seq<Value>, a: seq<Byte>, ws: seq<Value>, b: seq<Byte>)
    requires KindsOf(vs) == KindsOf(ws) && EncodeAll(vs) + a == EncodeAll(ws) + b
    ensures vs == ws && a == b
    decreases |vs|
  {
    hide Encode, KindOf;
    assert |vs| == |ws|;
    if vs != [] {
      var n := |vs| - 1;
      var v, w := vs[n], ws[n];
      assert KindsOf(vs)[..n] == KindsOf(vs[..n]) && KindsOf(ws)[..n] == KindsOf(ws[..n]);
      assert KindOf(v) == KindsOf(vs)[n] == KindsOf(ws)[n] == KindOf(w);
      assert EncodeAll(vs) + a == EncodeAll(vs[..n]) + (Encode(v) + a);
      assert EncodeAll(ws) + b == EncodeAll(ws[..n]) + (Encode(w) + b);
      ScriptsAreUnambiguous(vs[..n], Encode(v) + a, ws[..n], Encode(w) + b);
      SameBlocks(Encode(v), a, Encode(w), b);
      EncodeInjective(v, w);
      assert vs == vs[..n] + [v] && ws == ws[..n] + [w];
    } else {
      assert EncodeAll(vs) + a == a && EncodeAll(ws) + b == b;
    }
  }
}
