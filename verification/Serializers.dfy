/**
  The growable byte buffer values are serialized into, and the cursor that reads them back.
 */
module Serializers {
  import opened Encodings

  const INITIAL_CAPACITY: nat := 1024 * 1024

  /** `bu_external`: a buffer and how much of it is in use. */
  datatype External = External(ext_buf: array<Byte>, ext_nbytes: nat)

  function Pow2(n: nat): (p: nat)
    ensures p >= 1
  {
    if n == 0 then 1 else 2 * Pow2(n - 1)
  }

  // ---------------------------------------------------------------- growth

  /**
    A buffer after some writes: its capacity, the bytes in use, how often it was reallocated
    and the sum of the capacities that were copied for that.
   */
  datatype Growth = Growth(capacity: nat, bytes: nat, times: nat, copied: nat)

  function Extended(g: Growth, size: nat): Growth {
    var bytes := g.bytes + size;
    if bytes > g.capacity then Growth(2 * bytes, bytes, g.times + 1, g.copied + g.capacity)
    else g.(bytes := bytes)
  }

  ghost predicate Amortized(g: Growth) {
    && g.bytes <= g.capacity && INITIAL_CAPACITY * Pow2(g.times) <= g.capacity
    && if g.times == 0 then g.capacity == INITIAL_CAPACITY && g.copied == 0
       else g.copied < g.capacity <= 2 * g.bytes
  }

  lemma Grows(g: Growth, size: nat)
    requires Amortized(g)
    ensures Amortized(Extended(g, size))
  {
  }

  /** After writes of these sizes into a new buffer. */
  function After(sizes: seq<nat>): Growth
    decreases |sizes|
  {
    if sizes == [] then Growth(INITIAL_CAPACITY, 0, 0, 0)
    else Extended(After(sizes[..|sizes| - 1]), sizes[|sizes| - 1])
  }

  /**
    Whatever is written, everything fits, at most half of a grown buffer is unused, all
    reallocations together copy less than twice what was written, and their number is
    logarithmic in it.
   */
  lemma {:induction false} GrowthIsAmortized(sizes: seq<nat>)
    ensures Amortized(After(sizes))
    decreases |sizes|
  {
    if sizes != [] {
      GrowthIsAmortized(sizes[..|sizes| - 1]);
      Grows(After(sizes[..|sizes| - 1]), sizes[|sizes| - 1]);
    }
  }

  class Serializer {
    var m_capacity: nat
    var ext_buf: array<Byte>
    var ext_nbytes: nat

    /** Since the buffer was new: the sizes written, the reallocations, and the bytes these moved. */
    ghost var sizes: seq<nat>
    ghost var times: nat
    ghost var copied: nat

    ghost predicate Valid()
      reads this
    {
      && ext_nbytes <= m_capacity == ext_buf.Length
      && After(sizes) == Growth(m_capacity, ext_nbytes, times, copied)
    }

    /** What the buffer takes up and what its growth has cost, by what was written. */
    lemma Cost()
      requires Valid()
      ensures ext_buf.Length <= if 2 * |Contents()| > INITIAL_CAPACITY then 2 * |Contents()| else INITIAL_CAPACITY
      ensures times > 0 ==> copied < 2 * |Contents()|
      ensures INITIAL_CAPACITY * Pow2(times) <= ext_buf.Length
    {
      hide After;
      GrowthIsAmortized(sizes);
    }

    ghost function Contents(): seq<Byte>
      requires Valid()
      reads this, ext_buf
    {
      ext_buf[..ext_nbytes]
    }

    constructor ()
      ensures Valid() && Contents() == [] && fresh(ext_buf) && m_capacity == 1048576
    {
      m_capacity, ext_nbytes, sizes, times, copied := INITIAL_CAPACITY, 0, [], 0, 0;
      ext_buf := new Byte[INITIAL_CAPACITY];
    }

    /** The bytes written so far are handed over, and a new buffer is started. */
    method Take() returns (result: External)
      requires Valid()
      modifies this
      ensures result == External(old(ext_buf), old(ext_nbytes))
      ensures Valid() && Contents() == [] && fresh(ext_buf) && m_capacity == 1048576
      ensures sizes == [] && times == 0 && copied == 0
    {
      result := External(ext_buf, ext_nbytes);
      m_capacity, ext_nbytes, sizes, times, copied := INITIAL_CAPACITY, 0, [], 0, 0;
      ext_buf := new Byte[m_capacity];
    }

    /** Room for `size` more bytes behind those already there. */
    method Extend(size: nat) returns (position: nat)
      requires Valid()
      modifies this
      ensures Valid() && (ext_buf == old(ext_buf) || fresh(ext_buf))
      ensures position == old(ext_nbytes) && ext_nbytes == position + size
      ensures ext_buf[..position] == old(Contents())
      ensures m_capacity == (if ext_nbytes > old(m_capacity) then 2 * ext_nbytes else old(m_capacity))
      ensures ext_nbytes <= old(m_capacity) ==> ext_buf == old(ext_buf)
      ensures sizes == old(sizes) + [size]
    {
      GrowthIsAmortized(sizes);
      sizes := sizes + [size];
      assert sizes[..|sizes| - 1] == old(sizes);
      position := ext_nbytes;
      ext_nbytes := ext_nbytes + size;
      if ext_nbytes > m_capacity {
        m_capacity := ext_nbytes * 2;
        Realloc(position);
      }
    }

    /** `bu_realloc`: the bytes in use move to a buffer of the new capacity. */
    method Realloc(used: nat)
      requires used <= ext_buf.Length <= m_capacity
      modifies this`ext_buf, this`times, this`copied
      ensures fresh(ext_buf) && ext_buf.Length == m_capacity && ext_buf[..used] == old(ext_buf[..used])
      ensures times == old(times) + 1 && copied == old(copied) + old(ext_buf.Length)
    {
      var buf, bigger := ext_buf, new Byte[m_capacity];
      times := times + 1;
      for i := 0 to buf.Length
        invariant ext_buf == buf && bigger[..i] == buf[..i]
        invariant times == old(times) + 1 && copied == old(copied) + i
      {
        bigger[i] := buf[i];
        copied := copied + 1;
        assert bigger[..i + 1] == bigger[..i] + [buf[i]];
      }
      assert bigger[..used] == bigger[..buf.Length][..used];
      ext_buf := bigger;
    }

    /** `memcpy` into the buffer. */
    method Copy(dest: nat, source: seq<Byte>)
      requires Valid() && dest + |source| == ext_nbytes
      modifies ext_buf
      ensures Valid() && Contents() == old(ext_buf[..dest]) + source
    {
      hide After;
      for i := 0 to |source|
        invariant ext_buf[..dest + i] == old(ext_buf[..dest]) + source[..i]
      {
        ext_buf[dest + i] := source[i];
        assert ext_buf[..dest + i + 1] == ext_buf[..dest + i] + [source[i]];
      }
    }

    method WriteUint8(value: Byte)
      requires Valid()
      modifies this, ext_buf
      ensures Valid() && (ext_buf == old(ext_buf) || fresh(ext_buf)) && old(sizes) <= sizes
      ensures Contents() == old(Contents()) + [value]
    {
      hide After;
      var dest := Extend(1);
      ext_buf[dest] := value;
      assert ext_buf[..ext_nbytes] == ext_buf[..dest] + [value];
    }

    method WriteUint32(value: UInt32)
      requires Valid()
      modifies this, ext_buf
      ensures Valid() && (ext_buf == old(ext_buf) || fresh(ext_buf)) && old(sizes) <= sizes
      ensures Contents() == old(Contents()) + Network(value)
    {
      hide After;
      var dest := Extend(4);
      Copy(dest, Network(value));
    }

    method WriteInt32(value: Int32)
      requires Valid()
      modifies this, ext_buf
      ensures Valid() && (ext_buf == old(ext_buf) || fresh(ext_buf)) && old(sizes) <= sizes
      ensures Contents() == old(Contents()) + Network(value)
    {
      hide After;
      var dest := Extend(4);
      Copy(dest, Network(value));
    }

    method WriteDouble(value: Double)
      requires Valid()
      modifies this, ext_buf
      ensures Valid() && (ext_buf == old(ext_buf) || fresh(ext_buf)) && old(sizes) <= sizes
      ensures Contents() == old(Contents()) + Bytes(value, 8)
    {
      hide After;
      var dest := Extend(8);
      var memory := InMemory(value);
      HtondIsNetworkOrder(value);
      Copy(dest, Htond(memory));
    }

    method WritePoint(value: Point)
      requires Valid()
      modifies this, ext_buf
      ensures Valid() && (ext_buf == old(ext_buf) || fresh(ext_buf)) && old(sizes) <= sizes
      ensures Contents() == old(Contents()) + (Bytes(value.x, 8) + Bytes(value.y, 8) + Bytes(value.z, 8))
    {
      hide Bytes, After, Contents;
      WriteDouble(value.x);
      WriteDouble(value.y);
      WriteDouble(value.z);
    }

    method WriteBox(value: BoundingBox)
      requires Valid()
      modifies this, ext_buf
      ensures Valid() && (ext_buf == old(ext_buf) || fresh(ext_buf)) && old(sizes) <= sizes
      ensures Contents() == old(Contents()) + (Bytes(value.min.x, 8) + Bytes(value.min.y, 8) + Bytes(value.min.z, 8)
                                             + Bytes(value.max.x, 8) + Bytes(value.max.y, 8) + Bytes(value.max.z, 8))
    {
      hide Bytes, After, Contents;
      WritePoint(value.min);
      WritePoint(value.max);
    }

    method WriteInterval(value: Interval)
      requires Valid()
      modifies this, ext_buf
      ensures Valid() && (ext_buf == old(ext_buf) || fresh(ext_buf)) && old(sizes) <= sizes
      ensures Contents() == old(Contents()) + (Bytes(value.t0, 8) + Bytes(value.t1, 8))
    {
      hide Bytes, After, Contents;
      WriteDouble(value.t0);
      WriteDouble(value.t1);
    }

    method Write(v: Value)
      requires Valid()
      modifies this, ext_buf
      ensures Valid() && (ext_buf == old(ext_buf) || fresh(ext_buf)) && old(sizes) <= sizes
      ensures Contents() == old(Contents()) + Encode(v)
    {
      hide Network, Bytes, Contents, After;
      match v
      case Uint8Value(b) => WriteUint8(b);
      case Uint32Value(w) => WriteUint32(w);
      case Int32Value(i) => WriteInt32(i);
      case DoubleValue(d) => WriteDouble(d);
      case PointValue(p) => WritePoint(p);
      case BoxValue(b) => WriteBox(b);
      case IntervalValue(i) => WriteInterval(i);
    }

    /**
      Any script of writes, across any number of growths.  Together with everything written
      before it leaves the buffer at most half empty, and all reallocations have moved less
      than twice the bytes that are in it.
     */
    method WriteAll(vs: seq<Value>)
      requires Valid()
      modifies this, ext_buf
      ensures Valid() && (ext_buf == old(ext_buf) || fresh(ext_buf)) && old(sizes) <= sizes
      ensures Contents() == old(Contents()) + EncodeAll(vs)
      ensures ext_buf.Length <= if 2 * |Contents()| > INITIAL_CAPACITY then 2 * |Contents()| else INITIAL_CAPACITY
      ensures times > 0 ==> copied < 2 * |Contents()|
    {
      hide Encode, Contents, After;
      for i := 0 to |vs|
        invariant Valid() && (ext_buf == old(ext_buf) || fresh(ext_buf)) && old(sizes) <= sizes
        invariant Contents() == old(Contents()) + EncodeAll(vs[..i])
      {
        Write(vs[i]);
        assert vs[..i + 1][..i] == vs[..i];
      }
      assert vs[..|vs|] == vs;
      Cost();
    }
  }

  // ---------------------------------------------------------------- reading

  /** What a read gives; `Bomb` is the end of the program in `bu_bomb`. */
  datatype Read<+T> = Ok(value: T) | Bomb
  {
    predicate IsFailure() {
      Bomb?
    }

    function PropagateFailure<U>(): Read<U>
      requires IsFailure()
    {
      Bomb
    }

    function Extract(): T
      requires !IsFailure()
    {
      value
    }
  }

  class Deserializer {
    var m_position: nat
    const m_external: External

    ghost predicate Valid()
      reads this
    {
      m_position <= m_external.ext_nbytes <= m_external.ext_buf.Length
    }

    /** What is left to read. */
    ghost function Rest(): seq<Byte>
      requires Valid()
      reads this, m_external.ext_buf
    {
      m_external.ext_buf[m_position..m_external.ext_nbytes]
    }

    constructor (external: External)
      requires external.ext_nbytes <= external.ext_buf.Length
      ensures Valid() && m_external == external
      ensures Rest() == external.ext_buf[..external.ext_nbytes]
    {
      m_position, m_external := 0, external;
    }

    /** The destructor insists that everything was read. */
    method Close() returns (r: Read<()>)
      requires Valid()
      ensures r.Ok? <==> Rest() == []
    {
      r := if m_position != m_external.ext_nbytes then Bomb else Ok(());
    }

    /** The next `size` bytes; too few are the end, with the position already moved. */
    method Get(size: nat) returns (r: Read<seq<Byte>>)
      requires Valid()
      modifies this`m_position
      ensures m_position == old(m_position) + size
      ensures r.Bomb? <==> |old(Rest())| < size
      ensures r.Ok? ==> Valid() && |r.value| == size && r.value + Rest() == old(Rest())
    {
      var resultPosition := m_position;
      m_position := m_position + size;
      if m_position > m_external.ext_nbytes {
        return Bomb;
      }
      r := Ok(m_external.ext_buf[resultPosition..m_position]);
    }

    method ReadUint8() returns (r: Read<Byte>)
      requires Valid()
      modifies this`m_position
      ensures r.Bomb? <==> |old(Rest())| < 1
      ensures r.Ok? ==> Valid() && [r.value] + Rest() == old(Rest())
    {
      var bytes :- Get(1);
      assert bytes == [bytes[0]];
      r := Ok(bytes[0]);
    }

    method ReadUint32() returns (r: Read<UInt32>)
      requires Valid()
      modifies this`m_position
      ensures r.Bomb? <==> |old(Rest())| < 4
      ensures r.Ok? ==> Valid() && Network(r.value) + Rest() == old(Rest())
    {
      hide Unsigned, Network;
      var bytes :- Get(4);
      NetworkUnsigned(bytes);
      r := Ok(Unsigned(bytes));
    }

    method ReadInt32() returns (r: Read<Int32>)
      requires Valid()
      modifies this`m_position
      ensures r.Bomb? <==> |old(Rest())| < 4
      ensures r.Ok? ==> Valid() && Network(r.value) + Rest() == old(Rest())
    {
      hide Signed, Network;
      var bytes :- Get(4);
      NetworkSigned(bytes);
      r := Ok(Signed(bytes));
    }

    method ReadDouble() returns (r: Read<Double>)
      requires Valid()
      modifies this`m_position
      ensures r.Bomb? <==> |old(Rest())| < 8
      ensures r.Ok? ==> Valid() && Bytes(r.value, 8) + Rest() == old(Rest())
    {
      hide Htond, Bytes, InMemory, FromMemory;
      var bytes :- Get(8);
      var memory := Htond(bytes);
      var d := FromMemory(memory);
      HtondInverts(bytes);
      HtondIsNetworkOrder(d);
      r := Ok(d);
    }

    method ReadPoint() returns (r: Read<Point>)
      requires Valid()
      modifies this`m_position
      ensures r.Bomb? <==> |old(Rest())| < 24
      ensures r.Ok? ==>
        && Valid()
        && Bytes(r.value.x, 8) + Bytes(r.value.y, 8) + Bytes(r.value.z, 8) + Rest() == old(Rest())
    {
      hide Bytes, Rest;
      var x :- ReadDouble();
      var y :- ReadDouble();
      var z :- ReadDouble();
      r := Ok(Point(x, y, z));
    }

    method ReadBox() returns (r: Read<BoundingBox>)
      requires Valid()
      modifies this`m_position
      ensures r.Bomb? <==> |old(Rest())| < 48
      ensures r.Ok? ==>
        && Valid()
        && Bytes(r.value.min.x, 8) + Bytes(r.value.min.y, 8) + Bytes(r.value.min.z, 8)
           + Bytes(r.value.max.x, 8) + Bytes(r.value.max.y, 8) + Bytes(r.value.max.z, 8) + Rest() == old(Rest())
    {
      hide Bytes, Rest;
      var min :- ReadPoint();
      var max :- ReadPoint();
      r := Ok(BoundingBox(min, max));
    }

    method ReadInterval() returns (r: Read<Interval>)
      requires Valid()
      modifies this`m_position
      ensures r.Bomb? <==> |old(Rest())| < 16
      ensures r.Ok? ==> Valid() && Bytes(r.value.t0, 8) + Bytes(r.value.t1, 8) + Rest() == old(Rest())
    {
      hide Bytes, Rest;
      var t0 :- ReadDouble();
      var t1 :- ReadDouble();
      r := Ok(Interval(t0, t1));
    }

    method ReadValue(k: Kind) returns (r: Read<Value>)
      requires Valid()
      modifies this`m_position
      ensures r.Bomb? <==> |old(Rest())| < Size(k)
      ensures r.Ok? ==> Valid() && KindOf(r.value) == k && Encode(r.value) + Rest() == old(Rest())
    {
      hide Network, Bytes, Rest;
      match k
      case Uint8Kind =>
        var v :- ReadUint8();
        r := Ok(Uint8Value(v));
      case Uint32Kind =>
        var v :- ReadUint32();
        r := Ok(Uint32Value(v));
      case Int32Kind =>
        var v :- ReadInt32();
        r := Ok(Int32Value(v));
      case DoubleKind =>
        var v :- ReadDouble();
        r := Ok(DoubleValue(v));
      case PointKind =>
        var v :- ReadPoint();
        r := Ok(PointValue(v));
      case BoxKind =>
        var v :- ReadBox();
        r := Ok(BoxValue(v));
      case IntervalKind =>
        var v :- ReadInterval();
        r := Ok(IntervalValue(v));
    }

    /** Any script of reads: the values whose encodings the stream starts with, if it is long enough. */
    method ReadAll(ks: seq<Kind>) returns (r: Read<seq<Value>>)
      requires Valid()
      modifies this`m_position
      ensures r.Bomb? <==> |old(Rest())| < Sizes(ks)
      ensures r.Ok? ==> Valid() && KindsOf(r.value) == ks && EncodeAll(r.value) + Rest() == old(Rest())
    {
      hide Encode, EncodeAll, KindOf, KindsOf, Size, Sizes, Rest;
      NothingEncoded();
      var vs := [];
      for i := 0 to |ks|
        invariant Valid() && KindsOf(vs) == ks[..i] && EncodeAll(vs) + Rest() == old(Rest())
      {
        EncodeAllSize(vs);
        assert ks[..i + 1][..i] == ks[..i];
        SizesGrow(ks, i);
        var v :- ReadValue(ks[i]);
        EncodeAllPush(vs, v);
        vs := vs + [v];
      }
      assert ks[..|ks|] == ks;
      EncodeAllSize(vs);
      r := Ok(vs);
    }
  }

  // ---------------------------------------------------------------- there and back

  /**
    Whatever script of values is written, taken and read back with the same kinds gives the
    same values, and the reader's destructor is content.
   */
  method RoundTrip(vs: seq<Value>) returns (r: Read<seq<Value>>, end: Read<()>)
    ensures r == Ok(vs) && end.Ok?
  {
    hide Encode, KindOf, After;
    var serializer := new Serializer();
    serializer.WriteAll(vs);
    var external := serializer.Take();
    var deserializer := new Deserializer(external);
    EncodeAllSize(vs);
    r := deserializer.ReadAll(KindsOf(vs));
    assert EncodeAll(vs) + [] == EncodeAll(vs);
    ScriptsAreUnambiguous(vs, [], r.value, deserializer.Rest());
    end := deserializer.Close();
  }
}
