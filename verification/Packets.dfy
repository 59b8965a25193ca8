/** Packet buffers: fixed-width little-endian integers, raw bytes and
    length-prefixed strings, written to a growing buffer and read back by an
    advancing cursor. */
module Packets {
  import opened Wrappers

  function Pow256(w: nat): (r: nat)
    ensures r > 0
  {
    if w == 0 then 1 else 256 * Pow256(w - 1)
  }

  type Byte = b: nat | b < 256
  type UInt8 = v: nat | v < Pow256(1)
  type UInt16 = v: nat | v < Pow256(2)
  type UInt32 = v: nat | v < Pow256(4)
  type UInt64 = v: nat | v < Pow256(8)

  // ---- What is on the wire ---------------------------------------------------

  /** The low `w` bytes of `v`, lowest first; a wider value is truncated. */
  function LittleEndian(v: nat, w: nat): (s: seq<Byte>)
    ensures |s| == w
  {
    if w == 0 then [] else [v % 256] + LittleEndian(v / 256, w - 1)
  }

  function FromLittleEndian(s: seq<Byte>): (v: nat)
    ensures v < Pow256(|s|)
  {
    if s == [] then 0 else s[0] + 256 * FromLittleEndian(s[1..])
  }

  datatype Parsed<+T> = Parsed(value: T, rest: seq<Byte>)

  function TakeUInt(s: seq<Byte>, w: nat): (r: Option<Parsed<nat>>)
    ensures r.Some? ==> r.value.value < Pow256(w)
  {
    if |s| < w then None else Some(Parsed(FromLittleEndian(s[..w]), s[w..]))
  }

  function TakeBytes(s: seq<Byte>, n: nat): Option<Parsed<seq<Byte>>> {
    if |s| < n then None else Some(Parsed(s[..n], s[n..]))
  }

  function StringBytes(text: seq<Byte>): seq<Byte> {
    LittleEndian(|text|, 2) + text
  }

  function TakeString(s: seq<Byte>): (r: Option<Parsed<seq<Byte>>>)
    ensures r.Some? ==> |r.value.value| < Pow256(2)
  {
    var Parsed(size, s1) :- TakeUInt(s, 2);
    TakeBytes(s1, size)
  }

  lemma ConcatAssociative(a: seq<Byte>, b: seq<Byte>, c: seq<Byte>)
    ensures (a + b) + c == a + (b + c)
  {}

  lemma ConcatFive(z: seq<Byte>, a: seq<Byte>, b: seq<Byte>, c: seq<Byte>, d: seq<Byte>, e: seq<Byte>)
    ensures z + a + b + c + d + e == z + (a + (b + (c + (d + e))))
  {
    ConcatAssociative(z + a + b + c, d, e);
    ConcatAssociative(z + a + b, c, d + e);
    ConcatAssociative(z + a, b, c + (d + e));
    ConcatAssociative(z, a, b + (c + (d + e)));
  }

  lemma ConcatSeven(a: seq<Byte>, b: seq<Byte>, c: seq<Byte>, d: seq<Byte>, e: seq<Byte>, f: seq<Byte>, g: seq<Byte>)
    ensures [] + a + b + c + d + e + f + g == a + (b + (c + (d + (e + (f + g)))))
  {
    assert [] + a == a;
    ConcatFive(a, b, c, d, e, f);
    ConcatAssociative(a, b + (c + (d + (e + f))), g);
    ConcatFive(b, c, d, e, f, g);
    assert b + c + d + e + f == b + (c + (d + (e + f))) by {
      ConcatFive([], b, c, d, e, f);
      assert [] + b == b;
      assert [] + (b + (c + (d + (e + f)))) == b + (c + (d + (e + f)));
    }
  }

  // ---- Layout ---------------------------------------------------------------------

  /** Numbers are written lowest byte first. */
  lemma LowestByteFirst()
    ensures LittleEndian(0x0201, 2) == [1, 2] && LittleEndian(0x04030201, 4) == [1, 2, 3, 4]
  {
    assert LittleEndian(0x04, 1) == [4] && LittleEndian(0x0403, 2) == [3, 4] && LittleEndian(0x040302, 3) == [2, 3, 4];
  }

  lemma WidthLimits()
    ensures Pow256(1) == 256 && Pow256(2) == 65536 && Pow256(4) == 0x1_0000_0000 && Pow256(8) == 0x1_0000_0000_0000_0000
  {
    assert Pow256(3) == 0x100_0000 && Pow256(5) == 0x100_0000_0000 && Pow256(6) == 0x1_0000_0000_0000;
  }

  // ---- Round trips -------------------------------------------------------------

  lemma {:induction false} LittleEndianRoundTrip(v: nat, w: nat)
    requires v < Pow256(w)
    ensures FromLittleEndian(LittleEndian(v, w)) == v
  {
    if w > 0 {
      LittleEndianRoundTrip(v / 256, w - 1);
      assert LittleEndian(v, w)[1..] == LittleEndian(v / 256, w - 1);
    }
  }

  lemma TakeUIntRoundTrip(v: nat, w: nat, s: seq<Byte>)
    requires v < Pow256(w)
    ensures TakeUInt(LittleEndian(v, w) + s, w) == Some(Parsed(v, s))
  {
    LittleEndianRoundTrip(v, w);
    assert (LittleEndian(v, w) + s)[..w] == LittleEndian(v, w);
    assert (LittleEndian(v, w) + s)[w..] == s;
  }

  lemma TakeBytesRoundTrip(b: seq<Byte>, s: seq<Byte>)
    ensures TakeBytes(b + s, |b|) == Some(Parsed(b, s))
  {
    assert (b + s)[..|b|] == b;
    assert (b + s)[|b|..] == s;
  }

  lemma TakeStringRoundTrip(text: seq<Byte>, s: seq<Byte>)
    requires |text| < 65536
    ensures TakeString(StringBytes(text) + s) == Some(Parsed(text, s))
  {
    WidthLimits();
    assert StringBytes(text) + s == LittleEndian(|text|, 2) + (text + s);
    TakeUIntRoundTrip(|text|, 2, text + s);
    TakeBytesRoundTrip(text, s);
  }

  /** A read that succeeds is not disturbed by what follows. */
  lemma TakeUIntExtends(s: seq<Byte>, w: nat, x: seq<Byte>)
    requires TakeUInt(s, w).Some?
    ensures TakeUInt(s + x, w) == Some(Parsed(TakeUInt(s, w).value.value, TakeUInt(s, w).value.rest + x))
  {
    assert (s + x)[..w] == s[..w];
    assert (s + x)[w..] == s[w..] + x;
  }

  lemma TakeBytesExtends(s: seq<Byte>, n: nat, x: seq<Byte>)
    requires TakeBytes(s, n).Some?
    ensures TakeBytes(s + x, n) == Some(Parsed(TakeBytes(s, n).value.value, TakeBytes(s, n).value.rest + x))
  {
    assert (s + x)[..n] == s[..n];
    assert (s + x)[n..] == s[n..] + x;
  }

  // ---- Repeated elements -------------------------------------------------------

  /** The encodings of the elements, one after the other. */
  function ManyBytes<T>(put: T -> seq<Byte>, ts: seq<T>): seq<Byte> {
    if ts == [] then [] else put(ts[0]) + ManyBytes(put, ts[1..])
  }

  function TakeMany<T>(take: seq<Byte> -> Option<Parsed<T>>, s: seq<Byte>, n: nat): (r: Option<Parsed<seq<T>>>)
    ensures r.Some? ==> |r.value.value| == n
    decreases n
  {
    if n == 0 then Some(Parsed([], s))
    else
      var Parsed(t, s1) :- take(s);
      var Parsed(ts, s2) :- TakeMany(take, s1, n - 1);
      Some(Parsed([t] + ts, s2))
  }

  ghost predicate Inverse<T>(put: T -> seq<Byte>, take: seq<Byte> -> Option<Parsed<T>>, t: T) {
    forall s :: take(put(t) + s) == Some(Parsed(t, s))
  }

  /** Reading `n` of the encoded elements gives the first `n` and leaves the rest. */
  lemma {:induction false} TakeManyRoundTrip<T>(put: T -> seq<Byte>, take: seq<Byte> -> Option<Parsed<T>>,
                                                ts: seq<T>, n: nat, s: seq<Byte>)
    requires n <= |ts| && forall i :: 0 <= i < n ==> Inverse(put, take, ts[i])
    ensures TakeMany(take, ManyBytes(put, ts) + s, n) == Some(Parsed(ts[..n], ManyBytes(put, ts[n..]) + s))
    decreases n
  {
    if n == 0 {
      assert ts[n..] == ts;
    } else {
      ConcatAssociative(put(ts[0]), ManyBytes(put, ts[1..]), s);
      assert Inverse(put, take, ts[0]);
      TakeManyRoundTrip(put, take, ts[1..], n - 1, s);
      assert [ts[0]] + ts[1..][..n - 1] == ts[..n];
      assert ts[1..][n - 1..] == ts[n..];
    }
  }

  ghost predicate Extends<T>(take: seq<Byte> -> Option<Parsed<T>>) {
    forall s, x {:trigger take(s + x)} :: take(s).Some? ==>
      take(s + x) == Some(Parsed(take(s).value.value, take(s).value.rest + x))
  }

  lemma {:induction false} TakeManyExtends<T>(take: seq<Byte> -> Option<Parsed<T>>, s: seq<Byte>, n: nat, x: seq<Byte>)
    requires Extends(take) && TakeMany(take, s, n).Some?
    ensures TakeMany(take, s + x, n) ==
            Some(Parsed(TakeMany(take, s, n).value.value, TakeMany(take, s, n).value.rest + x))
    decreases n
  {
    if n > 0 {
      assert take(s + x).Some?;
      TakeManyExtends(take, take(s).value.rest, n - 1, x);
    }
  }

  lemma {:induction false} TakeManyAll<T>(take: seq<Byte> -> Option<Parsed<T>>, p: T -> bool, s: seq<Byte>, n: nat)
    requires forall r :: take(r).Some? ==> p(take(r).value.value)
    requires TakeMany(take, s, n).Some?
    ensures forall i :: 0 <= i < n ==> p(TakeMany(take, s, n).value.value[i])
    decreases n
  {
    if n > 0 {
      TakeManyAll(take, p, take(s).value.rest, n - 1);
    }
  }

  /** `read` elements have been taken from `start`; the others come from `rest`. */
  ghost predicate ReadSoFar<T>(take: seq<Byte> -> Option<Parsed<T>>, start: seq<Byte>, count: nat, read: seq<T>,
                               rest: seq<Byte>)
  {
    |read| <= count &&
    TakeMany(take, start, count) ==
      var more := TakeMany(take, rest, count - |read|);
      if more.None? then None else Some(Parsed(read + more.value.value, more.value.rest))
  }

  lemma ReadSoFarStart<T>(take: seq<Byte> -> Option<Parsed<T>>, start: seq<Byte>, count: nat)
    ensures ReadSoFar(take, start, count, [], start)
  {
    var all := TakeMany(take, start, count);
    assert all.Some? ==> [] + all.value.value == all.value.value;
  }

  lemma ReadSoFarStep<T>(take: seq<Byte> -> Option<Parsed<T>>, start: seq<Byte>, count: nat, read: seq<T>,
                         rest: seq<Byte>)
    requires ReadSoFar(take, start, count, read, rest) && |read| < count
    ensures take(rest).None? ==> TakeMany(take, start, count).None?
    ensures take(rest).Some? ==> ReadSoFar(take, start, count, read + [take(rest).value.value], take(rest).value.rest)
  {
    var next := take(rest);
    if next.Some? {
      var more := TakeMany(take, next.value.rest, count - |read| - 1);
      assert more.Some? ==>
        read + ([next.value.value] + more.value.value) == read + [next.value.value] + more.value.value;
    }
  }

  // ---- Writer and reader ---------------------------------------------------

  class PacketWriter {
    var data: seq<Byte>

    constructor ()
      ensures data == []
    {
      data := [];
    }

    method WriteUInt(value: nat, w: nat)
      modifies this
      ensures data == old(data) + LittleEndian(value, w)
    {
      var v, i := value, 0;
      while i < w
        invariant 0 <= i <= w
        invariant data + LittleEndian(v, w - i) == old(data) + LittleEndian(value, w)
      {
        data := data + [v % 256];
        v, i := v / 256, i + 1;
      }
    }

    method WriteBytes(bytes: seq<Byte>)
      modifies this
      ensures data == old(data) + bytes
    {
      data := data + bytes;
    }

    method WriteString(text: seq<Byte>)
      modifies this
      ensures data == old(data) + StringBytes(text)
    {
      WriteUInt(|text|, 2);
      WriteBytes(text);
    }
  }

  ghost function ValueOf<T>(r: Option<Parsed<T>>): Option<T> {
    if r.None? then None else Some(r.value.value)
  }

  class PacketReader {
    const data: seq<Byte>
    var offset: nat

    ghost predicate Valid()
      reads this
    {
      offset <= |data|
    }

    /** The bytes not read yet. */
    ghost function Rest(): seq<Byte>
      requires Valid()
      reads this
    {
      data[offset..]
    }

    constructor (bytes: seq<Byte>)
      ensures Valid() && Rest() == data == bytes
    {
      data := bytes;
      offset := 0;
    }

    method ReadUInt(w: nat) returns (r: Option<nat>)
      requires Valid()
      modifies this`offset
      ensures Valid() && r == ValueOf(TakeUInt(old(Rest()), w))
      ensures r.Some? ==> r.value < Pow256(w) && Rest() == TakeUInt(old(Rest()), w).value.rest
      ensures offset == old(offset) + if r.Some? then w else 0
    {
      if offset + w > |data| {
        return None;
      }
      assert data[offset..][..w] == data[offset..offset + w];
      r := Some(FromLittleEndian(data[offset..offset + w]));
      offset := offset + w;
    }

    method ReadBytes(n: nat) returns (r: Option<seq<Byte>>)
      requires Valid()
      modifies this`offset
      ensures Valid() && r == ValueOf(TakeBytes(old(Rest()), n))
      ensures r.Some? ==> Rest() == TakeBytes(old(Rest()), n).value.rest
      ensures offset == old(offset) + if r.Some? then n else 0
    {
      if offset + n > |data| {
        return None;
      }
      assert data[offset..][..n] == data[offset..offset + n];
      r := Some(data[offset..offset + n]);
      offset := offset + n;
    }

    method ReadString() returns (r: Option<seq<Byte>>)
      requires Valid()
      modifies this`offset
      ensures Valid() && r == ValueOf(TakeString(old(Rest())))
      ensures r.Some? ==> Rest() == TakeString(old(Rest())).value.rest
    {
      var size := ReadUInt(2);
      if size.None? {
        return None;
      }
      r := ReadBytes(size.value);
    }

    method Remaining() returns (n: nat)
      requires Valid()
      ensures n == |Rest()|
    {
      n := |data| - offset;
    }
  }
}
