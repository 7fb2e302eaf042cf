/**
 * Byte-level layout of `#pragma pack(push, 1)` structs.
 *
 * Every struct field is either an unsigned integer of 1, 2, 4 or 8 bytes or a
 * fixed-length run of raw bytes (a `char` array, or an untagged union kept as
 * its bytes).  Because packing leaves no padding, a struct occupies exactly the
 * sum of its field widths, and its bytes are the concatenation of its fields'
 * bytes in declaration order.  Integers are written little-endian (least
 * significant byte first); this is the byte order the model fixes.
 */
module Packed {

  type U8 = x: nat | x < 0x100
  type U16 = x: nat | x < 0x1_0000
  type U32 = x: nat | x < 0x1_0000_0000
  type U64 = x: nat | x < 0x1_0000_0000_0000_0000

  /** One byte of a packed buffer. */
  type Byte = U8

  /** 256 to the power n: one more than the largest n-byte unsigned value. */
  function Pow256(n: nat): (r: nat)
    ensures r >= 1
  {
    if n == 0 then 1 else 256 * Pow256(n - 1)
  }

  lemma Pow256Widths()
    ensures Pow256(1) == 0x100 && Pow256(2) == 0x1_0000
    ensures Pow256(4) == 0x1_0000_0000 && Pow256(8) == 0x1_0000_0000_0000_0000
  {
  }

  /** The n little-endian bytes of x. */
  function EncodeUInt(x: nat, n: nat): (s: seq<Byte>)
    requires x < Pow256(n)
    ensures |s| == n
  {
    if n == 0 then [] else [x % 256] + EncodeUInt(x / 256, n - 1)
  }

  /** The unsigned value of little-endian bytes s. */
  function DecodeUInt(s: seq<Byte>): (x: nat)
    ensures x < Pow256(|s|)
  {
    if s == [] then 0 else s[0] + 256 * DecodeUInt(s[1..])
  }

  /** Splitting x into its low byte and the rest, and putting them back. */
  lemma LowByte(x: nat, n: nat)
    requires n > 0 && x < Pow256(n)
    ensures x / 256 < Pow256(n - 1)
    ensures x == x % 256 + 256 * (x / 256)
  {
    var p := Pow256(n - 1);
    var q := x / 256;
    assert x == x % 256 + 256 * q;
    assert 256 * q <= x < 256 * p;
  }

  lemma JoinByte(b: Byte, q: nat)
    ensures (b + 256 * q) % 256 == b
    ensures (b + 256 * q) / 256 == q
  {
  }

  lemma {:induction false} DecodeEncodeUInt(x: nat, n: nat)
    requires x < Pow256(n)
    ensures DecodeUInt(EncodeUInt(x, n)) == x
  {
    if n > 0 {
      LowByte(x, n);
      var s := EncodeUInt(x, n);
      assert s[1..] == EncodeUInt(x / 256, n - 1);
      DecodeEncodeUInt(x / 256, n - 1);
    }
  }

  lemma {:induction false} EncodeDecodeUInt(s: seq<Byte>)
    ensures EncodeUInt(DecodeUInt(s), |s|) == s
  {
    if s != [] {
      var q := DecodeUInt(s[1..]);
      JoinByte(s[0], q);
      EncodeDecodeUInt(s[1..]);
      assert EncodeUInt(DecodeUInt(s), |s|) == [s[0]] + EncodeUInt(q, |s| - 1);
    }
  }

  /** The type of one struct field. */
  datatype FieldKind =
    | UInt(width: nat)  // an unsigned integer of `width` bytes
    | Raw(count: nat)   // `count` bytes copied as they are

  /** The value of one struct field. */
  datatype FieldValue = Num(n: nat) | Bytes(b: seq<Byte>)

  /** A struct's fields in declaration order. */
  type Layout = seq<FieldKind>

  function Width(k: FieldKind): nat
  {
    match k
    case UInt(w) => w
    case Raw(c) => c
  }

  /** v is a value of field type k. */
  predicate Fits(k: FieldKind, v: FieldValue)
  {
    match k
    case UInt(w) => v.Num? && v.n < Pow256(w)
    case Raw(c) => v.Bytes? && |v.b| == c
  }

  /** vs holds one value of the right type for each field of the layout. */
  predicate FitsAll(layout: Layout, vs: seq<FieldValue>)
  {
    |vs| == |layout| && forall i :: 0 <= i < |layout| ==> Fits(layout[i], vs[i])
  }

  /** The packed size of a layout: the sum of its field widths. */
  function Size(layout: Layout): nat
  {
    if layout == [] then 0 else Width(layout[0]) + Size(layout[1..])
  }

  /** Size unfolded at every suffix, so that the size of a concrete layout can be computed. */
  lemma SizeSuffixes(layout: Layout)
    ensures Size(layout) == Size(layout[0..])
    ensures Size(layout[|layout|..]) == 0
    ensures forall k {:trigger Size(layout[k..])} :: 0 <= k < |layout| ==> Size(layout[k..]) == Width(layout[k]) + Size(layout[k + 1..])
  {
    assert layout[0..] == layout;
    forall k | 0 <= k < |layout| ensures Size(layout[k..]) == Width(layout[k]) + Size(layout[k + 1..]) {
      assert layout[k..][1..] == layout[k + 1..];
    }
  }

  function EncodeField(k: FieldKind, v: FieldValue): (s: seq<Byte>)
    requires Fits(k, v)
    ensures |s| == Width(k)
  {
    match k
    case UInt(w) => EncodeUInt(v.n, w)
    case Raw(_) => v.b
  }

  /** Reads a field of type k from the front of s. */
  function DecodeField(k: FieldKind, s: seq<Byte>): (v: FieldValue)
    requires Width(k) <= |s|
    ensures Fits(k, v)
  {
    match k
    case UInt(w) => Num(DecodeUInt(s[..w]))
    case Raw(c) => Bytes(s[..c])
  }

  lemma DecodeEncodeField(k: FieldKind, v: FieldValue, rest: seq<Byte>)
    requires Fits(k, v)
    ensures DecodeField(k, EncodeField(k, v) + rest) == v
  {
    var s := EncodeField(k, v);
    assert (s + rest)[..Width(k)] == s;
    if k.UInt? {
      DecodeEncodeUInt(v.n, k.width);
    }
  }

  lemma EncodeDecodeField(k: FieldKind, s: seq<Byte>)
    requires Width(k) <= |s|
    ensures EncodeField(k, DecodeField(k, s)) == s[..Width(k)]
  {
    if k.UInt? {
      EncodeDecodeUInt(s[..k.width]);
    }
  }

  /** The packed bytes of a struct: its fields' bytes back to back. */
  function Encode(layout: Layout, vs: seq<FieldValue>): (s: seq<Byte>)
    requires FitsAll(layout, vs)
    ensures |s| == Size(layout)
  {
    if layout == [] then []
    else
      assert FitsAll(layout[1..], vs[1..]) by {
        forall i | 0 <= i < |layout[1..]| ensures Fits(layout[1..][i], vs[1..][i]) {
          assert Fits(layout[i + 1], vs[i + 1]);
        }
      }
      EncodeField(layout[0], vs[0]) + Encode(layout[1..], vs[1..])
  }

  /** Reads the fields of a layout from the front of s, in order. */
  function Decode(layout: Layout, s: seq<Byte>): (vs: seq<FieldValue>)
    requires Size(layout) <= |s|
    ensures FitsAll(layout, vs)
  {
    if layout == [] then []
    else
      var w := Width(layout[0]);
      var head := DecodeField(layout[0], s);
      var tail := Decode(layout[1..], s[w..]);
      assert forall i :: 0 < i < |layout| ==> layout[i] == layout[1..][i - 1] && ([head] + tail)[i] == tail[i - 1];
      [head] + tail
  }

  /** Decoding the packed bytes of vs gives back vs, whatever follows them. */
  lemma {:induction false} DecodeEncode(layout: Layout, vs: seq<FieldValue>, rest: seq<Byte>)
    requires FitsAll(layout, vs)
    ensures Decode(layout, Encode(layout, vs) + rest) == vs
  {
    if layout != [] {
      var head := EncodeField(layout[0], vs[0]);
      var tail := Encode(layout[1..], vs[1..]);
      assert Encode(layout, vs) + rest == head + (tail + rest);
      DecodeEncodeField(layout[0], vs[0], tail + rest);
      assert (head + (tail + rest))[Width(layout[0])..] == tail + rest;
      DecodeEncode(layout[1..], vs[1..], rest);
    }
  }

  /** Encoding what was decoded gives back exactly the bytes that were read. */
  lemma {:induction false} EncodeDecode(layout: Layout, s: seq<Byte>)
    requires Size(layout) <= |s|
    ensures Encode(layout, Decode(layout, s)) == s[..Size(layout)]
  {
    if layout != [] {
      var w := Width(layout[0]);
      EncodeDecodeField(layout[0], s);
      EncodeDecode(layout[1..], s[w..]);
      assert s[..Size(layout)] == s[..w] + s[w..][..Size(layout[1..])];
    }
  }

  /** Decoding reads only the first Size(layout) bytes. */
  lemma DecodePrefix(layout: Layout, s: seq<Byte>, t: seq<Byte>)
    requires Size(layout) <= |s| && Size(layout) <= |t|
    requires s[..Size(layout)] == t[..Size(layout)]
    ensures Decode(layout, s) == Decode(layout, t)
  {
    DecodeOfPrefix(layout, s);
    DecodeOfPrefix(layout, t);
  }

  lemma DecodeOfPrefix(layout: Layout, s: seq<Byte>)
    requires Size(layout) <= |s|
    ensures Decode(layout, s[..Size(layout)]) == Decode(layout, s)
  {
    var vs := Decode(layout, s);
    EncodeDecode(layout, s);
    DecodeEncode(layout, vs, []);
    assert Encode(layout, vs) + [] == s[..Size(layout)];
  }

  lemma {:induction false} SizeAppend(a: Layout, b: Layout)
    ensures Size(a + b) == Size(a) + Size(b)
  {
    if a != [] {
      assert (a + b)[1..] == a[1..] + b;
      SizeAppend(a[1..], b);
    } else {
      assert a + b == b;
    }
  }

  /** The size splits at any field into the widths before it, its own width and the widths after it. */
  lemma FieldOffset(layout: Layout, k: nat)
    requires k < |layout|
    ensures Size(layout) == Size(layout[..k]) + Width(layout[k]) + Size(layout[k + 1..])
  {
    assert layout == layout[..k] + layout[k..];
    SizeAppend(layout[..k], layout[k..]);
    assert layout[k..][1..] == layout[k + 1..];
  }

  /**
   * With no padding, the bytes of field k sit at the sum of the widths before
   * it: they are exactly that field's own encoding.
   */
  lemma FieldBytes(layout: Layout, vs: seq<FieldValue>, k: nat)
    requires FitsAll(layout, vs) && k < |layout|
    ensures Size(layout[..k]) + Width(layout[k]) <= Size(layout)
    ensures Encode(layout, vs)[Size(layout[..k])..Size(layout[..k]) + Width(layout[k])] == EncodeField(layout[k], vs[k])
  {
    FieldOffset(layout, k);
    assert layout[..k] + layout[k..] == layout && vs[..k] + vs[k..] == vs;
    FitsAllAppend(layout[..k], layout[k..], vs[..k], vs[k..]);
    EncodeAppend(layout[..k], layout[k..], vs[..k], vs[k..]);
    EncodeCons(layout[k..], vs[k..]);
    assert layout[k..][0] == layout[k] && vs[k..][0] == vs[k];
    SliceMiddle(Encode(layout, vs), Encode(layout[..k], vs[..k]), Encode(layout[k..], vs[k..]),
                EncodeField(layout[k], vs[k]), Encode(layout[k..][1..], vs[k..][1..]));
  }

  /** The bytes of one struct followed by another are the first struct's bytes followed by the second's. */
  lemma {:induction false} EncodeAppend(a: Layout, b: Layout, va: seq<FieldValue>, vb: seq<FieldValue>)
    requires FitsAll(a, va) && FitsAll(b, vb)
    ensures FitsAll(a + b, va + vb)
    ensures Encode(a + b, va + vb) == Encode(a, va) + Encode(b, vb)
  {
    FitsAllAppend(a, b, va, vb);
    if a == [] {
      assert a + b == b && va + vb == vb;
    } else {
      assert (a + b)[1..] == a[1..] + b && (va + vb)[1..] == va[1..] + vb;
      assert (a + b)[0] == a[0] && (va + vb)[0] == va[0];
      EncodeCons(a + b, va + vb);
      EncodeCons(a, va);
      EncodeAppend(a[1..], b, va[1..], vb);
      AppendAssoc(Encode(a + b, va + vb), Encode(a[1..] + b, va[1..] + vb), EncodeField(a[0], va[0]),
                  Encode(a[1..], va[1..]), Encode(b, vb), Encode(a, va));
    }
  }

  /** A nonempty struct's bytes are its first field's bytes followed by the bytes of the rest. */
  lemma EncodeCons(layout: Layout, vs: seq<FieldValue>)
    requires FitsAll(layout, vs) && layout != []
    ensures FitsAll(layout[1..], vs[1..])
    ensures Encode(layout, vs) == EncodeField(layout[0], vs[0]) + Encode(layout[1..], vs[1..])
  {
    forall i | 0 <= i < |layout[1..]| ensures Fits(layout[1..][i], vs[1..][i]) {
      assert Fits(layout[i + 1], vs[i + 1]);
    }
  }

  /** Concatenation regrouped, stated on plain sequences so that no encoding is unfolded. */
  lemma AppendAssoc(e: seq<Byte>, f: seq<Byte>, x: seq<Byte>, y: seq<Byte>, z: seq<Byte>, g: seq<Byte>)
    requires e == x + f && f == y + z && g == x + y
    ensures e == g + z
  {
  }

  /** The part of a concatenation that follows a prefix p is found right after p. */
  lemma SliceMiddle(e: seq<Byte>, p: seq<Byte>, g: seq<Byte>, f: seq<Byte>, r: seq<Byte>)
    requires e == p + g && g == f + r
    ensures e[|p|..|p| + |f|] == f
  {
  }

  lemma FitsAllAppend(a: Layout, b: Layout, va: seq<FieldValue>, vb: seq<FieldValue>)
    requires |va| == |a|
    ensures FitsAll(a + b, va + vb) <==> FitsAll(a, va) && FitsAll(b, vb)
  {
    if FitsAll(a + b, va + vb) {
      forall i | 0 <= i < |a| ensures Fits(a[i], va[i]) {
        assert (a + b)[i] == a[i] && (va + vb)[i] == va[i];
      }
      forall i | 0 <= i < |b| ensures Fits(b[i], vb[i]) {
        assert (a + b)[|a| + i] == b[i] && (va + vb)[|a| + i] == vb[i];
      }
    }
  }

  /** The layout of `elem[count]`: count copies of the element's fields. */
  function Repeat(elem: Layout, count: nat): (r: Layout)
    ensures |r| == count * |elem|
  {
    if count == 0 then [] else elem + Repeat(elem, count - 1)
  }

  /** An array occupies its element size times its element count. */
  lemma {:induction false} SizeRepeat(elem: Layout, count: nat)
    ensures Size(Repeat(elem, count)) == count * Size(elem)
  {
    if count > 0 {
      SizeAppend(elem, Repeat(elem, count - 1));
      SizeRepeat(elem, count - 1);
      assert count * Size(elem) == Size(elem) + (count - 1) * Size(elem);
    }
  }

  /**
   * How values of a packed struct type T map to field values: its layout, the
   * field values of a T, and the T built from field values.
   */
  datatype Codec<!T> = Codec(layout: Layout, fields: T -> seq<FieldValue>, build: seq<FieldValue> --> T)

  /** fields and build are inverse bijections between T and the values that fit the layout. */
  ghost predicate IsCodec<T(!new)>(c: Codec<T>)
  {
    && (forall x: T :: FitsAll(c.layout, c.fields(x)))
    && (forall vs :: FitsAll(c.layout, vs) ==> c.build.requires(vs) && c.fields(c.build(vs)) == vs)
    && (forall x: T :: c.build.requires(c.fields(x)) && c.build(c.fields(x)) == x)
  }

  /** `sizeof(T)`. */
  function PackedSize<T>(c: Codec<T>): nat
  {
    Size(c.layout)
  }

  /** The packed bytes of x: what `memcpy` reads out of the struct. */
  function EncodeWith<T(!new)>(c: Codec<T>, x: T): (s: seq<Byte>)
    requires IsCodec(c)
    ensures |s| == PackedSize(c)
  {
    Encode(c.layout, c.fields(x))
  }

  /**
   * The struct copied out of the first PackedSize(c) bytes of s: the unique T
   * whose packed bytes are those bytes.
   */
  function DecodeWith<T(!new)>(c: Codec<T>, s: seq<Byte>): (x: T)
    requires IsCodec(c) && PackedSize(c) <= |s|
    ensures EncodeWith(c, x) == s[..PackedSize(c)]
  {
    EncodeDecode(c.layout, s);
    c.build(Decode(c.layout, s))
  }

  /** Decoding the packed bytes of x gives x back, whatever follows them. */
  lemma DecodeEncodeWith<T(!new)>(c: Codec<T>, x: T, rest: seq<Byte>)
    requires IsCodec(c)
    ensures DecodeWith(c, EncodeWith(c, x) + rest) == x
  {
    DecodeEncode(c.layout, c.fields(x), rest);
  }

  /** Distinct structs have distinct packed bytes. */
  lemma EncodeWithInjective<T(!new)>(c: Codec<T>, x: T, y: T)
    requires IsCodec(c) && EncodeWith(c, x) == EncodeWith(c, y)
    ensures x == y
  {
    DecodeEncodeWith(c, x, []);
    DecodeEncodeWith(c, y, []);
  }

  /** Only the first PackedSize(c) bytes are read. */
  lemma DecodeWithPrefix<T(!new)>(c: Codec<T>, s: seq<Byte>, t: seq<Byte>)
    requires IsCodec(c) && PackedSize(c) <= |s| && PackedSize(c) <= |t|
    requires s[..PackedSize(c)] == t[..PackedSize(c)]
    ensures DecodeWith(c, s) == DecodeWith(c, t)
  {
    DecodePrefix(c.layout, s, t);
  }
}
