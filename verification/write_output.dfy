/**
 * Fixed-width integer writers of the prime sieve tool and the loop that
 * assembles its output buffer.
 *
 * Each writer stores the bytes of one unsigned integer through an
 * advancing output position and returns the position just past them. The
 * host-order ("native") writers depend on the machine and are not part of
 * this model; neither is the final stream write.
 */
module SieveOutput {

  type Byte = b: int | 0 <= b < 256

  datatype Endian = Big | Little

  /** The three integer types the writers are specialised for, by width in bytes. */
  predicate IsIntWidth(w: nat) { w == 2 || w == 4 || w == 8 }

  function Pow256(k: nat): (r: nat)
    ensures r >= 1
  {
    if k == 0 then 1 else 256 * Pow256(k - 1)
  }

  /** `(v >> 8k) & 0xFF`: the k-th least significant byte of v. */
  function ByteAt(v: nat, k: nat): Byte
  {
    (v / Pow256(k)) % 256
  }

  /** The `w` bytes of v, least significant first. */
  function LittleEndian(v: nat, w: nat): (r: seq<Byte>)
    ensures |r| == w
  {
    if w == 0 then [] else [v % 256] + LittleEndian(v / 256, w - 1)
  }

  function Reverse<T>(s: seq<T>): (r: seq<T>)
    ensures |r| == |s|
  {
    if s == [] then [] else Reverse(s[1..]) + [s[0]]
  }

  lemma {:induction false} ReverseAt<T>(s: seq<T>, i: nat)
    requires i < |s|
    ensures Reverse(s)[i] == s[|s| - 1 - i]
  {
    if i < |s| - 1 {
      ReverseAt(s[1..], i);
    }
  }

  /** The `w` bytes of v, most significant first. */
  function BigEndian(v: nat, w: nat): (r: seq<Byte>)
    ensures |r| == w
  {
    Reverse(LittleEndian(v, w))
  }

  function Encoded(v: nat, w: nat, e: Endian): (r: seq<Byte>)
    ensures |r| == w
  {
    match e
    case Big => BigEndian(v, w)
    case Little => LittleEndian(v, w)
  }

  /** Σ b[i]·256^i: the number a little-endian byte string stands for. */
  function LittleValue(bytes: seq<Byte>): nat
  {
    if bytes == [] then 0 else bytes[0] + 256 * LittleValue(bytes[1..])
  }

  /** The number a big-endian byte string stands for. */
  function BigValue(bytes: seq<Byte>): nat
  {
    if bytes == [] then 0 else BigValue(bytes[..|bytes| - 1]) * 256 + bytes[|bytes| - 1]
  }

  /** Byte k of the little-endian encoding is the k-th least significant byte. */
  lemma {:induction false} LittleEndianAt(v: nat, w: nat, k: nat)
    requires k < w
    ensures LittleEndian(v, w)[k] == ByteAt(v, k)
  {
    if k > 0 {
      LittleEndianAt(v / 256, w - 1, k - 1);
      DivDiv(v, Pow256(k - 1));
    }
  }

  lemma DivDiv(v: nat, p: nat)
    requires p >= 1
    ensures v / 256 / p == v / (256 * p)
  {
    var q, r := v / 256, v % 256;
    var q2, r2 := q / p, q % p;
    assert q == p * q2 + r2;
    assert v == 256 * q + r;
    MulAssoc(p, q2, r2, r);
    DivUnique(v, 256 * p, q2, 256 * r2 + r);
  }

  lemma MulAssoc(p: nat, q2: nat, r2: nat, r: nat)
    requires r2 < p && r < 256
    ensures 256 * (p * q2 + r2) + r == (256 * p) * q2 + (256 * r2 + r)
    ensures 256 * r2 + r < 256 * p
  {
  }

  lemma DivUnique(v: nat, d: nat, q: nat, r: nat)
    requires d >= 1 && v == d * q + r && r < d
    ensures v / d == q
  {
    var q', r' := v / d, v % d;
    assert v == d * q' + r';
    if q' < q {
      assert d * (q' + 1) == d * q' + d;
      MulLe(d, q' + 1, q);
    } else if q' > q {
      MulLe(d, q + 1, q');
    }
  }

  lemma {:induction false} MulLe(d: nat, a: nat, b: nat)
    requires a <= b
    ensures d * a <= d * b
    decreases b - a
  {
    if a < b {
      MulLe(d, a, b - 1);
      assert d * (b - 1) + d == d * b;
    }
  }

  /** Decoding the little-endian bytes of a value that fits gives the value back. */
  lemma {:induction false} LittleRoundTrip(v: nat, w: nat)
    requires v < Pow256(w)
    ensures LittleValue(LittleEndian(v, w)) == v
  {
    if w > 0 {
      assert v / 256 < Pow256(w - 1);
      LittleRoundTrip(v / 256, w - 1);
      assert LittleEndian(v, w)[1..] == LittleEndian(v / 256, w - 1);
    }
  }

  /** Reading a reversed byte string most significant first is reading it least significant first. */
  lemma {:induction false} BigValueOfReverse(bytes: seq<Byte>)
    ensures BigValue(Reverse(bytes)) == LittleValue(bytes)
  {
    if bytes != [] {
      var r := Reverse(bytes);
      assert r[..|r| - 1] == Reverse(bytes[1..]);
      BigValueOfReverse(bytes[1..]);
    }
  }

  /** Decoding the big-endian bytes of a value that fits gives the value back. */
  lemma BigRoundTrip(v: nat, w: nat)
    requires v < Pow256(w)
    ensures BigValue(BigEndian(v, w)) == v
  {
    BigValueOfReverse(LittleEndian(v, w));
    LittleRoundTrip(v, w);
  }

  /** The two byte orders hold the same bytes in opposite order. */
  lemma BigIsReversedLittle(v: nat, w: nat, k: nat)
    requires k < w
    ensures BigEndian(v, w)[k] == LittleEndian(v, w)[w - 1 - k] == ByteAt(v, w - 1 - k)
  {
    ReverseAt(LittleEndian(v, w), k);
    LittleEndianAt(v, w, w - 1 - k);
  }

  lemma PowersOf256()
    ensures Pow256(1) == 0x100 && Pow256(2) == 0x1_0000 && Pow256(3) == 0x100_0000
    ensures Pow256(4) == 0x1_0000_0000 && Pow256(5) == 0x100_0000_0000
    ensures Pow256(6) == 0x1_0000_0000_0000 && Pow256(7) == 0x100_0000_0000_0000
    ensures Pow256(8) == 0x1_0000_0000_0000_0000
  {
  }

  /** What a writer promises: it stored `expected` at [out, out + |expected|), nothing else changed, and it returned the position after. */
  ghost predicate Wrote(buf: seq<Byte>, old_buf: seq<Byte>, out: nat, expected: seq<Byte>)
  {
    && |buf| == |old_buf| && out + |expected| <= |buf|
    && buf[out..out + |expected|] == expected
    && buf[..out] == old_buf[..out]
    && buf[out + |expected|..] == old_buf[out + |expected|..]
  }

  lemma EncodingFromBytes(v: nat, w: nat, e: Endian, bytes: seq<Byte>)
    requires |bytes| == w
    requires e == Little ==> forall k :: 0 <= k < w ==> bytes[k] == ByteAt(v, k)
    requires e == Big ==> forall k :: 0 <= k < w ==> bytes[k] == ByteAt(v, w - 1 - k)
    ensures bytes == Encoded(v, w, e)
  {
    forall k | 0 <= k < w ensures bytes[k] == Encoded(v, w, e)[k] {
      if e == Little { LittleEndianAt(v, w, k); } else { BigIsReversedLittle(v, w, k); }
    }
  }

  /** `write<uint16_t, big>` */
  method Write16Big(v: nat, buf: array<Byte>, out: nat) returns (next: nat)
    requires v < 0x1_0000 && out + 2 <= buf.Length
    modifies buf
    ensures next == out + 2
    ensures Wrote(buf[..], old(buf[..]), out, BigEndian(v, 2))
  {
    buf[out] := (v / 0x100) % 0x100;
    buf[out + 1] := v % 0x100;
    next := out + 2;
    PowersOf256();
    EncodingFromBytes(v, 2, Big, buf[out..out + 2]);
  }

  /** `write<uint16_t, little>` */
  method Write16Little(v: nat, buf: array<Byte>, out: nat) returns (next: nat)
    requires v < 0x1_0000 && out + 2 <= buf.Length
    modifies buf
    ensures next == out + 2
    ensures Wrote(buf[..], old(buf[..]), out, LittleEndian(v, 2))
  {
    buf[out] := v % 0x100;
    buf[out + 1] := (v / 0x100) % 0x100;
    next := out + 2;
    PowersOf256();
    EncodingFromBytes(v, 2, Little, buf[out..out + 2]);
  }

  /** `write<uint32_t, big>` */
  method Write32Big(v: nat, buf: array<Byte>, out: nat) returns (next: nat)
    requires v < 0x1_0000_0000 && out + 4 <= buf.Length
    modifies buf
    ensures next == out + 4
    ensures Wrote(buf[..], old(buf[..]), out, BigEndian(v, 4))
  {
    buf[out] := (v / 0x100_0000) % 0x100;
    buf[out + 1] := (v / 0x1_0000) % 0x100;
    buf[out + 2] := (v / 0x100) % 0x100;
    buf[out + 3] := v % 0x100;
    next := out + 4;
    PowersOf256();
    EncodingFromBytes(v, 4, Big, buf[out..out + 4]);
  }

  /** `write<uint32_t, little>` */
  method Write32Little(v: nat, buf: array<Byte>, out: nat) returns (next: nat)
    requires v < 0x1_0000_0000 && out + 4 <= buf.Length
    modifies buf
    ensures next == out + 4
    ensures Wrote(buf[..], old(buf[..]), out, LittleEndian(v, 4))
  {
    buf[out] := v % 0x100;
    buf[out + 1] := (v / 0x100) % 0x100;
    buf[out + 2] := (v / 0x1_0000) % 0x100;
    buf[out + 3] := (v / 0x100_0000) % 0x100;
    next := out + 4;
    PowersOf256();
    EncodingFromBytes(v, 4, Little, buf[out..out + 4]);
  }

  /** The eight bytes of a 64-bit value, least significant first. */
  lemma LittleEndian64(v: nat)
    ensures LittleEndian(v, 8) ==
      [v % 0x100, (v / 0x100) % 0x100, (v / 0x1_0000) % 0x100, (v / 0x100_0000) % 0x100,
        (v / 0x1_0000_0000) % 0x100, (v / 0x100_0000_0000) % 0x100, (v / 0x1_0000_0000_0000) % 0x100, (v / 0x100_0000_0000_0000) % 0x100]
  {
    PowersOf256();
    LittleEndianAt(v, 8, 0); LittleEndianAt(v, 8, 1); LittleEndianAt(v, 8, 2); LittleEndianAt(v, 8, 3);
    LittleEndianAt(v, 8, 4); LittleEndianAt(v, 8, 5); LittleEndianAt(v, 8, 6); LittleEndianAt(v, 8, 7);
  }

  /** The eight bytes of a 64-bit value, most significant first. */
  lemma BigEndian64(v: nat)
    ensures BigEndian(v, 8) ==
      [(v / 0x100_0000_0000_0000) % 0x100, (v / 0x1_0000_0000_0000) % 0x100, (v / 0x100_0000_0000) % 0x100, (v / 0x1_0000_0000) % 0x100,
        (v / 0x100_0000) % 0x100, (v / 0x1_0000) % 0x100, (v / 0x100) % 0x100, v % 0x100]
  {
    PowersOf256();
    BigIsReversedLittle(v, 8, 0); BigIsReversedLittle(v, 8, 1); BigIsReversedLittle(v, 8, 2); BigIsReversedLittle(v, 8, 3);
    BigIsReversedLittle(v, 8, 4); BigIsReversedLittle(v, 8, 5); BigIsReversedLittle(v, 8, 6); BigIsReversedLittle(v, 8, 7);
  }

  /** `write<uint64_t, big>` */
  method Write64Big(v: nat, buf: array<Byte>, out: nat) returns (next: nat)
    requires v < 0x1_0000_0000_0000_0000 && out + 8 <= buf.Length
    modifies buf
    ensures next == out + 8
    ensures Wrote(buf[..], old(buf[..]), out, BigEndian(v, 8))
  {
    buf[out] := (v / 0x100_0000_0000_0000) % 0x100;
    buf[out + 1] := (v / 0x1_0000_0000_0000) % 0x100;
    buf[out + 2] := (v / 0x100_0000_0000) % 0x100;
    buf[out + 3] := (v / 0x1_0000_0000) % 0x100;
    buf[out + 4] := (v / 0x100_0000) % 0x100;
    buf[out + 5] := (v / 0x1_0000) % 0x100;
    buf[out + 6] := (v / 0x100) % 0x100;
    buf[out + 7] := v % 0x100;
    next := out + 8;
    BigEndian64(v);
  }

  /** `write<uint64_t, little>` */
  method Write64Little(v: nat, buf: array<Byte>, out: nat) returns (next: nat)
    requires v < 0x1_0000_0000_0000_0000 && out + 8 <= buf.Length
    modifies buf
    ensures next == out + 8
    ensures Wrote(buf[..], old(buf[..]), out, LittleEndian(v, 8))
  {
    buf[out] := v % 0x100;
    buf[out + 1] := (v / 0x100) % 0x100;
    buf[out + 2] := (v / 0x1_0000) % 0x100;
    buf[out + 3] := (v / 0x100_0000) % 0x100;
    buf[out + 4] := (v / 0x1_0000_0000) % 0x100;
    buf[out + 5] := (v / 0x100_0000_0000) % 0x100;
    buf[out + 6] := (v / 0x1_0000_0000_0000) % 0x100;
    buf[out + 7] := (v / 0x100_0000_0000_0000) % 0x100;
    next := out + 8;
    LittleEndian64(v);
  }

  /** The template `write<IntType, endian>` chosen by the element width and the byte order. */
  method Write(v: nat, w: nat, e: Endian, buf: array<Byte>, out: nat) returns (next: nat)
    requires IsIntWidth(w) && v < Pow256(w) && out + w <= buf.Length
    modifies buf
    ensures next == out + w
    ensures Wrote(buf[..], old(buf[..]), out, Encoded(v, w, e))
  {
    PowersOf256();
    if w == 2 {
      if e == Big { next := Write16Big(v, buf, out); } else { next := Write16Little(v, buf, out); }
    } else if w == 4 {
      if e == Big { next := Write32Big(v, buf, out); } else { next := Write32Little(v, buf, out); }
    } else {
      if e == Big { next := Write64Big(v, buf, out); } else { next := Write64Little(v, buf, out); }
    }
  }

  /** i·w written as repeated addition, so that positions stay linear for the solver. */
  function Offset(i: nat, w: nat): nat
  {
    if i == 0 then 0 else Offset(i - 1, w) + w
  }

  lemma {:induction false} OffsetIsProduct(i: nat, w: nat)
    ensures Offset(i, w) == i * w
  {
    if i > 0 {
      OffsetIsProduct(i - 1, w);
      assert (i - 1) * w + w == i * w;
    }
  }

  lemma {:induction false} OffsetMono(i: nat, n: nat, w: nat)
    requires i < n
    ensures Offset(i, w) + w <= Offset(n, w)
    decreases n - i
  {
    if i + 1 < n {
      OffsetMono(i + 1, n, w);
    }
  }

  /** The concatenation of enc(v) over the values, in order. */
  function ConcatMap(values: seq<nat>, enc: nat -> seq<Byte>): seq<Byte>
  {
    if values == [] then [] else ConcatMap(values[..|values| - 1], enc) + enc(values[|values| - 1])
  }

  /** The concatenated encodings of a sequence of values. */
  function EncodeAll(values: seq<nat>, w: nat, e: Endian): seq<Byte>
  {
    ConcatMap(values, EncoderFor(w, e))
  }

  function EncoderFor(w: nat, e: Endian): nat -> seq<Byte>
  {
    (v: nat) => Encoded(v, w, e)
  }

  /** Value i occupies bytes [i·w, (i+1)·w) of the output, in the chosen byte order. */
  lemma ValueSlot(values: seq<nat>, w: nat, e: Endian, i: nat)
    requires i < |values|
    ensures |EncodeAll(values, w, e)| == |values| * w
    ensures i * w + w <= |values| * w
    ensures EncodeAll(values, w, e)[i * w..i * w + w] == Encoded(values[i], w, e)
  {
    var enc := EncoderFor(w, e);
    ConcatMapLength(values, enc, w);
    ConcatMapAt(values, enc, w, i);
    OffsetIsProduct(i, w);
    OffsetIsProduct(|values|, w);
  }

  lemma {:induction false} ConcatMapLength(values: seq<nat>, enc: nat -> seq<Byte>, w: nat)
    requires forall v :: |enc(v)| == w
    ensures |ConcatMap(values, enc)| == Offset(|values|, w)
  {
    if values != [] {
      ConcatMapLength(values[..|values| - 1], enc, w);
    }
  }

  lemma {:induction false} ConcatMapAt(values: seq<nat>, enc: nat -> seq<Byte>, w: nat, i: nat)
    requires forall v :: |enc(v)| == w
    requires i < |values|
    ensures Offset(i, w) + w <= Offset(|values|, w)
    ensures |ConcatMap(values, enc)| == Offset(|values|, w)
    ensures ConcatMap(values, enc)[Offset(i, w)..Offset(i, w) + w] == enc(values[i])
  {
    var n := |values|;
    var front := values[..n - 1];
    var a, b := ConcatMap(front, enc), enc(values[n - 1]);
    ConcatMapLength(values, enc, w);
    ConcatMapLength(front, enc, w);
    var lo := Offset(i, w);
    OffsetMono(i, n, w);
    if i < n - 1 {
      ConcatMapAt(front, enc, w, i);
      assert front[i] == values[i];
      ChunkInFront(a, b, lo, w, enc(values[i]));
    } else {
      ChunkAtEnd(a, b);
    }
  }

  lemma ChunkInFront<T>(a: seq<T>, b: seq<T>, lo: nat, w: nat, x: seq<T>)
    requires lo + w <= |a| && a[lo..lo + w] == x
    ensures (a + b)[lo..lo + w] == x
  {
    assert (a + b)[lo..lo + w] == a[lo..lo + w];
  }

  lemma ChunkAtEnd<T>(a: seq<T>, b: seq<T>)
    ensures (a + b)[|a|..|a| + |b|] == b
  {
  }

  lemma WroteExtendsPrefix(buf: seq<Byte>, before: seq<Byte>, lo: nat, x: seq<Byte>)
    requires Wrote(buf, before, lo, x)
    ensures buf[..lo + |x|] == before[..lo] + x
  {
    assert buf[..lo + |x|] == buf[..lo] + buf[lo..lo + |x|];
  }

  /** Writing value i at its slot after the first i encodings extends them to the first i + 1. */
  lemma PrefixStep(values: seq<nat>, w: nat, e: Endian, i: nat, buf: seq<Byte>, before: seq<Byte>, next: nat)
    requires i < |values| && Offset(i, w) <= |before| && next == Offset(i, w) + w
    requires before[..Offset(i, w)] == ConcatMap(values[..i], EncoderFor(w, e))
    requires Wrote(buf, before, Offset(i, w), Encoded(values[i], w, e))
    ensures next == Offset(i + 1, w) <= |buf|
    ensures buf[..next] == ConcatMap(values[..i + 1], EncoderFor(w, e))
  {
    var x := Encoded(values[i], w, e);
    WroteExtendsPrefix(buf, before, Offset(i, w), x);
    assert values[..i + 1][..i] == values[..i];
    assert EncoderFor(w, e)(values[i]) == x;
  }

  /**
   * `write_output`: a buffer of count·sizeof bytes filled by writing each
   * value in turn at the advancing position.
   */
  method WriteOutput(values: seq<nat>, w: nat, e: Endian) returns (bytes: array<Byte>)
    requires IsIntWidth(w)
    requires forall i :: 0 <= i < |values| ==> values[i] < Pow256(w)
    ensures fresh(bytes)
    ensures bytes.Length == |values| * w
    ensures bytes[..] == EncodeAll(values, w, e)
  {
    OffsetIsProduct(|values|, w);
    bytes := new Byte[|values| * w];
    var ptr := 0;
    var i := 0;
    while i < |values|
      invariant 0 <= i <= |values|
      invariant ptr == Offset(i, w) <= bytes.Length
      invariant bytes[..ptr] == ConcatMap(values[..i], EncoderFor(w, e))
    {
      OffsetMono(i, |values|, w);
      assert values[i] < Pow256(w);
      ghost var before := bytes[..];
      var next := Write(values[i], w, e, bytes, ptr);
      PrefixStep(values, w, e, i, bytes[..], before, next);
      ptr, i := next, i + 1;
    }
    assert values[..i] == values;
    assert bytes[..] == bytes[..ptr];
  }
}
