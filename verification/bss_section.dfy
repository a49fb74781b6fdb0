/**
 * The BSS section of a compiled fragment: only an alignment and a size,
 * packed into one 64-bit word (the alignment as a power-of-two exponent in
 * bits 0-7, the size in bits 8-39), together with the dispatcher that
 * creates it and the one that reads it.
 */
module Bss {
  import opened BitCount

  const U32Max: nat := 0xFFFF_FFFF
  const Bits40: nat := 0x100_0000_0000

  /** An exponent stored for a 32-bit alignment is below 32, so `1U << align_` does not overflow. */
  lemma CtzOfU32(align: nat)
    requires IsPowerOfTwo(align) && align <= U32Max
    ensures Ctz(align) < 32
  {
    SingleBitIsPowerOfCtz(align);
    if Ctz(align) >= 32 {
      Pow2Grows(32, Ctz(align));
      Pow2Of32();
      assert false;
    }
  }

  /** The `align_` bit field: bits 0-7. */
  function AlignField(w: nat): nat
  {
    w % 0x100
  }

  /** The `size_` bit field: bits 8-39. */
  function SizeField(w: nat): nat
  {
    w / 0x100 % 0x1_0000_0000
  }

  /** Assignment to `align_`: bits 0-7 replaced by `e`, the others kept. */
  function SetAlignField(w: nat, e: nat): (r: nat)
    requires e < 0x100
    ensures AlignField(r) == e && SizeField(r) == SizeField(w) && r / Bits40 == w / Bits40
  {
    w - w % 0x100 + e
  }

  /** Assignment to `size_`: bits 8-39 replaced by `s`, the others kept. */
  function SetSizeField(w: nat, s: nat): (r: nat)
    requires s <= U32Max
    ensures AlignField(r) == AlignField(w) && SizeField(r) == s && r / Bits40 == w / Bits40
  {
    w % 0x100 + s * 0x100 + w / Bits40 * Bits40
  }

  /** `bss_section`: the packed word is its only state. */
  class BssSection {
    var field64: nat

    /** The word was produced by the constructor: nothing above bit 39, an exponent a `unsigned` can shift by. */
    predicate Valid()
      reads this
    {
      field64 < Bits40 && AlignField(field64) < 32
    }

    /** `bss_section(align, size)`: `align` must be a power of two. */
    constructor (align: nat, size: nat)
      requires IsPowerOfTwo(align) && align <= U32Max && size <= U32Max
      ensures Valid()
      ensures Align() == align && Size() == size && SizeBytes() == 8
      ensures field64 == Ctz(align) + 0x100 * size
    {
      var e := Ctz(align);
      CtzOfU32(align);
      SingleBitIsPowerOfCtz(align);
      field64 := 0;
      new;
      field64 := SetAlignField(field64, e);
      field64 := SetSizeField(field64, size);
      PackedFieldsRoundTrip(e, size);
    }

    /** `align()`: one shifted left by the stored exponent. */
    function Align(): (r: nat)
      reads this
      requires Valid()
      ensures IsPowerOfTwo(r) && Ctz(r) == AlignField(field64)
    {
      PowerOfTwoHasOneBit(AlignField(field64));
      Pow2(AlignField(field64))
    }

    /** `size()`: the number of bytes of BSS data. */
    function Size(): (r: nat)
      reads this
      requires Valid()
      ensures r <= U32Max
    {
      SizeField(field64)
    }

    /** `size_bytes()`: `sizeof (bss_section)`, the one packed word. */
    static function SizeBytes(): nat
    {
      8
    }
  }

  /** The alignment and size a packed word decodes to, read without the class. */
  lemma PackedFieldsRoundTrip(e: nat, s: nat)
    requires e < 0x100 && s <= U32Max
    ensures SetSizeField(SetAlignField(0, e), s) == e + 0x100 * s
    ensures AlignField(e + 0x100 * s) == e && SizeField(e + 0x100 * s) == s
    ensures e + 0x100 * s < Bits40
  {
    var w := SetSizeField(SetAlignField(0, e), s);
    assert w == e + 0x100 * s;
  }

  /** What the creator of a section receives: the alignment, the data and its fixups. */
  datatype SectionContent = SectionContent(align: nat, data: seq<nat>, ifixups: seq<nat>, xfixups: seq<nat>)

  datatype Error = BssSectionTooLarge

  datatype Result<T> = Success(value: T) | Failure(error: Error)

  /**
   * `bss_section_creation_dispatcher(sec)`: a BSS section carries no
   * fixups, and data longer than a 32-bit size is refused.
   */
  function CreateDispatcher(sec: SectionContent): (r: Result<SectionContent>)
    requires sec.ifixups == [] && sec.xfixups == []
    ensures r.Failure? <==> |sec.data| > U32Max
    ensures r.Success? ==> r.value == sec
  {
    if |sec.data| > U32Max then Failure(BssSectionTooLarge) else Success(sec)
  }

  /** `aligned_impl`: a BSS record starts on an 8-byte boundary. */
  const RecordAlign: nat := 8

  /**
   * `bss_section_creation_dispatcher::size_bytes`: `sizeof (bss_section)`,
   * whatever the data; a whole number of alignment units, so the record
   * that follows starts aligned too.
   */
  function CreationSizeBytes(sec: SectionContent): (r: nat)
    ensures r == BssSection.SizeBytes()
    ensures r % RecordAlign == 0
  {
    8
  }

  /**
   * `bss_section_creation_dispatcher::write`: constructs the section at
   * the aligned address `out` and returns the address just past it.
   */
  method Write(sec: SectionContent, out: nat) returns (scn: BssSection, next: nat)
    requires out % RecordAlign == 0
    requires IsPowerOfTwo(sec.align) && sec.align <= U32Max && |sec.data| <= U32Max
    ensures fresh(scn) && scn.Valid()
    ensures scn.Align() == sec.align && scn.Size() == |sec.data|
    ensures scn.field64 == Ctz(sec.align) + 0x100 * |sec.data|
    ensures next == out + CreationSizeBytes(sec)
  {
    scn := new BssSection(sec.align, |sec.data|);
    next := out + BssSection.SizeBytes();
  }
}
