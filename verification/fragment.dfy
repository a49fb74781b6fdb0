/**
 * The layout of a compiled fragment: a signature, a sparse array mapping
 * each section kind to the offset of its record, then the section records
 * one after another, each on its own alignment boundary.
 */
module Fragment {
  import opened Store
  import Bss
  import BitCount
  import Dependents

  /** `offsetof (fragment, arr_)`: the signature comes first. */
  const ArrOffset: nat := 8
  /** `sizeof (fragment)`. */
  const FragmentBytes: nat := 24
  /** `alignof (fragment)`. */
  const FragmentAlign: nat := 8

  /**
   * A section creation dispatcher. BSS and dependents sections are
   * modelled in full; any other kind is described only by its alignment
   * boundary and its size, since its record layout is not part of this model.
   */
  datatype Creator =
    | BssCreator(kind: nat, content: Bss.SectionContent)
    | DependentsCreator(kind: nat, members: seq<nat>)
    | OtherCreator(kind: nat, align: nat, size: nat)

  /** What the dispatchers demand of their input. */
  predicate Creatable(c: Creator)
  {
    match c
    case BssCreator(_, sec) =>
      sec.ifixups == [] && sec.xfixups == []
      && BitCount.IsPowerOfTwo(sec.align) && sec.align <= Bss.U32Max && |sec.data| <= Bss.U32Max
    case DependentsCreator(_, _) => true
    case OtherCreator(_, a, _) => a == 1 || a == 2 || a == 4 || a == 8
  }

  predicate AllCreatable(cs: seq<Creator>)
  {
    forall i :: 0 <= i < |cs| ==> Creatable(cs[i])
  }

  /** `c.aligned(p)` rounds up to this boundary: the alignment of the section's record. */
  function RecordAlign(c: Creator): (r: nat)
    requires Creatable(c)
    ensures r == 1 || r == 2 || r == 4 || r == 8
  {
    match c
    case BssCreator(_, _) => Bss.RecordAlign
    case DependentsCreator(_, _) => Dependents.RecordAlign
    case OtherCreator(_, a, _) => a
  }

  /** `c.size_bytes()`. */
  function CreatorSizeBytes(c: Creator): nat
  {
    match c
    case BssCreator(_, sec) => Bss.CreationSizeBytes(sec)
    case DependentsCreator(_, members) => Dependents.CreationSizeBytes(members)
    case OtherCreator(_, _, size) => size
  }

  /** `check_range_is_sorted`: no section kind is smaller than the one before it. */
  predicate SortedByKind(cs: seq<Creator>)
  {
    forall i, j :: 0 <= i < j < |cs| ==> cs[i].kind <= cs[j].kind
  }

  /**
   * The running size of `size_bytes(first, last)`: starting from `header`,
   * each section is padded to its boundary and then its size is added.
   */
  function Layout(header: nat, cs: seq<Creator>): (r: nat)
    requires AllCreatable(cs)
    ensures r >= header
    decreases |cs|
  {
    if cs == [] then header
    else
      var c := cs[|cs| - 1];
      AlignUp(Layout(header, cs[..|cs| - 1]), RecordAlign(c)) + CreatorSizeBytes(c)
  }

  /** The header: the signature and a sparse array of `arrBytes` bytes. */
  function Header(arrBytes: nat): nat
  {
    ArrOffset + arrBytes
  }

  /** Where section `i` starts, relative to the fragment. */
  function SectionStart(header: nat, cs: seq<Creator>, i: nat): nat
    requires AllCreatable(cs) && i < |cs|
  {
    AlignUp(Layout(header, cs[..i]), RecordAlign(cs[i]))
  }

  /** Adding a section can only make the fragment larger. */
  lemma LayoutAppend(header: nat, cs: seq<Creator>, c: Creator)
    requires AllCreatable(cs) && Creatable(c)
    ensures AllCreatable(cs + [c])
    ensures Layout(header, cs + [c]) == AlignUp(Layout(header, cs), RecordAlign(c)) + CreatorSizeBytes(c)
    ensures Layout(header, cs + [c]) >= Layout(header, cs)
  {
    assert (cs + [c])[..|cs|] == cs;
  }

  /** The running size never decreases along the sequence of sections. */
  lemma {:induction false} LayoutGrows(header: nat, cs: seq<Creator>, i: nat, j: nat)
    requires AllCreatable(cs) && i <= j <= |cs|
    ensures Layout(header, cs[..i]) <= Layout(header, cs[..j])
    decreases j
  {
    if i < j {
      LayoutGrows(header, cs, i, j - 1);
      assert cs[..j][..j - 1] == cs[..j - 1];
    }
  }

  /** Section `i` ends within the prefix that holds it. */
  lemma SectionEnd(header: nat, cs: seq<Creator>, i: nat)
    requires AllCreatable(cs) && i < |cs|
    ensures SectionStart(header, cs, i) + CreatorSizeBytes(cs[i]) == Layout(header, cs[..i + 1])
  {
    assert cs[..i + 1][..i] == cs[..i];
  }

  /**
   * Sections lie inside the fragment in order and do not overlap: section
   * `i` starts after the header and ends before section `j` starts.
   */
  lemma SectionsInOrder(header: nat, cs: seq<Creator>, i: nat, j: nat)
    requires AllCreatable(cs) && i < j < |cs|
    ensures header <= SectionStart(header, cs, i)
    ensures SectionStart(header, cs, i) + CreatorSizeBytes(cs[i]) <= SectionStart(header, cs, j)
    ensures SectionStart(header, cs, j) + CreatorSizeBytes(cs[j]) <= Layout(header, cs)
  {
    SectionEnd(header, cs, i);
    SectionEnd(header, cs, j);
    LayoutGrows(header, cs, i + 1, j);
    LayoutGrows(header, cs, j + 1, |cs|);
    assert cs[..|cs|] == cs;
  }

  /**
   * `fragment::size_bytes(first, last)`: the header, then each section
   * padded to its boundary and added in turn.
   */
  method SizeBytes(cs: seq<Creator>, arrBytes: nat) returns (size: nat)
    requires SortedByKind(cs) && AllCreatable(cs)
    ensures size == Layout(Header(arrBytes), cs)
  {
    size := ArrOffset + arrBytes;
    for i := 0 to |cs|
      invariant size == Layout(Header(arrBytes), cs[..i])
    {
      assert cs[..i + 1][..i] == cs[..i];
      size := AlignUp(size, RecordAlign(cs[i]));
      size := size + CreatorSizeBytes(cs[i]);
    }
    assert cs[..|cs|] == cs;
  }

  /** Aligning an address inside a fragment that starts on an 8-byte boundary aligns its offset. */
  lemma AlignWithinFragment(base: nat, x: nat, a: nat)
    requires base % FragmentAlign == 0 && (a == 1 || a == 2 || a == 4 || a == 8)
    ensures AlignUp(base + x, a) == base + AlignUp(x, a)
  {
    var r, s := base + AlignUp(x, a), AlignUp(base + x, a);
    if a == 1 {
      AlignedBy(base, x, r, s, 1);
    } else if a == 2 {
      AlignedBy(base, x, r, s, 2);
    } else if a == 4 {
      AlignedBy(base, x, r, s, 4);
    } else {
      AlignedBy(base, x, r, s, 8);
    }
  }

  lemma AlignedBy(base: nat, x: nat, r: nat, s: nat, a: nat)
    requires a == 1 || a == 2 || a == 4 || a == 8
    requires base % 8 == 0 && r == base + AlignUp(x, a) && s == AlignUp(base + x, a)
    ensures r == s
  {
    var ax := AlignUp(x, a);
    assert x <= ax < x + a && ax % a == 0;
    assert base + x <= s < base + x + a && s % a == 0;
    MultiplesCoincide(r, s, base + x, base, a);
  }

  /** Two multiples of `a` less than `a` apart are the same. */
  lemma MultiplesCoincide(r: nat, s: nat, n: nat, base: nat, a: nat)
    requires a == 1 || a == 2 || a == 4 || a == 8
    requires base % 8 == 0 && r >= base && (r - base) % a == 0 && s % a == 0
    requires n <= r < n + a && n <= s < n + a
    ensures r == s
  {
    if a == 2 {
      assert r - base == 2 * ((r - base) / 2) && base == 2 * (4 * (base / 8)) && s == 2 * (s / 2);
      assert (r - base) / 2 + 4 * (base / 8) == s / 2;
    } else if a == 4 {
      assert r - base == 4 * ((r - base) / 4) && base == 4 * (2 * (base / 8)) && s == 4 * (s / 4);
      assert (r - base) / 4 + 2 * (base / 8) == s / 4;
    } else if a == 8 {
      assert r - base == 8 * ((r - base) / 8) && base == 8 * (base / 8) && s == 8 * (s / 8);
      assert (r - base) / 8 + base / 8 == s / 8;
    }
  }

  /** What `populate` needs at section `i`: every earlier section ends before it starts. */
  lemma PlacedAfterEarlier(header: nat, cs: seq<Creator>, i: nat)
    requires AllCreatable(cs) && i < |cs|
    ensures SectionStart(header, cs, i) + CreatorSizeBytes(cs[i]) == Layout(header, cs[..i + 1])
    ensures forall j :: 0 <= j < i ==>
      SectionStart(header, cs, j) + CreatorSizeBytes(cs[j]) <= SectionStart(header, cs, i)
  {
    SectionEnd(header, cs, i);
    forall j | 0 <= j < i
      ensures SectionStart(header, cs, j) + CreatorSizeBytes(cs[j]) <= SectionStart(header, cs, i)
    {
      SectionsInOrder(header, cs, j, i);
    }
  }

  /** One step of `populate`: aligning the absolute address lands on the section's start. */
  lemma PlaceSection(base: nat, header: nat, cs: seq<Creator>, i: nat, out: nat)
    requires AllCreatable(cs) && i < |cs|
    requires base % FragmentAlign == 0 && out == base + Layout(header, cs[..i])
    ensures AlignUp(out, RecordAlign(cs[i])) == base + SectionStart(header, cs, i)
    ensures AlignUp(out, RecordAlign(cs[i])) + CreatorSizeBytes(cs[i]) == base + Layout(header, cs[..i + 1])
  {
    AlignWithinFragment(base, Layout(header, cs[..i]), RecordAlign(cs[i]));
    SectionEnd(header, cs, i);
  }

  /** A record built in a fragment. */
  datatype SectionObject =
    | BssObject(field64: nat)
    | DependentsObject(record: Dependents.Record)
    | OtherObject(kind: nat, size: nat)

  /** The record a creator builds, when it builds one: what its `write` constructs. */
  function Built(c: Creator): (r: seq<SectionObject>)
    requires Creatable(c)
    ensures |r| <= 1
    ensures r != [] <==> CreatorSizeBytes(c) > 0
  {
    match c
    case BssCreator(_, sec) => [BssObject(BitCount.Ctz(sec.align) + 0x100 * |sec.data|)]
    case DependentsCreator(_, members) => if members == [] then [] else [DependentsObject(Dependents.Record(members))]
    case OtherCreator(kind, _, size) => if size == 0 then [] else [OtherObject(kind, size)]
  }

  /** `c.write(out)`: builds the section's record at the aligned `out` and returns the end of it. */
  method WriteSection(c: Creator, out: nat) returns (next: nat, built: seq<SectionObject>)
    requires Creatable(c) && out % RecordAlign(c) == 0
    ensures next == out + CreatorSizeBytes(c)
    ensures built == Built(c)
    ensures built == [] <==> CreatorSizeBytes(c) == 0
  {
    match c {
      case BssCreator(_, sec) =>
        var scn;
        scn, next := Bss.Write(sec, out);
        built := [BssObject(scn.field64)];
      case DependentsCreator(_, members) =>
        var recs;
        next, recs := Dependents.Write(members, out);
        built := if recs == [] then [] else [DependentsObject(recs[0])];
      case OtherCreator(kind, _, size) =>
        next := out + size;
        built := if size == 0 then [] else [OtherObject(kind, size)];
    }
  }

  function KindsOf(cs: seq<Creator>): set<nat>
  {
    set i | 0 <= i < |cs| :: cs[i].kind
  }

  /** No later section has the same kind: its offset is the one left in the array. */
  predicate LastOfKind(cs: seq<Creator>, i: nat, n: nat)
    requires i < n <= |cs|
  {
    forall j :: i < j < n ==> cs[j].kind != cs[i].kind
  }

  /** A fragment as built in memory: the sparse array of offsets and the records built after it. */
  class Fragment {
    /** `arr_`: for each section kind present, the offset of its record from the fragment start. */
    var offsets: map<nat, nat>
    /** The records built in the fragment, by offset from its start. */
    var sections: map<nat, SectionObject>

    constructor ()
      ensures offsets == map[] && sections == map[]
    {
      offsets := map[];
      sections := map[];
    }

    /** `has_section(kind)`: the sparse array has an entry for `kind`. */
    predicate HasSection(kind: nat)
      reads this
    {
      kind in offsets
    }

    /** `atp<kind>()`: the section's offset, or nothing when the fragment has no such section. */
    function Atp(kind: nat): (r: Option<nat>)
      reads this
      ensures r.None? <==> !HasSection(kind)
      ensures r.Some? ==> r.value == At(kind)
    {
      if HasSection(kind) then Some(At(kind)) else None
    }

    /** `at<kind>()`: only for a section the fragment has. */
    function At(kind: nat): nat
      reads this
      requires HasSection(kind)
    {
      offsets[kind]
    }

    /**
     * `populate`: the sparse array gets one entry per section kind, and each
     * section is placed at the next address aligned for its record, its
     * offset recorded and its record built there. The fragment occupies
     * exactly `size_bytes(first, last)` bytes from `base`.
     */
    method Populate(base: nat, cs: seq<Creator>, arrBytes: nat) returns (out: nat)
      requires base % FragmentAlign == 0 && AllCreatable(cs)
      modifies this
      ensures out == base + Layout(Header(arrBytes), cs)
      ensures offsets.Keys == KindsOf(cs)
      ensures OffsetsPlaced(offsets, Header(arrBytes), cs, |cs|)
      ensures SectionsBuilt(sections, Header(arrBytes), cs, |cs|)
    {
      var h := Header(arrBytes);
      offsets := map k | k in KindsOf(cs) :: 0;
      sections := map[];
      out := base + h;
      for i := 0 to |cs|
        invariant out == base + Layout(h, cs[..i])
        invariant offsets.Keys == KindsOf(cs)
        invariant OffsetsPlaced(offsets, h, cs, i)
        invariant SectionsBuilt(sections, h, cs, i)
      {
        var c := cs[i];
        PlaceSection(base, h, cs, i, out);
        var at := AlignUp(out, RecordAlign(c));
        var start := at - base;
        var placed := offsets[c.kind := start];
        var next, built := WriteSection(c, at);
        var made := if built == [] then sections else sections[start := built[0]];
        OffsetsStep(offsets, h, cs, i, start, placed);
        SectionsStep(sections, h, cs, i, start, built, made);
        assert placed.Keys == KindsOf(cs) by {
          assert c.kind in KindsOf(cs);
          KeysKept(offsets, c.kind, start);
        }
        offsets, sections, out := placed, made, next;
      }
      assert cs[..|cs|] == cs;
    }
  }

  /** Each section kind maps to where the last section of that kind was placed. */
  ghost predicate OffsetsPlaced(offsets: map<nat, nat>, header: nat, cs: seq<Creator>, n: nat)
    requires AllCreatable(cs) && n <= |cs|
  {
    forall j :: 0 <= j < n && LastOfKind(cs, j, n) ==>
      cs[j].kind in offsets && offsets[cs[j].kind] == SectionStart(header, cs, j)
  }

  /** The record of every section that builds one sits at that section's start. */
  ghost predicate SectionsBuilt(sections: map<nat, SectionObject>, header: nat, cs: seq<Creator>, n: nat)
    requires AllCreatable(cs) && n <= |cs|
  {
    forall j :: 0 <= j < n && Built(cs[j]) != [] ==>
      SectionStart(header, cs, j) in sections && sections[SectionStart(header, cs, j)] == Built(cs[j])[0]
  }

  lemma KeysKept(m: map<nat, nat>, k: nat, v: nat)
    requires k in m
    ensures m[k := v].Keys == m.Keys
  {
  }

  lemma OffsetsStep(offsets: map<nat, nat>, header: nat, cs: seq<Creator>, i: nat, start: nat, next: map<nat, nat>)
    requires AllCreatable(cs) && i < |cs| && OffsetsPlaced(offsets, header, cs, i)
    requires start == SectionStart(header, cs, i) && next == offsets[cs[i].kind := start]
    ensures OffsetsPlaced(next, header, cs, i + 1)
  {
  }

  lemma SectionsStep(sections: map<nat, SectionObject>, header: nat, cs: seq<Creator>, i: nat,
                     start: nat, built: seq<SectionObject>, next: map<nat, SectionObject>)
    requires AllCreatable(cs) && i < |cs| && SectionsBuilt(sections, header, cs, i)
    requires start == SectionStart(header, cs, i) && built == Built(cs[i])
    requires next == if built == [] then sections else sections[start := built[0]]
    ensures SectionsBuilt(next, header, cs, i + 1)
  {
    PlacedAfterEarlier(header, cs, i);
  }

  datatype Option<T> = None | Some(value: T)

  /** `extent<fragment>`: where a fragment was stored and how many bytes it occupies. */
  datatype Extent = Extent(addr: nat, size: nat)

  /**
   * `fragment::alloc`: checks the sections are sorted by kind, allocates
   * exactly `size_bytes(first, last)` bytes on an 8-byte boundary and
   * populates the fragment there.
   */
  method Alloc(t: Transaction<Fragment>, cs: seq<Creator>, arrBytes: nat) returns (ext: Extent, frag: Fragment)
    requires t.Valid() && SortedByKind(cs) && AllCreatable(cs)
    modifies t
    ensures t.Valid() && fresh(frag)
    ensures ext.size == Layout(Header(arrBytes), cs)
    ensures ext.addr == AlignUp(old(t.next), FragmentAlign) && t.next == ext.addr + ext.size
    ensures t.records == old(t.records)[ext.addr := frag]
    ensures frag.offsets.Keys == KindsOf(cs)
    ensures OffsetsPlaced(frag.offsets, Header(arrBytes), cs, |cs|)
    ensures SectionsBuilt(frag.sections, Header(arrBytes), cs, |cs|)
  {
    var size := SizeBytes(cs, arrBytes);
    frag := new Fragment();
    var addr := t.AllocRw(size, FragmentAlign, frag);
    var out := frag.Populate(addr, cs, arrBytes);
    ext := Extent(addr, size);
  }

  datatype Error = BadFragmentRecord

  datatype Result<T> = Success(value: T) | Failure(error: Error)

  /**
   * `fragment::load_impl`: an extent too small for the fragment header is
   * refused before anything is read; a fragment that does not appear valid
   * is refused after. The read and the validity test are parameters.
   */
  function LoadImpl<F>(fext: Extent, get: Extent -> F, appearsValid: (F, Extent) -> bool): (r: Result<F>)
    ensures r.Failure? <==> fext.size < FragmentBytes || !appearsValid(get(fext), fext)
    ensures r.Success? ==> r.value == get(fext)
  {
    if fext.size < FragmentBytes then Failure(BadFragmentRecord)
    else
      var f := get(fext);
      if !appearsValid(f, fext) then Failure(BadFragmentRecord) else Success(f)
  }
}
