/**
 * The dependents section of a fragment: the addresses of the compilation
 * members that refer to it, stored after a count. The declaration of the
 * record (dependents_section.hpp) is not part of this model; its layout is
 * taken to be an 8-byte count followed by 8-byte member addresses.
 */
module Dependents {
  /** `sizeof (dependents) - sizeof (dependents::compilation_members_)`. */
  const HeaderBytes: nat := 8
  /** `sizeof (dependents::compilation_members_[0])`. */
  const MemberBytes: nat := 8
  /** `aligned_impl`: the record starts on an 8-byte boundary. */
  const RecordAlign: nat := 8

  /** `dependents::size_bytes(size)`: an empty set of dependents occupies no storage at all. */
  function SizeBytes(n: nat): (r: nat)
    ensures n == 0 <==> r == 0
    ensures n > 0 ==> r >= HeaderBytes + MemberBytes
  {
    if n == 0 then 0 else HeaderBytes + MemberBytes * n
  }

  /** Each further member needs more storage. */
  lemma SizeBytesIncreases(m: nat, n: nat)
    requires 0 < m < n
    ensures SizeBytes(m) < SizeBytes(n)
    ensures SizeBytes(n) - SizeBytes(m) == MemberBytes * (n - m)
  {
  }

  /** The record built by `dependents(begin, end)`. */
  datatype Record = Record(members: seq<nat>)

  /** `dependents_creation_dispatcher::size_bytes`: the storage for the range given to it. */
  function CreationSizeBytes(members: seq<nat>): (r: nat)
    ensures r == 0 <==> members == []
    ensures members != [] ==> r >= HeaderBytes + MemberBytes
  {
    SizeBytes(|members|)
  }

  /**
   * `dependents_creation_dispatcher::write`: `out` must be aligned even
   * when the range is empty; an empty range builds nothing and leaves
   * `out` where it was.
   */
  method Write(members: seq<nat>, out: nat) returns (next: nat, built: seq<Record>)
    requires out % RecordAlign == 0
    ensures next == out + SizeBytes(|members|)
    ensures members == [] ==> next == out && built == []
    ensures members != [] ==> built == [Record(members)]
  {
    if members == [] {
      return out, [];
    }
    var rec := Record(members);
    next := out + SizeBytes(|rec.members|);
    built := [rec];
  }
}
