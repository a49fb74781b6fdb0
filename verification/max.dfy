/**
 * Compile-time maximum helpers of the support library.
 *
 * A C++ type list is modelled as a sequence of type descriptions, each
 * carrying the two numbers the templates inspect: its size and its
 * alignment in bytes.
 */
module MaxHelpers {

  /** What `sizeof` and `alignof` report for one type of a type list. */
  datatype TypeInfo = TypeInfo(size: nat, align: nat)

  /** `max<T, a, b>`: the larger of two constants; on a tie the first. */
  function Max(a: int, b: int): (r: int)
    ensures r >= a && r >= b
    ensures r == a || r == b
  {
    if a < b then b else a
  }

  /** `max_sizeof<Ts...>`: 1 for the empty list, else the larger of the head's size and the tail's maximum. */
  function MaxSizeof(types: seq<TypeInfo>): (r: nat)
    ensures r >= 1
    ensures forall i :: 0 <= i < |types| ==> types[i].size <= r
    ensures r == 1 || exists i :: 0 <= i < |types| && types[i].size == r
    decreases |types|
  {
    if types == [] then 1
    else
      var tail := MaxSizeof(types[1..]);
      assert forall i :: 1 <= i < |types| ==> types[i] == types[1..][i - 1];
      Max(types[0].size, tail)
  }

  /** `max_alignment<Ts...>`: 1 for the empty list, else the larger of the head's alignment and the tail's maximum. */
  function MaxAlignment(types: seq<TypeInfo>): (r: nat)
    ensures r >= 1
    ensures forall i :: 0 <= i < |types| ==> types[i].align <= r
    ensures r == 1 || exists i :: 0 <= i < |types| && types[i].align == r
    decreases |types|
  {
    if types == [] then 1
    else
      var tail := MaxAlignment(types[1..]);
      assert forall i :: 1 <= i < |types| ==> types[i] == types[1..][i - 1];
      Max(types[0].align, tail)
  }

  /** `characteristics<Ts...>`: the size of the largest type and the alignment of the most aligned one. */
  function Characteristics(types: seq<TypeInfo>): (r: TypeInfo)
    ensures r.size == MaxSizeof(types) && r.align == MaxAlignment(types)
    ensures forall i :: 0 <= i < |types| ==> types[i].size <= r.size && types[i].align <= r.align
  {
    TypeInfo(MaxSizeof(types), MaxAlignment(types))
  }

  /** The static assertions that close the header: max(1,2) = max(2,1) = 2. */
  lemma MaxIsSymmetricOnExamples()
    ensures Max(1, 2) == 2 && Max(2, 1) == 2
  {
  }

  /** The empty list yields 1 for both helpers. */
  lemma EmptyListMaxima()
    ensures MaxSizeof([]) == 1 && MaxAlignment([]) == 1
  {
  }

  /** A single type's size is returned unchanged when it is at least 1 (the first static assertion). */
  lemma SingletonMaxSizeof(t: TypeInfo)
    requires t.size >= 1
    ensures MaxSizeof([t]) == t.size
  {
    assert [t][1..] == [];
  }

  /** Adding a type to the front of the list never lowers either maximum. */
  lemma {:induction false} ConsIsMonotone(t: TypeInfo, types: seq<TypeInfo>)
    ensures MaxSizeof([t] + types) >= MaxSizeof(types)
    ensures MaxAlignment([t] + types) >= MaxAlignment(types)
  {
    assert ([t] + types)[1..] == types;
  }

  /** The maxima do not depend on the order of the list: reversing the first two types changes nothing. */
  lemma {:induction false} SwapFrontKeepsMaxima(a: TypeInfo, b: TypeInfo, rest: seq<TypeInfo>)
    ensures MaxSizeof([a, b] + rest) == MaxSizeof([b, a] + rest)
    ensures MaxAlignment([a, b] + rest) == MaxAlignment([b, a] + rest)
  {
    assert ([a, b] + rest)[1..] == [b] + rest;
    assert ([b, a] + rest)[1..] == [a] + rest;
    assert ([b] + rest)[1..] == rest;
    assert ([a] + rest)[1..] == rest;
  }
}
