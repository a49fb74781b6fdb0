/**
 * The nodes of the persistent hash array mapped trie: the tagged index
 * pointer, the linear node that holds colliding keys, and the
 * bitmap-compressed internal node, with their copy, lookup, insertion,
 * load-time validation and depth-first flush to the store.
 *
 * Heap nodes are Dafny objects. The store is reached only through a map
 * from address to the image written there (`getro`) and an append-only
 * `Transaction` (`alloc_rw`).
 */
module HamtNodes {
  import opened HamtTypes
  import opened Store
  import BitCount

  const InternalSignature: string := "Internal"
  const LinearSignature: string := "IndxLner"

  /**
   * A node as it lies in the store: its signature, its second word (the
   * bitmap of an internal node, the size of a linear node) and the words
   * that follow it.
   */
  datatype NodeImage = NodeImage(signature: string, field: nat, words: seq<nat>)

  datatype Error = IndexCorrupt
  datatype Result<T> = Success(value: T) | Failure(error: Error)

  function Min(a: nat, b: nat): nat
  {
    if a <= b then a else b
  }

  /**
   * `index_pointer`: a word read from the store, or a node on the heap.
   * A heap pointer is tagged with both low bits, so it is always heap and
   * internal; a store word carries its own bits.
   */
  datatype IndexPointer =
    | Addr(word: nat)
    | HeapInternal(inode: InternalNode)
    | HeapLinear(lnode: LinearNode)

  /** The default `index_pointer`: a null word. */
  const Empty: IndexPointer := Addr(0)

  predicate IsInternal(p: IndexPointer)
  {
    match p
    case Addr(w) => IsInternalWord(w)
    case _ => true
  }

  /** `is_linear` is the same bit test as `is_internal`. */
  predicate IsLinear(p: IndexPointer)
  {
    IsInternal(p)
  }

  predicate IsLeaf(p: IndexPointer)
  {
    !IsInternal(p)
  }

  predicate IsHeap(p: IndexPointer)
  {
    match p
    case Addr(w) => IsHeapWord(w)
    case _ => true
  }

  predicate IsAddress(p: IndexPointer)
  {
    !IsHeap(p)
  }

  predicate IsEmpty(p: IndexPointer)
  {
    p == Empty
  }

  /**
   * The kind and heap predicates are bit tests of one word: a leaf is
   * never a heap node, an empty pointer is a leaf address, and a store
   * word with bit 0 set is internal and linear alike.
   */
  lemma PointerKinds(p: IndexPointer)
    ensures IsLinear(p) <==> IsInternal(p)
    ensures IsLeaf(p) <==> !IsInternal(p)
    ensures IsAddress(p) <==> !IsHeap(p)
    ensures IsEmpty(p) ==> IsLeaf(p) && IsAddress(p)
    ensures IsHeap(p) && !p.Addr? ==> IsInternal(p)
  {
  }

  /** `parent_type`: a node on the path from the root and the slot taken in it. */
  datatype ParentType = ParentType(node: IndexPointer, position: nat)

  /** `parent_stack`: an `array_stack` with room for `max_tree_depth` entries. */
  class ParentStack {
    var entries: seq<ParentType>

    constructor ()
      ensures entries == []
    {
      entries := [];
    }

    method Push(p: ParentType)
      requires |entries| < MaxTreeDepth
      modifies this
      ensures entries == old(entries) + [p]
    {
      entries := entries + [p];
    }
  }

  // Linear nodes

  /** The leaves of a stored linear node, as far as the record holds them. */
  function LinearLeaves(img: NodeImage): seq<nat>
  {
    img.words[..Min(img.field, |img.words|)]
  }

  /** `linear_node`: the bucket for keys whose hashes agree on every bit. */
  class LinearNode {
    const leaves: array<nat>

    function Size(): nat
    {
      leaves.Length
    }

    /** `linear_node(size)`: `size` null leaves. */
    constructor (size: nat)
      ensures fresh(leaves) && leaves.Length == size
      ensures forall i :: 0 <= i < size ==> leaves[i] == 0
    {
      leaves := new nat[size](_ => 0);
    }

    /**
     * `allocate(num_children, from_node)`: the first
     * `min(num_children, from_node.size())` leaves are copied and the rest
     * are null.
     */
    static method Allocate(numChildren: nat, from: seq<nat>) returns (n: LinearNode)
      ensures fresh(n) && fresh(n.leaves) && n.Size() == numChildren
      ensures forall i :: 0 <= i < numChildren ==> n.leaves[i] == if i < |from| then from[i] else 0
    {
      n := new LinearNode(numChildren);
      var count := Min(numChildren, |from|);
      for i := 0 to count
        invariant forall j :: 0 <= j < i ==> n.leaves[j] == from[j]
        invariant forall j :: count <= j < numChildren ==> n.leaves[j] == 0
      {
        n.leaves[i] := from[i];
      }
    }

    /** `allocate(a, b)`: a node holding exactly the two leaves. */
    static method AllocatePair(a: nat, b: nat) returns (n: LinearNode)
      ensures fresh(n) && fresh(n.leaves) && n.leaves[..] == [a, b]
    {
      n := new LinearNode(2);
      n.leaves[0] := a;
      n.leaves[1] := b;
    }

    /** `allocate_from(orig_node, extra_children)`: a copy with `extra` null leaves added. */
    static method AllocateFrom(orig: seq<nat>, extra: nat) returns (n: LinearNode)
      ensures fresh(n) && fresh(n.leaves) && n.Size() == |orig| + extra
      ensures n.leaves[..|orig|] == orig
      ensures forall i :: |orig| <= i < n.Size() ==> n.leaves[i] == 0
    {
      n := Allocate(|orig| + extra, orig);
    }

    /**
     * `allocate_from(db, node, extra_children)`: the same, starting from
     * the node that `get_node` finds.
     */
    static method AllocateFromDb(db: map<nat, NodeImage>, node: IndexPointer, extra: nat)
      returns (r: Result<LinearNode>)
      requires node.HeapLinear? || (node.Addr? && UntagAddress(node.word) in db)
      ensures r.Failure? <==> GetNode(db, node).Failure?
      ensures r.Success? ==> fresh(r.value) && fresh(r.value.leaves)
      ensures r.Success? ==> r.value.leaves[..] == GetNode(db, node).value + seq(extra, _ => 0)
    {
      var found := GetNode(db, node);
      if found.Failure? {
        return Failure(found.error);
      }
      var n := AllocateFrom(found.value, extra);
      assert n.leaves[..] == found.value + seq(extra, _ => 0);
      return Success(n);
    }

    /**
     * `get_node`: the leaves of a heap node, or of the node stored at the
     * word with bit 0 cleared, whose signature must be `IndxLner`.
     */
    static function GetNode(db: map<nat, NodeImage>, node: IndexPointer): (r: Result<seq<nat>>)
      reads if node.HeapLinear? then {node.lnode.leaves} else {}
      requires node.HeapLinear? || (node.Addr? && UntagAddress(node.word) in db)
      ensures node.HeapLinear? ==> r == Success(node.lnode.leaves[..])
      ensures node.Addr? ==> var img := db[UntagAddress(node.word)];
        (r.Failure? <==> img.signature != LinearSignature)
        && (r.Failure? ==> r.error == IndexCorrupt)
        && (r.Success? ==> r.value == LinearLeaves(img) && |r.value| <= img.field)
    {
      if node.HeapLinear? then
        Success(node.lnode.leaves[..])
      else
        var img := db[UntagAddress(node.word)];
        if img.signature != LinearSignature then Failure(IndexCorrupt) else Success(LinearLeaves(img))
    }

    /**
     * `lookup`: the first leaf whose key equals `key`, with its position;
     * `(empty, not_found)` when there is none. `keyAt` reads the key stored
     * at a leaf address.
     */
    method Lookup<K>(key: K, keyAt: nat -> K, equal: (K, K) -> bool) returns (p: IndexPointer, pos: nat)
      ensures (forall i :: 0 <= i < Size() ==> !equal(keyAt(leaves[i]), key)) ==> p == Empty && pos == NotFound
      ensures (exists i :: 0 <= i < Size() && equal(keyAt(leaves[i]), key)) ==>
        && pos < Size() && p == Addr(leaves[pos]) && equal(keyAt(leaves[pos]), key)
        && forall i :: 0 <= i < pos ==> !equal(keyAt(leaves[i]), key)
    {
      var cnum := 0;
      while cnum < leaves.Length
        invariant cnum <= leaves.Length
        invariant forall i :: 0 <= i < cnum ==> !equal(keyAt(leaves[i]), key)
      {
        if equal(keyAt(leaves[cnum]), key) {
          return Addr(leaves[cnum]), cnum;
        }
        cnum := cnum + 1;
      }
      return Empty, NotFound;
    }

    /** The image `flush` constructs in the store: a copy of this node. */
    function Image(): (img: NodeImage)
      reads leaves
      ensures LinearLeaves(img) == leaves[..] && img.signature == LinearSignature
    {
      NodeImage(LinearSignature, Size(), leaves[..])
    }

    /** `flush`: `size_bytes()` bytes at the next 8-aligned address hold a copy of the node. */
    method Flush(t: Transaction<NodeImage>) returns (addr: nat)
      requires t.Valid()
      modifies t
      ensures t.Valid() && addr == AlignUp(old(t.next), 8) && t.next == addr + LinearSizeBytes(Size())
      ensures t.records == old(t.records)[addr := Image()]
    {
      addr := t.AllocRw(LinearSizeBytes(Size()), 8, Image());
    }
  }

  /** A store node's leaves read back through `get_node` are the leaves that `flush` wrote. */
  lemma LinearFlushRoundTrip(db: map<nat, NodeImage>, addr: nat, leaves: seq<nat>)
    requires addr % 2 == 0 && addr in db && db[addr] == NodeImage(LinearSignature, |leaves|, leaves)
    ensures LinearNode.GetNode(db, Addr(OrInternalBit(addr))) == Success(leaves)
  {
    assert UntagAddress(OrInternalBit(addr)) == addr;
    assert leaves[..|leaves|] == leaves;
  }

  // Internal nodes

  /** The children an internal node's bitmap gives to a stored image, as far as the record holds them. */
  function StoredChildren(img: NodeImage): seq<nat>
  {
    img.words[..Min(PopCount(img.field), |img.words|)]
  }

  /**
   * What `validate_after_load` accepts for a node loaded from `addr`: the
   * `Internal` signature, and children that are all store words below
   * `addr` once bit 0 is cleared, no two of them equal.
   */
  predicate ValidImage(img: NodeImage, addr: nat)
  {
    var cs := StoredChildren(img);
    && img.signature == InternalSignature
    && (forall i :: 0 <= i < |cs| ==> !IsHeapWord(cs[i]) && UntagAddress(cs[i]) < addr)
    && (forall i, j :: 0 <= i < j < |cs| ==> cs[i] != cs[j])
  }

  /**
   * `internal_node::lookup(hash_index)`: the child for a chunk and its slot,
   * counting the set bits below it; `(empty, not_found)` when the bit is
   * clear.
   */
  function LookupIn(b: nat, cs: seq<IndexPointer>, h: nat): (r: (IndexPointer, nat))
    requires h < HashSize && |cs| == HashSize
    ensures r.1 != NotFound <==> HasBit(b, h)
    ensures HasBit(b, h) ==> r.1 == Rank(b, h) && r.1 < PopCount(b) && r.0 == cs[r.1]
    ensures !HasBit(b, h) ==> r.0 == Empty
  {
    if HasBit(b, h) then
      var index := PopCount(LowBits(b, h));
      LowBitsCountIsRank(b, h);
      SetBitHasSlot(b, h);
      (cs[index], index)
    else
      (Empty, NotFound)
  }

  /** The children after `insert_child` puts `leaf` at `index` of a node with `oldSize` children. */
  function Inserted(cs: seq<IndexPointer>, index: nat, oldSize: nat, leaf: IndexPointer): (r: seq<IndexPointer>)
    requires index <= oldSize < |cs|
    ensures |r| == |cs|
  {
    cs[..index] + [leaf] + cs[index..oldSize] + cs[oldSize + 1..]
  }

  lemma InsertedAt(cs: seq<IndexPointer>, index: nat, oldSize: nat, leaf: IndexPointer, j: nat)
    requires index <= oldSize < |cs| && j < |cs|
    ensures j < index ==> Inserted(cs, index, oldSize, leaf)[j] == cs[j]
    ensures j == index ==> Inserted(cs, index, oldSize, leaf)[j] == leaf
    ensures index < j <= oldSize ==> Inserted(cs, index, oldSize, leaf)[j] == cs[j - 1]
    ensures oldSize < j ==> Inserted(cs, index, oldSize, leaf)[j] == cs[j]
  {
  }

  /**
   * After `insert_child` the new chunk finds the new leaf at its rank, and
   * every other chunk finds the child it found before, one slot further
   * along when it lies above the new chunk.
   */
  lemma InsertKeepsLookups(b: nat, cs: seq<IndexPointer>, h: nat, leaf: IndexPointer, k: nat)
    requires |cs| == HashSize && h < HashSize && k < HashSize && !HasBit(b, h)
    requires PopCount(b) < HashSize
    ensures Rank(b, h) <= PopCount(b)
    ensures var cs' := Inserted(cs, Rank(b, h), PopCount(b), leaf);
      && LookupIn(SetBit(b, h), cs', h) == (leaf, Rank(b, h))
      && (k != h ==> LookupIn(SetBit(b, h), cs', k).0 == LookupIn(b, cs, k).0)
      && (k != h && HasBit(b, k) ==>
            LookupIn(SetBit(b, h), cs', k).1 == LookupIn(b, cs, k).1 + (if h < k then 1 else 0))
  {
    ClearBitLeavesRoom(b, h);
    RankGrows(b, h, HashSize);
    var b', index, size := SetBit(b, h), Rank(b, h), PopCount(b);
    SetBitBits(b, h, h);
    SetBitBits(b, h, k);
    RankAfterSet(b, h, h);
    RankAfterSet(b, h, k);
    InsertedAt(cs, index, size, leaf, index);
    if k != h && HasBit(b, k) {
      SetBitHasSlot(b, k);
      var rk := Rank(b, k);
      if h < k {
        RankGrows(b, h, k);
        InsertedAt(cs, index, size, leaf, rk + 1);
      } else {
        SlotsFollowBits(b, k, h);
        InsertedAt(cs, index, size, leaf, rk);
      }
    }
  }

  /**
   * The two-child constructor's bitmap: both chunks are set, nothing else,
   * and the slots follow ascending chunk order, so the new leaf's slot is
   * `get_new_index(new, existing)` and the existing leaf has the other.
   */
  lemma PairSlots(e: nat, n: nat)
    requires e < HashSize && n < HashSize && e != n
    ensures var b := SetBit(Bit(e), n);
      && HasBit(b, e) && HasBit(b, n) && PopCount(b) == 2
      && (forall k :: HasBit(b, k) ==> k == e || k == n)
      && Rank(b, n) == GetNewIndex(n, e) && Rank(b, e) == 1 - GetNewIndex(n, e)
  {
    var b := SetBit(Bit(e), n);
    NoBitsOfZero(n);
    NoBitsOfZero(e);
    SetBitBits(0, e, n);
    SetBitBits(0, e, e);
    SetBitBits(Bit(e), n, e);
    SetBitBits(Bit(e), n, n);
    forall k | HasBit(b, k)
      ensures k == e || k == n
    {
      SetBitBits(Bit(e), n, k);
      SetBitBits(0, e, k);
      NoBitsOfZero(k);
    }
    RankOfZero(n);
    RankOfZero(e);
    RankOfZero(HashSize);
    RankAfterSet(0, e, n);
    RankAfterSet(0, e, e);
    RankAfterSet(0, e, HashSize);
    RankAfterSet(Bit(e), n, n);
    RankAfterSet(Bit(e), n, e);
    RankAfterSet(Bit(e), n, HashSize);
  }

  /** The one-child constructor's bitmap has the chunk's bit and no other. */
  lemma SingleSlot(h: nat)
    requires h < HashSize
    ensures HasBit(Bit(h), h) && PopCount(Bit(h)) == 1 && Rank(Bit(h), h) == 0
    ensures forall k :: HasBit(Bit(h), k) ==> k == h
  {
    NoBitsOfZero(h);
    SetBitBits(0, h, h);
    forall k | HasBit(Bit(h), k)
      ensures k == h
    {
      SetBitBits(0, h, k);
      NoBitsOfZero(k);
    }
    RankOfZero(h);
    RankOfZero(HashSize);
    RankAfterSet(0, h, h);
    RankAfterSet(0, h, HashSize);
  }

  /** The store words of a run of children that are all store-resident. */
  function Words(ps: seq<IndexPointer>): (r: seq<nat>)
    requires forall i :: 0 <= i < |ps| ==> ps[i].Addr?
    ensures |r| == |ps| && forall i :: 0 <= i < |r| ==> r[i] == ps[i].word
  {
    seq(|ps|, i requires 0 <= i < |ps| => ps[i].word)
  }

  /** `internal_node`: a bitmap and, in a heap node, room for 64 children. */
  class InternalNode {
    var bitmap: nat
    const children: array<IndexPointer>
    ghost var Repr: set<object>

    /** `size()`: the number of children, the population count of the bitmap. */
    function Size(): (r: nat)
      reads this
      requires bitmap != 0
      ensures r <= HashSize
    {
      PopCount(bitmap)
    }

    /** `internal_node()`: no children. */
    constructor ()
      ensures bitmap == 0 && fresh(children) && children.Length == HashSize
      ensures Repr == {this, children}
    {
      bitmap := 0;
      children := new IndexPointer[HashSize](_ => Empty);
      Repr := {this, children};
    }

    /** `internal_node(leaf, hash)`: the single child `leaf` in the slot of chunk `hash`. */
    constructor Single(leaf: IndexPointer, hash: nat)
      requires hash < HashSize
      ensures bitmap == Bit(hash) && fresh(children) && children.Length == HashSize
      ensures children[0] == leaf && Repr == {this, children}
      ensures Lookup(hash) == (leaf, 0)
    {
      bitmap := Bit(hash);
      var cs := new IndexPointer[HashSize](_ => Empty);
      cs[0] := leaf;
      children := cs;
      Repr := {this, cs};
      new;
      SingleSlot(hash);
    }

    /**
     * `internal_node(existing_leaf, new_leaf, existing_hash, new_hash)`:
     * both chunks' bits are set, the new leaf goes to slot
     * `get_new_index(new_hash, existing_hash)` and the existing leaf to
     * the other one.
     */
    constructor Pair(existingLeaf: IndexPointer, newLeaf: IndexPointer, existingHash: nat, newHash: nat)
      requires existingHash < HashSize && newHash < HashSize && existingHash != newHash
      ensures bitmap == SetBit(Bit(existingHash), newHash) && fresh(children) && children.Length == HashSize
      ensures children[GetNewIndex(newHash, existingHash)] == newLeaf
      ensures children[1 - GetNewIndex(newHash, existingHash)] == existingLeaf
      ensures Repr == {this, children}
      ensures Lookup(newHash).0 == newLeaf && Lookup(existingHash).0 == existingLeaf
    {
      bitmap := SetBit(Bit(existingHash), newHash);
      var indexA := GetNewIndex(newHash, existingHash);
      var indexB := if indexA == 0 then 1 else 0;
      var cs := new IndexPointer[HashSize](_ => Empty);
      cs[indexA] := newLeaf;
      cs[indexB] := existingLeaf;
      children := cs;
      Repr := {this, cs};
      new;
      PairSlots(existingHash, newHash);
    }

    /**
     * The copy constructor: the bitmap and the first `size()` children of
     * the node whose bitmap is `b` and whose children are `kids`.
     */
    constructor Copy(b: nat, kids: seq<IndexPointer>)
      requires b != 0 && PopCount(b) <= |kids|
      ensures bitmap == b && fresh(children) && children.Length == HashSize
      ensures children[..PopCount(b)] == kids[..PopCount(b)]
      ensures Repr == {this, children}
    {
      var size := PopCount(b);
      assert size <= HashSize;
      var cs := new IndexPointer[HashSize](_ => Empty);
      for i := 0 to size
        invariant forall j :: 0 <= j < i ==> cs[j] == kids[j]
      {
        cs[i] := kids[i];
      }
      bitmap := b;
      children := cs;
      Repr := {this, cs};
    }

    /** `lookup(hash_index)`, on the node's current bitmap and children. */
    function Lookup(h: nat): (IndexPointer, nat)
      reads this, children
      requires h < HashSize && children.Length == HashSize
    {
      LookupIn(bitmap, children[..], h)
    }

    /**
     * `insert_child(hash, leaf, parents)`: the chunk `hash & 63`, whose bit
     * must be clear, gets `leaf` at its rank; the children from that slot
     * up move one place along; the bit is set; and `(this, rank)` is pushed
     * onto the parent stack.
     */
    method InsertChild(hash: nat, leaf: IndexPointer, parents: ParentStack)
      requires children.Length == HashSize
      requires !HasBit(bitmap, hash % HashSize)
      requires PopCount(bitmap) < HashSize
      requires |parents.entries| < MaxTreeDepth
      modifies this, children, parents
      ensures bitmap == SetBit(old(bitmap), hash % HashSize)
      ensures PopCount(bitmap) == PopCount(old(bitmap)) + 1
      ensures old(bitmap) < BitmapLimit ==> bitmap < BitmapLimit
      ensures Rank(old(bitmap), hash % HashSize) <= PopCount(old(bitmap))
      ensures children[..] ==
        Inserted(old(children[..]), Rank(old(bitmap), hash % HashSize), PopCount(old(bitmap)), leaf)
      ensures parents.entries ==
        old(parents.entries) + [ParentType(HeapInternal(this), Rank(old(bitmap), hash % HashSize))]
      ensures Repr == old(Repr)
    {
      var h := hash % HashSize;
      var index := PopCount(LowBits(bitmap, h));
      var oldSize := PopCount(bitmap);
      LowBitsCountIsRank(bitmap, h);
      ClearBitLeavesRoom(bitmap, h);
      RankGrows(bitmap, h, HashSize);
      ghost var before := children[..];
      // std::move_backward of [index, oldSize) to [index + 1, oldSize + 1)
      var k := oldSize;
      while k > index
        modifies children
        invariant index <= k <= oldSize
        invariant forall j :: 0 <= j <= k ==> children[j] == before[j]
        invariant forall j :: k < j <= oldSize ==> children[j] == before[j - 1]
        invariant forall j :: oldSize < j < HashSize ==> children[j] == before[j]
      {
        children[k] := children[k - 1];
        k := k - 1;
      }
      children[index] := leaf;
      forall j | 0 <= j < HashSize
        ensures children[j] == Inserted(before, index, oldSize, leaf)[j]
      {
        InsertedAt(before, index, oldSize, leaf, j);
      }
      bitmap := SetBit(bitmap, h);
      RankAfterSet(old(bitmap), h, HashSize);
      if old(bitmap) < BitmapLimit {
        SetBitKeepsWidth(old(bitmap), h);
      }
      parents.Push(ParentType(HeapInternal(this), index));
    }

    /**
     * The shape `flush` relies on, for a node at depth `shifts`: the node
     * owns the heap nodes below it, whose footprints are disjoint; a heap
     * child is an internal node exactly when `shifts + 6` is an internal
     * depth; the leaves of a linear child are not among the objects a
     * flush may change; and the store words among the children have the
     * heap bit clear, lie below `limit` and are all different.
     */
    ghost predicate Valid(shifts: nat, limit: nat)
      reads this, Repr
      decreases Repr
    {
      && this in Repr && children in Repr
      && children.Length == HashSize
      && bitmap != 0 && bitmap < BitmapLimit
      && StoreWordsBelow(children[..Size()], limit)
      && (forall i :: 0 <= i < Size() && children[i].HeapLinear? ==>
            !DepthIsInternalNode(shifts + HashIndexBits) && children[i].lnode.leaves !in Repr)
      && (forall i :: 0 <= i < Size() && children[i].HeapInternal? ==>
            && DepthIsInternalNode(shifts + HashIndexBits)
            && children[i].inode in Repr
            && children[i].inode.Repr <= Repr
            && this !in children[i].inode.Repr && children !in children[i].inode.Repr
            && children[i].inode.Valid(shifts + HashIndexBits, limit))
      && (forall i, j :: 0 <= i < j < Size() && children[i].HeapInternal? && children[j].HeapInternal? ==>
            children[i].inode.Repr !! children[j].inode.Repr)
    }

    /** The heap nodes of every slot but the ones in `outside` are each other's and this node's business only. */
    lemma ReadyFromValid(shifts: nat, limit: nat, outside: object)
      requires Valid(shifts, limit) && outside !in Repr
      ensures forall j :: 0 <= j < Size() ==>
        SubtreeReady(children[j], shifts + HashIndexBits, limit, {this, children, outside})
      ensures forall j, k :: 0 <= j < k < Size() ==> Footprint(children[j]) !! Footprint(children[k])
      ensures forall j :: 0 <= j < Size() ==> Footprint(children[j]) <= Repr
    {
    }

    /**
     * `flush(transaction, shifts)`: every heap child is flushed first,
     * depth first and in slot order, as an internal node while
     * `shifts + 6` is an internal depth and otherwise as a linear node
     * whose address is tagged with bit 0; then the node itself is stored
     * and its address is returned with bit 0 set. Children already in the
     * store are left as they are. With the allocator's increasing
     * addresses the stored node passes `validate_after_load`.
     */
    method Flush(t: Transaction<NodeImage>, shifts: nat, ghost limit: nat) returns (addr: nat)
      requires Valid(shifts, limit) && t.Valid() && limit <= t.next && t !in Repr
      requires DepthIsInternalNode(shifts)
      modifies Repr, t
      decreases MaxHashBits - shifts, 2
      ensures bitmap == old(bitmap) && Repr == old(Repr)
      ensures t.Valid() && old(t.next) <= t.next
      ensures Extends(old(t.records), t.records)
      ensures IsInternalWord(addr) && !IsHeapWord(addr)
      ensures old(t.next) <= UntagAddress(addr) < t.next
      ensures UntagAddress(addr) in t.records
      ensures t.records[UntagAddress(addr)].field == bitmap
      ensures ValidImage(t.records[UntagAddress(addr)], UntagAddress(addr))
      ensures Settled(old(children[..Size()]), children[..Size()], old(t.next), t.next)
      ensures AllWritten(old(PendingsOf(children[..Size()])), children[..Size()], t.records)
      ensures t.records[UntagAddress(addr)] == Image()
    {
      ghost var kids := children[..];
      var size := Size();
      ReadyFromValid(shifts, limit, t);
      assert StoreWordsBelow(kids[..size], limit);
      FlushChildren(t, size, shifts, limit, Repr - {this, children});
      ghost var next := t.next;
      forall i | 0 <= i < size
        ensures children[i].Addr?
      {
        assert children[..size][i] == children[i];
      }
      ghost var written := t.records;
      var a := StoreNode(t);
      WrittenExtends(old(PendingsOf(children[..Size()])), children[..size], written, t.records);
      FlushedChildrenOrdered(kids[..size], children[..size], limit, old(t.next), next, a);
      AlignedWord(a);
      addr := OrInternalBit(a);
    }

    /**
     * The loop of `flush`: the heap children among the first `size` slots
     * are flushed in slot order and replaced by their store words, which
     * increase from slot to slot.
     */
    method FlushChildren(t: Transaction<NodeImage>, size: nat, shifts: nat, ghost limit: nat, ghost below: set<object>)
      requires children.Length == HashSize && size <= HashSize && DepthIsInternalNode(shifts)
      requires t.Valid() && limit <= t.next && this !in below && children !in below && t !in below
      requires forall j :: 0 <= j < size ==>
        SubtreeReady(children[j], shifts + HashIndexBits, limit, {this, children, t})
      requires forall j, k :: 0 <= j < k < size ==> Footprint(children[j]) !! Footprint(children[k])
      requires forall j :: 0 <= j < size ==> Footprint(children[j]) <= below
      requires forall j :: 0 <= j < size && children[j].HeapLinear? ==> children[j].lnode.leaves !in below
      modifies children, t, below
      decreases MaxHashBits - shifts, 1
      ensures forall j :: size <= j < HashSize ==> children[j] == old(children[j])
      ensures t.Valid() && old(t.next) <= t.next
      ensures Extends(old(t.records), t.records)
      ensures Settled(old(children[..size]), children[..size], old(t.next), t.next)
      ensures AllWritten(old(PendingsOf(children[..size])), children[..size], t.records)
    {
      ghost var kids := children[..];
      ghost var fps := Footprints(kids[..size]);
      ghost var pending := PendingsOf(kids[..size]);
      for i := 0 to size
        invariant t.Valid() && old(t.next) <= t.next && limit <= t.next
        invariant Extends(old(t.records), t.records)
        invariant forall j :: i <= j < HashSize ==> children[j] == kids[j]
        invariant Settled(kids[..i], children[..i], old(t.next), t.next)
        invariant forall j :: i <= j < size ==> unchanged(fps[j])
        invariant forall j, k :: 0 <= j < k < size ==> fps[j] !! fps[k]
        invariant forall j :: 0 <= j < size ==> fps[j] <= below
        invariant AllWritten(pending[..i], children[..i], t.records)
      {
        assert old(SubtreeReady(children[i], shifts + HashIndexBits, limit, {this, children, t}));
        assert old(PendingOf(children[i])) == pending[i];
        ghost var prev, mid, written := children[..], t.next, t.records;
        FlushSlot(i, t, shifts, limit);
        SlotDone(kids, pending, prev, children[..], i, old(t.next), mid, t.next, written, t.records);
      }
    }

    /**
     * One step of `flush`'s loop: the heap child in slot `i`, if there is
     * one, is flushed and replaced by its store word.
     */
    method FlushSlot(i: nat, t: Transaction<NodeImage>, shifts: nat, ghost limit: nat)
      requires children.Length == HashSize && i < HashSize && DepthIsInternalNode(shifts)
      requires t.Valid() && limit <= t.next
      requires SubtreeReady(children[i], shifts + HashIndexBits, limit, {this, children, t})
      modifies children, t, Footprint(children[i])
      decreases MaxHashBits - shifts, 0
      ensures forall j :: 0 <= j < HashSize && j != i ==> children[j] == old(children[j])
      ensures t.Valid() && old(t.next) <= t.next
      ensures Extends(old(t.records), t.records)
      ensures Flushed(old(children[i]), children[i], old(t.next), t.next)
      ensures Written(old(PendingOf(children[i])), children[i], t.records)
    {
      var childShifts := shifts + HashIndexBits;
      var p := children[i];
      if IsHeap(p) {
        if DepthIsInternalNode(childShifts) {
          var n := p.inode;
          var w := n.Flush(t, childShifts, limit);
          children[i] := Addr(w);
        } else {
          var l := p.lnode;
          var a := l.Flush(t);
          AlignedWord(a);
          children[i] := Addr(OrInternalBit(a));
        }
      }
    }

    /** The image `store_node` constructs in the store: the bitmap and the first `size()` children. */
    function Image(): (img: NodeImage)
      reads this, children
      requires bitmap != 0 && children.Length == HashSize
      requires forall i :: 0 <= i < Size() ==> children[i].Addr?
      ensures img.signature == InternalSignature && img.field == bitmap
      ensures StoredChildren(img) == Words(children[..Size()])
    {
      var img := NodeImage(InternalSignature, bitmap, Words(children[..Size()]));
      assert StoredChildren(img) == img.words;
      img
    }

    /**
     * `store_node`: `size_bytes(size())` bytes at the next 8-aligned
     * address hold a copy of the node; every child must already be a
     * store word.
     */
    method StoreNode(t: Transaction<NodeImage>) returns (addr: nat)
      requires t.Valid() && bitmap != 0 && bitmap < BitmapLimit
      requires children.Length == HashSize
      requires forall i :: 0 <= i < Size() ==> children[i].Addr?
      modifies t
      ensures t.Valid() && addr == AlignUp(old(t.next), 8)
      ensures 0 < Size() < MaxHashBits && t.next == addr + InternalSizeBytes(Size())
      ensures t.records == old(t.records)[addr := Image()]
      ensures Extends(old(t.records), t.records)
    {
      var size := Size();
      EmptyBitmap(bitmap);
      var img := Image();
      addr := t.AllocRw(InternalSizeBytes(size), 8, img);
    }
  }

  /**
   * What `flush` has to store for a child slot, as values read before the
   * flush: nothing for a store word, a linear node's leaves, or an
   * internal node's bitmap.
   */
  datatype Pending = AlreadyStored | PendingLinear(leaves: seq<nat>) | PendingInternal(bitmap: nat)

  ghost function PendingOf(p: IndexPointer): Pending
    reads if p.HeapInternal? then {p.inode} else {}, if p.HeapLinear? then {p.lnode.leaves} else {}
  {
    match p
    case Addr(_) => AlreadyStored
    case HeapLinear(l) => PendingLinear(l.leaves[..])
    case HeapInternal(n) => PendingInternal(n.bitmap)
  }

  ghost function PendingsOf(ps: seq<IndexPointer>): (r: seq<Pending>)
    reads set j | 0 <= j < |ps| && ps[j].HeapInternal? :: ps[j].inode
    reads set j | 0 <= j < |ps| && ps[j].HeapLinear? :: ps[j].lnode.leaves
    ensures |r| == |ps| && forall j :: 0 <= j < |ps| ==> r[j] == PendingOf(ps[j])
  {
    if ps == [] then [] else PendingsOf(ps[..|ps| - 1]) + [PendingOf(ps[|ps| - 1])]
  }

  /**
   * The record `flush` left for a child that was on the heap, at the
   * address its slot now holds: a linear node's image with exactly its
   * leaves, or an internal node's image with its bitmap that passes
   * `validate_after_load`.
   */
  predicate Written(c: Pending, after: IndexPointer, records: map<nat, NodeImage>)
  {
    match c
    case AlreadyStored => true
    case PendingLinear(ls) =>
      && after.Addr? && UntagAddress(after.word) in records
      && records[UntagAddress(after.word)] == NodeImage(LinearSignature, |ls|, ls)
    case PendingInternal(b) =>
      && after.Addr? && UntagAddress(after.word) in records
      && records[UntagAddress(after.word)].signature == InternalSignature
      && records[UntagAddress(after.word)].field == b
      && ValidImage(records[UntagAddress(after.word)], UntagAddress(after.word))
  }

  predicate AllWritten(cs: seq<Pending>, after: seq<IndexPointer>, records: map<nat, NodeImage>)
  {
    |cs| == |after| && forall j :: 0 <= j < |cs| ==> Written(cs[j], after[j], records)
  }

  /**
   * The bookkeeping of one turn of `flush`'s loop: slot `i` went from
   * `prev` to `now`, no other slot changed, and the first `i + 1` slots
   * are settled, with their records in place.
   */
  lemma SlotDone(kids: seq<IndexPointer>, pending: seq<Pending>, prev: seq<IndexPointer>, now: seq<IndexPointer>,
                 i: nat, start: nat, mid: nat, next: nat, written: map<nat, NodeImage>, records: map<nat, NodeImage>)
    requires i < |kids| && i < |pending| && |prev| == |now| == |kids| && prev[i] == kids[i] && start <= mid <= next
    requires forall j :: 0 <= j < |now| && j != i ==> now[j] == prev[j]
    requires Settled(kids[..i], prev[..i], start, mid) && AllWritten(pending[..i], prev[..i], written)
    requires Extends(written, records)
    requires Flushed(kids[i], now[i], mid, next) && Written(pending[i], now[i], records)
    ensures Settled(kids[..i + 1], now[..i + 1], start, next) && AllWritten(pending[..i + 1], now[..i + 1], records)
  {
    assert now[..i] == prev[..i];
    assert now[..i + 1] == now[..i] + [now[i]];
    assert kids[..i + 1] == kids[..i] + [kids[i]];
    assert pending[..i + 1] == pending[..i] + [pending[i]];
    WrittenExtends(pending[..i], now[..i], written, records);
    WrittenSnoc(pending[..i], now[..i], records, pending[i], now[i]);
    SettledStep(kids[..i], now[..i], start, mid, next, kids[i], now[i]);
  }

  /** One more slot whose record is in place. */
  lemma WrittenSnoc(cs: seq<Pending>, after: seq<IndexPointer>, records: map<nat, NodeImage>, c: Pending, a: IndexPointer)
    requires AllWritten(cs, after, records) && Written(c, a, records)
    ensures AllWritten(cs + [c], after + [a], records)
  {
  }

  /** Records written earlier stay as they are while later ones are added. */
  lemma WrittenExtends(cs: seq<Pending>, after: seq<IndexPointer>,
                       before: map<nat, NodeImage>, records: map<nat, NodeImage>)
    requires AllWritten(cs, after, before) && Extends(before, records)
    ensures AllWritten(cs, after, records)
  {
  }

  /** The store words among `kids`: heap bit clear, below `limit`, no two the same. */
  predicate StoreWordsBelow(kids: seq<IndexPointer>, limit: nat)
  {
    && (forall i :: 0 <= i < |kids| && kids[i].Addr? ==> kids[i].word < limit && !IsHeapWord(kids[i].word))
    && (forall i, j :: 0 <= i < j < |kids| && kids[i].Addr? && kids[j].Addr? ==> kids[i].word != kids[j].word)
  }

  /** The heap objects reachable through a child pointer that `flush` may change. */
  ghost function Footprint(p: IndexPointer): set<object>
    reads if p.HeapInternal? then {p.inode} else {}
  {
    if p.HeapInternal? then p.inode.Repr else {}
  }

  ghost function Footprints(ps: seq<IndexPointer>): (r: seq<set<object>>)
    reads set j | 0 <= j < |ps| && ps[j].HeapInternal? :: ps[j].inode
    ensures |r| == |ps| && forall j :: 0 <= j < |ps| ==> r[j] == Footprint(ps[j])
  {
    if ps == [] then [] else Footprints(ps[..|ps| - 1]) + [Footprint(ps[|ps| - 1])]
  }

  /**
   * A child at depth `childShifts` that `flush` can handle: a store word
   * with the heap bit clear, a linear node at the linear depth, or a
   * valid internal node at an internal depth whose footprint leaves out
   * the objects in `outside`.
   */
  ghost predicate SubtreeReady(p: IndexPointer, childShifts: nat, limit: nat, outside: set<object>)
    reads if p.HeapInternal? then {p.inode} + p.inode.Repr else {}
  {
    match p
    case Addr(w) => !IsHeapWord(w)
    case HeapLinear(_) => !DepthIsInternalNode(childShifts)
    case HeapInternal(n) =>
      && DepthIsInternalNode(childShifts) && n in n.Repr
      && n.Valid(childShifts, limit) && n.Repr !! outside
  }

  /** An 8-aligned store address has both tag bits clear, and `| internal_node_bit` marks it internal only. */
  lemma AlignedWord(x: nat)
    requires x % 8 == 0
    ensures !IsInternalWord(x) && !IsHeapWord(x)
    ensures IsInternalWord(OrInternalBit(x)) && !IsHeapWord(OrInternalBit(x))
    ensures UntagAddress(OrInternalBit(x)) == x
  {
    var q := x / 8;
    assert x == 8 * q;
    assert x / 2 == 4 * q;
  }

  /** Every record of `before` is still in `after`, unchanged. */
  predicate Extends(before: map<nat, NodeImage>, after: map<nat, NodeImage>)
  {
    forall a :: a in before ==> a in after && after[a] == before[a]
  }

  /**
   * What `flush` leaves in a child slot: a store word, the same word when
   * the child was already in the store, otherwise the internal-tagged
   * address of the child written during this flush, in `[start, next)`.
   */
  predicate Flushed(before: IndexPointer, after: IndexPointer, start: nat, next: nat)
  {
    && after.Addr?
    && (before.Addr? ==> after == before)
    && (!before.Addr? ==>
          IsInternalWord(after.word) && !IsHeapWord(after.word)
          && start <= UntagAddress(after.word) < next)
  }

  /**
   * The slots `flush` has dealt with: each holds its flushed word, and the
   * nodes written during the flush lie in `[start, next)` in slot order.
   */
  predicate Settled(before: seq<IndexPointer>, after: seq<IndexPointer>, start: nat, next: nat)
  {
    && |before| == |after|
    && (forall j :: 0 <= j < |after| ==> after[j].Addr? && Flushed(before[j], after[j], start, next))
    && (forall j, k :: 0 <= j < k < |after| && !before[j].Addr? && !before[k].Addr? ==>
          UntagAddress(after[j].word) < UntagAddress(after[k].word))
  }

  /** One more slot dealt with, by writes that started where the earlier ones stopped. */
  lemma SettledStep(before: seq<IndexPointer>, after: seq<IndexPointer>, start: nat, mid: nat, next: nat,
                    b: IndexPointer, a: IndexPointer)
    requires Settled(before, after, start, mid) && start <= mid <= next
    requires a.Addr? && Flushed(b, a, mid, next)
    ensures Settled(before + [b], after + [a], start, next)
  {
  }

  /**
   * The ordering argument of the depth-first flush: children already in
   * the store lie below `limit`, children written by this flush lie at or
   * above it in increasing order and below the parent, so the parent's
   * children are all store words below the parent's address and no two
   * are the same, which is what `validate_after_load` demands.
   */
  lemma FlushedChildrenOrdered(before: seq<IndexPointer>, after: seq<IndexPointer>,
                               limit: nat, start: nat, next: nat, addr: nat)
    requires limit <= start <= next <= addr
    requires StoreWordsBelow(before, limit) && Settled(before, after, start, next)
    ensures var ws := Words(after);
      && (forall i :: 0 <= i < |ws| ==> !IsHeapWord(ws[i]) && UntagAddress(ws[i]) < addr)
      && (forall i, j :: 0 <= i < j < |ws| ==> ws[i] != ws[j])
  {
    var ws := Words(after);
    forall i, j | 0 <= i < j < |ws|
      ensures ws[i] != ws[j]
    {
      if before[i].Addr? && !before[j].Addr? {
        assert ws[i] < limit <= UntagAddress(ws[j]) <= ws[j];
      } else if !before[i].Addr? && before[j].Addr? {
        assert ws[j] < limit <= UntagAddress(ws[i]) <= ws[i];
      } else if !before[i].Addr? && !before[j].Addr? {
        assert UntagAddress(ws[i]) < UntagAddress(ws[j]);
      }
    }
  }

  /**
   * `make_writable(node, internal)`: a heap node is returned as it is; a
   * store node, whose contents `internal` were read by `get_node`, gets a
   * fresh heap copy with the same bitmap and the same first `size()`
   * children. `copied` says whether a node was allocated.
   */
  method MakeWritable(node: IndexPointer, b: nat, kids: seq<IndexPointer>)
    returns (inode: InternalNode, copied: bool)
    requires IsHeap(node) ==> node.HeapInternal?
    requires !IsHeap(node) ==> b != 0 && PopCount(b) <= |kids|
    ensures IsHeap(node) ==> inode == node.inode && !copied
    ensures !IsHeap(node) ==> copied && fresh(inode) && fresh(inode.children) && inode.children.Length == HashSize
    ensures !IsHeap(node) ==> inode.bitmap == b && inode.children[..PopCount(b)] == kids[..PopCount(b)]
  {
    if IsHeap(node) {
      inode, copied := node.inode, false;
    } else {
      inode := new InternalNode.Copy(b, kids);
      copied := true;
    }
  }

  /**
   * `validate_after_load`: the signature first, then each child in turn:
   * it must be a store word below `addr` once bit 0 is cleared, and it
   * must differ from every later child.
   */
  method ValidateAfterLoad(img: NodeImage, addr: nat) returns (ok: bool)
    ensures ok <==> ValidImage(img, addr)
  {
    if img.signature != InternalSignature {
      return false;
    }
    var cs := StoredChildren(img);
    var first := 0;
    while first < |cs|
      invariant first <= |cs|
      invariant forall i :: 0 <= i < first ==> !IsHeapWord(cs[i]) && UntagAddress(cs[i]) < addr
      invariant forall i, j :: 0 <= i < first && i < j < |cs| ==> cs[i] != cs[j]
    {
      var child := cs[first];
      first := first + 1;
      if IsHeapWord(child) || UntagAddress(child) >= addr {
        return false;
      }
      var it := first;
      while it < |cs|
        invariant first <= it <= |cs|
        invariant forall j :: first <= j < it ==> child != cs[j]
      {
        if child == cs[it] {
          return false;
        }
        it := it + 1;
      }
    }
    return true;
  }

  /**
   * `read_node`: the node stored at `addr`, or `index_corrupt` when its
   * bitmap is zero or it fails `validate_after_load`.
   */
  method ReadNode(db: map<nat, NodeImage>, addr: nat) returns (r: Result<NodeImage>)
    requires addr in db
    ensures r.Failure? <==> db[addr].field == 0 || !ValidImage(db[addr], addr)
    ensures r.Failure? ==> r.error == IndexCorrupt
    ensures r.Success? ==> r.value == db[addr]
  {
    var img := db[addr];
    if img.field == 0 {
      return Failure(IndexCorrupt);
    }
    var ok := ValidateAfterLoad(img, addr);
    if !ok {
      return Failure(IndexCorrupt);
    }
    return Success(img);
  }

  /** What `internal_node::get_node` gives: a heap node, or a validated store image. */
  datatype InternalRef = OnHeap(node: InternalNode) | InStore(image: NodeImage)

  /** `internal_node::get_node`: a heap node as it is; a store node through `read_node` at the word with bit 0 cleared. */
  method GetNode(db: map<nat, NodeImage>, node: IndexPointer) returns (r: Result<InternalRef>)
    requires node.HeapInternal? || (node.Addr? && UntagAddress(node.word) in db)
    ensures node.HeapInternal? ==> r == Success(OnHeap(node.inode))
    ensures node.Addr? ==> var a := UntagAddress(node.word);
      (r.Failure? <==> db[a].field == 0 || !ValidImage(db[a], a))
      && (r.Success? ==> r.value == InStore(db[a]))
  {
    if node.HeapInternal? {
      return Success(OnHeap(node.inode));
    }
    var read := ReadNode(db, UntagAddress(node.word));
    if read.Failure? {
      return Failure(read.error);
    }
    return Success(InStore(read.value));
  }
}
