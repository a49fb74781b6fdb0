/**
 * `diff`: the leaves of an index that were written after a given revision.
 *
 * The traversal walks the trie depth first, in child-slot order, and
 * reports every leaf whose address is at or above a threshold (the end of
 * the older revision's footer). An intermediate node below the threshold is
 * read but its children are not visited: everything under it is older.
 *
 * The index is traversed as it lies in the store: a word is read through
 * the map from address to stored image. A heap-resident node counts as
 * new (`IsNew`), but heap nodes are not traversed here.
 */
module Diff {
  import opened HamtTypes
  import opened HamtNodes

  /** `pstore::head_revision`: the largest `unsigned`. */
  const HeadRevision: nat := 0xFFFF_FFFF

  datatype DiffError = IndexCorrupt | BadAddress

  /** What a traversal gives: the reported leaf addresses, or the error that was raised. */
  datatype Outcome = Reported(addrs: seq<nat>) | Failed(error: DiffError)

  /** `traverser::is_new`: a heap node, or a store word at or above the threshold once bit 0 is cleared. */
  predicate IsNew(p: IndexPointer, threshold: nat)
  {
    IsHeap(p) || (p.Addr? && UntagAddress(p.word) >= threshold)
  }

  /** The measure of the traversal: a leaf is 0, a node is one more than its address. */
  function Height(w: nat): (h: nat)
    ensures IsInternalWord(w) ==> h == UntagAddress(w) + 1
    ensures !IsInternalWord(w) ==> h == 0
  {
    if IsInternalWord(w) then UntagAddress(w) + 1 else 0
  }

  /**
   * A linear node holds only leaf addresses. Without this the traversal
   * would read such a word as another linear node, one level deeper.
   */
  predicate LinearNodesHoldLeaves(db: map<nat, NodeImage>)
  {
    forall a :: a in db && db[a].signature == LinearSignature ==>
      forall l :: l in LinearLeaves(db[a]) ==> !IsInternalWord(l)
  }

  /**
   * The order an append-only store gives: the leaves of a linear node are
   * store addresses written before the node itself.
   */
  predicate LeavesPrecedeLinearNodes(db: map<nat, NodeImage>)
  {
    forall a :: a in db && db[a].signature == LinearSignature ==>
      forall l :: l in LinearLeaves(db[a]) ==> !IsInternalWord(l) && !IsHeapWord(l) && l < a
  }

  /** The first error of two traversals run one after the other, or both reports in order. */
  function Then(first: Outcome, second: Outcome): (r: Outcome)
    ensures r.Reported? <==> first.Reported? && second.Reported?
    ensures r.Reported? ==> r.addrs == first.addrs + second.addrs
    ensures first.Failed? ==> r == first
  {
    if first.Failed? then first
    else if second.Failed? then second
    else Reported(first.addrs + second.addrs)
  }

  /** `visit_node`: a leaf is reported when it is new; any other word is an intermediate node. */
  function NodeReport(db: map<nat, NodeImage>, w: nat, shifts: nat, threshold: nat): Outcome
    requires LinearNodesHoldLeaves(db)
    decreases Height(w), 2, 0
  {
    if !IsInternalWord(w) then
      Reported(if IsNew(Addr(w), threshold) then [w] else [])
    else
      IntermediateReport(db, w, shifts, threshold)
  }

  /** A node's children as read from the store, or the error reading it raises. */
  datatype Read = Children(cs: seq<nat>) | Unreadable(error: DiffError)

  /**
   * `Node::get_node` as the traversal uses it: the node is read as an
   * internal node while `shifts` is an internal depth, through
   * `read_node`, and as a linear node after that. Every child lies lower
   * in the traversal than the node.
   */
  function ReadChildren(db: map<nat, NodeImage>, w: nat, shifts: nat): (r: Read)
    requires LinearNodesHoldLeaves(db) && IsInternalWord(w)
    ensures r.Children? ==> forall i :: 0 <= i < |r.cs| ==> Height(r.cs[i]) < Height(w)
  {
    var a := UntagAddress(w);
    if a !in db then Unreadable(BadAddress)
    else if DepthIsInternalNode(shifts) then
      if db[a].field == 0 || !ValidImage(db[a], a) then Unreadable(DiffError.IndexCorrupt)
      else Children(StoredChildren(db[a]))
    else if db[a].signature != LinearSignature then Unreadable(DiffError.IndexCorrupt)
    else
      var cs := LinearLeaves(db[a]);
      assert forall i :: 0 <= i < |cs| ==> cs[i] in LinearLeaves(db[a]);
      Children(cs)
  }

  /** `visit_intermediate`: the node is read; its children are visited one level deeper only when it is new. */
  function IntermediateReport(db: map<nat, NodeImage>, w: nat, shifts: nat, threshold: nat): Outcome
    requires LinearNodesHoldLeaves(db) && IsInternalWord(w)
    decreases Height(w), 1, 0
  {
    match ReadChildren(db, w, shifts)
    case Unreadable(e) => Failed(e)
    case Children(cs) =>
      if !IsNew(Addr(w), threshold) then Reported([])
      else ChildrenReport(db, cs, Height(w), shifts + HashIndexBits, threshold)
  }

  /** The children of one node, visited in slot order; `bound` exceeds the height of each. */
  function ChildrenReport(db: map<nat, NodeImage>, cs: seq<nat>, bound: nat, shifts: nat, threshold: nat): Outcome
    requires LinearNodesHoldLeaves(db)
    requires forall i :: 0 <= i < |cs| ==> Height(cs[i]) < bound
    decreases bound, 0, |cs|
  {
    if cs == [] then Reported([])
    else
      Then(ChildrenReport(db, cs[..|cs| - 1], bound, shifts, threshold),
           NodeReport(db, cs[|cs| - 1], shifts, threshold))
  }

  /** `traverser::operator()`: nothing for an empty root, else the root visited at depth 0. */
  function Traversal(db: map<nat, NodeImage>, root: nat, threshold: nat): Outcome
    requires LinearNodesHoldLeaves(db)
  {
    if root == 0 then Reported([]) else NodeReport(db, root, 0, threshold)
  }

  /** The address just past the footer of revision `since`, below which everything is old. */
  function Threshold(footerPos: nat -> nat, trailerBytes: nat, since: nat): nat
  {
    footerPos(since) + trailerBytes
  }

  /**
   * `diff`: nothing when `since` is the head revision or later than the
   * current one; otherwise the leaves at or above the end of its
   * footer. `footerPos` is the database's map from a revision to the
   * address of its footer, and `trailerBytes` the size of a footer.
   */
  function DiffReport(db: map<nat, NodeImage>, root: nat, current: nat, since: nat,
                      footerPos: nat -> nat, trailerBytes: nat): (r: Outcome)
    requires LinearNodesHoldLeaves(db)
    ensures since == HeadRevision || since > current ==> r == Reported([])
    ensures r.Reported? ==> forall x :: x in r.addrs ==>
      !IsInternalWord(x) && IsNew(Addr(x), Threshold(footerPos, trailerBytes, since))
  {
    if since == HeadRevision || since > current then Reported([])
    else
      var t := Threshold(footerPos, trailerBytes, since);
      ReportsNewLeaves(db, root, 0, t);
      Traversal(db, root, t)
  }

  // What a traversal reports

  /** Every reported address is a leaf, and a new one. */
  lemma {:induction false} ReportsNewLeaves(db: map<nat, NodeImage>, w: nat, shifts: nat, threshold: nat)
    requires LinearNodesHoldLeaves(db)
    ensures var r := NodeReport(db, w, shifts, threshold);
      r.Reported? ==> forall x :: x in r.addrs ==> !IsInternalWord(x) && IsNew(Addr(x), threshold)
    decreases Height(w), 2, 0
  {
    if IsInternalWord(w) {
      var read := ReadChildren(db, w, shifts);
      if read.Children? && IsNew(Addr(w), threshold) {
        ChildrenReportNewLeaves(db, read.cs, Height(w), shifts + HashIndexBits, threshold);
      }
    }
  }

  lemma {:induction false} ChildrenReportNewLeaves(db: map<nat, NodeImage>, cs: seq<nat>, bound: nat, shifts: nat, threshold: nat)
    requires LinearNodesHoldLeaves(db)
    requires forall i :: 0 <= i < |cs| ==> Height(cs[i]) < bound
    ensures var r := ChildrenReport(db, cs, bound, shifts, threshold);
      r.Reported? ==> forall x :: x in r.addrs ==> !IsInternalWord(x) && IsNew(Addr(x), threshold)
    decreases bound, 0, |cs|
  {
    if cs != [] {
      ChildrenReportNewLeaves(db, cs[..|cs| - 1], bound, shifts, threshold);
      ReportsNewLeaves(db, cs[|cs| - 1], shifts, threshold);
    }
  }

  /** The children of an intermediate node that is not new are never visited. */
  lemma OldNodeReportsNothing(db: map<nat, NodeImage>, w: nat, shifts: nat, threshold: nat)
    requires LinearNodesHoldLeaves(db) && IsInternalWord(w) && !IsNew(Addr(w), threshold)
    ensures NodeReport(db, w, shifts, threshold) == Reported([])
      || NodeReport(db, w, shifts, threshold).Failed?
  {
  }

  /** The leaves of `ls` that are new: what an unpruned traversal would keep. */
  function NewOnly(ls: seq<nat>, threshold: nat): (r: seq<nat>)
    ensures forall x :: x in r ==> x in ls && IsNew(Addr(x), threshold)
    ensures forall x :: x in ls && IsNew(Addr(x), threshold) ==> x in r
  {
    if ls == [] then []
    else NewOnly(ls[..|ls| - 1], threshold) + (if IsNew(Addr(ls[|ls| - 1]), threshold) then [ls[|ls| - 1]] else [])
  }

  lemma {:induction false} NewOnlyAppend(xs: seq<nat>, ys: seq<nat>, threshold: nat)
    ensures NewOnly(xs + ys, threshold) == NewOnly(xs, threshold) + NewOnly(ys, threshold)
    decreases |ys|
  {
    if ys == [] {
      assert xs + ys == xs;
    } else {
      var zs := ys[..|ys| - 1];
      assert (xs + ys)[..|xs + ys| - 1] == xs + zs;
      NewOnlyAppend(xs, zs, threshold);
    }
  }

  /** Nothing survives the filter when every address is a store address below the threshold. */
  lemma {:induction false} NewOnlyOfOld(ls: seq<nat>, threshold: nat)
    requires forall x :: x in ls ==> !IsHeapWord(x) && x < threshold
    ensures NewOnly(ls, threshold) == []
  {
    if ls != [] {
      NewOnlyOfOld(ls[..|ls| - 1], threshold);
    }
  }

  /**
   * In an append-only store everything under a node lies below it: every
   * leaf reported under an intermediate node is a store address below the
   * node's own address.
   */
  lemma {:induction false} LeavesLieBelow(db: map<nat, NodeImage>, w: nat, shifts: nat)
    requires LeavesPrecedeLinearNodes(db) && IsInternalWord(w)
    ensures LinearNodesHoldLeaves(db)
    ensures var r := NodeReport(db, w, shifts, 0);
      r.Reported? ==> forall x :: x in r.addrs ==> !IsHeapWord(x) && x < UntagAddress(w)
    decreases Height(w), 1, 0
  {
    var read := ReadChildren(db, w, shifts);
    if read.Children? {
      var a, cs := UntagAddress(w), read.cs;
      if !DepthIsInternalNode(shifts) {
        assert forall i :: 0 <= i < |cs| ==> cs[i] in LinearLeaves(db[a]);
      }
      ChildrenLieBelow(db, cs, Height(w), shifts + HashIndexBits, a);
    }
  }

  lemma {:induction false} ChildrenLieBelow(db: map<nat, NodeImage>, cs: seq<nat>, bound: nat, shifts: nat, a: nat)
    requires LeavesPrecedeLinearNodes(db) && bound == a + 1
    requires forall i :: 0 <= i < |cs| ==> !IsHeapWord(cs[i]) && UntagAddress(cs[i]) < a
    ensures LinearNodesHoldLeaves(db)
    ensures forall i :: 0 <= i < |cs| ==> Height(cs[i]) < bound
    ensures var r := ChildrenReport(db, cs, bound, shifts, 0);
      r.Reported? ==> forall x :: x in r.addrs ==> !IsHeapWord(x) && x < a
    decreases bound, 0, |cs|
  {
    if cs != [] {
      var c := cs[|cs| - 1];
      ChildrenLieBelow(db, cs[..|cs| - 1], bound, shifts, a);
      if IsInternalWord(c) {
        LeavesLieBelow(db, c, shifts);
      }
    }
  }

  /**
   * Pruning loses nothing: on an append-only store, whenever the full
   * traversal (threshold 0, where every address is new) succeeds, the
   * traversal against any threshold succeeds with exactly the new leaves
   * of the full one, in the same order.
   */
  lemma {:induction false} PruningKeepsEveryNewLeaf(db: map<nat, NodeImage>, w: nat, shifts: nat, threshold: nat)
    requires LeavesPrecedeLinearNodes(db)
    ensures LinearNodesHoldLeaves(db)
    ensures var full := NodeReport(db, w, shifts, 0);
      full.Reported? ==> NodeReport(db, w, shifts, threshold) == Reported(NewOnly(full.addrs, threshold))
    decreases Height(w), 2, 0
  {
    var full := NodeReport(db, w, shifts, 0);
    if full.Reported? {
      if !IsInternalWord(w) {
        assert NewOnly([w], threshold) == NewOnly([], threshold) + (if IsNew(Addr(w), threshold) then [w] else []);
      } else {
        if !IsNew(Addr(w), threshold) {
          LeavesLieBelow(db, w, shifts);
          NewOnlyOfOld(full.addrs, threshold);
        } else {
          PruningKeepsChildren(db, ReadChildren(db, w, shifts).cs, Height(w), shifts + HashIndexBits, threshold);
        }
      }
    }
  }

  lemma {:induction false} PruningKeepsChildren(db: map<nat, NodeImage>, cs: seq<nat>, bound: nat, shifts: nat, threshold: nat)
    requires LeavesPrecedeLinearNodes(db)
    requires forall i :: 0 <= i < |cs| ==> Height(cs[i]) < bound
    ensures LinearNodesHoldLeaves(db)
    ensures var full := ChildrenReport(db, cs, bound, shifts, 0);
      full.Reported? ==> ChildrenReport(db, cs, bound, shifts, threshold) == Reported(NewOnly(full.addrs, threshold))
    decreases bound, 0, |cs|
  {
    if cs != [] {
      var init, last := cs[..|cs| - 1], cs[|cs| - 1];
      var full := ChildrenReport(db, cs, bound, shifts, 0);
      if full.Reported? {
        PruningKeepsChildren(db, init, bound, shifts, threshold);
        PruningKeepsEveryNewLeaf(db, last, shifts, threshold);
        NewOnlyAppend(ChildrenReport(db, init, bound, shifts, 0).addrs, NodeReport(db, last, shifts, 0).addrs, threshold);
      }
    }
  }

  /** The first error raised among some children is the error raised among all of them. */
  lemma {:induction false} FirstErrorStops(db: map<nat, NodeImage>, cs: seq<nat>, k: nat, bound: nat, shifts: nat, threshold: nat)
    requires LinearNodesHoldLeaves(db) && k <= |cs|
    requires forall i :: 0 <= i < |cs| ==> Height(cs[i]) < bound
    requires ChildrenReport(db, cs[..k], bound, shifts, threshold).Failed?
    ensures ChildrenReport(db, cs, bound, shifts, threshold) == ChildrenReport(db, cs[..k], bound, shifts, threshold)
    decreases |cs| - k
  {
    if k < |cs| {
      assert cs[..k + 1][..k] == cs[..k];
      FirstErrorStops(db, cs, k + 1, bound, shifts, threshold);
    } else {
      assert cs[..k] == cs;
    }
  }

  /** The status a traversal method ends with: normal return, or the exception it raises. */
  datatype Status = Ok | Raised(error: DiffError)

  /** A method's status and its appended output agree with the traversal's outcome. */
  predicate Agrees(r: Outcome, status: Status, before: seq<nat>, after: seq<nat>)
  {
    match r
    case Reported(xs) => status == Ok && after == before + xs
    case Failed(e) => status == Raised(e)
  }

  /** The `result_type` deque the traversal appends to. */
  class AddressList {
    var items: seq<nat>

    constructor()
      ensures items == []
    {
      items := [];
    }

    method PushBack(x: nat)
      modifies this
      ensures items == old(items) + [x]
    {
      items := items + [x];
    }
  }

  /** `details::traverser`: the store, and the threshold below which addresses are old. */
  class Traverser {
    const db: map<nat, NodeImage>
    const threshold: nat

    constructor(db: map<nat, NodeImage>, threshold: nat)
      ensures this.db == db && this.threshold == threshold
    {
      this.db := db;
      this.threshold := threshold;
    }

    /** `operator()`: the leaves the traversal reports, or the error it raises. */
    method Run(root: nat) returns (r: Outcome)
      requires LinearNodesHoldLeaves(db)
      ensures r == Traversal(db, root, threshold)
    {
      var result := new AddressList();
      if root == 0 {
        return Reported([]);
      }
      var status := VisitNode(root, 0, result);
      if status.Raised? {
        return Failed(status.error);
      }
      return Reported(result.items);
    }

    method VisitNode(w: nat, shifts: nat, result: AddressList) returns (status: Status)
      requires LinearNodesHoldLeaves(db)
      modifies result
      ensures Agrees(NodeReport(db, w, shifts, threshold), status, old(result.items), result.items)
      decreases Height(w), 2, 0
    {
      if !IsInternalWord(w) {
        if IsNew(Addr(w), threshold) {
          result.PushBack(w);
        }
        return Ok;
      }
      status := VisitIntermediate(w, shifts, result);
    }

    method VisitIntermediate(w: nat, shifts: nat, result: AddressList) returns (status: Status)
      requires LinearNodesHoldLeaves(db) && IsInternalWord(w)
      modifies result
      ensures Agrees(IntermediateReport(db, w, shifts, threshold), status, old(result.items), result.items)
      decreases Height(w), 1, 0
    {
      var read := GetChildren(w, shifts);
      if read.Unreadable? {
        return Raised(read.error);
      }
      status := VisitChildren(w, read.cs, shifts, result);
    }

    /** `Node::get_node` followed by the node's children, in slot order. */
    method GetChildren(w: nat, shifts: nat) returns (r: Read)
      requires LinearNodesHoldLeaves(db) && IsInternalWord(w)
      ensures r == ReadChildren(db, w, shifts)
    {
      var a := UntagAddress(w);
      if a !in db {
        return Unreadable(BadAddress);
      }
      if DepthIsInternalNode(shifts) {
        var node := ReadNode(db, a);
        if node.Failure? {
          return Unreadable(DiffError.IndexCorrupt);
        }
        return Children(StoredChildren(node.value));
      }
      var leaves := LinearNode.GetNode(db, Addr(w));
      if leaves.Failure? {
        return Unreadable(DiffError.IndexCorrupt);
      }
      return Children(leaves.value);
    }

    /** The loop of `visit_intermediate`: each child is visited while the node `w` is new. */
    method VisitChildren(w: nat, children: seq<nat>, shifts: nat, result: AddressList) returns (status: Status)
      requires LinearNodesHoldLeaves(db) && IsInternalWord(w)
      requires forall i :: 0 <= i < |children| ==> Height(children[i]) < Height(w)
      modifies result
      ensures Agrees(if IsNew(Addr(w), threshold)
                     then ChildrenReport(db, children, Height(w), shifts + HashIndexBits, threshold)
                     else Reported([]), status, old(result.items), result.items)
      decreases Height(w), 0, 0
    {
      ghost var start := result.items;
      var i := 0;
      while i < |children|
        invariant 0 <= i <= |children|
        invariant IsNew(Addr(w), threshold) ==>
          Agrees(ChildrenReport(db, children[..i], Height(w), shifts + HashIndexBits, threshold), Ok, start, result.items)
        invariant !IsNew(Addr(w), threshold) ==> result.items == start
      {
        if IsNew(Addr(w), threshold) {
          assert children[..i + 1][..i] == children[..i];
          status := VisitNode(children[i], shifts + HashIndexBits, result);
          if status.Raised? {
            FirstErrorStops(db, children, i + 1, Height(w), shifts + HashIndexBits, threshold);
            return;
          }
        }
        i := i + 1;
      }
      assert children[..|children|] == children;
      return Ok;
    }
  }

  /** `diff`: the guard on the revision, then a traversal against the end of the older footer. */
  method RunDiff(db: map<nat, NodeImage>, root: nat, current: nat, since: nat,
                 footerPos: nat -> nat, trailerBytes: nat) returns (r: Outcome)
    requires LinearNodesHoldLeaves(db)
    ensures r == DiffReport(db, root, current, since, footerPos, trailerBytes)
  {
    if since == HeadRevision || since > current {
      return Reported([]);
    }
    var t := new Traverser(db, footerPos(since) + trailerBytes);
    r := t.Run(root);
  }
}
