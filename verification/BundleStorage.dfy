/**
 * The operations of the bundle store (components/upcn/bundle_storage_manager.c, lines 277-361): id
 * allocation, the map from id to bundle, and the counter of stored payload bytes.
 */
module BundleStorage {
  import opened Basics
  import opened AvlShapes
  import opened AvlTree
  import opened Sums

  const UINT32 := 0x1_0000_0000

  /** `id + 1` in a `uint16_t`. */
  function Next(id: nat): nat { if id == MAX_ID then 0 else id + 1 }

  /** The `k`-th id looked at when the search starts from `start`. */
  ghost function Candidate(start: nat, k: nat): nat {
    if k == 0 then start else Next(Candidate(start, k - 1))
  }

  class Storage {
    const tree: Tree
    var nextId: nat
    var bytes: nat
    /** The payload length with which each stored bundle was counted when it was added. */
    ghost var counted: map<int, nat>
    /** What the payloads of deleted bundles had lost, altogether, when they were deleted. */
    ghost var lost: int

    constructor ()
      ensures Consistent() && tree.Contents() == map[] && bytes == 0 && counted == map[] && lost == 0 && nextId == 1
      ensures fresh(tree)
    {
      tree := new Tree();
      nextId, bytes, counted, lost := 1, 0, map[], 0;
    }

    /** The counter is off the lengths counted by what was lost. */
    ghost predicate Consistent()
      reads this, tree, Refs(tree.shape)
    {
      tree.Valid() && nextId <= MAX_ID && counted.Keys == tree.Contents().Keys && Counts(bytes, counted, lost)
    }

    /** bundle_storage_get */
    method Get(id: nat) returns (bundle: Option<Bundle>)
      requires tree.Valid() && id <= MAX_ID
      ensures bundle == if id in tree.Contents() then Some(tree.Contents()[id]) else None
    {
      NoZero(tree.shape);
      if id == 0 { return None; }
      bundle := tree.Lookup(id);
    }

    /** bundle_storage_contains */
    method Contains(id: nat) returns (found: bool)
      requires tree.Valid() && id <= MAX_ID
      ensures found <==> id in tree.Contents()
    {
      var bundle := Get(id);
      found := bundle.Some?;
    }

    /** Takes the next id from the counter and tells whether that id cannot be used. */
    method DrawId() returns (id: nat, taken: bool)
      requires tree.Valid() && nextId <= MAX_ID
      modifies this`nextId
      ensures id == old(nextId) && nextId == Next(id)
      ensures taken <==> id == 0 || id in tree.Contents()
    {
      id := nextId;
      nextId := Next(nextId);
      assert forall n <- Refs(tree.shape) :: n as object != this;
      assert tree.Valid() == old(tree.Valid());
      taken := true;
      if id != 0 { taken := Contains(id); }
    }

    /** The id search of bundle_storage_add: the first free non-zero id from `nextId` on, wrapping at 16 bits. */
    method AllocateId() returns (id: nat, ghost tried: nat)
      requires tree.Valid() && nextId <= MAX_ID
      requires exists free :: 0 < free <= MAX_ID && free !in tree.Contents()
      modifies this`nextId
      ensures 0 < id <= MAX_ID && id !in tree.Contents()
      ensures id == Candidate(old(nextId), tried) && nextId == Next(id)
      ensures forall k: nat | k < tried ::
                Candidate(old(nextId), k) == 0 || Candidate(old(nextId), k) in tree.Contents()
    {
      ghost var used := tree.Contents();
      ghost var free :| 0 < free <= MAX_ID && free !in used;
      assert allocated(Refs(tree.shape));
      var taken;
      id, taken := DrawId();
      tried := 0;
      while taken
        invariant id <= MAX_ID && (taken <==> id == 0 || id in used)
        invariant id == Candidate(old(nextId), tried) && nextId == Next(id)
        invariant forall k: nat | k < tried :: Candidate(old(nextId), k) == 0 || Candidate(old(nextId), k) in used
        decreases if id <= free then free - id else free + MAX_ID + 1 - id
      {
        assert tree.Valid() == old(tree.Valid());
        id, taken := DrawId();
        tried := tried + 1;
      }
    }

    /** Lines 289-292: the node, the id of the bundle and the usage counter. */
    method Keep(id: nat, bundle: Bundle)
      requires Consistent() && 0 < id <= MAX_ID && id !in tree.Contents()
      modifies this`bytes, this`counted, tree, Refs(tree.shape), bundle`id
      ensures Consistent() && bundle.id == id
      ensures tree.Contents() == old(tree.Contents())[id := bundle]
      ensures bytes == (old(bytes) + bundle.payloadLength) % UINT32
      ensures counted == old(counted)[id := bundle.payloadLength] && lost == old(lost)
    {
      tree.AddNode(id, bundle);
      assert forall n <- Refs(tree.shape) :: n as object != this && n as object != bundle;
      ghost var valid := tree.Valid();
      bundle.id := id;
      CountsAfterAdd(bytes, counted, lost, id, bundle.payloadLength);
      bytes := (bytes + bundle.payloadLength) % UINT32;
      counted := counted[id := bundle.payloadLength];
      assert valid == tree.Valid();
    }

    /** bundle_storage_add, for a store that has a free id and a successful allocation */
    method Add(bundle: Bundle) returns (id: nat)
      requires Consistent() && bundle.id == 0
      requires exists free :: 0 < free <= MAX_ID && free !in tree.Contents()
      modifies this, tree, Refs(tree.shape), bundle`id
      ensures Consistent() && 0 < id <= MAX_ID && id !in old(tree.Contents()) && bundle.id == id
      ensures tree.Contents() == old(tree.Contents())[id := bundle]
      ensures bytes == (old(bytes) + bundle.payloadLength) % UINT32
      ensures counted == old(counted)[id := bundle.payloadLength] && lost == old(lost)
    {
      ghost var tried;
      assert allocated(Refs(tree.shape));
      id, tried := AllocateId();
      assert forall n <- Refs(tree.shape) :: n as object != this;
      assert tree.Valid() == old(tree.Valid());
      Keep(id, bundle);
    }

    /** bundle_storage_delete: the program ends when the counter does not cover the length to subtract. */
    method Delete(id: nat) returns (r: Deletion, ghost size: nat)
      requires Consistent() && id <= MAX_ID
      modifies this`bytes, this`counted, this`lost, tree, Refs(tree.shape)
      ensures Consistent() && (r == NotFound <==> id !in old(tree.Contents()))
      ensures r != NotFound ==> size == old(tree.Contents())[id].payloadLength && (r == Aborted <==> old(bytes) < size)
      ensures r != Deleted ==>
               && tree.Contents() == old(tree.Contents()) && bytes == old(bytes)
               && counted == old(counted) && lost == old(lost)
      ensures r == Deleted ==>
                && tree.Contents() == old(tree.Contents()) - {id} && counted == old(counted) - {id}
                && bytes == old(bytes) - size && lost == old(lost) + old(counted)[id] - size
    {
      size := 0;
      NoZero(tree.shape);
      if id == 0 { return NotFound, size; }
      assert allocated(Refs(tree.shape));
      var bundle := tree.Lookup(id);
      if bundle.None? { return NotFound, size; }
      size := bundle.value.payloadLength;
      if bytes < bundle.value.payloadLength { return Aborted, size; }
      Discard(id, bundle.value.payloadLength);
      r := Deleted;
    }

    method Discard(id: nat, size: nat)
      requires Consistent() && 0 < id <= MAX_ID && id in tree.Contents() && size <= bytes
      modifies this`bytes, this`counted, this`lost, tree, Refs(tree.shape)
      ensures Consistent() && tree.Contents() == old(tree.Contents()) - {id} && counted == old(counted) - {id}
      ensures bytes == old(bytes) - size && lost == old(lost) + old(counted)[id] - size
    {
      assert allocated(Refs(tree.shape));
      Release(id, size);
      assert forall n <- Refs(tree.shape) :: n as object != this;
      assert tree.Valid() == old(tree.Valid());
      tree.Remove(id);
    }

    /** The counter goes down by the length of a payload. */
    method Release(id: nat, size: nat)
      requires id in counted && size <= bytes && Counts(bytes, counted, lost)
      modifies this`bytes, this`counted, this`lost
      ensures counted == old(counted) - {id} && bytes == old(bytes) - size
              && lost == old(lost) + old(counted)[id] - size
      ensures Counts(bytes, counted, lost)
    {
      CountsAfterDelete(bytes, counted, lost, id, size);
      lost := lost + counted[id] - size;
      bytes, counted := bytes - size, counted - {id};
    }
  }

  // ---- what the usage counter counts ----

  /** What a deletion comes to. */
  datatype Deletion = NotFound | Deleted | Aborted

  /** The 32-bit counter is the sum of the lengths counted and of what was lost, modulo its width. */
  ghost predicate Counts(bytes: int, counted: map<int, nat>, lost: int) {
    bytes == (Total(counted) + lost) % UINT32
  }

  /** Adding a bundle, also when the counter wraps. */
  lemma CountsAfterAdd(bytes: int, counted: map<int, nat>, lost: int, id: int, length: nat)
    requires id !in counted && Counts(bytes, counted, lost)
    ensures Counts((bytes + length) % UINT32, counted[id := length], lost)
  {
    var after := counted[id := length];
    assert after - {id} == counted;
    TotalWithout(after, id);
    WrappedSum(Total(counted) + lost, length);
  }

  /** Deleting a bundle whose payload has another length than it had. */
  lemma CountsAfterDelete(bytes: int, counted: map<int, nat>, lost: int, id: int, size: nat)
    requires id in counted && Counts(bytes, counted, lost) && size <= bytes
    ensures Counts(bytes - size, counted - {id}, lost + counted[id] - size)
  {
    TotalWithout(counted, id);
    WrappedDifference(Total(counted) + lost, size);
    SmallModulo(bytes - size, UINT32);
  }

  /**
   * While less than 4 GB are stored, the counter is the sum of the lengths counted just when nothing was
   * lost, modulo its width.
   */
  lemma {:induction false} CounterIsSum(bytes: int, counted: map<int, nat>, lost: int)
    requires Counts(bytes, counted, lost) && Total(counted) < UINT32
    ensures bytes == Total(counted) <==> lost % UINT32 == 0
  {
    WrappedDifference(Total(counted) + lost, Total(counted));
    SmallModulo(bytes, UINT32);
    if lost % UINT32 == 0 {
      WrappedSum(lost, Total(counted));
      SmallModulo(Total(counted), UINT32);
    } else if bytes == Total(counted) {
      SmallModulo(0, UINT32);
    }
  }

  /**
   * While the counter is the sum, a bundle whose payload has not grown can be deleted, and the counter
   * stays the sum just when the payload has the length it was counted with.
   */
  lemma {:induction false} DeleteIsCovered(bytes: int, counted: map<int, nat>, lost: int, id: int, size: nat)
    requires Counts(bytes, counted, lost) && Total(counted) < UINT32 && lost % UINT32 == 0
    requires id in counted && size <= counted[id]
    ensures size <= bytes
    ensures bytes - size == Total(counted - {id}) <==> size == counted[id]
  {
    CounterIsSum(bytes, counted, lost);
    TotalWithout(counted, id);
  }

  lemma {:induction false} NoZero(s: Shape)
    requires Within(s, 0, MAX_ID + 1)
    ensures forall i <- ContentsOf(s) :: 0 < i <= MAX_ID
  {
    RefsWithin(s, 0, MAX_ID + 1);
  }

  lemma WrappedSum(a: int, b: int)
    ensures (a % UINT32 + b) % UINT32 == (a + b) % UINT32
  {
    WrappedDifference(a, -b);
  }

  lemma WrappedDifference(a: int, b: int)
    ensures (a % UINT32 - b) % UINT32 == (a - b) % UINT32
  {
    var q := a / UINT32;
    assert a % UINT32 - b == a - b - q * UINT32;
    SameRemainder(a - b, q);
  }

  lemma SameRemainder(a: int, q: int)
    ensures (a - q * UINT32) % UINT32 == a % UINT32
  {
  }
}
