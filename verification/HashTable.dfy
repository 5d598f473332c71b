/**
 * The chained hash table (components/upcn/simplehtab.c, lines 67-206): it acts as a map from strings to
 * values, for every run of additions, lookups and removals.
 */
module HashTable {
  import opened Basics
  import opened HashLittle

  type Key = seq<byte>

  /** An element of a chain. */
  datatype Pair<V> = Pair(key: Key, value: V)

  // ---- chains ----

  function Find<V>(chain: seq<Pair<V>>, key: Key): Option<V> {
    if chain == [] then None else if chain[0].key == key then Some(chain[0].value) else Find(chain[1..], key)
  }

  function Unlink<V>(chain: seq<Pair<V>>, key: Key): seq<Pair<V>> {
    if chain == [] then [] else if chain[0].key == key then chain[1..] else [chain[0]] + Unlink(chain[1..], key)
  }

  ghost predicate DistinctKeys<V>(chain: seq<Pair<V>>) {
    forall i, j :: 0 <= i < j < |chain| ==> chain[i].key != chain[j].key
  }

  lemma {:induction false} FindAbsent<V>(chain: seq<Pair<V>>, key: Key)
    ensures Find(chain, key) == None <==> forall i :: 0 <= i < |chain| ==> chain[i].key != key
  {
    if chain != [] && chain[0].key != key {
      FindAbsent(chain[1..], key);
      forall i | 0 < i < |chain| ensures chain[i] == chain[1..][i - 1] {}
      assert forall i :: 0 <= i < |chain| - 1 ==> chain[1..][i] == chain[i + 1];
    }
  }

  lemma {:induction false} FindAppend<V>(chain: seq<Pair<V>>, p: Pair<V>, key: Key)
    ensures Find(chain + [p], key) ==
            if Find(chain, key) != None then Find(chain, key) else if p.key == key then Some(p.value) else None
  {
    if chain == [] {
      assert chain + [p] == [p] && [p][1..] == [];
      assert Find([p][1..], key) == None;
    } else {
      assert (chain + [p])[1..] == chain[1..] + [p];
      FindAppend(chain[1..], p, key);
    }
  }

  lemma {:induction false} FindUnlink<V>(chain: seq<Pair<V>>, gone: Key, key: Key)
    requires DistinctKeys(chain)
    ensures Find(Unlink(chain, gone), key) == if key == gone then None else Find(chain, key)
  {
    if chain != [] {
      if chain[0].key == gone {
        if key == gone {
          forall i | 0 <= i < |chain[1..]| ensures chain[1..][i].key != key { assert chain[1..][i] == chain[i + 1]; }
          FindAbsent(chain[1..], key);
        }
      } else {
        FindUnlink(chain[1..], gone, key);
        assert ([chain[0]] + Unlink(chain[1..], gone))[1..] == Unlink(chain[1..], gone);
      }
    }
  }

  lemma {:induction false} UnlinkKeeps<V>(chain: seq<Pair<V>>, key: Key)
    requires DistinctKeys(chain)
    ensures DistinctKeys(Unlink(chain, key)) && forall p <- Unlink(chain, key) :: p in chain
  {
    if chain != [] && chain[0].key != key {
      UnlinkKeeps(chain[1..], key);
      var rest := Unlink(chain[1..], key);
      forall i | 0 <= i < |rest| ensures rest[i].key != chain[0].key {
        assert rest[i] in rest;
        assert rest[i] in chain[1..];
        var j :| 0 <= j < |chain[1..]| && chain[1..][j] == rest[i];
        assert chain[j + 1] == rest[i];
      }
    }
  }

  // ---- the table ----

  /** The slot of a key: the hash is cut to 16 bits first. */
  function Slot(key: Key, slots: nat): (i: nat)
    requires slots > 0
    ensures i < slots
  {
    Hash(key, 0) % 0x1_0000 % slots
  }

  ghost predicate ChainOk<V>(chain: seq<Pair<V>>, i: nat, slots: nat)
    requires slots > 0
  {
    DistinctKeys(chain) && forall p <- chain :: Slot(p.key, slots) == i
  }

  /** Where a string lies in memory, and what is behind it. */
  datatype Place = Place(address: nat, beyond: seq<byte>)

  class Table<V> {
    const slots: array<seq<Pair<V>>>

    ghost predicate Valid()
      reads this, slots
    {
      slots.Length > 0 && forall i :: 0 <= i < slots.Length ==> ChainOk(slots[i], i, slots.Length)
    }

    /** The value of a key. */
    ghost function Lookup(key: Key): Option<V>
      requires slots.Length > 0
      reads this, slots
    {
      Find(slots[Slot(key, slots.Length)], key)
    }

    /** htab_init */
    constructor (slotCount: nat)
      requires 0 < slotCount < 0x1_0000
      ensures Valid() && fresh(slots) && forall key :: Lookup(key) == None
    {
      slots := new seq<Pair<V>>[slotCount](_ => []);
    }

    /** HASH, reduced to a slot; the address of the string decides how it is read */
    method SlotOf(key: Key, at: Place) returns (i: nat)
      requires slots.Length > 0 && |at.beyond| >= 3
      ensures i == Slot(key, slots.Length)
    {
      var mem := key + at.beyond;
      assert mem[..|key|] == key;
      var h := HashKey(at.address, mem, |key|, 0, Mixer(Mix, Final));
      i := h % 0x1_0000 % slots.Length;
    }

    /** get_elist_ptr_by_hash: the place of the key in the chain, or its end */
    method Search(i: nat, key: Key) returns (k: nat)
      requires slots.Length > 0 && i < slots.Length
      ensures k <= |slots[i]|
      ensures k == |slots[i]| <==> Find(slots[i], key) == None
      ensures k < |slots[i]| ==> Find(slots[i], key) == Some(slots[i][k].value)
      ensures k < |slots[i]| ==> Unlink(slots[i], key) == slots[i][..k] + slots[i][k + 1..]
    {
      k := 0;
      var chain := slots[i];
      assert chain[0..] == chain;
      while k < |chain| && chain[k].key != key
        invariant k <= |chain| && Find(chain[k..], key) == Find(chain, key)
        invariant Unlink(chain, key) == chain[..k] + Unlink(chain[k..], key)
      {
        assert chain[k..][0] == chain[k] && chain[k..][1..] == chain[k + 1..];
        assert chain[..k + 1] == chain[..k] + [chain[k]];
        k := k + 1;
      }
      if k < |chain| { assert chain[k..][0] == chain[k] && chain[k..][1..] == chain[k + 1..]; }
    }

    /** htab_add: an existing key keeps its value */
    method Add(key: Key, at: Place, value: V) returns (added: bool)
      requires Valid() && |at.beyond| >= 3
      modifies slots
      ensures Valid() && added == (old(Lookup(key)) == None)
      ensures forall k :: Lookup(k) == if k == key && added then Some(value) else old(Lookup(k))
    {
      var i := SlotOf(key, at);
      var k := Search(i, key);
      if k < |slots[i]| { return false; }
      FindAbsent(slots[i], key);
      forall x ensures Find(slots[i] + [Pair(key, value)], x) ==
                       if Find(slots[i], x) != None then Find(slots[i], x) else if key == x then Some(value) else None {
        FindAppend(slots[i], Pair(key, value), x);
      }
      slots[i] := slots[i] + [Pair(key, value)];
      added := true;
    }

    /** htab_get */
    method Get(key: Key, at: Place) returns (r: Option<V>)
      requires Valid() && |at.beyond| >= 3
      ensures r == Lookup(key)
    {
      var i := SlotOf(key, at);
      var k := Search(i, key);
      r := if k < |slots[i]| then Some(slots[i][k].value) else None;
    }

    /** htab_remove */
    method RemoveKey(key: Key, at: Place) returns (r: Option<V>)
      requires Valid() && |at.beyond| >= 3
      modifies slots
      ensures Valid() && r == old(Lookup(key))
      ensures forall k :: Lookup(k) == if k == key then None else old(Lookup(k))
    {
      var i := SlotOf(key, at);
      var k := Search(i, key);
      if k == |slots[i]| { return None; }
      r := Some(slots[i][k].value);
      UnlinkKeeps(slots[i], key);
      forall x ensures Find(Unlink(slots[i], key), x) == if x == key then None else Find(slots[i], x) {
        FindUnlink(slots[i], key, x);
      }
      slots[i] := slots[i][..k] + slots[i][k + 1..];
    }
  }
}
