/** Looking up ancestor hashes of a header by number, with a memo that grows as it is asked. */
module HashMemo {
  import opened Outcomes
  import opened Chain

  const ZERO_HASH: Hash := 0

  /** The hash at height `n` below `ref`: what the ancestor one above it calls its parent.
      The header at `n` itself need not be stored. */
  function HashAt(store: Store, ref: Block, n: nat): Hash {
    if n >= ref.number then ZERO_HASH
    else match Ancestor(store, ref, n + 1)
      case None => ZERO_HASH
      case Some(b) => b.parent
  }

  /** Where the ancestor at `n` is stored, it is that ancestor's hash. */
  lemma HashAtIsAncestor(store: Store, ref: Block, n: nat)
    requires WellKeyed(store) && n < ref.number && Ancestor(store, ref, n).Some?
    ensures HashAt(store, ref, n) == Ancestor(store, ref, n).value.hash
  {
    AncestorBetween(store, ref, n + 1, n);
    StepDown(store, ref, n);
  }

  lemma StepDown(store: Store, ref: Block, k: nat)
    requires k < ref.number && Ancestor(store, ref, k + 1).Some?
    ensures Ancestor(store, ref, k) == Parent(store, Ancestor(store, ref, k + 1).value)
  {
    AncestorCompose(store, ref, k + 1, k);
    var b := Ancestor(store, ref, k + 1).value;
    assert Parent(store, b).Some? ==> Ancestor(store, Parent(store, b).value, k) == Parent(store, b);
  }

  lemma MissingBelow(store: Store, ref: Block, k: nat, n: nat)
    requires n < k <= ref.number && Ancestor(store, ref, k).None?
    ensures HashAt(store, ref, n) == ZERO_HASH
  {
    if Ancestor(store, ref, n + 1).Some? { AncestorBetween(store, ref, k, n + 1); }
  }

  /** Nothing is taken out of the store between two questions. */
  ghost predicate Extends(store: Store, later: Store) {
    forall h :: h in store ==> h in later && later[h] == store[h]
  }

  ghost predicate Remembered(store: Store, ref: Block, i: nat, hash: Hash) {
    i < ref.number && Ancestor(store, ref, ref.number - i).Some? && Ancestor(store, ref, ref.number - i).value.parent == hash
  }

  lemma RememberedGrows(store: Store, later: Store, ref: Block, i: nat, hash: Hash)
    requires Extends(store, later) && Remembered(store, ref, i, hash)
    ensures Remembered(later, ref, i, hash)
  {
    AncestorGrows(store, later, ref, ref.number - i);
  }

  /** The closure over `ref`: `cache[i]` is the hash `i + 1` below it. */
  class GetHashFn {
    const ref: Block
    var cache: seq<Hash>
    ghost var seen: Store

    ghost predicate Valid()
      reads this
    {
      forall i :: 0 <= i < |cache| ==> Remembered(seen, ref, i, cache[i])
    }

    constructor (ref: Block)
      ensures Valid() && this.ref == ref && cache == []
    {
      this.ref, cache, seen := ref, [], map[];
    }

    /** Every question, whatever was asked before, gets the answer of a walk from scratch
        through the store as it is now. */
    method Get(store: Store, n: nat) returns (hash: Hash)
      requires Valid() && Extends(seen, store)
      modifies this
      ensures Valid() && seen == store && old(cache) <= cache
      ensures hash == HashAt(store, ref, n)
    {
      forall i | 0 <= i < |cache| ensures Remembered(store, ref, i, cache[i]) {
        RememberedGrows(seen, store, ref, i, cache[i]);
      }
      seen := store;
      if ref.number <= n {
        return ZERO_HASH;
      }
      if |cache| == 0 {
        cache := [ref.parent];
      }
      var idx := ref.number - n - 1;
      if idx < |cache| {
        assert Remembered(store, ref, idx, cache[idx]);
        return cache[idx];
      }
      hash := Walk(store, n);
    }

    /** Goes on from the last hash known. */
    method Walk(store: Store, n: nat) returns (hash: Hash)
      requires Valid() && seen == store && 0 < |cache| <= ref.number - n - 1
      modifies this`cache
      ensures Valid() && old(cache) <= cache
      ensures hash == HashAt(store, ref, n)
    {
      var lastKnownHash, lastKnownNumber := cache[|cache| - 1], ref.number - |cache|;
      while true
        invariant Valid() && old(cache) <= cache && 0 < |cache| <= ref.number - n - 1
        invariant lastKnownHash == cache[|cache| - 1] && lastKnownNumber == ref.number - |cache|
        decreases lastKnownNumber
      {
        assert Remembered(store, ref, |cache| - 1, lastKnownHash);
        StepDown(store, ref, lastKnownNumber);
        var header := GetBlock(store, lastKnownHash, lastKnownNumber);
        if header.None? {
          MissingBelow(store, ref, lastKnownNumber, n);
          return ZERO_HASH;
        }
        assert Remembered(store, ref, |cache|, header.value.parent);
        cache := cache + [header.value.parent];
        lastKnownHash, lastKnownNumber := header.value.parent, header.value.number - 1;
        if n == lastKnownNumber {
          return lastKnownHash;
        }
      }
    }
  }
}
