/** Blocks, the hash-keyed block store, and ancestry in it.

    A block is identified by its hash. The store only ever answers for the pair
    (hash, number), as the database keys do, and it may have holes: a rejected block is
    deleted while its children are still stored. */
module Chain {
  import opened Outcomes

  type Hash = nat
  type Root = nat

  datatype Block = Block(hash: Hash, parent: Hash, number: nat, root: Root)

  type Store = map<Hash, Block>
  type Index = map<nat, Hash>

  ghost predicate WellKeyed(store: Store) {
    forall h :: h in store ==> store[h].hash == h
  }

  /** A stored block's number is its stored parent's plus one. */
  ghost predicate Numbered(store: Store) {
    forall h :: h in store && store[h].parent in store ==> store[store[h].parent].number + 1 == store[h].number
  }

  /** The block is in the store under its own hash. */
  predicate Stored(store: Store, b: Block) {
    b.hash in store && store[b.hash] == b
  }

  function GetBlock(store: Store, hash: Hash, number: int): Option<Block> {
    if hash in store && store[hash].number == number then Some(store[hash]) else None
  }

  function Parent(store: Store, b: Block): Option<Block> {
    GetBlock(store, b.parent, b.number - 1)
  }

  /** The ancestor of `b` at height `n` (`b` itself at its own height), if every step
      down to it is stored. */
  function Ancestor(store: Store, b: Block, n: nat): (r: Option<Block>)
    ensures r.Some? ==> r.value.number == n <= b.number
    decreases b.number
  {
    if n > b.number then None
    else if n == b.number then Some(b)
    else
      match Parent(store, b)
      case None => None
      case Some(p) => Ancestor(store, p, n)
  }

  /** `a` is `b` or an ancestor of `b`. */
  predicate Descends(store: Store, b: Block, a: Block) {
    Ancestor(store, b, a.number) == Some(a)
  }

  function HashOf(b: Option<Block>): Option<Hash> {
    match b
    case None => None
    case Some(x) => Some(x.hash)
  }

  function CanonicalHash(index: Index, n: nat): Option<Hash> {
    if n in index then Some(index[n]) else None
  }

  /** From height `base` up, the index holds exactly the ancestors of `head`, and
      nothing above `head`. */
  ghost predicate Indexes(index: Index, store: Store, base: nat, head: Block) {
    forall n: nat :: n >= base ==> CanonicalHash(index, n) == HashOf(Ancestor(store, head, n))
  }

  // ---------------------------------------------------------------- ancestry

  lemma {:induction false} AncestorCompose(store: Store, b: Block, m: nat, n: nat)
    requires n <= m && Ancestor(store, b, m).Some?
    ensures Ancestor(store, b, n) == Ancestor(store, Ancestor(store, b, m).value, n)
    decreases b.number
  {
    if m < b.number {
      AncestorCompose(store, Parent(store, b).value, m, n);
    }
  }

  /** Below a found ancestor every height in between is found too. */
  lemma {:induction false} AncestorBetween(store: Store, b: Block, m: nat, n: nat)
    requires n <= m <= b.number && Ancestor(store, b, n).Some?
    ensures Ancestor(store, b, m).Some?
    decreases b.number
  {
    if m < b.number {
      AncestorBetween(store, Parent(store, b).value, m, n);
    }
  }

  lemma {:induction false} AncestorStored(store: Store, b: Block, n: nat)
    requires WellKeyed(store) && Stored(store, b) && Ancestor(store, b, n).Some?
    ensures Stored(store, Ancestor(store, b, n).value)
    decreases b.number
  {
    if n < b.number {
      AncestorStored(store, Parent(store, b).value, n);
    }
  }

  /** One step up from height `n` on the path of `b` is a child of the block at `n`. */
  lemma {:induction false} AncestorLinked(store: Store, b: Block, n: nat)
    requires WellKeyed(store) && n < b.number && Ancestor(store, b, n).Some?
    ensures Ancestor(store, b, n + 1).Some?
    ensures Ancestor(store, b, n + 1).value.parent == Ancestor(store, b, n).value.hash
    decreases b.number
  {
    var p := Parent(store, b).value;
    if n + 1 < b.number {
      AncestorLinked(store, p, n);
    }
  }

  lemma DescendsTransitive(store: Store, c: Block, b: Block, a: Block)
    requires Descends(store, c, b) && Descends(store, b, a)
    ensures Descends(store, c, a)
  {
    AncestorCompose(store, c, b.number, a.number);
  }

  /** Two ancestors of one block are comparable. */
  lemma DescendsComparable(store: Store, c: Block, b: Block, a: Block)
    requires Descends(store, c, b) && Descends(store, c, a) && a.number <= b.number
    ensures Descends(store, b, a)
  {
    AncestorCompose(store, c, b.number, a.number);
  }

  // ------------------------------------------------- ancestry when the store changes

  lemma {:induction false} AncestorGrows(store: Store, store': Store, b: Block, n: nat)
    requires forall h :: h in store ==> h in store' && store'[h] == store[h]
    requires Ancestor(store, b, n).Some?
    ensures Ancestor(store', b, n) == Ancestor(store, b, n)
    decreases b.number
  {
    if n < b.number {
      AncestorGrows(store, store', Parent(store, b).value, n);
    }
  }

  /** Deleting a block that is not strictly below `b` on its path to height `n` keeps
      the path. */
  lemma {:induction false} AncestorSurvives(store: Store, gone: Hash, b: Block, n: nat)
    requires WellKeyed(store) && Ancestor(store, b, n).Some?
    requires forall m: nat :: n <= m < b.number && Ancestor(store, b, m).Some?
               ==> Ancestor(store, b, m).value.hash != gone
    ensures Ancestor(store - {gone}, b, n) == Ancestor(store, b, n)
    decreases b.number
  {
    if n < b.number {
      var p := Parent(store, b).value;
      assert Ancestor(store, b, p.number) == Some(p);
      forall m: nat | n <= m < p.number && Ancestor(store, p, m).Some?
        ensures Ancestor(store, p, m).value.hash != gone
      {
        assert Ancestor(store, b, m) == Ancestor(store, p, m);
      }
      AncestorSurvives(store, gone, p, n);
    }
  }
}
