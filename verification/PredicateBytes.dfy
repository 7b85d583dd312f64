/** Predicates travel in a transaction's access list, packed into 32-byte storage keys. */
module PredicateBytes {
  import opened Outcomes
  import opened Wire

  const END_BYTE: byte := 0xff
  const WORD: nat := 32

  datatype UnpackError = AllZeroBytes | InvalidPadding | InvalidEndDelimiter

  function PaddedLength(n: nat): nat { (n + 31) / 32 * 32 }

  function Zeros(n: nat): seq<byte> { seq(n, i => 0) }

  /** Zeros on the right up to the next multiple of 32. */
  function Padded(b: seq<byte>): seq<byte> {
    b + Zeros(PaddedLength(|b|) - |b|)
  }

  function Pack(message: seq<byte>): seq<byte> {
    Padded(message + [END_BYTE])
  }

  function TrimRightZeroes(b: seq<byte>): seq<byte> {
    if |b| > 0 && b[|b| - 1] == 0 then TrimRightZeroes(b[..|b| - 1]) else b
  }

  function Unpack(padded: seq<byte>): Result<seq<byte>, UnpackError> {
    var trimmed := TrimRightZeroes(padded);
    if |trimmed| == 0 then Err(AllZeroBytes)
    else if PaddedLength(|trimmed|) != |padded| then Err(InvalidPadding)
    else if trimmed[|trimmed| - 1] != END_BYTE then Err(InvalidEndDelimiter)
    else Ok(trimmed[..|trimmed| - 1])
  }

  lemma {:induction false} TrimZeros(b: seq<byte>, n: nat)
    requires |b| > 0 ==> b[|b| - 1] != 0
    ensures TrimRightZeroes(b + Zeros(n)) == b
  {
    if n == 0 {
      assert b + Zeros(0) == b;
    } else {
      assert (b + Zeros(n))[..|b| + n - 1] == b + Zeros(n - 1);
      TrimZeros(b, n - 1);
    }
  }

  lemma {:induction false} TrimmedWas(b: seq<byte>)
    ensures |TrimRightZeroes(b)| <= |b| && b == TrimRightZeroes(b) + Zeros(|b| - |TrimRightZeroes(b)|)
  {
    if |b| > 0 && b[|b| - 1] == 0 {
      TrimmedWas(b[..|b| - 1]);
      assert b == b[..|b| - 1] + [0];
    }
  }

  /** Unpacking accepts exactly the packings, each as the predicate it came from. */
  lemma UnpackIffPacked(padded: seq<byte>, message: seq<byte>)
    ensures Unpack(padded) == Ok(message) <==> padded == Pack(message)
  {
    var b := message + [END_BYTE];
    TrimZeros(b, PaddedLength(|b|) - |b|);
    assert b[..|b| - 1] == message;
    if Unpack(padded) == Ok(message) {
      TrimmedWas(padded);
      var t := TrimRightZeroes(padded);
      assert t == t[..|t| - 1] + [t[|t| - 1]] == b;
    }
  }

  // ------------------------------------------------------------- storage keys

  ghost predicate Words(hashes: seq<seq<byte>>) {
    forall i :: 0 <= i < |hashes| ==> |hashes[i]| == WORD
  }

  function Flatten(hashes: seq<seq<byte>>): seq<byte> {
    if |hashes| == 0 then [] else Flatten(hashes[..|hashes| - 1]) + hashes[|hashes| - 1]
  }

  lemma {:induction false} FlattenLength(hashes: seq<seq<byte>>)
    requires Words(hashes)
    ensures |Flatten(hashes)| == WORD * |hashes|
  {
    if |hashes| > 0 { FlattenLength(hashes[..|hashes| - 1]); }
  }

  /** Writes each hash at its place in a zeroed buffer. */
  method HashSliceToBytes(hashes: seq<seq<byte>>) returns (b: seq<byte>)
    requires Words(hashes)
    ensures b == Flatten(hashes)
  {
    var out := new byte[WORD * |hashes|];
    for i := 0 to |hashes|
      invariant out[..WORD * i] == Flatten(hashes[..i])
    {
      assert hashes[..i + 1][..i] == hashes[..i];
      Put(out, WORD * i, hashes[i]);
    }
    assert hashes[..|hashes|] == hashes;
    b := out[..];
  }

  /** Words can be told apart after gluing them together. */
  lemma {:induction false} FlattenInjective(hashes: seq<seq<byte>>, hashes': seq<seq<byte>>)
    requires Words(hashes) && Words(hashes') && Flatten(hashes) == Flatten(hashes')
    ensures hashes == hashes'
  {
    FlattenLength(hashes);
    FlattenLength(hashes');
    if |hashes| > 0 {
      var n := |hashes| - 1;
      var a, b, x, y := Flatten(hashes[..n]), Flatten(hashes'[..n]), hashes[n], hashes'[n];
      FlattenLength(hashes[..n]);
      FlattenLength(hashes'[..n]);
      assert a == (a + x)[..|a|] && b == (b + y)[..|b|] && x == (a + x)[|a|..] && y == (b + y)[|b|..];
      FlattenInjective(hashes[..n], hashes'[..n]);
      assert hashes == hashes[..n] + [x] && hashes' == hashes'[..n] + [y];
    }
  }

  lemma PaddedWords(b: seq<byte>, n: nat)
    requires |b| == 32 * n
    ensures Padded(b) == b
  {
    assert PaddedLength(|b|) == |b|;
    assert Zeros(0) == [];
  }

  /** Cutting undoes gluing: the only words that glue to the padded bytes of some words are
      those words. */
  lemma CutUndoesGlue(hashes: seq<seq<byte>>, cut: seq<seq<byte>>)
    requires Words(hashes) && Words(cut) && Flatten(cut) == Padded(Flatten(hashes))
    ensures cut == hashes
  {
    FlattenLength(hashes);
    PaddedWords(Flatten(hashes), |hashes|);
    FlattenInjective(cut, hashes);
  }

  /** The `i`th word of `b`, with zeros where `b` has ended. */
  function WordAt(b: seq<byte>, i: nat): seq<byte>
    requires WORD * i <= |b|
  {
    var rest := b[WORD * i..];
    if |rest| >= WORD then rest[..WORD] else rest + Zeros(WORD - |rest|)
  }

  /** Cuts the bytes into words. Gluing the words together gives the bytes back, padded. */
  method BytesToHashSlice(b: seq<byte>) returns (hashes: seq<seq<byte>>)
    ensures Words(hashes) && Flatten(hashes) == Padded(b)
  {
    var n := (|b| + 31) / 32;
    hashes := [];
    for i := 0 to n
      invariant |hashes| == i && Words(hashes)
      invariant Flatten(hashes) == Padded(b)[..WORD * i]
    {
      var word := WordAt(b, i);
      assert (hashes + [word])[..i] == hashes;
      assert Padded(b)[..WORD * (i + 1)] == Padded(b)[..WORD * i] + word;
      hashes := hashes + [word];
    }
    assert Padded(b)[..WORD * n] == Padded(b);
  }

  // ------------------------------------------------------------- access lists

  type Address = nat

  datatype AccessTuple = AccessTuple(address: Address, storageKeys: seq<seq<byte>>)

  type Slots = map<Address, seq<seq<byte>>>

  ghost predicate WellTyped(list: seq<AccessTuple>) {
    forall i :: 0 <= i < |list| ==> Words(list[i].storageKeys)
  }

  /** The byte strings listed for one address, in order. */
  function ListedFor(list: seq<AccessTuple>, a: Address): seq<seq<byte>> {
    if |list| == 0 then [] else
      var before, last := ListedFor(list[..|list| - 1], a), list[|list| - 1];
      if last.address == a then before + [Flatten(last.storageKeys)] else before
  }

  /** Groups the predicates by address, each group in the order of the list; only addresses
      with a predicater are kept. */
  method PreparePredicateStorageSlots(predicaters: set<Address>, list: seq<AccessTuple>) returns (slots: Slots)
    requires WellTyped(list)
    ensures forall a :: a in slots <==> a in predicaters && ListedFor(list, a) != []
    ensures forall a :: a in slots ==> slots[a] == ListedFor(list, a)
  {
    slots := map[];
    for i := 0 to |list|
      invariant forall a :: a in slots <==> a in predicaters && ListedFor(list[..i], a) != []
      invariant forall a :: a in slots ==> slots[a] == ListedFor(list[..i], a)
    {
      assert list[..i + 1][..i] == list[..i];
      var el := list[i];
      if el.address !in predicaters {
        continue;
      }
      var b := HashSliceToBytes(el.storageKeys);
      slots := slots[el.address := (if el.address in slots then slots[el.address] else []) + [b]];
    }
    assert list[..|list|] == list;
  }

  /** The access list of a transaction that carries a predicate. */
  method NewPredicateTx(list: seq<AccessTuple>, address: Address, message: seq<byte>) returns (r: seq<AccessTuple>)
    requires WellTyped(list)
    ensures WellTyped(r) && |r| == |list| + 1 && r[..|list|] == list
    ensures ListedFor(r, address) == ListedFor(list, address) + [Pack(message)]
    ensures forall a :: a != address ==> ListedFor(r, a) == ListedFor(list, a)
  {
    var keys := BytesToHashSlice(Pack(message));
    PackedIsPadded(message);
    r := list + [AccessTuple(address, keys)];
    assert r[..|list|] == list;
  }

  lemma PackedIsPadded(message: seq<byte>)
    ensures Padded(Pack(message)) == Pack(message)
  {
  }

  datatype Predicate = Predicate(address: Address, message: seq<byte>)

  /** The messages for one address, in order. */
  function MessagesFor(predicates: seq<Predicate>, a: Address): seq<seq<byte>> {
    if |predicates| == 0 then [] else
      var before, last := MessagesFor(predicates[..|predicates| - 1], a), predicates[|predicates| - 1];
      if last.address == a then before + [last.message] else before
  }

  function Packed(messages: seq<seq<byte>>): (r: seq<seq<byte>>)
    ensures |r| == |messages| && forall i :: 0 <= i < |r| ==> r[i] == Pack(messages[i])
  {
    if |messages| == 0 then [] else Packed(messages[..|messages| - 1]) + [Pack(messages[|messages| - 1])]
  }

  lemma PackedAppend(messages: seq<seq<byte>>, message: seq<byte>)
    ensures Packed(messages + [message]) == Packed(messages) + [Pack(message)]
  {
    assert (messages + [message])[..|messages|] == messages;
  }

  /** Any number of predicates, for any addresses, added one after the other. */
  method AddPredicates(list: seq<AccessTuple>, predicates: seq<Predicate>) returns (r: seq<AccessTuple>)
    requires WellTyped(list)
    ensures WellTyped(r) && Carries(list, predicates, r)
  {
    r := list;
    CarriesNone(list);
    assert predicates[..0] == [];
    for i := 0 to |predicates|
      invariant WellTyped(r) && Carries(list, predicates[..i], r)
    {
      ghost var before := r;
      r := NewPredicateTx(r, predicates[i].address, predicates[i].message);
      assert predicates[..i] + [predicates[i]] == predicates[..i + 1];
      CarriesNext(list, predicates[..i], predicates[i], before, r);
    }
    assert predicates[..|predicates|] == predicates;
  }

  /** For every address the list has its packed messages after what was there. */
  ghost predicate Carries(list: seq<AccessTuple>, predicates: seq<Predicate>, r: seq<AccessTuple>) {
    forall a :: ListedFor(r, a) == ListedFor(list, a) + Packed(MessagesFor(predicates, a))
  }

  lemma CarriesNone(list: seq<AccessTuple>)
    ensures Carries(list, [], list)
  {
    forall a ensures ListedFor(list, a) == ListedFor(list, a) + Packed(MessagesFor([], a)) {}
  }

  lemma CarriesNext(list: seq<AccessTuple>, predicates: seq<Predicate>, p: Predicate, r: seq<AccessTuple>, r': seq<AccessTuple>)
    requires Carries(list, predicates, r)
    requires ListedFor(r', p.address) == ListedFor(r, p.address) + [Pack(p.message)]
    requires forall a :: a != p.address ==> ListedFor(r', a) == ListedFor(r, a)
    ensures Carries(list, predicates + [p], r')
  {
    assert (predicates + [p])[..|predicates|] == predicates;
    PackedAppend(MessagesFor(predicates, p.address), p.message);
  }

  /** From the callers to the precompiles: every address with a predicater receives exactly its
      messages, in order, and an address without messages or without a predicater nothing. */
  method PredicatesArrive(predicaters: set<Address>, predicates: seq<Predicate>) returns (slots: Slots)
    ensures forall a :: a in slots <==> a in predicaters && MessagesFor(predicates, a) != []
    ensures forall a :: a in slots ==> Unpacked(slots[a], MessagesFor(predicates, a))
  {
    var r := AddPredicates([], predicates);
    slots := PreparePredicateStorageSlots(predicaters, r);
    forall a ensures ListedFor(r, a) == Packed(MessagesFor(predicates, a)) {
      assert ListedFor(r, a) == ListedFor([], a) + Packed(MessagesFor(predicates, a));
      assert ListedFor([], a) + Packed(MessagesFor(predicates, a)) == Packed(MessagesFor(predicates, a));
    }
    forall a | a in slots ensures Unpacked(slots[a], MessagesFor(predicates, a)) {
      PackedUnpacks(MessagesFor(predicates, a));
    }
  }

  /** Each byte string unpacks to the message at its place. */
  ghost predicate Unpacked(packed: seq<seq<byte>>, messages: seq<seq<byte>>) {
    |packed| == |messages| && forall i :: 0 <= i < |packed| ==> Unpack(packed[i]) == Ok(messages[i])
  }

  lemma PackedUnpacks(messages: seq<seq<byte>>)
    ensures Unpacked(Packed(messages), messages)
  {
    forall i | 0 <= i < |messages| ensures Unpack(Packed(messages)[i]) == Ok(messages[i]) {
      UnpackIffPacked(Pack(messages[i]), messages[i]);
    }
  }
}
