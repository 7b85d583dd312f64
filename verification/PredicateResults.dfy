/** Bytes, big-endian integers, and the byte order on keys. */
module Wire {
  type byte = b: int | 0 <= b < 256

  const TWO_32: nat := 0x1_0000_0000

  /** A 32-bit unsigned integer, truncating as the conversion does. */
  function U32(n: nat): (s: seq<byte>)
    ensures |s| == 4
  {
    [n / 256 / 256 / 256 % 256, n / 256 / 256 % 256, n / 256 % 256, n % 256]
  }

  function ReadU32(s: seq<byte>): nat
    requires |s| >= 4
  {
    ((s[0] as int * 256 + s[1]) * 256 + s[2]) * 256 + s[3]
  }

  lemma U32RoundTrip(n: nat, rest: seq<byte>)
    requires n < TWO_32
    ensures ReadU32(U32(n) + rest) == n
  {
  }

  /** Byte-wise comparison of keys of the same length. */
  predicate LexLess(a: seq<byte>, b: seq<byte>)
    decreases |a|
  {
    |b| > 0 && (|a| == 0 || a[0] < b[0] || (a[0] == b[0] && LexLess(a[1..], b[1..])))
  }

  lemma {:induction false} LexTotal(a: seq<byte>, b: seq<byte>)
    ensures LexLess(a, b) || LexLess(b, a) || a == b
    ensures !(LexLess(a, b) && LexLess(b, a)) && !LexLess(a, a)
    decreases |a|
  {
    if |a| > 0 {
      LexTotal(a[1..], a[1..]);
      if |b| > 0 && a[0] == b[0] {
        LexTotal(a[1..], b[1..]);
        assert a[1..] == b[1..] ==> a == [a[0]] + a[1..] == [b[0]] + b[1..] == b;
      }
    }
  }

  lemma {:induction false} LexTransitive(a: seq<byte>, b: seq<byte>, c: seq<byte>)
    requires LexLess(a, b) && LexLess(b, c)
    ensures LexLess(a, c)
    decreases |a|
  {
    if |a| > 0 && a[0] == b[0] == c[0] {
      LexTransitive(a[1..], b[1..], c[1..]);
    }
  }

  ghost predicate Sorted(s: seq<seq<byte>>) {
    forall i, j :: 0 <= i < j < |s| ==> LexLess(s[i], s[j])
  }

  function Elements<K>(s: seq<K>): set<K> { set k | k in s }

  /** Keys have one sorted order. */
  lemma {:induction false} SortedUnique(s: seq<seq<byte>>, t: seq<seq<byte>>)
    requires Sorted(s) && Sorted(t) && Elements(s) == Elements(t)
    ensures s == t
  {
    NoElements(s);
    NoElements(t);
    if |s| > 0 {
      assert s[0] in Elements(t);
      assert t[0] in Elements(s);
      FirstIsLeast(s, t[0]);
      FirstIsLeast(t, s[0]);
      LexTotal(s[0], t[0]);
      RestElements(s);
      RestElements(t);
      SortedUnique(s[1..], t[1..]);
      assert s == [s[0]] + s[1..] && t == [t[0]] + t[1..];
    }
  }

  lemma NoElements(s: seq<seq<byte>>)
    ensures Elements(s) == {} <==> s == []
  {
    if s != [] { assert s[0] in Elements(s); }
  }

  lemma {:induction false} SortedLength(s: seq<seq<byte>>)
    requires Sorted(s)
    ensures |Elements(s)| == |s|
  {
    if |s| == 0 {
      assert Elements(s) == {};
    } else {
      RestElements(s);
      SortedLength(s[1..]);
      assert s[0] in Elements(s);
    }
  }

  lemma FirstIsLeast(s: seq<seq<byte>>, k: seq<byte>)
    requires Sorted(s) && k in s
    ensures k == s[0] || LexLess(s[0], k)
  {
  }

  lemma RestElements(s: seq<seq<byte>>)
    requires Sorted(s) && |s| > 0
    ensures Sorted(s[1..]) && Elements(s[1..]) == Elements(s) - {s[0]}
  {
    LexTotal(s[0], s[0]);
    forall k | k in s && k != s[0] ensures k in s[1..] {
      var i :| 0 <= i < |s| && s[i] == k;
      assert s[1..][i - 1] == k;
    }
    forall k | k in s[1..] ensures k in s && k != s[0] {
      var i :| 0 <= i < |s[1..]| && s[1..][i] == k;
      assert s[i + 1] == k;
    }
  }

  /** Puts a new key in its place. */
  method InsertSorted(s: seq<seq<byte>>, k: seq<byte>) returns (r: seq<seq<byte>>)
    requires Sorted(s) && k !in s
    ensures Sorted(r) && Elements(r) == Elements(s) + {k}
  {
    var i := |s|;
    while i > 0 && LexLess(k, s[i - 1])
      invariant 0 <= i <= |s|
      invariant forall j :: i <= j < |s| ==> LexLess(k, s[j])
    {
      i := i - 1;
    }
    r := s[..i] + [k] + s[i..];
    Placed(s, k, i);
  }

  lemma Placed(s: seq<seq<byte>>, k: seq<byte>, i: nat)
    requires Sorted(s) && k !in s && i <= |s|
    requires forall j :: i <= j < |s| ==> LexLess(k, s[j])
    requires i > 0 ==> !LexLess(k, s[i - 1])
    ensures var r := s[..i] + [k] + s[i..]; Sorted(r) && Elements(r) == Elements(s) + {k}
  {
    forall j | 0 <= j < i ensures LexLess(s[j], k) {
      LexTotal(k, s[i - 1]);
      if j < i - 1 { LexTransitive(s[j], s[i - 1], k); }
    }
    PlacedSorted(s, k, i);
    PlacedElements(s, k, i);
  }

  lemma PlacedSorted(s: seq<seq<byte>>, k: seq<byte>, i: nat)
    requires Sorted(s) && i <= |s|
    requires forall j :: 0 <= j < i ==> LexLess(s[j], k)
    requires forall j :: i <= j < |s| ==> LexLess(k, s[j])
    ensures Sorted(s[..i] + [k] + s[i..])
  {
  }

  lemma PlacedElements<T>(s: seq<T>, k: T, i: nat)
    requires i <= |s|
    ensures Elements(s[..i] + [k] + s[i..]) == Elements(s) + {k}
  {
    var r := s[..i] + [k] + s[i..];
    forall e ensures e in r <==> e in s || e == k {
      assert s == s[..i] + s[i..];
      assert r[i] == k;
    }
  }

  /** The keys of a map, visited in any order, in sorted order. */
  method SortKeys(keys: set<seq<byte>>) returns (s: seq<seq<byte>>)
    ensures Sorted(s) && Elements(s) == keys
  {
    s := [];
    var rest := keys;
    while rest != {}
      invariant rest <= keys && Sorted(s) && Elements(s) == keys - rest
    {
      var k :| k in rest;
      assert k !in Elements(s);
      s := InsertSorted(s, k);
      rest := rest - {k};
    }
  }

  ghost function SortedKeys(keys: set<seq<byte>>): (s: seq<seq<byte>>)
    ensures Sorted(s) && Elements(s) == keys
  {
    SortedExists(keys);
    var s :| Sorted(s) && Elements(s) == keys;
    s
  }

  lemma {:induction false} SortedExists(keys: set<seq<byte>>)
    ensures exists s :: Sorted(s) && Elements(s) == keys
  {
    if keys == {} {
      assert Sorted([]) && Elements<seq<byte>>([]) == keys;
    } else {
      var k :| k in keys;
      SortedExists(keys - {k});
      var s :| Sorted(s) && Elements(s) == keys - {k};
      assert k !in Elements(s);
      var i := PlaceFor(s, k, |s|);
      Placed(s, k, i);
    }
  }

  lemma {:induction false} PlaceFor(s: seq<seq<byte>>, k: seq<byte>, n: nat) returns (i: nat)
    requires Sorted(s) && n <= |s| && forall j :: n <= j < |s| ==> LexLess(k, s[j])
    ensures i <= |s| && (forall j :: i <= j < |s| ==> LexLess(k, s[j])) && (i > 0 ==> !LexLess(k, s[i - 1]))
  {
    if n > 0 && LexLess(k, s[n - 1]) { i := PlaceFor(s, k, n - 1); } else { i := n; }
  }

  /** Copies into the buffer; what is before stays. */
  method Put(out: array<byte>, off: nat, data: seq<byte>)
    requires off + |data| <= out.Length
    modifies out
    ensures out[..off + |data|] == old(out[..off]) + data
  {
    for i := 0 to |data|
      invariant out[..off + i] == old(out[..off]) + data[..i]
    {
      out[off + i] := data[i];
      assert data[..i + 1] == data[..i] + [data[i]];
    }
    assert data[..|data|] == data;
  }
}

/** Sums over the keys of a map, in whatever order they come. */
module Sums {
  ghost function SumOver<K(!new)>(f: K -> nat, keys: set<K>): nat {
    if keys == {} then 0 else
      var k :| k in keys;
      f(k) + SumOver(f, keys - {k})
  }

  lemma {:induction false} SumRemove<K(!new)>(f: K -> nat, keys: set<K>, k: K)
    requires k in keys
    ensures SumOver(f, keys) == f(k) + SumOver(f, keys - {k})
    decreases |keys|
  {
    var j :| j in keys && SumOver(f, keys) == f(j) + SumOver(f, keys - {j});
    if j != k {
      SumRemove(f, keys - {j}, k);
      SumRemove(f, keys - {k}, j);
      assert keys - {j} - {k} == keys - {k} - {j};
    }
  }

  lemma {:induction false} SumCongruent<K(!new)>(f: K -> nat, g: K -> nat, keys: set<K>)
    requires forall k :: k in keys ==> f(k) == g(k)
    ensures SumOver(f, keys) == SumOver(g, keys)
  {
    if keys != {} {
      var k :| k in keys;
      SumRemove(f, keys, k);
      SumRemove(g, keys, k);
      SumCongruent(f, g, keys - {k});
    }
  }
}

/** The predicates' verdicts on the transactions of a block, and their encoding in the block
    header's extra data. */
module PredicateResults {
  import opened Outcomes
  import opened Wire
  import opened Sums

  const VERSION: nat := 0
  const MAX_RESULTS_SIZE: nat := 1024 * 1024

  const HASH_LEN: nat := 32
  const ADDR_LEN: nat := 20

  type TxResults = map<seq<byte>, seq<byte>>
  type Results = map<seq<byte>, TxResults>

  /** Transactions are keyed by their 32-byte hash, verdicts by 20-byte address. */
  ghost predicate Addressed(m: TxResults) {
    forall a :: a in m ==> |a| == ADDR_LEN
  }

  ghost predicate Typed(r: Results) {
    forall h :: h in r ==> |h| == HASH_LEN && Addressed(r[h])
  }

  datatype ResultsError = ShortBuffer | TooLarge | BadVersion

  function SetTxResults(results: Results, hash: seq<byte>, r: TxResults): Results {
    if r == map[] then results - {hash} else results[hash := r]
  }

  function DeleteTxResults(results: Results, hash: seq<byte>): Results {
    results - {hash}
  }

  /** Deleting the entry of a transaction that failed leaves the rest as it was before exactly
      if the transaction had no entry then. */
  lemma DeleteUndoesSet(results: Results, hash: seq<byte>, r: TxResults)
    ensures DeleteTxResults(SetTxResults(results, hash, r), hash) == results <==> hash !in results
  {
    if hash in results {
      assert hash !in DeleteTxResults(SetTxResults(results, hash, r), hash);
    }
  }

  // ------------------------------------------------------------- the format

  function Entry(m: TxResults, a: seq<byte>): seq<byte>
    requires a in m
  {
    a + U32(|m[a]|) + m[a]
  }

  function Entries(m: TxResults, addrs: seq<seq<byte>>): seq<byte>
    requires forall a :: a in addrs ==> a in m
  {
    if |addrs| == 0 then [] else Entry(m, addrs[0]) + Entries(m, addrs[1..])
  }

  function TxHeader(r: Results, h: seq<byte>): seq<byte>
    requires h in r
  {
    h + U32(|r[h]|)
  }

  ghost function Txs(r: Results, hashes: seq<seq<byte>>): seq<byte>
    requires forall h :: h in hashes ==> h in r
  {
    if |hashes| == 0 then [] else
      TxHeader(r, hashes[0]) + SortedEntries(r[hashes[0]]) + Txs(r, hashes[1..])
  }

  ghost function SortedEntries(m: TxResults): seq<byte> {
    InElements(SortedKeys(m.Keys));
    Entries(m, SortedKeys(m.Keys))
  }

  lemma InElements(s: seq<seq<byte>>)
    ensures forall k :: k in s ==> k in Elements(s)
  {
  }

  function Header(r: Results): seq<byte> { [0, VERSION] + U32(|r|) }

  /** The encoding: every map in the order of its keys. */
  ghost function Encode(r: Results): seq<byte> {
    InElements(SortedKeys(r.Keys));
    Header(r) + Txs(r, SortedKeys(r.Keys))
  }

  // ------------------------------------------------------------- its size

  function EntrySize(m: TxResults): seq<byte> -> nat {
    a => if a in m then ADDR_LEN + 4 + |m[a]| else 0
  }

  ghost function InnerSize(m: TxResults): nat { SumOver(EntrySize(m), m.Keys) }

  ghost function TxSize(r: Results): seq<byte> -> nat {
    h => if h in r then HASH_LEN + 4 + InnerSize(r[h]) else 0
  }

  ghost function OuterSize(r: Results): nat { SumOver(TxSize(r), r.Keys) }

  lemma {:induction false} EntriesSize(m: TxResults, addrs: seq<seq<byte>>)
    requires Addressed(m) && Sorted(addrs) && Elements(addrs) <= m.Keys && forall a :: a in addrs ==> a in m
    ensures |Entries(m, addrs)| == SumOver(EntrySize(m), Elements(addrs))
  {
    if |addrs| == 0 {
    } else {
      RestElements(addrs);
      EntriesSize(m, addrs[1..]);
      assert addrs[0] in Elements(addrs);
      SumRemove(EntrySize(m), Elements(addrs), addrs[0]);
    }
  }

  lemma {:induction false} TxsSize(r: Results, hashes: seq<seq<byte>>)
    requires Typed(r) && Sorted(hashes) && Elements(hashes) <= r.Keys && forall h :: h in hashes ==> h in r
    ensures |Txs(r, hashes)| == SumOver(TxSize(r), Elements(hashes))
  {
    if |hashes| == 0 {
    } else {
      var m := r[hashes[0]];
      RestElements(hashes);
      TxsSize(r, hashes[1..]);
      assert hashes[0] in Elements(hashes);
      SumRemove(TxSize(r), Elements(hashes), hashes[0]);
      InElements(SortedKeys(m.Keys));
      EntriesSize(m, SortedKeys(m.Keys));
    }
  }

  /** The size computed beforehand, in any order, is the size of the encoding. */
  lemma EncodeSize(r: Results)
    requires Typed(r)
    ensures |Encode(r)| == 6 + OuterSize(r)
  {
    InElements(SortedKeys(r.Keys));
    TxsSize(r, SortedKeys(r.Keys));
  }

  method ComputeInnerSize(m: TxResults) returns (size: nat)
    ensures size == InnerSize(m)
  {
    size := 0;
    var rest := m.Keys;
    while rest != {}
      invariant rest <= m.Keys && size + SumOver(EntrySize(m), rest) == InnerSize(m)
    {
      var a :| a in rest;
      SumRemove(EntrySize(m), rest, a);
      size := size + ADDR_LEN + 4 + |m[a]|;
      rest := rest - {a};
    }
  }

  method ComputeSize(r: Results) returns (size: nat)
    requires Typed(r)
    ensures size == |Encode(r)|
  {
    size := 6;
    var rest := r.Keys;
    while rest != {}
      invariant rest <= r.Keys && size + SumOver(TxSize(r), rest) == 6 + OuterSize(r)
    {
      var h :| h in rest;
      SumRemove(TxSize(r), rest, h);
      var inner := ComputeInnerSize(r[h]);
      size := size + HASH_LEN + 4 + inner;
      rest := rest - {h};
    }
    EncodeSize(r);
  }

  // ------------------------------------------------------------- writing

  /** Writes the entries of one transaction. */
  method PutEntries(out: array<byte>, start: nat, m: TxResults) returns (off: nat)
    requires start + |SortedEntries(m)| <= out.Length
    modifies out
    ensures off <= out.Length && out[..off] == old(out[..start]) + SortedEntries(m)
  {
    var addrs := SortKeys(m.Keys);
    InElements(addrs);
    SortedUnique(addrs, SortedKeys(m.Keys));
    off := start;
    ghost var target := out[..start] + SortedEntries(m);
    assert addrs[0..] == addrs;
    for j := 0 to |addrs|
      invariant off <= out.Length && out[..off] + Entries(m, addrs[j..]) == target
    {
      var a := addrs[j];
      assert addrs[j..][1..] == addrs[j + 1..];
      Advance(out[..off], Entry(m, a), Entries(m, addrs[j + 1..]), target);
      Put(out, off, Entry(m, a));
      off := off + |Entry(m, a)|;
    }
    assert addrs[|addrs|..] == [];
  }

  /** Moving the next piece from what is to come to what is written. */
  lemma Advance(written: seq<byte>, piece: seq<byte>, rest: seq<byte>, target: seq<byte>)
    requires written + (piece + rest) == target
    ensures (written + piece) + rest == target && |written| + |piece| + |rest| == |target|
  {
  }

  /** Writes the results, or refuses if they are too large. The bytes are those of the one
      encoding, whatever order the maps were visited in. */
  method Bytes(r: Results) returns (b: Result<seq<byte>, ResultsError>)
    requires Typed(r)
    ensures b == if |Encode(r)| > MAX_RESULTS_SIZE then Err(TooLarge) else Ok(Encode(r))
  {
    var size := ComputeSize(r);
    if size > MAX_RESULTS_SIZE {
      return Err(TooLarge);
    }
    var out := new byte[size];
    Put(out, 0, Header(r));
    PutTxs(out, r);
    b := Ok(out[..]);
  }

  method PutTxs(out: array<byte>, r: Results)
    requires 6 <= out.Length == |Encode(r)| && out[..6] == Header(r)
    modifies out
    ensures out[..] == Encode(r)
  {
    var off: nat := 6;
    var hashes := SortKeys(r.Keys);
    InElements(hashes);
    SortedUnique(hashes, SortedKeys(r.Keys));
    ghost var target := Encode(r);
    assert hashes[0..] == hashes;
    for i := 0 to |hashes|
      invariant off <= out.Length && out[..off] + Txs(r, hashes[i..]) == target
    {
      assert hashes[i..][1..] == hashes[i + 1..];
      off := PutTx(out, off, r, hashes[i], Txs(r, hashes[i + 1..]), target);
    }
    assert out[..off] + [] == target;
    assert out[..] == out[..off];
  }

  method PutTx(out: array<byte>, start: nat, r: Results, h: seq<byte>, ghost rest: seq<byte>, ghost target: seq<byte>) returns (off: nat)
    requires h in r && start <= out.Length == |target|
    requires out[..start] + (TxHeader(r, h) + SortedEntries(r[h]) + rest) == target
    modifies out
    ensures off <= out.Length && out[..off] + rest == target
  {
    Advance(out[..start], TxHeader(r, h) + SortedEntries(r[h]), rest, target);
    Put(out, start, TxHeader(r, h));
    off := PutEntries(out, start + |TxHeader(r, h)|, r[h]);
  }

  // ------------------------------------------------------------- reading

  /** The first address and value, and what follows. */
  function FirstEntry(s: seq<byte>): Option<(seq<byte>, seq<byte>, seq<byte>)> {
    if |s| < ADDR_LEN + 4 then None
    else
      var len, body := ReadU32(s[ADDR_LEN..]), s[ADDR_LEN + 4..];
      if |body| < len then None else Some((s[..ADDR_LEN], body[..len], body[len..]))
  }

  /** Reads `n` entries from the front, later ones replacing earlier ones of the same address. */
  function ParseEntries(s: seq<byte>, n: nat, m: TxResults): Result<(TxResults, seq<byte>), ResultsError>
    decreases n
  {
    if n == 0 then Ok((m, s))
    else match FirstEntry(s)
      case None => Err(ShortBuffer)
      case Some((a, v, rest)) => ParseEntries(rest, n - 1, m[a := v])
  }

  /** The first transaction's hash and results, and what follows. */
  function FirstTx(s: seq<byte>): Result<(seq<byte>, TxResults, seq<byte>), ResultsError> {
    if |s| < HASH_LEN + 4 then Err(ShortBuffer)
    else match ParseEntries(s[HASH_LEN + 4..], ReadU32(s[HASH_LEN..]), map[])
      case Err(error) => Err(error)
      case Ok((m, rest)) => Ok((s[..HASH_LEN], m, rest))
  }

  function ParseTxs(s: seq<byte>, n: nat, r: Results): Result<Results, ResultsError>
    decreases n
  {
    if n == 0 then Ok(r)
    else match FirstTx(s)
      case Err(error) => Err(error)
      case Ok((h, m, rest)) => ParseTxs(rest, n - 1, r[h := m])
  }

  function Parse(b: seq<byte>): Result<Results, ResultsError> {
    if |b| < 2 then Err(ShortBuffer)
    else if |b| > MAX_RESULTS_SIZE then Err(TooLarge)
    else if b[0] as int * 256 + b[1] != VERSION then Err(BadVersion)
    else if |b| < 6 then Err(ShortBuffer)
    else ParseTxs(b[6..], ReadU32(b[2..]), map[])
  }

  lemma FromOffset(b: seq<byte>, off: nat, n: nat)
    requires off + n <= |b|
    ensures b[off..][..n] == b[off..off + n] && b[off..][n..] == b[off + n..]
  {
  }

  /** The reader works on offsets and never looks past the end. */
  method ReadEntry(b: seq<byte>, off: nat) returns (r: Option<(seq<byte>, seq<byte>, nat)>)
    requires off <= |b|
    ensures r.None? <==> FirstEntry(b[off..]).None?
    ensures r.Some? ==> var (a, v, next) := r.value; next <= |b| && FirstEntry(b[off..]) == Some((a, v, b[next..]))
  {
    if |b| < off + ADDR_LEN + 4 {
      return None;
    }
    var len, at := ReadU32(b[off + ADDR_LEN..off + ADDR_LEN + 4]), off + ADDR_LEN + 4;
    FromOffset(b, off, ADDR_LEN);
    FromOffset(b, off, ADDR_LEN + 4);
    if |b| < at + len {
      return None;
    }
    FromOffset(b, at, len);
    r := Some((b[off..off + ADDR_LEN], b[at..at + len], at + len));
  }

  method ReadEntries(b: seq<byte>, start: nat, n: nat) returns (r: Result<TxResults, ResultsError>, off: nat)
    requires start <= |b|
    ensures off <= |b|
    ensures r.Ok? ==> ParseEntries(b[start..], n, map[]) == Ok((r.value, b[off..]))
    ensures r.Err? ==> ParseEntries(b[start..], n, map[]) == Err(r.error)
  {
    var m: TxResults := map[];
    off := start;
    for j := 0 to n
      invariant off <= |b| && ParseEntries(b[off..], n - j, m) == ParseEntries(b[start..], n, map[])
    {
      var entry := ReadEntry(b, off);
      if entry.None? {
        return Err(ShortBuffer), off;
      }
      m, off := m[entry.value.0 := entry.value.1], entry.value.2;
    }
    r := Ok(m);
  }

  method ParseResults(b: seq<byte>) returns (r: Result<Results, ResultsError>)
    ensures r == Parse(b)
  {
    if |b| < 2 {
      return Err(ShortBuffer);
    }
    if |b| > MAX_RESULTS_SIZE {
      return Err(TooLarge);
    }
    if b[0] as int * 256 + b[1] != VERSION {
      return Err(BadVersion);
    }
    if |b| < 6 {
      return Err(ShortBuffer);
    }
    r := ReadTxs(b, 6, ReadU32(b[2..6]));
  }

  method ReadTx(b: seq<byte>, off: nat) returns (r: Result<(seq<byte>, TxResults, nat), ResultsError>)
    requires off <= |b|
    ensures r.Err? ==> FirstTx(b[off..]) == Err(r.error)
    ensures r.Ok? ==> var (h, m, next) := r.value; next <= |b| && FirstTx(b[off..]) == Ok((h, m, b[next..]))
  {
    if |b| < off + HASH_LEN + 4 {
      return Err(ShortBuffer);
    }
    FromOffset(b, off, HASH_LEN);
    FromOffset(b, off, HASH_LEN + 4);
    var innerN := ReadU32(b[off + HASH_LEN..off + HASH_LEN + 4]);
    var inner, next := ReadEntries(b, off + HASH_LEN + 4, innerN);
    if inner.Err? {
      return Err(inner.error);
    }
    r := Ok((b[off..off + HASH_LEN], inner.value, next));
  }

  method ReadTxs(b: seq<byte>, start: nat, n: nat) returns (r: Result<Results, ResultsError>)
    requires start <= |b|
    ensures r == ParseTxs(b[start..], n, map[])
  {
    var res: Results := map[];
    var off: nat := start;
    for i := 0 to n
      invariant off <= |b| && ParseTxs(b[off..], n - i, res) == ParseTxs(b[start..], n, map[])
    {
      var tx := ReadTx(b, off);
      if tx.Err? {
        return Err(tx.error);
      }
      res, off := res[tx.value.0 := tx.value.1], tx.value.2;
    }
    r := Ok(res);
  }

  // ------------------------------------------------------------- round trips

  function Added<V>(acc: map<seq<byte>, V>, m: map<seq<byte>, V>, keys: seq<seq<byte>>): map<seq<byte>, V>
    requires forall k :: k in keys ==> k in m
    decreases |keys|
  {
    if |keys| == 0 then acc else Added(acc[keys[0] := m[keys[0]]], m, keys[1..])
  }

  lemma {:induction false} AddedMeans<V>(acc: map<seq<byte>, V>, m: map<seq<byte>, V>, keys: seq<seq<byte>>)
    requires forall k :: k in keys ==> k in m
    ensures Added(acc, m, keys).Keys == acc.Keys + Elements(keys)
    ensures forall k :: k in Added(acc, m, keys) ==>
              Added(acc, m, keys)[k] == if k in keys then m[k] else acc[k]
    decreases |keys|
  {
    if |keys| > 0 {
      AddedMeans(acc[keys[0] := m[keys[0]]], m, keys[1..]);
      assert keys == [keys[0]] + keys[1..];
    }
  }

  lemma AddedAll<V>(m: map<seq<byte>, V>, keys: seq<seq<byte>>)
    requires (forall k :: k in keys ==> k in m) && Elements(keys) == m.Keys
    ensures Added(map[], m, keys) == m
  {
    AddedMeans(map[], m, keys);
    forall k | k in m ensures k in keys {
      assert k in Elements(keys);
    }
  }

  lemma Regroup(a: seq<byte>, b: seq<byte>, c: seq<byte>, d: seq<byte>)
    ensures (a + b + c) + d == a + b + (c + d)
  {
  }

  lemma Pieces(a: seq<byte>, u: seq<byte>, tail: seq<byte>)
    ensures (a + u + tail)[..|a|] == a && (a + u + tail)[|a|..] == u + tail && (a + u + tail)[|a| + |u|..] == tail
  {
  }

  lemma ParseEntryInverse(m: TxResults, a: seq<byte>, tail: seq<byte>, n: nat, acc: TxResults)
    requires a in m && |a| == ADDR_LEN && |m[a]| < TWO_32
    ensures ParseEntries(Entry(m, a) + tail, n + 1, acc) == ParseEntries(tail, n, acc[a := m[a]])
  {
    var v := m[a];
    var s, body := Entry(m, a) + tail, v + tail;
    assert s == a + U32(|v|) + body;
    Pieces(a, U32(|v|), body);
    U32RoundTrip(|v|, body);
    Pieces(v, [], tail);
    assert v + [] + tail == body;
  }

  lemma {:induction false} ParseEntriesInverse(m: TxResults, addrs: seq<seq<byte>>, rest: seq<byte>, acc: TxResults)
    requires Addressed(m) && (forall a :: a in addrs ==> a in m) && |Entries(m, addrs)| < TWO_32
    ensures ParseEntries(Entries(m, addrs) + rest, |addrs|, acc) == Ok((Added(acc, m, addrs), rest))
  {
    if |addrs| == 0 {
      assert Entries(m, addrs) + rest == rest;
    } else {
      var a, tail := addrs[0], Entries(m, addrs[1..]) + rest;
      Regroup([], Entry(m, a), Entries(m, addrs[1..]), rest);
      assert [] + Entry(m, a) == Entry(m, a);
      ParseEntryInverse(m, a, tail, |addrs| - 1, acc);
      ParseEntriesInverse(m, addrs[1..], rest, acc[a := m[a]]);
    }
  }

  lemma {:induction false} EntriesAtLeast(m: TxResults, addrs: seq<seq<byte>>)
    requires forall a :: a in addrs ==> a in m
    ensures |addrs| <= |Entries(m, addrs)|
  {
    if |addrs| > 0 { EntriesAtLeast(m, addrs[1..]); }
  }

  /** The entries of one transaction are read back, whatever follows them. */
  lemma InnerRoundTrip(m: TxResults, rest: seq<byte>)
    requires Addressed(m) && |SortedEntries(m)| < TWO_32
    ensures ParseEntries(SortedEntries(m) + rest, |m|, map[]) == Ok((m, rest)) && |m| < TWO_32
  {
    var addrs := SortedKeys(m.Keys);
    InElements(addrs);
    SortedLength(addrs);
    EntriesAtLeast(m, addrs);
    ParseEntriesInverse(m, addrs, rest, map[]);
    AddedAll(m, addrs);
  }

  lemma ParseTxInverse(r: Results, h: seq<byte>, tail: seq<byte>, n: nat, acc: Results)
    requires h in r && |h| == HASH_LEN && Addressed(r[h]) && |SortedEntries(r[h])| < TWO_32
    ensures ParseTxs(TxHeader(r, h) + SortedEntries(r[h]) + tail, n + 1, acc) == ParseTxs(tail, n, acc[h := r[h]])
  {
    var body := SortedEntries(r[h]) + tail;
    assert TxHeader(r, h) + SortedEntries(r[h]) + tail == h + U32(|r[h]|) + body;
    Pieces(h, U32(|r[h]|), body);
    InnerRoundTrip(r[h], tail);
    U32RoundTrip(|r[h]|, body);
  }

  lemma {:induction false} ParseTxsInverse(r: Results, hashes: seq<seq<byte>>, rest: seq<byte>, acc: Results)
    requires Typed(r) && (forall h :: h in hashes ==> h in r) && |Txs(r, hashes)| < TWO_32
    ensures ParseTxs(Txs(r, hashes) + rest, |hashes|, acc) == Ok(Added(acc, r, hashes))
    ensures |hashes| <= |Txs(r, hashes)|
  {
    if |hashes| == 0 {
      assert Txs(r, hashes) + rest == rest;
    } else {
      var h, tail := hashes[0], Txs(r, hashes[1..]) + rest;
      Regroup(TxHeader(r, h), SortedEntries(r[h]), Txs(r, hashes[1..]), rest);
      ParseTxInverse(r, h, tail, |hashes| - 1, acc);
      ParseTxsInverse(r, hashes[1..], rest, acc[h := r[h]]);
    }
  }

  /** Whatever is written is read back, also with more bytes after it. */
  lemma RoundTrip(r: Results, rest: seq<byte>)
    requires Typed(r) && |Encode(r)| + |rest| <= MAX_RESULTS_SIZE
    ensures Parse(Encode(r) + rest) == Ok(r)
  {
    var hashes := SortedKeys(r.Keys);
    InElements(hashes);
    SortedLength(hashes);
    ParseTxsInverse(r, hashes, rest, map[]);
    ParseHeader(r, Txs(r, hashes) + rest);
    Regroup([], Header(r), Txs(r, hashes), rest);
    assert [] + Header(r) == Header(r);
    AddedAll(r, hashes);
  }

  lemma ParseHeader(r: Results, body: seq<byte>)
    requires |r| < TWO_32 && 6 + |body| <= MAX_RESULTS_SIZE
    ensures Parse(Header(r) + body) == ParseTxs(body, |r|, map[])
  {
    Pieces([0, VERSION], U32(|r|), body);
    U32RoundTrip(|r|, body);
  }

  /** Different results have different encodings. */
  lemma EncodeInjective(r: Results, r': Results)
    requires Typed(r) && Typed(r') && Encode(r) == Encode(r') && |Encode(r)| <= MAX_RESULTS_SIZE
    ensures r == r'
  {
    assert Encode(r) + [] == Encode(r) && Encode(r') + [] == Encode(r');
    RoundTrip(r, []);
    RoundTrip(r', []);
  }

  // ------------------------------------------------------------- every accepted input

  lemma PutSize(m: TxResults, a: seq<byte>, v: seq<byte>)
    ensures InnerSize(m[a := v]) <= InnerSize(m) + ADDR_LEN + 4 + |v|
  {
    var m' := m[a := v];
    SumRemove(EntrySize(m'), m'.Keys, a);
    assert m'.Keys - {a} == m.Keys - {a};
    SumCongruent(EntrySize(m'), EntrySize(m), m.Keys - {a});
    if a in m {
      SumRemove(EntrySize(m), m.Keys, a);
    } else {
      assert m.Keys - {a} == m.Keys;
    }
  }

  lemma PutTxSize(r: Results, h: seq<byte>, m: TxResults)
    ensures OuterSize(r[h := m]) <= OuterSize(r) + HASH_LEN + 4 + InnerSize(m)
  {
    var r' := r[h := m];
    SumRemove(TxSize(r'), r'.Keys, h);
    assert r'.Keys - {h} == r.Keys - {h};
    SumCongruent(TxSize(r'), TxSize(r), r.Keys - {h});
    if h in r {
      SumRemove(TxSize(r), r.Keys, h);
    } else {
      assert r.Keys - {h} == r.Keys;
    }
  }

  lemma {:induction false} ParsedEntriesSize(s: seq<byte>, n: nat, m: TxResults)
    requires Addressed(m) && ParseEntries(s, n, m).Ok?
    ensures var (m', rest) := ParseEntries(s, n, m).value;
            Addressed(m') && InnerSize(m') + |rest| <= InnerSize(m) + |s|
    decreases n
  {
    if n > 0 {
      var (a, v, rest) := FirstEntry(s).value;
      PutSize(m, a, v);
      ParsedEntriesSize(rest, n - 1, m[a := v]);
    }
  }

  lemma {:induction false} ParsedTxsSize(s: seq<byte>, n: nat, r: Results)
    requires Typed(r) && ParseTxs(s, n, r).Ok?
    ensures var r' := ParseTxs(s, n, r).value;
            Typed(r') && OuterSize(r') <= OuterSize(r) + |s|
    decreases n
  {
    if n > 0 {
      var (h, m, rest) := FirstTx(s).value;
      ParsedEntriesSize(s[HASH_LEN + 4..], ReadU32(s[HASH_LEN..]), map[]);
      PutTxSize(r, h, m);
      ParsedTxsSize(rest, n - 1, r[h := m]);
    }
  }

  /** Whatever is accepted, sorted or not, with or without repetitions, can be written again
      in no more space, and reads as the same results. */
  lemma AcceptedRoundTrip(b: seq<byte>)
    requires Parse(b).Ok?
    ensures Typed(Parse(b).value) && |Encode(Parse(b).value)| <= |b|
    ensures Parse(Encode(Parse(b).value)) == Parse(b)
  {
    var r := Parse(b).value;
    ParsedTxsSize(b[6..], ReadU32(b[2..]), map[]);
    EncodeSize(r);
    RoundTrip(r, []);
    assert Encode(r) + [] == Encode(r);
  }
}
