/** The fixed-size ring that remembers the last `size` values, and the first-in
    first-out cache built on it. */
module BoundedBuffers {
  import opened Outcomes

  /** The last `n` elements of `s`. */
  function LastN<T>(s: seq<T>, n: nat): seq<T> {
    if |s| <= n then s else s[|s| - n..]
  }

  lemma LastNAppend<T>(s: seq<T>, n: nat, x: T)
    ensures LastN(LastN(s, n) + [x], n) == LastN(s + [x], n)
  {
    if |s| > n {
      assert s[|s| - n..] + [x] == (s + [x])[|s| - n..];
    }
  }

  class BoundedBuffer<K(0)> {
    const size: nat
    const buffer: array<K>
    var lastPos: int
    var cycled: bool

    ghost predicate Valid()
      reads this
    {
      && buffer.Length == size
      && -1 <= lastPos < size
      && (cycled ==> lastPos >= 0)
    }

    /** The values held, oldest first. */
    ghost function Contents(): (s: seq<K>)
      requires Valid()
      reads this, buffer
      ensures |s| <= size
    {
      if cycled then buffer[lastPos + 1..] + buffer[..lastPos + 1] else buffer[..lastPos + 1]
    }

    constructor (size: nat)
      ensures Valid() && fresh(buffer) && this.size == size && Contents() == []
    {
      this.size := size;
      buffer := new K[size];
      lastPos := -1;
      cycled := false;
    }

    /** Stores `h` and hands back the value it overwrote, which the owner's callback
        is run on. A ring of size 0 has no slot to write to and panics. */
    method Insert(h: K) returns (evicted: Option<K>)
      requires Valid() && size > 0
      modifies this`lastPos, this`cycled, buffer
      ensures Valid()
      ensures evicted == if |old(Contents())| == size then Some(old(Contents())[0]) else None
      ensures Contents() == LastN(old(Contents()) + [h], size)
    {
      ghost var before := Contents();
      evicted := None;
      var nextPos := lastPos + 1;
      if nextPos == size {
        nextPos := 0;
        cycled := true;
      }
      if cycled {
        evicted := Some(buffer[nextPos]);
      }
      buffer[nextPos] := h;
      lastPos := nextPos;
      assert Contents() == LastN(before + [h], size);
    }

    method Last() returns (r: Option<K>)
      requires Valid()
      ensures r == if |Contents()| == 0 then None else Some(Contents()[|Contents()| - 1])
    {
      if lastPos == -1 {
        r := None;
      } else {
        r := Some(buffer[lastPos]);
      }
    }
  }
}

module FIFOCaches {
  import opened Outcomes
  import opened BoundedBuffers

  /** What the cache map holds after a history of puts: each put first deletes the key
      put `limit` puts earlier, then writes its own. */
  function CacheAfter<K(==), V>(puts: seq<(K, V)>, limit: nat): map<K, V>
    decreases |puts|
  {
    if |puts| == 0 || limit == 0 then map[]
    else
      var n := |puts| - 1;
      Written(CacheAfter(puts[..n], limit), Evicting(puts[..n], limit), puts[n])
  }

  /** The key the next put deletes. */
  function Evicting<K, V>(puts: seq<(K, V)>, limit: nat): Option<K>
    requires limit > 0
  {
    if |puts| >= limit then Some(puts[|puts| - limit].0) else None
  }

  function Written<K(==), V>(m: map<K, V>, evicted: Option<K>, p: (K, V)): map<K, V> {
    (if evicted.Some? then m - {evicted.value} else m)[p.0 := p.1]
  }

  /** The map written by a list of puts, later ones winning. */
  function AsMap<K(==), V>(puts: seq<(K, V)>): map<K, V>
    decreases |puts|
  {
    if |puts| == 0 then map[] else AsMap(puts[..|puts| - 1])[puts[|puts| - 1].0 := puts[|puts| - 1].1]
  }

  /** The promise: the cache is exactly the last `limit` puts. */
  function Recent<K(==), V>(puts: seq<(K, V)>, limit: nat): map<K, V> {
    AsMap(LastN(puts, limit))
  }

  ghost predicate Agrees<K, V>(puts: seq<(K, V)>, limit: nat) {
    forall n :: 0 <= n <= |puts| ==> CacheAfter(puts[..n], limit) == Recent(puts[..n], limit)
  }

  /** A key put again while its earlier put is still in the window, and not put once
      more by the put that evicts that earlier one. */
  predicate Clash<K(==), V>(puts: seq<(K, V)>, limit: nat, i: nat, j: nat) {
    && i < j < i + limit < |puts|
    && puts[i].0 == puts[j].0
    && puts[i + limit].0 != puts[i].0
  }

  lemma {:induction false} AsMapKeys<K, V>(puts: seq<(K, V)>, k: K)
    ensures k in AsMap(puts) <==> exists i :: 0 <= i < |puts| && puts[i].0 == k
    decreases |puts|
  {
    if |puts| > 0 {
      var init := puts[..|puts| - 1];
      AsMapKeys(init, k);
      if k in AsMap(init) {
        var i :| 0 <= i < |init| && init[i].0 == k;
        assert puts[i].0 == k;
      }
      if i :| 0 <= i < |puts| && puts[i].0 == k && i < |init| {
        assert init[i].0 == k;
      }
    }
  }

  ghost predicate EqualOff<K, V>(m: map<K, V>, m': map<K, V>, k: K) {
    && (forall x :: x in m && x != k ==> x in m' && m[x] == m'[x])
    && (forall x :: x in m' && x != k ==> x in m)
  }

  /** Forgetting the oldest put changes the map at that put's key only. */
  lemma {:induction false} AsMapDropFirst<K, V>(puts: seq<(K, V)>)
    requires |puts| > 0
    ensures EqualOff(AsMap(puts[1..]), AsMap(puts), puts[0].0)
    decreases |puts|
  {
    if |puts| > 1 {
      var init := puts[..|puts| - 1];
      AsMapDropFirst(init);
      assert init[1..] == puts[1..][..|puts| - 2];
    }
  }

  lemma RecentStep<K, V>(puts: seq<(K, V)>, limit: nat)
    requires |puts| > 0 && limit > 0
    ensures var n := |puts| - 1;
            var w := LastN(puts[..n], limit);
            Recent(puts, limit) == Written(AsMap(if n >= limit then w[1..] else w), None, puts[n])
  {
    var n := |puts| - 1;
    var w := LastN(puts[..n], limit);
    var kept := if n >= limit then w[1..] else w;
    WindowStep(puts, limit);
    AsMapAppend(kept, puts[n]);
  }

  lemma WindowStep<K, V>(puts: seq<(K, V)>, limit: nat)
    requires |puts| > 0 && limit > 0
    ensures var n := |puts| - 1;
            var w := LastN(puts[..n], limit);
            LastN(puts, limit) == (if n >= limit then w[1..] else w) + [puts[n]]
  {
  }

  lemma AsMapAppend<K, V>(s: seq<(K, V)>, p: (K, V))
    ensures AsMap(s + [p]) == Written(AsMap(s), None, p)
  {
    assert (s + [p])[..|s|] == s;
  }

  /** Deleting the oldest key of a full window and writing `p` is forgetting the oldest put
      and writing `p`, unless that key is put again later in the window and not by `p`. */
  lemma EvictOldest<K, V>(w: seq<(K, V)>, p: (K, V))
    requires |w| > 0
    requires p.0 == w[0].0 || forall i :: 0 < i < |w| ==> w[i].0 != w[0].0
    ensures Written(AsMap(w), Some(w[0].0), p) == Written(AsMap(w[1..]), None, p)
  {
    AsMapDropFirst(w);
    AsMapKeys(w[1..], w[0].0);
    WrittenSame(AsMap(w[1..]), AsMap(w), w[0].0, p);
  }

  lemma WrittenSame<K, V>(m: map<K, V>, m': map<K, V>, k: K, p: (K, V))
    requires EqualOff(m, m', k) && (p.0 == k || k !in m)
    ensures Written(m', Some(k), p) == Written(m, None, p)
  {
  }

  /** One more put keeps the promise unless it evicts a key that is still in the window. */
  lemma AgreesStep<K, V>(puts: seq<(K, V)>, limit: nat)
    requires |puts| > 0 && limit > 0
    requires CacheAfter(puts[..|puts| - 1], limit) == Recent(puts[..|puts| - 1], limit)
    requires forall i: nat, j: nat :: !Clash(puts, limit, i, j)
    ensures CacheAfter(puts, limit) == Recent(puts, limit)
  {
    var n := |puts| - 1;
    var w := LastN(puts[..n], limit);
    RecentStep(puts, limit);
    if n >= limit {
      WindowNoClash(puts, limit);
      EvictOldest(w, puts[n]);
    }
  }

  lemma WindowNoClash<K, V>(puts: seq<(K, V)>, limit: nat)
    requires |puts| > limit > 0
    requires forall i: nat, j: nat :: !Clash(puts, limit, i, j)
    ensures var n := |puts| - 1;
            var w := LastN(puts[..n], limit);
            && |w| == limit && w[0] == puts[n - limit]
            && (puts[n].0 == w[0].0 || forall i :: 0 < i < |w| ==> w[i].0 != w[0].0)
  {
    var n := |puts| - 1;
    var w := LastN(puts[..n], limit);
    assert w == puts[n - limit..n];
    if puts[n].0 != w[0].0 {
      forall i | 0 < i < |w| ensures w[i].0 != w[0].0 {
        assert !Clash(puts, limit, n - limit, n - limit + i);
      }
    }
  }

  lemma {:induction false} NoClashAgrees<K, V>(puts: seq<(K, V)>, limit: nat)
    requires limit > 0
    requires forall i: nat, j: nat :: !Clash(puts, limit, i, j)
    ensures Agrees(puts, limit)
    decreases |puts|
  {
    if |puts| == 0 {
      assert puts[..0] == [];
    } else {
      var init := puts[..|puts| - 1];
      forall i: nat, j: nat ensures !Clash(init, limit, i, j) {
        assert !Clash(puts, limit, i, j);
      }
      NoClashAgrees(init, limit);
      assert init[..|init|] == init;
      AgreesStep(puts, limit);
      AgreesExtend(puts, limit);
    }
  }

  lemma AgreesExtend<K, V>(puts: seq<(K, V)>, limit: nat)
    requires |puts| > 0 && Agrees(puts[..|puts| - 1], limit) && CacheAfter(puts, limit) == Recent(puts, limit)
    ensures Agrees(puts, limit)
  {
    var init := puts[..|puts| - 1];
    assert puts[..|puts|] == puts;
    forall n | 0 <= n < |puts| ensures CacheAfter(puts[..n], limit) == Recent(puts[..n], limit) {
      assert init[..n] == puts[..n];
    }
  }

  lemma ClashDisagrees<K, V>(puts: seq<(K, V)>, limit: nat, i: nat, j: nat)
    requires Clash(puts, limit, i, j)
    ensures !Agrees(puts, limit)
  {
    var seen := puts[..i + limit + 1];
    var k := puts[i].0;
    assert seen[..i + limit] == puts[..i + limit];
    assert k !in CacheAfter(seen, limit);
    var w := LastN(seen, limit);
    assert w == seen[i + 1..];
    assert w[j - i - 1].0 == k;
    AsMapKeys(w, k);
    assert CacheAfter(puts[..i + limit + 1], limit) != Recent(puts[..i + limit + 1], limit);
  }

  /** The cache holds exactly the last `limit` puts after every put of a history if and
      only if no put repeats a key still in the window. */
  lemma ExactIffNoClash<K, V>(puts: seq<(K, V)>, limit: nat)
    requires limit > 0
    ensures Agrees(puts, limit) <==> forall i: nat, j: nat :: !Clash(puts, limit, i, j)
  {
    if i: nat, j: nat :| Clash(puts, limit, i, j) {
      ClashDisagrees(puts, limit, i, j);
    } else {
      NoClashAgrees(puts, limit);
    }
  }

  /** Every entry of the cache was put. */
  lemma {:induction false} CacheSound<K, V>(puts: seq<(K, V)>, limit: nat, k: K)
    requires k in CacheAfter(puts, limit)
    ensures (k, CacheAfter(puts, limit)[k]) in puts
    decreases |puts|
  {
    var n := |puts| - 1;
    if puts[n].0 == k {
      assert puts[n] in puts;
    } else {
      CacheSound(puts[..n], limit, k);
    }
  }

  ghost function Keys<K, V>(s: seq<(K, V)>): seq<K> {
    seq(|s|, i requires 0 <= i < |s| => s[i].0)
  }

  lemma KeysLastN<K, V>(puts: seq<(K, V)>, p: (K, V), limit: nat)
    ensures Keys(LastN(puts + [p], limit)) == LastN(Keys(LastN(puts, limit)) + [p.0], limit)
    ensures |Keys(LastN(puts, limit))| == limit > 0 ==> Evicting(puts, limit) == Some(Keys(LastN(puts, limit))[0])
    ensures |Keys(LastN(puts, limit))| < limit ==> Evicting(puts, limit) == None
  {
    LastNAppend(puts, limit, p);
    assert Keys(LastN(puts, limit) + [p]) == Keys(LastN(puts, limit)) + [p.0];
  }

  lemma CacheAfterAppend<K, V>(puts: seq<(K, V)>, p: (K, V), limit: nat)
    requires limit > 0
    ensures CacheAfter(puts + [p], limit) == Written(CacheAfter(puts, limit), Evicting(puts, limit), p)
  {
    assert (puts + [p])[..|puts|] == puts;
  }

  /** A cache with limit 0 is the no-op cache: it keeps nothing. */
  class FIFOCache<K(0,==), V> {
    const limit: nat
    const buffer: BoundedBuffer<K>
    var m: map<K, V>
    ghost var puts: seq<(K, V)>

    ghost predicate Valid()
      reads this, buffer, buffer.buffer
    {
      && buffer.Valid() && buffer.size > 0
      && (limit > 0 ==> buffer.size == limit && buffer.Contents() == Keys(LastN(puts, limit)))
      && m == CacheAfter(puts, limit)
    }

    constructor (limit: nat)
      ensures Valid() && fresh(buffer) && fresh(buffer.buffer)
      ensures this.limit == limit && puts == []
    {
      this.limit := limit;
      buffer := new BoundedBuffer<K>(if limit == 0 then 1 else limit);
      m := map[];
      puts := [];
    }

    method Put(key: K, val: V)
      requires Valid()
      modifies this`m, this`puts, buffer, buffer.buffer
      ensures Valid()
      ensures puts == old(puts) + [(key, val)]
    {
      puts := puts + [(key, val)];
      if limit == 0 {
        return;
      }
      CacheAfterAppend(old(puts), (key, val), limit);
      var evicted := Remember(key, old(puts), (key, val));
      if evicted.Some? {
        m := m - {evicted.value};
      }
      m := m[key := val];
    }

    /** Puts the key into the ring; what drops out of it is the key to delete. */
    method Remember(key: K, ghost before: seq<(K, V)>, ghost p: (K, V)) returns (evicted: Option<K>)
      requires limit > 0 && key == p.0 && buffer.Valid() && buffer.size == limit
      requires buffer.Contents() == Keys(LastN(before, limit))
      modifies buffer, buffer.buffer
      ensures buffer.Valid() && buffer.Contents() == Keys(LastN(before + [p], limit))
      ensures evicted == Evicting(before, limit)
    {
      KeysLastN(before, p, limit);
      evicted := buffer.Insert(key);
    }

    method Get(key: K) returns (r: Option<V>)
      requires Valid()
      ensures r == if key in CacheAfter(puts, limit) then Some(CacheAfter(puts, limit)[key]) else None
    {
      r := if key in m then Some(m[key]) else None;
    }
  }
}
