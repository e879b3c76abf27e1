/** dict.c: a chained hash table that doubles when it is full, and its iterator. The
    hash function is any function of the key. Entries live in a store of allocated
    entries; a pointer to one is its index. */
module Dict {
  import opened Bytes

  const INITIAL_SIZE: nat := 4
  const LONG_MAX: nat := 0x7FFF_FFFF_FFFF_FFFF
  /** A larger table is more than size_t bytes of pointers, which calloc refuses. */
  const MAX_TABLE: nat := 0x1000_0000_0000_0000
  /** The largest table whose size survives the cast in dictNext. */
  const MAX_ITERATED: nat := 0x4000_0000

  function Pow2(k: nat): (p: nat)
    ensures p >= 1
  {
    if k == 0 then 1 else 2 * Pow2(k - 1)
  }

  ghost predicate IsPow2(n: nat) { exists k: nat :: n == Pow2(k) }

  lemma {:induction false} Pow2Monotone(a: nat, b: nat)
    requires a <= b
    ensures Pow2(a) <= Pow2(b)
  {
    if a < b { Pow2Monotone(a, b - 1); }
  }

  lemma {:induction false} Pow2Add(a: nat, b: nat)
    ensures Pow2(a + b) == Pow2(a) * Pow2(b)
  {
    if b > 0 { Pow2Add(a, b - 1); }
  }

  lemma Square(a: nat, p: nat)
    requires Pow2(a) == p
    ensures Pow2(2 * a) == p * p
  {
    Pow2Add(a, a);
  }

  lemma Pow2Values()
    ensures Pow2(30) == MAX_ITERATED && Pow2(31) == 0x8000_0000 && Pow2(32) == 0x1_0000_0000
    ensures Pow2(60) == MAX_TABLE && Pow2(63) == LONG_MAX + 1
  {
    assert Pow2(2) == 4;
    assert Pow2(32) == 2 * Pow2(31) && Pow2(31) == 2 * Pow2(30);
    assert Pow2(64) == 2 * Pow2(63) && Pow2(63) == 2 * Pow2(62);
    assert Pow2(62) == 2 * Pow2(61) && Pow2(61) == 2 * Pow2(60);
    hide Pow2;
    Square(2, 4);
    Square(4, 16);
    Square(8, 256);
    Square(16, 0x1_0000);
    Square(32, 0x1_0000_0000);
  }

  /** No power of two lies strictly between a power of two and its double. */
  lemma Pow2Gap(m: nat, n: nat)
    requires IsPow2(m) && IsPow2(n) && m <= n < 2 * m
    ensures m == n
  {
    var a: nat :| m == Pow2(a);
    var b: nat :| n == Pow2(b);
    if b > a { Pow2Monotone(a + 1, b); } else if b < a { Pow2Monotone(b + 1, a); }
  }

  lemma Doubled(m: nat)
    requires IsPow2(m)
    ensures IsPow2(2 * m)
  {
    var a: nat :| m == Pow2(a);
    assert 2 * m == Pow2(a + 1);
  }

  lemma {:induction false} HighPower(k: nat)
    requires k >= 32
    ensures Pow2(k) % 0x1_0000_0000 == 0
  {
    if k == 32 { Pow2Values(); } else { HighPower(k - 1); }
  }

  /** The cast keeps the size of a table up to 2^30 buckets, and no larger one. */
  lemma CastOfSize(n: nat)
    requires n == 0 || IsPow2(n)
    ensures n <= MAX_ITERATED ==> ToInt(n) == n
    ensures n > MAX_ITERATED ==> ToInt(n) <= 0
  {
    if n > MAX_ITERATED {
      var k: nat :| n == Pow2(k);
      Pow2Values();
      if k <= 30 { Pow2Monotone(k, 30); }
      if k >= 32 { HighPower(k); }
    }
  }

  /** _dictNextPower: the least power of two, from 4 on, that is not below size; but
      LONG_MAX for sizes from there on, which is no power of two. */
  method NextPower(size: nat) returns (i: nat)
    requires size < 0x1_0000_0000_0000_0000
    ensures size < LONG_MAX ==> IsPow2(i) && INITIAL_SIZE <= i && size <= i <= LONG_MAX + 1
    ensures size < LONG_MAX ==> i == INITIAL_SIZE || i < 2 * size
    ensures size >= LONG_MAX ==> i == LONG_MAX
  {
    if size >= LONG_MAX { return LONG_MAX; }
    i := INITIAL_SIZE;
    ghost var k: nat := 2;
    Pow2Values();
    while i < size
      invariant i == Pow2(k) && 2 <= k <= 63 && (i == INITIAL_SIZE || i < 2 * size)
      invariant INITIAL_SIZE <= i <= LONG_MAX + 1
      decreases 63 - k
    {
      if k == 63 { assert false; }
      Pow2Monotone(k + 1, 63);
      i := 2 * i;
      k := k + 1;
    }
  }

  /** hash & sizemask; the size is a power of two */
  function Slot(h: nat, size: nat): (b: nat)
    requires size > 0
    ensures b < size
  {
    h % size
  }

  datatype Entry<K, V> = Entry(key: K, val: V, next: Option<nat>)

  function Cut(c: seq<nat>, i: nat): (d: seq<nat>)
    requires i < |c|
    ensures |d| == |c| - 1 && forall j :: 0 <= j < |d| ==> d[j] == c[if j < i then j else j + 1]
  {
    c[..i] + c[i + 1..]
  }

  function Push(id: nat, c: seq<nat>): (d: seq<nat>)
    ensures |d| == |c| + 1 && d[0] == id && forall j :: 0 < j < |d| ==> d[j] == c[j - 1]
  {
    [id] + c
  }

  /** From head, the next pointers visit exactly the entries c. */
  ghost predicate Chain<K, V>(s: seq<Entry<K, V>>, head: Option<nat>, c: seq<nat>) {
    && head == Link(c, 0)
    && (forall i :: 0 <= i < |c| ==> c[i] < |s| && s[c[i]].next == Link(c, i + 1))
  }

  ghost predicate KeysApart<K, V>(s: seq<Entry<K, V>>, c: seq<nat>)
    requires forall i :: 0 <= i < |c| ==> c[i] < |s|
  {
    forall i, j :: 0 <= i < j < |c| ==> s[c[i]].key != s[c[j]].key
  }

  /** Every entry of the chain is a binding of m that hashes to b. */
  ghost predicate Sound<K, V>(hash: K -> uint32, s: seq<Entry<K, V>>, c: seq<nat>, b: nat, n: nat, m: map<K, V>)
    requires n > 0 && forall i :: 0 <= i < |c| ==> c[i] < |s|
  {
    forall i :: 0 <= i < |c| ==>
      var e := s[c[i]]; Slot(hash(e.key), n) == b && e.key in m && m[e.key] == e.val
  }

  /** Every binding of m that hashes to b has an entry on the chain. */
  ghost predicate Complete<K, V>(hash: K -> uint32, s: seq<Entry<K, V>>, c: seq<nat>, b: nat, n: nat, m: map<K, V>)
    requires n > 0 && forall i :: 0 <= i < |c| ==> c[i] < |s|
  {
    forall k :: k in m && Slot(hash(k), n) == b ==> exists i :: 0 <= i < |c| && s[c[i]].key == k
  }

  /** Bucket b of n: its chain holds exactly the bindings of m that hash to b, each
      key once. */
  ghost predicate Bucket<K, V>(hash: K -> uint32, s: seq<Entry<K, V>>, head: Option<nat>, c: seq<nat>, b: nat, n: nat,
                               m: map<K, V>)
    requires n > 0
  {
    Chain(s, head, c) && KeysApart(s, c) && Sound(hash, s, c, b, n, m) && Complete(hash, s, c, b, n, m)
  }

  ghost predicate Buckets<K, V>(hash: K -> uint32, s: seq<Entry<K, V>>, table: seq<Option<nat>>, chains: seq<seq<nat>>,
                                m: map<K, V>) {
    && |table| == |chains|
    && (|table| == 0 ==> m == map[])
    && forall b :: 0 <= b < |table| ==> Bucket(hash, s, table[b], chains[b], b, |table|, m)
  }

  /** A bucket does not notice changes to entries, or to bindings, of other buckets. */
  lemma BucketKept<K, V>(hash: K -> uint32, s: seq<Entry<K, V>>, s': seq<Entry<K, V>>, head: Option<nat>, c: seq<nat>,
                         b: nat, n: nat, m: map<K, V>, m': map<K, V>)
    requires n > 0 && Bucket(hash, s, head, c, b, n, m) && |s| <= |s'|
    requires forall i :: 0 <= i < |c| ==> s'[c[i]] == s[c[i]]
    requires forall k :: Slot(hash(k), n) == b ==> (k in m <==> k in m') && (k in m ==> m[k] == m'[k])
    ensures Bucket(hash, s', head, c, b, n, m')
  {
    hide Slot, Link;
    forall k | k in m' && Slot(hash(k), n) == b ensures exists i :: 0 <= i < |c| && s'[c[i]].key == k {
      var i :| 0 <= i < |c| && s[c[i]].key == k;
    }
  }

  /** Linking a new binding in front. */
  lemma BucketPush<K, V>(hash: K -> uint32, s: seq<Entry<K, V>>, s': seq<Entry<K, V>>, head: Option<nat>, c: seq<nat>,
                         b: nat, n: nat, m: map<K, V>, id: nat)
    requires n > 0 && Bucket(hash, s, head, c, b, n, m) && |s| <= |s'| && id < |s'|
    requires forall i :: 0 <= i < |c| ==> s'[c[i]] == s[c[i]]
    requires var e := s'[id]; e.next == head && Slot(hash(e.key), n) == b && e.key !in m
    ensures Bucket(hash, s', Some(id), Push(id, c), b, n, m[s'[id].key := s'[id].val])
  {
    hide Slot, Push;
    var d := Push(id, c);
    var m' := m[s'[id].key := s'[id].val];
    assert Chain(s', Some(id), d);
    assert KeysApart(s', d) && Sound(hash, s', d, b, n, m') by { hide Link; }
    forall k | k in m' && Slot(hash(k), n) == b ensures exists i :: 0 <= i < |d| && s'[d[i]].key == k {
      hide Link;
      if k == s'[id].key {
        assert d[0] == id;
      } else {
        var i :| 0 <= i < |c| && s[c[i]].key == k;
        assert d[i + 1] == c[i];
      }
    }
  }

  /** The store after place i of a chain is unlinked: the pointer before it, if that
      lies in an entry, skips it. */
  function Skip<K, V>(s: seq<Entry<K, V>>, c: seq<nat>, i: nat): (s': seq<Entry<K, V>>)
    requires i < |c| && forall j :: 0 <= j < |c| ==> c[j] < |s|
    ensures |s'| == |s|
    ensures forall e :: 0 <= e < |s| && (i == 0 || e != c[i - 1]) ==> s'[e] == s[e]
    ensures i > 0 ==> s'[c[i - 1]] == s[c[i - 1]].(next := s[c[i]].next)
    ensures forall e :: 0 <= e < |s| ==> s'[e].key == s[e].key && s'[e].val == s[e].val
  {
    if i == 0 then s else s[c[i - 1] := s[c[i - 1]].(next := s[c[i]].next)]
  }

  ghost predicate SamePairs<K, V>(s: seq<Entry<K, V>>, s': seq<Entry<K, V>>) {
    |s| == |s'| && forall e :: 0 <= e < |s| ==> s[e].key == s'[e].key && s[e].val == s'[e].val
  }

  lemma Distinct<K, V>(s: seq<Entry<K, V>>, c: seq<nat>, i: nat, j: nat)
    requires (forall i :: 0 <= i < |c| ==> c[i] < |s|) && KeysApart(s, c) && i < |c| && j < |c| && i != j
    ensures c[i] != c[j] && s[c[i]].key != s[c[j]].key
  {
    if i < j { assert s[c[i]].key != s[c[j]].key; } else { assert s[c[j]].key != s[c[i]].key; }
  }

  lemma LinkAt<K, V>(s: seq<Entry<K, V>>, head: Option<nat>, c: seq<nat>, i: nat)
    requires Chain(s, head, c) && i < |c|
    ensures c[i] < |s| && s[c[i]].next == Link(c, i + 1)
  {
  }

  lemma LinkCut<K, V>(s: seq<Entry<K, V>>, head: Option<nat>, c: seq<nat>, i: nat, j: nat)
    requires Chain(s, head, c) && i < |c| && KeysApart(s, c) && j < |c| - 1
    ensures Skip(s, c, i)[Cut(c, i)[j]].next == Link(Cut(c, i), j + 1)
  {
    assert forall k :: 0 <= k < |c| ==> c[k] < |s|;
    hide Cut, Skip, KeysApart, Chain;
    var d, s' := Cut(c, i), Skip(s, c, i);
    if j + 1 == i {
      assert s[c[i]].next == Link(c, i + 1) by { LinkAt(s, head, c, i); }
      assert d[j] == c[j];
    } else if j < i {
      assert d[j] == c[j] && s[c[j]].next == Link(c, j + 1) by { LinkAt(s, head, c, j); }
      Distinct(s, c, j, i - 1);
    } else {
      assert d[j] == c[j + 1] && s[c[j + 1]].next == Link(c, j + 2) by { LinkAt(s, head, c, j + 1); }
      if i > 0 { Distinct(s, c, j + 1, i - 1); }
    }
  }

  lemma ChainCut<K, V>(s: seq<Entry<K, V>>, head: Option<nat>, c: seq<nat>, i: nat)
    requires Chain(s, head, c) && i < |c| && KeysApart(s, c)
    ensures Chain(Skip(s, c, i), if i == 0 then s[c[0]].next else head, Cut(c, i))
  {
    hide Cut, Skip, KeysApart;
    var d, s' := Cut(c, i), Skip(s, c, i);
    forall j | 0 <= j < |d| ensures s'[d[j]].next == Link(d, j + 1) {
      LinkCut(s, head, c, i, j);
    }
  }

  lemma ApartCut<K, V>(s: seq<Entry<K, V>>, c: seq<nat>, i: nat)
    requires (forall i :: 0 <= i < |c| ==> c[i] < |s|) && KeysApart(s, c) && i < |c|
    ensures KeysApart(Skip(s, c, i), Cut(c, i))
  {
    hide Cut, Skip;
    var d := Cut(c, i);
    forall p, q | 0 <= p < q < |d| ensures s[d[p]].key != s[d[q]].key {
      var p', q' := if p < i then p else p + 1, if q < i then q else q + 1;
      assert d[p] == c[p'] && d[q] == c[q'];
    }
  }

  lemma SoundCut<K, V>(hash: K -> uint32, s: seq<Entry<K, V>>, s': seq<Entry<K, V>>, c: seq<nat>, b: nat, n: nat,
                       m: map<K, V>, i: nat)
    requires n > 0 && |s| == |s'| && (forall j :: 0 <= j < |c| ==> c[j] < |s|) && i < |c|
    requires KeysApart(s, c) && Sound(hash, s, c, b, n, m)
    requires forall e :: 0 <= e < |s| ==> s'[e].key == s[e].key && s'[e].val == s[e].val
    ensures Sound(hash, s', Cut(c, i), b, n, m - {s[c[i]].key})
  {
    hide Slot, Cut;
    var d := Cut(c, i);
    forall j | 0 <= j < |d|
      ensures var e := s'[d[j]];
        Slot(hash(e.key), n) == b && e.key in m && e.key != s[c[i]].key && m[e.key] == e.val
    {
      var j' := if j < i then j else j + 1;
      assert d[j] == c[j'];
    }
  }

  lemma CompleteCut<K, V>(hash: K -> uint32, s: seq<Entry<K, V>>, s': seq<Entry<K, V>>, c: seq<nat>, b: nat, n: nat,
                          m: map<K, V>, i: nat)
    requires n > 0 && |s| == |s'| && (forall j :: 0 <= j < |c| ==> c[j] < |s|) && i < |c|
    requires Complete(hash, s, c, b, n, m)
    requires forall e :: 0 <= e < |s| ==> s'[e].key == s[e].key
    ensures Complete(hash, s', Cut(c, i), b, n, m - {s[c[i]].key})
  {
    hide Slot, Cut;
    var d := Cut(c, i);
    forall k | k in m - {s[c[i]].key} && Slot(hash(k), n) == b ensures exists j :: 0 <= j < |d| && s'[d[j]].key == k {
      var j :| 0 <= j < |c| && s[c[j]].key == k;
      var j' := if j < i then j else j - 1;
      assert d[j'] == c[j];
    }
  }

  lemma BucketCut<K, V>(hash: K -> uint32, s: seq<Entry<K, V>>, head: Option<nat>, c: seq<nat>, b: nat, n: nat,
                        m: map<K, V>, i: nat)
    requires n > 0 && Bucket(hash, s, head, c, b, n, m) && i < |c|
    ensures Bucket(hash, Skip(s, c, i), if i == 0 then s[c[0]].next else head, Cut(c, i), b, n, m - {s[c[i]].key})
  {
    ChainCut(s, head, c, i);
    ApartCut(s, c, i);
    SoundCut(hash, s, Skip(s, c, i), c, b, n, m, i);
    CompleteCut(hash, s, Skip(s, c, i), c, b, n, m, i);
    hide Slot, Link, Skip, Cut, KeysApart, Sound, Complete;
  }

  /** Setting the value of the entry at place i. */
  lemma BucketSet<K, V>(hash: K -> uint32, s: seq<Entry<K, V>>, head: Option<nat>, c: seq<nat>, b: nat, n: nat,
                        m: map<K, V>, i: nat, val: V)
    requires n > 0 && Bucket(hash, s, head, c, b, n, m) && i < |c|
    ensures Bucket(hash, s[c[i] := s[c[i]].(val := val)], head, c, b, n, m[s[c[i]].key := val])
  {
    hide Slot, Link;
    var s' := s[c[i] := s[c[i]].(val := val)];
    var m' := m[s[c[i]].key := val];
    assert Chain(s', head, c) && KeysApart(s', c);
    assert Sound(hash, s', c, b, n, m') by {
      forall j | 0 <= j < |c| && j != i ensures c[i] != c[j] && s[c[j]].key != s[c[i]].key { Distinct(s, c, i, j); }
    }
    forall k | k in m' && Slot(hash(k), n) == b ensures exists j :: 0 <= j < |c| && s'[c[j]].key == k {
      if k == s[c[i]].key { assert s'[c[i]].key == k; } else { var j :| 0 <= j < |c| && s[c[j]].key == k; }
    }
  }

  lemma AbsentIff<K, V>(hash: K -> uint32, s: seq<Entry<K, V>>, head: Option<nat>, c: seq<nat>, b: nat, n: nat,
                        m: map<K, V>, key: K)
    requires n > 0 && Bucket(hash, s, head, c, b, n, m) && Slot(hash(key), n) == b
    ensures Chain(s, head, c)
    ensures key !in m <==> forall i :: 0 <= i < |c| ==> s[c[i]].key != key
  {
    hide Slot, Link;
  }

  /** An entry is on the chain of no other bucket. */
  lemma ElsewhereAbsent<K, V>(hash: K -> uint32, s: seq<Entry<K, V>>, head: Option<nat>, c: seq<nat>, b: nat, n: nat,
                              m: map<K, V>, id: nat)
    requires n > 0 && Bucket(hash, s, head, c, b, n, m) && id < |s| && Slot(hash(s[id].key), n) != b
    ensures id !in c
  {
    hide Slot;
  }

  lemma BucketBounds<K, V>(hash: K -> uint32, s: seq<Entry<K, V>>, head: Option<nat>, c: seq<nat>, b: nat, n: nat,
                           m: map<K, V>)
    requires n > 0 && Bucket(hash, s, head, c, b, n, m)
    ensures forall j :: 0 <= j < |c| ==> c[j] < |s| && Slot(hash(s[c[j]].key), n) == b && s[c[j]].key in m
  {
    hide Slot;
  }

  /** Cutting one chain keeps the whole table. */
  lemma BucketsCut<K, V>(hash: K -> uint32, s: seq<Entry<K, V>>, table: seq<Option<nat>>, chains: seq<seq<nat>>,
                         m: map<K, V>, h: nat, i: nat)
    requires Buckets(hash, s, table, chains, m) && h < |table| && i < |chains[h]|
    requires (forall j :: 0 <= j < |chains[h]| ==> chains[h][j] < |s| && Slot(hash(s[chains[h][j]].key), |table|) == h)
    ensures var c := chains[h];
      var table' := if i == 0 then table[h := s[c[0]].next] else table;
      Buckets(hash, Skip(s, c, i), table', chains[h := Cut(c, i)], m - {s[c[i]].key})
  {
    hide Slot, Cut, Skip, Bucket;
    var c := chains[h];
    var s', t', m' := Skip(s, c, i), if i == 0 then table[h := s[c[0]].next] else table, m - {s[c[i]].key};
    forall b | 0 <= b < |table| ensures Bucket(hash, s', t'[b], chains[h := Cut(c, i)][b], b, |table|, m') {
      if b == h {
        BucketCut(hash, s, table[h], c, h, |table|, m, i);
      } else {
        assert Bucket(hash, s, table[b], chains[b], b, |table|, m);
        BucketBounds(hash, s, table[b], chains[b], b, |table|, m);
        if i > 0 { ElsewhereAbsent(hash, s, table[b], chains[b], b, |table|, m, c[i - 1]); }
        BucketKept(hash, s, s', table[b], chains[b], b, |table|, m, m');
      }
    }
  }

  lemma BucketsSet<K, V>(hash: K -> uint32, s: seq<Entry<K, V>>, table: seq<Option<nat>>, chains: seq<seq<nat>>,
                         m: map<K, V>, h: nat, i: nat, val: V)
    requires Buckets(hash, s, table, chains, m) && h < |table| && i < |chains[h]|
    requires var id := chains[h][i]; id < |s| && Slot(hash(s[id].key), |table|) == h
    ensures var id := chains[h][i];
      Buckets(hash, s[id := s[id].(val := val)], table, chains, m[s[id].key := val])
  {
    hide Slot, Bucket;
    var id := chains[h][i];
    var s', m' := s[id := s[id].(val := val)], m[s[id].key := val];
    forall b | 0 <= b < |table| ensures Bucket(hash, s', table[b], chains[b], b, |table|, m') {
      assert Bucket(hash, s, table[b], chains[b], b, |table|, m);
      if b == h {
        BucketSet(hash, s, table[h], chains[h], h, |table|, m, i, val);
      } else {
        BucketBounds(hash, s, table[b], chains[b], b, |table|, m);
        ElsewhereAbsent(hash, s, table[b], chains[b], b, |table|, m, id);
        BucketKept(hash, s, s', table[b], chains[b], b, |table|, m, m');
      }
    }
  }

  /** The buckets from place i on hold m. */
  ghost predicate BucketsFrom<K, V>(hash: K -> uint32, s: seq<Entry<K, V>>, table: seq<Option<nat>>,
                                    chains: seq<seq<nat>>, i: nat, m: map<K, V>) {
    && |table| == |chains|
    && forall b :: i <= b < |table| ==> Bucket(hash, s, table[b], chains[b], b, |table|, m)
  }

  /** Writing to an entry whose key is not in m leaves a bucket of m alone. */
  lemma BucketStays<K, V>(hash: K -> uint32, s: seq<Entry<K, V>>, s': seq<Entry<K, V>>, head: Option<nat>, c: seq<nat>,
                          b: nat, n: nat, m: map<K, V>, m': map<K, V>, id: nat)
    requires n > 0 && Bucket(hash, s, head, c, b, n, m) && id < |s| == |s'|
    requires forall e :: 0 <= e < |s| && e != id ==> s'[e] == s[e]
    requires s[id].key !in m || Slot(hash(s[id].key), n) != b
    requires forall k :: Slot(hash(k), n) == b ==> (k in m <==> k in m') && (k in m ==> m[k] == m'[k])
    ensures Bucket(hash, s', head, c, b, n, m')
  {
    hide Slot, Link, Bucket;
    BucketBounds(hash, s, head, c, b, n, m);
    BucketKept(hash, s, s', head, c, b, n, m, m');
  }

  /** Moving the first entry of an old bucket to the front of its new one. */
  lemma PushAll<K, V>(hash: K -> uint32, s: seq<Entry<K, V>>, table: seq<Option<nat>>, chains: seq<seq<nat>>,
                      m: map<K, V>, id: nat, h: nat)
    requires Buckets(hash, s, table, chains, m) && h < |table| && id < |s|
    requires s[id].key !in m && Slot(hash(s[id].key), |table|) == h
    ensures Buckets(hash, s[id := s[id].(next := table[h])], table[h := Some(id)], chains[h := Push(id, chains[h])],
        m[s[id].key := s[id].val])
  {
    hide Slot, Link, Bucket, Push;
    var n, key := |table|, s[id].key;
    var s', m' := s[id := s[id].(next := table[h])], m[key := s[id].val];
    var t', c' := table[h := Some(id)], chains[h := Push(id, chains[h])];
    forall b | 0 <= b < n ensures Bucket(hash, s', t'[b], c'[b], b, n, m') {
      assert Bucket(hash, s, table[b], chains[b], b, n, m);
      if b == h {
        BucketBounds(hash, s, table[h], chains[h], h, n, m);
        BucketPush(hash, s, s', table[h], chains[h], h, n, m, id);
      } else {
        BucketStays(hash, s, s', table[b], chains[b], b, n, m, m', id);
      }
    }
  }

  lemma KeepFrom<K, V>(hash: K -> uint32, s: seq<Entry<K, V>>, table: seq<Option<nat>>, chains: seq<seq<nat>>, i: nat,
                       m: map<K, V>, id: nat, next: Option<nat>)
    requires BucketsFrom(hash, s, table, chains, i, m) && id < |s|
    requires |table| > 0 ==> Slot(hash(s[id].key), |table|) < i
    ensures BucketsFrom(hash, s[id := s[id].(next := next)], table, chains, i, m - {s[id].key})
  {
    hide Slot, Link, Bucket;
    var s' := s[id := s[id].(next := next)];
    forall b | i <= b < |table| ensures Bucket(hash, s', table[b], chains[b], b, |table|, m - {s[id].key}) {
      BucketStays(hash, s, s', table[b], chains[b], b, |table|, m, m - {s[id].key}, id);
    }
  }

  /** Taking the first entry off a bucket and writing its next pointer. */
  lemma TakeFirst<K, V>(hash: K -> uint32, s: seq<Entry<K, V>>, c: seq<nat>, b: nat, n: nat, m: map<K, V>, id: nat,
                        next: Option<nat>)
    requires n > 0 && Bucket(hash, s, Some(id), c, b, n, m)
    ensures |c| > 0 && c[0] == id < |s| && s[id].key in m && s[id].val == m[s[id].key] && Slot(hash(s[id].key), n) == b
    ensures Bucket(hash, s[id := s[id].(next := next)], s[id].next, Cut(c, 0), b, n, m - {s[id].key})
  {
    BucketCut(hash, s, Some(id), c, b, n, m, 0);
    assert Skip(s, c, 0) == s;
    hide Slot, Cut;
    BucketStays(hash, s, s[id := s[id].(next := next)], s[id].next, Cut(c, 0), b, n, m - {s[id].key}, m - {s[id].key},
      id);
  }

  lemma BucketHead<K, V>(hash: K -> uint32, s: seq<Entry<K, V>>, id: nat, c: seq<nat>, b: nat, n: nat, m: map<K, V>)
    requires n > 0 && Bucket(hash, s, Some(id), c, b, n, m)
    ensures id < |s|
  {
    assert c[0] == id;
  }

  lemma EmptyBucket<K, V>(hash: K -> uint32, s: seq<Entry<K, V>>, c: seq<nat>, b: nat, n: nat, m: map<K, V>)
    requires n > 0 && Bucket(hash, s, None, c, b, n, m)
    ensures c == [] && forall k :: k in m ==> Slot(hash(k), n) != b
  {
    hide Slot;
  }

  /** The next power of two fits memory exactly when the size asked for does. */
  lemma TableFits(n: nat, realsize: nat)
    requires n < LONG_MAX ==> IsPow2(realsize) && n <= realsize && (realsize == INITIAL_SIZE || realsize < 2 * n)
    requires n >= LONG_MAX ==> realsize == LONG_MAX
    ensures realsize * 8 < 0x1_0000_0000_0000_0000 <==> n <= MAX_TABLE
    ensures n <= MAX_TABLE ==> realsize <= MAX_TABLE
  {
    assert IsPow2(MAX_TABLE) by { Pow2Values(); }
    if n <= MAX_TABLE < realsize || (MAX_TABLE < n < LONG_MAX && realsize < 2 * MAX_TABLE) {
      Pow2Gap(MAX_TABLE, realsize);
    }
  }

  /** The bindings of M are shared out between left and moved. */
  ghost predicate SharedOut<K(!new), V>(M: map<K, V>, left: map<K, V>, moved: map<K, V>) {
    && (forall k :: k in M <==> k in left || k in moved)
    && (forall k :: k in left ==> k !in moved && M[k] == left[k])
    && (forall k :: k in moved ==> M[k] == moved[k])
  }

  lemma FromHere<K, V>(hash: K -> uint32, s: seq<Entry<K, V>>, table: seq<Option<nat>>, chains: seq<seq<nat>>, i: nat,
                       m: map<K, V>)
    requires BucketsFrom(hash, s, table, chains, i, m) && i < |table|
    ensures |chains| == |table| && Bucket(hash, s, table[i], chains[i], i, |table|, m)
    ensures BucketsFrom(hash, s, table, chains, i + 1, m)
  {
    hide Bucket;
  }

  /** Moving one binding over. */
  lemma NotMoved<K(!new), V>(M: map<K, V>, left: map<K, V>, moved: map<K, V>, key: K)
    requires SharedOut(M, left, moved) && key in left
    ensures key !in moved && SharedOut(M, left - {key}, moved[key := left[key]]) && |left - {key}| == |left| - 1
  {
    assert (left - {key}).Keys == left.Keys - {key};
    assert |left| == |left.Keys| && |left - {key}| == |(left - {key}).Keys|;
  }

  lemma EmptyTable<K, V>(hash: K -> uint32, s: seq<Entry<K, V>>, table: seq<Option<nat>>, chains: seq<seq<nat>>)
    requires |table| == |chains| && (forall b :: 0 <= b < |table| ==> table[b] == None && chains[b] == [])
    ensures Buckets(hash, s, table, chains, map[])
  {
  }

  lemma Pow2Gap4(n: nat)
    requires IsPow2(n) && INITIAL_SIZE <= n && (n == INITIAL_SIZE || n < 2 * INITIAL_SIZE)
    ensures n == INITIAL_SIZE
  {
    assert Pow2(2) == INITIAL_SIZE;
    Pow2Gap(INITIAL_SIZE, n);
  }

  /** The size a table needs for one more entry. */
  function Grown(used: nat, size: nat): nat {
    if size == 0 then INITIAL_SIZE else if used == size then 2 * size else size
  }

  /** The size of a table after _dictKeyIndex. */
  function SizeAfter(used: nat, size: nat): nat {
    if Grown(used, size) <= MAX_TABLE then Grown(used, size) else size
  }

  /** What _dictKeyIndex returns for a new key: its bucket as an int, or -1 without memory. */
  function Index(h: uint32, used: nat, size: nat): int {
    if Grown(used, size) <= MAX_TABLE && Grown(used, size) > 0 then ToInt(Slot(h, Grown(used, size))) else -1
  }

  lemma PowerBelow(n: nat)
    requires IsPow2(n) && n < MAX_TABLE
    ensures 2 * n <= MAX_TABLE
  {
    Pow2Values();
    if MAX_TABLE < 2 * n { Pow2Gap(n, MAX_TABLE); }
  }

  /** Four buckets at first, and twice as many when there is an entry for every bucket. */
  lemma TableGrowth(used: nat, size: nat)
    requires 0 < size < 0x1000_0000_0000_0000
    ensures SizeAfter(0, 0) == 4
    ensures used == size && IsPow2(size) ==> SizeAfter(used, size) == size + size
    ensures used != size ==> SizeAfter(used, size) == size
  {
    if used == size && IsPow2(size) { PowerBelow(size); }
    hide IsPow2;
  }

  /** A key's bucket is the rest of its hash by the size. */
  lemma SlotIsRest(h: nat, size: nat)
    requires size > 0
    ensures Slot(h, size) < size && h == h / size * size + Slot(h, size)
  {
  }

  /** A new key of this hash gets the bucket it belongs to. */
  predicate Placed(h: uint32, used: nat, size: nat) { Index(h, used, size) >= 0 }

  /** A bucket number that is not negative as an int is the bucket's. */
  lemma IndexIsSlot(h: uint32, size: nat)
    requires size > 0 && ToInt(Slot(h, size)) >= 0
    ensures ToInt(Slot(h, size)) == Slot(h, size)
  {
  }

  class Dict<K(!new, ==), V> {
    const hash: K -> uint32
    var store: seq<Entry<K, V>>
    var table: seq<Option<nat>>
    var size: nat
    var used: nat
    ghost var chains: seq<seq<nat>>
    /** The finite map this table stands for. */
    ghost var M: map<K, V>

    ghost predicate Valid()
      reads this
    {
      && |table| == size && (size == 0 || (IsPow2(size) && INITIAL_SIZE <= size)) && size <= MAX_TABLE
      && used == |M| <= size
      && Buckets(hash, store, table, chains, M)
    }

    lemma OneChainEach()
      requires Valid()
      ensures |chains| == size
    {
      hide Bucket;
    }

    lemma Cast()
      requires Valid()
      ensures size <= MAX_ITERATED ==> ToInt(size) == size
      ensures size > MAX_ITERATED ==> ToInt(size) <= 0
    {
      hide Slot, Buckets;
      CastOfSize(size);
    }

    constructor (hash: K -> uint32)
      ensures Valid() && M == map[] && this.hash == hash
    {
      this.hash := hash;
      store, table, size, used := [], [], 0, 0;
      chains, M := [], map[];
    }

    /** dictFind; position is where the entry is in its chain. */
    method Find(key: K) returns (he: Option<nat>, ghost i: nat)
      requires Valid()
      ensures he == None <==> key !in M
      ensures he.Some? ==> he.value < |store| && store[he.value].key == key && store[he.value].val == M[key]
      ensures he.Some? ==> size > 0 && var c := chains[Slot(hash(key), size)]; i < |c| && c[i] == he.value
    {
      hide Slot;
      i := 0;
      if size == 0 { return None, 0; }
      var h := Slot(hash(key), size);
      assert Bucket(hash, store, table[h], chains[h], h, size, M);
      he := table[h];
      ghost var c := chains[h];
      while he.Some?
        invariant 0 <= i <= |c| && he == Link(c, i)
        invariant forall j :: 0 <= j < i ==> store[c[j]].key != key
        decreases |c| - i
      {
        if store[he.value].key == key { return; }
        he := store[he.value].next;
        i := i + 1;
      }
    }

    /** One turn of dictExpand's outer loop. */
    method MoveBucket(i: nat, newTable0: seq<Option<nat>>, ghost newChains0: seq<seq<nat>>, ghost left0: map<K, V>,
                      ghost moved0: map<K, V>)
      returns (newTable: seq<Option<nat>>, ghost newChains: seq<seq<nat>>, ghost left: map<K, V>,
               ghost moved: map<K, V>)
      requires i < size == |table| && |newTable0| > 0 && used == |left0|
      requires BucketsFrom(hash, store, table, chains, i, left0)
      requires Buckets(hash, store, newTable0, newChains0, moved0)
      requires SharedOut(M, left0, moved0)
      requires forall k :: k in left0 ==> Slot(hash(k), size) >= i
      modifies this`store, this`used
      ensures |newTable| == |newTable0| && used == |left|
      ensures BucketsFrom(hash, store, table, chains, i + 1, left)
      ensures Buckets(hash, store, newTable, newChains, moved)
      ensures SharedOut(M, left, moved)
      ensures forall k :: k in left ==> Slot(hash(k), size) >= i + 1
    {
      FromHere(hash, store, table, chains, i, left0);
      hide Slot, Bucket, Push, Cut, SharedOut, Buckets, BucketsFrom;
      newTable, newChains, left, moved := newTable0, newChains0, left0, moved0;
      var he: Option<nat> := table[i];
      ghost var c := chains[i];
      while he.Some?
        invariant |newTable| == |newTable0| && used == |left|
        invariant Bucket(hash, store, he, c, i, size, left)
        invariant BucketsFrom(hash, store, table, chains, i + 1, left)
        invariant Buckets(hash, store, newTable, newChains, moved)
        invariant SharedOut(M, left, moved)
        invariant forall k :: k in left ==> Slot(hash(k), size) >= i
        decreases |c|
      {
        assert he.value < |store| by { BucketHead(hash, store, he.value, c, i, size, left); }
        ghost var id, key := he.value, store[he.value].key;
        var nextHe := store[he.value].next;
        var h := Slot(hash(store[he.value].key), |newTable|);
        TakeFirst(hash, store, c, i, size, left, id, newTable[h]);
        KeepFrom(hash, store, table, chains, i + 1, left, id, newTable[h]);
        NotMoved(M, left, moved, key);
        PushAll(hash, store, newTable, newChains, moved, id, h);
        c, newChains := Cut(c, 0), newChains[h := Push(id, newChains[h])];
        left, moved := left - {key}, moved[key := store[id].val];
        store := store[he.value := store[he.value].(next := newTable[h])];
        newTable := newTable[h := he];
        used := used - 1;
        he := nextHe;
      }
      EmptyBucket(hash, store, c, i, size, left);
    }

    /** dictExpand: every entry is relinked into a table of the next power of two. */
    method Expand(n: nat) returns (ok: bool)
      requires Valid() && n < 0x1_0000_0000_0000_0000
      modifies this
      ensures Valid() && ok == (old(used) <= n <= MAX_TABLE) && M == old(M)
      ensures ok ==> n <= size && (size == INITIAL_SIZE || size < 2 * n)
      ensures !ok ==> store == old(store) && table == old(table) && size == old(size)
    {
      hide Slot, Bucket, Push, Cut;
      var realsize := NextPower(n);
      if used > n { return false; }
      TableFits(n, realsize);
      // calloc of realsize pointers
      if realsize * 8 >= 0x1_0000_0000_0000_0000 { return false; }
      var newUsed := used;
      var newTable := seq(realsize, _ => None);
      ghost var newChains: seq<seq<nat>> := seq(realsize, _ => []);
      EmptyTable(hash, store, newTable, newChains);
      ghost var left, moved: map<K, V> := M, map[];
      var i := 0;
      while i < size && used > 0
        invariant i <= size && |table| == size && |newTable| == realsize && used == |left|
        invariant size == old(size) && table == old(table) && M == old(M)
        invariant BucketsFrom(hash, store, table, chains, i, left)
        invariant Buckets(hash, store, newTable, newChains, moved)
        invariant SharedOut(M, left, moved)
        invariant size > 0 ==> forall k :: k in left ==> Slot(hash(k), size) >= i
      {
        newTable, newChains, left, moved := MoveBucket(i, newTable, newChains, left, moved);
        i := i + 1;
      }
      assert left == map[];
      assert moved == M;
      assert used == 0;
      table, size, used, chains := newTable, realsize, newUsed, newChains;
      return true;
    }

    /** _dictKeyIndex: room is made first, also when the key turns out to be there. The
        bucket, which is unsigned, is returned as an int. */
    method KeyIndex(key: K) returns (index: int)
      requires Valid()
      modifies this
      ensures Valid() && M == old(M) && used == old(used) && size == SizeAfter(old(used), old(size))
      ensures index == if key in M then -1 else Index(hash(key), old(used), old(size))
      ensures Grown(old(used), old(size)) <= MAX_TABLE ==> size > 0 && used < size
    {
      hide Slot, Buckets;
      if size == 0 {
        var _ := Expand(INITIAL_SIZE);
        Pow2Gap4(size);
      } else if used == size {
        Doubled(size);
        var ok := Expand(2 * size);
        if !ok { return -1; }
        Pow2Gap(2 * old(size), size);
      }
      var found, _ := Find(key);
      if found.Some? { return -1; }
      return ToInt(Slot(hash(key), size));
    }

    /** The end of dictAdd: a new entry in front of its bucket. */
    method Insert(key: K, val: V, h: nat)
      requires Valid() && used < size && key !in M && h == Slot(hash(key), size)
      modifies this
      ensures Valid() && size == old(size) && M == old(M)[key := val]
    {
      hide Slot;
      ghost var was := store;
      store := store + [Entry(key, val, table[h])];
      ghost var id := |store| - 1;
      ghost var chains' := chains[h := Push(id, chains[h])];
      forall b | 0 <= b < size
        ensures Bucket(hash, store, table[h := Some(id)][b], chains'[b], b, size, M[key := val])
      {
        assert Bucket(hash, was, table[b], chains[b], b, size, M);
        if b == h { BucketPush(hash, was, store, table[b], chains[b], b, size, M, id); }
        else { BucketKept(hash, was, store, table[b], chains[b], b, size, M, M[key := val]); }
      }
      table := table[h := Some(|store| - 1)];
      used := used + 1;
      chains := chains';
      M := M[key := val];
    }

    /** dictAdd. A negative index other than -1 would be used to write before the table;
        then nothing is done here, and inside is false. The answer is that of a map if and
        only if the key is there, or its bucket has a place in memory and a number in int. */
    method Add(key: K, val: V) returns (ok: bool, inside: bool)
      requires Valid()
      modifies this
      ensures Valid() && size == SizeAfter(old(used), old(size))
      ensures inside <==> key in old(M) || Index(hash(key), old(used), old(size)) >= -1
      ensures ok <==> key !in old(M) && Placed(hash(key), old(used), old(size))
      ensures M == if ok then old(M)[key := val] else old(M)
      ensures ok == (key !in old(M)) && M == (if key in old(M) then old(M) else old(M)[key := val])
         <==> key in old(M) || Placed(hash(key), old(used), old(size))
    {
      var index := KeyIndex(key);
      if index == -1 { return false, true; }
      if index < 0 { return false, false; }
      IndexIsSlot(hash(key), size);
      hide Slot, Buckets, ToInt;
      Insert(key, val, index);
      return true, true;
    }

    /** The value update of dictReplace. */
    method Update(key: K, val: V)
      requires Valid() && key in M
      modifies this`store, this`M
      ensures Valid() && M == old(M)[key := val]
    {
      hide Slot, Bucket;
      var entry, i := Find(key);
      ghost var h := Slot(hash(key), size);
      BucketsSet(hash, store, table, chains, M, h, i, val);
      store := store[entry.value := store[entry.value].(val := val)];
      M := M[key := val];
      assert M.Keys == old(M).Keys;
    }

    /** dictReplace: 1 when the key is new, 0 when only its value was set, and also when
        neither could be done. */
    method Replace(key: K, val: V) returns (r: int, inside: bool)
      requires Valid()
      modifies this
      ensures Valid() && size == SizeAfter(old(used), old(size))
      ensures inside <==> key in old(M) || Index(hash(key), old(used), old(size)) >= -1
      ensures r == if key !in old(M) && Placed(hash(key), old(used), old(size)) then 1 else 0
      ensures M == if key in old(M) || r == 1 then old(M)[key := val] else old(M)
      ensures r == (if key in old(M) then 0 else 1) && M == old(M)[key := val]
         <==> key in old(M) || Placed(hash(key), old(used), old(size))
    {
      hide Slot, Buckets, Index;
      var ok;
      ok, inside := Add(key, val);
      if ok { return 1, inside; }
      if !inside { return 0, inside; }
      var entry, _ := Find(key);
      if entry == None { return 0, inside; }
      Update(key, val);
      return 0, inside;
    }

    /** The search inside dictDelete, which remembers the entry before. */
    method Locate(key: K) returns (prevde: Option<nat>, de: Option<nat>, ghost at: nat)
      requires Valid() && size > 0
      ensures |chains| == size && (de == None <==> key !in M)
      ensures var c := chains[Slot(hash(key), size)];
        de.Some? ==> at < |c| && c[at] == de.value < |store| && store[de.value].key == key
                     && prevde == if at == 0 then None else Some(c[at - 1])
    {
      hide Slot, Bucket;
      var h := Slot(hash(key), size);
      ghost var c := chains[h];
      AbsentIff(hash, store, table[h], c, h, size, M, key);
      de, prevde, at := table[h], None, 0;
      while de.Some?
        invariant 0 <= at <= |c| && de == Link(c, at)
        invariant prevde == if at == 0 then None else Some(c[at - 1])
        invariant forall j :: 0 <= j < at ==> store[c[j]].key != key
        decreases |c| - at
      {
        if store[de.value].key == key { return; }
        prevde := de;
        de := store[de.value].next;
        at := at + 1;
      }
    }

    /** The unlinking inside dictDelete. */
    method Unlink(key: K, prevde: Option<nat>, de: nat, ghost at: nat)
      requires Valid() && size > 0 && key in M
      requires var c := chains[Slot(hash(key), size)];
        && at < |c| && c[at] == de < |store| && store[de].key == key
          && (prevde == if at == 0 then None else Some(c[at - 1]))
      modifies this
      ensures Valid() && M == old(M) - {key} && size == old(size)
      ensures var h := Slot(hash(key), size);
        chains == old(chains)[h := Cut(old(chains[h]), at)]
      ensures SamePairs(store, old(store))
    {
      hide Slot, Bucket, Skip, Cut;
      var h := Slot(hash(key), size);
      ghost var c := chains[h];
      BucketBounds(hash, store, table[h], c, h, size, M);
      BucketsCut(hash, store, table, chains, M, h, at);
      ghost var s' := Skip(store, c, at);
      if prevde.Some? {
        store := store[prevde.value := store[prevde.value].(next := store[de].next)];
      } else {
        table := table[h := store[de].next];
      }
      assert store == s';
      used := used - 1;
      chains := chains[h := Cut(c, at)];
      M := M - {key};
    }

    /** dictDelete; at is the place in its chain the entry is cut from. */
    method Delete(key: K) returns (ok: bool, ghost at: nat)
      requires Valid()
      modifies this
      ensures Valid() && ok == (key in old(M)) && M == old(M) - {key} && size == old(size)
      ensures !ok ==> chains == old(chains) && store == old(store)
      ensures ok ==> size > 0 && |old(chains)| == size && var h := Slot(hash(key), size); var c := old(chains)[h];
        && at < |c| && c[at] < |old(store)| && old(store)[c[at]].key == key
        && chains == old(chains)[h := Cut(c, at)]
      ensures SamePairs(store, old(store))
    {
      hide Slot, Buckets;
      at := 0;
      if size == 0 { return false, 0; }
      var prevde, de, i := Locate(key);
      if de.None? {
        assert M == M - {key};
        return false, 0;
      }
      Unlink(key, prevde, de.value, i);
      return true, i;
    }
  }

  /** All entries, bucket after bucket. */
  ghost function Flat(chains: seq<seq<nat>>): seq<nat> {
    if |chains| == 0 then [] else chains[0] + Flat(chains[1..])
  }

  lemma FlatAt(chains: seq<seq<nat>>, i: nat)
    requires i < |chains|
    ensures Flat(chains[i..]) == chains[i] + Flat(chains[i + 1..])
  {
    assert chains[i..][0] == chains[i] && chains[i..][1..] == chains[i + 1..];
  }

  /** The entries ids hold exactly the bindings of m in buckets from place i on, each
      key once. */
  ghost predicate Lists<K(!new), V>(hash: K -> uint32, s: seq<Entry<K, V>>, n: nat, ids: seq<nat>, i: nat, m: map<K, V>)
    requires n > 0
  {
    && (forall j :: 0 <= j < |ids| ==> ids[j] < |s|)
    && KeysApart(s, ids)
    && (forall j :: 0 <= j < |ids| ==> var e := s[ids[j]]; Slot(hash(e.key), n) >= i && e.key in m && m[e.key] == e.val)
    && (forall k :: k in m && Slot(hash(k), n) >= i ==> exists j :: 0 <= j < |ids| && s[ids[j]].key == k)
  }

  lemma ListsCons<K(!new), V>(hash: K -> uint32, s: seq<Entry<K, V>>, n: nat, head: Option<nat>, c: seq<nat>,
                    ids: seq<nat>, i: nat, m: map<K, V>)
    requires n > 0 && Bucket(hash, s, head, c, i, n, m) && Lists(hash, s, n, ids, i + 1, m)
    ensures Lists(hash, s, n, c + ids, i, m)
  {
    hide Slot, Link;
    var d := c + ids;
    forall k | k in m && Slot(hash(k), n) >= i ensures exists j :: 0 <= j < |d| && s[d[j]].key == k {
      if Slot(hash(k), n) == i {
        var j :| 0 <= j < |c| && s[c[j]].key == k;
        assert d[j] == c[j];
      } else {
        var j :| 0 <= j < |ids| && s[ids[j]].key == k;
        assert d[|c| + j] == ids[j];
      }
    }
  }

  lemma {:induction false} FlatLists<K(!new), V>(hash: K -> uint32, s: seq<Entry<K, V>>, table: seq<Option<nat>>,
                                       chains: seq<seq<nat>>, i: nat, m: map<K, V>)
    requires Buckets(hash, s, table, chains, m) && i <= |table| && |table| > 0
    ensures Lists(hash, s, |table|, Flat(chains[i..]), i, m)
    decreases |table| - i
  {
    hide Slot, Bucket;
    if i < |table| {
      FlatLists(hash, s, table, chains, i + 1, m);
      FlatAt(chains, i);
      ListsCons(hash, s, |table|, table[i], chains[i], Flat(chains[i + 1..]), i, m);
    }
  }

  function Tail(c: seq<nat>): (d: seq<nat>) { if |c| == 0 then [] else c[1..] }

  ghost predicate Suffix(r: seq<nat>, c: seq<nat>) { |r| <= |c| && c[|c| - |r|..] == r }

  lemma BucketStart<K, V>(hash: K -> uint32, s: seq<Entry<K, V>>, head: Option<nat>, c: seq<nat>, b: nat, n: nat,
                          m: map<K, V>)
    requires n > 0 && Bucket(hash, s, head, c, b, n, m)
    ensures head == Link(c, 0) && Suffix(c, c)
  {
  }

  lemma SuffixLink<K, V>(hash: K -> uint32, s: seq<Entry<K, V>>, head: Option<nat>, c: seq<nat>, b: nat, n: nat,
                         m: map<K, V>, rest: seq<nat>)
    requires n > 0 && Bucket(hash, s, head, c, b, n, m) && Suffix(rest, c) && |rest| > 0
    ensures rest[0] < |s| && s[rest[0]].next == Link(Tail(rest), 0)
    ensures Suffix(Tail(rest), c) && rest == Push(rest[0], Tail(rest))
  {
    hide Slot, KeysApart, Sound, Complete;
    var i := |c| - |rest|;
    assert rest[0] == c[i] && s[c[i]].next == Link(c, i + 1);
    if |rest| > 1 { assert c[i..][1] == c[i + 1]; }
  }

  lemma SamePlace<K, V>(s: seq<Entry<K, V>>, c: seq<nat>, i: nat, j: nat)
    requires (forall i :: 0 <= i < |c| ==> c[i] < |s|)
    requires KeysApart(s, c) && i < |c| && j < |c| && s[c[i]].key == s[c[j]].key
    ensures i == j
  {
  }

  /** Unlinking the entry just before a suffix leaves the suffix in place. */
  lemma SuffixCut<K, V>(hash: K -> uint32, s: seq<Entry<K, V>>, head: Option<nat>, c: seq<nat>, b: nat, n: nat,
                        m: map<K, V>, id: nat, rest: seq<nat>, at: nat)
    requires n > 0 && Bucket(hash, s, head, c, b, n, m) && Suffix(Push(id, rest), c) && at < |c|
    requires id < |s| && c[at] < |s| && s[c[at]].key == s[id].key
    ensures Suffix(rest, Cut(c, at))
  {
    hide Slot;
    var i := |c| - |rest| - 1;
    assert c[i..][0] == id;
    SamePlace(s, c, at, i);
    assert c[i..][1..] == c[i + 1..];
  }

  /** What an iterator at this place still has ahead. */
  ghost function Ahead(rest: seq<nat>, chains: seq<seq<nat>>, index: int): seq<nat>
    requires -1 <= index
  {
    rest + (if index < |chains| then Flat(chains[index + 1..]) else [])
  }

  lemma AheadNext(chains: seq<seq<nat>>, index: int)
    requires -1 <= index
    ensures Ahead([], chains, index) == if index + 1 < |chains| then Ahead(chains[index + 1], chains, index + 1) else []
  {
    if index + 1 < |chains| { FlatAt(chains, index + 1); }
  }

  lemma AheadNothing(chains: seq<seq<nat>>, index: int)
    requires index >= |chains|
    ensures Ahead([], chains, index) == []
  {
  }

  lemma PushAhead(id: nat, rest: seq<nat>, chains: seq<seq<nat>>, index: int)
    requires -1 <= index
    ensures Ahead(Push(id, rest), chains, index) == Push(id, Ahead(rest, chains, index))
  {
  }

  lemma InBucket<K, V>(hash: K -> uint32, s: seq<Entry<K, V>>, head: Option<nat>, c: seq<nat>, b: nat, n: nat,
                       m: map<K, V>, id: nat, rest: seq<nat>)
    requires n > 0 && Bucket(hash, s, head, c, b, n, m) && Suffix(Push(id, rest), c)
    ensures id < |s| && s[id].key in m && Slot(hash(s[id].key), n) == b
  {
    hide Slot;
    assert c[|c| - |rest| - 1] == Push(id, rest)[0];
  }

  /** dictIterator. The entry it returned last may be unlinked before it moves on. */
  class Iterator<K(!new, ==), V> {
    const ht: Dict<K, V>
    var index: int
    var entry: Option<nat>
    var nextEntry: Option<nat>
    /** What is left of the current chain. */
    ghost var rest: seq<nat>

    ghost predicate Valid()
      reads this, ht
    {
      && -1 <= index && |ht.chains| == ht.size
      && (entry.Some? ==>
            ht.size <= MAX_ITERATED && 0 <= index < ht.size && Suffix(rest, ht.chains[index])
              && nextEntry == Link(rest, 0))
      && (entry.None? ==> rest == [] && (index == -1 || index >= ht.size || ht.size > MAX_ITERATED))
    }

    /** The entries still to come: none in a table too large for the cast. */
    ghost function Remaining(): seq<nat>
      reads this, ht
      requires Valid()
    {
      if ht.size > MAX_ITERATED then [] else Ahead(rest, ht.chains, index)
    }

    /** The entry returned last is linked in its bucket, just before the rest. */
    ghost predicate Returned(he: nat)
      reads this, ht
      requires Valid()
    {
      entry.Some? && he < |ht.store| && Suffix(Push(he, rest), ht.chains[index])
    }

    constructor (ht: Dict<K, V>)
      requires ht.Valid()
      ensures Valid() && this.ht == ht && index == -1
      ensures Remaining() == if ht.size > MAX_ITERATED then [] else Flat(ht.chains)
    {
      hide Dict.Valid, Flat, Suffix;
      ht.OneChainEach();
      this.ht := ht;
      index, entry, nextEntry, rest := -1, None, None, [];
      new;
      assert ht.chains[0..] == ht.chains;
    }

    /** On the way to the next entry. */
    ghost predicate Moving()
      reads this, ht
    {
      && -1 <= index < INT_MAX && |ht.chains| == ht.size
      && (entry.Some? ==>
            ht.size <= MAX_ITERATED && 0 <= index < ht.size && Suffix(rest, ht.chains[index])
              && nextEntry == Link(rest, 0))
      && (entry.None? ==> rest == [])
    }

    /** On to the next bucket. */
    method EnterBucket()
      requires ht.Valid() && -1 <= index && index + 1 < ht.size && rest == []
      modifies this`index, this`entry, this`rest
      ensures index == old(index) + 1 && Suffix(rest, ht.chains[index]) && entry == Link(rest, 0)
      ensures Ahead(rest, ht.chains, index) == Ahead([], ht.chains, old(index))
    {
      hide Suffix, Flat, Bucket, Slot, Ahead;
      AheadNext(ht.chains, index);
      index := index + 1;
      entry := ht.table[index];
      rest := ht.chains[index];
      BucketStart(ht.hash, ht.store, entry, rest, index, ht.size, ht.M);
    }

    /** The part of dictNext's loop before an entry is found. */
    method Advance() returns (ended: bool)
      requires ht.Valid() && Moving()
      modifies this`index, this`entry, this`rest
      ensures ended ==> Valid() && Remaining() == []
      ensures ended ==> ht.size <= MAX_ITERATED ==> Ahead(old(rest), ht.chains, old(index)) == []
      ensures !ended ==>
        0 <= index < ht.size <= MAX_ITERATED && Suffix(rest, ht.chains[index]) && entry == Link(rest, 0)
      ensures !ended ==> Ahead(rest, ht.chains, index) == Ahead(old(rest), ht.chains, old(index))
      ensures !ended ==>
        if old(entry) == None then index == old(index) + 1 else index == old(index) && nextEntry == entry
    {
      hide Suffix, Ahead, Flat, Link, Dict.Valid, ToInt;
      ht.Cast();
      if entry.None? {
        if index + 1 >= ToInt(ht.size) {
          AheadNext(ht.chains, index);
          index := index + 1;
          if ht.size <= MAX_ITERATED { AheadNothing(ht.chains, index); }
          return true;
        }
        EnterBucket();
      } else {
        entry := nextEntry;
      }
      return false;
    }

    /** The entry to return is known; what follows it is saved. */
    method SaveNext()
      requires ht.Valid() && 0 <= index < ht.size <= MAX_ITERATED && entry.Some?
      requires Suffix(rest, ht.chains[index]) && entry == Link(rest, 0)
      modifies this`nextEntry, this`rest
      ensures Valid() && Returned(entry.value)
      ensures Ahead(old(rest), ht.chains, index) == Push(entry.value, Remaining())
    {
      SuffixLink(ht.hash, ht.store, ht.table[index], ht.chains[index], index, ht.size, ht.M, rest);
      hide Suffix, Push, Flat, Tail, Bucket, Slot, Ahead;
      PushAhead(entry.value, Tail(rest), ht.chains, index);
      nextEntry := ht.store[entry.value].next;
      rest := Tail(rest);
    }

    /** dictNext: the first of the remaining entries, or null when none remain. */
    method Next() returns (he: Option<nat>)
      requires Valid() && ht.Valid() && index < INT_MAX
      modifies this
      ensures Valid()
      ensures old(Remaining()) == if he.Some? then Push(he.value, Remaining()) else []
      ensures he.None? ==> Remaining() == []
      ensures he.Some? ==> Returned(he.value) && index < INT_MAX
    {
      hide Suffix, Push, Ahead, Dict.Valid, ToInt;
      ghost var remaining := Remaining();
      while true
        invariant Moving() && remaining == if ht.size > MAX_ITERATED then [] else Ahead(rest, ht.chains, index)
        decreases if index < ht.size then ht.size - index else 0, entry.Some?
      {
        var ended := Advance();
        if ended { return None; }
        if entry.Some? {
          SaveNext();
          return entry;
        }
      }
    }

    /** The caller deletes the entry it was just given. */
    method DeleteReturned(he: nat)
      requires Valid() && ht.Valid() && Returned(he)
      modifies ht
      ensures Valid() && ht.Valid() && Remaining() == old(Remaining())
      ensures ht.M == old(ht.M) - {old(ht.store[he].key)}
      ensures SamePairs(ht.store, old(ht.store))
    {
      hide Suffix, Push, Flat, Bucket, Slot, Cut;
      ghost var s, t, c, m := ht.store, ht.table[index], ht.chains[index], ht.M;
      InBucket(ht.hash, s, t, c, index, ht.size, m, he, rest);
      var _, at := ht.Delete(ht.store[he].key);
      SuffixCut(ht.hash, s, t, c, index, ht.size, m, he, rest, at);
      assert ht.chains[index + 1..] == old(ht.chains)[index + 1..];
    }

    /** What the caller does with an entry: it copies the pair and may delete it. */
    method Visit(he: nat, doomed: K -> bool, ghost s: seq<Entry<K, V>>) returns (pair: (K, V))
      requires Valid() && ht.Valid() && Returned(he) && SamePairs(ht.store, s)
      modifies ht
      ensures Valid() && ht.Valid() && Remaining() == old(Remaining()) && SamePairs(ht.store, s)
      ensures pair == old((ht.store[he].key, ht.store[he].val))
      ensures ht.M == old(ht.M) - if doomed(pair.0) then {pair.0} else {}
    {
      hide Suffix, Push, Flat, Bucket, Slot, Buckets, Ahead;
      pair := (ht.store[he].key, ht.store[he].val);
      if doomed(pair.0) {
        DeleteReturned(he);
      } else {
        assert ht.M == ht.M - {};
      }
    }
  }

  ghost predicate Among<K(!new), V>(visited: seq<(K, V)>, key: K) {
    exists i :: 0 <= i < |visited| && visited[i].0 == key
  }

  ghost predicate Pairs<K, V>(s: seq<Entry<K, V>>, ids: seq<nat>, visited: seq<(K, V)>) {
    && |ids| == |visited|
    && forall i :: 0 <= i < |ids| ==> ids[i] < |s| && visited[i] == (s[ids[i]].key, s[ids[i]].val)
  }

  /** Part of the way through: the entries of visited are off the list, rest is still on
      it, and what is left of the map m is now. */
  ghost predicate Visiting<K(!new), V>(s: seq<Entry<K, V>>, m: map<K, V>, now: map<K, V>, all: seq<nat>,
                                       visited: seq<(K, V)>, doomed: K -> bool, rest: seq<nat>) {
    && |visited| <= |all| && all[|visited|..] == rest
    && Pairs(s, all[..|visited|], visited)
    && (forall k :: k in now <==> k in m && !(doomed(k) && Among(visited, k)))
    && (forall k :: k in now ==> now[k] == m[k])
  }

  lemma VisitedNone<K(!new), V>(s: seq<Entry<K, V>>, m: map<K, V>, now: map<K, V>, visited: seq<(K, V)>,
                      doomed: K -> bool)
    requires Visiting(s, m, now, [], visited, doomed, [])
    ensures visited == [] && now == m && ((forall k :: k in m ==> Among(visited, k)) <==> m == map[])
  {
    assert forall k :: !Among(visited, k);
    if forall k :: k !in m { assert m == map[]; }
  }

  lemma VisitStarts<K(!new), V>(s: seq<Entry<K, V>>, m: map<K, V>, all: seq<nat>, doomed: K -> bool)
    ensures Visiting(s, m, m, all, [], doomed, all)
  {
    assert all[0..] == all;
  }

  lemma PairsSnoc<K, V>(s: seq<Entry<K, V>>, s': seq<Entry<K, V>>, ids: seq<nat>, visited: seq<(K, V)>, id: nat)
    requires Pairs(s, ids, visited) && SamePairs(s', s) && id < |s'|
    ensures Pairs(s, ids + [id], visited + [(s'[id].key, s'[id].val)])
  {
  }

  lemma VisitGoesOn<K(!new), V>(s: seq<Entry<K, V>>, s': seq<Entry<K, V>>, m: map<K, V>, now: map<K, V>, all: seq<nat>,
                                visited: seq<(K, V)>, doomed: K -> bool, id: nat, rest: seq<nat>)
    requires Visiting(s, m, now, all, visited, doomed, Push(id, rest)) && SamePairs(s', s) && id < |s'|
    ensures var key := s'[id].key;
      Visiting(s, m, now - (if doomed(key) then {key} else {}), all, visited + [(key, s'[id].val)], doomed, rest)
  {
    var n, v := |visited|, visited + [(s'[id].key, s'[id].val)];
    assert all[n..][0] == id && all[n..][1..] == all[n + 1..];
    assert all[..n + 1] == all[..n] + [id];
    PairsSnoc(s, s', all[..n], visited, id);
    forall k ensures Among(v, k) <==> (k == v[n].0 || Among(visited, k)) {
      if Among(visited, k) {
        var i :| 0 <= i < n && visited[i].0 == k;
        assert v[i].0 == k;
      }
    }
  }

  lemma SameRefl<K, V>(s: seq<Entry<K, V>>)
    ensures SamePairs(s, s)
  {
  }

  lemma VisitedAll<K(!new), V>(hash: K -> uint32, s: seq<Entry<K, V>>, n: nat, ids: seq<nat>, m: map<K, V>,
                               now: map<K, V>, visited: seq<(K, V)>, doomed: K -> bool)
    requires (if n > 0 then Lists(hash, s, n, ids, 0, m) else ids == [] && m == map[])
    requires Visiting(s, m, now, ids, visited, doomed, [])
    ensures forall k :: k in now <==> k in m && !doomed(k)
    ensures forall k :: k in now ==> now[k] == m[k]
    ensures forall i, j :: 0 <= i < j < |visited| ==> visited[i].0 != visited[j].0
    ensures forall i :: 0 <= i < |visited| ==> visited[i].0 in m && visited[i].1 == m[visited[i].0]
    ensures forall k :: k in m ==> Among(visited, k)
  {
    hide Slot;
    assert ids[..|visited|] == ids;
    forall k | k in m ensures Among(visited, k) {
      assert n > 0 && Slot(hash(k), n) >= 0;
      var i :| 0 <= i < |ids| && s[ids[i]].key == k;
      assert visited[i].0 == k;
    }
  }

  lemma ListsAll<K(!new), V>(ht: Dict<K, V>)
    requires ht.Valid()
    ensures
      if ht.size > 0 then Lists(ht.hash, ht.store, ht.size, Flat(ht.chains), 0, ht.M)
      else Flat(ht.chains) == [] && ht.M == map[]
  {
    if ht.size > 0 {
      FlatLists(ht.hash, ht.store, ht.table, ht.chains, 0, ht.M);
      assert ht.chains[0..] == ht.chains;
    }
  }

  /** Visiting a whole table, deleting each returned entry whose key is doomed before
      asking for the next. Every binding is returned, exactly once, and then null, if and
      only if the table is empty or has at most 2^30 buckets; a larger table has its
      iteration ended before it begins. */
  method VisitAll<K(!new, ==), V>(ht: Dict<K, V>, doomed: K -> bool) returns (visited: seq<(K, V)>)
    requires ht.Valid()
    modifies ht
    ensures ht.Valid()
    ensures forall i, j :: 0 <= i < j < |visited| ==> visited[i].0 != visited[j].0
    ensures forall i :: 0 <= i < |visited| ==> visited[i].0 in old(ht.M) && visited[i].1 == old(ht.M)[visited[i].0]
    ensures (forall k :: k in old(ht.M) ==> Among(visited, k)) <==> (old(ht.M) == map[] || old(ht.size) <= MAX_ITERATED)
    ensures old(ht.size) <= MAX_ITERATED ==> forall k :: k in ht.M <==> k in old(ht.M) && !doomed(k)
    ensures old(ht.size) > MAX_ITERATED ==> visited == [] && ht.M == old(ht.M)
    ensures forall k :: k in ht.M ==> ht.M[k] == old(ht.M)[k]
  {
    hide Push, Flat, Bucket, Lists, Slot, Suffix, Buckets, SamePairs, Pairs, Visiting, Ahead, Among, Dict.Valid,
      Iterator.Valid;
    ghost var n, s, m := ht.size, ht.store, ht.M;
    SameRefl(s);
    ListsAll(ht);
    var iter := new Iterator(ht);
    ghost var all := iter.Remaining();
    visited := [];
    VisitStarts(s, m, all, doomed);
    var he: Option<nat> := iter.Next();
    while he.Some?
      invariant ht.Valid() && iter.Valid() && iter.ht == ht && SamePairs(ht.store, s)
      invariant Visiting(s, m, ht.M, all, visited, doomed, if he.Some? then Push(he.value, iter.Remaining()) else [])
      invariant he.Some? ==> iter.Returned(he.value) && iter.index < INT_MAX
      invariant he.None? ==> iter.Remaining() == []
      decreases |iter.Remaining()| + if he.Some? then 1 else 0
    {
      VisitGoesOn(s, ht.store, m, ht.M, all, visited, doomed, he.value, iter.Remaining());
      var pair := iter.Visit(he.value, doomed, s);
      visited := visited + [pair];
      he := iter.Next();
    }
    if n <= MAX_ITERATED {
      VisitedAll(ht.hash, s, n, all, m, ht.M, visited, doomed);
    } else {
      VisitedNone(s, m, ht.M, visited, doomed);
    }
  }

  // ---- whole runs ----

  datatype Op<K, V> = Add(key: K, val: V) | Replace(key: K, val: V) | Delete(key: K) | Find(key: K)

  datatype Answer<V> = Done(ok: bool) | Value(val: Option<V>)

  /** What a finite map answers, and what it becomes. */
  function Answered<K, V>(m: map<K, V>, op: Op<K, V>): Answer<V> {
    match op
    case Add(key, _) => Done(key !in m)
    case Replace(key, _) => Done(key !in m)
    case Delete(key) => Done(key in m)
    case Find(key) => Value(if key in m then Some(m[key]) else None)
  }

  function Changed<K, V>(m: map<K, V>, op: Op<K, V>): map<K, V> {
    match op
    case Add(key, val) => if key in m then m else m[key := val]
    case Replace(key, val) => m[key := val]
    case Delete(key) => m - {key}
    case Find(_) => m
  }

  function ChangedAll<K, V>(m: map<K, V>, ops: seq<Op<K, V>>): map<K, V> {
    if |ops| == 0 then m else Changed(ChangedAll(m, ops[..|ops| - 1]), ops[|ops| - 1])
  }

  /** All the answers of a finite map. */
  function MapAnswers<K, V>(m: map<K, V>, ops: seq<Op<K, V>>): (answers: seq<Answer<V>>)
    ensures |answers| == |ops|
  {
    if |ops| == 0 then []
    else MapAnswers(m, ops[..|ops| - 1]) + [Answered(ChangedAll(m, ops[..|ops| - 1]), ops[|ops| - 1])]
  }

  /** The size of a table after calls that a finite map with as many keys answers. */
  function SizeThen<K, V>(m: map<K, V>, size: nat, op: Op<K, V>): nat {
    if op.Add? || op.Replace? then SizeAfter(|m|, size) else size
  }

  function SizeAll<K, V>(m: map<K, V>, size: nat, ops: seq<Op<K, V>>): nat {
    if |ops| == 0 then size
    else SizeThen(ChangedAll(m, ops[..|ops| - 1]), SizeAll(m, size, ops[..|ops| - 1]), ops[|ops| - 1])
  }

  /** The call puts no new key, or puts it where its bucket has a number in int. */
  predicate OpPlaced<K, V>(hash: K -> uint32, m: map<K, V>, size: nat, op: Op<K, V>) {
    op.Add? || op.Replace? ==> op.key in m || Placed(hash(op.key), |m|, size)
  }

  predicate PlacedAt<K, V>(hash: K -> uint32, m: map<K, V>, size: nat, ops: seq<Op<K, V>>, i: nat)
    requires i < |ops|
  {
    OpPlaced(hash, ChangedAll(m, ops[..i]), SizeAll(m, size, ops[..i]), ops[i])
  }

  /** That holds of every call of a run. */
  predicate AllPlaced<K, V>(hash: K -> uint32, m: map<K, V>, size: nat, ops: seq<Op<K, V>>) {
    |ops| == 0 || (AllPlaced(hash, m, size, ops[..|ops| - 1]) && PlacedAt(hash, m, size, ops, |ops| - 1))
  }

  /** One call on the table: it answers and acts as a finite map if and only if it puts no
      new key whose bucket has no number. */
  method Perform<K(!new, ==), V>(ht: Dict<K, V>, op: Op<K, V>) returns (answer: Answer<V>, inside: bool)
    requires ht.Valid()
    modifies ht
    ensures ht.Valid()
    ensures answer == Answered(old(ht.M), op) <==> OpPlaced(ht.hash, old(ht.M), old(ht.size), op)
    ensures OpPlaced(ht.hash, old(ht.M), old(ht.size), op) ==>
      inside && ht.M == Changed(old(ht.M), op) && ht.size == SizeThen(old(ht.M), old(ht.size), op)
  {
    hide Bucket, Buckets, Slot, Index;
    inside := true;
    match op {
      case Add(key, val) =>
        var ok;
        ok, inside := ht.Add(key, val);
        answer := Done(ok);
      case Replace(key, val) =>
        var r;
        r, inside := ht.Replace(key, val);
        answer := Done(r == 1);
      case Delete(key) =>
        var ok, _ := ht.Delete(key);
        answer := Done(ok);
      case Find(key) =>
        var he, _ := ht.Find(key);
        answer := Value(if he.Some? then Some(ht.store[he.value].val) else None);
    }
  }

  lemma {:induction false} PlacedPrefix<K, V>(hash: K -> uint32, m: map<K, V>, size: nat, ops: seq<Op<K, V>>, i: nat)
    requires i <= |ops| && AllPlaced(hash, m, size, ops)
    ensures AllPlaced(hash, m, size, ops[..i])
    decreases |ops|
  {
    if i < |ops| {
      assert ops[..|ops| - 1][..i] == ops[..i];
      PlacedPrefix(hash, m, size, ops[..|ops| - 1], i);
    } else {
      assert ops[..i] == ops;
    }
  }

  /** One more call of a run. */
  lemma RunStep<K, V>(hash: K -> uint32, m: map<K, V>, size: nat, ops: seq<Op<K, V>>, i: nat, answers: seq<Answer<V>>,
                      answer: Answer<V>)
    requires i < |ops| && |answers| == i
    requires answers == MapAnswers(m, ops[..i]) <==> AllPlaced(hash, m, size, ops[..i])
    requires AllPlaced(hash, m, size, ops[..i]) ==>
      var now, placed := ChangedAll(m, ops[..i]), PlacedAt(hash, m, size, ops, i);
      answer == Answered(now, ops[i]) <==> placed
    ensures answers + [answer] == MapAnswers(m, ops[..i + 1]) <==> AllPlaced(hash, m, size, ops[..i + 1])
    ensures AllPlaced(hash, m, size, ops[..i + 1]) <==>
      AllPlaced(hash, m, size, ops[..i]) && PlacedAt(hash, m, size, ops, i)
    ensures ChangedAll(m, ops[..i + 1]) == Changed(ChangedAll(m, ops[..i]), ops[i])
    ensures SizeAll(m, size, ops[..i + 1]) == SizeThen(ChangedAll(m, ops[..i]), SizeAll(m, size, ops[..i]), ops[i])
  {
    hide OpPlaced, Answered, Changed, SizeThen;
    assert ops[..i + 1][..i] == ops[..i];
    var last := Answered(ChangedAll(m, ops[..i]), ops[i]);
    assert MapAnswers(m, ops[..i + 1]) == MapAnswers(m, ops[..i]) + [last];
    assert (answers + [answer])[..i] == answers && (MapAnswers(m, ops[..i]) + [last])[..i] == MapAnswers(m, ops[..i]);
    assert (answers + [answer])[i] == answer && (MapAnswers(m, ops[..i]) + [last])[i] == last;
  }

  /** Every run of calls, of any length, answers as the finite map does, if and only if no
      call of the run puts a new key whose bucket has no number in int. A run that would
      write outside the table ends there. */
  method PerformAll<K(!new, ==), V>(ht: Dict<K, V>, ops: seq<Op<K, V>>) returns (answers: seq<Answer<V>>)
    requires ht.Valid()
    modifies ht
    ensures ht.Valid()
    ensures answers == MapAnswers(old(ht.M), ops) <==> AllPlaced(ht.hash, old(ht.M), old(ht.size), ops)
    ensures AllPlaced(ht.hash, old(ht.M), old(ht.size), ops) ==> ht.M == ChangedAll(old(ht.M), ops)
  {
    hide Dict.Valid, Answered, Changed, OpPlaced, SizeThen;
    answers := [];
    ghost var m, size := ht.M, ht.size;
    assert ops[..0] == [];
    var i, inside := 0, true;
    while i < |ops| && inside
      invariant i <= |ops| && |answers| == i && ht.Valid()
      invariant answers == MapAnswers(m, ops[..i]) <==> AllPlaced(ht.hash, m, size, ops[..i])
      invariant AllPlaced(ht.hash, m, size, ops[..i]) ==>
        inside && ht.M == ChangedAll(m, ops[..i]) && ht.size == SizeAll(m, size, ops[..i])
    {
      var answer;
      answer, inside := Perform(ht, ops[i]);
      RunStep(ht.hash, m, size, ops, i, answers, answer);
      answers := answers + [answer];
      i := i + 1;
    }
    assert ops[..|ops|] == ops;
    if AllPlaced(ht.hash, m, size, ops) { PlacedPrefix(ht.hash, m, size, ops, i); }
  }

  // ---- the first run that fails ----

  /** Keys 0, 1 and so on are put; the last of them hashes to h, the others to themselves. */
  function LateHash(h: uint32): uint32 -> uint32 { k => if k == 0x8000_0000 then h else k }

  function LateKeys(n: nat): (ops: seq<Op<uint32, int>>)
    requires n <= 0x1_0000_0000
    ensures |ops| == n && forall i :: 0 <= i < n ==> ops[i] == Add(i, 0)
  {
    seq(n, i requires 0 <= i < n => Add(i, 0))
  }

  lemma KeyAdded(m: map<uint32, int>, key: uint32)
    requires key !in m
    ensures |m[key := 0]| == |m| + 1
  {
    assert m[key := 0].Keys == m.Keys + {key};
    assert |m[key := 0]| == |m[key := 0].Keys| && |m| == |m.Keys|;
  }

  lemma {:induction false} KeysPut(n: nat)
    requires n <= 0x8000_0000
    ensures var m := ChangedAll(map[], LateKeys(n)); |m| == n && forall k: uint32 :: k in m <==> k < n
  {
    if n > 0 {
      KeysPut(n - 1);
      var ops, m := LateKeys(n), ChangedAll(map[], LateKeys(n - 1));
      assert ops[..n - 1] == LateKeys(n - 1);
      hide LateKeys;
      KeyAdded(m, n - 1);
    }
  }

  /** A table that takes one more entry is the least power of two for it. */
  lemma Grows(used: nat, size: nat)
    requires used < 0x8000_0000
    requires if used == 0 then size == 0 else IsPow2(size) && used <= size && (size == INITIAL_SIZE || size < 2 * used)
    ensures var after := SizeAfter(used, size);
      IsPow2(after) && used + 1 <= after && (after == INITIAL_SIZE || after < 2 * (used + 1))
  {
    if size > 0 { Doubled(size); }
    assert Pow2(2) == INITIAL_SIZE;
    hide IsPow2;
  }

  lemma {:induction false} SizePut(n: nat)
    requires n <= 0x8000_0000
    ensures var size := SizeAll(map[], 0, LateKeys(n));
      if n == 0 then size == 0 else IsPow2(size) && n <= size && (size == INITIAL_SIZE || size < 2 * n)
  {
    if n > 0 {
      SizePut(n - 1);
      KeysPut(n - 1);
      assert LateKeys(n)[..n - 1] == LateKeys(n - 1);
      Grows(n - 1, SizeAll(map[], 0, LateKeys(n - 1)));
      hide LateKeys, IsPow2, SizeAfter;
    }
  }

  lemma PowerIs31()
    ensures IsPow2(0x8000_0000)
  {
    Pow2Values();
  }

  lemma LateTable()
    ensures |ChangedAll(map[], LateKeys(0x8000_0000))| == SizeAll(map[], 0, LateKeys(0x8000_0000)) == 0x8000_0000
    ensures forall k: uint32 :: k in ChangedAll(map[], LateKeys(0x8000_0000)) <==> k < 0x8000_0000
  {
    var n := 0x8000_0000;
    hide LateKeys, IsPow2, ChangedAll, SizeAll;
    KeysPut(n);
    SizePut(n);
    PowerIs31();
    Pow2Gap(n, SizeAll(map[], 0, LateKeys(n)));
  }

  /** After 2^31 keys one more doubles the table to 2^32 buckets. Hashing to the upper half,
      it gets a negative number: -1, which refuses it, or the number of a place before the
      table. */
  lemma LateKeyIsLost(h: uint32)
    requires h >= 0x8000_0000
    ensures var ops := LateKeys(0x8000_0001);
      var m, size := ChangedAll(map[], ops[..0x8000_0000]), SizeAll(map[], 0, ops[..0x8000_0000]);
      && ops[0x8000_0000].key !in m && LateHash(h)(ops[0x8000_0000].key) == h
      && Index(h, |m|, size) == h - 0x1_0000_0000 < 0
      && !AllPlaced(LateHash(h), map[], 0, ops)
  {
    hide LateKeys, ChangedAll, SizeAll;
    var ops := LateKeys(0x8000_0001);
    assert ops[..0x8000_0000] == LateKeys(0x8000_0000) && ops[..|ops| - 1] == ops[..0x8000_0000];
    LateTable();
  }

  lemma LeastPower()
    ensures IsPow2(INITIAL_SIZE)
  {
    assert Pow2(2) == INITIAL_SIZE;
  }

  lemma PlacedIn(h: uint32, used: nat, size: nat)
    requires 0 < SizeAfter(used, size) == Grown(used, size) <= 0x8000_0000
    ensures Placed(h, used, size)
  {
  }

  lemma RoomForOne(used: nat, size: nat)
    requires used < 0x8000_0000 && size <= 0x8000_0000 && (size == 0 || IsPow2(size))
    ensures var after := SizeAfter(used, size); 0 < after <= 0x8000_0000 && IsPow2(after)
    ensures forall h: uint32 :: Placed(h, used, size)
  {
    hide IsPow2, Pow2, Placed;
    LeastPower();
    if size > 0 {
      Doubled(size);
      PowerIs31();
      if used == size && 2 * size > 0x8000_0000 { Pow2Gap(size, 0x8000_0000); }
    }
    forall h: uint32 ensures Placed(h, used, size) { PlacedIn(h, used, size); }
  }

  /** A table that never holds 2^31 keys has a numbered bucket for each of them. */
  lemma {:induction false} FewKeysPlaced<K, V>(hash: K -> uint32, m: map<K, V>, size: nat, ops: seq<Op<K, V>>)
    requires |m| <= size <= 0x8000_0000 && (size == 0 || IsPow2(size))
    requires forall i :: 0 <= i < |ops| ==> |ChangedAll(m, ops[..i])| < 0x8000_0000
    ensures AllPlaced(hash, m, size, ops)
    ensures var n := SizeAll(m, size, ops); n <= 0x8000_0000 && (n == 0 || IsPow2(n))
  {
    if |ops| > 0 {
      var init := ops[..|ops| - 1];
      forall i | 0 <= i < |init| ensures |ChangedAll(m, init[..i])| < 0x8000_0000 { assert init[..i] == ops[..i]; }
      FewKeysPlaced(hash, m, size, init);
      hide ChangedAll, IsPow2;
      RoomForOne(|ChangedAll(m, init)|, SizeAll(m, size, init));
    }
  }
}
