/**
  The schema compiler's symbol-table hash table: a fixed array of 32 buckets,
  each a chain of nodes, with pluggable hash and compare functions.

  The chain of `hash_node`s hanging off a bucket is modelled as a sequence
  (front of the sequence = head of the chain); nodes are only ever prepended.
  A `union hash_key` becomes the type parameter `K`; the function pointers
  `ht->hash` and `ht->comp` become function-valued constants.
*/
module HashTable {
  import opened Bytes

  /** HASH_TABLE_SIZE */
  const HashTableSize: nat := 32

  /** C's `%`, which truncates toward zero (Dafny's `%` is Euclidean). */
  function CRem(a: int, b: int): (r: int)
    requires b > 0
    ensures a >= 0 ==> r == a % b
    ensures a < 0 ==> -b < r <= 0
  {
    if a >= 0 then a % b else -((-a) % b)
  }

  /** The value a C `char` holds for a character: its code taken as a byte,
      read as signed (as `char` is on the usual targets), so bytes from 0x80
      up are negative. */
  function CharValue(c: char): (v: int)
    ensures -128 <= v < 128
    ensures c as int < 128 ==> v == c as int
  {
    var b := c as int % 256;
    if b < 128 then b else b - 256
  }

  /** Every character of the name is below 0x80. */
  predicate Ascii(s: string)
  {
    forall i :: 0 <= i < |s| ==> s[i] as int < 128
  }

  /** Sum of the `char` values of a name. */
  function CharSum(s: string): (k: int)
    ensures Ascii(s) ==> k >= 0
  {
    if s == [] then 0
    else
      assert Ascii(s) ==> Ascii(s[..|s| - 1]) by {
        assert forall i :: 0 <= i < |s| - 1 ==> s[..|s| - 1][i] == s[i];
      }
      CharSum(s[..|s| - 1]) + CharValue(s[|s| - 1])
  }

  /** The bucket of a name: the sum of its `char` values with C's remainder by
      32.  A name of ASCII characters lands in [0, 32); one with bytes from
      0x80 up can have a negative sum and so a negative bucket. */
  function NameHash(name: string): (h: int)
    ensures -(HashTableSize as int) < h < HashTableSize
    ensures CharSum(name) >= 0 ==> h == CharSum(name) % HashTableSize
    ensures Ascii(name) ==> 0 <= h
  {
    CRem(CharSum(name), HashTableSize)
  }

  /** A name made of the byte 0xFF alone has sum -1 and hashes outside the
      bucket range. */
  lemma NonAsciiNameOutOfRange()
    ensures NameHash("\U{FF}") == -1
  {
    assert "\U{FF}"[..0] == "";
    assert CharSum("\U{FF}") == -1;
  }

  /** name2hash: adds up the characters one by one. */
  method Name2Hash(name: string) returns (h: int)
    ensures h == NameHash(name)
    ensures -(HashTableSize as int) < h < HashTableSize
    ensures name == [] ==> h == 0
  {
    var k := 0;
    var i := 0;
    while i < |name|
      invariant 0 <= i <= |name|
      invariant k == CharSum(name[..i])
    {
      assert name[..i + 1][..i] == name[..i];
      k := k + CharValue(name[i]);
      i := i + 1;
    }
    assert name[..i] == name;
    h := CRem(k, HashTableSize);
  }

  /** id2hash: the id modulo 32, with C's remainder (negative for negative ids). */
  function Id2Hash(id: int): (h: int)
    ensures id >= 0 ==> 0 <= h < HashTableSize && h == id % HashTableSize
    ensures id < 0 ==> -(HashTableSize as int) < h <= 0
  {
    CRem(id, HashTableSize)
  }

  /** A negative id that is not a multiple of 32 hashes outside the bucket range. */
  lemma NegativeIdOutOfRange()
    ensures Id2Hash(-1) == -1 && Id2Hash(-33) == -1 && Id2Hash(-64) == 0
  {
  }

  /** strncmp over the first n characters: only the sign of the result is meaningful. */
  function StrNCmp(a: string, b: string, n: nat): (r: int)
    requires n <= |a| && n <= |b|
    ensures r == 0 <==> a[..n] == b[..n]
    ensures r == -1 || r == 0 || r == 1
  {
    if n == 0 then 0
    else if a[0] < b[0] then -1
    else if a[0] > b[0] then 1
    else
      var r := StrNCmp(a[1..], b[1..], n - 1);
      assert a[..n] == [a[0]] + a[1..][..n - 1];
      assert b[..n] == [b[0]] + b[1..][..n - 1];
      r
  }

  function Min(x: nat, y: nat): nat
  {
    if x < y then x else y
  }

  /** namecmp: compares only as many characters as the shorter name has. */
  function NameCmp(a: string, b: string): (r: int)
    ensures r == 0 <==> a[..Min(|a|, |b|)] == b[..Min(|a|, |b|)]
  {
    StrNCmp(a, b, Min(|a|, |b|))
  }

  /** Consequently a name compares equal to every name it is a prefix of,
      and the empty name compares equal to every name. */
  lemma NameCmpPrefixEqual(a: string, t: string)
    ensures NameCmp(a, a + t) == 0 && NameCmp(a + t, a) == 0
    ensures NameCmp("", a) == 0
  {
    assert (a + t)[..|a|] == a;
  }

  /** Names of different lengths are equal under namecmp only if one is a prefix of the other. */
  lemma NameCmpEqualIsPrefix(a: string, b: string)
    requires |a| <= |b| && NameCmp(a, b) == 0
    ensures b == a + b[|a|..]
  {
    assert a[..|a|] == a;
  }

  /** idcmp: -1, 0 or 1 by integer order. */
  function IdCmp(a: int, b: int): (r: int)
    ensures r == 0 <==> a == b
    ensures r == -1 <==> a < b
    ensures r == 1 <==> a > b
  {
    if a == b then 0 else if a < b then -1 else 1
  }

  /** A hash_node without its link: the key and the item it carries. */
  datatype Entry<K, T> = Entry(key: K, item: T)

  /** The position of the first node in a chain whose key compares equal to `key`. */
  function FindIndex<K, T>(chain: seq<Entry<K, T>>, comp: (K, K) -> int, key: K): (r: Option<nat>)
    ensures r.Some? ==> r.value < |chain| && comp(key, chain[r.value].key) == 0
    ensures r.Some? ==> forall j :: 0 <= j < r.value ==> comp(key, chain[j].key) != 0
    ensures r.None? <==> forall j :: 0 <= j < |chain| ==> comp(key, chain[j].key) != 0
  {
    if chain == [] then None
    else if comp(key, chain[0].key) == 0 then Some(0)
    else
      match FindIndex(chain[1..], comp, key)
      case None => None
      case Some(i) => Some(i + 1)
  }

  /** What hash_table_search returns for a table whose buckets are `t`. */
  function Lookup<K, T>(t: seq<seq<Entry<K, T>>>, hash: K -> int, comp: (K, K) -> int, key: K): Option<Entry<K, T>>
    requires 0 <= hash(key) < |t|
  {
    match FindIndex(t[hash(key)], comp, key)
    case None => None
    case Some(i) => Some(t[hash(key)][i])
  }

  /** Number of nodes in all buckets. */
  function Count<K, T>(t: seq<seq<Entry<K, T>>>): nat
  {
    if t == [] then 0 else Count(t[..|t| - 1]) + |t[|t| - 1]|
  }

  /** Every node sits in the bucket its key hashes to. */
  ghost predicate Placed<K, T>(t: seq<seq<Entry<K, T>>>, hash: K -> int)
  {
    forall i, j :: 0 <= i < |t| && 0 <= j < |t[i]| ==> hash(t[i][j].key) == i
  }

  /** Adding to bucket h adds one node to the total. */
  lemma {:induction false} CountPrepend<K, T>(t: seq<seq<Entry<K, T>>>, h: nat, e: Entry<K, T>)
    requires h < |t|
    ensures Count(t[h := [e] + t[h]]) == Count(t) + 1
  {
    var t' := t[h := [e] + t[h]];
    if h == |t| - 1 {
      assert t'[..|t'| - 1] == t[..|t| - 1];
    } else {
      assert t'[..|t'| - 1] == t[..|t| - 1][h := [e] + t[h]];
      CountPrepend(t[..|t| - 1], h, e);
    }
  }

  /** After adding key k, looking k up returns the node just added: the newest
      node for a key shadows every older node that compares equal. */
  lemma LookupAfterAdd<K, T>(t: seq<seq<Entry<K, T>>>, hash: K -> int, comp: (K, K) -> int, k: K, x: T)
    requires 0 <= hash(k) < |t|
    requires comp(k, k) == 0
    ensures Lookup(t[hash(k) := [Entry(k, x)] + t[hash(k)]], hash, comp, k) == Some(Entry(k, x))
  {
  }

  /** In a table keyed by id, a lookup fails exactly when no node anywhere has that id. */
  lemma LookupIdAbsent<T>(t: seq<seq<Entry<int, T>>>, key: int)
    requires |t| == HashTableSize && key >= 0
    requires Placed(t, Id2Hash)
    ensures Lookup(t, Id2Hash, IdCmp, key).None? <==>
            forall i, j :: 0 <= i < |t| && 0 <= j < |t[i]| ==> t[i][j].key != key
  {
    var h := Id2Hash(key);
    if Lookup(t, Id2Hash, IdCmp, key).None? {
      forall i, j | 0 <= i < |t| && 0 <= j < |t[i]|
        ensures t[i][j].key != key
      {
        assert t[i][j].key == key ==> i == h && IdCmp(key, t[i][j].key) == 0;
      }
    }
  }

  /** A table of 32 buckets ([hash_table_new]) with `nnodes` counting its nodes. */
  class HashTable<K(==), T(==)> {
    const hash: K -> int
    const comp: (K, K) -> int
    const table: array<seq<Entry<K, T>>>
    var nnodes: int

    ghost predicate Valid()
      reads this, table
    {
      && table.Length == HashTableSize
      && nnodes == Count(table[..])
      && Placed(table[..], hash)
    }

    /** hash_table_new: an empty table using the given hash and compare functions. */
    constructor (hash: K -> int, comp: (K, K) -> int)
      ensures Valid() && fresh(table)
      ensures this.hash == hash && this.comp == comp
      ensures nnodes == 0
      ensures forall i :: 0 <= i < table.Length ==> table[i] == []
    {
      this.hash := hash;
      this.comp := comp;
      table := new seq<Entry<K, T>>[HashTableSize](_ => []);
      nnodes := 0;
      new;
      EmptyCount(table[..]);
    }

    static lemma {:induction false} EmptyCount(t: seq<seq<Entry<K, T>>>)
      requires forall i :: 0 <= i < |t| ==> t[i] == []
      ensures Count(t) == 0
    {
      if t != [] {
        EmptyCount(t[..|t| - 1]);
      }
    }

    /** hash_table_add: prepends a node to the key's bucket and counts it;
        a key that is already present is not rejected. */
    method Add(key: K, item: T) returns (node: Entry<K, T>)
      requires Valid()
      requires 0 <= hash(key) < HashTableSize
      modifies this, table
      ensures Valid()
      ensures node == Entry(key, item)
      ensures table[..] == old(table[..])[hash(key) := [node] + old(table[hash(key)])]
      ensures nnodes == old(nnodes) + 1
    {
      var h := hash(key);
      node := Entry(key, item);
      CountPrepend(table[..], h, node);
      table[h] := [node] + table[h];
      nnodes := nnodes + 1;
    }

    /** hash_table_search: walks the key's bucket and returns the first node
        whose key compares equal, or nothing. */
    method Search(key: K) returns (r: Option<Entry<K, T>>)
      requires Valid()
      requires 0 <= hash(key) < HashTableSize
      ensures r == Lookup(table[..], hash, comp, key)
      ensures r.Some? ==> comp(key, r.value.key) == 0
    {
      var chain := table[hash(key)];
      var j := 0;
      while j < |chain|
        invariant 0 <= j <= |chain|
        invariant forall i :: 0 <= i < j ==> comp(key, chain[i].key) != 0
      {
        if comp(key, chain[j].key) == 0 {
          ghost var found := FindIndex(chain, comp, key);
          assert found.Some?;
          assert found == Some(j);
          return Some(chain[j]);
        }
        j := j + 1;
      }
      return None;
    }

    /** hash_table_size: counts the nodes of every chain. */
    method Size() returns (n: int)
      requires Valid()
      ensures n == nnodes
    {
      n := 0;
      var i := 0;
      while i < HashTableSize
        invariant 0 <= i <= HashTableSize
        invariant n == Count(table[..i])
      {
        var chain := table[i];
        var j := 0;
        while j < |chain|
          invariant 0 <= j <= |chain|
          invariant n == Count(table[..i]) + j
        {
          n := n + 1;
          j := j + 1;
        }
        assert table[..i + 1][..i] == table[..i];
        i := i + 1;
      }
      assert table[..i] == table[..];
    }
  }
}
