/**
  The compiler's two symbol tables (mig.c: `type_table`, `msg_table`) and the
  registration and lookup API built on them.
*/
module Symbols {
  import opened Bytes
  import opened HashTable
  import opened Schema

  /** A type name table keyed by name: name2hash / namecmp. */
  type Types = HashTable<string, Node<Element>>
  /** A message table keyed by id: id2hash / idcmp. */
  type Messages = HashTable<int, Node<Element>>

  /** Any table that hashes into range and treats every key as equal to itself
      finds a key that is stored in it. */
  lemma {:induction false} LookupFindsStored<K, T>(t: seq<seq<Entry<K, T>>>, hash: K -> int, comp: (K, K) -> int, key: K, i: int, j: int)
    requires Placed(t, hash) && 0 <= hash(key) < |t| && comp(key, key) == 0
    requires 0 <= i < |t| && 0 <= j < |t[i]| && t[i][j].key == key
    ensures Lookup(t, hash, comp, key).Some?
  {
    assert hash(t[i][j].key) == i;
    assert comp(key, t[hash(key)][j].key) == 0;
  }

  /** A name that differs from a stored name only by trailing characters that
      keep it in the same bucket is found too: "A " finds the type "A"
      (65 and 65 + 32 both hash to bucket 1). */
  lemma PrefixNameFound(x: Node<Element>)
    ensures Lookup(seq(HashTableSize, i => if i == 1 then [Entry("A", x)] else []), NameHash, NameCmp, "A ")
         == Some(Entry("A", x))
  {
    var t := seq(HashTableSize, i => if i == 1 then [Entry("A", x)] else []);
    assert CharSum("A ") == 97 by {
      assert "A "[..1] == "A";
      assert "A"[..0] == "";
    }
    assert NameHash("A ") == 1;
    assert NameCmp("A ", "A") == 0 by {
      assert "A "[..1] == "A"[..1];
    }
  }

  /** The empty name compares equal to everything in bucket 0. */
  lemma EmptyNameFound(t: seq<seq<Entry<string, Node<Element>>>>)
    requires |t| == HashTableSize && t[0] != []
    ensures Lookup(t, NameHash, NameCmp, "") == Some(t[0][0])
  {
    assert NameHash("") == 0;
    NameCmpPrefixEqual("", t[0][0].key);
  }

  /** The compiler's symbol tables (mig_init). */
  class Mig {
    const typeTable: Types
    const msgTable: Messages

    ghost predicate Valid()
      reads this, typeTable, typeTable.table, msgTable, msgTable.table
    {
      && typeTable.Valid() && msgTable.Valid()
      && typeTable.hash == NameHash && typeTable.comp == NameCmp
      && msgTable.hash == Id2Hash && msgTable.comp == IdCmp
    }

    /** mig_init: two empty tables (the output path and dump flag are left out). */
    constructor ()
      ensures Valid() && fresh(typeTable) && fresh(typeTable.table) && fresh(msgTable) && fresh(msgTable.table)
      ensures typeTable.nnodes == 0 && msgTable.nnodes == 0
    {
      typeTable := new HashTable(NameHash, NameCmp);
      msgTable := new HashTable(Id2Hash, IdCmp);
    }

    /** mig_add_element: -1 for no element; otherwise registers the element
        under its name, and a message also under its id, and returns 0. */
    method AddElement(ep: Node?<Element>) returns (r: int)
      requires Valid()
      requires ep != null ==> 0 <= NameHash(ep.item.name)
      requires ep != null && ep.item.Message? ==> 0 <= Id2Hash(ep.item.id)
      modifies typeTable, typeTable.table, msgTable, msgTable.table
      ensures Valid()
      ensures ep == null ==> r == -1 && unchanged(typeTable, typeTable.table, msgTable, msgTable.table)
      ensures ep != null ==> r == 0
      ensures ep != null ==>
        typeTable.table[..] == old(typeTable.table[..])[NameHash(ep.item.name) :=
          [Entry(ep.item.name, ep)] + old(typeTable.table[NameHash(ep.item.name)])]
      ensures ep != null && ep.item.Message? ==>
        msgTable.table[..] == old(msgTable.table[..])[Id2Hash(ep.item.id) :=
          [Entry(ep.item.id, ep)] + old(msgTable.table[Id2Hash(ep.item.id)])]
      ensures ep != null && !ep.item.Message? ==> unchanged(msgTable, msgTable.table)
    {
      if ep == null {
        return -1;
      }
      var _ := typeTable.Add(ep.item.name, ep);
      if ep.item.Message? {
        var _ := msgTable.Add(ep.item.id, ep);
      }
      return 0;
    }

    /** mig_find_type: 1 when some registered name in the name's bucket
        compares equal to it, else 0. */
    method FindType(name: string) returns (found: int)
      requires Valid()
      requires 0 <= NameHash(name)
      ensures found == 1 || found == 0
      ensures found == 1 <==> Lookup(typeTable.table[..], NameHash, NameCmp, name).Some?
      ensures found == 1 <==> exists j :: 0 <= j < |typeTable.table[NameHash(name)]| &&
                                 NameCmp(name, typeTable.table[NameHash(name)][j].key) == 0
    {
      var ret := typeTable.Search(name);
      found := if ret.Some? then 1 else 0;
    }

    /** mig_find_msg: 1 exactly when a message with this id is registered. */
    method FindMsg(id: int) returns (found: int)
      requires Valid()
      requires 0 <= Id2Hash(id)
      ensures found == 1 || found == 0
      ensures found == 1 <==> Lookup(msgTable.table[..], Id2Hash, IdCmp, id).Some?
      ensures id >= 0 ==> (found == 1 <==> exists i, j :: 0 <= i < HashTableSize && 0 <= j < |msgTable.table[i]| &&
                                                       msgTable.table[i][j].key == id)
    {
      var ret := msgTable.Search(id);
      found := if ret.Some? then 1 else 0;
      if id >= 0 {
        LookupIdAbsent(msgTable.table[..], id);
      }
    }
  }
}
