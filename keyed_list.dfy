/** The keyed list of struct/keyed_list.c: a stable list of entries paired with a
    map from key to entry. The map's own implementation lies outside this model;
    it is a Dafny map from a key to the position of its entry in the list, and a
    new entry is the position just past the list's old end. */
module KeyedLists {
  import opened Wrappers
  import StableList

  /** The abstract state of a keyed list: the key map and the number of entries. */
  datatype KState<K> = KState(index: map<K, nat>, count: nat)

  /** Every entry belongs to exactly one key: as many keys as entries, every key on
      an entry that exists, and no two keys on the same entry. */
  ghost predicate Consistent<K>(st: KState<K>)
  {
    |st.index| == st.count
    && (forall k :: k in st.index ==> st.index[k] < st.count)
    && (forall k1, k2 :: k1 in st.index && k2 in st.index && k1 != k2 ==> st.index[k1] != st.index[k2])
  }

  /** The state after keyedlist_insert: unchanged for a known key, one more entry
      recorded for a new one. */
  function Inserted<K>(st: KState<K>, key: K): (r: KState<K>)
    ensures key in r.index
    ensures forall k :: k in st.index ==> k in r.index && r.index[k] == st.index[k]
    ensures forall k :: k in r.index ==> k in st.index || k == key
    ensures r.count == if key in st.index then st.count else st.count + 1
  {
    if key in st.index then st else KState(st.index[key := st.count], st.count + 1)
  }

  /** The entry keyedlist_insert hands back through `*entry`. */
  function EntryFor<K>(st: KState<K>, key: K): (e: nat)
    ensures e == Inserted(st, key).index[key]
    ensures Consistent(st) ==> (e < st.count <==> key in st.index)
  {
    if key in st.index then st.index[key] else st.count
  }

  /** Inserting keeps every entry owned by exactly one key, and the key then maps to
      the entry insert handed back. */
  lemma InsertKeepsConsistent<K>(st: KState<K>, key: K)
    requires Consistent(st)
    ensures Consistent(Inserted(st, key))
    ensures key in Inserted(st, key).index && Inserted(st, key).index[key] == EntryFor(st, key)
    ensures EntryFor(st, key) < Inserted(st, key).count
  {
  }

  /** Inserting the same key twice hands back the same entry and grows the list only
      the first time. */
  lemma InsertTwice<K>(st: KState<K>, key: K)
    ensures Inserted(Inserted(st, key), key) == Inserted(st, key)
    ensures EntryFor(Inserted(st, key), key) == EntryFor(st, key)
    ensures Inserted(st, key).count <= st.count + 1
  {
  }

  /** The state after inserting `keys` in order into a fresh keyed list. */
  function InsertAll<K>(keys: seq<K>): KState<K>
    decreases |keys|
  {
    if keys == [] then KState(map[], 0)
    else Inserted(InsertAll(keys[..|keys| - 1]), keys[|keys| - 1])
  }

  /** The keys of `keys` in the order of their first occurrence. */
  ghost function FirstOccurrences<K>(keys: seq<K>): seq<K>
    decreases |keys|
  {
    if keys == [] then []
    else
      var d := FirstOccurrences(keys[..|keys| - 1]);
      if keys[|keys| - 1] in d then d else d + [keys[|keys| - 1]]
  }

  /** No key occurs twice. */
  ghost predicate NoDuplicates<K>(keys: seq<K>)
  {
    forall i, j :: 0 <= i < j < |keys| ==> keys[i] != keys[j]
  }

  /** The entries of `st` are laid out in the order `d`: the i-th key of `d` owns
      entry i, and these are all the keys and all the entries. */
  ghost predicate LaidOut<K>(st: KState<K>, d: seq<K>)
  {
    Consistent(st)
    && NoDuplicates(d)
    && st.count == |d|
    && (forall k :: k in st.index ==> k in d)
    && (forall i :: 0 <= i < |d| ==> d[i] in st.index && st.index[d[i]] == i)
  }

  /** One insert extends the layout by the key when it is new and keeps it when the
      key is known. */
  lemma InsertExtendsLayout<K>(st: KState<K>, d: seq<K>, key: K)
    requires LaidOut(st, d)
    ensures LaidOut(Inserted(st, key), if key in d then d else d + [key])
  {
    InsertKeepsConsistent(st, key);
    if key !in d {
      var d' := d + [key];
      assert forall k :: k in d' <==> k in d || k == key;
      assert forall i :: 0 <= i < |d| ==> d'[i] == d[i];
    }
  }

  /** The first occurrences of `keys` are exactly the keys that occur in it. */
  lemma {:induction false} FirstOccurrencesMembers<K>(keys: seq<K>)
    ensures forall k :: k in FirstOccurrences(keys) <==> k in keys
  {
    if keys != [] {
      var prefix, key := keys[..|keys| - 1], keys[|keys| - 1];
      FirstOccurrencesMembers(prefix);
      assert keys == prefix + [key];
      assert forall k :: k in keys <==> k in prefix || k == key;
    }
  }

  /** Entries are laid out in the order of first insertion: after any sequence of
      inserts into a fresh keyed list, the i-th distinct key to arrive owns entry i,
      the keys known are exactly those inserted, and the list holds one entry per
      distinct key. */
  lemma {:induction false} InsertAllOrder<K>(keys: seq<K>)
    ensures LaidOut(InsertAll(keys), FirstOccurrences(keys))
    ensures forall k :: k in InsertAll(keys).index <==> k in keys
  {
    if keys != [] {
      var prefix := keys[..|keys| - 1];
      InsertAllOrder(prefix);
      InsertExtendsLayout(InsertAll(prefix), FirstOccurrences(prefix), keys[|keys| - 1]);
    }
    FirstOccurrencesMembers(keys);
  }

  /** Distinct keys inserted in order get the entries 0, 1, 2, ... in that order,
      whatever the key values are. */
  lemma {:induction false} InsertDistinctInOrder<K>(keys: seq<K>)
    requires NoDuplicates(keys)
    ensures InsertAll(keys).count == |keys|
    ensures forall i :: 0 <= i < |keys| ==> keys[i] in InsertAll(keys).index && InsertAll(keys).index[keys[i]] == i
  {
    FirstOccurrencesOfDistinct(keys);
    InsertAllOrder(keys);
  }

  /** Without duplicates, the first occurrences are the keys themselves. */
  lemma {:induction false} FirstOccurrencesOfDistinct<K>(keys: seq<K>)
    requires NoDuplicates(keys)
    ensures FirstOccurrences(keys) == keys
  {
    if keys != [] {
      var prefix := keys[..|keys| - 1];
      FirstOccurrencesOfDistinct(prefix);
      assert keys[|keys| - 1] !in prefix;
      assert prefix + [keys[|keys| - 1]] == keys;
    }
  }

  class KeyedList<K(==)> {
    /** The entries, in a stable list. */
    const list: StableList.SList
    /** The key map: a key to the position of its entry in `list`. */
    var index: map<K, nat>

    /** The list is well formed and every entry belongs to exactly one key. */
    ghost predicate Valid()
      reads this, list, list.blocks
    {
      list.Valid() && Consistent(State())
    }

    /** The abstract state specifying the operations. */
    function State(): KState<K>
      reads this, list
    {
      KState(index, list.size)
    }

    /** __keyedlist_init: an empty entry list (members of `typeSz` bytes) and an
        empty map. The type name and table size are accepted and not used. */
    constructor Init(typeName: string, typeSz: nat, tableSz: nat)
      ensures Valid() && fresh(list) && fresh(list.blocks)
      ensures index == map[] && list.Counts() == StableList.Counters(0, 0)
      ensures list.memberSize == typeSz
    {
      list := new StableList.SList.Init(typeSz);
      index := map[];
    }

    /** keyedlist_insert: for a key already present, hands back its entry (both as
        `*entry` and as the result) and changes nothing; for a new key, appends one
        entry to the list, records the key on it and returns NULL (None). */
    method Insert(key: K) returns (existing: Option<nat>, entry: nat)
      requires Valid()
      modifies this, list, list.blocks
      ensures Valid()
      ensures State() == Inserted(old(State()), key) && entry == EntryFor(old(State()), key)
      ensures existing == if key in old(index) then Some(old(index)[key]) else None
      ensures key in old(index) ==> unchanged(this, list, list.blocks)
      ensures key !in old(index) ==>
                entry == old(list.size) && list.size == old(list.size) + 1
                && index == old(index)[key := entry]
                && old(list.blocks.len) <= list.blocks.len
                && list.blocks.Contents()[..old(list.blocks.len)] == old(list.blocks.Contents())
      ensures Lookup(key) == Some(entry)
    {
      if key !in index {
        list.AddLast();
        entry := list.size - 1;
        index := index[key := entry];
        InsertKeepsConsistent(old(State()), key);
        return None, entry;
      }
      entry := index[key];
      return Some(entry), entry;
    }

    /** keyedlist_lookup: the entry of `key`, or None (NULL) for an unknown key. */
    function Lookup(key: K): (r: Option<nat>)
      reads this, list, list.blocks
      requires Valid()
      ensures r.Some? <==> key in index
      ensures r.Some? ==> r.value == index[key] && r.value < list.size
    {
      if key in index then Some(index[key]) else None
    }
  }

  /** Inserting the same key twice hands back the same entry both times, reports
      creation only the first time and grows the list only once. */
  method InsertSameKeyTwice<K(==)>(kl: KeyedList<K>, key: K)
      returns (first: Option<nat>, firstEntry: nat, second: Option<nat>, secondEntry: nat)
    requires kl.Valid()
    modifies kl, kl.list, kl.list.blocks
    ensures kl.Valid()
    ensures firstEntry == secondEntry && second == Some(firstEntry)
    ensures first == None <==> key !in old(kl.index)
    ensures kl.list.size == old(kl.list.size) + (if key in old(kl.index) then 0 else 1)
  {
    first, firstEntry := kl.Insert(key);
    second, secondEntry := kl.Insert(key);
  }
}
