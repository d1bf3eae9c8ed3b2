/**
 * MaxLengthDict: a dictionary that keeps, beside its entries, a list `order` of
 * the keys in the order they were last set or read (enzofof_merger_tree.py).
 *
 * `order` starts as 50 empty slots.  Setting a key that `order` does not list
 * drops the front slot, and the entry of the key it held, then appends the key;
 * setting a key that `order` lists appends it once more.  Reading a listed key
 * moves its first occurrence to the end; deleting a key removes its entry and its
 * first occurrence, and puts an empty slot in front.
 */
module MaxLengthDicts {
  import opened Outcomes

  /** Number of slots `order` starts with. */
  const Slots := 50

  /** The exception a missing key raises. */
  datatype DictError = KeyError

  /** A dictionary's state: its recency list and its entries. */
  datatype Dict<K, V> = Dict(order: seq<Option<K>>, entries: map<K, V>)

  /** Position of the first occurrence of `x` in `s` (list.index). */
  function IndexOf<T(==)>(s: seq<T>, x: T): (i: nat)
    requires x in s
    ensures i < |s| && s[i] == x && x !in s[..i]
  {
    if s[0] == x then 0 else 1 + IndexOf(s[1..], x)
  }

  /** `s` without its element at `i` (list.pop(i)). */
  function RemoveAt<T>(s: seq<T>, i: nat): (r: seq<T>)
    requires i < |s|
    ensures |r| == |s| - 1
    ensures forall j | 0 <= j < |r| :: r[j] == if j < i then s[j] else s[j + 1]
  {
    s[..i] + s[i + 1..]
  }

  /** Removing one element keeps every other value. */
  lemma RemoveAtKeeps<T>(s: seq<T>, i: nat, y: T)
    requires i < |s| && y in s && y != s[i]
    ensures y in RemoveAt(s, i)
  {
    var j :| 0 <= j < |s| && s[j] == y;
    if j < i {
      assert RemoveAt(s, i)[j] == y;
    } else {
      assert RemoveAt(s, i)[j - 1] == y;
    }
  }

  /** Removing one element removes one copy of it. */
  lemma RemoveAtMultiset<T>(s: seq<T>, i: nat)
    requires i < |s|
    ensures multiset(RemoveAt(s, i)) == multiset(s) - multiset{s[i]}
  {
    assert s == s[..i] + [s[i]] + s[i + 1..];
    assert RemoveAt(s, i) == s[..i] + s[i + 1..];
  }

  /** A fresh dictionary: it meets the invariant with exactly its 50 slots, lists
      no key and holds no entry. */
  function Empty<K, V>(): (d: Dict<K, V>)
    ensures Listed(d) && |d.order| == Slots
    ensures ListedKeys(d.order) == {} && |d.entries| == 0
  {
    Dict(seq(Slots, _ => None), map[])
  }

  /** The entries without the key of slot `slot` (dict.pop(key, None)). */
  function Evict<K, V>(entries: map<K, V>, slot: Option<K>): (r: map<K, V>)
    ensures r.Keys <= entries.Keys
  {
    match slot
    case None => entries
    case Some(k) => entries - {k}
  }

  /** Evicting a slot removes exactly the slot's key: every other entry stays, with
      its value, and nothing is added. */
  lemma EvictSpec<K, V>(entries: map<K, V>, slot: Option<K>)
    ensures forall k | k in entries :: k in Evict(entries, slot) <==> slot != Some(k)
    ensures forall k | k in Evict(entries, slot) :: Evict(entries, slot)[k] == entries[k]
  {
  }

  /** The state after d[key] = val (lines 62-67). */
  function Stored<K(==), V>(d: Dict<K, V>, key: K, val: V): Dict<K, V>
    requires |d.order| > 0
  {
    if Some(key) !in d.order then Dict(d.order[1..] + [Some(key)], Evict(d.entries, d.order[0])[key := val])
    else Dict(d.order + [Some(key)], d.entries[key := val])
  }

  /** The recency list after d[key] is read (lines 70-72); the entries do not change. */
  function Touched<K(==)>(order: seq<Option<K>>, key: K): seq<Option<K>> {
    if Some(key) in order then RemoveAt(order, IndexOf(order, Some(key))) + [Some(key)] else order
  }

  /** The state after `del d[key]` has found the key (lines 76-78). */
  function Deleted<K(==), V>(d: Dict<K, V>, key: K): Dict<K, V>
    requires Some(key) in d.order
  {
    Dict([None] + RemoveAt(d.order, IndexOf(d.order, Some(key))), d.entries - {key})
  }

  /** What every operation keeps: `order` keeps at least its 50 slots and lists
      every key the dictionary holds. */
  ghost predicate Listed<K, V>(d: Dict<K, V>) {
    |d.order| >= Slots && forall k | k in d.entries :: Some(k) in d.order
  }

  /** Setting a key keeps the invariant and stores the value.  A key `order` does not
      list takes the front slot's place, so `order` keeps its length and only the
      front slot's key loses its entry; a listed key is appended again, so `order`
      grows by one and no entry is lost. */
  lemma StoredSpec<K, V>(d: Dict<K, V>, key: K, val: V)
    requires Listed(d)
    ensures Listed(Stored(d, key, val))
    ensures Stored(d, key, val).entries[key] == val
    ensures Some(key) !in d.order ==> |Stored(d, key, val).order| == |d.order|
    ensures Some(key) !in d.order ==> forall k | k in d.entries && k != key && Some(k) != d.order[0] ::
      k in Stored(d, key, val).entries && Stored(d, key, val).entries[k] == d.entries[k]
    ensures Some(key) in d.order ==> |Stored(d, key, val).order| == |d.order| + 1
    ensures Some(key) in d.order ==> Stored(d, key, val).entries.Keys == d.entries.Keys + {key}
    ensures Some(key) in d.order ==> forall k | k in d.entries && k != key ::
      Stored(d, key, val).entries[k] == d.entries[k]
  {
    var d' := Stored(d, key, val);
    if Some(key) !in d.order {
      forall k | k in d'.entries
        ensures Some(k) in d'.order
      {
        if k != key {
          assert Some(k) in d.order && Some(k) != d.order[0];
          assert d.order == [d.order[0]] + d.order[1..];
        }
      }
    }
  }

  /** Reading a key moves it to the end of `order` without changing the length,
      the listed keys or the entries, and keeps the invariant. */
  lemma TouchedSpec<K, V>(d: Dict<K, V>, key: K)
    requires Listed(d)
    ensures multiset(Touched(d.order, key)) == multiset(d.order)
    ensures |Touched(d.order, key)| == |d.order|
    ensures Some(key) in d.order ==> Touched(d.order, key)[|d.order| - 1] == Some(key)
    ensures Listed(Dict(Touched(d.order, key), d.entries))
  {
    if Some(key) in d.order {
      var i := IndexOf(d.order, Some(key));
      RemoveAtMultiset(d.order, i);
      forall k | k in d.entries
        ensures Some(k) in Touched(d.order, key)
      {
        if k != key {
          RemoveAtKeeps(d.order, i, Some(k));
        }
      }
    }
  }

  /** Deleting a listed key removes its entry and one occurrence from `order`, puts
      an empty slot in front, keeps the length and keeps the invariant. */
  lemma DeletedSpec<K, V>(d: Dict<K, V>, key: K)
    requires Listed(d) && Some(key) in d.order
    ensures |Deleted(d, key).order| == |d.order| && Deleted(d, key).order[0] == None
    ensures multiset(Deleted(d, key).order) == multiset(d.order) - multiset{Some(key)} + multiset{None}
    ensures key !in Deleted(d, key).entries
    ensures Listed(Deleted(d, key))
  {
    var i := IndexOf(d.order, Some(key));
    RemoveAtMultiset(d.order, i);
    forall k | k in Deleted(d, key).entries
      ensures Some(k) in Deleted(d, key).order
    {
      RemoveAtKeeps(d.order, i, Some(k));
    }
  }

  /** Keys of the non-empty slots of a recency list. */
  ghost function ListedKeys<K>(order: seq<Option<K>>): set<K> {
    set o | o in order && o.Some? :: o.value
  }

  /** A recency list names at most as many keys as it has slots. */
  lemma {:induction false} ListedKeysBound<K>(order: seq<Option<K>>)
    ensures |ListedKeys(order)| <= |order|
  {
    if order != [] {
      var rest := order[1..];
      ListedKeysBound(rest);
      assert order == [order[0]] + rest;
      if order[0].Some? {
        assert ListedKeys(order) == ListedKeys(rest) + {order[0].value};
      } else {
        assert ListedKeys(order) == ListedKeys(rest);
      }
    }
  }

  /** Setting keys 1, 2, ..., n, in that order, each to 0. */
  function StoreAll(d: Dict<int, int>, n: nat): (r: Dict<int, int>)
    requires |d.order| > 0
    ensures |r.order| >= |d.order|
  {
    if n == 0 then d else Stored(StoreAll(d, n - 1), n, 0)
  }

  /** Key 0 set twice on a fresh dictionary: `order` now lists it twice. */
  function SetTwice(): (d: Dict<int, int>)
    ensures |d.order| == Slots + 1
  {
    Stored(Stored(Empty(), 0, 0), 0, 0)
  }

  /** The keys lo..hi. */
  function Between(lo: int, hi: int): (r: set<int>)
    ensures forall k :: k in r <==> lo <= k <= hi
    decreases hi - lo
  {
    if hi < lo then {} else Between(lo, hi - 1) + {hi}
  }

  /** The count of the keys 1..n. */
  lemma {:induction false} BetweenSize(n: nat)
    ensures |Between(1, n)| == n
  {
    if n > 0 {
      BetweenSize(n - 1);
    }
  }

  /** The state after key 0 was set twice and then keys 1..i: empty slots in front,
      key 0 twice, then keys 1..i. */
  ghost predicate Filled(d: Dict<int, int>, i: nat)
    requires i < Slots
  {
    && |d.order| == Slots + 1
    && (forall j | 0 <= j < Slots - 1 - i :: d.order[j] == None)
    && d.order[Slots - 1 - i] == Some(0) && d.order[Slots - i] == Some(0)
    && (forall j | Slots - i < j <= Slots :: d.order[j] == Some(j + i - Slots))
    && d.entries.Keys == Between(0, i)
  }

  /** Setting key 0 twice on a fresh dictionary leaves 49 empty slots and two
      copies of key 0. */
  lemma SetTwiceFilled()
    ensures Filled(SetTwice(), 0)
  {
    var e := Empty<int, int>();
    assert Some(0) !in e.order;
    var d := Stored(e, 0, 0);
    assert d.order == e.order[1..] + [Some(0)];
    assert Some(0) in d.order by {
      assert d.order[Slots - 1] == Some(0);
    }
  }

  /** From that state, setting keys 1..i (i < 50) fills the empty slots. */
  lemma {:induction false} FillSlots(d0: Dict<int, int>, i: nat)
    requires Filled(d0, 0) && i < Slots
    ensures Filled(StoreAll(d0, i), i)
  {
    if i > 0 {
      FillSlots(d0, i - 1);
      var d := StoreAll(d0, i - 1);
      assert Some(i) !in d.order by {
        forall j | 0 <= j < |d.order|
          ensures d.order[j] != Some(i)
        {
        }
      }
    }
  }

  /** Setting key 50 fills the last empty slot's place and evicts the first copy of
      key 0, whose second copy stays listed in front. */
  lemma EvictFirstCopy(d0: Dict<int, int>, m: nat)
    requires Filled(d0, 0) && m == Slots
    ensures var d := StoreAll(d0, m);
      && |d.order| == Slots + 1 && d.order[0] == Some(0)
      && (forall j | 0 < j <= Slots :: d.order[j] == Some(j))
      && d.entries.Keys == Between(1, m)
  {
    FillSlots(d0, m - 1);
    var d := StoreAll(d0, m - 1);
    var d1 := StoreAll(d0, m);
    assert d1 == Dict(d.order[1..] + [Some(m)], (d.entries - {0})[m := 0]) by {
      assert Some(m) !in d.order by {
        forall j | 0 <= j < |d.order|
          ensures d.order[j] != Some(m)
        {
        }
      }
      assert d.order[0] == Some(0);
    }
    assert d1.order[0] == Some(0) by {
      assert d1.order[0] == d.order[1];
    }
    forall j | 0 < j <= Slots
      ensures d1.order[j] == Some(j)
    {
      if j < Slots {
        assert d1.order[j] == d.order[j + 1];
      }
    }
    assert d1.entries.Keys == Between(1, m) by {
      forall k
        ensures k in d1.entries <==> 1 <= k <= m
      {
        assert k in d.entries <==> 0 <= k <= m - 1;
      }
    }
  }

  /** Setting key 51 then evicts the second copy of key 0, which has no entry left,
      so no entry is lost: the dictionary holds 51 entries. */
  lemma OverfillStep(d0: Dict<int, int>, n: nat)
    requires Filled(d0, 0) && n == Slots + 1
    ensures |StoreAll(d0, n).entries.Keys| == n
  {
    EvictFirstCopy(d0, n - 1);
    var d := StoreAll(d0, n - 1);
    assert Some(n) !in d.order by {
      forall j | 0 <= j < |d.order|
        ensures d.order[j] != Some(n)
      {
      }
    }
    assert StoreAll(d0, n).entries.Keys == Between(1, n);
    BetweenSize(n);
  }

  /** As written, the dictionary is not bounded by its 50 slots: set key 0 twice,
      then keys 1..51, and it holds n = 51 entries.  The second copy of key 0 in
      `order` takes a slot that evicts nothing. */
  lemma Overfilled(n: nat)
    requires n == Slots + 1
    ensures |StoreAll(SetTwice(), n).entries.Keys| == n > Slots
  {
    SetTwiceFilled();
    OverfillStep(SetTwice(), n);
  }

  /** d[key] = val as the bound intends: a listed key moves to the end of `order`,
      as reading it does, instead of being appended a second time. */
  function StoredOnce<K(==), V>(d: Dict<K, V>, key: K, val: V): Dict<K, V>
    requires |d.order| > 0
  {
    if Some(key) in d.order then Dict(Touched(d.order, key), d.entries[key := val])
    else Stored(d, key, val)
  }

  /** A dictionary whose `order` has exactly its 50 slots holds at most 50 entries.
      Reading and deleting keep the length of `order` (TouchedSpec, DeletedSpec);
      only setting a listed key grows it. */
  lemma EntriesBounded<K, V>(d: Dict<K, V>)
    requires Listed(d) && |d.order| == Slots
    ensures |d.entries.Keys| <= Slots
  {
    var listed := ListedKeys(d.order);
    ListedKeysBound(d.order);
    assert d.entries.Keys <= listed;
    assert listed == d.entries.Keys + (listed - d.entries.Keys);
  }

  /** With `StoredOnce`, `order` keeps exactly its 50 slots, so the dictionary never
      holds more than 50 entries. */
  lemma StoredOnceBounded<K, V>(d: Dict<K, V>, key: K, val: V)
    requires Listed(d) && |d.order| == Slots
    ensures Listed(StoredOnce(d, key, val)) && |StoredOnce(d, key, val).order| == Slots
    ensures |StoredOnce(d, key, val).entries.Keys| <= Slots
    ensures StoredOnce(d, key, val).entries[key] == val
  {
    var d' := StoredOnce(d, key, val);
    if Some(key) in d.order {
      TouchedSpec(d, key);
      assert Some(key) in d'.order by {
        assert d'.order[Slots - 1] == Some(key);
      }
    } else {
      StoredSpec(d, key, val);
    }
    EntriesBounded(d');
  }

  /** The dictionary (lines 57-78): its state is `order` and `entries`. */
  class MaxLengthDict<K(==), V> {
    var order: seq<Option<K>>
    var entries: map<K, V>

    /** The state as a value. */
    function State(): Dict<K, V>
      reads this
    {
      Dict(order, entries)
    }

    /** The state keeps the invariant every operation keeps. */
    ghost predicate Valid()
      reads this
    {
      Listed(State())
    }

    /** A new, empty dictionary (lines 58-60). */
    constructor ()
      ensures Valid() && State() == Empty()
    {
      order := seq(Slots, _ => None);
      entries := map[];
    }

    /** d[key] = val (lines 62-67). */
    method Set(key: K, val: V)
      requires Valid()
      modifies this
      ensures Valid() && State() == Stored(old(State()), key, val)
    {
      StoredSpec(State(), key, val);
      if Some(key) !in order {
        var toRemove := order[0];
        order := order[1..];
        if toRemove.Some? {
          entries := entries - {toRemove.value};
        }
      }
      order := order + [Some(key)];
      entries := entries[key := val];
    }

    /** d[key] (lines 69-73): a listed key moves to the end of `order`; a key without
        an entry raises KeyError. */
    method Get(key: K) returns (r: Result<V, DictError>)
      requires Valid()
      modifies this
      ensures Valid() && State() == Dict(Touched(old(order), key), old(entries))
      ensures key in entries ==> r == Ok(entries[key])
      ensures key !in entries ==> r == Err(KeyError)
    {
      TouchedSpec(State(), key);
      if Some(key) in order {
        order := RemoveAt(order, IndexOf(order, Some(key)));
        order := order + [Some(key)];
      }
      if key in entries {
        r := Ok(entries[key]);
      } else {
        r := Err(KeyError);
      }
    }

    /** del d[key] (lines 75-78): a key without an entry raises KeyError and changes
        nothing.  Every key with an entry is listed, so the lookup in `order` cannot
        fail. */
    method Delete(key: K) returns (r: Result<(), DictError>)
      requires Valid()
      modifies this
      ensures Valid()
      ensures key !in old(entries) ==> r == Err(KeyError) && State() == old(State())
      ensures key in old(entries) ==> r == Ok(()) && Some(key) in old(order) && State() == Deleted(old(State()), key)
    {
      if key !in entries {
        return Err(KeyError);
      }
      DeletedSpec(State(), key);
      entries := entries - {key};
      order := RemoveAt(order, IndexOf(order, Some(key)));
      order := [None] + order;
      r := Ok(());
    }
  }
}
