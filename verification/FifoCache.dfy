/** The size-limited dictionary and the memoizer over it (stats/storageutils/cache.py). */
module FifoCache {

  datatype Option<T> = None | Some(value: T)

  /** How a call ends. */
  datatype Outcome<V> = Returned(value: V) | Raised(error: string)

  /** Keys in insertion order, and what they map to. */
  datatype Store<K(==), V> = Store(keys: seq<K>, entries: map<K, V>)

  // ---------- What the dictionary holds ----------

  ghost predicate Distinct<K>(s: seq<K>) {
    forall i, j :: 0 <= i < j < |s| ==> s[i] != s[j]
  }

  ghost function Members<K>(s: seq<K>): set<K> {
    set k | k in s
  }

  /** The key list has no duplicates, lists the dictionary's keys and respects the size. */
  ghost predicate Consistent<K, V>(size: int, s: Store<K, V>) {
    && Distinct(s.keys)
    && Members(s.keys) == s.entries.Keys
    && (s.keys == [] || |s.keys| <= size)
  }

  /** Setting an item: only a new key changes the key list, and it may push the oldest key out. A
      dictionary without room for one item refuses new keys. */
  function Put<K, V>(size: int, s: Store<K, V>, key: K, value: V): Store<K, V> {
    if key in s.entries then s.(entries := s.entries[key := value])
    else if size <= 0 then s
    else if |s.keys| < size then Store(s.keys + [key], s.entries[key := value])
    else if s.keys == [] then s
    else Store(s.keys[1..] + [key], (s.entries - {s.keys[0]})[key := value])
  }

  /** The first position of a key, |s| when it is not there. */
  function Index<K(==)>(s: seq<K>, key: K): (i: nat)
    ensures i <= |s| && (i < |s| ==> s[i] == key) && forall j :: 0 <= j < i ==> s[j] != key
  {
    if s == [] || s[0] == key then 0 else 1 + Index(s[1..], key)
  }

  function Without<K(==)>(s: seq<K>, key: K): seq<K> {
    var i := Index(s, key);
    if i == |s| then s else s[..i] + s[i + 1..]
  }

  lemma WithoutMembers<K>(s: seq<K>, key: K)
    requires Distinct(s)
    ensures Distinct(Without(s, key))
    ensures forall k :: k in Without(s, key) <==> k in s && k != key
    ensures |Without(s, key)| == |s| - (if key in s then 1 else 0)
  {
    var i, r := Index(s, key), Without(s, key);
    forall k | k in s && k != key ensures k in r {
      var j :| 0 <= j < |s| && s[j] == k;
      if i < |s| { assert r[if j < i then j else j - 1] == k; }
    }
  }

  lemma PutConsistent<K, V>(size: int, s: Store<K, V>, key: K, value: V)
    requires Consistent(size, s)
    ensures Consistent(size, Put(size, s, key, value))
  {
    var r := Put(size, s, key, value);
    if key !in s.entries && size > 0 && |s.keys| >= size {
      assert s.keys == [s.keys[0]] + s.keys[1..];
      forall k ensures k in r.keys <==> k in r.entries {
        assert k in s.keys <==> k in s.entries;
        assert k in s.keys[1..] <==> k in s.keys && k != s.keys[0];
      }
    }
  }

  lemma WithoutConsistent<K, V>(size: int, s: Store<K, V>, key: K)
    requires Consistent(size, s)
    ensures Consistent(size, Store(Without(s.keys, key), s.entries - {key}))
    ensures key !in s.entries ==> Store(Without(s.keys, key), s.entries - {key}) == s
  {
    WithoutMembers(s.keys, key);
    assert Members(Without(s.keys, key)) == Members(s.keys) - {key};
    assert (s.entries - {key}).Keys == s.entries.Keys - {key};
  }

  // ---------- First in, first out ----------

  datatype Op<K, V> = SetItem(key: K, value: V) | DelItem(key: K)

  function Apply<K, V>(size: int, s: Store<K, V>, op: Op<K, V>): Store<K, V> {
    match op
    case SetItem(key, value) => Put(size, s, key, value)
    case DelItem(key) => Store(Without(s.keys, key), s.entries - {key})
  }

  /** The dictionary after the operations in turn. */
  function After<K(==), V>(size: int, ops: seq<Op<K, V>>): Store<K, V> {
    if ops == [] then Store([], map[]) else Apply(size, After(size, ops[..|ops| - 1]), ops[|ops| - 1])
  }

  /** What was last stored under a key, unless it was deleted since. */
  function Latest<K(==), V>(ops: seq<Op<K, V>>, key: K): Option<V> {
    if ops == [] then None
    else match ops[|ops| - 1]
      case SetItem(k, value) => if k == key then Some(value) else Latest(ops[..|ops| - 1], key)
      case DelItem(k) => if k == key then None else Latest(ops[..|ops| - 1], key)
  }

  /** The number of the operation that last added the key: an assignment while it was not held. */
  function AddedAt<K(==), V>(size: int, ops: seq<Op<K, V>>, key: K): int {
    if ops == [] then -1
    else
      var front, last := ops[..|ops| - 1], ops[|ops| - 1];
      if last.SetItem? && last.key == key && key !in After(size, front).entries then |front|
      else AddedAt(size, front, key)
  }

  lemma {:induction false} AfterConsistent<K, V>(size: int, ops: seq<Op<K, V>>)
    ensures Consistent(size, After(size, ops))
  {
    if ops != [] {
      var front, last := ops[..|ops| - 1], ops[|ops| - 1];
      AfterConsistent(size, front);
      match last {
        case SetItem(key, value) => PutConsistent(size, After(size, front), key, value);
        case DelItem(key) => WithoutConsistent(size, After(size, front), key);
      }
    }
  }

  /** Each key held has the value last stored under it. */
  lemma {:induction false} HoldsLatest<K, V>(size: int, ops: seq<Op<K, V>>, k: K)
    requires k in After(size, ops).entries
    ensures Latest(ops, k) == Some(After(size, ops).entries[k])
  {
    if ops != [] && ops[|ops| - 1].key != k {
      HoldsLatest(size, ops[..|ops| - 1], k);
    }
  }

  ghost predicate Rising<K>(keys: seq<K>, age: K -> int, now: int) {
    && (forall i :: 0 <= i < |keys| ==> 0 <= age(keys[i]) < now)
    && forall i, j :: 0 <= i < j < |keys| ==> age(keys[i]) < age(keys[j])
  }

  /** Leaving one out keeps the order. */
  lemma WithoutRising<K>(keys: seq<K>, age: K -> int, now: int, key: K)
    requires Rising(keys, age, now)
    ensures Rising(Without(keys, key), age, now)
  {
    var i, r := Index(keys, key), Without(keys, key);
    forall j | 0 <= j < |r| ensures r[j] == keys[if j < i then j else j + 1] {}
  }

  ghost function Age<K, V>(size: int, ops: seq<Op<K, V>>): K -> int {
    k => AddedAt(size, ops, k)
  }

  /** The keys are listed in the order in which they were added. */
  ghost predicate InOrder<K, V>(size: int, ops: seq<Op<K, V>>, keys: seq<K>) {
    Rising(keys, Age(size, ops), |ops|)
  }

  lemma RisingAppend<K>(keys: seq<K>, age: K -> int, now: int, k: K)
    requires Rising(keys, age, now) && age(k) == now >= 0
    ensures Rising(keys + [k], age, now + 1)
    ensures keys != [] ==> Rising(keys[1..] + [k], age, now + 1)
  {
  }

  /** An operation leaves the ages of the keys held before as they were. */
  lemma AgesKept<K, V>(size: int, front: seq<Op<K, V>>, last: Op<K, V>)
    requires InOrder(size, front, After(size, front).keys)
    ensures Rising(After(size, front).keys, Age(size, front + [last]), |front|)
  {
    var keys, ops := After(size, front).keys, front + [last];
    AfterConsistent(size, front);
    assert ops[..|ops| - 1] == front;
    forall i | 0 <= i < |keys| ensures AddedAt(size, ops, keys[i]) == AddedAt(size, front, keys[i]) {
      assert keys[i] in Members(keys);
    }
    forall i | 0 <= i < |keys| ensures Age(size, ops)(keys[i]) == Age(size, front)(keys[i]) {}
  }

  lemma PutInOrder<K, V>(size: int, front: seq<Op<K, V>>, key: K, value: V)
    requires InOrder(size, front, After(size, front).keys)
    ensures InOrder(size, front + [SetItem(key, value)], Put(size, After(size, front), key, value).keys)
  {
    var s, ops := After(size, front), front + [SetItem(key, value)];
    AgesKept(size, front, SetItem(key, value));
    if key !in s.entries {
      assert ops[..|ops| - 1] == front;
      assert Age(size, ops)(key) == |front|;
      RisingAppend(s.keys, Age(size, ops), |front|, key);
    }
  }

  /** In every run of assignments and deletions the key list is in the order in which its keys were
      added. */
  lemma {:induction false} KeysInOrder<K, V>(size: int, ops: seq<Op<K, V>>)
    ensures InOrder(size, ops, After(size, ops).keys)
  {
    if ops != [] {
      var front, last := ops[..|ops| - 1], ops[|ops| - 1];
      KeysInOrder(size, front);
      assert ops == front + [last];
      match last {
        case SetItem(key, value) => PutInOrder(size, front, key, value);
        case DelItem(key) =>
          AgesKept(size, front, last);
          WithoutRising(After(size, front).keys, Age(size, ops), |ops|, key);
      }
    }
  }

  /** First in, first out: what an assignment pushes out is the key that was added before all others, and
      only a new key in a full dictionary pushes one out. */
  lemma OldestLeaves<K, V>(size: int, ops: seq<Op<K, V>>, key: K, value: V, gone: K)
    requires gone in After(size, ops).entries && gone !in Put(size, After(size, ops), key, value).entries
    ensures key !in After(size, ops).entries && |After(size, ops).keys| == size
    ensures forall k :: k in After(size, ops).entries && k != gone ==> AddedAt(size, ops, gone) < AddedAt(size, ops, k)
  {
    var s := After(size, ops);
    AfterConsistent(size, ops);
    KeysInOrder(size, ops);
    forall k | k in s.entries && k != gone ensures AddedAt(size, ops, gone) < AddedAt(size, ops, k) {
      assert k in s.keys && gone == s.keys[0];
    }
  }

  // ---------- Assignments only ----------

  /** The store after setting the items in turn. */
  function Assigned<K, V>(size: int, s: Store<K, V>, items: seq<(K, V)>): Store<K, V> {
    if items == [] then s
    else
      var last := items[|items| - 1];
      Put(size, Assigned(size, s, items[..|items| - 1]), last.0, last.1)
  }

  /** The keys that were new when they were set, in order; a key pushed out counts as new again. */
  function Insertions<K(==), V>(size: int, s: Store<K, V>, items: seq<(K, V)>): seq<K> {
    if items == [] then []
    else
      var front, last := items[..|items| - 1], items[|items| - 1];
      Insertions(size, s, front) + (if last.0 in Assigned(size, s, front).entries then [] else [last.0])
  }

  /** The last n elements, or all when there are fewer. */
  function Recent<K>(s: seq<K>, n: nat): (r: seq<K>)
    ensures |r| == if |s| <= n then |s| else n
    ensures forall j :: 0 <= j < |r| ==> r[j] == s[|s| - |r| + j]
  {
    if |s| <= n then s else s[|s| - n..]
  }

  lemma RecentNext<K>(s: seq<K>, n: nat, k: K)
    requires n >= 1
    ensures Recent(s + [k], n) == if |s| < n then Recent(s, n) + [k] else Recent(s, n)[1..] + [k]
  {
  }

  lemma {:induction false} AssignedConsistent<K, V>(size: int, s: Store<K, V>, items: seq<(K, V)>)
    requires Consistent(size, s)
    ensures Consistent(size, Assigned(size, s, items))
  {
    if items != [] {
      var front, last := items[..|items| - 1], items[|items| - 1];
      AssignedConsistent(size, s, front);
      PutConsistent(size, Assigned(size, s, front), last.0, last.1);
    }
  }

  /** Whatever the dictionary held before, assignments leave exactly the most recent `size` of its keys
      and their insertions. */
  lemma {:induction false} HoldsMostRecent<K, V>(size: int, s: Store<K, V>, items: seq<(K, V)>)
    requires size >= 1 && Consistent(size, s)
    ensures Assigned(size, s, items).keys == Recent(s.keys + Insertions(size, s, items), size)
  {
    if items == [] {
      assert s.keys + [] == s.keys;
    } else {
      var front, last := items[..|items| - 1], items[|items| - 1];
      var u, ins := Assigned(size, s, front), Insertions(size, s, front);
      HoldsMostRecent(size, s, front);
      AssignedConsistent(size, s, front);
      if last.0 !in u.entries {
        RecentNext(s.keys + ins, size, last.0);
        assert s.keys + (ins + [last.0]) == s.keys + ins + [last.0];
        assert Assigned(size, s, items).keys == (if |s.keys + ins| < size then u.keys else u.keys[1..]) + [last.0];
      } else {
        assert Insertions(size, s, items) == ins;
      }
    }
  }

  class Cache<K(==), V> {
    const maxsize: int
    var key_list: seq<K>
    var entries: map<K, V>

    function Contents(): Store<K, V> reads this { Store(key_list, entries) }

    ghost predicate Valid() reads this { Consistent(maxsize, Contents()) }

    constructor (size: int)
      ensures Valid() && maxsize == size && Contents() == Store([], map[])
    {
      maxsize, key_list, entries := size, [], map[];
    }

    /** __setitem__; None is success. */
    method SetItem(key: K, value: V) returns (error: Option<string>)
      requires Valid()
      modifies this
      ensures Valid() && Contents() == Put(maxsize, old(Contents()), key, value)
      ensures error == if key !in old(entries) && maxsize <= 0 then Some("KeyError") else None
    {
      PutConsistent(maxsize, Contents(), key, value);
      if key !in entries {
        error := AddKey(key);
        if error.Some? { return; }
      }
      entries := entries[key := value];
      error := None;
    }

    /** __delitem__ */
    method DelItem(key: K) returns (error: Option<string>)
      modifies this
      ensures key_list == Without(old(key_list), key) && entries == old(entries) - {key}
      ensures error == if key in old(entries) then None else Some("KeyError")
      ensures old(Valid()) ==> Valid() && (error.Some? ==> Contents() == old(Contents()))
    {
      if Valid() { WithoutConsistent(maxsize, Contents(), key); }
      if key in key_list { key_list := Without(key_list, key); }
      if key !in entries { return Some("KeyError"); }
      entries := entries - {key};
      error := None;
    }

    /** __add_key: appends the key, then pushes the oldest out when there are too many. */
    method AddKey(key: K) returns (error: Option<string>)
      requires Valid() && key !in entries
      modifies this
      ensures error == if maxsize <= 0 then Some("KeyError") else None
      ensures error.Some? ==> Contents() == old(Contents())
      ensures error.None? && |old(key_list)| < maxsize ==>
        key_list == old(key_list) + [key] && entries == old(entries)
      ensures error.None? && |old(key_list)| >= maxsize ==>
        key_list == old(key_list)[1..] + [key] && entries == old(entries) - {old(key_list)[0]}
    {
      ghost var was := key_list;
      error := None;
      key_list := key_list + [key];
      if |key_list| > maxsize {
        var oldest := key_list[0];
        key_list := key_list[1..];
        assert was != [] ==> was == [oldest] + was[1..] && key_list == was[1..] + [key];
        error := DelItem(oldest);
      }
    }
  }

  // ---------- The memoizer ----------

  /** Positional and keyword arguments. */
  datatype Call<A, W> = Call(args: A, kwds: W)

  /** A deterministic function without side effects. Positional arguments are looked up by a key:
      equal arguments have the same key, and unhashable ones have none. */
  datatype Function<!A, !W, K(==), V> = Function(run: (A, W) -> Outcome<V>, key: A -> Option<K>, noKeywords: W) {
    function Direct(c: Call<A, W>): Outcome<V> { run(c.args, c.kwds) }
  }

  /** The answer to a call and the dictionary after it. */
  function Answer<A, W, K, V>(f: Function<A, W, K, V>, size: int, s: Store<K, V>, c: Call<A, W>)
    : (Outcome<V>, Store<K, V>)
  {
    match f.key(c.args)
    case None => (f.run(c.args, f.noKeywords), s)
    case Some(k) =>
      if k in s.entries then (Returned(s.entries[k]), s)
      else match f.Direct(c)
        case Raised(e) => (Raised(e), s)
        case Returned(v) => (if size <= 0 then Raised("KeyError") else Returned(v), Put(size, s, k, v))
  }

  class Memoize<!A, !W, K(==), V> {
    const func: Function<A, W, K, V>
    const cache: Cache<K, V>

    constructor (f: Function<A, W, K, V>, size: int)
      ensures func == f && fresh(cache)
      ensures cache.maxsize == size && cache.Valid() && cache.Contents() == Store([], map[])
    {
      func := f;
      cache := new Cache(size);
    }

    /** __call__ */
    method Invoke(c: Call<A, W>) returns (answer: Outcome<V>)
      requires cache.Valid()
      modifies cache
      ensures cache.Valid() && (answer, cache.Contents()) == Answer(func, cache.maxsize, old(cache.Contents()), c)
    {
      match func.key(c.args) {
        case None =>
          answer := func.run(c.args, func.noKeywords);
        case Some(k) =>
          if k in cache.entries { return Returned(cache.entries[k]); }
          answer := func.run(c.args, c.kwds);
          if answer.Returned? {
            var error := cache.SetItem(k, answer.value);
            if error.Some? { answer := Raised(error.value); }
          }
      }
    }
  }

  /** The dictionary after a run of calls. */
  function Stored<A, W, K, V>(f: Function<A, W, K, V>, size: int, calls: seq<Call<A, W>>): Store<K, V> {
    if calls == [] then Store([], map[])
    else Answer(f, size, Stored(f, size, calls[..|calls| - 1]), calls[|calls| - 1]).1
  }

  /** The answer to call i of a run. */
  function Reply<A, W, K, V>(f: Function<A, W, K, V>, size: int, calls: seq<Call<A, W>>, i: nat): Outcome<V>
    requires i < |calls|
  {
    Answer(f, size, Stored(f, size, calls[..i]), calls[i]).0
  }

  // ---------- What a call in any run is answered with ----------

  /** The pairs a run of calls stores, in order: a call stores its value unless its key is among the last `size`
      pairs stored before, its arguments are unhashable, or the function raises. */
  function Filled<A, W, K(==), V>(f: Function<A, W, K, V>, size: nat, calls: seq<Call<A, W>>): seq<(K, V)> {
    if calls == [] then []
    else FilledNext(f, size, Filled(f, size, calls[..|calls| - 1]), calls[|calls| - 1])
  }

  function FilledNext<A, W, K(==), V>(f: Function<A, W, K, V>, size: nat, was: seq<(K, V)>, c: Call<A, W>)
    : seq<(K, V)>
  {
    if f.key(c.args).None? || f.Direct(c).Raised? || Lookup(Recent(was, size), f.key(c.args).value).Some? then was
    else was + [(f.key(c.args).value, f.Direct(c).value)]
  }

  /** What was last stored under a key. */
  function Lookup<K(==), V>(items: seq<(K, V)>, key: K): Option<V> {
    if items == [] then None
    else if items[|items| - 1].0 == key then Some(items[|items| - 1].1)
    else Lookup(items[..|items| - 1], key)
  }

  /** The dictionary holds these pairs, in this order. */
  ghost predicate HoldsPairs<K, V>(s: Store<K, V>, items: seq<(K, V)>) {
    && Distinct(s.keys) && Members(s.keys) == s.entries.Keys && |s.keys| == |items|
    && forall j :: 0 <= j < |items| ==> s.keys[j] == items[j].0 && items[j].0 in s.entries
                                        && s.entries[items[j].0] == items[j].1
  }

  lemma {:induction false} LookupAt<K, V>(items: seq<(K, V)>, key: K)
    ensures Lookup(items, key).None? ==> forall j :: 0 <= j < |items| ==> items[j].0 != key
    ensures Lookup(items, key).Some? ==> exists j :: 0 <= j < |items| && items[j] == (key, Lookup(items, key).value)
  {
    if items != [] && items[|items| - 1].0 != key {
      LookupAt(items[..|items| - 1], key);
    }
  }

  lemma LookupFinds<K, V>(s: Store<K, V>, items: seq<(K, V)>, key: K)
    requires HoldsPairs(s, items)
    ensures Lookup(items, key) == if key in s.entries then Some(s.entries[key]) else None
  {
    LookupAt(items, key);
    if key in s.entries {
      assert key in Members(s.keys);
      var j :| 0 <= j < |s.keys| && s.keys[j] == key;
      assert items[j].0 == key;
    }
  }

  lemma RestHolds<K, V>(s: Store<K, V>, r: seq<(K, V)>)
    requires HoldsPairs(s, r) && r != []
    ensures HoldsPairs(Store(s.keys[1..], s.entries - {s.keys[0]}), r[1..])
  {
    var keys := s.keys[1..];
    forall k ensures k in Members(keys) <==> k in s.entries && k != s.keys[0] {
      assert s.keys == [s.keys[0]] + keys;
      assert k in s.entries <==> k in Members(s.keys);
    }
    forall j | 0 <= j < |r[1..]| ensures r[1..][j] == r[j + 1] && s.keys[j + 1] != s.keys[0] {}
  }

  lemma AppendHolds<K, V>(s: Store<K, V>, r: seq<(K, V)>, key: K, value: V)
    requires HoldsPairs(s, r) && key !in s.entries
    ensures HoldsPairs(Store(s.keys + [key], s.entries[key := value]), r + [(key, value)])
  {
    forall j | 0 <= j < |s.keys| ensures s.keys[j] != key {
      assert s.keys[j] in Members(s.keys);
    }
  }

  lemma PutHolds<K, V>(size: nat, s: Store<K, V>, items: seq<(K, V)>, key: K, value: V)
    requires size >= 1 && HoldsPairs(s, Recent(items, size)) && key !in s.entries
    ensures HoldsPairs(Put(size, s, key, value), Recent(items + [(key, value)], size))
  {
    RecentNext(items, size, (key, value));
    if |items| < size {
      AppendHolds(s, Recent(items, size), key, value);
    } else {
      RestHolds(s, Recent(items, size));
      AppendHolds(Store(s.keys[1..], s.entries - {s.keys[0]}), Recent(items, size)[1..], key, value);
    }
  }

  predicate Fills<A, W, K, V>(f: Function<A, W, K, V>, s: Store<K, V>, c: Call<A, W>) {
    f.key(c.args).Some? && f.key(c.args).value !in s.entries && f.Direct(c).Returned?
  }

  lemma FillsOrNot<A, W, K, V>(f: Function<A, W, K, V>, size: nat, s: Store<K, V>, was: seq<(K, V)>, c: Call<A, W>)
    requires f.key(c.args).Some? ==>
      (Lookup(Recent(was, size), f.key(c.args).value).Some? <==> f.key(c.args).value in s.entries)
    ensures Fills(f, s, c) ==> var k, v := f.key(c.args).value, f.Direct(c).value;
      Answer(f, size, s, c).1 == Put(size, s, k, v) && FilledNext(f, size, was, c) == was + [(k, v)]
    ensures !Fills(f, s, c) ==> Answer(f, size, s, c).1 == s && FilledNext(f, size, was, c) == was
  {
  }

  lemma AnswerHolds<A, W, K, V>(f: Function<A, W, K, V>, size: nat, s: Store<K, V>, was: seq<(K, V)>, c: Call<A, W>)
    requires size >= 1 && HoldsPairs(s, Recent(was, size))
    ensures HoldsPairs(Answer(f, size, s, c).1, Recent(FilledNext(f, size, was, c), size))
  {
    if f.key(c.args).Some? { LookupFinds(s, Recent(was, size), f.key(c.args).value); }
    FillsOrNot(f, size, s, was, c);
    if Fills(f, s, c) { PutHolds(size, s, was, f.key(c.args).value, f.Direct(c).value); }
  }

  lemma {:induction false} StoredPairs<A, W, K, V>(f: Function<A, W, K, V>, size: nat, calls: seq<Call<A, W>>)
    requires size >= 1
    ensures HoldsPairs(Stored(f, size, calls), Recent(Filled(f, size, calls), size))
  {
    if calls != [] {
      var front, c := calls[..|calls| - 1], calls[|calls| - 1];
      StoredPairs(f, size, front);
      AnswerHolds(f, size, Stored(f, size, front), Filled(f, size, front), c);
    }
  }

  /** Every call in every run, for any function: a call with a key among the last `size` pairs stored is answered
      with the value stored there, whatever its keywords; any other call is answered directly, without its
      keywords when its arguments are unhashable. */
  lemma ReplyExactly<A, W, K, V>(f: Function<A, W, K, V>, size: nat, calls: seq<Call<A, W>>, i: nat)
    requires size >= 1 && i < |calls|
    ensures Reply(f, size, calls, i) ==
      match f.key(calls[i].args)
      case None => f.run(calls[i].args, f.noKeywords)
      case Some(k) =>
        var stored := Lookup(Recent(Filled(f, size, calls[..i]), size), k);
        if stored.Some? then Returned(stored.value) else f.Direct(calls[i])
  {
    StoredPairs(f, size, calls[..i]);
    if f.key(calls[i].args).Some? {
      LookupFinds(Stored(f, size, calls[..i]), Recent(Filled(f, size, calls[..i]), size), f.key(calls[i].args).value);
    }
  }

  // ---------- When memoizing makes no difference ----------

  /** Two calls that share a key give the same value or both raise, and keywords make no difference
      where the arguments are unhashable. */
  ghost predicate KeyDecides<A(!new), W(!new), K, V>(f: Function<A, W, K, V>) {
    && (forall c, d :: Interchangeable(f, c, d))
    && (forall c :: KeywordsIdle(f, c))
  }

  ghost predicate Interchangeable<A, W, K, V>(f: Function<A, W, K, V>, c: Call<A, W>, d: Call<A, W>) {
    f.key(c.args).Some? && f.key(c.args) == f.key(d.args) && f.Direct(c).Returned? ==> f.Direct(d) == f.Direct(c)
  }

  ghost predicate KeywordsIdle<A, W, K, V>(f: Function<A, W, K, V>, c: Call<A, W>) {
    f.key(c.args).None? ==> f.Direct(c) == f.run(c.args, f.noKeywords)
  }

  /** Every entry is the value of some call with its key. */
  ghost predicate Genuine<A(!new), W(!new), K, V>(f: Function<A, W, K, V>, s: Store<K, V>) {
    forall k :: k in s.entries ==>
      exists c: Call<A, W> :: f.key(c.args) == Some(k) && f.Direct(c) == Returned(s.entries[k])
  }

  lemma {:induction false} StoredGenuine<A(!new), W(!new), K, V>(f: Function<A, W, K, V>, size: int,
                                                                 calls: seq<Call<A, W>>)
    requires size >= 1
    ensures Consistent(size, Stored(f, size, calls)) && Genuine(f, Stored(f, size, calls))
  {
    if calls != [] {
      var front, c := calls[..|calls| - 1], calls[|calls| - 1];
      var s := Stored(f, size, front);
      StoredGenuine(f, size, front);
      if f.key(c.args).Some? && f.key(c.args).value !in s.entries && f.Direct(c).Returned? {
        var k, v := f.key(c.args).value, f.Direct(c).value;
        PutConsistent(size, s, k, v);
        forall j | j in Put(size, s, k, v).entries
          ensures exists d: Call<A, W> ::
            f.key(d.args) == Some(j) && f.Direct(d) == Returned(Put(size, s, k, v).entries[j])
        {
          if j == k {
            assert f.key(c.args) == Some(j) && f.Direct(c) == Returned(v);
          }
        }
      }
    }
  }

  /** Memoizing is transparent, every call in every run answering as a direct call does, exactly when
      the key decides the outcome. */
  lemma Transparent<A(!new), W(!new), K, V>(f: Function<A, W, K, V>, size: int)
    requires size >= 1
    ensures (forall calls: seq<Call<A, W>>, i: nat | i < |calls| :: Reply(f, size, calls, i) == f.Direct(calls[i]))
      <==> KeyDecides(f)
  {
    if KeyDecides(f) {
      forall calls: seq<Call<A, W>>, i: nat | i < |calls| ensures Reply(f, size, calls, i) == f.Direct(calls[i]) {
        var s, c := Stored(f, size, calls[..i]), calls[i];
        StoredGenuine(f, size, calls[..i]);
        assert KeywordsIdle(f, c);
        if f.key(c.args).Some? && f.key(c.args).value in s.entries {
          var k := f.key(c.args).value;
          var d: Call<A, W> :| f.key(d.args) == Some(k) && f.Direct(d) == Returned(s.entries[k]);
          assert Interchangeable(f, d, c);
        }
      }
    } else if c, d :| !Interchangeable(f, c, d) {
      ShowsDifference(f, size, c, d);
    } else {
      var c :| !KeywordsIdle(f, c);
      assert Reply(f, size, [c], 0) != f.Direct([c][0]);
    }
  }

  lemma ShowsDifference<A(!new), W(!new), K, V>(f: Function<A, W, K, V>, size: int, c: Call<A, W>, d: Call<A, W>)
    requires size >= 1 && !Interchangeable(f, c, d)
    ensures Reply(f, size, [c, d], 1) != f.Direct([c, d][1])
  {
    assert [c, d][..1] == [c] && [c][..0] == [];
    assert Stored(f, size, [c]) == Answer(f, size, Store([], map[]), c).1;
  }

  /** Without keywords, a hashable function on which equal keys mean equal outcomes is memoized
      transparently in every run. */
  lemma PositionalTransparent<A(!new), W(!new), K, V>(f: Function<A, W, K, V>, size: int, calls: seq<Call<A, W>>,
                                                      i: nat)
    requires size >= 1 && i < |calls|
    requires forall c :: c in calls ==> c.kwds == f.noKeywords
    requires forall a, b :: f.key(a).Some? && f.key(a) == f.key(b) ==> f.run(a, f.noKeywords) == f.run(b, f.noKeywords)
    ensures Reply(f, size, calls, i) == f.Direct(calls[i])
  {
    var g := Positional(f);
    SameAnswers(f, size, calls[..i]);
    Transparent(g, size);
    assert forall c :: KeywordsIdle(g, c);
    assert forall c, d :: Interchangeable(g, c, d);
    assert Reply(g, size, calls, i) == g.Direct(calls[i]);
    assert calls[i] in calls;
  }

  /** The function as it is called without keywords. */
  function Positional<A, W, K, V>(f: Function<A, W, K, V>): Function<A, W, K, V> {
    Function((a, w) => f.run(a, f.noKeywords), f.key, f.noKeywords)
  }

  lemma {:induction false} SameAnswers<A(!new), W(!new), K, V>(f: Function<A, W, K, V>, size: int, calls: seq<Call<A,
                                                               W>>)
    requires forall c :: c in calls ==> c.kwds == f.noKeywords
    ensures Stored(Positional(f), size, calls) == Stored(f, size, calls)
  {
    if calls != [] {
      SameAnswers(f, size, calls[..|calls| - 1]);
      assert calls[|calls| - 1] in calls;
    }
  }

  /** Keywords are forgotten: the second of two calls with the same hashable arguments is answered
      with what the first one returned. */
  lemma KeywordsForgotten<A, W, K, V>(f: Function<A, W, K, V>, size: int, c: Call<A, W>, d: Call<A, W>)
    requires size >= 1 && c.args == d.args && f.key(c.args).Some? && f.Direct(c).Returned?
    ensures Reply(f, size, [c, d], 1) == f.Direct(c)
  {
    assert [c, d][..1] == [c] && [c][..0] == [];
    assert Stored(f, size, [c]) == Answer(f, size, Store([], map[]), c).1;
  }

  /** With no room nothing is ever stored, and a hashable call that should return raises KeyError. */
  lemma {:induction false} NoRoom<A, W, K, V>(f: Function<A, W, K, V>, size: int, calls: seq<Call<A, W>>, i: nat)
    requires size <= 0 && i < |calls| && f.key(calls[i].args).Some? && f.Direct(calls[i]).Returned?
    ensures Reply(f, size, calls, i) == Raised("KeyError")
  {
    NothingStored(f, size, calls[..i]);
  }

  lemma {:induction false} NothingStored<A, W, K, V>(f: Function<A, W, K, V>, size: int, calls: seq<Call<A, W>>)
    requires size <= 0
    ensures Stored(f, size, calls) == Store([], map[])
  {
    if calls != [] {
      NothingStored(f, size, calls[..|calls| - 1]);
    }
  }
}
