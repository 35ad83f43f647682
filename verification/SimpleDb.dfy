/** The timestamped store of stats/storageutils/simpledb.py: entries under encoded keys in a
    B-tree, read back through a cursor that moves in key order. */
module SimpleDb {
  import opened RowKeys

  datatype Option<T> = None | Some(value: T)
  datatype Entry<V> = Entry(row: seq<byte>, timestamp: int, value: V)

  // ---------- The cursor ----------

  /** The least of the keys that is not below k (or, when `after`, that is above k). */
  ghost predicate IsNext(keys: set<seq<byte>>, k: seq<byte>, after: bool, r: Option<seq<byte>>) {
    match r
    case None => forall x :: x in keys ==> !Beyond(x, k, after)
    case Some(n) => n in keys && Beyond(n, k, after) && forall x :: x in keys && Beyond(x, k, after) ==> !Less(x, n)
  }

  predicate Beyond(x: seq<byte>, k: seq<byte>, after: bool) {
    if after then Less(k, x) else !Less(x, k)
  }

  /** Cursor positioning: set_range finds the first key at or after k, next the first after k. */
  method Seek(keys: set<seq<byte>>, k: seq<byte>, after: bool) returns (r: Option<seq<byte>>)
    ensures IsNext(keys, k, after, r)
  {
    r := None;
    var rest := keys;
    while rest != {}
      invariant rest <= keys && IsNext(keys - rest, k, after, r)
      decreases |rest|
    {
      var y :| y in rest;
      LessIrreflexive(y);
      if Beyond(y, k, after) && (r.None? || Less(y, r.value)) {
        if r.Some? { SmallerNext(keys - rest, k, after, r.value, y); }
        r := Some(y);
      }
      assert keys - (rest - {y}) == keys - rest + {y};
      rest := rest - {y};
    }
    assert keys - rest == keys;
  }

  lemma SmallerNext(keys: set<seq<byte>>, k: seq<byte>, after: bool, n: seq<byte>, y: seq<byte>)
    requires IsNext(keys, k, after, Some(n)) && Less(y, n)
    ensures forall x :: x in keys && Beyond(x, k, after) ==> !Less(x, y)
  {
    forall x | x in keys && Beyond(x, k, after) ensures !Less(x, y) {
      if Less(x, y) { LessTrans(x, y, n); }
    }
  }

  // ---------- What a scan yields ----------

  ghost predicate Ascending(ks: seq<seq<byte>>) {
    forall i, j :: 0 <= i < j < |ks| ==> Less(ks[i], ks[j])
  }

  /** A scan from `start` reads key k: k is stored, not before start, and no entry from start up to
      k is older than `end`. */
  ghost predicate Scanned(keys: set<seq<byte>>, start: seq<byte>, end: int, k: seq<byte>) {
    && k in keys && !Less(k, start)
    && forall x :: x in keys && !Less(x, start) && !Less(k, x) ==> WellFormed(x) && TimeOf(x) >= end
  }

  ghost predicate IsScan(keys: set<seq<byte>>, start: seq<byte>, end: int, ks: seq<seq<byte>>) {
    Ascending(ks) && forall k :: k in ks <==> Scanned(keys, start, end, k)
  }

  function EntryAt<V>(data: map<seq<byte>, V>, k: seq<byte>): Entry<V>
    requires k in data && WellFormed(k)
  {
    Entry(RowOf(k), TimeOf(k), data[k])
  }

  class SimpleDB<V(!new)> {
    var data: map<seq<byte>, V>

    ghost predicate Valid()
      reads this
    {
      forall k :: k in data ==> WellFormed(k)
    }

    /** What the store holds for a row and a time. */
    ghost function Lookup(row: seq<byte>, timestamp: int): Option<V>
      reads this
    {
      if Packable(timestamp) && EntryKey(row, timestamp) in data then Some(data[EntryKey(row, timestamp)]) else None
    }

    constructor ()
      ensures Valid() && data == map[]
    {
      data := map[];
    }

    /** Stores a value; a timestamp that does not fit the key's 64 bits is an error. */
    method Set(row: seq<byte>, value: V, timestamp: int) returns (ok: bool)
      requires Valid()
      modifies this
      ensures Valid() && ok == Packable(timestamp)
      ensures forall r, t ::
        Lookup(r, t) == if ok && r == row && t == timestamp then Some(value) else old(Lookup(r, t))
    {
      ok := Packable(timestamp);
      if ok {
        ghost var was := data;
        KeyRoundTrip(row, timestamp, EntryKey(row, timestamp));
        data := data[EntryKey(row, timestamp) := value];
        forall r: seq<byte>, t: int | Packable(t) && EntryKey(r, t) == EntryKey(row, timestamp)
          ensures r == row && t == timestamp
        {
          KeyRoundTrip(r, t, EntryKey(row, timestamp));
        }
      }
    }

    /** Removes an entry; it is an error when there is none. */
    method Delete(row: seq<byte>, timestamp: int) returns (ok: bool)
      requires Valid()
      modifies this
      ensures Valid() && ok == old(Lookup(row, timestamp).Some?)
      ensures forall r, t :: Lookup(r, t) == (if r == row && t == timestamp then None else old(Lookup(r, t)))
    {
      ok := Packable(timestamp) && EntryKey(row, timestamp) in data;
      if ok {
        KeyRoundTrip(row, timestamp, EntryKey(row, timestamp));
        data := data - {EntryKey(row, timestamp)};
        forall r: seq<byte>, t: int | Packable(t) && EntryKey(r, t) == EntryKey(row, timestamp)
          ensures r == row && t == timestamp
        {
          KeyRoundTrip(r, t, EntryKey(row, timestamp));
        }
      }
    }

    /** The entries from a start row (or from the first entry) on, up to the first that is older
        than the lesser bound. None stands for the error of a bound that cannot be encoded. */
    method ItemIterator(startRow: seq<byte>, startTimestamp: int, endTimestamp: int)
      returns (out: Option<seq<Entry<V>>>, ghost ks: seq<seq<byte>>)
      requires Valid()
      ensures out.None? <==> startRow != [] && !Packable(Max(startTimestamp, endTimestamp))
      ensures out.Some? ==>
        && IsScan(data.Keys, StartKey(startRow, startTimestamp, endTimestamp), Min(startTimestamp, endTimestamp), ks)
        && Yields(data, ks, out.value)
    {
      ks := [];
      var start, end := startTimestamp, endTimestamp;
      if end > start {
        start, end := end, start;
      }
      if startRow != [] && !Packable(start) {
        return None, [];
      }
      var startKey := if startRow != [] then EntryKey(startRow, start) else [];
      var entries := [];
      var record := Seek(data.Keys, startKey, false);
      while record.Some?
        invariant Valid() && Yields(data, ks, entries)
        invariant Reading(data.Keys, startKey, end, ks, record)
        decreases if record.Some? then Rest(data.Keys, record.value) else 0
      {
        var key := record.value;
        if TimeOf(key) < end {
          break;
        }
        entries := entries + [EntryAt(data, key)];
        var next := Seek(data.Keys, key, true);
        ReadingStep(data.Keys, startKey, end, ks, key, next);
        ks := ks + [key];
        record := next;
      }
      out := Some(entries);
    }

    /** The entries of one row: a scan cut at the first entry of another row. */
    method RowItems(row: seq<byte>, startTimestamp: int, endTimestamp: int)
      returns (out: Option<seq<Entry<V>>>, ghost all: seq<seq<byte>>, ghost ks: seq<seq<byte>>)
      requires Valid()
      ensures out.None? <==> !Packable(Max(startTimestamp, endTimestamp))
      ensures out.Some? ==>
        && IsScan(data.Keys, StartKey(GetRowID(row), startTimestamp, endTimestamp),
                  Min(startTimestamp, endTimestamp), all)
        && IsRowPart(row, all, ks) && Yields(data, ks, out.value)
    {
      var scan;
      scan, all := ItemIterator(GetRowID(row), startTimestamp, endTimestamp);
      ks := [];
      if scan.None? {
        return None, [], [];
      }
      var i := 0;
      while i < |scan.value| && scan.value[i].row == row
        invariant 0 <= i <= |scan.value|
        invariant forall j :: 0 <= j < i ==> RowOf(all[j]) == row
      {
        i := i + 1;
      }
      out, ks := Some(scan.value[..i]), all[..i];
    }

    /** ItemIteratorByRows: the entries of each requested row in turn. */
    method ItemIteratorByRows(rows: seq<seq<byte>>, startTimestamp: int, endTimestamp: int)
      returns (out: Option<seq<Entry<V>>>, ghost parts: seq<seq<Entry<V>>>)
      requires Valid()
      ensures out.None? <==> rows != [] && !Packable(Max(startTimestamp, endTimestamp))
      ensures out.Some? ==> |parts| == |rows| && out.value == Flatten(parts)
      ensures out.Some? && FFFreeStore(data.Keys) ==> forall i :: 0 <= i < |rows| && Plain(rows[i]) ==>
        RowFilter(this, rows[i], Min(startTimestamp, endTimestamp), Max(startTimestamp, endTimestamp), parts[i])
    {
      out, parts := Some([]), [];
      for i := 0 to |rows|
        invariant out.Some? && |parts| == i && out.value == Flatten(parts)
        invariant i > 0 ==> Packable(Max(startTimestamp, endTimestamp))
        invariant FFFreeStore(data.Keys) ==> forall j :: 0 <= j < i && Plain(rows[j]) ==>
          RowFilter(this, rows[j], Min(startTimestamp, endTimestamp), Max(startTimestamp, endTimestamp), parts[j])
      {
        var part;
        ghost var all, ks;
        part, all, ks := RowItems(rows[i], startTimestamp, endTimestamp);
        if part.None? {
          return None, [];
        }
        if Plain(rows[i]) && FFFreeStore(data.Keys) {
          RowPartIsFilter(this, rows[i], Min(startTimestamp, endTimestamp), Max(startTimestamp, endTimestamp),
                          all, ks, part.value);
        }
        assert (parts + [part.value])[..i] == parts;
        out, parts := Some(out.value + part.value), parts + [part.value];
      }
    }

    /** The newest entry of a row, or None for RowNotFound. In any store that is the first entry from the
        row's start key on, if it is of the row and no older than 0; for rows free of 0xFF it is the
        entry with the greatest timestamp from 0 on. */
    method GetNewest(row: seq<byte>) returns (entry: Option<Entry<V>>)
      requires Valid()
      ensures exists first :: IsNext(data.Keys, EntryKey(GetRowID(row), TIMESTAMP_MAX), false, first)
                              && entry == EntryOf(data, row, first)
      ensures FFFreeStore(data.Keys) && Plain(row) ==> IsNewest(this, row, entry)
    {
      var items;
      ghost var all, ks;
      items, all, ks := RowItems(row, 0, TIMESTAMP_MAX);
      ghost var first := FirstKey(data.Keys, EntryKey(GetRowID(row), TIMESTAMP_MAX));
      ScanStarts(data.Keys, EntryKey(GetRowID(row), TIMESTAMP_MAX), 0, all, first);
      if FFFreeStore(data.Keys) && Plain(row) {
        RowPartIsFilter(this, row, 0, TIMESTAMP_MAX, all, ks, items.value);
        NewestFirst(this, row, 0, TIMESTAMP_MAX, items.value);
      }
      if items.value == [] {
        return None;
      }
      entry := if items.value[0].row == row then Some(items.value[0]) else None;
    }
  }

  ghost predicate IsNewest<V(!new)>(db: SimpleDB<V>, row: seq<byte>, entry: Option<Entry<V>>)
    reads db
  {
    match entry
    case None => forall t :: 0 <= t <= TIMESTAMP_MAX ==> db.Lookup(row, t).None?
    case Some(e) =>
      && e.row == row && 0 <= e.timestamp <= TIMESTAMP_MAX && db.Lookup(row, e.timestamp) == Some(e.value)
      && forall t :: e.timestamp < t <= TIMESTAMP_MAX ==> db.Lookup(row, t).None?
  }

  /** The entry under a key, provided it is of the row and no older than 0. */
  function EntryOf<V>(data: map<seq<byte>, V>, row: seq<byte>, key: Option<seq<byte>>): Option<Entry<V>>
    requires key.Some? ==> key.value in data && WellFormed(key.value)
  {
    if key.Some? && RowOf(key.value) == row && TimeOf(key.value) >= 0 then Some(EntryAt(data, key.value)) else None
  }

  lemma {:induction false} FirstKey(keys: set<seq<byte>>, k: seq<byte>) returns (r: Option<seq<byte>>)
    ensures IsNext(keys, k, false, r)
    decreases |keys|
  {
    if y :| y in keys {
      r := FirstKey(keys - {y}, k);
      LessIrreflexive(y);
      if Beyond(y, k, false) && (r.None? || Less(y, r.value)) {
        if r.Some? { SmallerNext(keys - {y}, k, false, r.value, y); }
        r := Some(y);
      }
      assert keys == keys - {y} + {y};
    } else {
      r := None;
    }
  }

  lemma HeadIsFirst(keys: set<seq<byte>>, start: seq<byte>, end: int, all: seq<seq<byte>>, first: Option<seq<byte>>)
    requires IsScan(keys, start, end, all) && IsNext(keys, start, false, first) && all != []
    ensures first.Some? && all[0] == first.value && WellFormed(all[0]) && TimeOf(all[0]) >= end
  {
    assert all[0] in all && Scanned(keys, start, end, all[0]);
    LessIrreflexive(all[0]);
    var f := first.value;
    forall x | x in keys && !Less(x, start) && !Less(f, x) ensures WellFormed(x) && TimeOf(x) >= end {
      AtMostTrans(x, f, all[0]);
    }
    assert Scanned(keys, start, end, f);
    var i :| 0 <= i < |all| && all[i] == f;
    assert i == 0;
  }

  /** A scan starts at the first key, if that is no older than its end. */
  lemma ScanStarts(keys: set<seq<byte>>, start: seq<byte>, end: int, all: seq<seq<byte>>, first: Option<seq<byte>>)
    requires IsScan(keys, start, end, all) && IsNext(keys, start, false, first)
    requires forall k :: k in keys ==> WellFormed(k)
    ensures all == [] <==> first.None? || TimeOf(first.value) < end
    ensures all != [] ==> all[0] == first.value
  {
    if all != [] {
      HeadIsFirst(keys, start, end, all, first);
    } else if first.Some? && TimeOf(first.value) >= end {
      forall x | x in keys && !Less(x, start) && !Less(first.value, x) ensures x == first.value {
        LessTotal(x, first.value);
      }
      assert Scanned(keys, start, end, first.value);
    }
  }

  function Max(a: int, b: int): int { if a > b then a else b }

  function Min(a: int, b: int): int { if a > b then b else a }

  /** Without a key database rows are their own ids, except the empty row. */
  function GetRowID(row: seq<byte>): seq<byte> {
    if row == [] then To64(0) else row
  }

  ghost function StartKey(startRow: seq<byte>, startTimestamp: int, endTimestamp: int): seq<byte>
    requires startRow != [] ==> Packable(Max(startTimestamp, endTimestamp))
  {
    if startRow != [] then EntryKey(startRow, Max(startTimestamp, endTimestamp)) else []
  }

  ghost predicate Yields<V>(data: map<seq<byte>, V>, ks: seq<seq<byte>>, out: seq<Entry<V>>) {
    |out| == |ks| && forall i :: 0 <= i < |ks| ==> ks[i] in data && WellFormed(ks[i]) && out[i] == EntryAt(data, ks[i])
  }

  // ---------- The scan loop ----------

  /** How many stored keys are not below k. */
  ghost function Rest(keys: set<seq<byte>>, k: seq<byte>): nat {
    |set x | x in keys && !Less(x, k)|
  }

  /** ks are the keys read so far, record is the next one. */
  ghost predicate Reading(keys: set<seq<byte>>, start: seq<byte>, end: int, ks: seq<seq<byte>>,
                          record: Option<seq<byte>>) {
    && Ascending(ks)
    && (forall k :: k in ks ==> Scanned(keys, start, end, k))
    && (record.Some? ==> record.value in keys && !Less(record.value, start))
    && (forall x :: x in keys && !Less(x, start) && x !in ks ==> record.Some? && !Less(x, record.value))
    && (record.Some? ==> forall k :: k in ks ==> Less(k, record.value))
  }

  lemma ReadingStep(keys: set<seq<byte>>, start: seq<byte>, end: int, ks: seq<seq<byte>>, key: seq<byte>,
                    next: Option<seq<byte>>)
    requires Reading(keys, start, end, ks, Some(key)) && WellFormed(key) && TimeOf(key) >= end
    requires IsNext(keys, key, true, next)
    ensures Reading(keys, start, end, ks + [key], next)
    ensures (if next.Some? then Rest(keys, next.value) else 0) < Rest(keys, key)
  {
    var ks' := ks + [key];
    forall x | x in keys && !Less(x, start) && !Less(key, x)
      ensures WellFormed(x) && TimeOf(x) >= end
    {
      LessTotal(x, key);
      if x in ks { assert Scanned(keys, start, end, x); LessIrreflexive(x); }
    }
    assert Scanned(keys, start, end, key);
    forall x | x in keys && !Less(x, start) && x !in ks'
      ensures next.Some? && !Less(x, next.value)
    {
      assert x !in ks && x != key;
      LessTotal(x, key);
      assert Beyond(x, key, true);
    }
    var b := set x | x in keys && !Less(x, key);
    LessIrreflexive(key);
    assert key in b;
    if next.Some? {
      var n := next.value;
      if Less(n, start) {
        LessTotal(key, start);
        if Less(start, key) { LessTrans(n, start, key); }
        LessAsym(n, key);
      }
      forall k | k in ks' ensures Less(k, n) {
        if k in ks { LessTrans(k, key, n); }
      }
      var a := set x | x in keys && !Less(x, n);
      forall x | x in a ensures x in b {
        if Less(x, key) { LessTrans(x, key, n); }
      }
      assert key !in a;
      Smaller(a, b);
    }
  }

  lemma Smaller<T>(a: set<T>, b: set<T>)
    requires a < b
    ensures |a| < |b|
  {
    assert b == a + (b - a);
  }

  // ---------- One row of a scan ----------

  /** ks is the part of a scan before the first key of another row. */
  ghost predicate IsRowPart(row: seq<byte>, all: seq<seq<byte>>, ks: seq<seq<byte>>) {
    && ks <= all && (forall k :: k in ks ==> WellFormed(k) && RowOf(k) == row)
    && (|ks| < |all| ==> WellFormed(all[|ks|]) && RowOf(all[|ks|]) != row)
  }

  /** Rows whose keys are contiguous. */
  predicate Plain(row: seq<byte>) {
    row != [] && FFFree(row)
  }

  ghost predicate FFFreeStore(keys: set<seq<byte>>) {
    forall k :: k in keys ==> WellFormed(k) && FFFree(RowOf(k))
  }

  lemma NewestFirst<V(!new)>(db: SimpleDB<V>, row: seq<byte>, min: int, max: int, out: seq<Entry<V>>)
    requires RowFilter(db, row, min, max, out)
    ensures out == [] ==> forall t :: min <= t <= max ==> db.Lookup(row, t).None?
    ensures out != [] ==> out[0] in out && forall t :: out[0].timestamp < t <= max ==> db.Lookup(row, t).None?
  {
    forall t | min <= t <= max && db.Lookup(row, t).Some?
      ensures out != [] && t <= out[0].timestamp
    {
      assert Entry(row, t, db.Lookup(row, t).value) in out;
    }
  }

  ghost function Flatten<T>(parts: seq<seq<T>>): seq<T> {
    if parts == [] then [] else Flatten(parts[..|parts| - 1]) + parts[|parts| - 1]
  }

  /** The row part of a scan holds the row's keys between the bounds, all of them. */
  lemma RowPartKeys(keys: set<seq<byte>>, row: seq<byte>, min: int, max: int, all: seq<seq<byte>>,
                    ks: seq<seq<byte>>, k: seq<byte>)
    requires FFFreeStore(keys) && FFFree(row) && Packable(max)
    requires IsScan(keys, EntryKey(row, max), min, all) && IsRowPart(row, all, ks)
    ensures k in ks <==> k in keys && RowOf(k) == row && min <= TimeOf(k) <= max
  {
    if k in keys && RowOf(k) == row {
      KeyRoundTrip(row, max, k);
      SameRow(row, max, TimeOf(k));
      SameRow(row, TimeOf(k), max);
      if min <= TimeOf(k) <= max {
        forall x | x in keys && !Less(x, EntryKey(row, max)) && !Less(k, x)
          ensures RowOf(x) == row && TimeOf(x) >= min
        {
          Contiguous(row, max, TimeOf(k), x);
          KeyRoundTrip(row, max, x);
          SameRow(row, TimeOf(k), TimeOf(x));
        }
        assert Scanned(keys, EntryKey(row, max), min, k);
        var i :| 0 <= i < |all| && all[i] == k;
        if i >= |ks| {
          var x := all[|ks|];
          assert x in all;
          if i > |ks| { LessAsym(x, k); } else { LessIrreflexive(k); }
          assert false;
        }
        assert ks[i] == k;
      }
    }
    if k in ks {
      var i :| 0 <= i < |ks| && ks[i] == k;
      assert all[i] == k && k in all;
      LessIrreflexive(k);
    }
  }

  /** So for a 0xFF-free store and row a row scan agrees with a filter. */
  lemma RowPartIsFilter<V(!new)>(db: SimpleDB<V>, row: seq<byte>, min: int, max: int,
                           all: seq<seq<byte>>, ks: seq<seq<byte>>, out: seq<Entry<V>>)
    requires db.Valid() && FFFreeStore(db.data.Keys) && Plain(row) && Packable(max)
    requires IsScan(db.data.Keys, EntryKey(row, max), min, all) && IsRowPart(row, all, ks) && Yields(db.data, ks, out)
    ensures RowFilter(db, row, min, max, out)
  {
    forall i | 0 <= i < |out|
      ensures Packable(out[i].timestamp) && ks[i] == EntryKey(row, out[i].timestamp) && out[i].row == row
      ensures min <= out[i].timestamp <= max && db.Lookup(row, out[i].timestamp) == Some(out[i].value)
    {
      assert ks[i] in ks;
      RowPartKeys(db.data.Keys, row, min, max, all, ks, ks[i]);
      KeyRoundTrip(row, max, ks[i]);
    }
    forall i, j | 0 <= i < j < |out|
      ensures out[i].timestamp > out[j].timestamp
    {
      assert all[i] == ks[i] && all[j] == ks[j];
      SameRow(row, out[i].timestamp, out[j].timestamp);
    }
    forall e: Entry<V> | e.row == row && min <= e.timestamp <= max && db.Lookup(row, e.timestamp) == Some(e.value)
      ensures e in out
    {
      var k := EntryKey(row, e.timestamp);
      KeyRoundTrip(row, e.timestamp, k);
      RowPartKeys(db.data.Keys, row, min, max, all, ks, k);
      var i :| 0 <= i < |ks| && ks[i] == k;
      assert out[i] == e;
    }
  }

  /** out is exactly what the store holds for the row between the bounds, newest first. */
  ghost predicate RowFilter<V(!new)>(db: SimpleDB<V>, row: seq<byte>, min: int, max: int, out: seq<Entry<V>>)
    reads db
  {
    && (forall i, j :: 0 <= i < j < |out| ==> out[i].timestamp > out[j].timestamp)
    && (forall e :: e in out <==>
          e.row == row && min <= e.timestamp <= max && db.Lookup(row, e.timestamp) == Some(e.value))
  }
}
