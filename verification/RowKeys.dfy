/** The key encoding of stats/storageutils/simpledb.py: the row's bytes, 0xFF, and the inverted
    timestamp as eight big-endian bytes; and the byte-wise order of the B-tree on such keys. */
module RowKeys {

  type byte = b: int | 0 <= b < 256

  const TIMESTAMP_MAX: int := 0x8000_0000_0000_0000
  const WORD: int := 0x1_0000_0000_0000_0000

  // ---------- Big-endian numbers ----------

  ghost function Pow256(k: nat): nat {
    if k == 0 then 1 else 256 * Pow256(k - 1)
  }

  function ToBytes(num: nat, k: nat): (s: seq<byte>)
    ensures |s| == k
  {
    if k == 0 then [] else ToBytes(num / 256, k - 1) + [num % 256]
  }

  function FromBytes(s: seq<byte>): nat {
    if s == [] then 0 else 256 * FromBytes(s[..|s| - 1]) + s[|s| - 1]
  }

  function To64(num: nat): seq<byte>
    requires num < WORD
  {
    ToBytes(num, 8)
  }

  function From64(data: seq<byte>): nat
    requires |data| == 8
  {
    FromBytes(data)
  }

  lemma {:induction false} FromTo(num: nat, k: nat)
    requires num < Pow256(k)
    ensures FromBytes(ToBytes(num, k)) == num
  {
    if k > 0 {
      FromTo(num / 256, k - 1);
      assert ToBytes(num, k)[..k - 1] == ToBytes(num / 256, k - 1);
    }
  }

  lemma {:induction false} ToFrom(s: seq<byte>)
    ensures FromBytes(s) < Pow256(|s|) && ToBytes(FromBytes(s), |s|) == s
  {
    if s != [] { ToFrom(s[..|s| - 1]); }
  }

  lemma RoundTrip64(num: nat, data: seq<byte>)
    requires num < WORD && |data| == 8
    ensures From64(To64(num)) == num
    ensures From64(data) < WORD && To64(From64(data)) == data
  {
    FromTo(num, 8);
    ToFrom(data);
  }

  // ---------- The byte-wise order ----------

  /** Strict lexicographic order, a proper prefix being smaller. */
  predicate Less(a: seq<byte>, b: seq<byte>) {
    b != [] && (a == [] || a[0] < b[0] || (a[0] == b[0] && Less(a[1..], b[1..])))
  }

  lemma {:induction false} LessIrreflexive(a: seq<byte>)
    ensures !Less(a, a)
  {
    if a != [] { LessIrreflexive(a[1..]); }
  }

  lemma {:induction false} LessTrans(a: seq<byte>, b: seq<byte>, c: seq<byte>)
    requires Less(a, b) && Less(b, c)
    ensures Less(a, c)
  {
    if a != [] && a[0] == b[0] == c[0] { LessTrans(a[1..], b[1..], c[1..]); }
  }

  lemma {:induction false} LessTotal(a: seq<byte>, b: seq<byte>)
    ensures Less(a, b) || a == b || Less(b, a)
  {
    if a != [] && b != [] && a[0] == b[0] {
      LessTotal(a[1..], b[1..]);
      if a[1..] == b[1..] { assert a == [a[0]] + a[1..] && b == [b[0]] + b[1..]; }
    }
  }

  lemma LessAsym(a: seq<byte>, b: seq<byte>)
    requires Less(a, b)
    ensures !Less(b, a) && a != b
  {
    LessIrreflexive(a);
    if Less(b, a) { LessTrans(a, b, a); }
  }

  lemma AtMostTrans(a: seq<byte>, b: seq<byte>, c: seq<byte>)
    requires !Less(b, a) && !Less(c, b)
    ensures !Less(c, a)
  {
    LessTotal(a, b);
    LessTotal(b, c);
    if Less(a, b) && Less(b, c) {
      LessTrans(a, b, c);
      LessAsym(a, c);
    }
  }

  lemma {:induction false} LessPrefixed(p: seq<byte>, a: seq<byte>, b: seq<byte>)
    ensures Less(p + a, p + b) <==> Less(a, b)
  {
    if p == [] {
      assert p + a == a && p + b == b;
    } else {
      assert (p + a)[1..] == p[1..] + a && (p + b)[1..] == p[1..] + b;
      LessPrefixed(p[1..], a, b);
    }
  }

  lemma {:induction false} LessAppended(a: seq<byte>, x: byte, b: seq<byte>, y: byte)
    requires |a| == |b|
    ensures Less(a + [x], b + [y]) <==> Less(a, b) || (a == b && x < y)
  {
    if a == [] {
      assert a + [x] == [x] && b + [y] == [y];
    } else {
      assert (a + [x])[1..] == a[1..] + [x] && (b + [y])[1..] == b[1..] + [y];
      LessAppended(a[1..], x, b[1..], y);
      if a[0] == b[0] { assert a[1..] == b[1..] ==> a == b; }
    }
  }

  /** Big-endian encodings of one length are ordered as their numbers. */
  lemma {:induction false} LessIsLess(m: nat, n: nat, k: nat)
    requires m < Pow256(k) && n < Pow256(k)
    ensures Less(ToBytes(m, k), ToBytes(n, k)) <==> m < n
  {
    if k > 0 {
      LessAppended(ToBytes(m / 256, k - 1), m % 256, ToBytes(n / 256, k - 1), n % 256);
      LessIsLess(m / 256, n / 256, k - 1);
      if ToBytes(m / 256, k - 1) == ToBytes(n / 256, k - 1) {
        FromTo(m / 256, k - 1);
        FromTo(n / 256, k - 1);
      }
    }
  }

  // ---------- Keys ----------

  predicate FFFree(row: seq<byte>) {
    forall i :: 0 <= i < |row| ==> row[i] != 255
  }

  /** A timestamp whose inversion fits the 64 bits of the key. */
  predicate Packable(timestamp: int) {
    0 <= TIMESTAMP_MAX - timestamp < WORD
  }

  function RowAndTimestampToKey(row: seq<byte>, timestamp: nat): seq<byte>
    requires timestamp < WORD
  {
    row + [255] + To64(timestamp)
  }

  predicate WellFormed(key: seq<byte>) {
    |key| >= 9 && key[|key| - 9] == 255
  }

  function KeyToRowAndTimestamp(key: seq<byte>): (seq<byte>, nat)
    requires |key| >= 9
  {
    (key[..|key| - 9], From64(key[|key| - 8..]))
  }

  /** The key of an entry, its timestamp inverted. */
  function EntryKey(row: seq<byte>, timestamp: int): seq<byte>
    requires Packable(timestamp)
  {
    RowAndTimestampToKey(row, TIMESTAMP_MAX - timestamp)
  }

  function RowOf(key: seq<byte>): seq<byte>
    requires WellFormed(key)
  {
    KeyToRowAndTimestamp(key).0
  }

  function TimeOf(key: seq<byte>): int
    requires WellFormed(key)
  {
    TIMESTAMP_MAX - KeyToRowAndTimestamp(key).1
  }

  /** Encoding and decoding keys are inverse to each other. */
  lemma KeyRoundTrip(row: seq<byte>, timestamp: int, key: seq<byte>)
    requires Packable(timestamp) && WellFormed(key)
    ensures WellFormed(EntryKey(row, timestamp))
    ensures RowOf(EntryKey(row, timestamp)) == row && TimeOf(EntryKey(row, timestamp)) == timestamp
    ensures Packable(TimeOf(key)) && EntryKey(RowOf(key), TimeOf(key)) == key
  {
    var inverted := TIMESTAMP_MAX - timestamp;
    var k := EntryKey(row, timestamp);
    assert k[|k| - 8..] == To64(inverted) && k[..|k| - 9] == row;
    RoundTrip64(inverted, key[|key| - 8..]);
    assert key == key[..|key| - 9] + [255] + key[|key| - 8..];
  }

  /** The bytes of a key: the row, 0xFF, and eight bytes that in base 256 read 2^63 less the timestamp; the
      timestamps that have a key are those above -2^63 and up to 2^63. */
  lemma KeyBytes(row: seq<byte>, timestamp: int)
    ensures Packable(timestamp) <==> -0x8000_0000_0000_0000 < timestamp <= 0x8000_0000_0000_0000
    ensures Packable(timestamp) ==>
      var key: seq<int>, n := EntryKey(row, timestamp), |row|;
      && |key| == n + 9 && key[..n] == row && key[n] == 0xFF
      && 0x8000_0000_0000_0000 - timestamp ==
         key[n + 1] * 0x100_0000_0000_0000 + key[n + 2] * 0x1_0000_0000_0000 + key[n + 3] * 0x100_0000_0000
         + key[n + 4] * 0x1_0000_0000 + key[n + 5] * 0x100_0000 + key[n + 6] * 0x1_0000 + key[n + 7] * 0x100
         + key[n + 8]
  {
    if Packable(timestamp) {
      var data := To64(TIMESTAMP_MAX - timestamp);
      assert forall i :: 0 <= i < 8 ==> EntryKey(row, timestamp)[|row| + 1 + i] == data[i];
      RoundTrip64(TIMESTAMP_MAX - timestamp, data);
      EightBytes(data);
    }
  }

  lemma EightBytes(d: seq<byte>)
    requires |d| == 8
    ensures var b: seq<int> := d;
      From64(d) ==
      b[0] * 0x100_0000_0000_0000 + b[1] * 0x1_0000_0000_0000 + b[2] * 0x100_0000_0000 + b[3] * 0x1_0000_0000
      + b[4] * 0x100_0000 + b[5] * 0x1_0000 + b[6] * 0x100 + b[7]
  {
    assert FromBytes(d[..1]) == d[0];
    assert d[..2][..1] == d[..1];
    assert FromBytes(d[..2]) == 256 * FromBytes(d[..1]) + d[1];
    assert d[..3][..2] == d[..2] && d[..4][..3] == d[..3] && d[..5][..4] == d[..4];
    assert FromBytes(d[..4]) == 256 * (256 * FromBytes(d[..2]) + d[2]) + d[3];
    assert d[..6][..5] == d[..5] && d[..7][..6] == d[..6] && d[..8] == d;
    assert FromBytes(d[..6]) == 256 * (256 * FromBytes(d[..4]) + d[4]) + d[5];
    assert FromBytes(d) == 256 * (256 * FromBytes(d[..6]) + d[6]) + d[7];
  }

  /** Terminated row names that differ are ordered before either ends. */
  lemma {:induction false} RowsDecide(p: seq<byte>, q: seq<byte>, s: seq<byte>, t: seq<byte>)
    requires FFFree(p) && FFFree(q) && p != q
    ensures Less(p + [255] + s, q + [255] + t) <==> Less(p + [255], q + [255])
  {
    var a, b := p + [255], q + [255];
    assert (a + s)[0] == a[0] && (b + t)[0] == b[0];
    if p != [] && q != [] && p[0] == q[0] {
      assert p == [p[0]] + p[1..] && q == [q[0]] + q[1..];
      assert (a + s)[1..] == p[1..] + [255] + s && (b + t)[1..] == q[1..] + [255] + t;
      assert a[1..] == p[1..] + [255] && b[1..] == q[1..] + [255];
      RowsDecide(p[1..], q[1..], s, t);
    }
  }

  /** Distinct 0xFF-free rows: their terminated names alone decide the order of any keys. */
  lemma DistinctRows(p: seq<byte>, m: int, q: seq<byte>, n: int)
    requires FFFree(p) && FFFree(q) && p != q && Packable(m) && Packable(n)
    ensures Less(EntryKey(p, m), EntryKey(q, n)) <==> Less(p + [255], q + [255])
  {
    RowsDecide(p, q, To64(TIMESTAMP_MAX - m), To64(TIMESTAMP_MAX - n));
  }

  /** One row: newer entries come first. */
  lemma SameRow(row: seq<byte>, m: int, n: int)
    requires Packable(m) && Packable(n)
    ensures Less(EntryKey(row, m), EntryKey(row, n)) <==> m > n
  {
    LessPrefixed(row + [255], To64(TIMESTAMP_MAX - m), To64(TIMESTAMP_MAX - n));
    LessIsLess(TIMESTAMP_MAX - m, TIMESTAMP_MAX - n, 8);
  }

  /** So the keys of one row are contiguous: nothing of another row lies between two of them. */
  lemma Contiguous(row: seq<byte>, m: int, n: int, key: seq<byte>)
    requires FFFree(row) && Packable(m) && Packable(n)
    requires WellFormed(key) && FFFree(RowOf(key))
    requires !Less(key, EntryKey(row, m)) && !Less(EntryKey(row, n), key)
    ensures RowOf(key) == row
  {
    KeyRoundTrip(row, m, key);
    var other, t := RowOf(key), TimeOf(key);
    if other != row {
      assert (other + [255])[..|other|] == other && (row + [255])[..|row|] == row;
      LessTotal(other + [255], row + [255]);
      DistinctRows(other, t, row, m);
      DistinctRows(row, n, other, t);
    }
  }
}
