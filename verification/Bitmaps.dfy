/** The packed bit sets both spanning-tree programs use: eight vertices to a byte. */
module Bitmaps {

  datatype Byte = Byte(bits: bv8)

  /** 1 << k */
  function Mask(k: nat): Byte
    requires k < 8
  {
    Byte(if k == 0 then 0x01 else if k == 1 then 0x02 else if k == 2 then 0x04 else if k == 3 then 0x08
         else if k == 4 then 0x10 else if k == 5 then 0x20 else if k == 6 then 0x40 else 0x80)
  }

  function Or(a: Byte, b: Byte): Byte {
    Byte(a.bits | b.bits)
  }

  predicate Has(b: Byte, k: nat)
    requires k < 8
  {
    b.bits & Mask(k).bits != 0
  }

  predicate Bit(bytes: seq<Byte>, i: nat)
    requires i / 8 < |bytes|
  {
    Has(bytes[i / 8], i % 8)
  }

  lemma InMap(i: nat, n: nat)
    requires i <= n
    ensures i / 8 < n / 8 + 1
  {
  }

  /** The set a bitmap stands for. Its elements are tied to bits only where a bit is mentioned. */
  ghost function Members(bytes: seq<Byte>): (s: set<nat>)
    ensures forall i: nat {:trigger Bit(bytes, i)} :: i / 8 < |bytes| ==> (i in s <==> Bit(bytes, i))
    ensures forall i :: i in s ==> i < 8 * |bytes|
  {
    MembersBelow(bytes, 8 * |bytes|)
  }

  ghost function MembersBelow(bytes: seq<Byte>, n: nat): (s: set<nat>)
    requires n <= 8 * |bytes|
    ensures forall i: nat {:trigger Bit(bytes, i)} :: i < n ==> (i in s <==> Bit(bytes, i))
    ensures forall i :: i in s ==> i < n
  {
    if n == 0 then {} else MembersBelow(bytes, n - 1) + if Bit(bytes, n - 1) then {n - 1} else {}
  }

  lemma IsMember(bytes: seq<Byte>, i: nat)
    ensures i in Members(bytes) <==> i / 8 < |bytes| && Bit(bytes, i)
  {
    if i / 8 < |bytes| { assert i in Members(bytes) <==> Bit(bytes, i); }
  }

  lemma SetMember(was: seq<Byte>, now: seq<Byte>, i: nat)
    requires i / 8 < |was|
    requires now == was[i / 8 := Or(was[i / 8], Mask(i % 8))]
    ensures Members(now) == Members(was) + {i}
  {
    forall j: nat ensures j in Members(now) <==> j in Members(was) || j == i {
      var b, k, m := was[i / 8], i % 8, j % 8;
      IsMember(was, j);
      IsMember(now, j);
      if j / 8 == i / 8 {
        assert j in Members(now) <==> Has(Or(b, Mask(k)), m);
        assert j == i <==> m == k;
      } else if j / 8 < |was| {
        assert now[j / 8] == was[j / 8];
      }
    }
  }

  lemma UnitedMembers(x: seq<Byte>, y: seq<Byte>, now: seq<Byte>)
    requires |x| == |y| == |now|
    requires forall i :: 0 <= i < |x| ==> now[i] == Or(x[i], y[i])
    ensures Members(now) == Members(x) + Members(y)
  {
    forall i: nat ensures i in Members(now) <==> i in Members(x) || i in Members(y) {
      IsMember(x, i);
      IsMember(y, i);
      IsMember(now, i);
    }
  }

  method NewBitmap(len: nat) returns (bytes: array<Byte>)
    ensures fresh(bytes) && bytes.Length == len && Members(bytes[..]) == {}
  {
    bytes := new Byte[len](_ => Byte(0));
    forall i ensures i !in Members(bytes[..]) { IsMember(bytes[..], i); }
  }

  method GetBit(bytes: array<Byte>, i: nat) returns (b: bool)
    requires i / 8 < bytes.Length
    ensures b <==> i in Members(bytes[..])
  {
    b := Has(bytes[i / 8], i % 8);
    IsMember(bytes[..], i);
  }

  method SetBit(bytes: array<Byte>, i: nat)
    requires i / 8 < bytes.Length
    modifies bytes
    ensures Members(bytes[..]) == old(Members(bytes[..])) + {i}
  {
    ghost var was := bytes[..];
    bytes[i / 8] := Or(bytes[i / 8], Mask(i % 8));
    SetMember(was, bytes[..], i);
  }

  /** y[j] = x[j] |= y[j] over all bytes: both maps become the union. */
  method Unite(x: array<Byte>, y: array<Byte>)
    requires x.Length == y.Length && x != y
    modifies x, y
    ensures Members(x[..]) == Members(y[..]) == old(Members(x[..])) + old(Members(y[..]))
  {
    ghost var xs, ys := x[..], y[..];
    for j := 0 to x.Length
      invariant forall i :: 0 <= i < j ==> x[i] == y[i] == Or(xs[i], ys[i])
      invariant forall i :: j <= i < x.Length ==> x[i] == xs[i] && y[i] == ys[i]
    {
      x[j] := Or(x[j], y[j]);
      y[j] := x[j];
    }
    assert x[..] == y[..];
    UnitedMembers(xs, ys, x[..]);
  }
}
