/** The byte framing of moused's r_protocol: a header byte starts a packet, data bytes complete it,
    and the mice of the Microsoft family may add one more byte. */
module PacketAssembler {

  datatype Option<T> = None | Some(value: T)

  /** A row of the proto table. */
  datatype Proto = Proto(hdMask: bv8, hdId: bv8, dpMask: bv8, dpId: bv8, bytes: nat, b4Mask: bv8, b4Id: bv8)

  const MICROSOFT: Proto := Proto(0x40, 0x40, 0x40, 0x00, 3, 0xdc, 0x00)
  const MOUSEMAN: Proto := Proto(0x40, 0x40, 0x40, 0x00, 3, 0xcc, 0x00)
  const INTELLI: Proto := Proto(0x40, 0x40, 0x40, 0x00, 3, 0xc0, 0x00)

  /** The mice of the Microsoft family; GlidePoint and ThinkingMouse share MouseMan's row, X10 MouseRemote
      shares Microsoft's. */
  datatype Mouse = Microsoft | MouseMan | IntelliMouse

  function Row(mouse: Mouse): Proto {
    match mouse
    case Microsoft => MICROSOFT
    case MouseMan => MOUSEMAN
    case IntelliMouse => INTELLI
  }

  /** What a byte completes: nothing, a packet, or the extra byte after a packet. */
  datatype Event<B> = Nothing | Packet(bytes: seq<B>) | Extra(byte: B)

  /** What a protocol row says about a byte: may it start a packet, may it continue one, may it be
      the extra byte; and how long packets are. */
  datatype Framing<!B> = Framing(header: B -> bool, data: B -> bool, fourth: B -> bool, bytes: nat)

  predicate IsHeader(p: Proto, b: bv8) { b & p.hdMask == p.hdId }

  predicate IsData(p: Proto, b: bv8) { b & p.dpMask == p.dpId && b != 0x80 }

  predicate IsFourth(p: Proto, b: bv8) { b & p.b4Mask == p.b4Id }

  function FramingOf(p: Proto): Framing<bv8> {
    Framing((b: bv8) => IsHeader(p, b), (b: bv8) => IsData(p, b), (b: bv8) => IsFourth(p, b), p.bytes)
  }

  /** The bytes held and the event after byte b: a byte that cannot continue what is held must start
      a packet or is dropped. */
  function Assemble<B>(p: Framing<B>, held: seq<B>, b: B): (seq<B>, Event<B>) {
    var kept := if p.data(b) then held else [];
    if p.header(b) then
      var now := if kept == [] || |kept| >= p.bytes then [b] else kept + [b];
      (now, if |now| == p.bytes then Packet(now) else Nothing)
    else if kept == [] then ([], Nothing)
    else if |kept| >= p.bytes then ([], if p.fourth(b) then Extra(b) else Nothing)
    else (kept + [b], if |kept| + 1 == p.bytes then Packet(kept + [b]) else Nothing)
  }

  class Assembler {
    const proto: Proto
    const pBuf: array<bv8>
    var pBufP: nat

    ghost predicate Valid()
      reads this
    {
      1 <= proto.bytes <= pBuf.Length == 8 && pBufP <= proto.bytes
    }

    ghost function Held(): seq<bv8>
      requires Valid()
      reads this, pBuf
    {
      pBuf[..pBufP]
    }

    constructor (p: Proto)
      requires 1 <= p.bytes <= 8
      ensures Valid() && proto == p && Held() == [] && fresh(pBuf)
    {
      proto := p;
      pBuf := new bv8[8](_ => 0);
      pBufP := 0;
    }

    /** One call of r_protocol. */
    method Receive(b: bv8) returns (event: Event<bv8>)
      requires Valid()
      modifies this, pBuf
      ensures Valid()
      ensures Held() == Assemble(FramingOf(proto), old(Held()), b).0
      ensures event == Assemble(FramingOf(proto), old(Held()), b).1
    {
      ghost var f := FramingOf(proto);
      assert f.header(b) == IsHeader(proto, b) && f.data(b) == IsData(proto, b) && f.fourth(b) == IsFourth(proto, b);
      if pBufP != 0 && !IsData(proto, b) {
        pBufP := 0;
      }
      if pBufP == 0 && !IsHeader(proto, b) {
        return Nothing;
      }
      if pBufP >= proto.bytes && !IsHeader(proto, b) {
        pBufP := 0;
        return if IsFourth(proto, b) then Extra(b) else Nothing;
      }
      if pBufP >= proto.bytes {
        pBufP := 0;
      }
      ghost var kept := Held();
      pBuf[pBufP] := b;
      pBufP := pBufP + 1;
      assert Held() == kept + [b] && (kept == [] ==> Held() == [b]);
      if pBufP != proto.bytes {
        return Nothing;
      }
      return Packet(pBuf[..proto.bytes]);
    }
  }

  // ---------- Streams ----------

  /** What is held after a stream of bytes. */
  function After<B>(p: Framing<B>, held: seq<B>, s: seq<B>): seq<B> {
    if s == [] then held else Assemble(p, After(p, held, s[..|s| - 1]), s[|s| - 1]).0
  }

  /** The event that byte k of a stream causes. */
  function EventAt<B>(p: Framing<B>, held: seq<B>, s: seq<B>, k: nat): Event<B>
    requires k < |s|
  {
    Assemble(p, After(p, held, s[..k]), s[k]).1
  }

  /** Framings in which no byte is both header and data, with packets of three. */
  ghost predicate Synchronising<B(!new)>(p: Framing<B>) {
    p.bytes == 3 && forall b :: !(p.header(b) && p.data(b))
  }

  /** The bytes by value: a header has bit 0x40, data has not, 0x80 is neither. */
  predicate SendsHeader(b: bv8) { 0x40 <= b <= 0x7f || 0xc0 <= b }

  predicate SendsData(b: bv8) { b <= 0x3f || 0x81 <= b <= 0xbf }

  /** The fourth byte carries buttons in bit 0x20 and bits 0 and 1, on MouseMan also in bit 0x10, and wheel
      movement on IntelliMouse. */
  predicate SendsFourth(mouse: Mouse, b: bv8) {
    match mouse
    case Microsoft => b <= 0x03 || 0x20 <= b <= 0x23
    case MouseMan => b <= 0x03 || 0x10 <= b <= 0x13 || 0x20 <= b <= 0x23 || 0x30 <= b <= 0x33
    case IntelliMouse => b <= 0x3f
  }

  /** The rows of the table say just that. */
  lemma RowBytes(mouse: Mouse, b: bv8)
    ensures FramingOf(Row(mouse)).header(b) <==> SendsHeader(b)
    ensures FramingOf(Row(mouse)).data(b) <==> SendsData(b)
    ensures FramingOf(Row(mouse)).fourth(b) <==> SendsFourth(mouse, b)
  {
    RowMasks(mouse, b);
  }

  lemma RowMasks(mouse: Mouse, b: bv8)
    ensures IsHeader(Row(mouse), b) <==> SendsHeader(b)
    ensures IsData(Row(mouse), b) <==> SendsData(b)
    ensures IsFourth(Row(mouse), b) <==> SendsFourth(mouse, b)
  {
  }

  /** So headers and data are told apart and packets have three bytes. */
  lemma FamilySynchronises(mouse: Mouse)
    ensures Synchronising(FramingOf(Row(mouse)))
    ensures forall b: bv8 :: SendsHeader(b) || SendsData(b) <==> b != 0x80
  {
    forall b: bv8 ensures !(FramingOf(Row(mouse)).header(b) && FramingOf(Row(mouse)).data(b)) {
      RowBytes(mouse, b);
    }
  }

  /** One byte in a synchronising framing. */
  lemma StepIs<B(!new)>(p: Framing<B>, held: seq<B>, b: B)
    requires Synchronising(p) && |held| <= 3
    ensures p.header(b) ==> Assemble(p, held, b) == ([b], Nothing)
    ensures !p.header(b) && !p.data(b) ==> Assemble(p, held, b) == ([], Nothing)
    ensures p.data(b) && held == [] ==> Assemble(p, held, b) == ([], Nothing)
    ensures p.data(b) && 1 <= |held| <= 2 ==>
      Assemble(p, held, b) == (held + [b], if |held| == 2 then Packet(held + [b]) else Nothing)
    ensures p.data(b) && |held| == 3 ==> Assemble(p, held, b) == ([], if p.fourth(b) then Extra(b) else Nothing)
  {
  }

  predicate PacketEndsAt<B>(p: Framing<B>, s: seq<B>, k: nat)
    requires k < |s|
  {
    k >= 2 && p.header(s[k - 2]) && p.data(s[k - 1]) && p.data(s[k])
  }

  predicate ExtraAt<B>(p: Framing<B>, s: seq<B>, k: nat)
    requires k < |s|
  {
    k >= 3 && PacketEndsAt(p, s, k - 1) && p.data(s[k]) && p.fourth(s[k])
  }

  /** The bytes held after j bytes are either a packet begun among them, with its last bytes, or
      still those held at the start with only data after them. */
  ghost predicate Holds<B>(p: Framing<B>, held: seq<B>, s: seq<B>, j: nat, now: seq<B>)
    requires j <= |s|
  {
    || (|now| <= j && now == s[j - |now|..j] && Begun(p, now))
    || (now == held + s[..j])
  }

  predicate Begun<B>(p: Framing<B>, now: seq<B>) {
    |now| <= 3 && (now != [] ==> p.header(now[0])) && forall i :: 1 <= i < |now| ==> p.data(now[i])
  }

  lemma HoldsStep<B(!new)>(p: Framing<B>, held: seq<B>, s: seq<B>, j: nat, now: seq<B>)
    requires Synchronising(p) && j < |s| && |now| <= 3 && Holds(p, held, s, j, now)
    ensures |Assemble(p, now, s[j]).0| <= 3 && Holds(p, held, s, j + 1, Assemble(p, now, s[j]).0)
  {
    var b := s[j];
    StepIs(p, now, b);
    assert s[..j + 1] == s[..j] + [b];
    if p.header(b) {
      assert s[j + 1 - 1..j + 1] == [b];
    } else if p.data(b) && now != [] && |now| < 3 {
      if |now| <= j && now == s[j - |now|..j] { assert s[j - |now|..j + 1] == now + [b]; }
      if now == held + s[..j] { assert held + s[..j + 1] == now + [b]; }
    } else {
      assert s[j + 1..j + 1] == [];
    }
  }

  lemma {:induction false} HeldBytes<B(!new)>(p: Framing<B>, held: seq<B>, s: seq<B>, j: nat)
    requires Synchronising(p) && |held| <= 3 && j <= |s|
    ensures |After(p, held, s[..j])| <= 3 && Holds(p, held, s, j, After(p, held, s[..j]))
  {
    if j == 0 {
      assert s[..0] == [];
    } else {
      HeldBytes(p, held, s, j - 1);
      HoldsStep(p, held, s, j - 1, After(p, held, s[..j - 1]));
      AfterStep(p, held, s, j - 1);
    }
  }

  lemma AfterStep<B>(p: Framing<B>, held: seq<B>, s: seq<B>, k: nat)
    requires k < |s|
    ensures After(p, held, s[..k + 1]) == Assemble(p, After(p, held, s[..k]), s[k]).0
  {
    assert s[..k + 1][..k] == s[..k];
  }

  /** A header starts a packet whatever was held; data bytes then complete it. */
  lemma HeaderHeld<B(!new)>(p: Framing<B>, held: seq<B>, s: seq<B>, k: nat)
    requires Synchronising(p) && |held| <= 3 && k < |s| && p.header(s[k])
    ensures After(p, held, s[..k + 1]) == [s[k]]
  {
    HeldBytes(p, held, s, k);
    AfterStep(p, held, s, k);
    StepIs(p, After(p, held, s[..k]), s[k]);
  }

  lemma FirstHeld<B(!new)>(p: Framing<B>, held: seq<B>, s: seq<B>, k: nat)
    requires Synchronising(p) && |held| <= 3 && k + 1 < |s| && p.header(s[k]) && p.data(s[k + 1])
    ensures After(p, held, s[..k + 2]) == [s[k], s[k + 1]]
  {
    HeaderHeld(p, held, s, k);
    AfterStep(p, held, s, k + 1);
    StepIs(p, [s[k]], s[k + 1]);
  }

  lemma PacketHeld<B(!new)>(p: Framing<B>, held: seq<B>, s: seq<B>, k: nat)
    requires Synchronising(p) && |held| <= 3 && k + 2 < |s|
    requires p.header(s[k]) && p.data(s[k + 1]) && p.data(s[k + 2])
    ensures After(p, held, s[..k + 3]) == [s[k], s[k + 1], s[k + 2]]
  {
    FirstHeld(p, held, s, k);
    AfterStep(p, held, s, k + 2);
    StepIs(p, [s[k], s[k + 1]], s[k + 2]);
  }

  /** After three bytes nothing held at the start is left. */
  lemma InitialGone<B(!new)>(p: Framing<B>, held: seq<B>, s: seq<B>, k: nat)
    requires Synchronising(p) && |held| <= 3 && 3 <= k <= |s|
    ensures var now := After(p, held, s[..k]); |now| <= 3 && now == s[k - |now|..k] && Begun(p, now)
  {
    HeldBytes(p, held, s, k);
    var now := After(p, held, s[..k]);
    if now == held + s[..k] {
      assert |now| == |held| + k;
      assert held == [] && k == 3 && now == s[..3];
      FirstThree(p, s);
      assert s[0..3] == s[..3];
    }
  }

  /** Three bytes all held from an empty buffer on are a packet begun. */
  lemma FirstThree<B(!new)>(p: Framing<B>, s: seq<B>)
    requires Synchronising(p) && |s| >= 3 && After(p, [], s[..3]) == s[..3]
    ensures Begun(p, s[..3])
  {
    assert s[..0] == [];
    Grows(p, [], s, 0);
    Grows(p, [], s, 1);
    Grows(p, [], s, 2);
  }

  /** What is held grows by at most a byte: a header on nothing, or data on something. */
  lemma Grows<B(!new)>(p: Framing<B>, held: seq<B>, s: seq<B>, j: nat)
    requires Synchronising(p) && |held| <= 3 && j < |s|
    ensures var a, b := After(p, held, s[..j]), After(p, held, s[..j + 1]);
      |b| <= |a| + 1 && (|b| == |a| + 1 ==> if a == [] then p.header(s[j]) else p.data(s[j]))
  {
    HeldBytes(p, held, s, j);
    AfterStep(p, held, s, j);
    StepIs(p, After(p, held, s[..j]), s[j]);
  }

  /** Self-synchronisation: from the fourth byte of any stream on, whatever was held at first, a
      packet is reported exactly where header, data, data end, and an extra byte exactly where a
      valid one follows such a packet. */
  lemma EventsAreLocal<B(!new)>(p: Framing<B>, held: seq<B>, s: seq<B>, k: nat)
    requires Synchronising(p) && |held| <= 3 && 3 <= k < |s|
    ensures EventAt(p, held, s, k) ==
      if PacketEndsAt(p, s, k) then Packet(s[k - 2..k + 1])
      else if ExtraAt(p, s, k) then Extra(s[k])
      else Nothing
  {
    var now := After(p, held, s[..k]);
    InitialGone(p, held, s, k);
    StepIs(p, now, s[k]);
    if p.data(s[k]) {
      if |now| == 2 {
        assert now[0] == s[k - 2] && now[1] == s[k - 1];
        assert now + [s[k]] == s[k - 2..k + 1];
      } else if p.header(s[k - 2]) && p.data(s[k - 1]) {
        FirstHeld(p, held, s, k - 2);
        assert false;
      }
      if |now| == 3 {
        assert now[0] == s[k - 3] && now[1] == s[k - 2] && now[2] == s[k - 1];
      } else if PacketEndsAt(p, s, k - 1) {
        PacketHeld(p, held, s, k - 3);
        assert false;
      }
    }
  }

  // ---------- Well-formed streams ----------

  /** What a mouse sends: a packet and perhaps an extra byte. */
  datatype Unit<B> = Unit(header: B, first: B, second: B, extra: Option<B>)

  predicate WellFormed<B>(p: Framing<B>, u: Unit<B>) {
    && p.header(u.header) && p.data(u.first) && p.data(u.second)
    && (u.extra.Some? ==> p.data(u.extra.value) && p.fourth(u.extra.value))
  }

  function Wire<B>(units: seq<Unit<B>>): seq<B> {
    if units == [] then []
    else var u := units[0];
      [u.header, u.first, u.second] + (if u.extra.Some? then [u.extra.value] else []) + Wire(units[1..])
  }

  function Reported<B>(units: seq<Unit<B>>): seq<Event<B>> {
    if units == [] then []
    else var u := units[0];
      [Packet([u.header, u.first, u.second])]
      + (if u.extra.Some? then [Extra(u.extra.value)] else [])
      + Reported(units[1..])
  }

  /** The events of a stream, those that report nothing left out. */
  function Events<B>(p: Framing<B>, held: seq<B>, s: seq<B>): seq<Event<B>>
    decreases s
  {
    if s == [] then []
    else var (now, e) := Assemble(p, held, s[0]);
      (if e.Nothing? then [] else [e]) + Events(p, now, s[1..])
  }

  /** From any buffer contents and position, a well-formed stream is reported unit by unit. */
  lemma {:induction false} StreamReported<B(!new)>(p: Framing<B>, held: seq<B>, units: seq<Unit<B>>)
    requires Synchronising(p) && |held| <= 3 && forall u :: u in units ==> WellFormed(p, u)
    ensures Events(p, held, Wire(units)) == Reported(units)
    decreases units
  {
    if units != [] {
      var u, rest := units[0], Wire(units[1..]);
      assert WellFormed(p, u);
      var packet := [u.header, u.first, u.second];
      var more := (if u.extra.Some? then [u.extra.value] else []) + rest;
      assert Wire(units) == packet + more;
      PacketReported(p, held, packet, more);
      if u.extra.Some? {
        assert more[1..] == rest && more[0] == u.extra.value;
        StepIs(p, packet, u.extra.value);
        StreamReported(p, [], units[1..]);
      } else {
        assert more == rest;
        StreamReported(p, packet, units[1..]);
        assert Reported(units) == [Packet(packet)] + Reported(units[1..]);
      }
    }
  }

  lemma PacketReported<B(!new)>(p: Framing<B>, held: seq<B>, packet: seq<B>, more: seq<B>)
    requires Synchronising(p) && |held| <= 3
    requires |packet| == 3 && p.header(packet[0]) && p.data(packet[1]) && p.data(packet[2])
    ensures Events(p, held, packet + more) == [Packet(packet)] + Events(p, packet, more)
  {
    var s := packet + more;
    StepIs(p, held, packet[0]);
    StepIs(p, [packet[0]], packet[1]);
    StepIs(p, [packet[0], packet[1]], packet[2]);
    assert [packet[0]] + [packet[1]] == [packet[0], packet[1]];
    assert [packet[0], packet[1]] + [packet[2]] == packet;
    var s1, s2, s3 := s[1..], s[1..][1..], s[1..][1..][1..];
    assert s3 == more;
    assert Events(p, [packet[0], packet[1]], s2) == [Packet(packet)] + Events(p, packet, s3);
    assert Events(p, [packet[0]], s1) == Events(p, [packet[0], packet[1]], s2);
  }

  // ---------- What feeding a stream reports ----------

  /** The events that report something. */
  function Reports<B>(events: seq<Event<B>>): seq<Event<B>> {
    if events == [] then []
    else (if events[0].Nothing? then [] else [events[0]]) + Reports(events[1..])
  }

  lemma {:induction false} AfterFirst<B>(p: Framing<B>, held: seq<B>, s: seq<B>)
    requires s != []
    ensures After(p, held, s) == After(p, Assemble(p, held, s[0]).0, s[1..])
  {
    if |s| == 1 {
      assert s[..0] == [];
    } else {
      AfterFirst(p, held, s[..|s| - 1]);
      assert s[..|s| - 1][1..] == s[1..][..|s| - 2];
    }
  }

  /** The events of a stream are those that its bytes cause one by one. */
  lemma {:induction false} EventsAreReports<B>(p: Framing<B>, held: seq<B>, s: seq<B>, events: seq<Event<B>>)
    requires |events| == |s| && forall k :: 0 <= k < |s| ==> events[k] == EventAt(p, held, s, k)
    ensures Events(p, held, s) == Reports(events)
    decreases s
  {
    if s != [] {
      var (now, e) := Assemble(p, held, s[0]);
      assert s[..0] == [] && events[0] == EventAt(p, held, s, 0) == e;
      forall k | 0 <= k < |s| - 1 ensures events[1..][k] == EventAt(p, now, s[1..], k) {
        AfterFirst(p, held, s[..k + 1]);
        assert s[..k + 1][1..] == s[1..][..k];
        assert events[k + 1] == EventAt(p, held, s, k + 1);
      }
      EventsAreReports(p, now, s[1..], events[1..]);
    }
  }

  /** Feeding a stream to an assembler causes the events of its bytes. For the Microsoft family a stream
      of well-formed packets is reported packet by packet, whatever the buffer held before. */
  method Feed(a: Assembler, s: seq<bv8>) returns (events: seq<Event<bv8>>)
    requires a.Valid()
    modifies a, a.pBuf
    ensures a.Valid() && a.Held() == After(FramingOf(a.proto), old(a.Held()), s)
    ensures |events| == |s|
    ensures forall k :: 0 <= k < |s| ==> events[k] == EventAt(FramingOf(a.proto), old(a.Held()), s, k)
    ensures Reports(events) == Events(FramingOf(a.proto), old(a.Held()), s)
    ensures forall mouse :: a.proto == Row(mouse) ==> ReportsUnits(mouse, s, events)
  {
    events := [];
    ghost var held := a.Held();
    for k := 0 to |s|
      invariant a.Valid() && a.Held() == After(FramingOf(a.proto), held, s[..k])
      invariant |events| == k && forall j :: 0 <= j < k ==> events[j] == EventAt(FramingOf(a.proto), held, s, j)
    {
      assert s[..k + 1][..k] == s[..k];
      var e := a.Receive(s[k]);
      events := events + [e];
    }
    assert s[..|s|] == s;
    EventsAreReports(FramingOf(a.proto), held, s, events);
    forall mouse | a.proto == Row(mouse) ensures ReportsUnits(mouse, s, events) {
      UnitsReported(mouse, held, s, events);
    }
  }

  /** What a mouse of the family sends, by byte values. */
  predicate Sends(mouse: Mouse, u: Unit<bv8>) {
    && SendsHeader(u.header) && SendsData(u.first) && SendsData(u.second)
    && (u.extra.Some? ==> SendsFourth(mouse, u.extra.value))
  }

  ghost predicate ReportsUnits(mouse: Mouse, s: seq<bv8>, events: seq<Event<bv8>>) {
    forall units {:trigger Wire(units)} :: s == Wire(units) && (forall u :: u in units ==> Sends(mouse, u)) ==>
      Reports(events) == Reported(units)
  }

  lemma SendsWellFormed(mouse: Mouse, u: Unit<bv8>)
    ensures Sends(mouse, u) <==> WellFormed(FramingOf(Row(mouse)), u)
  {
    RowBytes(mouse, u.header);
    RowBytes(mouse, u.first);
    RowBytes(mouse, u.second);
    if u.extra.Some? { RowBytes(mouse, u.extra.value); }
  }

  lemma UnitsReported(mouse: Mouse, held: seq<bv8>, s: seq<bv8>, events: seq<Event<bv8>>)
    requires |held| <= 3 && Reports(events) == Events(FramingOf(Row(mouse)), held, s)
    ensures ReportsUnits(mouse, s, events)
  {
    FamilySynchronises(mouse);
    forall units | s == Wire(units) && (forall u :: u in units ==> Sends(mouse, u))
      ensures Reports(events) == Reported(units)
    {
      forall u | u in units ensures WellFormed(FramingOf(Row(mouse)), u) { SendsWellFormed(mouse, u); }
      StreamReported(FramingOf(Row(mouse)), held, units);
    }
  }
}
