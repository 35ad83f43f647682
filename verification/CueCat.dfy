/** The CueCat decoder of cuecat/decode.c: base-64 digits, four to three bytes, each byte XORed with
    'C', a dot closing each code. The shifts and masks of the program act on values below 256 and
    are written as the arithmetic they amount to. */
module CueCat {

  type byte = b: int | 0 <= b < 256
  type digit = d: int | 0 <= d < 64

  // ---------- XOR with 'C' ----------

  /** One bit of a byte flipped, the one that counts p. */
  function Toggled(b: byte, p: int): (r: byte)
    requires p == 64 || p == 2 || p == 1
  {
    if b / p % 2 == 0 then b + p else b - p
  }

  /** b ^ 'C', that is, bits 6, 1 and 0 flipped. */
  function Xor(b: byte): byte {
    Toggled(Toggled(Toggled(b, 64), 2), 1)
  }

  lemma ToggledIsXor(v: bv8)
    ensures (v ^ 0x40) as int == Toggled(v as int, 64)
    ensures (v ^ 0x02) as int == Toggled(v as int, 2)
    ensures (v ^ 0x01) as int == Toggled(v as int, 1)
  {
    ToggledHigh(v);
    ToggledLow(v);
  }

  lemma ToggledHigh(v: bv8)
    ensures (v ^ 0x40) as int == Toggled(v as int, 64)
  {
    assert v & 0x40 == 0 <==> v as int / 64 % 2 == 0;
    if v & 0x40 == 0 { assert v ^ 0x40 == v + 0x40; } else { assert v ^ 0x40 == v - 0x40; }
  }

  lemma ToggledLow(v: bv8)
    ensures (v ^ 0x02) as int == Toggled(v as int, 2)
    ensures (v ^ 0x01) as int == Toggled(v as int, 1)
  {
    assert v & 0x02 == 0 <==> v as int / 2 % 2 == 0;
    if v & 0x02 == 0 { assert v ^ 0x02 == v + 0x02; } else { assert v ^ 0x02 == v - 0x02; }
    if v & 0x01 == 0 { assert v ^ 0x01 == v + 0x01; } else { assert v ^ 0x01 == v - 0x01; }
  }

  /** The bits of 'C'. */
  lemma ThreeBits(v: bv8)
    ensures v ^ ('C' as bv8) == ((v ^ 0x40) ^ 0x02) ^ 0x01
  {
    assert 'C' as bv8 == 0x43;
  }

  /** It is the exclusive or with 'C'. */
  lemma XorIsXor(v: bv8)
    ensures Xor(v as int) == (v ^ ('C' as bv8)) as int
  {
    ThreeBits(v);
    ToggledIsXor(v);
    ToggledIsXor(v ^ 0x40);
    ToggledIsXor((v ^ 0x40) ^ 0x02);
  }

  lemma Toggled64(b: byte)
    ensures var r := Toggled(b, 64); r / 64 % 2 != b / 64 % 2 && r / 2 % 2 == b / 2 % 2 && r % 2 == b % 2
  {
  }

  lemma Toggled2(b: byte)
    ensures var r := Toggled(b, 2); r / 64 % 2 == b / 64 % 2 && r / 2 % 2 != b / 2 % 2 && r % 2 == b % 2
  {
    assert Toggled(b, 2) / 4 == b / 4;
  }

  lemma Toggled1(b: byte)
    ensures var r := Toggled(b, 1); r / 64 % 2 == b / 64 % 2 && r / 2 % 2 == b / 2 % 2 && r % 2 != b % 2
  {
    assert Toggled(b, 1) / 2 == b / 2;
  }

  lemma XorTwice(b: byte)
    ensures Xor(Xor(b)) == b
  {
    var b1 := Toggled(b, 64);
    var b2 := Toggled(b1, 2);
    var b3 := Toggled(b2, 1);
    var b4 := Toggled(b3, 64);
    Toggled64(b);
    Toggled2(b1);
    Toggled1(b2);
    Toggled64(b3);
    Toggled2(b4);
  }

  function Xored(data: seq<byte>): seq<byte> {
    seq(|data|, i requires 0 <= i < |data| => Xor(data[i]))
  }

  /** XORing codes gives data. */
  ghost predicate Yields(codes: seq<byte>, data: seq<byte>) {
    |codes| == |data| && forall i {:trigger Xor(codes[i])} :: 0 <= i < |codes| ==> Xor(codes[i]) == data[i]
  }

  lemma XoredYields(data: seq<byte>)
    ensures Yields(Xored(data), data)
  {
    forall i | 0 <= i < |data| ensures Xor(Xored(data)[i]) == data[i] { XorTwice(data[i]); }
  }

  // ---------- The alphabet ----------

  /** The table `map`. */
  function Symbol(d: digit): char {
    if d < 26 then ('a' as int + d) as char
    else if d < 52 then ('A' as int + d - 26) as char
    else if d < 62 then ('0' as int + d - 52) as char
    else if d == 62 then ','
    else '-'
  }

  lemma SymbolsDiffer(d: digit, e: digit)
    requires Symbol(d) == Symbol(e)
    ensures d == e
  {
  }

  /** The position of a character in the table, from p on; 64 when it is not there. */
  function Find(ch: char, p: nat): (q: nat)
    requires p <= 64
    ensures p <= q <= 64 && (q < 64 ==> Symbol(q) == ch)
    ensures forall d: digit :: p <= d < q ==> Symbol(d) != ch
    decreases 64 - p
  {
    if p == 64 || Symbol(p) == ch then p else Find(ch, p + 1)
  }

  predicate IsDigit(ch: char) {
    Find(ch, 0) < 64
  }

  /** The value of a character; one that is no digit counts zero. */
  function Value(ch: char): digit {
    if IsDigit(ch) then Find(ch, 0) else 0
  }

  lemma ValueOf(d: digit)
    ensures IsDigit(Symbol(d)) && Value(Symbol(d)) == d
  {
    SymbolsDiffer(d, Value(Symbol(d)));
  }

  /** What ends a code; a byte 0xFF reads as EOF. */
  predicate IsEnd(c: char) {
    c == '.' || c == '\n' || c as int == 255
  }

  lemma SymbolsGoOn(d: digit)
    ensures !IsEnd(Symbol(d))
  {
  }

  // ---------- The encoder ----------

  /** Byte i; zero past the end. */
  function Plain(codes: seq<byte>, i: nat): byte {
    if i < |codes| then codes[i] else 0
  }

  /** The number of digits for n bytes: four for three, two for one, three for two. */
  function Digits(n: nat): nat {
    n / 3 * 4 + (if n % 3 == 0 then 0 else n % 3 + 1)
  }

  function DigitAt(codes: seq<byte>, j: nat): digit {
    var i := j / 4 * 3;
    if j % 4 == 0 then Plain(codes, i) / 4
    else if j % 4 == 1 then Plain(codes, i) % 4 * 16 + Plain(codes, i + 1) / 16
    else if j % 4 == 2 then Plain(codes, i + 1) % 16 * 4 + Plain(codes, i + 2) / 64
    else Plain(codes, i + 2) % 64
  }

  /** The wire form: '+' stands for the table's ','; a dot closes the code. */
  function Encode(data: seq<byte>): seq<char> {
    seq(Digits(|data|), j requires 0 <= j => Wire(Symbol(DigitAt(Xored(data), j)))) + ['.']
  }

  function Wire(c: char): char {
    if c == ',' then '+' else c
  }

  /** The position after an encoding and its dot. */
  function Past(data: seq<byte>, first: nat): nat {
    first + Digits(|data|) + 1
  }

  /** get_cat's translation of an input character. */
  function Translate(c: char): char {
    if c == '+' then ',' else if c == '/' then '-' else c
  }

  /** The digits as they stand on the wire, letter by letter; everything else is no digit. */
  lemma WireDigits(c: char)
    ensures 'a' <= c <= 'z' ==> Value(Translate(c)) == c as int - 'a' as int
    ensures 'A' <= c <= 'Z' ==> Value(Translate(c)) == c as int - 'A' as int + 26
    ensures '0' <= c <= '9' ==> Value(Translate(c)) == c as int - '0' as int + 52
    ensures c == '+' || c == ',' ==> Value(Translate(c)) == 62
    ensures c == '/' || c == '-' ==> Value(Translate(c)) == 63
    ensures IsDigit(Translate(c)) <==>
      'a' <= c <= 'z' || 'A' <= c <= 'Z' || '0' <= c <= '9' || c in {'+', ',', '/', '-'}
  {
    if 'a' <= c <= 'z' { ValueOf(c as int - 'a' as int); }
    if 'A' <= c <= 'Z' { ValueOf(c as int - 'A' as int + 26); }
    if '0' <= c <= '9' { ValueOf(c as int - '0' as int + 52); }
    ValueOf(62);
    ValueOf(63);
  }

  /** The code "iq." is that of the letter b. */
  lemma LetterScanned()
    ensures Encode(['b' as int]) == "iq."
  {
    XorTwice(0x21);
    assert Xor(0x21) == 0x62;
    assert Xored([0x62]) == [0x21];
    assert DigitAt([0x21], 0) == 8 && DigitAt([0x21], 1) == 16;
    assert Symbol(8) == 'i' && Symbol(16) == 'q';
  }

  /** What one code of the decoder's buffer can hold. */
  predicate Fits(data: seq<byte>) {
    |data| <= 60 && 0 !in data
  }

  // ---------- Strings in a buffer ----------

  /** strchr(s, 0) */
  function FindZero(s: seq<byte>): (p: nat)
    ensures p <= |s| && (p < |s| ==> s[p] == 0) && forall i :: 0 <= i < p ==> s[i] != 0
  {
    if s == [] || s[0] == 0 then 0 else 1 + FindZero(s[1..])
  }

  lemma ZeroAt(s: seq<byte>, p: nat)
    requires p < |s| && s[p] == 0 && forall i :: 0 <= i < p ==> s[i] != 0
    ensures FindZero(s) == p
  {
  }

  lemma ZeroAfter(s: seq<byte>, p: nat, code: byte)
    requires p == FindZero(s) < |s| - 1
    ensures var t := s[p := code][p + 1 := 0];
      && FindZero(t) == (if code != 0 then p + 1 else p)
      && t[..FindZero(t)] == if code != 0 then s[..p] + [code] else s[..p]
  {
    ZeroAt(s[p := code][p + 1 := 0], if code != 0 then p + 1 else p);
  }

  // ---------- The decoder ----------

  class Decoder {
    const encstring: seq<char>
    var offset: nat
    var c: char
    var hold: int
    const buffer: array<byte>

    /** The buffer holds a string with its terminator. */
    ghost predicate Valid()
      reads buffer
    {
      buffer.Length == 80 && FindZero(buffer[..]) < 80
    }

    /** The string in the buffer. */
    function Text(): seq<byte>
      reads buffer
    {
      buffer[..FindZero(buffer[..])]
    }

    constructor (enc: seq<char>)
      ensures encstring == enc && offset == 0 && hold == 0 && fresh(buffer) && Valid() && Text() == []
    {
      encstring, offset, c, hold := enc, 0, 0 as char, 0;
      buffer := new byte[80](_ => 0);
    }

    /** Character i of the input; the string's terminator is read at its end. */
    function CharAt(i: nat): char {
      if i < |encstring| then Translate(encstring[i]) else 0 as char
    }

    method GetCat()
      modifies this`offset, this`c
      ensures c == CharAt(old(offset)) && offset == old(offset) + 1
    {
      c := CharAt(offset);
      offset := offset + 1;
    }

    /** The character in hand after reading ch as a digit, and the position: only a digit is consumed. */
    function CharPast(ch: char, i: nat): char {
      if IsDigit(ch) then CharAt(i) else ch
    }

    function Past64(ch: char, i: nat): nat {
      if IsDigit(ch) then i + 1 else i
    }

    /** The value of the digit in c; a character that is no digit counts zero and stays. */
    method Get64() returns (w: digit)
      modifies this`offset, this`c
      ensures w == Value(old(c)) && c == CharPast(old(c), old(offset)) && offset == Past64(old(c), old(offset))
    {
      var p := 0;
      while p < 64 && Symbol(p) != c
        invariant 0 <= p <= 64 && Find(c, p) == Find(c, 0)
      {
        p := p + 1;
      }
      w := 0;
      if p < 64 {
        w := p;
        GetCat();
      }
    }

    /** Combines the carry with the next digit, or the first two digits of three bytes, into a code; at
        the end of an encoding with nothing carried there is none. */
    method GetByte(digitNumber: nat) returns (w: byte, ghost code: byte)
      requires 0 <= hold < 16 && (digitNumber == 2 ==> hold < 4)
      modifies this`offset, this`c, this`hold
      ensures 0 <= hold < 16 && (digitNumber == 1 ==> hold < 4)
      ensures !old(NoByte()) && digitNumber <= 2 ==> w == Xor(code)
      ensures old(NoByte()) || digitNumber > 2 ==>
        w == 0 && offset == old(offset) && c == old(c) && hold == old(hold)
      ensures !old(NoByte()) && digitNumber == 0 ==>
        var c1, o1 := CharPast(old(c), old(offset)), Past64(old(c), old(offset));
        && c == CharPast(c1, o1) && offset == Past64(c1, o1)
        && code == Value(old(c)) * 4 + Value(c1) / 16 && hold == Value(c1) % 16
      ensures !old(NoByte()) && digitNumber == 1 ==>
        && c == CharPast(old(c), old(offset)) && offset == Past64(old(c), old(offset))
        && code == old(hold) * 16 + Value(old(c)) / 4 && hold == Value(old(c)) % 4
      ensures !old(NoByte()) && digitNumber == 2 ==>
        && c == CharPast(old(c), old(offset)) && offset == Past64(old(c), old(offset))
        && code == old(hold) * 64 + Value(old(c)) && hold == 0
    {
      code := 0;
      if hold == 0 && IsEnd(c) {
        return 0, code;
      }
      if digitNumber == 0 {
        var high: int, low: int;
        high := Get64();
        low := Get64();
        hold := low % 16;
        code := high * 4 + low / 16;
        w := Xor(high * 4 + low / 16);
      } else if digitNumber == 1 {
        var low := Get64();
        code := hold * 16 + low / 4;
        w := Xor(hold * 16 + low / 4);
        hold := low % 4;
      } else if digitNumber == 2 {
        var low := Get64();
        code := hold * 64 + low;
        w := Xor(hold * 64 + low);
        hold := 0;
      } else {
        w := 0;
      }
    }

    ghost predicate NoByte()
      reads this
    {
      hold == 0 && IsEnd(c)
    }

    /** print_code, without the printing: writes the byte over the terminator and a new one behind it,
        while there is room for both. A zero leaves the string as it is. */
    method PrintCode(code: byte)
      requires Valid()
      modifies buffer
      ensures Valid()
      ensures Text() == if |old(Text())| < 78 && code != 0 then old(Text()) + [code] else old(Text())
    {
      var p := FindZero(buffer[..]);
      ghost var was := buffer[..];
      if p < buffer.Length - 2 {
        buffer[p] := code;
        buffer[p + 1] := 0;
        ZeroAfter(was, p, code);
        assert buffer[..] == was[p := code][p + 1 := 0];
      }
    }

    /** memset */
    method Clear()
      requires buffer.Length == 80
      modifies buffer
      ensures Valid() && Text() == []
    {
      forall i | 0 <= i < 80 {
        buffer[i] := 0;
      }
    }

    method SwallowDot()
      modifies this`offset, this`c
      ensures if old(c) == '.' then c == CharAt(old(offset)) && offset == old(offset) + 1
              else c == old(c) && offset == old(offset)
    {
      if c == '.' {
        GetCat();
      }
    }

    /** k bytes of a code have been decoded: c is the next character of its encoding, which begins at
        position `first`, and hold carries the bits of byte k already read. */
    ghost predicate Decoding(codes: seq<byte>, first: nat, k: nat)
      reads this
    {
      && offset == first + Digits(k) + 1 && c == CharAt(first + Digits(k)) && hold == Carry(codes, k)
    }

    /** At the start of a code: the character in hand is input character i, nothing is carried. */
    ghost predicate At(i: nat)
      reads this
    {
      offset == i + 1 && c == CharAt(i) && hold == 0
    }

    /** From position `first` on, the translated input holds the digits of codes, data already XORed. */
    ghost predicate HoldsCode(codes: seq<byte>, first: nat) {
      && (forall j :: 0 <= j < Digits(|codes|) ==> CharAt(first + j) == Symbol(DigitAt(codes, j)))
      && CharAt(first + Digits(|codes|)) == '.'
    }

    /** Digit j of an encoding is read as such. */
    lemma DigitRead(codes: seq<byte>, first: nat, j: nat)
      requires HoldsCode(codes, first) && j < Digits(|codes|)
      ensures IsDigit(CharAt(first + j)) && Value(CharAt(first + j)) == DigitAt(codes, j) && !IsEnd(CharAt(first + j))
    {
      ValueOf(DigitAt(codes, j));
      SymbolsGoOn(DigitAt(codes, j));
    }

    /** What GetByte finds where byte k of an encoding starts: its two digits, */
    lemma FirstOfThree(codes: seq<byte>, first: nat, k: nat, a: char, b: char)
      requires HoldsCode(codes, first) && k < |codes| && k % 3 == 0
      requires a == CharAt(first + Digits(k)) && b == CharAt(first + Digits(k) + 1)
      ensures IsDigit(a) && IsDigit(b) && !IsEnd(a)
      ensures Value(a) * 4 + Value(b) / 16 == codes[k] && Value(b) % 16 == Carry(codes, k + 1)
      ensures Digits(k + 1) == Digits(k) + 2
    {
      DigitsStep(codes, k);
      DigitRead(codes, first, Digits(k));
      DigitRead(codes, first, Digits(k) + 1);
      Rebuilt(codes, k);
    }

    /** or its one digit. */
    lemma OtherOfThree(codes: seq<byte>, first: nat, k: nat, a: char)
      requires HoldsCode(codes, first) && k < |codes| && k % 3 != 0 && a == CharAt(first + Digits(k))
      ensures IsDigit(a) && !IsEnd(a)
      ensures k % 3 == 1 ==> Carry(codes, k) * 16 + Value(a) / 4 == codes[k] && Value(a) % 4 == Carry(codes, k + 1)
      ensures k % 3 == 2 ==> Carry(codes, k) * 64 + Value(a) == codes[k] && Carry(codes, k + 1) == 0
      ensures Digits(k + 1) == Digits(k) + 1
    {
      DigitsStep(codes, k);
      DigitRead(codes, first, Digits(k));
      Rebuilt(codes, k);
    }

    /** One byte; `good` says that the input is in step with an encoding. */
    method NextByte(k: nat, ghost codes: seq<byte>, ghost first: nat, ghost good: bool) returns (w: byte)
      requires 0 <= hold < 16 && (k % 3 == 2 ==> hold < 4)
      requires good ==> k < |codes| && HoldsCode(codes, first) && Decoding(codes, first, k)
      modifies this`offset, this`c, this`hold
      ensures 0 <= hold < 16 && (k % 3 == 1 ==> hold < 4)
      ensures good ==> w == Xor(codes[k]) && Decoding(codes, first, k + 1)
      ensures old(NoByte()) ==> w == 0 && offset == old(offset) && c == old(c) && hold == 0
    {
      if good && k % 3 == 0 { FirstOfThree(codes, first, k, c, CharAt(offset)); }
      if good && k % 3 != 0 { OtherOfThree(codes, first, k, c); }
      ghost var code;
      w, code := GetByte(k % 3);
      assert good ==> code == codes[k];
    }

    /** One call of print_code on the next byte. */
    method PrintNext(k: nat, ghost data: seq<byte>, ghost codes: seq<byte>, ghost first: nat, ghost good: bool)
      requires 0 <= hold < 16 && (k % 3 == 2 ==> hold < 4) && Yields(codes, data) && Valid()
      requires good ==> k < |data| && Fits(data) && HoldsCode(codes, first)
      requires good ==> Text() == data[..k] && Decoding(codes, first, k)
      modifies this, buffer
      ensures 0 <= hold < 16 && (k % 3 == 1 ==> hold < 4) && Valid()
      ensures good ==> Text() == data[..k + 1] && Decoding(codes, first, k + 1)
      ensures old(NoByte()) ==> Text() == old(Text()) && offset == old(offset) && c == old(c) && hold == 0
    {
      var w := NextByte(k, codes, first, good);
      PrintCode(w);
    }

    /** process_code with print_code: whatever was there before, an encoding of up to 60 bytes other
        than zero leaves its data in the buffer, nothing carried, and the input after the dot. */
    method ProcessCode(ghost data: seq<byte>, ghost codes: seq<byte>, ghost first: nat)
      requires 0 <= hold < 16 && Yields(codes, data) && Valid()
      modifies this, buffer
      ensures 0 <= hold < 16 && Valid()
      ensures Fits(data) && HoldsCode(codes, first) && old(At(first)) ==>
        Text() == data && At(Past(data, first))
    {
      ghost var good := Fits(data) && HoldsCode(codes, first) && At(first);
      var k := 0;
      Clear();
      var limit := 60;
      while !IsEnd(c) && limit > 0
        invariant k + limit == 60 && 0 <= hold < 16 && (k % 3 == 2 ==> hold < 4) && Valid()
        invariant good ==> k <= |data| && Text() == data[..k] && Decoding(codes, first, k)
        decreases limit
      {
        PrintNext(k, data, codes, first, good);
        k := k + 1;
        limit := limit - 1;
      }
      if good && k < |data| {
        DigitsStep(codes, k);
        SymbolsGoOn(DigitAt(codes, Digits(k)));
      }
      if k % 3 != 0 {
        PrintNext(k, data, codes, first, false);
      }
      SwallowDot();
    }

    /** The input starts with the encodings of four codes. */
    ghost predicate FourCodes(h: seq<byte>, d: seq<byte>, t: seq<byte>, b: seq<byte>) {
      && HoldsCode(Xored(h), 0) && HoldsCode(Xored(d), Past(h, 0)) && HoldsCode(Xored(t), Past(d, Past(h, 0)))
      && HoldsCode(Xored(b), Past(t, Past(d, Past(h, 0))))
    }

    /** decodecat: header, device, code type and barcode decoded one after the other, and whatever
        follows. */
    method DecodeCat(ghost h: seq<byte>, ghost d: seq<byte>, ghost t: seq<byte>, ghost b: seq<byte>)
      returns (header: seq<byte>, devid: seq<byte>, codetype: seq<byte>, barcode: seq<byte>)
      requires 0 <= hold < 16 && Valid()
      modifies this, buffer
      ensures (FourCodes(h, d, t, b) && Fits(h) && Fits(d) && Fits(t) && Fits(b) && old(offset == hold == 0)) ==>
        header == h && devid == d && codetype == t && barcode == b
    {
      XoredYields(h);
      XoredYields(d);
      XoredYields(t);
      XoredYields(b);
      GetCat();
      ProcessCode(h, Xored(h), 0);
      header := Text();
      ProcessCode(d, Xored(d), Past(h, 0));
      devid := Text();
      ProcessCode(t, Xored(t), Past(d, Past(h, 0)));
      codetype := Text();
      ProcessCode(b, Xored(b), Past(t, Past(d, Past(h, 0))));
      barcode := Text();
      ProcessCode([], [], 0);
    }

    /** s stands in the input from position `first` on. */
    ghost predicate Contains(s: seq<char>, first: nat) {
      first + |s| <= |encstring| && forall j :: 0 <= j < |s| ==> encstring[first + j] == s[j]
    }

    /** What the encoder writes for four codes, one behind the other, is such an input. */
    lemma FourEncoded(h: seq<byte>, d: seq<byte>, t: seq<byte>, b: seq<byte>)
      requires Contains(Encode(h), 0) && Contains(Encode(d), Past(h, 0)) && Contains(Encode(t), Past(d, Past(h, 0)))
      requires Contains(Encode(b), Past(t, Past(d, Past(h, 0))))
      ensures FourCodes(h, d, t, b)
    {
      EncodedInput(h, 0);
      EncodedInput(d, Past(h, 0));
      EncodedInput(t, Past(d, Past(h, 0)));
      EncodedInput(b, Past(t, Past(d, Past(h, 0))));
    }

    /** An encoding in the input string is one in the translated input. */
    lemma EncodedInput(data: seq<byte>, first: nat)
      requires Contains(Encode(data), first)
      ensures HoldsCode(Xored(data), first)
    {
      forall j | 0 <= j < Digits(|data|) ensures CharAt(first + j) == Symbol(DigitAt(Xored(data), j)) {
        assert encstring[first + j] == Encode(data)[j];
      }
      assert encstring[first + Digits(|data|)] == Encode(data)[Digits(|data|)];
    }
  }

  /** The bits of byte k that decoding k bytes has already read. */
  function Carry(codes: seq<byte>, k: nat): int {
    if k % 3 == 0 then 0 else if k % 3 == 1 then Plain(codes, k) / 16 else Plain(codes, k) / 64
  }

  /** The digits of byte k: the next one or two, within the encoding. */
  lemma DigitsStep(codes: seq<byte>, k: nat)
    requires k < |codes|
    ensures Digits(k) < Digits(|codes|)
    ensures k % 3 == 0 ==>
      && Digits(k + 1) == Digits(k) + 2 <= Digits(|codes|)
      && DigitAt(codes, Digits(k)) == Plain(codes, k) / 4
      && DigitAt(codes, Digits(k) + 1) == Plain(codes, k) % 4 * 16 + Plain(codes, k + 1) / 16
    ensures k % 3 == 1 ==>
      Digits(k + 1) == Digits(k) + 1 && DigitAt(codes, Digits(k)) == Plain(codes, k) % 16 * 4 + Plain(codes, k + 1) / 64
    ensures k % 3 == 2 ==> Digits(k + 1) == Digits(k) + 1 && DigitAt(codes, Digits(k)) == Plain(codes, k) % 64
  {
    var q, r := k / 3, k % 3;
    var j := Digits(k);
    assert k == 3 * q + r;
    DigitsGrow(k, |codes|);
    assert j == 4 * q + (if r == 0 then 0 else r + 1);
    assert j / 4 == q && j % 4 == (if r == 0 then 0 else r + 1);
    if r == 0 {
      assert (j + 1) / 4 == q && (j + 1) % 4 == 1;
    }
  }

  /** Each byte adds at least one digit, and the first of three adds two. */
  lemma DigitsGrow(k: nat, n: nat)
    requires k < n
    ensures Digits(k) < Digits(k + 1) <= Digits(n)
    ensures Digits(k + 1) == Digits(k) + if k % 3 == 0 then 2 else 1
  {
    var q, p := k / 3, n / 3;
    assert k == 3 * q + k % 3 && n == 3 * p + n % 3;
    if k % 3 == 2 {
      assert (k + 1) / 3 == q + 1 && (k + 1) % 3 == 0;
    } else {
      assert (k + 1) / 3 == q && (k + 1) % 3 == k % 3 + 1;
    }
  }

  /** What GetByte computes from the carry and the digits of byte k is the byte, and the next carry. */
  lemma Rebuilt(codes: seq<byte>, k: nat)
    requires k < |codes|
    ensures var x, j := Plain(codes, k), Digits(k);
      && (k % 3 == 0 ==> var second := DigitAt(codes, j + 1);
            DigitAt(codes, j) * 4 + second / 16 == x && second % 16 == Carry(codes, k + 1))
      && (k % 3 == 1 ==> var next := DigitAt(codes, j);
            Carry(codes, k) * 16 + next / 4 == x && next % 4 == Carry(codes, k + 1))
      && (k % 3 == 2 ==> Carry(codes, k) * 64 + DigitAt(codes, j) == x && Carry(codes, k + 1) == 0)
  {
    DigitsStep(codes, k);
    Splits(Plain(codes, k), Plain(codes, k + 1));
  }

  lemma Splits(x: byte, y: byte)
    ensures x / 4 * 4 + (x % 4 * 16 + y / 16) / 16 == x && (x % 4 * 16 + y / 16) % 16 == y / 16
    ensures x / 16 * 16 + (x % 16 * 4 + y / 64) / 4 == x && (x % 16 * 4 + y / 64) % 4 == y / 64
    ensures x / 64 * 64 + x % 64 == x
  {
  }
}
