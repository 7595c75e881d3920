/** crc8.c: the checksum over packet headers. */
module Checksum {
  type Byte = bv8

  /** Entry k of a row of sixteen. */
  function Pick(k: Byte, v0: Byte, v1: Byte, v2: Byte, v3: Byte, v4: Byte, v5: Byte, v6: Byte, v7: Byte, v8: Byte,
                v9: Byte, v10: Byte, v11: Byte, v12: Byte, v13: Byte, v14: Byte, v15: Byte): Byte {
    if k == 0 then v0 else if k == 1 then v1 else if k == 2 then v2 else if k == 3 then v3
    else if k == 4 then v4 else if k == 5 then v5 else if k == 6 then v6 else if k == 7 then v7
    else if k == 8 then v8 else if k == 9 then v9 else if k == 10 then v10 else if k == 11 then v11
    else if k == 12 then v12 else if k == 13 then v13 else if k == 14 then v14 else v15
  }

  /** crc8_table, sixteen entries to a row, in four quarters. */
  function Table(x: Byte): Byte {
    if x < 0x40 then Quarter0(x) else if x < 0x80 then Quarter1(x) else if x < 0xC0 then Quarter2(x) else Quarter3(x)
  }

  function Quarter0(x: Byte): Byte {
    var row, k := x >> 4, x & 0x0F;
    if row == 0 then Pick(k, 0, 7, 14, 9, 28, 27, 18, 21, 56, 63, 54, 49, 36, 35, 42, 45) else
    if row == 1 then Pick(k, 112, 119, 126, 121, 108, 107, 98, 101, 72, 79, 70, 65, 84, 83, 90, 93) else
    if row == 2 then Pick(k, 224, 231, 238, 233, 252, 251, 242, 245, 216, 223, 214, 209, 196, 195, 202, 205) else
    Pick(k, 144, 151, 158, 153, 140, 139, 130, 133, 168, 175, 166, 161, 180, 179, 186, 189)
  }

  function Quarter1(x: Byte): Byte {
    var row, k := x >> 4, x & 0x0F;
    if row == 4 then Pick(k, 199, 192, 201, 206, 219, 220, 213, 210, 255, 248, 241, 246, 227, 228, 237, 234) else
    if row == 5 then Pick(k, 183, 176, 185, 190, 171, 172, 165, 162, 143, 136, 129, 134, 147, 148, 157, 154) else
    if row == 6 then Pick(k, 39, 32, 41, 46, 59, 60, 53, 50, 31, 24, 17, 22, 3, 4, 13, 10) else
    Pick(k, 87, 80, 89, 94, 75, 76, 69, 66, 111, 104, 97, 102, 115, 116, 125, 122)
  }

  function Quarter2(x: Byte): Byte {
    var row, k := x >> 4, x & 0x0F;
    if row == 8 then Pick(k, 137, 142, 135, 128, 149, 146, 155, 156, 177, 182, 191, 184, 173, 170, 163, 164) else
    if row == 9 then Pick(k, 249, 254, 247, 240, 229, 226, 235, 236, 193, 198, 207, 200, 221, 218, 211, 212) else
    if row == 10 then Pick(k, 105, 110, 103, 96, 117, 114, 123, 124, 81, 86, 95, 88, 77, 74, 67, 68) else
    Pick(k, 25, 30, 23, 16, 5, 2, 11, 12, 33, 38, 47, 40, 61, 58, 51, 52)
  }

  function Quarter3(x: Byte): Byte {
    var row, k := x >> 4, x & 0x0F;
    if row == 12 then Pick(k, 78, 73, 64, 71, 82, 85, 92, 91, 118, 113, 120, 127, 106, 109, 100, 99) else
    if row == 13 then Pick(k, 62, 57, 48, 55, 34, 37, 44, 43, 6, 1, 8, 15, 26, 29, 20, 19) else
    if row == 14 then Pick(k, 174, 169, 160, 167, 178, 181, 188, 187, 150, 145, 152, 159, 138, 141, 132, 131) else
    Pick(k, 222, 217, 208, 215, 194, 197, 204, 203, 230, 225, 232, 239, 250, 253, 244, 243)
  }

  /** One step of the shift register for the generator x^8 + x^2 + x + 1. */
  function Shift(x: Byte): Byte { if x & 0x80 == 0x80 then (x << 1) ^ 0x07 else x << 1 }

  function Shift2(x: Byte): Byte { Shift(Shift(x)) }

  function Shift4(x: Byte): Byte { Shift2(Shift2(x)) }

  function Shift8(x: Byte): Byte { Shift4(Shift4(x)) }

  lemma {:induction false} Quarter0IsCrc(x: Byte)
    requires x >> 6 == 0
    ensures Quarter0(x) == Shift8(x)
  {
  }

  lemma {:induction false} Quarter1IsCrc(x: Byte)
    requires x >> 6 == 1
    ensures Quarter1(x) == Shift8(x)
  {
  }

  lemma {:induction false} Quarter2IsCrc(x: Byte)
    requires x >> 6 == 2
    ensures Quarter2(x) == Shift8(x)
  {
  }

  lemma {:induction false} Quarter3IsCrc(x: Byte)
    requires x >> 6 == 3
    ensures Quarter3(x) == Shift8(x)
  {
  }

  /** The table holds the effect of eight shifts. */
  lemma {:induction false} TableIsCrc(x: Byte)
    ensures Table(x) == Shift8(x)
  {
    hide Quarter0, Quarter1, Quarter2, Quarter3, Shift8;
    if x < 0x40 { Quarter0IsCrc(x); } else if x < 0x80 { Quarter1IsCrc(x); }
    else if x < 0xC0 { Quarter2IsCrc(x); } else { Quarter3IsCrc(x); }
  }

  lemma {:induction false} ShiftInjective(x: Byte, y: Byte)
    requires x != y
    ensures Shift(x) != Shift(y)
  {
  }

  lemma {:induction false} Shift4Injective(x: Byte, y: Byte)
    requires x != y
    ensures Shift4(x) != Shift4(y)
  {
    hide Shift;
    ShiftInjective(x, y);
    ShiftInjective(Shift(x), Shift(y));
    ShiftInjective(Shift2(x), Shift2(y));
    ShiftInjective(Shift(Shift2(x)), Shift(Shift2(y)));
  }

  /** So no two entries of the table are the same. */
  lemma {:induction false} TableInjective(x: Byte, y: Byte)
    requires x != y
    ensures Table(x) != Table(y)
  {
    hide Table, Shift4;
    TableIsCrc(x);
    TableIsCrc(y);
    Shift4Injective(x, y);
    Shift4Injective(Shift4(x), Shift4(y));
  }

  function Step(c: Byte, b: Byte): Byte { Table(c ^ b) }

  /** What calc_crc8 computes over s. */
  function Crc8(s: seq<Byte>): Byte {
    if s == [] then 0 else Step(Crc8(s[..|s| - 1]), s[|s| - 1])
  }

  // ---------- Long division ----------

  // Polynomials over two elements are sequences of coefficients, the highest power first.

  ghost function BitsOf(b: Byte): (p: seq<bool>)
    ensures |p| == 8
  {
    [b & 0x80 != 0, b & 0x40 != 0, b & 0x20 != 0, b & 0x10 != 0, b & 8 != 0, b & 4 != 0, b & 2 != 0, b & 1 != 0]
  }

  ghost function Message(s: seq<Byte>): seq<bool> {
    if s == [] then [] else BitsOf(s[0]) + Message(s[1..])
  }

  /** If the highest coefficient is 1, x^8 + x^2 + x + 1 times a power of x is taken off; then it is 0, and goes. */
  ghost function Reduced(p: seq<bool>): (q: seq<bool>)
    requires |p| > 8
    ensures |q| == |p| - 1
  {
    if p[0] then [p[1], p[2], p[3], p[4], p[5], !p[6], !p[7], !p[8]] + p[9..] else p[1..]
  }

  /** The remainder of p on division by x^8 + x^2 + x + 1. */
  ghost function Remainder(p: seq<bool>): (r: seq<bool>)
    requires |p| >= 8
    ensures |r| == 8
    decreases |p|
  {
    if |p| == 8 then p else Remainder(Reduced(p))
  }

  function Xor(a: Byte, b: Byte): Byte { a ^ b }

  /** The register x after a step in which c comes in. */
  function Fed(x: Byte, c: bool): Byte { Xor(Shift(x), if c then 1 else 0) }

  lemma {:induction false} FedBits(x: Byte, c: bool)
    ensures var p := BitsOf(x);
            BitsOf(Fed(x, c)) ==
              if p[0] then [p[1], p[2], p[3], p[4], p[5], !p[6], !p[7], !c]
              else [p[1], p[2], p[3], p[4], p[5], p[6], p[7], c]
  {
  }

  lemma {:induction false} BitReduced(x: Byte, c: bool, rest: seq<bool>)
    ensures Remainder(BitsOf(x) + ([c] + rest)) == Remainder(BitsOf(Fed(x, c)) + rest)
  {
    hide Fed, BitsOf;
    var p := BitsOf(x) + ([c] + rest);
    FedBits(x, c);
    assert p[..8] == BitsOf(x) && p[8] == c && p[9..] == rest;
    assert Reduced(p) == BitsOf(Fed(x, c)) + rest;
  }

  lemma {:induction false} XorAssoc(a: Byte, b: Byte, c: Byte)
    ensures Xor(Xor(a, b), c) == Xor(a, Xor(b, c))
  {
  }

  lemma {:induction false} XorSwap(a: Byte, b: Byte, c: Byte)
    ensures Xor(Xor(a, b), c) == Xor(Xor(a, c), b)
  {
  }

  function Double(x: Byte): Byte { x << 1 }

  lemma {:induction false} DoubleXor(x: Byte, u: Byte)
    ensures Double(Xor(x, u)) == Xor(Double(x), Double(u))
  {
  }

  lemma {:induction false} TopXor(x: Byte, u: Byte)
    requires u & 0x80 == 0
    ensures Xor(x, u) & 0x80 == x & 0x80
  {
  }

  lemma {:induction false} ShiftIs(x: Byte)
    ensures Shift(x) == if x & 0x80 == 0x80 then Xor(Double(x), 7) else Double(x)
  {
  }

  /** What stands below the highest bit is only moved up. */
  lemma {:induction false} ShiftXor(x: Byte, u: Byte)
    requires u & 0x80 == 0
    ensures Shift(Xor(x, u)) == Xor(Shift(x), u << 1)
  {
    hide Shift, Xor;
    TopXor(x, u);
    DoubleXor(x, u);
    ShiftIs(x);
    ShiftIs(Xor(x, u));
    XorSwap(Double(x), Double(u), 7);
  }

  lemma {:induction false} FedXor(x: Byte, u: Byte, c: bool)
    requires u & 0x80 == 0
    ensures Fed(Xor(x, u), c) == Xor(Shift(x), Xor(u << 1, if c then 1 else 0))
  {
    hide Shift, Xor;
    ShiftXor(x, u);
    XorAssoc(Shift(x), u << 1, if c then 1 else 0);
  }

  /** Four steps, with the low bits of v coming in. */
  lemma {:induction false} FourFed(x: Byte, v: Byte)
    requires v & 0xF0 == 0
    ensures var p := BitsOf(v); Fed(Fed(Fed(Fed(x, p[4]), p[5]), p[6]), p[7]) == Xor(Shift4(x), v)
  {
    hide Shift, Fed, Xor, BitsOf;
    var p := BitsOf(v);
    LowBits(v);
    FedFirst(x, v);
    FedXor(Shift(x), v >> 3, p[5]);
    FedXor(Shift2(x), v >> 2, p[6]);
    FedXor(Shift(Shift2(x)), v >> 1, p[7]);
  }

  lemma {:induction false} LowBits(v: Byte)
    requires v & 0xF0 == 0
    ensures (v >> 3) & 0x80 == (v >> 2) & 0x80 == (v >> 1) & 0x80 == 0
    ensures Xor((v >> 3) << 1, if BitsOf(v)[5] then 1 else 0) == v >> 2
    ensures Xor((v >> 2) << 1, if BitsOf(v)[6] then 1 else 0) == v >> 1
    ensures Xor((v >> 1) << 1, if BitsOf(v)[7] then 1 else 0) == v
  {
  }

  lemma {:induction false} FedFirst(x: Byte, v: Byte)
    requires v & 0xF0 == 0
    ensures Fed(x, BitsOf(v)[4]) == Xor(Shift(x), v >> 3)
  {
  }

  function High(y: Byte): Byte { y >> 4 }

  function Low(y: Byte): Byte { y & 0x0F }

  /** The four low bits. */
  ghost function Nibble(v: Byte): (p: seq<bool>)
    ensures |p| == 4
  {
    BitsOf(v)[4..]
  }

  lemma {:induction false} FourApart(p: seq<bool>, rest: seq<bool>)
    requires |p| == 4
    ensures p + rest == [p[0]] + ([p[1]] + ([p[2]] + ([p[3]] + rest)))
  {
  }

  lemma {:induction false} NibbleReduced(x: Byte, v: Byte, rest: seq<bool>)
    requires v == Low(v)
    ensures Remainder(BitsOf(x) + (Nibble(v) + rest)) == Remainder(BitsOf(Xor(Shift4(x), v)) + rest)
  {
    hide Fed, BitsOf, Remainder, Xor, Shift4, Low;
    var p := Nibble(v);
    FourApart(p, rest);
    BitReduced(x, p[0], [p[1]] + ([p[2]] + ([p[3]] + rest)));
    BitReduced(Fed(x, p[0]), p[1], [p[2]] + ([p[3]] + rest));
    BitReduced(Fed(Fed(x, p[0]), p[1]), p[2], [p[3]] + rest);
    BitReduced(Fed(Fed(Fed(x, p[0]), p[1]), p[2]), p[3], rest);
    assert Xor(Shift4(x), v) == Fed(Fed(Fed(Fed(x, p[0]), p[1]), p[2]), p[3]) by { NibbleFed(x, v); }
  }

  lemma {:induction false} NibbleFed(x: Byte, v: Byte)
    requires v == Low(v)
    ensures var p := Nibble(v); Fed(Fed(Fed(Fed(x, p[0]), p[1]), p[2]), p[3]) == Xor(Shift4(x), v)
  {
    hide Fed, Xor, Shift4;
    FourFed(x, v);
  }

  lemma {:induction false} Nibbles(y: Byte)
    ensures High(y) == Low(High(y)) && Low(y) == Low(Low(y))
    ensures BitsOf(y) == Nibble(High(y)) + Nibble(Low(y))
  {
  }

  lemma {:induction false} HighMoves(y: Byte)
    ensures var h := High(y); h & 0x80 == (h << 1) & 0x80 == ((h << 1) << 1) & 0x80 == 0
    ensures var h := High(y); (((h << 1) << 1) << 1) & 0x80 == 0 && Xor((((h << 1) << 1) << 1) << 1, Low(y)) == y
  {
  }

  lemma {:induction false} Shift4Xor(x: Byte, y: Byte)
    ensures Xor(Shift4(Xor(x, High(y))), Low(y)) == Xor(Shift4(x), y)
  {
    hide Shift, Xor, High, Low;
    var h := High(y);
    HighMoves(y);
    ShiftXor(x, h);
    ShiftXor(Shift(x), h << 1);
    ShiftXor(Shift2(x), (h << 1) << 1);
    ShiftXor(Shift(Shift2(x)), ((h << 1) << 1) << 1);
    XorAssoc(Shift4(x), (((h << 1) << 1) << 1) << 1, Low(y));
  }

  lemma {:induction false} ByteReduced(x: Byte, y: Byte, rest: seq<bool>)
    ensures Remainder(BitsOf(x) + (BitsOf(y) + rest)) == Remainder(BitsOf(Xor(Shift8(x), y)) + rest)
  {
    hide Shift4, BitsOf, Remainder, Nibble, High, Low, Xor;
    Nibbles(y);
    assert BitsOf(y) + rest == Nibble(High(y)) + (Nibble(Low(y)) + rest);
    NibbleReduced(x, High(y), Nibble(Low(y)) + rest);
    NibbleReduced(Xor(Shift4(x), High(y)), Low(y), rest);
    Shift4Xor(Shift4(x), y);
  }

  lemma {:induction false} StepIs(c: Byte, b: Byte)
    ensures Step(c, b) == Shift8(Xor(c, b))
  {
    hide Table, Shift8;
    TableIsCrc(c ^ b);
  }

  lemma {:induction false} XorNothing(b: Byte)
    ensures Xor(0, b) == b && Xor(b, 0) == b
  {
  }

  /** Once the division has come to byte k, what stands there is the checksum so far on top of that byte. */
  lemma {:induction false} DivisionAt(s: seq<Byte>, k: nat)
    requires k <= |s|
    ensures var t := s + [0];
            && |Message(t)| >= 8
            && Remainder(Message(t)) == Remainder(BitsOf(Xor(Crc8(s[..k]), t[k])) + Message(t[k + 1..]))
    decreases k
  {
    hide Step, BitsOf, Remainder, Shift8, Xor;
    var t := s + [0];
    if k == 0 {
      XorNothing(t[0]);
      assert s[..0] == [];
    } else {
      DivisionAt(s, k - 1);
      var c := Crc8(s[..k - 1]);
      assert s[..k][..k - 1] == s[..k - 1] && t[k..][0] == t[k] && t[k..][1..] == t[k + 1..];
      StepIs(c, t[k - 1]);
      ByteReduced(Xor(c, t[k - 1]), t[k], Message(t[k + 1..]));
    }
  }

  /** The checksum of a message is the remainder of the message times x^8 on division by x^8 + x^2 + x + 1. */
  lemma {:induction false} CrcIsRemainder(s: seq<Byte>)
    ensures var m := Message(s + [0]); |m| >= 8 && BitsOf(Crc8(s)) == Remainder(m)
  {
    hide BitsOf, Xor, Crc8;
    DivisionAt(s, |s|);
    XorNothing(Crc8(s));
    assert s[..|s|] == s && BitsOf(Crc8(s)) + [] == BitsOf(Crc8(s));
  }

  lemma {:induction false} BitsDetermine(a: Byte, b: Byte)
    requires BitsOf(a) == BitsOf(b)
    ensures a == b
  {
  }

  method CalcCrc8(buf: array<Byte>, len: nat) returns (crc8: Byte)
    requires len <= buf.Length
    ensures crc8 == Crc8(buf[..len])
    ensures var m := Message(buf[..len] + [0]); |m| >= 8 && BitsOf(crc8) == Remainder(m)
  {
    hide Table, BitsOf, Remainder, Message;
    CrcIsRemainder(buf[..len]);
    crc8 := 0;
    for i := 0 to len
      invariant crc8 == Crc8(buf[..i])
    {
      assert buf[..i + 1][..i] == buf[..i];
      crc8 := Table(crc8 ^ buf[i]);
    }
  }

  lemma {:induction false} XorInjective(a: Byte, b: Byte, c: Byte)
    requires a != b
    ensures a ^ c != b ^ c && c ^ a != c ^ b
  {
  }

  /** One step of the checksum keeps a difference, be it in the byte or in the checksum so far. */
  lemma {:induction false} ByteDiffers(c: Byte, b: Byte, b': Byte)
    requires b != b'
    ensures Step(c, b) != Step(c, b')
  {
    hide Table;
    XorInjective(b, b', c);
    TableInjective(c ^ b, c ^ b');
  }

  lemma {:induction false} CrcDiffers(c: Byte, c': Byte, b: Byte)
    requires c != c'
    ensures Step(c, b) != Step(c', b)
  {
    hide Table;
    XorInjective(c, c', b);
    TableInjective(c ^ b, c' ^ b);
  }

  /** Changing exactly one byte always changes the checksum. */
  lemma {:induction false} OneByteChangesCrc(s: seq<Byte>, i: nat, b: Byte)
    requires i < |s| && s[i] != b
    ensures Crc8(s[i := b]) != Crc8(s)
  {
    hide Step;
    var n := |s| - 1;
    if i == n {
      assert s[i := b][..n] == s[..n];
      ByteDiffers(Crc8(s[..n]), s[n], b);
    } else {
      assert s[i := b][..n] == s[..n][i := b];
      OneByteChangesCrc(s[..n], i, b);
      CrcDiffers(Crc8(s[..n]), Crc8(s[..n][i := b]), s[n]);
    }
  }
}
