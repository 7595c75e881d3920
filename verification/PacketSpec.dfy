/** The stream of packets, decoded the simple way. */
module PacketSpec {
  import opened Checksum
  import opened Sequences

  // Look for the first place where twelve bytes form a valid header, take the header and its payload,
  // and go on behind them.

  const HEAD_LEN := 12
  const MAX_PAYLOAD := 1024 + 256
  const AT: Byte := 0x40
  const DOLLAR: Byte := 0x24

  /** s begins with a header: the mark, and the checksum and its complement over the rest. */
  ghost predicate Header(s: seq<Byte>) {
    && |s| >= HEAD_LEN
    && s[0] == AT && s[1] == DOLLAR
    && s[10] == Crc8(s[..10]) && s[11] == !Crc8(s[..10])
  }

  function Word(lo: Byte, hi: Byte): nat { lo as int + 256 * hi as int }

  ghost function PayloadLen(s: seq<Byte>): nat
    requires |s| >= HEAD_LEN
  {
    Word(s[8], s[9])
  }

  /** s from its first header on; what is left when there is none is shorter than a header. */
  ghost function Seek(s: seq<Byte>): (t: seq<Byte>)
    ensures |t| <= |s| && (|t| < HEAD_LEN || Header(t))
  {
    if |s| < HEAD_LEN || Header(s) then s else Seek(s[1..])
  }

  /** s begins with a header and all of its payload. */
  ghost predicate Complete(s: seq<Byte>) {
    Header(s) && |s| >= HEAD_LEN + PayloadLen(s)
  }

  ghost function Size(s: seq<Byte>): nat
    requires Complete(s)
  {
    HEAD_LEN + PayloadLen(s)
  }

  /** The packets of a stream, each with its header. */
  ghost function Packets(s: seq<Byte>): seq<seq<Byte>>
    decreases |s|
  {
    var t := Seek(s);
    if Complete(t) then [t[..Size(t)]] + Packets(t[Size(t)..]) else []
  }

  /** No header of the stream announces more payload than a packet may have. */
  ghost predicate Fitting(s: seq<Byte>)
    decreases |s|
  {
    var t := Seek(s);
    Header(t) ==> PayloadLen(t) <= MAX_PAYLOAD && (Complete(t) ==> Fitting(t[Size(t)..]))
  }

  // ---------- Skipping ----------

  /** What the bytes of s say already settles that no header begins with its first byte. */
  ghost predicate RuledOut(s: seq<Byte>) {
    || (|s| >= 2 && !(s[0] == AT && s[1] == DOLLAR))
    || (|s| >= HEAD_LEN && !Header(s))
  }

  /** No header begins in the first k bytes of s, whatever follows. */
  ghost predicate Skips(s: seq<Byte>, k: nat) {
    k <= |s| && forall i :: 0 <= i < k ==> RuledOut(s[i..])
  }

  lemma {:induction false} RuledOutStays(s: seq<Byte>, x: seq<Byte>)
    requires RuledOut(s)
    ensures !Header(s + x)
  {
    if |s| >= HEAD_LEN { assert (s + x)[..10] == s[..10]; }
  }

  lemma {:induction false} SkipsStays(s: seq<Byte>, k: nat, x: seq<Byte>)
    requires Skips(s, k)
    ensures Skips(s + x, k) && (s + x)[k..] == s[k..] + x
  {
    forall i | 0 <= i < k ensures RuledOut((s + x)[i..]) {
      assert (s + x)[i..] == s[i..] + x;
      if |s[i..]| >= HEAD_LEN && !Header(s[i..]) { RuledOutStays(s[i..], x); }
    }
  }

  lemma {:induction false} SkipOne(s: seq<Byte>)
    requires s != [] && !Header(s)
    ensures Packets(s) == Packets(s[1..]) && Fitting(s) == Fitting(s[1..])
  {
    if |s| < HEAD_LEN {
      assert Seek(s) == s && Seek(s[1..]) == s[1..];
    }
  }

  lemma {:induction false} SkipMany(s: seq<Byte>, k: nat, x: seq<Byte>)
    requires Skips(s, k)
    ensures Packets(s + x) == Packets(s[k..] + x) && Fitting(s + x) == Fitting(s[k..] + x)
    decreases k
  {
    if k > 0 {
      assert s[0..] == s;
      RuledOutStays(s, x);
      SkipOne(s + x);
      assert (s + x)[1..] == s[1..] + x;
      assert forall i :: 0 <= i < k - 1 ==> s[1..][i..] == s[i + 1..];
      SkipMany(s[1..], k - 1, x);
      assert s[1..][k - 1..] == s[k..];
    } else {
      assert s[0..] == s;
    }
  }

  /** The packet at the front of a stream, and the rest. */
  lemma {:induction false} TakeOne(s: seq<Byte>, x: seq<Byte>)
    requires Complete(s)
    ensures Complete(s + x) && Size(s + x) == Size(s)
    ensures Packets(s + x) == [s[..Size(s)]] + Packets(s[Size(s)..] + x)
    ensures Fitting(s + x) <==> PayloadLen(s) <= MAX_PAYLOAD && Fitting(s[Size(s)..] + x)
  {
    var t := s + x;
    assert t[..10] == s[..10];
    assert Seek(t) == t;
    assert t[..Size(t)] == s[..Size(s)] && t[Size(t)..] == s[Size(s)..] + x;
  }

  /** A header that has come without all of its payload. */
  lemma {:induction false} TakeNone(s: seq<Byte>)
    requires |s| < HEAD_LEN || (Header(s) && |s| < HEAD_LEN + PayloadLen(s))
    ensures Packets(s) == [] && (Fitting(s) <==> Header(s) ==> PayloadLen(s) <= MAX_PAYLOAD)
  {
    assert Seek(s) == s;
  }

  /** Seeking gives up only bytes with which no header begins, whatever follows. */
  lemma {:induction false} SeekSkips(s: seq<Byte>)
    ensures var k := |s| - |Seek(s)|; k >= 0 && Skips(s, k) && Seek(s) == s[k..]
    decreases |s|
  {
    if |s| < HEAD_LEN || Header(s) {
      assert s[0..] == s;
    } else {
      SeekSkips(s[1..]);
      var k := |s| - |Seek(s)|;
      assert s[1..][k - 1..] == s[k..];
      forall i | 0 <= i < k ensures RuledOut(s[i..]) {
        if i > 0 { assert s[1..][i - 1..] == s[i..]; } else { assert s[0..] == s; }
      }
    }
  }

  /** What has been decoded stays decoded, whatever is read next. */
  lemma {:induction false} PacketsGrow(s: seq<Byte>, x: seq<Byte>)
    ensures Packets(s) <= Packets(s + x)
    decreases |s|
  {
    hide Seek, Header;
    var t := Seek(s);
    SeekSkips(s);
    SkipMany(s, |s| - |t|, x);
    if Complete(t) {
      TakeOne(t, x);
      PacketsGrow(t[Size(t)..], x);
    }
  }

  // ---------- Reading a stream piece by piece ----------

  /**
   After received has been read and delivered has been handed over, pending still decodes to exactly what
   is missing, whatever is read next; and it has a header that announces too much exactly if the stream has.
   */
  ghost predicate Tracks(received: seq<Byte>, delivered: seq<seq<Byte>>, pending: seq<Byte>) {
    forall x: seq<Byte> ::
      Packets(received + x) == delivered + Packets(pending + x) && (Fitting(received + x) <==> Fitting(pending + x))
  }

  lemma {:induction false} TracksStart()
    ensures Tracks([], [], [])
  {
    assert forall x: seq<Byte> :: [] + Packets([] + x) == Packets([] + x);
  }

  lemma {:induction false} TracksRead(received: seq<Byte>, delivered: seq<seq<Byte>>, pending: seq<Byte>, b: seq<Byte>)
    requires Tracks(received, delivered, pending)
    ensures Tracks(received + b, delivered, pending + b)
  {
    forall x: seq<Byte> ensures Packets(received + b + x) == delivered + Packets(pending + b + x)
      && (Fitting(received + b + x) <==> Fitting(pending + b + x))
    {
      Assoc(received, b, x);
      Assoc(pending, b, x);
    }
  }

  lemma {:induction false} TracksSkip(received: seq<Byte>, delivered: seq<seq<Byte>>, pending: seq<Byte>, k: nat)
    requires Tracks(received, delivered, pending) && Skips(pending, k)
    ensures Tracks(received, delivered, pending[k..])
  {
    forall x: seq<Byte> ensures Packets(received + x) == delivered + Packets(pending[k..] + x)
      && (Fitting(received + x) <==> Fitting(pending[k..] + x))
    {
      SkipMany(pending, k, x);
    }
  }

  lemma {:induction false} TracksTake(received: seq<Byte>, delivered: seq<seq<Byte>>, pending: seq<Byte>)
    requires Tracks(received, delivered, pending) && Complete(pending) && PayloadLen(pending) <= MAX_PAYLOAD
    ensures Tracks(received, delivered + [pending[..Size(pending)]], pending[Size(pending)..])
  {
    var p, rest := pending[..Size(pending)], pending[Size(pending)..];
    forall x: seq<Byte> ensures Packets(received + x) == delivered + [p] + Packets(rest + x)
      && (Fitting(received + x) <==> Fitting(rest + x))
    {
      TakeOne(pending, x);
      Assoc(delivered, [p], Packets(rest + x));
    }
  }

  /** A header that announces too much spoils the stream. */
  lemma {:induction false} FittingHead(s: seq<Byte>, x: seq<Byte>)
    requires Header(s) && PayloadLen(s) > MAX_PAYLOAD
    ensures !Fitting(s + x)
  {
    assert (s + x)[..10] == s[..10];
    assert Seek(s + x) == s + x;
  }

  /** What has come of a stream that fits does fit. */
  lemma {:induction false} FittingPrefix(s: seq<Byte>, x: seq<Byte>)
    requires Fitting(s + x)
    ensures Fitting(s)
    decreases |s|
  {
    hide Seek;
    var t := Seek(s);
    SeekSkips(s);
    SkipMany(s, |s| - |t|, x);
    if Header(t) {
      if PayloadLen(t) > MAX_PAYLOAD { FittingHead(t, x); }
      if Complete(t) {
        TakeOne(t, x);
        FittingPrefix(t[Size(t)..], x);
      }
    }
  }

  lemma {:induction false} TracksFitting(received: seq<Byte>, delivered: seq<seq<Byte>>, pending: seq<Byte>)
    requires Tracks(received, delivered, pending)
    ensures Fitting(received) <==> Fitting(pending)
  {
    assert received + [] == received && pending + [] == pending;
  }

  /** Once nothing complete is pending, what was delivered is what the bytes received so far decode to. */
  lemma {:induction false} TracksAll(received: seq<Byte>, delivered: seq<seq<Byte>>, pending: seq<Byte>)
    requires Tracks(received, delivered, pending) && Packets(pending) == []
    ensures delivered == Packets(received) && (Fitting(received) <==> Fitting(pending))
  {
    assert received + [] == received && pending + [] == pending;
  }

  // ---------- What the sender writes ----------

  function LoByte(n: int): Byte { (n % 256) as bv8 }

  function HiByte(n: int): Byte { (n / 256 % 256) as bv8 }

  ghost function HeadFields(seq16: nat, cmd: int, len: nat): seq<Byte> {
    [AT, DOLLAR, LoByte(seq16), HiByte(seq16), 0, 0, LoByte(cmd), HiByte(cmd), LoByte(len), HiByte(len)]
  }

  ghost function Head(seq16: nat, cmd: int, len: nat): (h: seq<Byte>)
    ensures |h| == HEAD_LEN
  {
    var f := HeadFields(seq16, cmd, len);
    f + [Crc8(f), !Crc8(f)]
  }

  /** A packet on the wire. */
  ghost function Encoded(seq16: nat, cmd: int, data: seq<Byte>): seq<Byte> {
    Head(seq16, cmd, |data|) + data
  }

  ghost function Command(p: seq<Byte>): nat
    requires |p| >= HEAD_LEN
  {
    Word(p[6], p[7])
  }

  lemma {:induction false} NextByte(b: Byte)
    requires b != 255
    ensures (b + 1) as int == b as int + 1
  {
  }

  lemma {:induction false} ByteOfInt(b: Byte)
    ensures (b as int) as bv8 == b && (b == 255 ==> b as int == 255)
  {
  }

  /** A number below 256 survives being stored in a byte: counting up reaches it. */
  lemma {:induction false} ByteValue(n: int)
    requires 0 <= n < 256
    ensures (n as bv8) as int == n
  {
    var b: Byte := 0;
    for i := 0 to n
      invariant b as int == i
    {
      ByteOfInt(b);
      NextByte(b);
      b := b + 1;
    }
    ByteOfInt(b);
  }

  lemma {:induction false} WordValue(n: int)
    ensures Word(LoByte(n), HiByte(n)) == n % 0x1_0000
  {
    ByteValue(n % 256);
    ByteValue(n / 256 % 256);
    assert n % 0x1_0000 == n % 256 + 256 * (n / 256 % 256);
  }

  /** The receiver finds in a packet what the sender put into it. */
  lemma {:induction false} EncodedDecodes(seq16: nat, cmd: int, data: seq<Byte>)
    requires |data| <= MAX_PAYLOAD
    ensures var p := Encoded(seq16, cmd, data);
            && Complete(p) && Size(p) == |p| && PayloadLen(p) == |data|
            && Command(p) == cmd % 0x1_0000 && p[HEAD_LEN..] == data
  {
    hide Crc8, LoByte, HiByte, Word;
    var f, p := HeadFields(seq16, cmd, |data|), Encoded(seq16, cmd, data);
    assert p[..10] == f;
    WordValue(|data|);
    WordValue(cmd);
    assert p[HEAD_LEN..] == data;
  }

  /** The bytes on the wire, one by one: the fields with their low bytes first, and the checksum of what precedes it. */
  lemma {:induction false} EncodedBytes(seq16: nat, cmd: int, data: seq<Byte>)
    requires |data| <= MAX_PAYLOAD
    ensures var p := Encoded(seq16, cmd, data);
            && |p| == 12 + |data| && p[12..] == data
            && p[0] == 0x40 && p[1] == 0x24 && p[4] == p[5] == 0
            && p[2] as int == seq16 % 256 && p[3] as int == seq16 / 256 % 256
            && p[6] as int == cmd % 256 && p[7] as int == cmd / 256 % 256
            && p[8] as int == |data| % 256 && p[9] as int == |data| / 256
  {
    hide Crc8, HeadFields, Encoded;
    EncodedParts(seq16, cmd, data);
    FieldBytes(seq16, cmd, |data|);
    var p := Encoded(seq16, cmd, data);
    assert forall i :: 0 <= i < 10 ==> p[i] == p[..10][i];
  }

  lemma {:induction false} FieldBytes(seq16: nat, cmd: int, n: nat)
    requires n <= MAX_PAYLOAD
    ensures var f := HeadFields(seq16, cmd, n);
            && |f| == 10 && f[0] == 0x40 && f[1] == 0x24 && f[4] == f[5] == 0
            && f[2] as int == seq16 % 256 && f[3] as int == seq16 / 256 % 256
            && f[6] as int == cmd % 256 && f[7] as int == cmd / 256 % 256
            && f[8] as int == n % 256 && f[9] as int == n / 256
  {
    hide LoByte, HiByte;
    BytesOf(seq16);
    BytesOf(cmd);
    BytesOf(n);
  }

  /** The checksum is the remainder of the ten bytes before it; the last byte of the header is its complement. */
  lemma {:induction false} EncodedSum(seq16: nat, cmd: int, data: seq<Byte>)
    ensures var p := Encoded(seq16, cmd, data);
            |p| >= 12 && |Message(p[..10] + [0])| >= 8
            && BitsOf(p[10]) == Remainder(Message(p[..10] + [0])) && p[10] ^ p[11] == 0xFF
  {
    hide Crc8, HeadFields, Message, Remainder, BitsOf, Encoded;
    EncodedParts(seq16, cmd, data);
    var f := HeadFields(seq16, cmd, |data|);
    CrcIsRemainder(f);
    Complement(Crc8(f));
  }

  lemma {:induction false} EncodedParts(seq16: nat, cmd: int, data: seq<Byte>)
    ensures var f, p := HeadFields(seq16, cmd, |data|), Encoded(seq16, cmd, data);
            && |p| == 12 + |data| && p[..10] == f && p[12..] == data && p[10] == Crc8(f) && p[11] == !Crc8(f)
  {
    hide Crc8, LoByte, HiByte;
    var f, p := HeadFields(seq16, cmd, |data|), Encoded(seq16, cmd, data);
    assert p[..10] == f && p[12..] == data;
  }

  lemma {:induction false} BytesOf(n: int)
    ensures LoByte(n) as int == n % 256 && HiByte(n) as int == n / 256 % 256
  {
    ByteValue(n % 256);
    ByteValue(n / 256 % 256);
  }

  lemma {:induction false} Complement(b: Byte)
    ensures b ^ !b == 0xFF
  {
  }

  /** There are headers that announce too much, for every length that two bytes can hold and a packet cannot. */
  lemma {:induction false} Oversized(seq16: nat, cmd: int, n: nat, rest: seq<Byte>)
    requires MAX_PAYLOAD < n < 0x1_0000
    ensures var h := Head(seq16, cmd, n); Header(h) && PayloadLen(h) == n && !Fitting(h + rest)
  {
    hide Crc8, LoByte, HiByte, Word;
    var f, h := HeadFields(seq16, cmd, n), Head(seq16, cmd, n);
    assert h[..10] == f;
    WordValue(n);
    FittingHead(h, rest);
  }

  /** A packet in a transmission, with the noise before it. */
  datatype Frame = Frame(noise: seq<Byte>, seq16: nat, cmd: int, data: seq<Byte>) {
    ghost predicate Valid() { Quiet(noise) && |data| <= MAX_PAYLOAD }
    ghost function Packet(): seq<Byte> { Encoded(seq16, cmd, data) }
  }

  /** Noise that nowhere contains the two bytes of the mark. */
  ghost predicate Quiet(s: seq<Byte>) {
    forall i :: 0 <= i < |s| - 1 ==> !(s[i] == AT && s[i + 1] == DOLLAR)
  }

  ghost function Wire(l: seq<Frame>): seq<Byte> {
    if l == [] then [] else l[0].noise + l[0].Packet() + Wire(l[1..])
  }

  ghost function Sent(l: seq<Frame>): seq<seq<Byte>> {
    if l == [] then [] else [l[0].Packet()] + Sent(l[1..])
  }

  lemma {:induction false} QuietSkips(noise: seq<Byte>, p: seq<Byte>)
    requires Quiet(noise) && Header(p)
    ensures Skips(noise + p, |noise|)
  {
    var s := noise + p;
    forall i | 0 <= i < |noise| ensures RuledOut(s[i..]) {
      assert s[i..][0] == s[i] && s[i..][1] == s[i + 1];
    }
  }

  lemma {:induction false} FrameDecodes(f: Frame, rest: seq<Byte>)
    requires f.Valid()
    ensures Packets(f.noise + f.Packet() + rest) == [f.Packet()] + Packets(rest)
    ensures Fitting(f.noise + f.Packet() + rest) <==> Fitting(rest)
  {
    hide Header, Encoded, Crc8;
    var p := f.Packet();
    EncodedDecodes(f.seq16, f.cmd, f.data);
    QuietSkips(f.noise, p);
    SkipMany(f.noise + p, |f.noise|, rest);
    assert (f.noise + p)[|f.noise|..] == p;
    TakeOne(p, rest);
    assert p[..Size(p)] == p && p[Size(p)..] + rest == rest;
  }

  /** Every packet that is sent arrives, in order, and nothing else does. */
  lemma {:induction false} WireDecodes(l: seq<Frame>)
    requires forall i :: 0 <= i < |l| ==> l[i].Valid()
    ensures Packets(Wire(l)) == Sent(l) && Fitting(Wire(l))
    decreases |l|
  {
    if l == [] {
      assert Seek([]) == [];
    } else {
      hide Packets, Fitting;
      FrameDecodes(l[0], Wire(l[1..]));
      WireDecodes(l[1..]);
    }
  }

  /** However the transmission is cut into reads: what has been delivered is the front of what was sent. */
  lemma {:induction false} Transmitted(l: seq<Frame>, received: seq<Byte>, rest: seq<Byte>, delivered: seq<seq<Byte>>,
                                       pending: seq<Byte>)
    requires forall i :: 0 <= i < |l| ==> l[i].Valid()
    requires received + rest == Wire(l)
    requires Tracks(received, delivered, pending) && Packets(pending) == []
    ensures delivered <= Sent(l) && (rest == [] ==> delivered == Sent(l))
    ensures Fitting(received)
  {
    hide Tracks, Packets;
    TracksAll(received, delivered, pending);
    PacketsGrow(received, rest);
    WireDecodes(l);
    FittingPrefix(received, rest);
    if rest == [] { assert received + rest == received; }
  }

  /** A header with exactly one of its bytes altered is not a header. */
  lemma {:induction false} OneByteAltered(s: seq<Byte>, i: nat, b: Byte)
    requires Header(s) && i < HEAD_LEN && b != s[i]
    ensures !Header(s[i := b])
  {
    hide Crc8;
    if i < 10 {
      assert s[i := b][..10] == s[..10][i := b];
      OneByteChangesCrc(s[..10], i, b);
    } else {
      assert s[i := b][..10] == s[..10];
    }
  }
}
