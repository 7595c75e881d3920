/** packet.c: the receiver's two buffers, filled by short reads, and the sender. */
module Packet {
  import opened Checksum
  import opened PacketSpec
  import opened Sequences

  const PACKET_SIZE := HEAD_LEN + MAX_PAYLOAD

  /** What one call of the transport's read brings: bytes, nothing for now, or a failure. */
  datatype Read = Data(bytes: seq<Byte>) | Idle | Failed

  /** The bytes still to be read before the first failure. */
  ghost function Upcoming(script: seq<Read>): seq<Byte> {
    if script == [] then []
    else match script[0]
      case Data(b) => b + Upcoming(script[1..])
      case Idle => Upcoming(script[1..])
      case Failed => []
  }

  lemma {:induction false} UpcomingCons(r: Read, rest: seq<Read>)
    ensures Upcoming([r] + rest)
         == match r case Data(b) => b + Upcoming(rest) case Idle => Upcoming(rest) case Failed => []
  {
    assert ([r] + rest)[1..] == rest;
  }

  // What has been played of a script; a read of more than there is room for leaves a rest to be read.

  ghost predicate IsNothing(r: Read) { r == Idle || r == Data([]) }

  /** after is what is left of before when some of it has been played. */
  ghost predicate Played(before: seq<Read>, after: seq<Read>) {
    && |after| <= |before|
    && (after != [] ==>
          var k := |before| - |after|;
          after[1..] == before[k + 1..] && (after[0] == before[k] || (after[0].Data? && !IsNothing(after[0]))))
  }

  /** What was played last is in the script just before what is left. */
  ghost function LastPlayed(before: seq<Read>, after: seq<Read>): Read
    requires |after| < |before|
  {
    before[|before| - |after| - 1]
  }

  /** The last thing that the transport said is that there is nothing for now, or all it had to say is over. */
  ghost predicate Dry(before: seq<Read>, after: seq<Read>) {
    after == [] || (|after| < |before| && after == before[|before| - |after|..] && IsNothing(LastPlayed(before, after)))
  }

  /** The last thing that the transport said is that it failed. */
  ghost predicate Broke(before: seq<Read>, after: seq<Read>) {
    |after| < |before| && after == before[|before| - |after|..] && LastPlayed(before, after) == Failed
  }

  lemma {:induction false} PlayedMore(before: seq<Read>, mid: seq<Read>, after: seq<Read>)
    requires Played(before, mid)
    ensures Played(mid, after) ==> Played(before, after)
    ensures Dry(mid, after) ==> Dry(before, after)
    ensures Broke(mid, after) ==> Broke(before, after)
  {
    var k, j := |before| - |mid|, |mid| - |after|;
    if 0 < j && mid != [] {
      assert mid[1..] == before[k + 1..];
      assert mid[1..][j - 1..] == mid[j..] && before[k + 1..][j - 1..] == before[k + j..];
      if j > 1 { assert mid[j - 1] == mid[1..][j - 2] == before[k + j - 1]; }
      if after != [] {
        assert mid[1..][j..] == mid[j + 1..] && before[k + 1..][j..] == before[k + j + 1..];
        assert mid[j] == mid[1..][j - 1] == before[k + j];
      }
    }
  }

  /** Every read brings something. */
  ghost predicate Flowing(script: seq<Read>) {
    forall i :: 0 <= i < |script| ==> script[i].Data? && script[i].bytes != []
  }

  lemma {:induction false} FlowsOut(before: seq<Read>, after: seq<Read>)
    requires Flowing(before) && Dry(before, after)
    ensures after == [] && Upcoming(after) == []
  {
  }

  /** The transport: an arbitrary sequence of results, each cut to the room there is. */
  class IoContext {
    var script: seq<Read>

    ghost function Coming(): seq<Byte>
      reads this
    {
      Upcoming(script)
    }

    constructor (script: seq<Read>)
      ensures this.script == script
    {
      this.script := script;
    }

    method Read(room: nat) returns (ret: int, got: seq<Byte>)
      requires room > 0
      modifies this
      ensures ret == if got != [] then |got| else ret
      ensures |got| <= room && (ret > 0 <==> got != [])
      ensures ret >= 0 ==> old(Coming()) == got + Coming()
      ensures Played(old(script), script)
      ensures ret == 0 ==> Dry(old(script), script)
      ensures ret < 0 ==> Broke(old(script), script) && old(Coming()) == []
    {
      got, ret := [], 0;
      if script != [] {
        var r := script[0];
        script := script[1..];
        match r {
          case Data(b) =>
            got := if |b| <= room then b else b[..room];
            ret := |got|;
            if |b| > room {
              UpcomingCons(Data(b[room..]), script);
              assert b == b[..room] + b[room..];
              script := [Data(b[room..])] + script;
            }
          case Idle =>
          case Failed => ret := -1;
        }
      }
    }
  }

  /** memcpy between different buffers. */
  method Copy(dst: array<Byte>, to: nat, src: array<Byte>, from: nat, n: nat)
    requires dst != src && to + n <= dst.Length && from + n <= src.Length
    modifies dst
    ensures dst[..] == old(dst[..to]) + src[from..from + n] + old(dst[to + n..])
  {
    forall k | 0 <= k < n { dst[to + k] := src[from + k]; }
  }

  /** memcpy down within one buffer, understood as memmove. */
  method MoveDown(a: array<Byte>, k: nat, n: nat)
    requires k <= n <= a.Length
    modifies a
    ensures a[..] == old(a[k..n]) + old(a[n - k..])
  {
    forall i | 0 <= i < n - k { a[i] := a[i + k]; }
  }

  ghost predicate Same(a: seq<Byte>, b: seq<Byte>, c: seq<Byte>, d: seq<Byte>) { a + b == c + d }

  lemma {:induction false} SameNothing(s: seq<Byte>)
    ensures Same(s, [], [], s)
  {
  }

  lemma {:induction false} CatNothing(r: seq<Byte>, c: seq<Byte>)
    ensures Cat(r, r, []) && Cat(c, [], c)
  {
  }

  lemma {:induction false} SameMore(a: seq<Byte>, b: seq<Byte>, c: seq<Byte>, more: seq<Byte>)
    requires Same(a, b, c, [])
    ensures Same(a, b + more, c, more)
  {
    Assoc(a, b, more);
    Assoc(c, [], more);
  }

  ghost predicate Cat(s: seq<Byte>, a: seq<Byte>, b: seq<Byte>) { s == a + b }

  lemma {:induction false} CatMore(r: seq<Byte>, r': seq<Byte>, r'': seq<Byte>, c: seq<Byte>, c': seq<Byte>,
                                   c'': seq<Byte>, got: seq<Byte>, more: seq<Byte>)
    requires Cat(r', r, got) && Cat(r'', r', more)
    ensures Cat(r'', r, got + more)
    ensures Cat(c, got, c') && Cat(c', more, c'') ==> Cat(c, got + more, c'')
  {
    Assoc(r, got, more);
    Assoc(got, more, c'');
  }

  lemma {:induction false} SameChain(a: seq<Byte>, b: seq<Byte>, c: seq<Byte>, d: seq<Byte>, e: seq<Byte>, f: seq<Byte>)
    requires Same(a, b, c, d) && Same(c, d, e, f)
    ensures Same(a, b, e, f)
  {
  }

  /** After more has been read, of which the end was lost. */
  lemma {:induction false} SameThen(r: seq<Byte>, all: seq<Byte>, r': seq<Byte>, more: seq<Byte>, r'': seq<Byte>,
                                    lost: seq<Byte>)
    requires Same(r, all, r', []) && Same(r', more, r'', lost)
    ensures Same(r, all + more, r'', lost)
  {
    Assoc(r, all, more);
    assert r' + [] == r';
  }

  lemma {:induction false} CatSame(r: seq<Byte>, r': seq<Byte>, got: seq<Byte>)
    requires Cat(r', r, got)
    ensures Same(r, got, r', [])
  {
  }

  lemma {:induction false} NothingPlayed(script: seq<Read>)
    ensures Played(script, script)
  {
  }

  lemma {:induction false} AllCame(coming: seq<Byte>, got: seq<Byte>, rest: seq<Byte>)
    requires Cat(coming, got, rest) && rest == []
    ensures coming == got + []
  {
  }

  lemma {:induction false} CatThen(c: seq<Byte>, got: seq<Byte>, c': seq<Byte>, more: seq<Byte>, c'': seq<Byte>)
    requires Cat(c, got, c')
    ensures Cat(c', more, c'') ==> Cat(c, got + more, c'')
    ensures more == c' ==> c == got + more
  {
    Assoc(got, more, c'');
  }

  /** When the transport has run dry after reads that all brought something, everything has come. */
  lemma {:induction false} WhenDry(before: seq<Read>, after: seq<Read>, r: seq<Byte>, got: seq<Byte>, r': seq<Byte>,
                                   coming: seq<Byte>)
    ensures Flowing(before) && Dry(before, after) && Cat(coming, got, Upcoming(after)) && Same(r, got, r', []) ==>
              Upcoming(after) == [] && r' == r + coming
  {
    if Flowing(before) && Dry(before, after) {
      FlowsOut(before, after);
      assert got + [] == got && r' + [] == r';
    }
  }

  class DwPacketContext {
    const stage: array<Byte>
    const dp: array<Byte>
    const txdp: array<Byte>
    const ioc: IoContext
    var buf: nat
    var pos: nat
    var len: nat
    /** The stream so far: the bytes that were read, but for those that a failure lost. */
    ghost var received: seq<Byte>
    /** Its front, which has gone into dp; the rest is staged. */
    ghost var consumed: seq<Byte>
    ghost var delivered: seq<seq<Byte>>

    ghost predicate Shape()
      reads this`buf, this`pos
    {
      && stage.Length == 16 * PACKET_SIZE && dp.Length == PACKET_SIZE && txdp.Length == PACKET_SIZE
      && stage != dp && txdp != stage && txdp != dp && buf <= pos <= stage.Length
    }

    /** Read but not yet looked at. */
    ghost function Staged(): seq<Byte>
      reads this`buf, this`pos, stage
      requires Shape()
    {
      stage[buf..pos]
    }

    /** The first n bytes of dp, and the k bytes from there on. */
    ghost function Below(n: nat): seq<Byte>
      reads dp
      requires n <= dp.Length
    {
      dp[..n]
    }

    ghost function Filled(n: nat, k: nat): seq<Byte>
      reads dp
      requires n + k <= dp.Length
    {
      dp[n..n + k]
    }

    lemma {:induction false} FilledMore(n: nat, k: nat)
      requires n + k <= dp.Length
      ensures Below(n + k) == Below(n) + Filled(n, k) && |Filled(n, k)| == k
    {
    }

    lemma {:induction false} StagedLength()
      requires Shape()
      ensures |Staged()| == pos - buf
    {
    }

    lemma {:induction false} FilledNothing(n: nat)
      requires n <= dp.Length
      ensures Filled(n, 0) == []
    {
    }

    /** dp holds less than a header, or a header and less than its payload. */
    ghost predicate Partial()
      reads this, dp
    {
      len < HEAD_LEN || (len <= dp.Length && Header(Below(len)) && len < HEAD_LEN + PayloadLen(Below(len)))
    }

    /** What dp holds decodes to what is missing of the packets in what has gone into it. */
    ghost predicate Sync()
      reads this, stage, dp
    {
      && Shape() && len <= dp.Length
      && Cat(received, consumed, Staged()) && Tracks(consumed, delivered, Below(len))
    }

    ghost predicate Valid()
      reads this, stage, dp
    {
      Sync() && Partial()
    }

    /** How many bytes are still to go through dp. */
    ghost function Work(): nat
      reads this`buf, this`pos, ioc
      requires Shape()
    {
      pos - buf + |ioc.Coming()|
    }

    /** dw_init_packet */
    constructor (ioc: IoContext)
      ensures Valid() && this.ioc == ioc && received == [] && delivered == []
      ensures fresh(stage) && fresh(dp) && fresh(txdp)
    {
      hide Tracks;
      this.ioc := ioc;
      stage := new Byte[16 * PACKET_SIZE];
      dp := new Byte[PACKET_SIZE];
      txdp := new Byte[PACKET_SIZE];
      buf, pos, len := 0, 0, 0;
      received, consumed, delivered := [], [], [];
      new;
      assert Below(0) == [] && Staged() == [];
      TracksStart();
    }

    method Refill() returns (ret: int, ghost got: seq<Byte>)
      requires Shape() && buf == pos
      modifies this`buf, this`pos, this`received, stage, ioc
      ensures Shape() && Cat(received, old(received), got) && Staged() == got
      ensures (ret > 0 <==> got != []) && old(Staged()) == [] && pos - buf == |got|
      ensures ret >= 0 ==> Cat(old(ioc.Coming()), got, ioc.Coming())
      ensures Played(old(ioc.script), ioc.script)
      ensures ret == 0 ==> Dry(old(ioc.script), ioc.script)
      ensures ret < 0 ==> Broke(old(ioc.script), ioc.script) && old(ioc.Coming()) == [] && got == []
    {
      if buf == stage.Length {
        buf, pos := 0, 0;
      }
      var bytes;
      ret, bytes := ioc.Read(stage.Length - pos);
      forall k | 0 <= k < |bytes| { stage[pos + k] := bytes[k]; }
      pos := pos + |bytes|;
      got := bytes;
      received := received + got;
    }

    /** Moves k staged bytes into dp, behind the done bytes that stand there from offset on. */
    method Take(offset: nat, done: nat, k: nat)
      requires Shape() && offset + done + k <= dp.Length && k <= pos - buf
      modifies this`buf, dp
      ensures Shape() && pos - buf == old(pos - buf) - k && Below(offset) == old(Below(offset))
      ensures Same(old(Filled(offset, done)), old(Staged()), Filled(offset, done + k), Staged())
    {
      ghost var below, filled := dp[..offset], dp[offset..offset + done];
      Copy(dp, offset + done, stage, buf, k);
      assert dp[..offset] == below;
      assert dp[offset..offset + done + k] == filled + stage[buf..buf + k];
      assert stage[buf..pos] == stage[buf..buf + k] + stage[buf + k..pos];
      buf := buf + k;
      Assoc(filled, stage[buf - k..buf], Staged());
    }

    /** read_cached, into dp from offset on. */
    method ReadCached(offset: nat, n: nat) returns (ret: int, ghost got: seq<Byte>)
      requires Shape() && 0 < n && offset + n <= dp.Length
      modifies this`buf, this`pos, this`received, stage, dp, ioc
      ensures Shape() && Cat(received, old(received), got) && ret <= n
      ensures Below(offset) == old(Below(offset))
      ensures ret < n ==> Staged() == []
      ensures ret >= 0 ==> Cat(old(ioc.Coming()), got, ioc.Coming())
      ensures ret >= 0 ==> Same(old(Staged()), got, Filled(offset, ret), Staged())
      ensures Played(old(ioc.script), ioc.script)
      ensures 0 <= ret < n ==> Dry(old(ioc.script), ioc.script)
      ensures ret < 0 ==> Broke(old(ioc.script), ioc.script) && got == old(ioc.Coming())
    {
      hide Upcoming, Same, Cat, Staged, Below, Filled, Played, Dry, Broke;
      got := [];
      SameNothing(Staged());
      FilledNothing(offset);
      CatNothing(received, ioc.Coming());
      NothingPlayed(ioc.script);
      var left := n;
      while true
        invariant Shape() && 0 < left <= n && Cat(received, old(received), got)
        invariant Below(offset) == old(Below(offset))
        invariant Cat(old(ioc.Coming()), got, ioc.Coming())
        invariant Same(old(Staged()), got, Filled(offset, n - left), Staged())
        invariant Played(old(ioc.script), ioc.script)
        decreases left, if buf == pos then 1 else 0
      {
        ghost var filled, staged := Filled(offset, n - left), Staged();
        if pos - buf >= left {
          Take(offset, n - left, left);
          SameChain(old(Staged()), got, filled, staged, Filled(offset, n), Staged());
          return n, got;
        } else if pos - buf > 0 {
          var k := pos - buf;
          Take(offset, n - left, k);
          left := left - k;
          SameChain(old(Staged()), got, filled, staged, Filled(offset, n - left), Staged());
        }
        ghost var was, more, r, c, script := got, [], received, ioc.Coming(), ioc.script;
        ret, more := Refill();
        got := was + more;
        PlayedMore(old(ioc.script), script, ioc.script);
        CatMore(old(received), r, received, old(ioc.Coming()), c, ioc.Coming(), was, more);
        if ret < 0 {
          AllCame(old(ioc.Coming()), was, c);
          return;
        }
        SameMore(old(Staged()), was, Filled(offset, n - left), more);
        if ret == 0 {
          return n - left, got;
        }
      }
    }

    /**
     read_cached behind what dp holds; got are the bytes that it read.  A failure loses the bytes that this call
     had moved, the staged ones and those it read: the context goes on as if they had not been in the stream.
     */
    method Receive(n: nat) returns (ret: int, ghost got: seq<Byte>, ghost lost: seq<Byte>)
      requires Sync() && 0 < n && len + n <= dp.Length
      modifies this`buf, this`pos, this`len, this`received, this`consumed, stage, dp, ioc
      ensures Sync() && ret <= n && len == old(len) + if ret > 0 then ret else 0
      ensures Below(old(len)) == old(Below(len))
      ensures ret < n ==> Staged() == []
      ensures ret >= 0 ==> Work() == old(Work()) - ret && Cat(old(ioc.Coming()), got, ioc.Coming())
      ensures Played(old(ioc.script), ioc.script)
      ensures 0 <= ret < n ==> Dry(old(ioc.script), ioc.script)
      ensures ret < 0 ==> Broke(old(ioc.script), ioc.script) && got == old(ioc.Coming())
      ensures Same(old(received), got, received, lost) && old(consumed) <= consumed
      ensures if ret < 0 then consumed == old(consumed) && lost == old(Staged()) + got else lost == []
    {
      hide Same, Cat, Staged, Below, Filled, Tracks, Upcoming, Played, Dry, Broke;
      ghost var r, below, staged, coming := received, Below(len), Staged(), ioc.Coming();
      StagedLength();
      ret, got := ReadCached(len, n);
      if ret >= 0 {
        ghost var filled := Filled(len, ret);
        FilledMore(len, ret);
        TracksRead(consumed, delivered, below, filled);
        Consumed(r, received, consumed, staged, got, filled, Staged());
        CatSame(r, received, got);
        Remaining(staged, got, coming, filled, Staged(), ioc.Coming());
        StagedLength();
        consumed, lost := consumed + filled, [];
        len := len + ret;
      } else {
        lost := staged + got;
        Cut(r, consumed, staged, got);
        received := consumed;
      }
    }

    /** The first place behind byte 0 where a mark may begin. */
    method FindMark() returns (ptr: nat)
      requires dp.Length >= HEAD_LEN && !(dp[0] == AT && dp[1] == DOLLAR)
      ensures 1 <= ptr < HEAD_LEN && Skips(dp[..HEAD_LEN], ptr)
    {
      hide Header;
      ptr := 1;
      while ptr <= HEAD_LEN - 2 && !(dp[ptr] == AT && dp[ptr + 1] == DOLLAR)
        invariant 1 <= ptr < HEAD_LEN
        invariant forall i :: 0 <= i < ptr ==> !(dp[i] == AT && dp[i + 1] == DOLLAR)
      {
        ptr := ptr + 1;
      }
      MarkSkips(dp[..HEAD_LEN], ptr);
    }

    /** Gives up the first k bytes of the header's worth that dp holds. */
    method Drop(k: nat)
      requires Sync() && len == HEAD_LEN && 0 < k <= HEAD_LEN && Skips(dp[..HEAD_LEN], k)
      modifies this`len, dp
      ensures Sync() && len == HEAD_LEN - k && Work() == old(Work()) && Staged() == old(Staged())
    {
      ghost var h := dp[..HEAD_LEN];
      TracksSkip(consumed, delivered, h, k);
      hide Skips, Tracks, Upcoming, Staged;
      MoveDown(dp, k, HEAD_LEN);
      len := HEAD_LEN - k;
      assert dp[..len] == h[k..];
    }

    /** The packet in dp is handed over. */
    method Deliver()
      requires Sync() && len <= dp.Length && Complete(Below(len)) && Size(Below(len)) == len
      modifies this`len, this`delivered
      ensures Valid() && delivered == old(delivered) + [old(dp[..len])] && Staged() == old(Staged())
    {
      hide Complete, Tracks, Upcoming, Staged;
      Delivered(consumed, delivered, Below(len));
      delivered := delivered + [dp[..len]];
      len := 0;
    }

    /** dp->len */
    method DpLen() returns (n: nat)
      requires dp.Length >= HEAD_LEN
      ensures forall k :: HEAD_LEN <= k <= dp.Length ==> n == PayloadLen(dp[..k])
    {
      n := Word(dp[8], dp[9]);
    }

    /** The checks of twelve bytes that have been completed: bytes with which no header begins are given up. */
    method Resync() returns (again: bool)
      requires Sync() && len == HEAD_LEN
      modifies this`len, dp
      ensures Sync() && Work() == old(Work()) && Staged() == old(Staged())
      ensures if again then len < HEAD_LEN else len == HEAD_LEN && Header(Below(len))
    {
      hide Header, Tracks, Staged, Skips;
      if dp[0] != AT || dp[1] != DOLLAR {
        var ptr := FindMark();
        Drop(ptr);
        return true;
      }
      var ok := CheckHeader();
      if !ok {
        BadHeaderSkips(dp[..HEAD_LEN]);
        Drop(2);
        return true;
      }
      return false;
    }

    /** What dp holds begins with a header that announces more payload than there is room for. */
    ghost predicate TooLong()
      reads this`len, dp
    {
      HEAD_LEN <= len <= dp.Length && Header(Below(len)) && PayloadLen(Below(len)) > MAX_PAYLOAD
    }

    /** The packet whose header dp holds is handed over if all of its payload is there. */
    method Conclude() returns (ret: int, packet: array?<Byte>)
      requires Sync() && HEAD_LEN <= len && Header(Below(len)) && len <= HEAD_LEN + PayloadLen(Below(len))
      modifies this`len, this`delivered
      ensures Valid() && Work() == old(Work()) && Staged() == old(Staged())
      ensures ret == 0 ==> packet == null && delivered == old(delivered)
      ensures ret != 0 ==> 0 < ret <= dp.Length && packet == dp && delivered == old(delivered) + [dp[..ret]]
    {
      hide Header, Complete, Tracks, Staged;
      var l := DpLen();
      if len < HEAD_LEN + l {
        return 0, null;
      }
      IsComplete(Below(len));
      ret, packet := len, dp;
      Deliver();
    }

    /** One turn of the loop of dw_get_packet: either it goes on, with less to do, or the result is there. */
    method Turn()
      returns (again: bool, ret: int, packet: array?<Byte>, fits: bool, ghost got: seq<Byte>, ghost lost: seq<Byte>)
      requires Valid()
      modifies this`buf, this`pos, this`len, this`received, this`consumed, this`delivered, stage, dp, ioc
      ensures Valid() && Same(old(received), got, received, lost) && old(consumed) <= consumed
      ensures again ==> ret == 0 && fits && Work() < old(Work())
      ensures ret > 0 ==> packet == dp && ret <= dp.Length && delivered == old(delivered) + [dp[..ret]]
      ensures ret <= 0 ==> packet == null && delivered == old(delivered)
      ensures ret == 0 && fits && !again ==> delivered == Packets(received) && Fitting(received)
      ensures !fits ==> ret == 0 && TooLong() && !Fitting(received)
      ensures if ret < 0 then consumed == old(consumed) && lost == old(Staged()) + got && Staged() == [] else lost == []
      ensures ret >= 0 ==> Cat(old(ioc.Coming()), got, ioc.Coming())
      ensures Played(old(ioc.script), ioc.script)
      ensures ret == 0 && fits && !again ==> Dry(old(ioc.script), ioc.script)
      ensures ret < 0 ==> Broke(old(ioc.script), ioc.script) && got == old(ioc.Coming())
    {
      hide Header, Complete, Tracks, Fitting, Upcoming, Staged, Skips, Crc8, Packets, Cat, Same, Played, Dry, Broke;
      again, packet, fits, got, lost := false, null, true, [], [];
      var n := HEAD_LEN - len;
      if len >= HEAD_LEN {
        n := DpLen();
        if n > MAX_PAYLOAD {
          NotFitting();
          NothingPlayed(ioc.script);
          CatNothing(received, ioc.Coming());
          CatSame(received, received, []);
          return false, 0, null, false, [], [];
        }
        n := n + HEAD_LEN - len;
      }
      ghost var was := Below(len);
      ret, got, lost := Receive(n);
      if ret < 0 {
        return;
      } else if ret == 0 {
        NothingComplete();
        return;
      }
      if len < HEAD_LEN {
        NothingComplete();
        return false, 0, null, true, got, [];
      } else if len == HEAD_LEN {
        again := Resync();
        if again {
          return true, 0, null, true, got, [];
        }
      } else {
        HeaderStays(was, Below(len));
      }
      ret, packet := Conclude();
      again := ret == 0;
    }

    /**
     dw_get_packet.  A positive result is the length of one more packet, in dp; zero says that nothing
     complete has arrived, so that all the packets in the stream so far have been delivered.  The source does not
     check the length that a header announces; where it would start to read more than dp has room for, the
     model stops and reports that it does not fit.  A failure loses what was staged and read, but nothing that
     had gone into dp, and the context stays valid for the stream without the lost bytes.
     */
    method GetPacket() returns (ret: int, packet: array?<Byte>, fits: bool, ghost got: seq<Byte>, ghost lost: seq<Byte>)
      requires Valid()
      modifies this`buf, this`pos, this`len, this`received, this`consumed, this`delivered, stage, dp, ioc
      ensures Valid() && Same(old(received), got, received, lost) && old(consumed) <= consumed
      ensures ret > 0 ==> packet == dp && ret <= dp.Length && delivered == old(delivered) + [dp[..ret]]
      ensures ret <= 0 ==> packet == null && delivered == old(delivered)
      ensures ret == 0 && fits ==> delivered == Packets(received) && Fitting(received)
      ensures !fits ==> ret == 0 && TooLong() && !Fitting(received)
      ensures if ret < 0 then Staged() == [] else lost == []
      ensures ret >= 0 ==> Cat(old(ioc.Coming()), got, ioc.Coming())
      ensures Played(old(ioc.script), ioc.script)
      ensures ret == 0 && fits ==> Dry(old(ioc.script), ioc.script)
      ensures ret < 0 ==> Broke(old(ioc.script), ioc.script) && got == old(ioc.Coming())
      ensures ret == 0 && fits && Flowing(old(ioc.script)) ==>
        ioc.Coming() == [] && delivered == Packets(old(received) + old(ioc.Coming()))
    {
      hide Header, Tracks, Fitting, Upcoming, Staged, Packets, Cat, Same, Partial, TooLong, Played, Dry, Broke, Flowing;
      got := [];
      CatNothing(received, ioc.Coming());
      NothingPlayed(ioc.script);
      CatSame(received, received, []);
      while true
        invariant Valid() && delivered == old(delivered)
        invariant Same(old(received), got, received, []) && old(consumed) <= consumed
        invariant Cat(old(ioc.Coming()), got, ioc.Coming()) && Played(old(ioc.script), ioc.script)
        decreases Work()
      {
        ghost var r, all, c, script := received, got, ioc.Coming(), ioc.script;
        var again;
        ghost var more;
        again, ret, packet, fits, more, lost := Turn();
        got := all + more;
        SameThen(old(received), all, r, more, received, lost);
        PlayedMore(old(ioc.script), script, ioc.script);
        CatThen(old(ioc.Coming()), all, c, more, ioc.Coming());
        if !again {
          WhenDry(old(ioc.script), ioc.script, old(received), got, received, old(ioc.Coming()));
          return;
        }
      }
    }

    /** The sequence number of the packet that was written last. */
    ghost function TxSeq(): nat
      reads txdp
      requires txdp.Length == PACKET_SIZE
    {
      Word(txdp[2], txdp[3])
    }

    /** The mark, the fields and the length. */
    method WriteFields(cmd: int, n: nat)
      requires txdp.Length == PACKET_SIZE
      modifies txdp
      ensures txdp[..10] == HeadFields((old(TxSeq()) + 1) % 0x1_0000, cmd, n)
    {
      hide Word, LoByte, HiByte, HeadFields;
      var next := (Word(txdp[2], txdp[3]) + 1) % 0x1_0000;
      txdp[0], txdp[1] := AT, DOLLAR;
      txdp[4], txdp[5] := 0, 0;
      txdp[6], txdp[7] := LoByte(cmd), HiByte(cmd);
      txdp[8], txdp[9] := LoByte(n), HiByte(n);
      txdp[2], txdp[3] := LoByte(next), HiByte(next);
      TenBytes(txdp[..10], next, cmd, n);
    }

    /** The fields, and the checksum over them. */
    method WriteHeader(cmd: int, n: nat)
      requires txdp.Length == PACKET_SIZE
      modifies txdp
      ensures TxSeq() == (old(TxSeq()) + 1) % 0x1_0000
      ensures txdp[..HEAD_LEN] == Head(TxSeq(), cmd, n)
    {
      hide Crc8, Word, LoByte, HiByte, HeadFields;
      WriteFields(cmd, n);
      ghost var f := txdp[..10];
      var crc := CalcCrc8(txdp, HEAD_LEN - 2);
      txdp[10], txdp[11] := crc, !crc;
      assert txdp[..HEAD_LEN] == f + [crc, !crc];
      SeqOf(f, (old(TxSeq()) + 1) % 0x1_0000, cmd, n);
      assert txdp[2] == f[2] && txdp[3] == f[3];
    }

    /** dw_write_command_data: what it hands to the transport, or -1 when there is too much data. */
    method WriteCommandData(cmd: int, data: seq<Byte>) returns (ret: int, wire: seq<Byte>)
      requires Shape()
      modifies txdp
      ensures Shape() && (old(Valid()) ==> Valid())
      ensures |data| > 1280 ==> ret == -1 && wire == [] && txdp[..] == old(txdp[..])
      ensures |data| <= 1280 ==> TxSeq() == (old(TxSeq()) + 1) % 0x1_0000
      ensures |data| <= 1280 ==> ret == |wire| && wire == Encoded(TxSeq(), cmd, data)
    {
      hide Head, Word;
      if |data| > MAX_PAYLOAD {
        return -1, [];
      }
      WriteHeader(cmd, |data|);
      ghost var h := txdp[..HEAD_LEN];
      forall k | 0 <= k < |data| { txdp[HEAD_LEN + k] := data[k]; }
      wire := txdp[..HEAD_LEN + |data|];
      assert txdp[..HEAD_LEN] == h && txdp[2] == h[2] && txdp[3] == h[3];
      assert wire == h + data;
      ret := |wire|;
    }

    /** Both checksum bytes against the ten bytes before them. */
    method CheckHeader() returns (ok: bool)
      requires dp.Length >= HEAD_LEN && dp[0] == AT && dp[1] == DOLLAR
      ensures ok == Header(dp[..HEAD_LEN])
    {
      hide Crc8;
      assert dp[..HEAD_LEN][..10] == dp[..10];
      var crc := CalcCrc8(dp, HEAD_LEN - 2);
      ok := !(crc != dp[HEAD_LEN - 2] || dp[HEAD_LEN - 1] != !crc);
    }

    lemma {:induction false} NotFitting()
      requires Valid() && len >= HEAD_LEN && PayloadLen(Below(len)) > MAX_PAYLOAD
      ensures TooLong() && !Fitting(received)
    {
      hide Header, Tracks, Fitting;
      FittingHead(Below(len), Staged());
      TracksRead(consumed, delivered, Below(len), Staged());
      TracksFitting(received, delivered, Below(len) + Staged());
    }

    lemma {:induction false} NothingComplete()
      requires Valid() && Staged() == [] && (len >= HEAD_LEN ==> PayloadLen(Below(len)) <= MAX_PAYLOAD)
      ensures delivered == Packets(received) && Fitting(received)
    {
      hide Tracks, Fitting, Packets;
      assert received == consumed;
      TakeNone(Below(len));
      TracksAll(received, delivered, Below(len));
    }
  }

  lemma {:induction false} TenBytes(f: seq<Byte>, seq16: nat, cmd: int, n: nat)
    requires |f| == 10 && f[0] == AT && f[1] == DOLLAR && f[2] == LoByte(seq16) && f[3] == HiByte(seq16)
    requires f[4] == f[5] == 0 && f[6] == LoByte(cmd) && f[7] == HiByte(cmd) && f[8] == LoByte(n) && f[9] == HiByte(n)
    ensures f == HeadFields(seq16, cmd, n)
  {
    hide LoByte, HiByte;
  }

  lemma {:induction false} SeqOf(f: seq<Byte>, seq16: nat, cmd: int, n: nat)
    requires f == HeadFields(seq16, cmd, n) && seq16 < 0x1_0000
    ensures Word(f[2], f[3]) == seq16
  {
    hide Word, LoByte, HiByte;
    WordValue(seq16);
  }

  lemma {:induction false} BadHeaderSkips(h: seq<Byte>)
    requires |h| == HEAD_LEN && !Header(h) && h[1] == DOLLAR
    ensures Skips(h, 2)
  {
    hide Header;
    assert h[0..] == h && h[1..][0] == DOLLAR;
  }

  lemma {:induction false} HeaderStays(h: seq<Byte>, s: seq<Byte>)
    requires Header(h) && |h| <= |s| && h == s[..|h|]
    ensures Header(s) && PayloadLen(s) == PayloadLen(h)
  {
    assert h[..10] == s[..10];
  }

  lemma {:induction false} IsComplete(s: seq<Byte>)
    requires Header(s) && |s| == HEAD_LEN + PayloadLen(s)
    ensures Complete(s) && Size(s) == |s|
  {
  }

  /** The staged bytes and those just read are those that went into dp and those that are staged now. */
  lemma {:induction false} Consumed(r: seq<Byte>, r': seq<Byte>, consumed: seq<Byte>, staged: seq<Byte>,
                                    got: seq<Byte>, filled: seq<Byte>, staged': seq<Byte>)
    requires Cat(r, consumed, staged) && Cat(r', r, got) && Same(staged, got, filled, staged')
    ensures Cat(r', consumed + filled, staged') && consumed <= consumed + filled
  {
    Assoc(consumed, staged, got);
    Assoc(consumed, filled, staged');
  }

  lemma {:induction false} Remaining(staged: seq<Byte>, got: seq<Byte>, coming: seq<Byte>, filled: seq<Byte>,
                                     staged': seq<Byte>, coming': seq<Byte>)
    requires Same(staged, got, filled, staged') && Cat(coming, got, coming')
    ensures |staged'| + |coming'| == |staged| + |coming| - |filled|
  {
    assert |staged + got| == |filled + staged'|;
  }

  lemma {:induction false} Cut(r: seq<Byte>, consumed: seq<Byte>, staged: seq<Byte>, got: seq<Byte>)
    requires Cat(r, consumed, staged)
    ensures Same(r, got, consumed, staged + got) && Cat(consumed, consumed, [])
  {
    Assoc(consumed, staged, got);
  }

  lemma {:induction false} MarkSkips(h: seq<Byte>, k: nat)
    requires |h| == HEAD_LEN && k < HEAD_LEN
    requires forall i :: 0 <= i < k ==> !(h[i] == AT && h[i + 1] == DOLLAR)
    ensures Skips(h, k)
  {
    forall i | 0 <= i < k ensures RuledOut(h[i..]) {
      assert h[i..][0] == h[i] && h[i..][1] == h[i + 1];
    }
  }

  lemma {:induction false} Delivered(consumed: seq<Byte>, delivered: seq<seq<Byte>>, p: seq<Byte>)
    requires Complete(p) && Size(p) == |p| <= PACKET_SIZE && Tracks(consumed, delivered, p)
    ensures Tracks(consumed, delivered + [p], [])
  {
    hide Tracks;
    assert p[..|p|] == p && p[|p|..] == [];
    TracksTake(consumed, delivered, p);
  }
}
