/** The TCP frame builder of src/rtl8139.c: a 2048-byte packet array filled in place
    (section 3.1 of RFC 791, section 3.1 of RFC 793). */
module Checksum {
  import opened Bytes
  import opened ChecksumSpec
  import TcpReceiver

  const MAX_PAYLOAD: nat := 1994

  datatype Socket = Socket(active: bool, remoteIp: seq<byte>, remotePort: nat, localPort: nat, seqNo: nat, ack: nat)

  predicate SocketOk(s: Socket) {
    |s.remoteIp| == 4 && s.remotePort < 0x10000 && s.localPort < 0x10000 && s.seqNo < 0x1_0000_0000 &&
        s.ack < 0x1_0000_0000
  }

  function U32At(p: seq<byte>, o: nat): nat
    requires o + 4 <= |p|
  {
    0x10000 * Word(p[o], p[o + 1]) + Word(p[o + 2], p[o + 3])
  }

  // ---------------------------------------------------------------- what a receiver checks

  /** The pseudo-header sum, taken from the IP header of the packet itself. */
  function PseudoSum(p: seq<byte>): nat
    requires |p| >= 34
  {
    Sum(p[26..34]) + p[23] + (Word(p[16], p[17]) as int - 20) % 0x10000
  }

  predicate IpHeaderChecks(p: seq<byte>)
    requires |p| >= 34
  {
    Fold(Sum(p[14..34])) == 0xFFFF
  }

  predicate SegmentChecks(p: seq<byte>)
    requires |p| >= 34 && 34 <= 14 + Word(p[16], p[17]) <= |p|
  {
    Fold(PseudoSum(p) + Sum(p[34..14 + Word(p[16], p[17])])) == 0xFFFF
  }

  /** The Ethernet addresses and type. */
  predicate EthFields(p: seq<byte>, router: seq<byte>, mac: seq<byte>)
    requires |p| >= 34 && |router| == 6 && |mac| == 6
  {
    && (forall i :: 0 <= i < 6 ==> p[i] == router[i])
    && (forall i :: 6 <= i < 12 ==> p[i] == mac[i - 6])
    && p[12] == 0x08 && p[13] == 0x00
  }

  /** The IP fields but the checksum; `len` is the payload length of the segment. */
  predicate IpFields(p: seq<byte>, s: Socket, len: nat)
    requires |p| >= 34 && |s.remoteIp| == 4
  {
    && p[14] == 0x45 && p[15] == 0x00 && Word(p[16], p[17]) == 40 + len
    && p[18] == 0x12 && p[19] == 0x34 && p[20] == 0x40 && p[21] == 0x00 && p[22] == 0x40 && p[23] == 0x06
    && p[26] == 10 && p[27] == 0 && p[28] == 2 && p[29] == 15
    && p[30] == s.remoteIp[0] && p[31] == s.remoteIp[1] && p[32] == s.remoteIp[2] && p[33] == s.remoteIp[3]
  }

  /** The TCP fields but the checksum. */
  predicate TcpFields(p: seq<byte>, s: Socket, flags: byte)
    requires |p| >= 54
  {
    && Word(p[34], p[35]) == s.localPort && Word(p[36], p[37]) == s.remotePort
    && U32At(p, 38) == s.seqNo && U32At(p, 42) == s.ack
    && p[46] == 0x50 && p[47] == flags && Word(p[48], p[49]) == 0xFAF0
    && p[52] == 0 && p[53] == 0
  }

  predicate Carries(p: seq<byte>, data: seq<byte>)
    requires |p| >= 54 + |data|
  {
    forall i :: 0 <= i < |data| ==> p[54 + i] == data[i]
  }

  /** The socket after sending: SYN and FIN count one, data counts its length. */
  function NextSeq(s: Socket, flags: byte, len: nat): Socket {
    if len > 0 then s.(seqNo := (s.seqNo + len) % 0x1_0000_0000)
    else if flags % 4 != 0 then s.(seqNo := (s.seqNo + 1) % 0x1_0000_0000)
    else s
  }

  class Nic {
    const packet: array<byte>        // the static frame buffer of net_tcp_send
    var routerMac: seq<byte>
    var macAddress: seq<byte>
    var arpResolved: bool
    var sockets: seq<Socket>

    ghost predicate Valid()
      reads this
    {
      && packet.Length == 2048 && |routerMac| == 6 && |macAddress| == 6
      && |sockets| == 16 && forall i :: 0 <= i < 16 ==> SocketOk(sockets[i])
    }

    constructor (mac: seq<byte>, sockets: seq<Socket>)
      requires |mac| == 6 && |sockets| == 16 && forall i :: 0 <= i < 16 ==> SocketOk(sockets[i])
      ensures Valid() && fresh(packet)
    {
      packet := new byte[2048](_ => 0);
      routerMac := [0, 0, 0, 0, 0, 0];
      macAddress := mac;
      arpResolved := false;
      this.sockets := sockets;
    }

    /** `net_checksum` on `packet[from..from + len]`; of an odd range the next byte counts too. */
    method NetChecksum(from: nat, len: nat) returns (csum: nat)
      requires Valid() && from + len + len % 2 <= 2048
      ensures csum == Comp(Fold(Sum(packet[from..from + len + len % 2])))
    {
      hide Sum, Fold;
      var sum := 0;
      var i := 0;
      ghost var b := packet[from..from + len + len % 2];
      SumEmpty(b);
      while i < len
        invariant i <= len + len % 2 && i % 2 == 0 && sum == Sum(b[..i])
      {
        SumSnoc(b, i);
        sum := sum + Word(packet[from + i], packet[from + i + 1]);
        i := i + 2;
        SumBound(b[..i]);
        assert sum < 0x1_0000_0000;      // no wrap in 32 bits
      }
      assert b[..i] == b;
      csum := FoldLoop(sum);
      LowWord(csum);
      csum := (0xFFFF_FFFF - csum) % 0x10000;
    }

    /** The carry-fold loop. */
    method FoldLoop(sum: nat) returns (f: nat)
      ensures f == Fold(sum)
    {
      f := sum;
      while f >= 0x10000
        invariant Fold(f) == Fold(sum)
        decreases f
      {
        f := f % 0x10000 + f / 0x10000;
      }
    }

    /** `net_tcp_send`: the frame handed to the card, or -1 without one. */
    method NetTcpSend(sockId: int, flags: byte, data: seq<byte>) returns (ret: int, frame: seq<byte>)
      requires Valid() && |data| <= MAX_PAYLOAD
      modifies this`sockets, packet
      ensures Valid()
      ensures ret == -1 <==> !(0 <= sockId < 16 && old(sockets)[sockId].active && arpResolved)
      ensures ret == -1 ==> sockets == old(sockets) && frame == []
      ensures ret != -1 ==> ret == |data| && |frame| == if |data| < 6 then 60 else 54 + |data|
      ensures ret != -1 ==>
        && EthFields(frame, routerMac, macAddress)
        && IpFields(frame, old(sockets)[sockId], |data|)
        && TcpFields(frame, old(sockets)[sockId], flags)
        && Carries(frame, data)
        && (forall i :: 54 + |data| <= i < |frame| ==> frame[i] == 0)
        && IpHeaderChecks(frame) && SegmentChecks(frame)
      ensures ret != -1 ==>
        var s := old(sockets)[sockId];
        TcpReceiver.Received(frame) == TcpReceiver.Some(TcpReceiver.Segment(
          routerMac, macAddress, 0x1234, true, 64, [10, 0, 2, 15], s.remoteIp, s.localPort, s.remotePort,
          s.seqNo, s.ack, flags, 64240, data))
      ensures ret != -1 ==>
        sockets == old(sockets)[sockId := NextSeq(old(sockets)[sockId], flags, |data|)]
    {
      hide IpHeaderChecks, SegmentChecks, IpFields, TcpFields, EthFields, Carries, TcpReceiver.Received;
      if sockId < 0 || sockId >= 16 || !sockets[sockId].active { return -1, []; }
      if !arpResolved { return -1, []; }
      var sock := sockets[sockId];
      frame := BuildFrame(sock, flags, data);
      FrameReceived(frame, routerMac, macAddress, sock, flags, data);
      if |data| > 0 {
        sockets := sockets[sockId := sock.(seqNo := (sock.seqNo + |data|) % 0x1_0000_0000)];
      } else if flags / 2 % 2 == 1 || flags % 2 == 1 {
        sockets := sockets[sockId := sock.(seqNo := (sock.seqNo + 1) % 0x1_0000_0000)];
      }
      ret := |data|;
    }

    /** The packet-filling part. */
    method BuildFrame(sock: Socket, flags: byte, data: seq<byte>) returns (frame: seq<byte>)
      requires Valid() && SocketOk(sock) && |data| <= MAX_PAYLOAD
      modifies packet
      ensures |frame| == if |data| < 6 then 60 else 54 + |data|
      ensures EthFields(frame, routerMac, macAddress) && IpFields(frame, sock, |data|)
      ensures TcpFields(frame, sock, flags) && Carries(frame, data)
      ensures forall i :: 54 + |data| <= i < |frame| ==> frame[i] == 0
      ensures IpHeaderChecks(frame) && SegmentChecks(frame)
    {
      hide IpHeaderChecks, Sum, SegmentChecks, Fold, Word;
      Clear();
      var tcpLen := 20 + |data|;
      var ipLen := 20 + tcpLen;
      var frameLen := 14 + ipLen;
      if frameLen < 60 { frameLen := 60; }
      PutEthHeader();
      PutIpHeader(sock, ipLen);
      FillIpChecksum();
      ghost var p := packet[..];
      PutTcpHeader(sock, flags);
      PutPayload(data);
      FillTcpChecksum(sock, tcpLen);
      SameIpHeader(p, packet[..]);
      ChecksOnPrefix(packet[..], packet[..frameLen]);
      frame := packet[..frameLen];
    }

    method Clear()
      requires Valid()
      modifies packet
      ensures forall i :: 0 <= i < 2048 ==> packet[i] == 0
    {
      for i := 0 to 2048
        invariant forall k :: 0 <= k < i ==> packet[k] == 0
      {
        packet[i] := 0;
      }
    }

    method PutEthHeader()
      requires Valid()
      modifies packet
      ensures EthFields(packet[..], routerMac, macAddress)
      ensures forall i :: 14 <= i < 2048 ==> packet[i] == old(packet[i])
    {
      for i := 0 to 6
        invariant forall k :: 0 <= k < i ==> packet[k] == routerMac[k]
        invariant forall k :: 6 <= k < 2048 ==> packet[k] == old(packet[k])
      {
        packet[i] := routerMac[i];
      }
      for i := 0 to 6
        invariant forall k :: 0 <= k < 6 ==> packet[k] == routerMac[k]
        invariant forall k :: 6 <= k < 6 + i ==> packet[k] == macAddress[k - 6]
        invariant forall k :: 12 <= k < 2048 ==> packet[k] == old(packet[k])
      {
        packet[6 + i] := macAddress[i];
      }
      packet[12], packet[13] := 0x08, 0x00;
    }

    /** The IP header; its checksum field stays as it was. */
    method PutIpHeader(sock: Socket, ipLen: nat)
      requires Valid() && SocketOk(sock) && 40 <= ipLen <= 2034
      modifies packet
      ensures IpFields(packet[..], sock, ipLen - 40)
      ensures forall i :: 0 <= i < 2048 && !(14 <= i < 24 || 26 <= i < 34) ==> packet[i] == old(packet[i])
    {
      packet[14], packet[15] := 0x45, 0x00;
      packet[16], packet[17] := ipLen / 256, ipLen % 256;
      packet[18], packet[19] := 0x12, 0x34;
      packet[20], packet[21] := 0x40, 0x00;
      packet[22], packet[23] := 0x40, 0x06;
      var srcIp: seq<byte> := [10, 0, 2, 15];
      label filled:
      for i := 0 to 4
        invariant forall k :: 0 <= k < 26 || 34 <= k < 2048 ==> packet[k] == old@filled(packet[k])
        invariant forall k :: 26 <= k < 26 + i ==> packet[k] == srcIp[k - 26]
        invariant forall k :: 30 <= k < 30 + i ==> packet[k] == sock.remoteIp[k - 30]
      {
        packet[26 + i] := srcIp[i];
        packet[30 + i] := sock.remoteIp[i];
      }
    }

    /** The IP checksum, over a header whose checksum field is still zero. */
    method FillIpChecksum()
      requires Valid() && packet[24] == 0 && packet[25] == 0
      modifies packet
      ensures IpHeaderChecks(packet[..])
      ensures forall i :: 0 <= i < 2048 && i != 24 && i != 25 ==> packet[i] == old(packet[i])
    {
      ghost var h := packet[14..34];
      var ipCsum := NetChecksum(14, 20);
      packet[24] := ipCsum / 256;
      packet[25] := ipCsum % 256;
      FilledFieldChecks(h, 10, 0, ipCsum / 256, ipCsum % 256);
      assert packet[..][14..34] == SetWord(h, 10, packet[24], packet[25]);
    }

    /** The TCP header; its checksum field stays as it was. */
    method PutTcpHeader(sock: Socket, flags: byte)
      requires Valid() && SocketOk(sock) && packet[52] == 0 && packet[53] == 0
      modifies packet
      ensures TcpFields(packet[..], sock, flags)
      ensures forall i :: 0 <= i < 34 || 50 <= i < 2048 ==> packet[i] == old(packet[i])
    {
      packet[34], packet[35] := sock.localPort / 256, sock.localPort % 256;
      packet[36], packet[37] := sock.remotePort / 256, sock.remotePort % 256;
      PutU32(38, sock.seqNo);
      PutU32(42, sock.ack);
      packet[46] := 0x50;
      packet[47] := flags;
      packet[48], packet[49] := 0xFA, 0xF0;
    }

    /** Four bytes, most significant first. */
    method PutU32(o: nat, x: nat)
      requires Valid() && o + 4 <= 2048 && x < 0x1_0000_0000
      modifies packet
      ensures U32At(packet[..], o) == x
      ensures forall i :: 0 <= i < o || o + 4 <= i < 2048 ==> packet[i] == old(packet[i])
    {
      packet[o], packet[o + 1] := x / 0x100_0000, x / 0x10000 % 256;
      packet[o + 2], packet[o + 3] := x / 256 % 256, x % 256;
      BytesOfU32(x);
    }

    method PutPayload(data: seq<byte>)
      requires Valid() && |data| <= MAX_PAYLOAD
      modifies packet
      ensures Carries(packet[..], data)
      ensures forall i :: 0 <= i < 54 || 54 + |data| <= i < 2048 ==> packet[i] == old(packet[i])
    {
      for i := 0 to |data|
        invariant forall k :: 0 <= k < i ==> packet[54 + k] == data[k]
        invariant forall k :: 0 <= k < 54 || 54 + i <= k < 2048 ==> packet[k] == old(packet[k])
      {
        packet[54 + i] := data[i];
      }
    }

    /** The pseudo-header, the segment loop and the fold of `net_tcp_send`. */
    method FillTcpChecksum(sock: Socket, tcpLen: nat)
      requires Valid() && 20 <= tcpLen <= 2014 && SocketOk(sock)
      requires IpFields(packet[..], sock, tcpLen - 20)
      requires packet[50] == 0 && packet[51] == 0
      modifies packet
      ensures forall i :: 0 <= i < 2048 && i != 50 && i != 51 ==> packet[i] == old(packet[i])
      ensures Word(packet[16], packet[17]) == 20 + tcpLen && SegmentChecks(packet[..])
    {
      hide Sum, Fold;
      ghost var b, p := packet[34..34 + tcpLen], packet[..];
      var csum := Word(10, 0);
      csum := csum + Word(2, 15);
      csum := csum + Word(sock.remoteIp[0], sock.remoteIp[1]);
      csum := csum + Word(sock.remoteIp[2], sock.remoteIp[3]);
      csum := csum + 0x0006;
      csum := csum + tcpLen;
      PseudoIs(p, sock, tcpLen);
      csum := AddSegment(csum, tcpLen);
      var f := FoldLoop(csum);
      csum := 0xFFFF_FFFF - f;
      packet[50] := csum / 256 % 256;
      packet[51] := csum % 256;
      LowHalf(f);
      FilledFieldChecks(b, 16, PseudoSum(p), packet[50], packet[51]);
      assert packet[..][34..34 + tcpLen] == SetWord(b, 16, packet[50], packet[51]);
      SamePseudo(p, packet[..]);
    }

    /** The word loop over the segment, with the odd last byte padded. */
    method AddSegment(start: nat, tcpLen: nat) returns (csum: nat)
      requires Valid() && tcpLen <= 2014 && start < 0x100000
      ensures csum == start + Sum(packet[34..34 + tcpLen])
    {
      ghost var b := packet[34..34 + tcpLen];
      csum := start;
      var i := 0;
      while i < tcpLen
        invariant i % 2 == 0 && i <= tcpLen + 1
        invariant csum == start + Sum(if i <= tcpLen then b[..i] else b)
        decreases tcpLen - i
      {
        SumSnoc(b, i);
        var word := Word(packet[34 + i], if i + 1 < tcpLen then packet[34 + i + 1] else 0);
        csum := csum + word;
        i := i + 2;
      }
      assert b[..tcpLen] == b;
      SumBound(b);
      assert csum < 0x1_0000_0000;       // no wrap in 32 bits
    }
  }

  /** The receiver reads off the frame what was put into it. */
  lemma FrameReceived(p: seq<byte>, router: seq<byte>, mac: seq<byte>, s: Socket, flags: byte, data: seq<byte>)
    requires |router| == 6 && |mac| == 6 && SocketOk(s) && |data| <= MAX_PAYLOAD && |p| >= 54 + |data|
    requires EthFields(p, router, mac) && IpFields(p, s, |data|) && TcpFields(p, s, flags) && Carries(p, data)
    requires IpHeaderChecks(p) && SegmentChecks(p)
    ensures TcpReceiver.Received(p) == TcpReceiver.Some(TcpReceiver.Segment(
        router, mac, 0x1234, true, 64, [10, 0, 2, 15], s.remoteIp, s.localPort, s.remotePort,
        s.seqNo, s.ack, flags, 64240, data))
  {
    hide TcpReceiver.Datagram, TcpReceiver.Checks, IpHeaderChecks, SegmentChecks;
    var total := 40 + |data|;
    FrameLengths(p, s, |data|);
    FrameAccepted(p, s, flags, |data|);
    FrameNumbers(p, s, flags);
    assert p[0..6] == router && p[6..12] == mac && p[26..30] == [10, 0, 2, 15] && p[30..34] == s.remoteIp;
    assert p[54..14 + total] == data;
  }

  lemma FrameLengths(p: seq<byte>, s: Socket, len: nat)
    requires SocketOk(s) && len <= MAX_PAYLOAD && |p| >= 54 + len && IpFields(p, s, len)
    ensures p[14] % 16 * 4 == 20 && Word(p[16], p[17]) == 40 + len
    ensures Word(p[18], p[19]) == 0x1234 && p[20] / 64 % 2 == 1
  {
  }

  lemma FrameAccepted(p: seq<byte>, s: Socket, flags: byte, len: nat)
    requires SocketOk(s) && len <= MAX_PAYLOAD && |p| >= 54 + len && IpFields(p, s, len) && TcpFields(p, s, flags)
    requires p[12] == 8 && p[13] == 0 && IpHeaderChecks(p) && SegmentChecks(p)
    ensures TcpReceiver.Datagram(p, 20, 40 + len) && TcpReceiver.Checks(p, 20, 40 + len)
  {
    hide Sum, Fold;
  }

  lemma FrameNumbers(p: seq<byte>, s: Socket, flags: byte)
    requires SocketOk(s) && |p| >= 54 && TcpFields(p, s, flags)
    ensures Word(p[34], p[35]) == s.localPort && Word(p[36], p[37]) == s.remotePort
    ensures TcpReceiver.Number(p, 38) == s.seqNo && TcpReceiver.Number(p, 42) == s.ack
    ensures p[46] / 16 * 4 == 20 && p[47] == flags && Word(p[48], p[49]) == 64240
  {
  }

  /** The sequence number advances by data, SYN and FIN, as section 3.3 of RFC 793 counts
      them, exactly when there is no more than one of the three. */
  lemma SequenceIff(s: Socket, flags: byte, len: nat)
    requires SocketOk(s) && len <= MAX_PAYLOAD
    ensures var fin, syn := flags % 2, flags / 2 % 2;
      && NextSeq(s, flags, len) == s.(seqNo := NextSeq(s, flags, len).seqNo)
      && (NextSeq(s, flags, len).seqNo == (s.seqNo + len + syn + fin) % 0x1_0000_0000 <==>
            (len == 0 && syn + fin < 2) || syn + fin == 0)
      && (len == 0 && syn + fin == 2 ==> NextSeq(s, flags, len).seqNo == (s.seqNo + 1) % 0x1_0000_0000)
      && (len > 0 ==> NextSeq(s, flags, len).seqNo == (s.seqNo + len) % 0x1_0000_0000)
  {
  }

  lemma SumEmpty(b: seq<byte>)
    ensures Sum(b[..0]) == 0
  {
  }

  lemma LowWord(f: nat)
    requires f < 0x10000
    ensures (0xFFFF_FFFF - f) % 0x10000 == Comp(f)
  {
    assert 0xFFFF_FFFF - f == 0xFFFF * 0x10000 + Comp(f);
  }

  lemma BytesOfU32(x: nat)
    requires x < 0x1_0000_0000
    ensures x / 0x100_0000 < 256
    ensures 0x10000 * (256 * (x / 0x100_0000) + x / 0x10000 % 256) + (256 * (x / 256 % 256) + x % 256) == x
  {
    var a, b, c, d := x / 0x100_0000, x / 0x10000, x / 256, x % 256;
    assert x == 256 * c + d;
    assert c == 256 * b + c % 256 && b == 256 * a + b % 256;
  }

  lemma LowHalf(f: nat)
    requires f < 0x10000
    ensures Word((0xFFFF_FFFF - f) / 256 % 256, (0xFFFF_FFFF - f) % 256) == Comp(f)
  {
    assert 0xFFFF_FFFF - f == 0xFFFF * 0x10000 + Comp(f);
  }

  lemma PseudoIs(p: seq<byte>, s: Socket, tcpLen: nat)
    requires SocketOk(s) && |p| >= 34 && 20 <= tcpLen <= 2014
    requires IpFields(p, s, tcpLen - 20)
    ensures PseudoSum(p) == Word(10, 0) + Word(2, 15) + Word(s.remoteIp[0], s.remoteIp[1])
      + Word(s.remoteIp[2], s.remoteIp[3]) + 6 + tcpLen
  {
    var a, b: seq<byte> := [10, 0, 2, 15], s.remoteIp;
    assert p[26..34] == a + b;
    SumConcat(a, b);
    SumFour(a);
    SumFour(b);
  }

  lemma SumFour(b: seq<byte>)
    requires |b| == 4
    ensures Sum(b) == Word(b[0], b[1]) + Word(b[2], b[3])
  {
    var c := b[2..];
    assert c[2..] == [];
    assert Sum(c) == Word(c[0], c[1]);
  }

  lemma SamePseudo(p: seq<byte>, q: seq<byte>)
    requires |p| >= 34 && |q| >= 34 && forall i :: 0 <= i < 34 ==> p[i] == q[i]
    ensures PseudoSum(p) == PseudoSum(q)
  {
    assert p[26..34] == q[26..34];
  }

  lemma SameIpHeader(p: seq<byte>, q: seq<byte>)
    requires |p| >= 34 && |q| >= 34 && forall i :: 0 <= i < 34 ==> p[i] == q[i]
    ensures IpHeaderChecks(p) == IpHeaderChecks(q)
  {
    assert p[14..34] == q[14..34];
  }

  /** The checks look at the packet up to the end of the segment only. */
  lemma ChecksOnPrefix(p: seq<byte>, q: seq<byte>)
    requires 34 <= |q| && q <= p && 34 <= 14 + Word(q[16], q[17]) <= |q|
    ensures p[16] == q[16] && p[17] == q[17]
    ensures IpHeaderChecks(p) ==> IpHeaderChecks(q)
    ensures SegmentChecks(p) ==> SegmentChecks(q)
  {
    var n := 14 + Word(q[16], q[17]);
    assert p[14..34] == q[14..34] && p[34..n] == q[34..n];
    SamePseudo(p, q);
  }
}
