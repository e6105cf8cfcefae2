/** What a host makes of a frame it receives: Ethernet, IPv4 (section 3.1 of RFC 791) and
    TCP (section 3.1 of RFC 793), with both checksums. */
module TcpReceiver {
  import opened Bytes
  import opened ChecksumSpec

  datatype Option<T> = None | Some(value: T)

  datatype Segment = Segment(toMac: seq<byte>, fromMac: seq<byte>, ident: nat, keepWhole: bool, hops: byte,
                             from: seq<byte>, to: seq<byte>, fromPort: nat, toPort: nat,
                             seqNo: nat, ackNo: nat, flags: byte, window: nat, payload: seq<byte>)

  function Number(p: seq<byte>, o: nat): nat
    requires o + 4 <= |p|
  {
    0x10000 * Word(p[o], p[o + 1]) + Word(p[o + 2], p[o + 3])
  }

  /** An unfragmented IPv4 packet whose header of `n` bytes checks, `total` bytes long. */
  predicate Datagram(p: seq<byte>, n: nat, total: nat) {
    && 34 <= |p| && 20 <= n && n + 20 <= total && 14 + total <= |p|
    && Word(p[12], p[13]) == 0x0800 && p[14] / 16 == 4 && p[14] % 16 * 4 == n && Word(p[16], p[17]) == total
    && Word(p[20], p[21]) % 0x4000 == 0 && p[22] > 0 && p[23] == 6
    && Fold(Sum(p[14..14 + n])) == 0xFFFF
  }

  /** The segment behind it, with the pseudo-header of its addresses. */
  predicate Checks(p: seq<byte>, n: nat, total: nat)
    requires 34 <= |p| && 20 <= n && n + 20 <= total && 14 + total <= |p|
  {
    Fold(Sum(p[26..34]) + 6 + (total - n) + Sum(p[14 + n..14 + total])) == 0xFFFF
  }

  function Received(p: seq<byte>): Option<Segment> {
    if |p| < 34 then None else
    var n, total := p[14] % 16 * 4, Word(p[16], p[17]);
    if !Datagram(p, n, total) || !Checks(p, n, total) then None else
    var t := 14 + n;
    var behind := t + p[t + 12] / 16 * 4;
    if behind < t + 20 || behind > 14 + total then None else
    Some(Segment(p[0..6], p[6..12], Word(p[18], p[19]), p[20] / 64 % 2 == 1, p[22], p[26..30], p[30..34],
                 Word(p[t], p[t + 1]), Word(p[t + 2], p[t + 3]),
                 Number(p, t + 4), Number(p, t + 8), p[t + 13], Word(p[t + 14], p[t + 15]), p[behind..14 + total]))
  }
}
