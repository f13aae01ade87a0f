/** The receiving side of a TCP connection (src/net.c:1034-1171, 1499-1512) against sections 3.4 and 3.10.7.4 of
    RFC 9293: what reaches the application when the network drops, repeats and reorders the peer's segments. */
module Tcp {
  import opened Machine

  datatype Status = Closed | SynSent | SynRecv | Established | FinWait

  datatype Flags = Flags(ack: bool, psh: bool, rst: bool, syn: bool, fin: bool)

  datatype Segment = Segment(seqNum: u32, ackNum: u32, flags: Flags, data: seq<byte>)

  const ACK := Flags(true, false, false, false, false)
  const SYN_ACK := Flags(true, false, false, true, false)
  const FIN_ACK := Flags(true, false, false, false, true)

  /** The fields of a socket that receiving touches; `received` is what tcp_to_app has appended so far. */
  datatype Sock = Sock(status: Status, seqNum: u32, ackNum: u32, received: seq<byte>)

  // ---- what a segment does ----------------------------------------------------------------------------

  /** The test in front of the state machine: the segment is the next one, and it acknowledges all that was sent. */
  predicate Accepts(s: Sock, g: Segment) {
    s.status == SynSent || (g.seqNum == s.ackNum && g.ackNum == s.seqNum && g.flags.ack)
  }

  /** The data of the segment goes to the application. */
  predicate Delivers(s: Sock, g: Segment) {
    match s.status
    case Established => g.flags.ack
    case FinWait => g.flags == FIN_ACK || g.flags == ACK
    case _ => false
  }

  function NextStatus(s: Sock, g: Segment): Status {
    match s.status
    case SynSent => if g.flags == SYN_ACK then Established else SynSent
    case SynRecv => if g.flags == ACK then Established else Closed
    case Established => if g.flags == FIN_ACK then Closed else Established
    case FinWait => if g.flags == FIN_ACK then Closed else FinWait
    case Closed => Closed
  }

  function NextAck(s: Sock, g: Segment): u32 {
    if s.status == SynSent && g.flags == SYN_ACK then Add32(g.seqNum, 1)
    else Add32(s.ackNum, |g.data| + if g.flags.fin || g.flags.syn then 1 else 0)
  }

  /** The socket after a segment; `sent` is what the replies add to the socket's own sequence number. A closed socket is
      no longer found. */
  function After(s: Sock, g: Segment, sent: u32): Sock {
    if s.status == Closed then s
    else if g.flags.rst then s.(status := Closed)
    else if !Accepts(s, g) then s
    else Sock(NextStatus(s, g), Add32(s.seqNum, sent), NextAck(s, g), if Delivers(s, g) then s.received + g.data
              else s.received)
  }

  class Socket {
    var status: Status
    var flagAck: bool
    var seqNum: u32
    var ackNum: u32
    var bufRecv: seq<byte>

    constructor (status: Status, seqNum: u32, ackNum: u32)
      ensures Now() == Sock(status, seqNum, ackNum, [])
    {
      this.status, this.seqNum, this.ackNum, bufRecv, flagAck := status, seqNum, ackNum, [], false;
    }

    function Now(): Sock
      reads this
    {
      Sock(status, seqNum, ackNum, bufRecv)
    }

    /** tcp_to_app */
    method ToApp(data: seq<byte>)
      modifies this`bufRecv
      ensures bufRecv == old(bufRecv) + data
    {
      bufRecv := bufRecv + data;
    }

    /** tcp_xmit and tcp_from_app, as far as the receiver is concerned: the socket's own sequence number grows. */
    method Sent(sent: u32)
      modifies this`seqNum
      ensures seqNum == Add32(old(seqNum), sent)
    {
      seqNum := Add32(seqNum, sent);
    }

    /** The part of Tcp_Recv for a connection that has been found. The clauses behind the first one say the same field
        by field: a reset closes; behind the SYN only the next segment that acknowledges everything is taken; an open
        connection gets its data and is closed by FIN; data while opening is dropped. */
    method Recv(g: Segment, sent: u32)
      requires status != Closed
      modifies this
      ensures Now() == After(old(Now()), g, sent)
      ensures g.flags.rst ==>
        status == Closed && seqNum == old(seqNum) && ackNum == old(ackNum) && bufRecv == old(bufRecv)
      ensures !g.flags.rst && old(status) != SynSent
              && !(g.seqNum == old(ackNum) && g.ackNum == old(seqNum) && g.flags.ack) ==>
        status == old(status) && seqNum == old(seqNum) && ackNum == old(ackNum) && bufRecv == old(bufRecv)
      ensures !g.flags.rst && old(status) != SynSent && g.seqNum == old(ackNum) && g.ackNum == old(seqNum)
              && g.flags.ack ==>
        && ackNum == Add32(old(ackNum), |g.data| + if g.flags.fin || g.flags.syn then 1 else 0)
        && (old(status) == Established ==>
              bufRecv == old(bufRecv) + g.data && status == if g.flags == FIN_ACK then Closed else Established)
        && (old(status) == SynRecv ==>
              bufRecv == old(bufRecv) && status == if g.flags == ACK then Established else Closed)
        && (old(status) == FinWait ==>
              && bufRecv == (if g.flags == FIN_ACK || g.flags == ACK then old(bufRecv) + g.data else old(bufRecv))
              && status == if g.flags == FIN_ACK then Closed else FinWait)
      ensures !g.flags.rst && old(status) == SynSent ==>
        && bufRecv == old(bufRecv)
        && (if g.flags == SYN_ACK then status == Established && ackNum == Add32(g.seqNum, 1) else status == SynSent)
    {
      if g.flags.rst {
        status := Closed;
        return;
      }
      if status != SynSent {
        if g.seqNum != ackNum || g.ackNum != seqNum || !g.flags.ack {
          return;
        }
      }
      ghost var was := ackNum;
      ackNum := Add32(ackNum, |g.data|);
      if g.flags.fin || g.flags.syn {
        ackNum := Add32(ackNum, 1);
      }
      AddTwice(was, |g.data|);
      Sent(sent);
      match status
      case SynSent =>
        if g.flags != SYN_ACK {
          return;
        }
        ackNum := Add32(g.seqNum, 1);
        status := Established;
      case SynRecv =>
        status := if g.flags != ACK then Closed else Established;
      case Established =>
        if g.flags == FIN_ACK {
          if |g.data| > 0 {
            ToApp(g.data);
          }
          status := Closed;
        } else if g.flags.ack {
          if |g.data| > 0 {
            ToApp(g.data);
          }
        }
      case FinWait =>
        if g.flags == FIN_ACK {
          if |g.data| > 0 {
            ToApp(g.data);
          }
          status := Closed;
        } else if g.flags == ACK && |g.data| > 0 {
          ToApp(g.data);
        }
      case Closed =>
    }
  }

  lemma AddTwice(x: u32, n: nat)
    ensures Add32(Add32(x, n), 1) == Add32(x, n + 1)
  {
  }

  // ---- the peer ------------------------------------------------------------------------------------------

  /** What an honest peer with initial sequence number `isn` and byte stream `stream` may ever send: its SYN, pieces of
      the stream at their place, and FIN only behind the last byte. It may also reset. */
  predicate Honest(isn: u32, stream: seq<byte>, g: Segment, off: nat) {
    || g.flags.rst
    || (g.flags.syn && !g.flags.fin && g.seqNum == isn && g.data == [])
    || (&& !g.flags.syn && off + |g.data| <= |stream| && g.data == stream[off..off + |g.data|]
        && g.seqNum == Add32(isn, 1 + off) && (g.flags.fin ==> off + |g.data| == |stream|))
  }

  /** Which of the peer's SYN and FIN the socket has taken. */
  datatype Seen = Seen(syn: bool, fin: bool)

  function SeenAfter(s: Sock, g: Segment, seen: Seen): Seen {
    if s.status == Closed || g.flags.rst || !Accepts(s, g) then seen
    else if s.status == SynSent then seen.(syn := seen.syn || g.flags == SYN_ACK)
    else seen.(fin := seen.fin || g.flags.fin)
  }

  /** The bytes delivered are the beginning of the stream, all of it once FIN has been taken, and ack_num is the next
      number expected: ISN + 1 + delivered, plus 1 once FIN has been taken. */
  ghost predicate InOrder(isn: u32, stream: seq<byte>, s: Sock, seen: Seen) {
    && s.received <= stream && (seen.fin ==> seen.syn && s.received == stream)
    && (if seen.syn then s.ackNum == Add32(isn, |s.received| + if seen.fin then 2 else 1) else s.received == [])
    && (s.status == SynSent ==> !seen.syn) && (s.status != SynSent && s.status != Closed ==> seen.syn)
    && (s.status == SynRecv ==> s.received == [] && !seen.fin)
  }

  /** The segment is taken and its data is acknowledged, but nobody gets it. */
  predicate Loses(s: Sock, g: Segment) {
    s.status != Closed && s.status != SynSent && !g.flags.rst && Accepts(s, g) && |g.data| > 0 && !Delivers(s, g)
  }

  /** Losing happens in two places: with data on the segment that completes or breaks off a passive open, and with
      pushed data in FIN_WAIT. */
  lemma LosesWhere(s: Sock, g: Segment)
    ensures Loses(s, g) <==> && g.data != [] && Accepts(s, g) && !g.flags.rst
                             && (s.status == SynRecv || (s.status == FinWait && g.flags != ACK && g.flags != FIN_ACK))
  {
  }

  /** Sequence numbers less than 2^32 apart name different bytes. */
  lemma SameOffset(isn: u32, a: nat, b: nat)
    requires Add32(isn, a) == Add32(isn, b) && -WORD_LIMIT < a - b < WORD_LIMIT
    ensures a == b
  {
  }

  lemma AddOffset(isn: u32, a: nat, n: nat)
    ensures Add32(Add32(isn, a), n) == Add32(isn, a + n)
  {
  }

  lemma GrowPrefix(stream: seq<byte>, got: seq<byte>, n: nat)
    requires got <= stream && |got| + n <= |stream|
    ensures got + stream[|got|..|got| + n] == stream[..|got| + n]
  {
  }

  /** An accepted data segment starts exactly at the first byte that is missing, and none is accepted behind FIN. */
  lemma AcceptedInOrder(isn: u32, stream: seq<byte>, s: Sock, g: Segment, off: nat, seen: Seen)
    requires |stream| + 2 < WORD_LIMIT && Honest(isn, stream, g, off) && !g.flags.rst && InOrder(isn, stream, s, seen)
    requires s.status != SynSent && s.status != Closed && Accepts(s, g)
    ensures !g.flags.syn && off == |s.received| && s.ackNum == Add32(isn, 1 + off) && !seen.fin
  {
    assert Add32(isn, 0) == isn;
    SameOffset(isn, if g.flags.syn then 0 else 1 + off, |s.received| + if seen.fin then 2 else 1);
  }

  lemma AckGrows(isn: u32, s: Sock, g: Segment, n: nat)
    requires s.status != SynSent && s.ackNum == Add32(isn, 1 + n) && !g.flags.syn
    ensures NextAck(s, g) == Add32(isn, n + |g.data| + if g.flags.fin then 2 else 1)
  {
    AddOffset(isn, 1 + n, if g.flags.fin then |g.data| + 1 else |g.data|);
  }

  /** A taken segment behind the SYN keeps the order exactly if its data is delivered. */
  lemma TakenInOrder(isn: u32, stream: seq<byte>, s: Sock, g: Segment, off: nat, sent: u32, seen: Seen)
    requires |stream| + 2 < WORD_LIMIT && Honest(isn, stream, g, off) && InOrder(isn, stream, s, seen) && !g.flags.rst
    requires s.status != SynSent && s.status != Closed && Accepts(s, g)
    ensures InOrder(isn, stream, After(s, g, sent), SeenAfter(s, g, seen)) <==> !Loses(s, g)
  {
    AcceptedInOrder(isn, stream, s, g, off, seen);
    var n, d, k := |s.received|, |g.data|, if g.flags.fin then 2 else 1;
    AckGrows(isn, s, g, n);
    if Delivers(s, g) {
      GrowPrefix(stream, s.received, d);
    } else if d > 0 && Add32(isn, n + d + k) == Add32(isn, n + k) {
      SameOffset(isn, n + d + k, n + k);
    }
  }

  /** Every segment of an honest peer keeps the order, exactly unless its data is lost. */
  lemma StepInOrder(isn: u32, stream: seq<byte>, s: Sock, g: Segment, off: nat, sent: u32, seen: Seen)
    requires |stream| + 2 < WORD_LIMIT && Honest(isn, stream, g, off) && InOrder(isn, stream, s, seen)
    ensures InOrder(isn, stream, After(s, g, sent), SeenAfter(s, g, seen)) <==> !Loses(s, g)
  {
    if s.status != SynSent && s.status != Closed && !g.flags.rst && Accepts(s, g) {
      TakenInOrder(isn, stream, s, g, off, sent, seen);
    }
  }

  // ---- the network ------------------------------------------------------------------------------------------

  /** What arrives: any of the peer's segments, any number of times, in any order. `off` says which piece it is. */
  datatype Arrival = Arrival(segment: Segment, off: nat, sent: u32)

  /** The socket after the first `n` arrivals. */
  function AfterFirst(s: Sock, net: seq<Arrival>, n: nat): Sock
    requires n <= |net|
  {
    if n == 0 then s else After(AfterFirst(s, net, n - 1), net[n - 1].segment, net[n - 1].sent)
  }

  /** What of the peer's SYN and FIN it has taken by then. */
  function SeenFirst(s: Sock, net: seq<Arrival>, n: nat): Seen
    requires n <= |net|
  {
    if n == 0 then Seen(s.status != SynSent, false)
    else SeenAfter(AfterFirst(s, net, n - 1), net[n - 1].segment, SeenFirst(s, net, n - 1))
  }

  ghost predicate HonestNet(isn: u32, stream: seq<byte>, net: seq<Arrival>) {
    forall j :: 0 <= j < |net| ==> Honest(isn, stream, net[j].segment, net[j].off)
  }

  /** Arrival `j` loses data. */
  predicate LosesAt(s: Sock, net: seq<Arrival>, j: nat) {
    j < |net| && Loses(AfterFirst(s, net, j), net[j].segment)
  }

  lemma {:induction false} NetInOrder(isn: u32, stream: seq<byte>, s: Sock, net: seq<Arrival>, n: nat)
    requires |stream| + 2 < WORD_LIMIT && HonestNet(isn, stream, net) && n <= |net|
    requires InOrder(isn, stream, s, Seen(s.status != SynSent, false)) && forall j: nat :: j < n ==> !LosesAt(s, net, j)
    ensures InOrder(isn, stream, AfterFirst(s, net, n), SeenFirst(s, net, n))
  {
    if n > 0 {
      NetInOrder(isn, stream, s, net, n - 1);
      assert !LosesAt(s, net, n - 1);
      StepInOrder(isn, stream, AfterFirst(s, net, n - 1), net[n - 1].segment, net[n - 1].off, net[n - 1].sent,
                  SeenFirst(s, net, n - 1));
    }
  }

  /** Arrival `j` brings no data before the connection is established. */
  predicate DataFree(s: Sock, net: seq<Arrival>, j: nat) {
    j < |net| && AfterFirst(s, net, j).status == SynRecv ==> net[j].segment.data == []
  }

  /** While the application side does not close and the handshake ACK carries no data, nothing can get lost. */
  lemma {:induction false} OpenLosesNothing(s: Sock, net: seq<Arrival>, n: nat)
    requires s.status == SynSent || s.status == SynRecv || s.status == Established
    requires n <= |net| && forall j: nat :: DataFree(s, net, j)
    ensures AfterFirst(s, net, n).status != FinWait && !LosesAt(s, net, n)
  {
    if n > 0 {
      OpenLosesNothing(s, net, n - 1);
    }
    assert DataFree(s, net, n);
  }

  /** In-order delivery: whatever the network does with the segments of an honest peer, the bytes the application has
      got are a prefix of the peer's stream, and the whole stream once FIN has been taken, which closes the connection
      or leaves it open; and ack_num names the first number that is missing. */
  lemma InOrderDelivery(isn: u32, stream: seq<byte>, s: Sock, net: seq<Arrival>)
    requires |stream| + 2 < WORD_LIMIT && HonestNet(isn, stream, net) && s.received == []
    requires s.status == SynSent || (s.status == SynRecv && s.ackNum == Add32(isn, 1))
    requires forall j: nat :: DataFree(s, net, j)
    ensures var r, seen := AfterFirst(s, net, |net|), SeenFirst(s, net, |net|);
      && r.received <= stream && (r.status == Established ==> seen.syn)
      && (seen.syn && !seen.fin ==> r.ackNum == Add32(isn, 1 + |r.received|))
      && (seen.fin ==> seen.syn && r.received == stream && r.ackNum == Add32(isn, 1 + |stream| + 1))
  {
    forall j: nat | j < |net| ensures !LosesAt(s, net, j) {
      OpenLosesNothing(s, net, j);
    }
    NetInOrder(isn, stream, s, net, |net|);
  }

  // ---- what arrives gets through ---------------------------------------------------------------------------

  /** Arrivals in the order in which they come. */
  ghost predicate Picked(net: seq<Arrival>, idx: seq<nat>) {
    (forall i :: 0 <= i < |idx| ==> idx[i] < |net|) && forall i, j :: 0 <= i < j < |idx| ==> idx[i] < idx[j]
  }

  /** On arrival `j` the connection is open, and it is the next segment and acknowledges everything. */
  predicate InTurn(s: Sock, net: seq<Arrival>, j: nat) {
    j < |net| &&
    var t, g := AfterFirst(s, net, j), net[j].segment;
    t.status == Established && !g.flags.rst && g.flags.ack && g.seqNum == t.ackNum && g.ackNum == t.seqNum
  }

  /** The data of the arrivals that `idx` names, one behind the other. */
  ghost function Pieces(net: seq<Arrival>, idx: seq<nat>, n: nat): seq<byte>
    requires n <= |idx| && Picked(net, idx)
  {
    if n == 0 then [] else Pieces(net, idx, n - 1) + net[idx[n - 1]].segment.data
  }

  lemma {:induction false} ReceivedGrows(s: Sock, net: seq<Arrival>, n: nat, m: nat)
    requires n <= m <= |net|
    ensures |AfterFirst(s, net, n).received| <= |AfterFirst(s, net, m).received|
  {
    if n < m {
      ReceivedGrows(s, net, n, m - 1);
    }
  }

  lemma {:induction false} PiecesGetThrough(s: Sock, net: seq<Arrival>, idx: seq<nat>, n: nat)
    requires 0 < n <= |idx| && Picked(net, idx)
    requires forall i: nat :: i < |idx| ==> InTurn(s, net, idx[i])
    ensures |AfterFirst(s, net, idx[n - 1] + 1).received| >= |Pieces(net, idx, n)|
  {
    var k := idx[n - 1];
    assert AfterFirst(s, net, k + 1).received == AfterFirst(s, net, k).received + net[k].segment.data;
    if n > 1 {
      PiecesGetThrough(s, net, idx, n - 1);
      ReceivedGrows(s, net, idx[n - 2] + 1, k);
    }
  }

  lemma AllGetThrough(s: Sock, net: seq<Arrival>, idx: seq<nat>)
    requires Picked(net, idx) && forall i: nat :: i < |idx| ==> InTurn(s, net, idx[i])
    ensures |AfterFirst(s, net, |net|).received| >= |Pieces(net, idx, |idx|)|
  {
    if |idx| > 0 {
      PiecesGetThrough(s, net, idx, |idx|);
      ReceivedGrows(s, net, idx[|idx| - 1] + 1, |net|);
    }
  }

  /** A connection is opened with an honest peer, and no data arrives before it is open. */
  ghost predicate Opening(isn: u32, stream: seq<byte>, s: Sock, net: seq<Arrival>) {
    && |stream| + 2 < WORD_LIMIT && HonestNet(isn, stream, net) && s.received == []
    && (s.status == SynSent || (s.status == SynRecv && s.ackNum == Add32(isn, 1)))
    && forall j: nat :: DataFree(s, net, j)
  }

  lemma OpeningInOrder(isn: u32, stream: seq<byte>, s: Sock, net: seq<Arrival>)
    requires Opening(isn, stream, s, net)
    ensures AfterFirst(s, net, |net|).received <= stream
  {
    InOrderDelivery(isn, stream, s, net);
  }

  /** If segments that make up the stream arrive, each when it is the next one, the whole stream is delivered, whatever
      arrives in between. */
  lemma Delivered(isn: u32, stream: seq<byte>, s: Sock, net: seq<Arrival>, idx: seq<nat>)
    requires Opening(isn, stream, s, net) && Picked(net, idx)
    requires (forall i: nat :: i < |idx| ==> InTurn(s, net, idx[i])) && Pieces(net, idx, |idx|) == stream
    ensures AfterFirst(s, net, |net|).received == stream
  {
    OpeningInOrder(isn, stream, s, net);
    AllGetThrough(s, net, idx);
    PrefixAll(AfterFirst(s, net, |net|).received, stream);
  }

  lemma PrefixAll(got: seq<byte>, stream: seq<byte>)
    requires got <= stream && |got| >= |stream|
    ensures got == stream
  {
  }

  /** The peer cuts its stream at `cuts`. */
  ghost predicate Cut(stream: seq<byte>, cuts: seq<nat>) {
    && |cuts| > 0 && cuts[0] == 0 && cuts[|cuts| - 1] == |stream|
    && forall i, j :: 0 <= i < j < |cuts| ==> cuts[i] < cuts[j]
  }

  /** Arrival `a` is piece `k`. */
  predicate IsPiece(cuts: seq<nat>, a: Arrival, k: nat) {
    k + 1 < |cuts| && a.off == cuts[k] && a.off + |a.segment.data| == cuts[k + 1]
  }

  /** Arrival `j` is piece `k`, and it acknowledges what socket `s` has sent. */
  predicate PieceAt(s: Sock, net: seq<Arrival>, cuts: seq<nat>, j: nat, k: nat) {
    j < |net| && IsPiece(cuts, net[j], k) &&
    var g := net[j].segment;
    g.flags.ack && !g.flags.syn && g.ackNum == s.seqNum
  }

  /** No reset, no FIN, and all data comes in whole pieces; what the socket sends meanwhile carries no data. */
  ghost predicate Whole(cuts: seq<nat>, net: seq<Arrival>) {
    forall j :: 0 <= j < |net| ==>
      && !net[j].segment.flags.rst && !net[j].segment.flags.fin && net[j].sent == 0
      && (net[j].segment.data != [] ==> exists k: nat :: IsPiece(cuts, net[j], k))
  }

  /** The socket has exactly the first `m` pieces. */
  predicate Got(isn: u32, stream: seq<byte>, cuts: seq<nat>, seqNum: u32, t: Sock, m: nat) {
    && m < |cuts| && cuts[m] <= |stream| && t.status == Established && t.seqNum == seqNum
    && t.received == stream[..cuts[m]] && t.ackNum == Add32(isn, 1 + cuts[m])
  }

  /** An arrival is the next piece, or it changes nothing. */
  lemma PieceArrives(isn: u32, stream: seq<byte>, cuts: seq<nat>, t: Sock, a: Arrival, m: nat)
    requires |stream| + 2 < WORD_LIMIT && Cut(stream, cuts) && Whole(cuts, [a]) && Honest(isn, stream, a.segment, a.off)
    requires Got(isn, stream, cuts, t.seqNum, t, m)
    ensures var t' := After(t, a.segment, a.sent);
      || (Got(isn, stream, cuts, t.seqNum, t', m)
          && !(IsPiece(cuts, a, m) && a.segment.flags.ack && a.segment.ackNum == t.seqNum && !a.segment.flags.syn))
      || (m + 1 < |cuts| && Got(isn, stream, cuts, t.seqNum, t', m + 1))
  {
    var g := a.segment;
    assert [a][0] == a;
    if g.seqNum == t.ackNum && g.ackNum == t.seqNum && g.flags.ack {
      assert InOrder(isn, stream, t, Seen(true, false));
      AcceptedInOrder(isn, stream, t, g, a.off, Seen(true, false));
      if g.data != [] {
        var k: nat :| IsPiece(cuts, a, k);
        assert k == m;
        NextPiece(isn, stream, cuts, t, a, m);
      } else if m + 1 < |cuts| {
        assert cuts[m] < cuts[m + 1];
      }
    }
  }

  lemma NextPiece(isn: u32, stream: seq<byte>, cuts: seq<nat>, t: Sock, a: Arrival, m: nat)
    requires Got(isn, stream, cuts, t.seqNum, t, m) && IsPiece(cuts, a, m) && cuts[m + 1] <= |stream| && a.sent == 0
    requires var g := a.segment;
      && g.seqNum == t.ackNum && g.ackNum == t.seqNum && g.flags.ack && !g.flags.rst && !g.flags.syn && !g.flags.fin
      && g.data == stream[a.off..a.off + |g.data|]
    ensures Got(isn, stream, cuts, t.seqNum, After(t, a.segment, a.sent), m + 1)
  {
    AddOffset(isn, 1 + cuts[m], |a.segment.data|);
    GrowPrefix(stream, t.received, |a.segment.data|);
  }

  lemma {:induction false} PiecesArrive(isn: u32, stream: seq<byte>, cuts: seq<nat>, s: Sock, net: seq<Arrival>, n: nat)
      returns (m: nat)
    requires |stream| + 2 < WORD_LIMIT && Cut(stream, cuts) && Whole(cuts, net) && HonestNet(isn, stream, net)
    requires Got(isn, stream, cuts, s.seqNum, s, 0) && n <= |net|
    ensures Got(isn, stream, cuts, s.seqNum, AfterFirst(s, net, n), m)
  {
    if n == 0 {
      return 0;
    }
    m := PiecesArrive(isn, stream, cuts, s, net, n - 1);
    var t, a := AfterFirst(s, net, n - 1), net[n - 1];
    assert Whole(cuts, [a]);
    PieceArrives(isn, stream, cuts, t, a, m);
    if !Got(isn, stream, cuts, s.seqNum, AfterFirst(s, net, n), m) {
      m := m + 1;
    }
  }

  lemma CutsOrder(stream: seq<byte>, cuts: seq<nat>, i: nat, j: nat)
    requires Cut(stream, cuts) && i < |cuts| && j < |cuts|
    ensures cuts[i] <= cuts[j] <==> i <= j
  {
  }

  /** Piece `n` - 1 and all before it have come through once they have arrived in this order. */
  lemma {:induction false} PiecesTaken(isn: u32, stream: seq<byte>, cuts: seq<nat>, s: Sock, net: seq<Arrival>,
                                       idx: seq<nat>, n: nat)
    requires |stream| + 2 < WORD_LIMIT && Cut(stream, cuts) && Whole(cuts, net) && HonestNet(isn, stream, net)
    requires Got(isn, stream, cuts, s.seqNum, s, 0) && |idx| + 1 == |cuts| && 0 < n <= |idx|
    requires Picked(net, idx)
    requires forall i: nat :: i < |idx| ==> PieceAt(s, net, cuts, idx[i], i)
    ensures |AfterFirst(s, net, idx[n - 1] + 1).received| >= cuts[n]
  {
    var k := idx[n - 1];
    if n > 1 {
      PiecesTaken(isn, stream, cuts, s, net, idx, n - 1);
      ReceivedGrows(s, net, idx[n - 2] + 1, k);
    }
    PieceTaken(isn, stream, cuts, s, net, k, n - 1);
  }

  /** Piece `i` comes through when it arrives behind the pieces before it. */
  lemma PieceTaken(isn: u32, stream: seq<byte>, cuts: seq<nat>, s: Sock, net: seq<Arrival>, k: nat, i: nat)
    requires |stream| + 2 < WORD_LIMIT && Cut(stream, cuts) && Whole(cuts, net) && HonestNet(isn, stream, net)
    requires Got(isn, stream, cuts, s.seqNum, s, 0) && k < |net| && i + 1 < |cuts| && PieceAt(s, net, cuts, k, i)
    requires |AfterFirst(s, net, k).received| >= cuts[i]
    ensures |AfterFirst(s, net, k + 1).received| >= cuts[i + 1]
  {
    var m := PiecesArrive(isn, stream, cuts, s, net, k);
    var t := AfterFirst(s, net, k);
    CutsOrder(stream, cuts, i, m);
    CutsOrder(stream, cuts, i + 1, m);
    assert Whole(cuts, [net[k]]);
    if m > i {
      ReceivedGrows(s, net, k, k + 1);
    } else {
      PieceArrives(isn, stream, cuts, t, net[k], m);
    }
  }

  /** An open connection with an honest peer that cuts its stream once. */
  ghost predicate Segmented(isn: u32, stream: seq<byte>, cuts: seq<nat>, s: Sock, net: seq<Arrival>) {
    && |stream| + 2 < WORD_LIMIT && Cut(stream, cuts) && Whole(cuts, net) && HonestNet(isn, stream, net)
    && s.status == Established && s.received == [] && s.ackNum == Add32(isn, 1)
  }

  lemma SegmentedInOrder(isn: u32, stream: seq<byte>, cuts: seq<nat>, s: Sock, net: seq<Arrival>)
    requires Segmented(isn, stream, cuts, s, net)
    ensures AfterFirst(s, net, |net|).received <= stream && Got(isn, stream, cuts, s.seqNum, s, 0)
  {
    assert Got(isn, stream, cuts, s.seqNum, s, 0);
    var m := PiecesArrive(isn, stream, cuts, s, net, |net|);
  }

  lemma SegmentedTaken(isn: u32, stream: seq<byte>, cuts: seq<nat>, s: Sock, net: seq<Arrival>, idx: seq<nat>)
    requires Segmented(isn, stream, cuts, s, net) && Picked(net, idx) && |idx| + 1 == |cuts|
    requires forall i: nat :: i < |idx| ==> PieceAt(s, net, cuts, idx[i], i)
    ensures |AfterFirst(s, net, |net|).received| >= |stream|
  {
    SegmentedInOrder(isn, stream, cuts, s, net);
    if |idx| > 0 {
      PiecesTaken(isn, stream, cuts, s, net, idx, |idx|);
      ReceivedGrows(s, net, idx[|idx| - 1] + 1, |net|);
    }
  }

  /** Retransmission works: if the peer cuts its stream once and the network lets every piece through at least once in
      the order of the stream, the whole stream is delivered, whatever else it drops, repeats or reorders. */
  lemma Retransmitted(isn: u32, stream: seq<byte>, cuts: seq<nat>, s: Sock, net: seq<Arrival>, idx: seq<nat>)
    requires Segmented(isn, stream, cuts, s, net) && Picked(net, idx) && |idx| + 1 == |cuts|
    requires forall i: nat :: i < |idx| ==> PieceAt(s, net, cuts, idx[i], i)
    ensures AfterFirst(s, net, |net|).received == stream
  {
    SegmentedInOrder(isn, stream, cuts, s, net);
    SegmentedTaken(isn, stream, cuts, s, net, idx);
    PrefixAll(AfterFirst(s, net, |net|).received, stream);
  }

  /** One byte of data on the handshake ACK is acknowledged and never delivered. */
  lemma HandshakeDataLost(isn: u32, seqNum: u32, b: byte)
    ensures var s := Sock(SynRecv, seqNum, Add32(isn, 1), []);
      var g := Segment(Add32(isn, 1), seqNum, ACK, [b]);
      && Honest(isn, [b], g, 0) && After(s, g, 0) == Sock(Established, seqNum, Add32(isn, 2), [])
  {
    AddOffset(isn, 1, 1);
    assert [b][0..1] == [b];
  }

  /** So is a byte of pushed data in FIN_WAIT. */
  lemma FinWaitDataLost(isn: u32, seqNum: u32, b: byte)
    ensures var s := Sock(FinWait, seqNum, Add32(isn, 1), []);
      var g := Segment(Add32(isn, 1), seqNum, ACK.(psh := true), [b]);
      && Honest(isn, [b], g, 0) && After(s, g, 0) == Sock(FinWait, seqNum, Add32(isn, 2), [])
  {
    AddOffset(isn, 1, 1);
    assert [b][0..1] == [b];
  }
}
