/**
 * Messages as the kernel lays them out, and what the router makes of them.
 *
 * `Message` builds a datagram from a message type, a family header and a list of
 * attributes. The lemmas here run the whole decoding path of the daemon on such
 * datagrams (header checks, attribute walk, family handler) and state the event
 * that comes out in terms of what went in.
 */
module RtnlMessages {
  import opened Wire
  import opened RtAttrs
  import opened Rtnl

  /** Netlink header (length, type, zero flags, sequence number and port id), then the family header, then the attributes. */
  function Message(kind: nat, fixed: seq<byte>, ts: seq<Tlv>): (m: seq<byte>)
    requires kind < 0x1_0000 && AllEncodable(ts)
    requires NLMSG_HDRLEN + |fixed| + |Encode(ts)| < 0x1_0000_0000
    ensures |m| == NLMSG_HDRLEN + |fixed| + |Encode(ts)|
  {
    Le32(NLMSG_HDRLEN + |fixed| + |Encode(ts)|) + Le16(kind) + seq(10, _ => 0) + fixed + Encode(ts)
  }

  predicate WellSized(kind: nat, fixed: seq<byte>, ts: seq<Tlv>)
  {
    kind < 0x1_0000 && AllEncodable(ts) && NLMSG_HDRLEN + |fixed| + |Encode(ts)| < 0x1_0000_0000
  }

  /**
   * `m` is a datagram of type `kind` whose header states its own length, holding
   * the family header `fixed` and then the encoding of `ts`; the flags, sequence
   * number and port id may be anything.
   */
  predicate LaidOut(m: seq<byte>, kind: nat, fixed: seq<byte>, ts: seq<Tlv>)
  {
    AllEncodable(ts) &&
    |m| == NLMSG_HDRLEN + |fixed| + |Encode(ts)| && NlmsgLen(m) == |m| && NlmsgType(m) == kind &&
    HoldsAt(m, NLMSG_HDRLEN, fixed) && HoldsAt(m, NLMSG_HDRLEN + |fixed|, Encode(ts))
  }

  /** A laid-out datagram passes the receive gate's NLMSG_OK for its own size. */
  lemma LaidOutPassesGate(m: seq<byte>, kind: nat, fixed: seq<byte>, ts: seq<Tlv>)
    requires LaidOut(m, kind, fixed, ts)
    ensures NlmsgOk(m, |m|)
  {
  }

  /** A built message is laid out as its parts say. */
  lemma MessageLayout(kind: nat, fixed: seq<byte>, ts: seq<Tlv>)
    requires WellSized(kind, fixed, ts)
    ensures LaidOut(Message(kind, fixed, ts), kind, fixed, ts)
  {
    var m := Message(kind, fixed, ts);
    var len := NLMSG_HDRLEN + |fixed| + |Encode(ts)|;
    var h := Le32(len) + Le16(kind) + seq(10, _ => 0);
    assert m == h + fixed + Encode(ts);
    assert HoldsAt(m, 0, m);
    SplitAt(m, 0, h + fixed, Encode(ts));
    SplitAt(m, 0, h, fixed);
    SplitAt(m, 0, Le32(len), Le16(kind) + seq(10, _ => 0));
    SplitAt(m, 4, Le16(kind), seq(10, _ => 0));
    assert m[0..4] == Le32(len) by {
      forall k | 0 <= k < 4 ensures m[0..4][k] == Le32(len)[k] {
        assert m[0 + k] == Le32(len)[k];
      }
    }
    U32OfLe32(m, 0, len);
    assert m[4] == Le16(kind)[0] && m[5] == Le16(kind)[1] by {
      assert m[4 + 0] == Le16(kind)[0] && m[4 + 1] == Le16(kind)[1];
    }
    U16OfLe16(m, 4, kind);
  }

  /** Reading through a copy: fields of bytes held at `off` read as the same fields of those bytes. */
  lemma ReadsThrough(m: seq<byte>, off: nat, s: seq<byte>)
    requires HoldsAt(m, off, s)
    ensures forall k :: 0 <= k < |s| ==> ByteAt(m, off + k) == ByteAt(s, k)
    ensures forall k :: 0 <= k && k + 2 <= |s| ==> U16(m, off + k) == U16(s, k)
    ensures forall k :: 0 <= k && k + 4 <= |s| ==> U32(m, off + k) == U32(s, k) && S32(m, off + k) == S32(s, k)
  {
    forall k | 0 <= k && k + 2 <= |s|
      ensures U16(m, off + k) == U16(s, k)
    {
      assert ByteAt(m, off + k) == ByteAt(s, k) && ByteAt(m, off + k + 1) == ByteAt(s, k + 1);
    }
    forall k | 0 <= k && k + 4 <= |s|
      ensures U32(m, off + k) == U32(s, k)
    {
      assert U16(m, off + k) == U16(s, k) && U16(m, off + k + 2) == U16(s, k + 2);
    }
  }

  /** The same for an attribute payload: its 32-bit words read as the words of the data it carries. */
  lemma PayloadWord(m: seq<byte>, s: Span, d: seq<byte>, k: nat)
    requires Payload(m, s) == d && k + 4 <= |d|
    ensures U32(m, DataOf(s) + k) == U32(d, k)
  {
    forall j | k <= j < k + 4
      ensures ByteAt(m, DataOf(s) + j) == ByteAt(d, j)
    {
      assert d[j] == Payload(m, s)[j];
    }
    assert U16(m, DataOf(s) + k) == U16(d, k);
    assert U16(m, DataOf(s) + k + 2) == U16(d, k + 2);
  }

  /** The last attribute of type `t` in `ts` is the one at index `i`. */
  predicate LastOfKind(ts: seq<Tlv>, t: nat, i: nat)
  {
    i < |ts| && ts[i].kind == t && forall j :: i < j < |ts| ==> ts[j].kind != t
  }

  predicate NoneOfKind(ts: seq<Tlv>, t: nat)
  {
    forall j :: 0 <= j < |ts| ==> ts[j].kind != t
  }

  /**
   * A link message forwards the payload of its last IFLA_WIRELESS attribute to the
   * wireless decoder, tagged with the interface index from its header, and reports
   * the administrative change its header announces.
   */
  lemma LinkMessageForwardsWireless(m: seq<byte>, kind: nat, fixed: seq<byte>, ts: seq<Tlv>, i: nat)
    requires kind in {RTM_NEWLINK, RTM_DELLINK, RTM_GETLINK}
    requires |fixed| == IFINFOMSG_LEN && LaidOut(m, kind, fixed, ts)
    requires LastOfKind(ts, IFLA_WIRELESS, i)
    ensures var r := ParseRtEvent(m);
            r.Handled? && r.outcome.LinkOutcome? && !r.unparsedBytes &&
            r.outcome.admin == AdminChanges(IfInfo(S32(fixed, 4), U32(fixed, 8) as bv32, U32(fixed, 12) as bv32)) &&
            r.outcome.attrs.wireless.Some? &&
            r.outcome.attrs.wireless.value.ifindex == S32(fixed, 4) &&
            r.outcome.attrs.wireless.value.length == |ts[i].data| &&
            forall k :: 0 <= k < |ts[i].data| ==> ByteAt(m, r.outcome.attrs.wireless.value.data + k) == ts[i].data[k]
  {
    ReadsThrough(m, NLMSG_HDRLEN, fixed);
    assert IfInfoOf(m) == IfInfo(S32(fixed, 4), U32(fixed, 8) as bv32, U32(fixed, 12) as bv32) by {
      assert S32(m, NLMSG_HDRLEN + 4) == S32(fixed, 4);
      assert U32(m, NLMSG_HDRLEN + 8) == U32(fixed, 8);
      assert U32(m, NLMSG_HDRLEN + 12) == U32(fixed, 12);
    }
    DecodeEncodeLastWins(m, NLMSG_HDRLEN + |fixed|, ts, IFLA_MAX, IFLA_WIRELESS, i);
    var d := DecodeAttrs(m, IFINFOMSG_LEN, IFLA_MAX);
    var s := d.table[IFLA_WIRELESS].value;
    forall k | 0 <= k < |ts[i].data|
      ensures ByteAt(m, DataOf(s) + k) == ts[i].data[k]
    {
      assert ts[i].data[k] == Payload(m, s)[k];
    }
  }

  /** A link message without IFLA_WIRELESS forwards nothing to the wireless decoder. */
  lemma LinkMessageWithoutWireless(m: seq<byte>, kind: nat, fixed: seq<byte>, ts: seq<Tlv>)
    requires kind in {RTM_NEWLINK, RTM_DELLINK, RTM_GETLINK}
    requires |fixed| == IFINFOMSG_LEN && LaidOut(m, kind, fixed, ts)
    requires NoneOfKind(ts, IFLA_WIRELESS)
    ensures var r := ParseRtEvent(m);
            r.Handled? && r.outcome.LinkOutcome? && !r.unparsedBytes && r.outcome.attrs.wireless.None?
  {
    DecodeEncodeAbsent(m, NLMSG_HDRLEN + |fixed|, ts, IFLA_MAX, IFLA_WIRELESS);
  }

  /** The cache-info words a first announcement carries: creation and update stamps agree. */
  predicate FreshStamps(d: seq<byte>)
  {
    |d| >= 16 && U32(d, 8) == U32(d, 12)
  }

  /**
   * An IPv4 or IPv6 address message whose last cache-info attribute carries equal
   * creation and update stamps is reported, as Added for NEWADDR and as Removed
   * for DELADDR, with the address carried by its last IFA_ADDRESS attribute.
   */
  lemma AddrMessageReported(m: seq<byte>, kind: nat, fixed: seq<byte>, ts: seq<Tlv>, ia: nat, ic: nat)
    requires kind == RTM_NEWADDR || kind == RTM_DELADDR
    requires |fixed| == IFADDRMSG_LEN && LaidOut(m, kind, fixed, ts) && ValidFamily(fixed[0] as int)
    requires LastOfKind(ts, IFA_ADDRESS, ia) && LastOfKind(ts, IFA_CACHEINFO, ic) && FreshStamps(ts[ic].data)
    ensures var r := ParseRtEvent(m);
            r.Handled? && r.outcome.AddrOutcome? && !r.unparsedBytes && r.outcome.addr.Some? &&
            r.outcome.addr.value.action == (if kind == RTM_NEWADDR then AddrAdded else AddrRemoved) &&
            r.outcome.addr.value.family == fixed[0] as nat &&
            r.outcome.addr.value.ifindex == S32(fixed, 4) &&
            Payload(m, r.outcome.addr.value.addr) == ts[ia].data
  {
    ReadsThrough(m, NLMSG_HDRLEN, fixed);
    assert ByteAt(m, NLMSG_HDRLEN + 0) == ByteAt(fixed, 0);
    assert S32(m, NLMSG_HDRLEN + 4) == S32(fixed, 4);
    DecodeEncodeLastWins(m, NLMSG_HDRLEN + |fixed|, ts, IFA_MAX, IFA_ADDRESS, ia);
    DecodeEncodeLastWins(m, NLMSG_HDRLEN + |fixed|, ts, IFA_MAX, IFA_CACHEINFO, ic);
    var d := DecodeAttrs(m, IFADDRMSG_LEN, IFA_MAX);
    var c := d.table[IFA_CACHEINFO].value;
    PayloadWord(m, c, ts[ic].data, 8);
    PayloadWord(m, c, ts[ic].data, 12);
  }

  /** ... and one whose stamps differ (an address being refreshed, not announced) is not reported. */
  lemma AddrMessageRefreshSilent(m: seq<byte>, kind: nat, fixed: seq<byte>, ts: seq<Tlv>, ic: nat)
    requires |fixed| == IFADDRMSG_LEN && LaidOut(m, kind, fixed, ts) && kind in {RTM_NEWADDR, RTM_DELADDR, RTM_GETADDR}
    requires LastOfKind(ts, IFA_CACHEINFO, ic) && |ts[ic].data| >= 16 && U32(ts[ic].data, 8) != U32(ts[ic].data, 12)
    ensures var r := ParseRtEvent(m);
            r.Handled? && r.outcome.AddrOutcome? && r.outcome.addr.None?
  {
    DecodeEncodeLastWins(m, NLMSG_HDRLEN + |fixed|, ts, IFA_MAX, IFA_CACHEINFO, ic);
    var d := DecodeAttrs(m, IFADDRMSG_LEN, IFA_MAX);
    var c := d.table[IFA_CACHEINFO].value;
    PayloadWord(m, c, ts[ic].data, 8);
    PayloadWord(m, c, ts[ic].data, 12);
  }

  /** The cache info carried as the data of an NDA_CACHEINFO attribute. */
  function NdaCacheInfoOf(d: seq<byte>): NdaCacheInfo
  {
    NdaCacheInfo(U32(d, 0), U32(d, 4), U32(d, 8), U32(d, 12))
  }

  /**
   * A neighbour message carrying cache info is classified from its header's state
   * and the counters in its last NDA_CACHEINFO attribute.
   */
  lemma NeighMessageClassified(m: seq<byte>, kind: nat, fixed: seq<byte>, ts: seq<Tlv>, ic: nat)
    requires kind in {RTM_NEWNEIGH, RTM_DELNEIGH, RTM_GETNEIGH}
    requires |fixed| == RTMSG_LEN && LaidOut(m, kind, fixed, ts)
    requires LastOfKind(ts, NDA_CACHEINFO, ic) && |ts[ic].data| >= 16
    ensures var r := ParseRtEvent(m);
            var ndm := NdMsg(fixed[0] as nat, S32(fixed, 4), U16(fixed, 8) as bv16);
            r.Handled? && r.outcome.NeighOutcome? && !r.unparsedBytes &&
            r.outcome.neigh.action == ClassifyNeigh(ndm, Some(NdaCacheInfoOf(ts[ic].data)), kind)
  {
    ReadsThrough(m, NLMSG_HDRLEN, fixed);
    assert NdMsgOf(m) == NdMsg(fixed[0] as nat, S32(fixed, 4), U16(fixed, 8) as bv16) by {
      assert ByteAt(m, NLMSG_HDRLEN + 0) == ByteAt(fixed, 0);
      assert S32(m, NLMSG_HDRLEN + 4) == S32(fixed, 4);
      assert U16(m, NLMSG_HDRLEN + 8) == U16(fixed, 8);
    }
    DecodeEncodeLastWins(m, NLMSG_HDRLEN + |fixed|, ts, NDA_MAX, NDA_CACHEINFO, ic);
    var d := DecodeAttrs(m, RTMSG_LEN, NDA_MAX);
    var c := d.table[NDA_CACHEINFO].value;
    PayloadWord(m, c, ts[ic].data, 0);
    PayloadWord(m, c, ts[ic].data, 4);
    PayloadWord(m, c, ts[ic].data, 8);
    PayloadWord(m, c, ts[ic].data, 12);
  }

  /**
   * A route change (NEWROUTE or DELROUTE) is reported, as Added or Removed, with
   * the family and prefix lengths from its `rtmsg` and the route attributes
   * decoded from the stream right behind that 12-byte header; each of those
   * attributes is present exactly when the message carries one of its type.
   */
  lemma RouteMessageReported(m: seq<byte>, kind: nat, fixed: seq<byte>, ts: seq<Tlv>)
    requires kind == RTM_NEWROUTE || kind == RTM_DELROUTE
    requires |fixed| == RTMSG_LEN && LaidOut(m, kind, fixed, ts)
    ensures var r := ParseRtEvent(m);
            var tb := Decode(m, NLMSG_HDRLEN + RTMSG_LEN, |Encode(ts)|, RTN_MAX).table;
            r.Handled? && r.outcome.RouteOutcome? && !r.unparsedBytes && r.outcome.route.Some? &&
            r.outcome.route.value.action == (if kind == RTM_NEWROUTE then RouteAdded else RouteRemoved) &&
            r.outcome.route.value.family == fixed[0] as nat &&
            r.outcome.route.value.shape ==
              RouteShapeOf(RtMsg(fixed[0] as nat, fixed[1] as nat, fixed[2] as nat), RouteAttrsOf(m, tb)) &&
            forall t :: 0 < t < RTN_MAX ==> (tb[t].Some? <==> !NoneOfKind(ts, t))
  {
    ReadsThrough(m, NLMSG_HDRLEN, fixed);
    assert RtMsgOf(m) == RtMsg(fixed[0] as nat, fixed[1] as nat, fixed[2] as nat) by {
      assert ByteAt(m, NLMSG_HDRLEN + 0) == ByteAt(fixed, 0);
      assert ByteAt(m, NLMSG_HDRLEN + 1) == ByteAt(fixed, 1);
      assert ByteAt(m, NLMSG_HDRLEN + 2) == ByteAt(fixed, 2);
    }
    var pos := NLMSG_HDRLEN + |fixed|;
    forall t | 0 < t < RTN_MAX
      ensures var tb := Decode(m, pos, |Encode(ts)|, RTN_MAX).table;
              tb[t].Some? <==> !NoneOfKind(ts, t)
    {
      DecodeEncodePresent(m, pos, ts, RTN_MAX, t);
    }
    DecodeEncodePresent(m, pos, ts, RTN_MAX, RTA_DST);
  }

  /**
   * A route with a destination, an output interface and a gateway but no source
   * is the "via" line: the prefix and the gateway are the payloads of the last
   * RTA_DST and RTA_GATEWAY, the prefix length is the header's, and the interface
   * is the first word of the last RTA_OIF.
   */
  lemma RouteMessageViaGateway(m: seq<byte>, kind: nat, fixed: seq<byte>, ts: seq<Tlv>, id: nat, io: nat, ig: nat)
    requires kind == RTM_NEWROUTE || kind == RTM_DELROUTE
    requires |fixed| == RTMSG_LEN && LaidOut(m, kind, fixed, ts)
    requires LastOfKind(ts, RTA_DST, id) && LastOfKind(ts, RTA_OIF, io) && LastOfKind(ts, RTA_GATEWAY, ig)
    requires NoneOfKind(ts, RTA_SRC) && |ts[io].data| >= 4 && U32(ts[io].data, 0) < 0x8000_0000
    ensures var r := ParseRtEvent(m);
            r.Handled? && r.outcome.RouteOutcome? && r.outcome.route.Some? &&
            var sh := r.outcome.route.value.shape;
            sh.GatewayRoute? && Payload(m, sh.dst) == ts[id].data && sh.dstLen == fixed[1] as nat &&
            Payload(m, sh.gw) == ts[ig].data && sh.oif == U32(ts[io].data, 0)
  {
    RouteMessageReported(m, kind, fixed, ts);
    var pos := NLMSG_HDRLEN + |fixed|;
    DecodeEncodeLastWins(m, pos, ts, RTN_MAX, RTA_DST, id);
    DecodeEncodeLastWins(m, pos, ts, RTN_MAX, RTA_OIF, io);
    DecodeEncodeLastWins(m, pos, ts, RTN_MAX, RTA_GATEWAY, ig);
    DecodeEncodeAbsent(m, pos, ts, RTN_MAX, RTA_SRC);
    var tb := Decode(m, pos, |Encode(ts)|, RTN_MAX).table;
    PayloadWord(m, tb[RTA_OIF].value, ts[io].data, 0);
  }

  /** A message whose type belongs to no family is an unknown event, whatever it carries. */
  lemma UnknownTypeNotHandled(m: seq<byte>, kind: nat, fixed: seq<byte>, ts: seq<Tlv>)
    requires LaidOut(m, kind, fixed, ts) && FamilyOf(kind).None?
    ensures ParseRtEvent(m) == UnknownEvent
  {
  }
}
