/**
 * The rtnetlink side of the daemon (src/rtnl.c): the four family handlers, the
 * router that picks one of them by message type, and the receive gate that hands
 * a datagram to the registry.
 *
 * Every handler in the source ends in console output. Here each one produces a
 * structured value instead: which event it reports, with which colour, and where in
 * the message the addresses it would print are found (as attribute spans).
 * Interface-name lookups, address formatting and the text itself are left to the
 * reader of those values.
 *
 * Byte layout (host byte order, little-endian): the 16-byte `nlmsghdr` holds the
 * total length at offset 0 and the type at offset 4; the family header starts at
 * offset 16, and the attribute stream follows it.
 */
module Rtnl {
  import opened Wire
  import opened RtAttrs
  import Events

  // Message types (linux/rtnetlink.h).
  const RTM_NEWLINK: nat := 16
  const RTM_DELLINK: nat := 17
  const RTM_GETLINK: nat := 18
  const RTM_NEWADDR: nat := 20
  const RTM_DELADDR: nat := 21
  const RTM_GETADDR: nat := 22
  const RTM_NEWROUTE: nat := 24
  const RTM_DELROUTE: nat := 25
  const RTM_GETROUTE: nat := 26
  const RTM_NEWNEIGH: nat := 28
  const RTM_DELNEIGH: nat := 29
  const RTM_GETNEIGH: nat := 30

  const AF_INET: nat := 2
  const AF_INET6: nat := 10

  // ---------------------------------------------------------------------------
  // Netlink message header

  const NLMSG_HDRLEN: nat := 16

  function NlmsgLen(msg: seq<byte>): nat { U32(msg, 0) }

  function NlmsgType(msg: seq<byte>): nat { U16(msg, 4) }

  /** `NLMSG_OK(nlh, len)`: a whole header fits, and the stated length is at least a header and at most `len`. */
  predicate NlmsgOk(msg: seq<byte>, len: int)
  {
    len >= NLMSG_HDRLEN && NLMSG_HDRLEN <= NlmsgLen(msg) <= len
  }

  // Family header sizes; each is a multiple of 4, so the attribute stream starts
  // right after it.
  const IFINFOMSG_LEN: nat := 16
  const IFADDRMSG_LEN: nat := 8
  /**
   * The neighbour handler locates its attributes with the route-header macros
   * (`RTM_RTA`, `RTM_PAYLOAD`), i.e. after a 12-byte `rtmsg`. A `ndmsg` is also
   * 12 bytes, so this is the right place, but it is the route size that is used.
   */
  const RTMSG_LEN: nat := 12

  /** Offset of the attribute stream behind a family header of `hdrLen` bytes. */
  function AttrStart(hdrLen: nat): nat { NLMSG_HDRLEN + hdrLen }

  /** `IFLA_PAYLOAD` / `IFA_PAYLOAD` / `RTM_PAYLOAD`: the attribute bytes the header announces. */
  function AttrBytes(msg: seq<byte>, hdrLen: nat): int { NlmsgLen(msg) - AttrStart(hdrLen) }

  /** parse_rt_attrs over the attribute stream of `msg`. */
  function DecodeAttrs(msg: seq<byte>, hdrLen: nat, max: nat): Decoded
  {
    Decode(msg, AttrStart(hdrLen), AttrBytes(msg, hdrLen), max)
  }

  /** `RTA_DATA`: where an attribute's payload starts. */
  function DataOf(s: Span): nat { s.offset + RTA_HDRLEN }

  // ---------------------------------------------------------------------------
  // Link messages

  const IFF_UP: bv32 := 1

  const IFLA_ADDRESS: nat := 1
  const IFLA_BROADCAST: nat := 2
  const IFLA_IFNAME: nat := 3
  const IFLA_MTU: nat := 4
  const IFLA_LINK: nat := 5
  const IFLA_WIRELESS: nat := 11
  const IFLA_MAX: nat := 26

  /** The fields of `struct ifinfomsg` the daemon reads. */
  datatype IfInfo = IfInfo(index: int, flags: bv32, change: bv32)

  function IfInfoOf(msg: seq<byte>): IfInfo
  {
    IfInfo(S32(msg, 20), Bits32(msg, 24), Bits32(msg, 28))
  }

  datatype AdminChange = LinkUp | LinkDown

  /**
   * parse_ifinfomsg: the administrative state change it reports. The two tests in
   * the source are independent `if`s; at most one can hold.
   */
  function AdminChanges(ifi: IfInfo): (r: seq<AdminChange>)
    ensures |r| <= 1
    ensures r == [] <==> ifi.change & IFF_UP == 0
    ensures LinkUp in r <==> ifi.change & IFF_UP != 0 && ifi.flags & IFF_UP != 0
    ensures LinkDown in r <==> ifi.change & IFF_UP != 0 && ifi.flags & IFF_UP == 0
  {
    (if ifi.change & IFF_UP != 0 && ifi.flags & IFF_UP != 0 then [LinkUp] else []) +
    (if ifi.change & IFF_UP != 0 && !(ifi.flags & IFF_UP != 0) then [LinkDown] else [])
  }

  /** The one-line link summary: name, hardware address, MTU, and the broadcast address if one was sent. */
  datatype LinkSummary = LinkSummary(ifname: Span, lladdr: Span, mtu: int, broadcast: Option<Span>)

  /** The arguments of `handle_wireless_attr(ifindex, RTA_DATA(iwa), RTA_PAYLOAD(iwa))`. */
  datatype WirelessPayload = WirelessPayload(ifindex: int, data: nat, length: int)

  /** What handle_link_attrs reports. */
  datatype LinkAttrs = LinkAttrs(summary: Option<LinkSummary>, linkUnparsed: bool, wireless: Option<WirelessPayload>)

  /**
   * handle_link_attrs: the summary needs name, address and MTU; IFLA_LINK is only
   * noted as unparsed; the wireless payload goes on to the wireless-extensions decoder.
   */
  function HandleLinkAttrs(msg: seq<byte>, ifi: IfInfo, tb: seq<Option<Span>>): (r: LinkAttrs)
    requires |tb| == IFLA_MAX
    ensures r.summary.Some? <==> tb[IFLA_IFNAME].Some? && tb[IFLA_ADDRESS].Some? && tb[IFLA_MTU].Some?
    ensures r.summary.Some? ==>
              r.summary.value.ifname == tb[IFLA_IFNAME].value &&
              r.summary.value.lladdr == tb[IFLA_ADDRESS].value &&
              r.summary.value.mtu == S32(msg, DataOf(tb[IFLA_MTU].value)) &&
              r.summary.value.broadcast == tb[IFLA_BROADCAST]
    ensures r.linkUnparsed <==> tb[IFLA_LINK].Some?
    ensures r.wireless.Some? <==> tb[IFLA_WIRELESS].Some?
    ensures r.wireless.Some? ==>
              r.wireless.value == WirelessPayload(ifi.index, DataOf(tb[IFLA_WIRELESS].value),
                                                  tb[IFLA_WIRELESS].value.length - RTA_HDRLEN)
  {
    var summary :=
      if tb[IFLA_IFNAME].Some? && tb[IFLA_ADDRESS].Some? && tb[IFLA_MTU].Some? then
        Some(LinkSummary(tb[IFLA_IFNAME].value, tb[IFLA_ADDRESS].value,
                         S32(msg, DataOf(tb[IFLA_MTU].value)), tb[IFLA_BROADCAST]))
      else None;
    var wireless :=
      match tb[IFLA_WIRELESS]
      case None => None
      case Some(iwa) => Some(WirelessPayload(ifi.index, DataOf(iwa), iwa.length - RTA_HDRLEN));
    LinkAttrs(summary, tb[IFLA_LINK].Some?, wireless)
  }

  // ---------------------------------------------------------------------------
  // Address messages

  const IFA_ADDRESS: nat := 1
  const IFA_CACHEINFO: nat := 6
  const IFA_MAX: nat := 7

  /** The fields of `struct ifaddrmsg` the daemon reads: the family byte and the interface index. */
  datatype IfAddr = IfAddr(family: nat, index: int)

  function IfAddrOf(msg: seq<byte>): IfAddr
  {
    IfAddr(ByteAt(msg, 16) as nat, S32(msg, 20))
  }

  /** valid_family. */
  predicate ValidFamily(family: int)
  {
    family == AF_INET || family == AF_INET6
  }

  /** `struct ifa_cacheinfo`, read from an attribute payload. */
  datatype IfaCacheInfo = IfaCacheInfo(prefered: nat, valid: nat, cstamp: nat, tstamp: nat)

  function IfaCacheInfoAt(msg: seq<byte>, s: Span): IfaCacheInfo
  {
    var p := DataOf(s);
    IfaCacheInfo(U32(msg, p), U32(msg, p + 4), U32(msg, p + 8), U32(msg, p + 12))
  }

  /** cache_new_address_ts: the address was last updated when it was created, i.e. it is new. */
  predicate CacheNewAddressTs(ci: IfaCacheInfo)
  {
    ci.tstamp == ci.cstamp
  }

  datatype AddrAction = AddrAdded | AddrRemoved

  /** The event print_addr_event reports for a message type: only NEWADDR and DELADDR report one. */
  function AddrActionOf(kind: nat): (r: Option<AddrAction>)
    ensures r == Some(AddrAdded) <==> kind == RTM_NEWADDR
    ensures r == Some(AddrRemoved) <==> kind == RTM_DELADDR
    ensures r.None? <==> kind != RTM_NEWADDR && kind != RTM_DELADDR
  {
    if kind == RTM_NEWADDR then Some(AddrAdded)
    else if kind == RTM_DELADDR then Some(AddrRemoved)
    else None
  }

  datatype AddrEvent = AddrEvent(action: AddrAction, family: nat, ifindex: int, addr: Span)

  /** The guard of handle_addr_attrs: cacheinfo and address present, IPv4/IPv6, first announcement. */
  predicate AddrGuard(msg: seq<byte>, ifa: IfAddr, tb: seq<Option<Span>>)
    requires |tb| == IFA_MAX
  {
    tb[IFA_CACHEINFO].Some? && tb[IFA_ADDRESS].Some? && ValidFamily(ifa.family) &&
    CacheNewAddressTs(IfaCacheInfoAt(msg, tb[IFA_CACHEINFO].value))
  }

  /** handle_addr_attrs together with print_addr_event: the address event reported, if any. */
  function HandleAddrAttrs(msg: seq<byte>, ifa: IfAddr, tb: seq<Option<Span>>, kind: nat): (r: Option<AddrEvent>)
    requires |tb| == IFA_MAX
    ensures r.Some? <==> AddrGuard(msg, ifa, tb) && (kind == RTM_NEWADDR || kind == RTM_DELADDR)
    ensures r.Some? ==> r.value.action == (if kind == RTM_NEWADDR then AddrAdded else AddrRemoved)
    ensures r.Some? ==> r.value.addr == tb[IFA_ADDRESS].value && ValidFamily(r.value.family) &&
                        r.value.family == ifa.family && r.value.ifindex == ifa.index
  {
    if AddrGuard(msg, ifa, tb) then
      match AddrActionOf(kind)
      case None => None
      case Some(a) => Some(AddrEvent(a, ifa.family, ifa.index, tb[IFA_ADDRESS].value))
    else None
  }

  // ---------------------------------------------------------------------------
  // Neighbour messages

  const NUD_INCOMPLETE: bv16 := 0x01
  const NUD_REACHABLE: bv16 := 0x02
  const NUD_STALE: bv16 := 0x04
  const NUD_DELAY: bv16 := 0x08
  const NUD_PROBE: bv16 := 0x10
  const NUD_FAILED: bv16 := 0x20
  const NUD_NOARP: bv16 := 0x40
  const NUD_PERMANENT: bv16 := 0x80

  const NDA_DST: nat := 1
  const NDA_LLADDR: nat := 2
  const NDA_CACHEINFO: nat := 3
  const NDA_MAX: nat := 4

  /** The `confirmed` value the kernel gives a stale entry that was only just learnt. */
  const STALE_NEW_CONFIRMED: nat := 15000

  /** The fields of `struct ndmsg` the daemon reads. */
  datatype NdMsg = NdMsg(family: nat, ifindex: int, state: bv16)

  function NdMsgOf(msg: seq<byte>): NdMsg
  {
    NdMsg(ByteAt(msg, 16) as nat, S32(msg, 20), U16(msg, 24) as bv16)
  }

  /** `struct nda_cacheinfo`: ages in clock ticks and a reference count. */
  datatype NdaCacheInfo = NdaCacheInfo(confirmed: nat, used: nat, updated: nat, refcnt: nat)

  function NdaCacheInfoAt(msg: seq<byte>, s: Span): NdaCacheInfo
  {
    var p := DataOf(s);
    NdaCacheInfo(U32(msg, p), U32(msg, p + 4), U32(msg, p + 8), U32(msg, p + 12))
  }

  predicate Reachable(ndm: NdMsg) { ndm.state & NUD_REACHABLE != 0 }

  predicate Stale(ndm: NdMsg) { ndm.state & NUD_STALE != 0 }

  /**
   * Whether the detectors dereference the cache info: only for NEWNEIGH with a
   * REACHABLE or STALE state do they get past their first conjuncts.
   */
  predicate ReadsCacheInfo(ndm: NdMsg, kind: nat)
  {
    kind == RTM_NEWNEIGH && (Reachable(ndm) || Stale(ndm))
  }

  /** detect_new_neigh: a fresh reachable entry, or a just-learnt stale one. */
  predicate DetectNewNeigh(ndm: NdMsg, ci: Option<NdaCacheInfo>, kind: nat)
    requires ReadsCacheInfo(ndm, kind) ==> ci.Some?
  {
    kind == RTM_NEWNEIGH &&
    ((Reachable(ndm) && ci.value.updated == 0 && ci.value.used == 0 && ci.value.confirmed == 0) ||
     (Stale(ndm) && ci.value.updated == 0 && ci.value.used == 0 && ci.value.confirmed == STALE_NEW_CONFIRMED))
  }

  /** detect_updated_neigh: a reachable entry just confirmed again. */
  predicate DetectUpdatedNeigh(ndm: NdMsg, ci: Option<NdaCacheInfo>, kind: nat)
    requires ReadsCacheInfo(ndm, kind) ==> ci.Some?
  {
    kind == RTM_NEWNEIGH && Reachable(ndm) && ci.value.updated == 0 && ci.value.used != 0 &&
    ci.value.confirmed != 0 && ci.value.confirmed == ci.value.used
  }

  /** detect_expired_neigh. */
  predicate DetectExpiredNeigh(ndm: NdMsg, kind: nat)
  {
    Stale(ndm) && kind == RTM_NEWNEIGH
  }

  /** detect_removed_neigh. */
  predicate DetectRemovedNeigh(ndm: NdMsg, kind: nat)
  {
    Stale(ndm) && kind == RTM_DELNEIGH
  }

  datatype NeighAction = NeighAdded | NeighUpdated | NeighExpired | NeighRemoved | NeighUnknown

  /** The guard chain of handle_neigh_attrs: the first detector that holds decides. */
  function ClassifyNeigh(ndm: NdMsg, ci: Option<NdaCacheInfo>, kind: nat): (r: NeighAction)
    requires ReadsCacheInfo(ndm, kind) ==> ci.Some?
    ensures r == NeighAdded <==> DetectNewNeigh(ndm, ci, kind)
    ensures r == NeighUnknown <==>
              !DetectNewNeigh(ndm, ci, kind) && !DetectUpdatedNeigh(ndm, ci, kind) &&
              !DetectExpiredNeigh(ndm, kind) && !DetectRemovedNeigh(ndm, kind)
    ensures r == NeighRemoved ==> kind == RTM_DELNEIGH && Stale(ndm)
    ensures r in {NeighAdded, NeighUpdated, NeighExpired} ==> kind == RTM_NEWNEIGH
    ensures r == NeighUpdated ==> Reachable(ndm) && ci.value.updated == 0 && ci.value.used == ci.value.confirmed != 0
    ensures r == NeighExpired ==>
              Stale(ndm) && !(Reachable(ndm) && ci.value.used != 0 && ci.value.used == ci.value.confirmed && ci.value.updated == 0) &&
              !(ci.value.updated == 0 && ci.value.used == 0 && ci.value.confirmed == STALE_NEW_CONFIRMED)
    ensures kind != RTM_NEWNEIGH && kind != RTM_DELNEIGH ==> r == NeighUnknown
  {
    if DetectNewNeigh(ndm, ci, kind) then NeighAdded
    else if DetectUpdatedNeigh(ndm, ci, kind) then NeighUpdated
    else if DetectExpiredNeigh(ndm, kind) then NeighExpired
    else if DetectRemovedNeigh(ndm, kind) then NeighRemoved
    else NeighUnknown
  }

  /** The classifier on the four situations it was written for. */
  lemma NeighClassifierExamples(family: nat, ifindex: int)
    ensures ClassifyNeigh(NdMsg(family, ifindex, NUD_REACHABLE), Some(NdaCacheInfo(0, 0, 0, 1)), RTM_NEWNEIGH) == NeighAdded
    ensures ClassifyNeigh(NdMsg(family, ifindex, NUD_REACHABLE), Some(NdaCacheInfo(5, 5, 0, 1)), RTM_NEWNEIGH) == NeighUpdated
    ensures ClassifyNeigh(NdMsg(family, ifindex, NUD_STALE), Some(NdaCacheInfo(3000, 700, 20, 1)), RTM_NEWNEIGH) == NeighExpired
    ensures forall ci :: ClassifyNeigh(NdMsg(family, ifindex, NUD_STALE), ci, RTM_DELNEIGH) == NeighRemoved
  {
    assert NUD_STALE & NUD_REACHABLE == 0;
  }

  /**
   * Precedence: a just-learnt stale entry also satisfies the Expired guard, but
   * Added comes first in the chain and wins.
   */
  lemma StaleAnnouncementIsAdded(ndm: NdMsg, ci: NdaCacheInfo)
    requires Stale(ndm) && ci.updated == 0 && ci.used == 0 && ci.confirmed == STALE_NEW_CONFIRMED
    ensures DetectExpiredNeigh(ndm, RTM_NEWNEIGH)
    ensures ClassifyNeigh(ndm, Some(ci), RTM_NEWNEIGH) == NeighAdded
  {
  }

  /** The flags parse_ndm_state lists, in the order it lists them; NUD_PROBE is not among them. */
  datatype NudFlag = Incomplete | ReachableFlag | StaleFlag | Delay | Failed | NoArp | Permanent

  function NudBit(f: NudFlag): bv16
  {
    match f
    case Incomplete => NUD_INCOMPLETE
    case ReachableFlag => NUD_REACHABLE
    case StaleFlag => NUD_STALE
    case Delay => NUD_DELAY
    case Failed => NUD_FAILED
    case NoArp => NUD_NOARP
    case Permanent => NUD_PERMANENT
  }

  /** Position of a flag in parse_ndm_state's listing. */
  function FlagRank(f: NudFlag): nat
  {
    match f
    case Incomplete => 0
    case ReachableFlag => 1
    case StaleFlag => 2
    case Delay => 3
    case Failed => 4
    case NoArp => 5
    case Permanent => 6
  }

  /** The flag listed at position `k`. */
  function FlagAt(k: nat): (f: NudFlag)
    requires k < 7
    ensures FlagRank(f) == k
  {
    [Incomplete, ReachableFlag, StaleFlag, Delay, Failed, NoArp, Permanent][k]
  }

  /** The flag `f` is set in `state`. */
  predicate IsSet(state: bv16, f: NudFlag)
  {
    state & NudBit(f) != 0
  }

  /** The set flags from position `k` on, in listing order. */
  function FlagsFrom(state: bv16, k: nat): (r: seq<NudFlag>)
    requires k <= 7
    ensures forall f :: f in r <==> FlagRank(f) >= k && IsSet(state, f)
    ensures forall i, j :: 0 <= i < j < |r| ==> k <= FlagRank(r[i]) < FlagRank(r[j])
    decreases 7 - k
  {
    if k == 7 then []
    else
      var rest := FlagsFrom(state, k + 1);
      var f := FlagAt(k);
      if IsSet(state, f) then
        assert forall g :: FlagRank(g) == k ==> g == f;
        [f] + rest
      else
        assert forall g :: FlagRank(g) == k ==> g == f;
        rest
  }

  /** parse_ndm_state's flag list: the set flags, in the order the tests are written. */
  function NudFlags(state: bv16): (r: seq<NudFlag>)
    ensures forall f :: f in r <==> IsSet(state, f)
    ensures forall i, j :: 0 <= i < j < |r| ==> FlagRank(r[i]) < FlagRank(r[j])
  {
    FlagsFrom(state, 0)
  }

  /** A state that is only NUD_PROBE lists no flag at all. */
  lemma ProbeIsNotListed()
    ensures NudFlags(NUD_PROBE) == []
  {
    assert forall f :: !IsSet(NUD_PROBE, f);
  }

  datatype Color = Green | Yellow | Red

  /** The state and counter dump printed for an unrecognised neighbour event. */
  datatype NeighDump = NeighDump(flags: seq<NudFlag>, cache: Option<NdaCacheInfo>)

  datatype NeighEvent = NeighEvent(action: NeighAction, color: Color, family: nat, ifindex: int,
                                   dst: Option<Span>, lladdr: Option<Span>, dump: Option<NeighDump>)

  /** The cache info a neighbour message carries, if it carries one. */
  function NeighCacheInfo(msg: seq<byte>, tb: seq<Option<Span>>): Option<NdaCacheInfo>
    requires |tb| == NDA_MAX
  {
    match tb[NDA_CACHEINFO]
    case None => None
    case Some(s) => Some(NdaCacheInfoAt(msg, s))
  }

  function NeighColor(a: NeighAction): Color
  {
    match a
    case NeighAdded => Green
    case NeighUpdated => Yellow
    case _ => Red
  }

  /**
   * handle_neigh_attrs: classify, and print the neighbour with its colour; only an
   * unrecognised event also dumps the state flags and the counters.
   */
  function HandleNeighAttrs(msg: seq<byte>, ndm: NdMsg, tb: seq<Option<Span>>, kind: nat): (r: NeighEvent)
    requires |tb| == NDA_MAX
    requires ReadsCacheInfo(ndm, kind) ==> tb[NDA_CACHEINFO].Some?
    ensures r.action == ClassifyNeigh(ndm, NeighCacheInfo(msg, tb), kind)
    ensures r.color == Green <==> r.action == NeighAdded
    ensures r.color == Yellow <==> r.action == NeighUpdated
    ensures r.dump.Some? <==> r.action == NeighUnknown
    ensures r.dump.Some? ==> r.dump.value.flags == NudFlags(ndm.state)
    ensures r.dump.Some? ==> r.dump.value.cache == NeighCacheInfo(msg, tb)
    ensures r.dst == tb[NDA_DST] && r.lladdr == tb[NDA_LLADDR]
    ensures r.family == ndm.family && r.ifindex == ndm.ifindex
  {
    var ci := NeighCacheInfo(msg, tb);
    var action := ClassifyNeigh(ndm, ci, kind);
    var dump := if action == NeighUnknown then Some(NeighDump(NudFlags(ndm.state), ci)) else None;
    NeighEvent(action, NeighColor(action), ndm.family, ndm.ifindex, tb[NDA_DST], tb[NDA_LLADDR], dump)
  }

  // ---------------------------------------------------------------------------
  // Route messages

  const RTA_DST: nat := 1
  const RTA_SRC: nat := 2
  const RTA_IIF: nat := 3
  const RTA_OIF: nat := 4
  const RTA_GATEWAY: nat := 5
  /** The route table is sized by RTN_MAX (the largest route type), as in the source. */
  const RTN_MAX: nat := 11

  /** The fields of `struct rtmsg` the daemon reads. */
  datatype RtMsg = RtMsg(family: nat, dstLen: nat, srcLen: nat)

  function RtMsgOf(msg: seq<byte>): RtMsg
  {
    RtMsg(ByteAt(msg, 16) as nat, ByteAt(msg, 17) as nat, ByteAt(msg, 18) as nat)
  }

  /** The route attributes handle_route_attrs picks out; interface indices are read as `int`. */
  datatype RouteAttrs = RouteAttrs(dst: Option<Span>, src: Option<Span>, gw: Option<Span>,
                                   iif: Option<int>, oif: Option<int>)

  function IndexAttr(msg: seq<byte>, a: Option<Span>): Option<int>
  {
    match a
    case None => None
    case Some(s) => Some(S32(msg, DataOf(s)))
  }

  function RouteAttrsOf(msg: seq<byte>, tb: seq<Option<Span>>): RouteAttrs
    requires |tb| == RTN_MAX
  {
    RouteAttrs(tb[RTA_DST], tb[RTA_SRC], tb[RTA_GATEWAY], IndexAttr(msg, tb[RTA_IIF]), IndexAttr(msg, tb[RTA_OIF]))
  }

  datatype RouteField = FieldGw | FieldDst | FieldSrc | FieldOif | FieldIif

  /** The line print_route_attrs chooses. */
  datatype RouteShape =
    | FullRoute(dst: Span, dstLen: nat, src: Span, srcLen: nat, oif: int, gw: Span)
    | GatewayRoute(dst: Span, dstLen: nat, oif: int, gw: Span)
    | DeviceRoute(dst: Span, dstLen: nat, oif: int)
    | DefaultRoute(gw: Span, oif: int)
    | UnknownShape(fields: seq<RouteField>)

  /** Position of a field in the fallback listing. */
  function FieldRank(f: RouteField): nat
  {
    match f
    case FieldGw => 0
    case FieldDst => 1
    case FieldSrc => 2
    case FieldOif => 3
    case FieldIif => 4
  }

  predicate FieldPresent(a: RouteAttrs, f: RouteField)
  {
    match f
    case FieldGw => a.gw.Some?
    case FieldDst => a.dst.Some?
    case FieldSrc => a.src.Some?
    case FieldOif => a.oif.Some?
    case FieldIif => a.iif.Some?
  }

  /** The fallback's list of present fields, gw, dst, src, oif, iif. */
  function PresentFields(a: RouteAttrs): (r: seq<RouteField>)
    ensures forall f :: f in r <==> FieldPresent(a, f)
    ensures forall i, j :: 0 <= i < j < |r| ==> FieldRank(r[i]) < FieldRank(r[j])
  {
    (if a.gw.Some? then [FieldGw] else []) +
    (if a.dst.Some? then [FieldDst] else []) +
    (if a.src.Some? then [FieldSrc] else []) +
    (if a.oif.Some? then [FieldOif] else []) +
    (if a.iif.Some? then [FieldIif] else [])
  }

  /**
   * print_route_attrs' first-match choice. The characterisation below says which
   * attribute sets reach each line once the earlier lines have been ruled out.
   */
  function RouteShapeOf(rtm: RtMsg, a: RouteAttrs): (r: RouteShape)
    ensures r.FullRoute? <==> a.dst.Some? && a.src.Some? && a.oif.Some? && a.gw.Some?
    ensures r.GatewayRoute? <==> a.dst.Some? && a.src.None? && a.oif.Some? && a.gw.Some?
    ensures r.DeviceRoute? <==> a.dst.Some? && a.oif.Some? && a.gw.None?
    ensures r.DefaultRoute? <==> a.dst.None? && a.oif.Some? && a.gw.Some?
    ensures r.UnknownShape? <==> a.oif.None? || (a.dst.None? && a.gw.None?)
    ensures r.UnknownShape? ==> forall f :: f in r.fields <==> FieldPresent(a, f)
    ensures !r.UnknownShape? ==> r.oif == a.oif.value
    ensures r.FullRoute? ==>
              r.dst == a.dst.value && r.dstLen == rtm.dstLen && r.src == a.src.value &&
              r.srcLen == rtm.srcLen && r.gw == a.gw.value
    ensures r.GatewayRoute? ==> r.dst == a.dst.value && r.dstLen == rtm.dstLen && r.gw == a.gw.value
    ensures r.DeviceRoute? ==> r.dst == a.dst.value && r.dstLen == rtm.dstLen
    ensures r.DefaultRoute? ==> r.gw == a.gw.value
  {
    if a.dst.Some? && a.src.Some? && a.oif.Some? && a.gw.Some? then
      FullRoute(a.dst.value, rtm.dstLen, a.src.value, rtm.srcLen, a.oif.value, a.gw.value)
    else if a.dst.Some? && a.oif.Some? && a.gw.Some? then
      GatewayRoute(a.dst.value, rtm.dstLen, a.oif.value, a.gw.value)
    else if a.dst.Some? && a.oif.Some? then
      DeviceRoute(a.dst.value, rtm.dstLen, a.oif.value)
    else if a.gw.Some? && a.oif.Some? then
      DefaultRoute(a.gw.value, a.oif.value)
    else
      UnknownShape(PresentFields(a))
  }

  datatype RouteAction = RouteAdded | RouteRemoved

  datatype RouteEvent = RouteEvent(action: RouteAction, color: Color, family: nat, shape: RouteShape)

  /** handle_route_attrs: NEWROUTE and DELROUTE are printed, in green only when added; anything else is not. */
  function HandleRouteAttrs(msg: seq<byte>, rtm: RtMsg, tb: seq<Option<Span>>, kind: nat): (r: Option<RouteEvent>)
    requires |tb| == RTN_MAX
    ensures r.Some? <==> kind == RTM_NEWROUTE || kind == RTM_DELROUTE
    ensures r.Some? ==> (r.value.action == RouteAdded <==> kind == RTM_NEWROUTE)
    ensures r.Some? ==> (r.value.color == Green <==> r.value.action == RouteAdded)
    ensures r.Some? ==> r.value.color in {Green, Red}
    ensures r.Some? ==> r.value.shape == RouteShapeOf(rtm, RouteAttrsOf(msg, tb)) && r.value.family == rtm.family
  {
    var action :=
      if kind == RTM_NEWROUTE then Some(RouteAdded)
      else if kind == RTM_DELROUTE then Some(RouteRemoved)
      else None;
    match action
    case None => None
    case Some(a) => Some(RouteEvent(a, if a == RouteAdded then Green else Red, rtm.family, RouteShapeOf(rtm, RouteAttrsOf(msg, tb))))
  }

  // ---------------------------------------------------------------------------
  // Router

  datatype Family = LinkFamily | AddrFamily | NeighFamily | RouteFamily

  /** The case labels of parse_rt_event's switch: NEW, DEL and GET of each family. */
  function FamilyOf(kind: nat): (f: Option<Family>)
    ensures f == Some(LinkFamily) <==> kind in {RTM_NEWLINK, RTM_DELLINK, RTM_GETLINK}
    ensures f == Some(AddrFamily) <==> kind in {RTM_NEWADDR, RTM_DELADDR, RTM_GETADDR}
    ensures f == Some(NeighFamily) <==> kind in {RTM_NEWNEIGH, RTM_DELNEIGH, RTM_GETNEIGH}
    ensures f == Some(RouteFamily) <==> kind in {RTM_NEWROUTE, RTM_DELROUTE, RTM_GETROUTE}
  {
    if RTM_NEWLINK <= kind <= RTM_GETLINK then Some(LinkFamily)
    else if RTM_NEWADDR <= kind <= RTM_GETADDR then Some(AddrFamily)
    else if RTM_NEWNEIGH <= kind <= RTM_GETNEIGH then Some(NeighFamily)
    else if RTM_NEWROUTE <= kind <= RTM_GETROUTE then Some(RouteFamily)
    else None
  }

  /**
   * What a family handler reports. `NeighUndefined` stands for a neighbour message
   * whose detectors would read the cache info although the message has none: the
   * source then reads through an uninitialised pointer, and the model says nothing
   * about the result.
   */
  datatype Outcome =
    | LinkOutcome(admin: seq<AdminChange>, attrs: LinkAttrs)
    | AddrOutcome(addr: Option<AddrEvent>)
    | NeighOutcome(neigh: NeighEvent)
    | NeighUndefined
    | RouteOutcome(route: Option<RouteEvent>)

  function OutcomeFamily(o: Outcome): Family
  {
    match o
    case LinkOutcome(_, _) => LinkFamily
    case AddrOutcome(_) => AddrFamily
    case NeighOutcome(_) => NeighFamily
    case NeighUndefined => NeighFamily
    case RouteOutcome(_) => RouteFamily
  }

  /**
   * The result of parse_rt_event: a handled message with its family's outcome and
   * whether the attribute decoder reported unparsed bytes, or "Unknown netlink event".
   */
  datatype Dispatch = Handled(outcome: Outcome, unparsedBytes: bool) | UnknownEvent

  /**
   * handle_link_msg: attributes from byte 32 (behind the 16-byte `ifinfomsg`);
   * the administrative change and the attributes are both reported.
   */
  function HandleLinkMsg(msg: seq<byte>): (r: Dispatch)
    ensures r.Handled? && r.outcome.LinkOutcome?
    ensures var d := Decode(msg, 32, NlmsgLen(msg) - 32, IFLA_MAX);
            r.unparsedBytes == d.unparsed &&
            (r.outcome.attrs.wireless.Some? <==> d.table[IFLA_WIRELESS].Some?) &&
            (r.outcome.attrs.summary.Some? <==>
               d.table[IFLA_IFNAME].Some? && d.table[IFLA_ADDRESS].Some? && d.table[IFLA_MTU].Some?)
    ensures r.outcome.admin == AdminChanges(IfInfo(S32(msg, 20), Bits32(msg, 24), Bits32(msg, 28)))
  {
    var d := DecodeAttrs(msg, IFINFOMSG_LEN, IFLA_MAX);
    var ifi := IfInfoOf(msg);
    Handled(LinkOutcome(AdminChanges(ifi), HandleLinkAttrs(msg, ifi, d.table)), d.unparsed)
  }

  /** handle_addr_msg: attributes from byte 24 (behind the 8-byte `ifaddrmsg`). */
  function HandleAddrMsg(msg: seq<byte>): (r: Dispatch)
    ensures r.Handled? && r.outcome.AddrOutcome?
    ensures var d := Decode(msg, 24, NlmsgLen(msg) - 24, IFA_MAX);
            r.unparsedBytes == d.unparsed &&
            (r.outcome.addr.Some? <==>
               AddrGuard(msg, IfAddrOf(msg), d.table) && NlmsgType(msg) in {RTM_NEWADDR, RTM_DELADDR}) &&
            (r.outcome.addr.Some? ==> r.outcome.addr.value.addr == d.table[IFA_ADDRESS].value)
  {
    var d := DecodeAttrs(msg, IFADDRMSG_LEN, IFA_MAX);
    Handled(AddrOutcome(HandleAddrAttrs(msg, IfAddrOf(msg), d.table, NlmsgType(msg))), d.unparsed)
  }

  /**
   * handle_neigh_msg: attributes from byte 28 (behind a 12-byte header, see
   * RTMSG_LEN). When the detectors would read an absent cache info the outcome
   * is left undefined.
   */
  function HandleNeighMsg(msg: seq<byte>): (r: Dispatch)
    ensures r.Handled? && (r.outcome.NeighOutcome? || r.outcome.NeighUndefined?)
    ensures var d := Decode(msg, 28, NlmsgLen(msg) - 28, NDA_MAX);
            r.unparsedBytes == d.unparsed &&
            (r.outcome.NeighUndefined? <==>
               ReadsCacheInfo(NdMsgOf(msg), NlmsgType(msg)) && d.table[NDA_CACHEINFO].None?) &&
            (r.outcome.NeighOutcome? ==>
               r.outcome.neigh.action == ClassifyNeigh(NdMsgOf(msg), NeighCacheInfo(msg, d.table), NlmsgType(msg)))
  {
    var d := DecodeAttrs(msg, RTMSG_LEN, NDA_MAX);
    var ndm := NdMsgOf(msg);
    if ReadsCacheInfo(ndm, NlmsgType(msg)) && d.table[NDA_CACHEINFO].None? then Handled(NeighUndefined, d.unparsed)
    else Handled(NeighOutcome(HandleNeighAttrs(msg, ndm, d.table, NlmsgType(msg))), d.unparsed)
  }

  /** handle_route_msg: attributes from byte 28 (behind the 12-byte `rtmsg`). */
  function HandleRouteMsg(msg: seq<byte>): (r: Dispatch)
    ensures r.Handled? && r.outcome.RouteOutcome?
    ensures r.outcome.route.Some? <==> NlmsgType(msg) in {RTM_NEWROUTE, RTM_DELROUTE}
    ensures var d := Decode(msg, 28, NlmsgLen(msg) - 28, RTN_MAX);
            r.unparsedBytes == d.unparsed &&
            (r.outcome.route.Some? ==>
               r.outcome.route.value.shape ==
                 RouteShapeOf(RtMsg(ByteAt(msg, 16) as nat, ByteAt(msg, 17) as nat, ByteAt(msg, 18) as nat),
                              RouteAttrsOf(msg, d.table)))
  {
    var d := DecodeAttrs(msg, RTMSG_LEN, RTN_MAX);
    Handled(RouteOutcome(HandleRouteAttrs(msg, RtMsgOf(msg), d.table, NlmsgType(msg))), d.unparsed)
  }

  /** parse_rt_event: route a message to its family's handler by type. */
  function ParseRtEvent(msg: seq<byte>): (r: Dispatch)
    ensures r.UnknownEvent? <==> FamilyOf(NlmsgType(msg)).None?
    ensures r.Handled? ==> OutcomeFamily(r.outcome) == FamilyOf(NlmsgType(msg)).value
    ensures NlmsgType(msg) in {RTM_NEWLINK, RTM_DELLINK, RTM_GETLINK} ==> r == HandleLinkMsg(msg)
    ensures NlmsgType(msg) in {RTM_NEWADDR, RTM_DELADDR, RTM_GETADDR} ==> r == HandleAddrMsg(msg)
    ensures NlmsgType(msg) in {RTM_NEWNEIGH, RTM_DELNEIGH, RTM_GETNEIGH} ==> r == HandleNeighMsg(msg)
    ensures NlmsgType(msg) in {RTM_NEWROUTE, RTM_DELROUTE, RTM_GETROUTE} ==> r == HandleRouteMsg(msg)
  {
    match FamilyOf(NlmsgType(msg))
    case None => UnknownEvent
    case Some(LinkFamily) => HandleLinkMsg(msg)
    case Some(AddrFamily) => HandleAddrMsg(msg)
    case Some(NeighFamily) => HandleNeighMsg(msg)
    case Some(RouteFamily) => HandleRouteMsg(msg)
  }

  // ---------------------------------------------------------------------------
  // Receive gate

  /**
   * recv_rtnl_msg after its `recv`: `bytes` is what recv returned and `received`
   * the bytes it stored. A failed or empty receive returns -1; otherwise the
   * buffer is pushed to the registry, once, if its first header passes NLMSG_OK,
   * and the function returns 0.
   */
  method RecvRtnlMsg(h: Events.EventHandler, bytes: int, received: seq<byte>)
    returns (status: int, calls: seq<Events.Call>)
    requires h.Valid()
    requires bytes > 0 ==> |received| == bytes <= RECV_BUFSIZE
    ensures status == (if bytes <= 0 then -1 else 0)
    ensures bytes > 0 && NlmsgOk(received, bytes) ==> calls == Events.Fanout(h.sync[..], received, bytes)
    ensures bytes <= 0 || !NlmsgOk(received, bytes) ==> calls == []
  {
    if bytes <= 0 {
      return -1, [];
    }
    calls := [];
    if NlmsgOk(received, bytes) {
      calls := h.Push(received, bytes);
    }
    return 0, calls;
  }
}
