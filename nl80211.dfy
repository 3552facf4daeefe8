/**
 * Attribute bookkeeping of the nl80211 (wireless configuration) event handler
 * (src/nl80211.c).
 *
 * libnl's nla_parse turns a generic-netlink message into a table `tb` indexed by
 * attribute id, 0..NL80211_ATTR_MAX; a slot holds the attribute's payload or is
 * empty. The handler reads a few attributes according to the command, marks each
 * one it used in a local `parsed[]` array, reports the event, and finally counts
 * the attributes that were present but not used. The table is an input here, and
 * NL80211_ATTR_MAX, which depends on the kernel headers, is its last index. An
 * attribute value read with nla_get_u16 or nla_get_u32 is read little-endian from
 * the start of the payload.
 */
module Nl80211 {
  import opened Wire

  /** A parsed attribute table: slot i holds attribute i's payload, if present. */
  type Table = seq<Option<seq<byte>>>

  // Attribute ids (linux/nl80211.h).
  const ATTR_WIPHY: nat := 1
  const ATTR_IFINDEX: nat := 3
  const ATTR_MAC: nat := 6
  const ATTR_SSID: nat := 52
  const ATTR_REASON_CODE: nat := 54
  const ATTR_STATUS_CODE: nat := 72

  // Commands (linux/nl80211.h).
  const CMD_GET_STATION: nat := 17
  const CMD_SET_STATION: nat := 18
  const CMD_NEW_STATION: nat := 19
  const CMD_DEL_STATION: nat := 20
  const CMD_TRIGGER_SCAN: nat := 33
  const CMD_NEW_SCAN_RESULTS: nat := 34
  const CMD_ASSOCIATE: nat := 38
  const CMD_CONNECT: nat := 46
  const CMD_ROAM: nat := 47
  const CMD_DISCONNECT: nat := 48

  /** A table as nla_parse leaves it for attribute ids up to `attrMax`, which covers the ids read here. */
  predicate WellFormed(tb: Table)
  {
    |tb| > ATTR_STATUS_CODE
  }

  /** The id NL80211_ATTR_MAX: the table's last slot. */
  function AttrMax(tb: Table): nat
    requires WellFormed(tb)
  {
    |tb| - 1
  }

  /** Number of present slots among the first n. */
  function CountPresent(tb: Table, n: nat): (c: nat)
    requires n <= |tb|
    ensures c <= n
  {
    if n == 0 then 0 else CountPresent(tb, n - 1) + if tb[n - 1].Some? then 1 else 0
  }

  /** Number of slots among the first n that are present and not marked used. */
  function CountUnparsed(tb: Table, parsed: seq<bool>, n: nat): nat
    requires n <= |tb| && n <= |parsed|
  {
    if n == 0 then 0
    else CountUnparsed(tb, parsed, n - 1) + if tb[n - 1].Some? && !parsed[n - 1] then 1 else 0
  }

  /** Number of slots among the first n that are present and marked used. */
  function CountMarked(tb: Table, parsed: seq<bool>, n: nat): nat
    requires n <= |tb| && n <= |parsed|
  {
    if n == 0 then 0
    else CountMarked(tb, parsed, n - 1) + if tb[n - 1].Some? && parsed[n - 1] then 1 else 0
  }

  /** Every present attribute is either used or unused: the two counts add up to the attribute count. */
  lemma {:induction false} UnparsedAndMarked(tb: Table, parsed: seq<bool>, n: nat)
    requires n <= |tb| && n <= |parsed|
    ensures CountUnparsed(tb, parsed, n) + CountMarked(tb, parsed, n) == CountPresent(tb, n)
  {
    if n > 0 {
      UnparsedAndMarked(tb, parsed, n - 1);
    }
  }

  /** The unused count never exceeds the attribute count. */
  lemma UnparsedAtMostPresent(tb: Table, parsed: seq<bool>, n: nat)
    requires n <= |tb| && n <= |parsed|
    ensures CountUnparsed(tb, parsed, n) <= CountPresent(tb, n)
  {
    UnparsedAndMarked(tb, parsed, n);
  }

  /** With nothing marked, every present attribute is unused. */
  lemma {:induction false} NothingMarked(tb: Table, parsed: seq<bool>, n: nat)
    requires n <= |tb| && n <= |parsed|
    requires forall i :: 0 <= i < n ==> !parsed[i]
    ensures CountUnparsed(tb, parsed, n) == CountPresent(tb, n)
  {
    if n > 0 {
      NothingMarked(tb, parsed, n - 1);
    }
  }

  /** The counts over the first n slots depend on those slots only. */
  lemma {:induction false} CountsIgnoreLater(tb: Table, tb': Table, n: nat)
    requires n <= |tb| && n <= |tb'|
    requires forall i :: 0 <= i < n ==> tb[i] == tb'[i]
    ensures CountPresent(tb, n) == CountPresent(tb', n)
  {
    if n > 0 {
      CountsIgnoreLater(tb, tb', n - 1);
    }
  }

  /**
   * nl_attr_count: the number of present attributes with id below NL80211_ATTR_MAX.
   * The slot NL80211_ATTR_MAX itself is never counted.
   */
  method NlAttrCount(tb: Table) returns (count: nat)
    requires WellFormed(tb)
    ensures count == CountPresent(tb, AttrMax(tb))
  {
    count := 0;
    var i := 0;
    while i < AttrMax(tb)
      invariant i <= AttrMax(tb)
      invariant count == CountPresent(tb, i)
    {
      if tb[i].Some? {
        count := count + 1;
      }
      i := i + 1;
    }
  }

  /** Whatever the last slot holds, the attribute count is the same. */
  lemma LastSlotNotCounted(tb: Table, x: Option<seq<byte>>)
    requires WellFormed(tb)
    ensures CountPresent(tb[AttrMax(tb) := x], AttrMax(tb)) == CountPresent(tb, AttrMax(tb))
  {
    CountsIgnoreLater(tb, tb[AttrMax(tb) := x], AttrMax(tb));
  }

  /**
   * nl_unparsed_ids: the number of attributes with id below NL80211_ATTR_MAX that
   * are present but not marked in `parsed`, listed in increasing id order; never
   * more than nl_attr_count's total. `summary` says whether the "parsed n of m"
   * line is printed, which happens exactly when the count is below that total.
   */
  method NlUnparsedIds(tb: Table, parsed: array<bool>) returns (count: nat, ids: seq<nat>, summary: bool)
    requires WellFormed(tb) && parsed.Length == |tb|
    ensures count == CountUnparsed(tb, parsed[..], AttrMax(tb)) && count == |ids|
    ensures forall k :: 0 <= k < |ids| ==> ids[k] < AttrMax(tb) && tb[ids[k]].Some? && !parsed[ids[k]]
    ensures forall id :: 0 <= id < AttrMax(tb) && tb[id].Some? && !parsed[id] ==> id in ids
    ensures forall k, l :: 0 <= k < l < |ids| ==> ids[k] < ids[l]
    ensures count <= CountPresent(tb, AttrMax(tb))
    ensures summary <==> count < CountPresent(tb, AttrMax(tb))
  {
    var total := NlAttrCount(tb);
    count, ids := 0, [];
    var i := 0;
    while i < AttrMax(tb)
      invariant i <= AttrMax(tb)
      invariant count == CountUnparsed(tb, parsed[..], i) && count == |ids|
      invariant forall k :: 0 <= k < |ids| ==> ids[k] < i && tb[ids[k]].Some? && !parsed[ids[k]]
      invariant forall id :: 0 <= id < i && tb[id].Some? && !parsed[id] ==> id in ids
      invariant forall k, l :: 0 <= k < l < |ids| ==> ids[k] < ids[l]
    {
      if tb[i].Some? && !parsed[i] {
        ids := ids + [i];
        count := count + 1;
      }
      i := i + 1;
    }
    UnparsedAtMostPresent(tb, parsed[..], AttrMax(tb));
    summary := count < total;
  }

  /** The summary line is printed exactly when some counted attribute was marked used. */
  lemma SummaryIffSomeMarked(tb: Table, parsed: seq<bool>, n: nat)
    requires n <= |tb| && n <= |parsed|
    ensures CountUnparsed(tb, parsed, n) < CountPresent(tb, n) <==> CountMarked(tb, parsed, n) > 0
  {
    UnparsedAndMarked(tb, parsed, n);
  }

  /** What the four station commands do to a station. */
  datatype StationOp = GetStation | SetStation | AddStation | RemoveStation

  /** The event nl80211_handle_attrs reports for a command. */
  datatype Report =
    | WiphyMgmt | InterfaceMgmt | KeyMgmt | BeaconMgmt
    | Station(op: StationOp, mac: seq<byte>)
    | MpathMgmt | BssMgmt | MeshMgmt
    | ScanGet | ScanTriggered | ScanFinished | ScanAborted
    | RegGet | RegSet | RegChange | RegRequest
    | Authenticate
    | Associate(peer: Option<seq<byte>>)
    | Deauthenticate | Disassociate | MicFailure | Testmode
    | Connect(ssidSeen: bool, peer: Option<seq<byte>>, status: nat)
    | Roam
    | Disconnect(reason: Option<nat>)
    | SurveyMgmt | PmksaMgmt | ChannelMgmt | BitRateMask | FrameMgmt | PowerMgmt | CqmMgmt
    | Silent
    | UnprotectedFailure
    | UnknownEvent

  predicate IsStationCommand(cmd: nat)
  {
    CMD_GET_STATION <= cmd <= CMD_DEL_STATION
  }

  /** The value nla_get_u16 reads from a present attribute. */
  function GetU16(tb: Table, id: nat): nat
    requires id < |tb| && tb[id].Some?
  {
    U16(tb[id].value, 0)
  }

  /** The value nla_get_u32 reads from a present attribute. */
  function GetU32(tb: Table, id: nat): nat
    requires id < |tb| && tb[id].Some?
  {
    U32(tb[id].value, 0)
  }

  /** The switch over the command in nl80211_handle_attrs. The station commands read MAC unchecked. */
  function ReportOf(cmd: nat, tb: Table): (r: Report)
    requires WellFormed(tb)
    requires IsStationCommand(cmd) ==> tb[ATTR_MAC].Some?
    ensures IsStationCommand(cmd) <==> r.Station?
    ensures r.Connect? <==> cmd == CMD_CONNECT
    ensures r.Connect? ==> (r.peer.Some? <==> tb[ATTR_MAC].Some?) && (r.ssidSeen <==> tb[ATTR_SSID].Some?)
    ensures r.Connect? ==> r.status == if tb[ATTR_STATUS_CODE].Some? then GetU16(tb, ATTR_STATUS_CODE) else 0
    ensures r.Disconnect? <==> cmd == CMD_DISCONNECT
    ensures r.Disconnect? ==> (r.reason.Some? <==> tb[ATTR_REASON_CODE].Some?)
    ensures r.Associate? <==> cmd == CMD_ASSOCIATE
    ensures r.Associate? ==> (r.peer.Some? <==> tb[ATTR_MAC].Some?)
    ensures r.UnknownEvent? <==> cmd == 0 || cmd > 71
    // The values printed.
    ensures r.Station? ==> r.mac == tb[ATTR_MAC].value
    ensures r.Station? ==>
              (r.op == GetStation <==> cmd == CMD_GET_STATION) && (r.op == SetStation <==> cmd == CMD_SET_STATION) &&
              (r.op == AddStation <==> cmd == CMD_NEW_STATION) && (r.op == RemoveStation <==> cmd == CMD_DEL_STATION)
    ensures r.Associate? ==> r.peer == tb[ATTR_MAC]
    ensures r.Connect? ==> r.peer == tb[ATTR_MAC]
    ensures r.Disconnect? ==> r.reason == if tb[ATTR_REASON_CODE].Some? then Some(GetU16(tb, ATTR_REASON_CODE)) else None
  {
    if 1 <= cmd <= 4 || cmd == 49 then WiphyMgmt
    else if 5 <= cmd <= 8 then InterfaceMgmt
    else if 9 <= cmd <= 12 then KeyMgmt
    else if 13 <= cmd <= 16 || cmd == 42 then BeaconMgmt
    else if IsStationCommand(cmd) then
      var op := if cmd == CMD_GET_STATION then GetStation
                else if cmd == CMD_SET_STATION then SetStation
                else if cmd == CMD_NEW_STATION then AddStation
                else RemoveStation;
      Station(op, tb[ATTR_MAC].value)
    else if 21 <= cmd <= 24 then MpathMgmt
    else if cmd == 25 || cmd == 30 || cmd == 43 || cmd == 44 then BssMgmt
    else if cmd == 28 || cmd == 29 || cmd == 68 || cmd == 69 then MeshMgmt
    else if cmd == 32 then ScanGet
    else if cmd == CMD_TRIGGER_SCAN then ScanTriggered
    else if cmd == CMD_NEW_SCAN_RESULTS then ScanFinished
    else if cmd == 35 then ScanAborted
    else if cmd == 31 then RegGet
    else if cmd == 26 then RegSet
    else if cmd == 36 then RegChange
    else if cmd == 27 then RegRequest
    else if cmd == 37 then Authenticate
    else if cmd == CMD_ASSOCIATE then Associate(tb[ATTR_MAC])
    else if cmd == 39 then Deauthenticate
    else if cmd == 40 then Disassociate
    else if cmd == 41 then MicFailure
    else if cmd == 45 then Testmode
    else if cmd == CMD_CONNECT then
      var status := if tb[ATTR_STATUS_CODE].Some? then GetU16(tb, ATTR_STATUS_CODE) else 0;
      Connect(tb[ATTR_SSID].Some?, tb[ATTR_MAC], status)
    else if cmd == CMD_ROAM then Roam
    else if cmd == CMD_DISCONNECT then
      Disconnect(if tb[ATTR_REASON_CODE].Some? then Some(GetU16(tb, ATTR_REASON_CODE)) else None)
    else if cmd == 50 || cmd == 51 then SurveyMgmt
    else if 52 <= cmd <= 54 then PmksaMgmt
    else if cmd == 55 || cmd == 56 || cmd == 65 then ChannelMgmt
    else if cmd == 57 then BitRateMask
    else if 58 <= cmd <= 60 then FrameMgmt
    else if cmd == 61 || cmd == 62 then PowerMgmt
    else if cmd == 63 || cmd == 64 then CqmMgmt
    else if cmd == 66 || cmd == 67 then Silent
    else if cmd == 70 || cmd == 71 then UnprotectedFailure
    else UnknownEvent
  }

  /** The management lines of the switch, by command number (linux/nl80211.h). */
  lemma ManagementLines(cmd: nat, tb: Table)
    requires WellFormed(tb)
    requires IsStationCommand(cmd) ==> tb[ATTR_MAC].Some?
    ensures ReportOf(cmd, tb).WiphyMgmt? <==> 1 <= cmd <= 4 || cmd == 49       // GET/SET/NEW/DEL_WIPHY, SET_WIPHY_NETNS
    ensures ReportOf(cmd, tb).InterfaceMgmt? <==> 5 <= cmd <= 8                // GET/SET/NEW/DEL_INTERFACE
    ensures ReportOf(cmd, tb).KeyMgmt? <==> 9 <= cmd <= 12                     // GET/SET/NEW/DEL_KEY
    ensures ReportOf(cmd, tb).BeaconMgmt? <==> 13 <= cmd <= 16 || cmd == 42    // GET/SET/NEW/DEL_BEACON, REG_BEACON_HINT
    ensures ReportOf(cmd, tb).MpathMgmt? <==> 21 <= cmd <= 24                  // GET/SET/NEW/DEL_MPATH
    ensures ReportOf(cmd, tb).BssMgmt? <==> cmd in {25, 30, 43, 44}            // SET_BSS, SET_MGMT_EXTRA_IE, JOIN/LEAVE_IBSS
    ensures ReportOf(cmd, tb).MeshMgmt? <==> cmd in {28, 29, 68, 69}           // GET/SET_MESH_CONFIG, JOIN/LEAVE_MESH
  {
  }

  /** The scan and regulatory lines. */
  lemma ScanAndRegLines(cmd: nat, tb: Table)
    requires WellFormed(tb)
    requires IsStationCommand(cmd) ==> tb[ATTR_MAC].Some?
    ensures ReportOf(cmd, tb).ScanGet? <==> cmd == 32
    ensures ReportOf(cmd, tb).ScanTriggered? <==> cmd == CMD_TRIGGER_SCAN
    ensures ReportOf(cmd, tb).ScanFinished? <==> cmd == CMD_NEW_SCAN_RESULTS
    ensures ReportOf(cmd, tb).ScanAborted? <==> cmd == 35
    ensures ReportOf(cmd, tb).RegGet? <==> cmd == 31
    ensures ReportOf(cmd, tb).RegSet? <==> cmd == 26
    ensures ReportOf(cmd, tb).RegChange? <==> cmd == 36
    ensures ReportOf(cmd, tb).RegRequest? <==> cmd == 27                       // REQ_SET_REG
  {
  }

  /** The authentication, association and test lines. */
  lemma ConnectionLines(cmd: nat, tb: Table)
    requires WellFormed(tb)
    requires IsStationCommand(cmd) ==> tb[ATTR_MAC].Some?
    ensures ReportOf(cmd, tb).Authenticate? <==> cmd == 37
    ensures ReportOf(cmd, tb).Deauthenticate? <==> cmd == 39
    ensures ReportOf(cmd, tb).Disassociate? <==> cmd == 40
    ensures ReportOf(cmd, tb).MicFailure? <==> cmd == 41                       // MICHAEL_MIC_FAILURE
    ensures ReportOf(cmd, tb).Testmode? <==> cmd == 45
    ensures ReportOf(cmd, tb).Roam? <==> cmd == CMD_ROAM
  {
  }

  /** The remaining fixed lines; SET_WDS_PEER and FRAME_WAIT_CANCEL print nothing. */
  lemma OtherLines(cmd: nat, tb: Table)
    requires WellFormed(tb)
    requires IsStationCommand(cmd) ==> tb[ATTR_MAC].Some?
    ensures ReportOf(cmd, tb).SurveyMgmt? <==> cmd == 50 || cmd == 51          // GET_SURVEY, NEW_SURVEY_RESULTS
    ensures ReportOf(cmd, tb).PmksaMgmt? <==> 52 <= cmd <= 54                  // SET/DEL/FLUSH_PMKSA
    ensures ReportOf(cmd, tb).ChannelMgmt? <==> cmd in {55, 56, 65}            // (CANCEL_)REMAIN_ON_CHANNEL, SET_CHANNEL
    ensures ReportOf(cmd, tb).BitRateMask? <==> cmd == 57                      // SET_TX_BITRATE_MASK
    ensures ReportOf(cmd, tb).FrameMgmt? <==> 58 <= cmd <= 60                  // REGISTER_FRAME, FRAME, FRAME_TX_STATUS
    ensures ReportOf(cmd, tb).PowerMgmt? <==> cmd == 61 || cmd == 62           // SET/GET_POWER_SAVE
    ensures ReportOf(cmd, tb).CqmMgmt? <==> cmd == 63 || cmd == 64             // SET/NOTIFY_CQM
    ensures ReportOf(cmd, tb).Silent? <==> cmd == 66 || cmd == 67              // SET_WDS_PEER, FRAME_WAIT_CANCEL
    ensures ReportOf(cmd, tb).UnprotectedFailure? <==> cmd == 70 || cmd == 71  // UNPROT_DEAUTHENTICATE/DISASSOCIATE
  {
  }

  /** Whether the switch over the command in nl80211_handle_attrs marks attribute `id` as used. */
  predicate SwitchMarks(cmd: nat, tb: Table, id: nat)
    requires WellFormed(tb)
  {
    (id == ATTR_MAC && (IsStationCommand(cmd) || ((cmd == CMD_ASSOCIATE || cmd == CMD_CONNECT) && tb[ATTR_MAC].Some?)))
    || (id == ATTR_STATUS_CODE && cmd == CMD_CONNECT && tb[ATTR_STATUS_CODE].Some?)
    || (id == ATTR_REASON_CODE && cmd == CMD_DISCONNECT && tb[ATTR_REASON_CODE].Some?)
  }

  /** Whether nl80211_handle_attrs marks attribute `id` as used. */
  predicate Marks(cmd: nat, tb: Table, id: nat)
    requires WellFormed(tb)
  {
    (id == ATTR_WIPHY && tb[ATTR_WIPHY].Some?)
    || (id == ATTR_IFINDEX && tb[ATTR_IFINDEX].Some?)
    || SwitchMarks(cmd, tb, id)
  }

  /** The `parsed[]` array nl80211_handle_attrs leaves behind. */
  function MarkVector(cmd: nat, tb: Table): (v: seq<bool>)
    requires WellFormed(tb)
    ensures |v| == |tb|
  {
    seq(|tb|, i requires 0 <= i => Marks(cmd, tb, i))
  }

  /**
   * Only present attributes are marked, except MAC under a station command, which
   * the source reads unchecked; and only WIPHY, IFINDEX, MAC, STATUS_CODE and
   * REASON_CODE are ever marked.
   */
  lemma MarkedArePresent(cmd: nat, tb: Table, id: nat)
    requires WellFormed(tb) && Marks(cmd, tb, id)
    ensures id < |tb|
    ensures tb[id].Some? || (id == ATTR_MAC && IsStationCommand(cmd))
    ensures id in {ATTR_WIPHY, ATTR_IFINDEX, ATTR_MAC, ATTR_STATUS_CODE, ATTR_REASON_CODE}
  {
  }

  /**
   * nl80211_handle_attrs: clear `parsed[]`, read WIPHY and IFINDEX when present,
   * act on the command, marking each attribute it reads, and return the number of
   * present attributes left unread. Also returns the interface index (when IFINDEX
   * is present) and the report the switch prints.
   */
  method HandleAttrs(cmd: nat, tb: Table) returns (ifindex: Option<nat>, report: Report, unparsed: nat)
    requires WellFormed(tb)
    requires IsStationCommand(cmd) ==> tb[ATTR_MAC].Some?
    ensures ifindex.Some? <==> tb[ATTR_IFINDEX].Some?
    ensures ifindex.Some? ==> ifindex.value == GetU32(tb, ATTR_IFINDEX)
    ensures report == ReportOf(cmd, tb)
    ensures unparsed == CountUnparsed(tb, MarkVector(cmd, tb), AttrMax(tb))
  {
    var parsed := new bool[|tb|](_ => false);
    if tb[ATTR_WIPHY].Some? {
      var wiphy := GetU32(tb, ATTR_WIPHY);
      parsed[ATTR_WIPHY] := true;
    }
    ifindex := None;
    if tb[ATTR_IFINDEX].Some? {
      ifindex := Some(GetU32(tb, ATTR_IFINDEX));
      parsed[ATTR_IFINDEX] := true;
    }
    if IsStationCommand(cmd) {
      parsed[ATTR_MAC] := true;
    } else if cmd == CMD_ASSOCIATE {
      if tb[ATTR_MAC].Some? {
        parsed[ATTR_MAC] := true;
      }
    } else if cmd == CMD_CONNECT {
      if tb[ATTR_STATUS_CODE].Some? {
        parsed[ATTR_STATUS_CODE] := true;
      }
      if tb[ATTR_MAC].Some? {
        parsed[ATTR_MAC] := true;
      }
    } else if cmd == CMD_DISCONNECT {
      if tb[ATTR_REASON_CODE].Some? {
        parsed[ATTR_REASON_CODE] := true;
      }
    }
    assert parsed[..] == MarkVector(cmd, tb);
    var ids, summary;
    unparsed, ids, summary := NlUnparsedIds(tb, parsed);
    report := ReportOf(cmd, tb);
  }

  /**
   * The handler's result accounts for every counted attribute: the unread ones plus
   * the marked present ones make up nl_attr_count's total.
   */
  lemma HandleAttrsAccounts(cmd: nat, tb: Table)
    requires WellFormed(tb)
    ensures CountUnparsed(tb, MarkVector(cmd, tb), AttrMax(tb)) + CountMarked(tb, MarkVector(cmd, tb), AttrMax(tb))
            == CountPresent(tb, AttrMax(tb))
  {
    UnparsedAndMarked(tb, MarkVector(cmd, tb), AttrMax(tb));
  }

  /**
   * Outside the station, ASSOCIATE, CONNECT and DISCONNECT commands only WIPHY and
   * IFINDEX are marked, and each exactly when present.
   */
  lemma OtherCommandsMarkHeaderOnly(cmd: nat, tb: Table, id: nat)
    requires WellFormed(tb) && id < |tb|
    requires !IsStationCommand(cmd) && cmd != CMD_ASSOCIATE && cmd != CMD_CONNECT && cmd != CMD_DISCONNECT
    ensures MarkVector(cmd, tb)[id] <==> (id == ATTR_WIPHY || id == ATTR_IFINDEX) && tb[id].Some?
  {
  }

  /**
   * What the handler reports agrees with what it marks: an ASSOCIATE or CONNECT
   * names a peer exactly when MAC is marked, a CONNECT's status is the default 0
   * unless STATUS_CODE is marked, and a DISCONNECT carries a reason exactly when
   * REASON_CODE is marked.
   */
  lemma ReportAgreesWithMarks(cmd: nat, tb: Table)
    requires WellFormed(tb)
    requires IsStationCommand(cmd) ==> tb[ATTR_MAC].Some?
    ensures var r := ReportOf(cmd, tb); var v := MarkVector(cmd, tb);
            && (r.Associate? || r.Connect? ==> (r.peer.Some? <==> v[ATTR_MAC]))
            && (r.Connect? && !v[ATTR_STATUS_CODE] ==> r.status == 0)
            && (r.Connect? && v[ATTR_STATUS_CODE] ==> r.status == GetU16(tb, ATTR_STATUS_CODE))
            && (r.Disconnect? ==> (r.reason.Some? <==> v[ATTR_REASON_CODE]))
            && (r.Station? ==> v[ATTR_MAC] && r.mac == tb[ATTR_MAC].value)
  {
  }

  /** A message carrying WIPHY or IFINDEX always has the summary line printed. */
  lemma HeaderForcesSummary(cmd: nat, tb: Table)
    requires WellFormed(tb)
    requires tb[ATTR_WIPHY].Some? || tb[ATTR_IFINDEX].Some?
    ensures CountUnparsed(tb, MarkVector(cmd, tb), AttrMax(tb)) < CountPresent(tb, AttrMax(tb))
  {
    var v := MarkVector(cmd, tb);
    var id := if tb[ATTR_WIPHY].Some? then ATTR_WIPHY else ATTR_IFINDEX;
    MarkedCounted(tb, v, id, AttrMax(tb));
    SummaryIffSomeMarked(tb, v, AttrMax(tb));
  }

  /** A present, marked slot below n adds to the marked count. */
  lemma {:induction false} MarkedCounted(tb: Table, parsed: seq<bool>, id: nat, n: nat)
    requires n <= |tb| && n <= |parsed| && id < n
    requires tb[id].Some? && parsed[id]
    ensures CountMarked(tb, parsed, n) > 0
  {
    if id < n - 1 {
      MarkedCounted(tb, parsed, id, n - 1);
    }
  }
}
