# neteventd: rtnetlink decoding and classification, modelled in Dafny

neteventd is a Linux daemon. It listens on a routing-netlink (rtnetlink) socket and
reports link, address, neighbour and route changes. This project models the part of
the daemon that turns a received datagram into an event, together with its small
supporting pieces:

- **Attribute-table decoder** (`RtAttrs`, `attrs.dfy`): `parse_rt_attrs`. It walks the
  type-length-value attribute stream with the kernel's `RTA_OK`/`RTA_NEXT` rules and
  fills a table of `max` slots. A later record of the same type replaces an earlier one.
  The loop is a method. It is proved equal to a functional specification (`Walk`,
  `Table`, `InRange`, `Leftover`), and the properties are proved about that
  specification. These include a round trip against an encoder (`Encode`).
- **Family handlers, router and receive gate** (`Rtnl`, `rtnl.dfy`): the link, address,
  neighbour and route handlers of `src/rtnl.c`, the type-code switch `parse_rt_event`,
  and the `NLMSG_OK` gate of `recv_rtnl_msg`. Each handler returns a structured event
  value instead of printing text. Addresses are returned as attribute spans.
- **End-to-end lemmas** (`RtnlMessages`, `messages.dfy`): whole datagrams built from a
  header, a family header and attributes, run through the router.
- **Handler registry** (`Events`, `events.dfy`): `struct event_handler`, a class with
  two 64-slot arrays, and `event_init`, `event_register` and `event_push`.
- **Command-line glue** (`Cli`, `cli.dfy`): `init_opts`, `set_opt`, `parse_filters`,
  `parse_opts` and the start-up sequence of `main` in `src/neteventd.c`.
- **nl80211 bookkeeping** (`Nl80211`, `nl80211.dfy`): `nl_attr_count`,
  `nl_unparsed_ids` and the `parsed[]` marking of `nl80211_handle_attrs`. The attribute
  table that libnl would build is an input.
- **Byte helpers** (`Utils`, `utils.dfy`): `zero_addr` and `print_binary_stream`.
- **Shared vocabulary** (`Wire`, `wire.dfy`): `Option`, bytes, and little-endian field
  reads from the zero-filled 2048-byte receive buffer.

Where the design description and the code disagree, the model follows the code:

- The design describes the registry as append-only with no slot reuse. In the code,
  `event_register(h, NULL)` stores NULL, so that slot stays empty and the next
  registration takes it again. `Events.RegisterSlots` does the same.
- The design says every message in a shared receive buffer is length-checked and
  dispatched. `recv_rtnl_msg` checks and pushes only the first header
  (`Rtnl.RecvRtnlMsg`).
- The design calls the neighbour classifier total. In the code, the detectors read the
  cache info through an uninitialised pointer when `NDA_CACHEINFO` is absent. The
  model gives that case its own outcome (`NeighUndefined`) and says nothing about it. When the
  detectors do not read it and the event is Unknown, the dump's own test of that pointer is
  modelled as "no cache info" (see "Left out").

## Model

| member | source | states |
|---|---|---|
| RtAttrs.ParseRtAttrs | src/rtnl.c:29-51 | The decoding loop computes exactly the specified table, in-range count and "unparsed bytes" flag for the records walked under RTA_OK/RTA_NEXT |
| RtAttrs.TableLastWins | src/rtnl.c:36-44 | A slot below `max` is empty iff its type is 0 or no walked record has that type; a filled slot holds the last record of its type in stream order |
| RtAttrs.InRangeCountsRecords | src/rtnl.c:38-45 | The returned count is the number of walked records whose type lies in [1, max), repeats included |
| RtAttrs.FilledAtMostCount | src/rtnl.c:38-45 | The number of filled slots never exceeds the returned count |
| RtAttrs.WalkInBounds | src/rtnl.c:38 | Every walked record lies inside the declared length and starts where the previous aligned record ends; each step consumes at least 4 bytes; the walk overshoots by less than 4 bytes |
| RtAttrs.WalkOfEncoding | src/rtnl.c:38-45 | Walking an encoded attribute stream visits one record per attribute, with its type and payload, and leaves no bytes over |
| RtAttrs.DecodeEncodeLastWins | src/rtnl.c:36-48 | Decoding an encoded stream reports no unparsed bytes, and the slot of an in-range type holds the payload of the last attribute of that type |
| RtAttrs.DecodeEncodeAbsent | src/rtnl.c:36-48 | Decoding an encoded stream leaves the slot of a type that no attribute carries empty |
| RtAttrs.DecodeEncodePresent | src/rtnl.c:36-48 | Decoding an encoded stream fills the slot of an in-range type iff some attribute carries that type |
| Rtnl.AdminChanges | src/rtnl.c:53-66 | UP iff the change mask and the flags both have IFF_UP; DOWN iff the change mask has IFF_UP and the flags do not; never both; nothing when the change bit is clear |
| Rtnl.HandleLinkAttrs | src/rtnl.c:403-446 | Summary iff name, address and MTU are present; IFLA_LINK noted iff present; the wireless payload forwarded with the header's index iff IFLA_WIRELESS is present |
| Rtnl.AddrActionOf | src/rtnl.c:68-81 | "Added" only for RTM_NEWADDR, "Removed" only for RTM_DELADDR, nothing for any other type |
| Rtnl.HandleAddrAttrs | src/rtnl.c:83-127 | An event iff cacheinfo and address are present, the family is AF_INET or AF_INET6, tstamp == cstamp, and the type is NEWADDR or DELADDR; it carries the address span, family and index |
| Rtnl.ClassifyNeigh | src/rtnl.c:199-262 | First-match chain Added, Updated, Expired, Removed, Unknown, with the literal 15000; Unknown iff no detector holds; what each label implies about the state bits and counters |
| Rtnl.NeighClassifierExamples | src/rtnl.c:199-228 | NEW+REACHABLE with zero counters is Added; used = confirmed = 5 is Updated; NEW+STALE with other counters is Expired; DEL+STALE is Removed |
| Rtnl.StaleAnnouncementIsAdded | src/rtnl.c:199-228 | A just-learnt stale entry satisfies the Expired guard too, but is classified Added because Added comes first |
| Rtnl.NudFlags | src/rtnl.c:167-191 | The state dump lists exactly the flags whose bit is set, among the seven it knows, in the order INCOMPLETE, REACHABLE, STALE, DELAY, FAILED, NOARP, PERMANENT |
| Rtnl.ProbeIsNotListed | src/rtnl.c:167-191 | A NUD_PROBE-only state dumps no flag, since the dump does not test NUD_PROBE |
| Rtnl.HandleNeighAttrs | src/rtnl.c:230-264 | The action is the classifier's; green iff Added, yellow iff Updated, otherwise red; the dump is attached iff Unknown and holds the set state flags and the message's cache info (if it carries one) |
| Rtnl.PresentFields | src/rtnl.c:318-330 | The fallback lists exactly the present fields, in the order gw, dst, src, oif, iif |
| Rtnl.RouteShapeOf | src/rtnl.c:304-331 | First-match shape choice: full, via-gateway, device, default route, fallback, each characterised by exactly the attribute sets that reach it; each line carries the destination, source and gateway attributes, the header's prefix lengths and the output interface it prints |
| Rtnl.HandleRouteAttrs | src/rtnl.c:287-366 | A route event iff the type is NEWROUTE or DELROUTE; green iff Added; the shape is the first-match choice over the decoded attributes |
| Rtnl.FamilyOf | src/rtnl.c:468-492 | NEW, DEL and GET of LINK, ADDR, NEIGH and ROUTE map to their family; every other type maps to none |
| Rtnl.HandleLinkMsg | src/rtnl.c:448-461 | Attributes are decoded from byte 32, behind the 16-byte `ifinfomsg`; the outcome holds the header's administrative change, a wireless payload iff IFLA_WIRELESS was decoded, and the decoder's unparsed flag |
| Rtnl.HandleAddrMsg | src/rtnl.c:130-139 | Attributes are decoded from byte 24, behind the 8-byte `ifaddrmsg`; an address event iff the guard holds over that table and the type is NEWADDR or DELADDR, carrying its IFA_ADDRESS |
| Rtnl.HandleNeighMsg | src/rtnl.c:266-275 | Attributes are decoded from byte 28, behind a 12-byte header; the outcome is undefined iff the detectors would read an absent NDA_CACHEINFO, otherwise the classifier's action over that table |
| Rtnl.HandleRouteMsg | src/rtnl.c:391-400 | Attributes are decoded from byte 28, behind the 12-byte `rtmsg`; a route event iff NEWROUTE or DELROUTE, whose shape is chosen from the header bytes 16-18 and that table |
| Rtnl.ParseRtEvent | src/rtnl.c:463-495 | The unknown-event outcome iff the type belongs to no family; otherwise the outcome is that of the type's family handler |
| Rtnl.RecvRtnlMsg | src/rtnl.c:527-548 | Returns -1 when `bytes <= 0`, else 0; pushes the buffer to the registry once iff the first header passes NLMSG_OK, otherwise calls nothing |
| RtnlMessages.LaidOutPassesGate | src/rtnl.c:542 | A datagram whose header states its own size passes NLMSG_OK |
| RtnlMessages.MessageLayout | src/rtnl.c:465-468 | A datagram built from a type, a family header and attributes reads back its own length and type |
| RtnlMessages.LinkMessageForwardsWireless | src/rtnl.c:440-458 | A link message reports the change its header announces and forwards the payload of its last IFLA_WIRELESS attribute, byte for byte, with its interface index |
| RtnlMessages.LinkMessageWithoutWireless | src/rtnl.c:440-443 | A link message without IFLA_WIRELESS forwards nothing |
| RtnlMessages.AddrMessageReported | src/rtnl.c:93-139 | An IPv4/IPv6 NEWADDR or DELADDR message with equal stamps is reported as Added or Removed with the address of its last IFA_ADDRESS |
| RtnlMessages.AddrMessageRefreshSilent | src/rtnl.c:88-124 | An address message whose stamps differ is not reported |
| RtnlMessages.NeighMessageClassified | src/rtnl.c:266-275 | A neighbour message is classified from its header state and the counters of its last NDA_CACHEINFO, read after a 12-byte header |
| RtnlMessages.RouteMessageReported | src/rtnl.c:391-400 | A NEWROUTE or DELROUTE message is reported as Added or Removed, with the header's family and prefix lengths, and the shape chosen over the attributes decoded behind the 12-byte `rtmsg`; a route attribute is present iff the message carries one of its type |
| RtnlMessages.RouteMessageViaGateway | src/rtnl.c:304-311 | A route message with destination, output interface and gateway but no source is a via-gateway line carrying the last RTA_DST and RTA_GATEWAY payloads, the header's prefix length and the RTA_OIF word |
| RtnlMessages.UnknownTypeNotHandled | src/rtnl.c:489-494 | A message of any other type is an unknown event |
| Events.FirstEmpty | src/events.c:21-22 | The scan stops at the lowest empty slot, all slots before it occupied; or finds none, every slot occupied |
| Events.FanoutFollowsOccupied | src/events.c:39-43 | A push makes one call per occupied slot, in index order, each with the same buffer and length |
| Events.RegistrationsFillPrefix | src/events.c:18-32 | Starting from a registry whose first slots hold earlier handlers, k more non-NULL registrations (within 64) occupy the next k slots in call order and nothing else |
| Events.PushAfterRegistrations | src/events.c:7-44 | After init and k <= 64 registrations, a push calls exactly those handlers, in registration order |
| Events.EventHandler.Init | src/events.c:7-15 | All 64 `sync` and all 64 `async` slots become empty |
| Events.EventHandler.Register | src/events.c:18-32 | The handler goes into the lowest empty `sync` slot and 0 is returned; with none, -1 and ENOMEM and nothing changes; `async` is never touched |
| Events.EventHandler.Push | src/events.c:35-44 | The calls made are the fan-out over the `sync` slots; nothing is modified |
| Cli.GroupOf | src/neteventd.c:637-660 | A token maps to the group whose name it is; a token that names no group maps to none |
| Cli.GroupNameRoundTrip | src/neteventd.c:637-656 | Each of the ten group names is recognised as its own group |
| Cli.GroupsNamedExists | src/neteventd.c:635-660 | Collecting groups succeeds iff every token is recognised |
| Cli.GroupsNamedMembers | src/neteventd.c:635-656 | The collected groups are exactly those named among the tokens |
| Cli.GroupsNamedOrderFree | src/neteventd.c:633-667 | Token lists with the same tokens, in any order and with any repetition, collect the same groups or both fail |
| Cli.MaskAddOne | src/neteventd.c:637-656 | ORing in a token's bit adds exactly its own group to the mask |
| Cli.FilterOrderFree | src/neteventd.c:633-667 | The filter does not depend on token order or repetition |
| Cli.AllGroupsIsDefault | src/neteventd.c:63 | Naming all ten groups gives the default filter |
| Cli.Daemon.InitOpts | src/neteventd.c:620-623 | The options become zero |
| Cli.Daemon.SetOpt | src/neteventd.c:625-628 | The option bit is ORed in; afterwards it is set, so setting it again changes nothing |
| Cli.Daemon.ParseFilters | src/neteventd.c:631-668 | An unrecognised token exits with status 1 and leaves the filter unwritten; otherwise the filter is the mask of the named groups |
| Cli.StopAtFirst | src/neteventd.c:686-703 | Whichever of help and an unknown option getopt returns first decides the exit status: 0 for help, 1 for an unknown option |
| Cli.Daemon.ParseOpts | src/neteventd.c:670-708 | argc outside [1,5] exits with 1 before option parsing; otherwise the first help exits 0 and the first unknown option exits 1; colour sets OPT_COLOR; trailing tokens set the filter, none leave it alone; a valid command line does not exit |
| Cli.Daemon.Startup | src/neteventd.c:712-731 | Without trailing tokens the filter is DEFAULT_FILTER; option errors exit as parse_opts does; a valid command line yields a registry iff the socket opens, otherwise exit 1; the registry holds parse_rt_event in slot 0 and nothing else |
| Cli.StartRegistry | src/neteventd.c:730-731 | event_init on a registry holding arbitrary slots, then registering parse_rt_event, leaves it alone in slot 0 and every async slot empty |
| Nl80211.NlAttrCount | src/nl80211.c:379-386 | Counts the present slots with index below NL80211_ATTR_MAX |
| Nl80211.LastSlotNotCounted | src/nl80211.c:379-386 | The slot NL80211_ATTR_MAX never affects the count |
| Nl80211.NlUnparsedIds | src/nl80211.c:123-149 | Returns the number of present, unmarked slots below NL80211_ATTR_MAX, lists them in increasing order, never exceeds the attribute count, and prints the summary iff it is below the count |
| Nl80211.UnparsedAtMostPresent | src/nl80211.c:132-149 | The unparsed count is at most the attribute count |
| Nl80211.ReportOf | src/nl80211.c:173-369 | The command switch: the station commands report get, set, add or remove with the MAC; ASSOCIATE and CONNECT name the MAC attribute as peer; CONNECT's status is the STATUS_CODE value or 0; DISCONNECT's reason is the REASON_CODE value iff present; unknown iff the command is 0 or above 71 |
| Nl80211.ManagementLines | src/nl80211.c:174-241 | Wiphy, interface, key, beacon, mpath, bss and mesh management lines each for exactly their command numbers |
| Nl80211.ScanAndRegLines | src/nl80211.c:243-266 | The scan get, triggered, finished and aborted lines and the four regulatory lines each for exactly their command |
| Nl80211.ConnectionLines | src/nl80211.c:267-317 | Authenticate, deauthenticate, disassociate, MIC failure, testmode and roam lines each for exactly their command |
| Nl80211.OtherLines | src/nl80211.c:329-368 | Survey, PMKSA, channel, bit-rate, frame, power and CQM lines for exactly their commands; SET_WDS_PEER and FRAME_WAIT_CANCEL print nothing; the two unprotected-frame commands share a line |
| Nl80211.HandleAttrs | src/nl80211.c:151-373 | Returns the interface index iff IFINDEX is present, the switch's report, and the unparsed count over the final `parsed[]` |
| Nl80211.MarkedArePresent | src/nl80211.c:160-328 | Only present attributes are marked, except MAC under a station command; only WIPHY, IFINDEX, MAC, STATUS_CODE and REASON_CODE are ever marked |
| Nl80211.HandleAttrsAccounts | src/nl80211.c:132-149 | The unparsed and marked present attributes add up to the attribute count |
| Nl80211.OtherCommandsMarkHeaderOnly | src/nl80211.c:160-171 | Outside the station, ASSOCIATE, CONNECT and DISCONNECT commands, only WIPHY and IFINDEX are marked, each iff present |
| Nl80211.ReportAgreesWithMarks | src/nl80211.c:201-328 | What is reported agrees with what is marked: peer iff MAC marked, status 0 unless STATUS_CODE marked, reason iff REASON_CODE marked, station commands always mark MAC |
| Nl80211.HeaderForcesSummary | src/nl80211.c:143-171 | A message carrying WIPHY or IFINDEX always gets the "parsed n of m" line |
| Utils.ZeroAddr | src/utils.c:23-26 | Nonzero iff some byte among the first six is nonzero |
| Utils.ZeroAddrIsAllZero | src/utils.c:23-26 | Only bytes 0..5 are read; the result is zero exactly on the all-zero address |
| Utils.HexRoundTrip | src/utils.c:34 | The "%02X" rendering of a byte stream reads back as that stream |
| Utils.PrintBinaryStream | src/utils.c:28-38 | As written: ceil(buflen/2) bytes are rendered, two digits each, followed by a NUL, whatever `len` is, and nothing else is written (nothing at all when buflen is 0); the text reads back as those bytes, more than `len` of them when `len` is smaller; the buffer itself is returned |
| Utils.PrintBinaryStreamBounded | src/utils.c:28-38 | As intended: renders min(len, ceil(buflen/2)) bytes and a NUL, never reading past the `len` bytes of `data`; the text reads back as that prefix of the payload |
| Utils.AssocResponseHex | src/iw.c:113-118 | The association-response dump renders four bytes into its 128-character buffer whatever `ulen` is, so a payload below four bytes is read past its end |
| Utils.AssocResponseHexBounded | src/iw.c:113-118 | Over the corrected routine the dump renders the first min(ulen, 4) payload bytes, the same four bytes as the source when the payload has them |

## Left out

- Socket creation, bind and the `recv` call (`setup_rtsocket`, `loop_rthandle`), and the nl80211 socket and multicast registration: they are system calls. The bytes received and the socket's success are inputs.
- `src/iw.c` (wireless-extension decoding): it relies on an external library, floating-point frequency conversion and an ioctl. The model stops at the payload handed to `handle_wireless_attr`; only its association-response hex dump (`Utils.AssocResponseHex`) is modelled, as the one caller of `print_binary_stream`.
- `src/console.c`, `src/main.c`, and the decoder and console copies in `src/neteventd.c`: terminal I/O, or superseded duplicates of `src/rtnl.c`.
- `parse_route_proto`: an unused print table.
- `if_indextoname`, `inet_ntop`, `ether_ntoa_r` and all text formatting: events carry interface indices and attribute spans instead of strings.
- Host byte order is taken to be little-endian.
- Reads past the 2048-byte receive buffer are undefined in C. They read as 0 here, like the zero-filled unused part of the buffer.
- Rtnl.ParseRtEvent: the attribute length (`nlmsg_len` minus the headers) is computed as an unbounded integer. The C computes it in 32-bit unsigned and converts it to `int`. The two agree for lengths below 2^31, which holds for everything that passes the receive gate.
- Rtnl.HandleNeighMsg: a neighbour message whose detectors would read the absent `NDA_CACHEINFO` gives `NeighUndefined`, because the C reads an uninitialised pointer there. An absent `NDA_LLADDR` (also uninitialised in C) is modelled as absent.
- Rtnl.HandleNeighAttrs: when `NDA_CACHEINFO` is absent and the event is Unknown (for example a DELNEIGH in state NUD_FAILED, or any GETNEIGH), `parse_ndm_state` tests the uninitialised `ci`; the model takes that test as "no cache info" and dumps the state flags without counters, which the C does not guarantee.
- Rtnl.HandleLinkAttrs: the `strncpy` of `rta_len` bytes into a 16-byte interface name is not modelled. The broadcast address, printed uninitialised when absent, is modelled as absent.
- Attribute-type maxima (`IFLA_MAX`, `IFA_MAX`, `NDA_MAX`, `RTN_MAX`), `NL80211_ATTR_MAX` and the nl80211 command numbers come from the kernel headers of the daemon's era. `NL80211_ATTR_MAX` is the last index of the input table.
- Nl80211.ReportOf: requires MAC to be present for the four station commands. The C dereferences it without a check.
- Nl80211.HandleAttrs: requires MAC to be present for the four station commands, for the same reason. The attribute names printed and the 256-character id list are not modelled.
- Events: a handler is known only by its identity. A push records each call it makes instead of running it, and the handlers' return values are not modelled because the registry ignores them.
- Cli: `getopt_long` is not modelled. The option characters it returns and its final `optind` are inputs. `exit(status)` is modelled as returning `Some(status)`. The "Filter:" echo and the help texts are left out.
- Utils.PrintBinaryStream: requires `data` to stand for ceil(buflen/2) readable bytes from the data pointer on, and the buffer to have room for the last NUL. Bytes read past the payload are modelled as whatever that memory holds; the finding below shows when that happens.
- Utils.PrintBinaryStreamBounded: also NUL-terminates an empty rendering, which the C loop would leave unwritten.

## Findings

| source | as written | input that shows it | evidently intended | confidence | as-written member | corrected member |
|---|---|---|---|---|---|---|
| src/utils.c:33-34 | The loop condition `i<len, offset<buflen` uses the comma operator, so only `offset<buflen` decides. The loop renders ceil(buflen/2) bytes whatever `len` is. | The association-response dump (src/iw.c:117) passes buflen 8; with ulen = 1 four bytes are read from the payload pointer, three of them past the payload | the loop runs while `i<len && offset<buflen`, rendering min(len, ceil(buflen/2)) bytes | high; not executed | Utils.AssocResponseHex | Utils.AssocResponseHexBounded |
