/**
 * Start-up of the daemon (src/neteventd.c): the option word, the multicast-group
 * filter built from the command-line tokens, and the start-up sequence of `main`.
 *
 * A group filter is a 32-bit mask of rtnetlink multicast groups; each of ten
 * tokens on the command line names one group. `getopt_long` is not modelled: the
 * option characters it returns and the index it stops at are inputs. A call to
 * `exit(status)` is modelled as the method returning `Some(status)`; its caller
 * returns at once.
 */
module Cli {
  import opened Wire
  import Events

  // Multicast groups (linux/rtnetlink.h).
  const RTMGRP_LINK: bv32 := 0x1
  const RTMGRP_NOTIFY: bv32 := 0x2
  const RTMGRP_NEIGH: bv32 := 0x4
  const RTMGRP_IPV4_IFADDR: bv32 := 0x10
  const RTMGRP_IPV4_MROUTE: bv32 := 0x20
  const RTMGRP_IPV4_ROUTE: bv32 := 0x40
  const RTMGRP_IPV6_IFADDR: bv32 := 0x100
  const RTMGRP_IPV6_MROUTE: bv32 := 0x200
  const RTMGRP_IPV6_ROUTE: bv32 := 0x400
  const RTMGRP_IPV6_IFINFO: bv32 := 0x800

  /** The groups the daemon listens to when no filter is given. */
  const DEFAULT_FILTER: bv32 :=
    RTMGRP_LINK | RTMGRP_NOTIFY | RTMGRP_NEIGH | RTMGRP_IPV6_IFADDR | RTMGRP_IPV6_ROUTE |
    RTMGRP_IPV6_MROUTE | RTMGRP_IPV6_IFINFO | RTMGRP_IPV4_IFADDR | RTMGRP_IPV4_ROUTE | RTMGRP_IPV4_MROUTE

  const OPT_COLOR: bv32 := 1

  datatype Group =
    | Link | Notify | Neigh
    | Ipv6IfAddr | Ipv6Route | Ipv6MRoute | Ipv6IfInfo
    | Ipv4IfAddr | Ipv4Route | Ipv4MRoute

  function GroupBit(g: Group): bv32
  {
    match g
    case Link => RTMGRP_LINK
    case Notify => RTMGRP_NOTIFY
    case Neigh => RTMGRP_NEIGH
    case Ipv6IfAddr => RTMGRP_IPV6_IFADDR
    case Ipv6Route => RTMGRP_IPV6_ROUTE
    case Ipv6MRoute => RTMGRP_IPV6_MROUTE
    case Ipv6IfInfo => RTMGRP_IPV6_IFINFO
    case Ipv4IfAddr => RTMGRP_IPV4_IFADDR
    case Ipv4Route => RTMGRP_IPV4_ROUTE
    case Ipv4MRoute => RTMGRP_IPV4_MROUTE
  }

  /** The command-line token that names a group. */
  function GroupName(g: Group): string
  {
    match g
    case Link => "RTMGRP_LINK"
    case Notify => "RTMGRP_NOTIFY"
    case Neigh => "RTMGRP_NEIGH"
    case Ipv6IfAddr => "RTMGRP_IPV6_IFADDR"
    case Ipv6Route => "RTMGRP_IPV6_ROUTE"
    case Ipv6MRoute => "RTMGRP_IPV6_MROUTE"
    case Ipv6IfInfo => "RTMGRP_IPV6_IFINFO"
    case Ipv4IfAddr => "RTMGRP_IPV4_IFADDR"
    case Ipv4Route => "RTMGRP_IPV4_ROUTE"
    case Ipv4MRoute => "RTMGRP_IPV4_MROUTE"
  }

  /** The comparison chain of parse_filters: which group a token names, if any. */
  function GroupOf(token: string): (r: Option<Group>)
    ensures r.Some? ==> GroupName(r.value) == token
    ensures r.None? ==> forall g: Group :: GroupName(g) != token
  {
    if token == "RTMGRP_LINK" then Some(Link)
    else if token == "RTMGRP_NOTIFY" then Some(Notify)
    else if token == "RTMGRP_NEIGH" then Some(Neigh)
    else if token == "RTMGRP_IPV6_IFADDR" then Some(Ipv6IfAddr)
    else if token == "RTMGRP_IPV6_ROUTE" then Some(Ipv6Route)
    else if token == "RTMGRP_IPV6_MROUTE" then Some(Ipv6MRoute)
    else if token == "RTMGRP_IPV6_IFINFO" then Some(Ipv6IfInfo)
    else if token == "RTMGRP_IPV4_IFADDR" then Some(Ipv4IfAddr)
    else if token == "RTMGRP_IPV4_ROUTE" then Some(Ipv4Route)
    else if token == "RTMGRP_IPV4_MROUTE" then Some(Ipv4MRoute)
    else None
  }

  /** Each group's name is recognised as that group: names and groups correspond one to one. */
  lemma GroupNameRoundTrip(g: Group)
    ensures GroupOf(GroupName(g)) == Some(g)
  {
    assert GroupName(g) in {"RTMGRP_LINK", "RTMGRP_NOTIFY", "RTMGRP_NEIGH", "RTMGRP_IPV6_IFADDR",
                            "RTMGRP_IPV6_ROUTE", "RTMGRP_IPV6_MROUTE", "RTMGRP_IPV6_IFINFO",
                            "RTMGRP_IPV4_IFADDR", "RTMGRP_IPV4_ROUTE", "RTMGRP_IPV4_MROUTE"};
  }

  /** Every token names a group. */
  predicate Recognised(tokens: seq<string>)
  {
    forall i :: 0 <= i < |tokens| ==> GroupOf(tokens[i]).Some?
  }

  /** The groups parse_filters collects from `tokens`, or None if some token names no group. */
  function GroupsNamed(tokens: seq<string>): Option<set<Group>>
  {
    if tokens == [] then Some({})
    else
      match GroupsNamed(tokens[..|tokens| - 1])
      case None => None
      case Some(gs) =>
        match GroupOf(tokens[|tokens| - 1])
        case None => None
        case Some(g) => Some(gs + {g})
  }

  /** Collecting is all-or-nothing: it succeeds iff every token names a group. */
  lemma {:induction false} GroupsNamedExists(tokens: seq<string>)
    ensures GroupsNamed(tokens).Some? <==> Recognised(tokens)
  {
    if tokens != [] {
      var init := tokens[..|tokens| - 1];
      GroupsNamedExists(init);
      assert forall i :: 0 <= i < |init| ==> init[i] == tokens[i];
    }
  }

  /** The groups collected are exactly those whose names occur among the tokens. */
  lemma {:induction false} GroupsNamedMembers(tokens: seq<string>, g: Group)
    requires GroupsNamed(tokens).Some?
    ensures g in GroupsNamed(tokens).value <==> GroupName(g) in tokens
  {
    if tokens != [] {
      var init, last := tokens[..|tokens| - 1], tokens[|tokens| - 1];
      GroupsNamedMembers(init, g);
      assert tokens == init + [last];
      GroupNameRoundTrip(g);
    }
  }

  /** One more recognised token adds its group. */
  lemma GroupsNamedStep(tokens: seq<string>, n: nat, gs: set<Group>, g: Group)
    requires n < |tokens| && GroupsNamed(tokens[..n]) == Some(gs) && GroupOf(tokens[n]) == Some(g)
    ensures GroupsNamed(tokens[..n + 1]) == Some(gs + {g})
  {
    assert tokens[..n + 1][..n] == tokens[..n];
  }

  /** If every token of `a` names a group, so does every token of `b` drawn from `a`. */
  lemma RecognisedFrom(a: seq<string>, b: seq<string>)
    requires forall t :: t in b ==> t in a
    requires Recognised(a)
    ensures Recognised(b)
  {
    forall i | 0 <= i < |b|
      ensures GroupOf(b[i]).Some?
    {
      assert b[i] in a;
      var j :| 0 <= j < |a| && a[j] == b[i];
    }
  }

  /**
   * Order and repetition do not matter: two token lists with the same tokens
   * collect the same groups, or both fail.
   */
  lemma GroupsNamedOrderFree(a: seq<string>, b: seq<string>)
    requires forall t :: t in a <==> t in b
    ensures GroupsNamed(a) == GroupsNamed(b)
  {
    GroupsNamedExists(a);
    GroupsNamedExists(b);
    if GroupsNamed(a).Some? {
      RecognisedFrom(a, b);
      var ga, gb := GroupsNamed(a).value, GroupsNamed(b).value;
      forall g
        ensures g in ga <==> g in gb
      {
        GroupsNamedMembers(a, g);
        GroupsNamedMembers(b, g);
      }
      assert ga == gb;
    } else if GroupsNamed(b).Some? {
      RecognisedFrom(b, a);
    }
  }

  /** Two groups' bits overlap only when they are the same group. */
  lemma BitsDisjoint(g: Group, h: Group)
    ensures GroupBit(g) & GroupBit(h) != 0 <==> g == h
  {
    match g {
      case Link =>
      case Notify =>
      case Neigh =>
      case Ipv6IfAddr =>
      case Ipv6Route =>
      case Ipv6MRoute =>
      case Ipv6IfInfo =>
      case Ipv4IfAddr =>
      case Ipv4Route =>
      case Ipv4MRoute =>
    }
  }

  /** A bit is in an OR exactly when it is in one of the operands. */
  lemma OrHasBit(v: bv32, f: bv32, b: bv32, c: bv32)
    requires v == f | b
    ensures v & c != 0 <==> f & c != 0 || b & c != 0
  {
  }

  /** ORing in a group's bit adds that group's bit and no other group's. */
  lemma AddGroupBit(f: bv32, h: Group, g: Group)
    ensures (f | GroupBit(h)) & GroupBit(g) != 0 <==> f & GroupBit(g) != 0 || h == g
  {
    OrHasBit(f | GroupBit(h), f, GroupBit(h), GroupBit(g));
    BitsDisjoint(h, g);
  }

  /** ORing in a group's bit adds no bit outside the ten groups'. */
  lemma WithinDefault(f: bv32, h: Group)
    requires f & !DEFAULT_FILTER == 0
    ensures (f | GroupBit(h)) & !DEFAULT_FILTER == 0
  {
    match h {
      case Link =>
      case Notify =>
      case Neigh =>
      case Ipv6IfAddr =>
      case Ipv6Route =>
      case Ipv6MRoute =>
      case Ipv6IfInfo =>
      case Ipv4IfAddr =>
      case Ipv4Route =>
      case Ipv4MRoute =>
    }
  }

  /**
   * `f` is the mask of `gs`: it holds the bit of each group in `gs`, the bit of no
   * other group, and no bit outside the ten groups'.
   */
  predicate MaskOf(f: bv32, gs: set<Group>)
  {
    f & !DEFAULT_FILTER == 0 && FirstFive(f, gs) && LastFive(f, gs)
  }

  /** The bits of the first five groups: link, notify, neighbour, IPv6 address, IPv6 route. */
  predicate FirstFive(f: bv32, gs: set<Group>)
  {
    (f & GroupBit(Link) != 0 <==> Link in gs) &&
    (f & GroupBit(Notify) != 0 <==> Notify in gs) &&
    (f & GroupBit(Neigh) != 0 <==> Neigh in gs) &&
    (f & GroupBit(Ipv6IfAddr) != 0 <==> Ipv6IfAddr in gs) &&
    (f & GroupBit(Ipv6Route) != 0 <==> Ipv6Route in gs)
  }

  /** The bits of the other five: IPv6 multicast route, IPv6 interface info, IPv4 address, IPv4 route, IPv4 multicast route. */
  predicate LastFive(f: bv32, gs: set<Group>)
  {
    (f & GroupBit(Ipv6MRoute) != 0 <==> Ipv6MRoute in gs) &&
    (f & GroupBit(Ipv6IfInfo) != 0 <==> Ipv6IfInfo in gs) &&
    (f & GroupBit(Ipv4IfAddr) != 0 <==> Ipv4IfAddr in gs) &&
    (f & GroupBit(Ipv4Route) != 0 <==> Ipv4Route in gs) &&
    (f & GroupBit(Ipv4MRoute) != 0 <==> Ipv4MRoute in gs)
  }

  /** In a mask, a group's bit is set iff the group is in the set. */
  lemma MaskBits(f: bv32, gs: set<Group>, g: Group)
    requires MaskOf(f, gs)
    ensures f & GroupBit(g) != 0 <==> g in gs
  {
    match g {
      case Link =>
      case Notify =>
      case Neigh =>
      case Ipv6IfAddr =>
      case Ipv6Route =>
      case Ipv6MRoute =>
      case Ipv6IfInfo =>
      case Ipv4IfAddr =>
      case Ipv4Route =>
      case Ipv4MRoute =>
    }
  }

  /** The empty mask is the mask of no groups. */
  lemma MaskOfNone()
    ensures MaskOf(0, {})
  {
  }

  /** ORing in `h`'s bit keeps group `g`'s bit in step with membership in the grown set. */
  lemma MaskAddAt(f: bv32, gs: set<Group>, h: Group, g: Group)
    requires f & GroupBit(g) != 0 <==> g in gs
    ensures (f | GroupBit(h)) & GroupBit(g) != 0 <==> g in gs + {h}
  {
    AddGroupBit(f, h, g);
  }

  lemma AddToFirstFive(f: bv32, gs: set<Group>, h: Group)
    requires FirstFive(f, gs)
    ensures FirstFive(f | GroupBit(h), gs + {h})
  {
    MaskAddAt(f, gs, h, Link);
    MaskAddAt(f, gs, h, Notify);
    MaskAddAt(f, gs, h, Neigh);
    MaskAddAt(f, gs, h, Ipv6IfAddr);
    MaskAddAt(f, gs, h, Ipv6Route);
  }

  lemma AddToLastFive(f: bv32, gs: set<Group>, h: Group)
    requires LastFive(f, gs)
    ensures LastFive(f | GroupBit(h), gs + {h})
  {
    MaskAddAt(f, gs, h, Ipv6MRoute);
    MaskAddAt(f, gs, h, Ipv6IfInfo);
    MaskAddAt(f, gs, h, Ipv4IfAddr);
    MaskAddAt(f, gs, h, Ipv4Route);
    MaskAddAt(f, gs, h, Ipv4MRoute);
  }

  /** Each token's `f |= RTMGRP_...` adds exactly its own group to the mask. */
  lemma MaskAddOne(f: bv32, gs: set<Group>, h: Group)
    requires MaskOf(f, gs)
    ensures MaskOf(f | GroupBit(h), gs + {h})
  {
    WithinDefault(f, h);
    AddToFirstFive(f, gs, h);
    AddToLastFive(f, gs, h);
  }

  /** A set of groups has only one mask. */
  lemma MaskUnique(f: bv32, h: bv32, gs: set<Group>)
    requires MaskOf(f, gs) && MaskOf(h, gs)
    ensures f == h
  {
  }

  /** The default filter is the mask of all ten groups. */
  lemma DefaultIsAllGroups(gs: set<Group>)
    requires forall g :: g in gs
    ensures MaskOf(DEFAULT_FILTER, gs)
  {
    assert Link in gs && Notify in gs && Neigh in gs && Ipv6IfAddr in gs && Ipv6Route in gs;
    assert Ipv6MRoute in gs && Ipv6IfInfo in gs && Ipv4IfAddr in gs && Ipv4Route in gs && Ipv4MRoute in gs;
  }

  /** Filters read from the same tokens, in any order and with any repetition, are equal. */
  lemma FilterOrderFree(a: seq<string>, b: seq<string>, f: bv32, h: bv32)
    requires forall t :: t in a <==> t in b
    requires GroupsNamed(a).Some? && MaskOf(f, GroupsNamed(a).value)
    requires GroupsNamed(b).Some? && MaskOf(h, GroupsNamed(b).value)
    ensures f == h
  {
    GroupsNamedOrderFree(a, b);
    MaskUnique(f, h, GroupsNamed(a).value);
  }

  /** Naming every group, and nothing else, gives the default filter. */
  lemma AllGroupsIsDefault(tokens: seq<string>, f: bv32)
    requires forall g :: GroupName(g) in tokens
    requires GroupsNamed(tokens).Some? && MaskOf(f, GroupsNamed(tokens).value)
    ensures f == DEFAULT_FILTER
  {
    var gs := GroupsNamed(tokens).value;
    forall g
      ensures g in gs
    {
      GroupsNamedMembers(tokens, g);
    }
    DefaultIsAllGroups(gs);
    MaskUnique(f, DEFAULT_FILTER, gs);
  }

  /** One iteration of parse_filters' loop keeps the collected groups and the mask in step. */
  lemma ParseStep(tokens: seq<string>, i: nat, gs: set<Group>, f: bv32, g: Group)
    requires i < |tokens| && GroupsNamed(tokens[..i]) == Some(gs) && MaskOf(f, gs)
    requires GroupOf(tokens[i]) == Some(g)
    ensures GroupsNamed(tokens[..i + 1]) == Some(gs + {g}) && MaskOf(f | GroupBit(g), gs + {g})
  {
    GroupsNamedStep(tokens, i, gs, g);
    MaskAddOne(f, gs, g);
  }

  /** What getopt_long returns, per option it finds. */
  datatype OptChar = Help | Color | LongFlag | Unrecognized

  /** How the option loop ends: the first help exits with 0, the first unknown option with 1. */
  function StopOf(flags: seq<OptChar>): (r: Option<int>)
    ensures r.None? <==> Help !in flags && Unrecognized !in flags
    ensures r == Some(0) ==> Help in flags
    ensures r == Some(1) ==> Unrecognized in flags
    ensures r.Some? ==> r.value == 0 || r.value == 1
  {
    if flags == [] then None
    else if flags[0] == Help then Some(0)
    else if flags[0] == Unrecognized then Some(1)
    else StopOf(flags[1..])
  }

  /** Whichever of help and an unknown option comes first decides the exit status. */
  lemma {:induction false} StopAtFirst(flags: seq<OptChar>, i: nat)
    requires i < |flags| && (flags[i] == Help || flags[i] == Unrecognized)
    requires Help !in flags[..i] && Unrecognized !in flags[..i]
    ensures StopOf(flags) == if flags[i] == Help then Some(0) else Some(1)
  {
    if i > 0 {
      assert flags[0] == flags[..i][0];
      assert flags[1..][..i - 1] == flags[..i][1..];
      StopAtFirst(flags[1..], i - 1);
    }
  }

  /** A command line `main` gets past: a valid argument count, no stopping option, and known filter names. */
  predicate CommandLineOk(argv: seq<string>, flags: seq<OptChar>, optind: nat)
    requires optind <= |argv|
  {
    1 <= |argv| <= 5 && StopOf(flags).None? && (optind < |argv| ==> GroupsNamed(argv[optind..]).Some?)
  }

  /** The locals `opts` and `filter` of `main`, and the console's colour switch. */
  class Daemon {
    var opts: bv32
    var filter: bv32
    var colorOutput: bool

    /** The state on entry to `main`: the locals hold whatever was in memory. */
    constructor (opts0: bv32, filter0: bv32)
      ensures opts == opts0 && filter == filter0 && !colorOutput
    {
      opts, filter, colorOutput := opts0, filter0, false;
    }

    /** init_opts. */
    method InitOpts()
      modifies this
      ensures opts == 0 && filter == old(filter) && colorOutput == old(colorOutput)
    {
      opts := 0;
    }

    /** set_opt: OR in one option bit; setting it again changes nothing. */
    method SetOpt(opt: bv32)
      modifies this
      ensures opts == old(opts) | opt && opts & opt == opt
      ensures filter == old(filter) && colorOutput == old(colorOutput)
    {
      opts := opts | opt;
    }

    /**
     * parse_filters over argv[start..stop]: on an unrecognised token, exit with
     * status 1 and leave the filter as it was; otherwise store the mask.
     */
    method ParseFilters(argv: seq<string>, start: nat, stop: nat) returns (exit: Option<int>)
      requires start <= stop <= |argv|
      modifies this
      ensures opts == old(opts) && colorOutput == old(colorOutput)
      ensures GroupsNamed(argv[start..stop]).None? ==> exit == Some(1) && filter == old(filter)
      ensures GroupsNamed(argv[start..stop]).Some? ==> exit.None? && MaskOf(filter, GroupsNamed(argv[start..stop]).value)
    {
      var tokens := argv[start..stop];
      var f: bv32 := 0;
      ghost var gs: set<Group> := {};
      MaskOfNone();
      var i := 0;
      while i < |tokens|
        invariant i <= |tokens|
        invariant GroupsNamed(tokens[..i]) == Some(gs) && MaskOf(f, gs)
        modifies {}
      {
        var g := GroupOf(tokens[i]);
        if g.None? {
          GroupsNamedExists(tokens);
          return Some(1);
        }
        ParseStep(tokens, i, gs, f, g.value);
        f := f | GroupBit(g.value);
        gs := gs + {g.value};
        i := i + 1;
      }
      assert tokens[..i] == tokens;
      filter := f;
      return None;
    }

    /**
     * parse_opts: clear the options; exit with status 1 unless 1 <= argc <= 5;
     * act on each option getopt returns (help exits with 0, colour sets OPT_COLOR
     * and switches the console to colour, anything unknown exits with 1); then
     * read the filter from the arguments from `optind` on, if there are any.
     */
    method ParseOpts(argv: seq<string>, flags: seq<OptChar>, optind: nat) returns (exit: Option<int>)
      requires optind <= |argv|
      modifies this
      ensures |argv| < 1 || |argv| > 5 ==> exit == Some(1) && opts == 0 && filter == old(filter)
      ensures exit.None? ==> 1 <= |argv| <= 5 && Help !in flags && Unrecognized !in flags
      ensures exit.None? ==> (opts == OPT_COLOR <==> Color in flags) && (opts == 0 <==> Color !in flags)
      ensures exit.None? && optind >= |argv| ==> filter == old(filter)
      ensures exit.None? && optind < |argv| ==>
                GroupsNamed(argv[optind..]).Some? && MaskOf(filter, GroupsNamed(argv[optind..]).value)
      ensures (1 <= |argv| <= 5 && optind < |argv| && Help !in flags && Unrecognized !in flags &&
               GroupsNamed(argv[optind..]).None?) ==> exit == Some(1)
      ensures 1 <= |argv| <= 5 && StopOf(flags).Some? ==> exit == StopOf(flags)
      ensures CommandLineOk(argv, flags, optind) ==> exit.None?
    {
      InitOpts();
      var argc := |argv|;
      if argc < 1 || argc > 5 {
        return Some(1);
      }
      var i := 0;
      while i < |flags|
        invariant 0 <= i <= |flags|
        invariant Help !in flags[..i] && Unrecognized !in flags[..i]
        invariant opts == (if Color in flags[..i] then OPT_COLOR else 0)
        invariant filter == old(filter)
        invariant StopOf(flags[i..]) == StopOf(flags)
        decreases |flags| - i
      {
        assert flags[..i + 1] == flags[..i] + [flags[i]];
        assert flags[i..][0] == flags[i] && flags[i..][1..] == flags[i + 1..];
        match flags[i] {
          case LongFlag =>
          case Help =>
            return Some(0);
          case Color =>
            SetOpt(OPT_COLOR);
            colorOutput := true;
          case Unrecognized =>
            return Some(1);
        }
        i := i + 1;
      }
      assert flags[..i] == flags;
      if optind < argc {
        exit := ParseFilters(argv, optind, argc);
        assert argv[optind..argc] == argv[optind..];
      } else {
        exit := None;
      }
    }

    /**
     * The start-up half of `main`: the default filter, option parsing, the socket
     * (whose outcome is an input here), and a registry with parse_rt_event as its
     * only consumer.
     */
    method Startup(argv: seq<string>, flags: seq<OptChar>, optind: nat, socketOk: bool, parseRtEvent: Events.Handler,
                   syncJunk: seq<Option<Events.Handler>>, asyncJunk: seq<Option<Events.Handler>>)
      returns (exit: Option<int>, h: Events.EventHandler?)
      requires optind <= |argv|
      requires |syncJunk| == Events.MAX_HANDLERS && |asyncJunk| == Events.MAX_HANDLERS
      modifies this
      ensures exit.None? <==> h != null
      ensures exit.None? && optind >= |argv| ==> filter == DEFAULT_FILTER
      ensures exit.None? && optind < |argv| ==>
                GroupsNamed(argv[optind..]).Some? && MaskOf(filter, GroupsNamed(argv[optind..]).value)
      ensures h != null ==> h.Valid() && fresh(h.sync) && h.sync[..] == Events.Prefilled([parseRtEvent])
      ensures h != null ==> h.async[..] == Events.Prefilled([])
      ensures |argv| < 1 || |argv| > 5 ==> exit == Some(1)
      ensures 1 <= |argv| <= 5 && StopOf(flags).Some? ==> exit == StopOf(flags)
      ensures CommandLineOk(argv, flags, optind) ==> (h != null <==> socketOk)
      ensures CommandLineOk(argv, flags, optind) && !socketOk ==> exit == Some(1)
    {
      filter := DEFAULT_FILTER;
      exit := ParseOpts(argv, flags, optind);
      if exit.Some? {
        return exit, null;
      }
      if !socketOk {
        return Some(1), null;
      }
      h := StartRegistry(parseRtEvent, syncJunk, asyncJunk);
    }
  }

  /**
   * event_init on the registry `main` declares on its stack (whose slots hold
   * whatever was in memory), then event_register(parse_rt_event).
   */
  method StartRegistry(parseRtEvent: Events.Handler, syncJunk: seq<Option<Events.Handler>>,
                       asyncJunk: seq<Option<Events.Handler>>) returns (h: Events.EventHandler)
    requires |syncJunk| == Events.MAX_HANDLERS && |asyncJunk| == Events.MAX_HANDLERS
    ensures h.Valid() && fresh(h.sync) && h.sync[..] == Events.Prefilled([parseRtEvent])
    ensures h.async[..] == Events.Prefilled([])
  {
    h := new Events.EventHandler(syncJunk, asyncJunk);
    h.Init();
    var r, errno := h.Register(Some(parseRtEvent));
    Events.RegisterOne([], parseRtEvent);
    assert [] + [parseRtEvent] == [parseRtEvent];
  }
}
