/**
 * The generic rtnetlink attribute decoder (`parse_rt_attrs`).
 *
 * An attribute stream is a run of records, each a 4-byte header (`rta_len`, then
 * `rta_type`, both `__u16`) followed by `rta_len - 4` bytes of payload and padding
 * up to a multiple of 4. The decoder walks the stream with the kernel's
 * `RTA_OK`/`RTA_NEXT` rules and files each record whose type lies in [1, max)
 * into a table of `max` slots, a later record of the same type replacing an
 * earlier one.
 *
 * `Walk`, `Table`, `InRange` and `Leftover` specify the decoder as functions;
 * `ParseRtAttrs` is the loop itself, proved to compute them.
 */
module RtAttrs {
  import opened Wire

  /** sizeof(struct rtattr). */
  const RTA_HDRLEN: nat := 4

  /** RTA_ALIGN: round up to a multiple of 4. */
  function Align4(n: nat): (m: nat)
    ensures m % 4 == 0 && n <= m < n + 4
  {
    (n + 3) / 4 * 4
  }

  /** Where one record sits in the message buffer: the offset of its header and its `rta_len`. */
  datatype Span = Span(offset: nat, length: nat)

  /** A record visited by the walk: its `rta_type` and where it is. */
  datatype Attr = Attr(kind: nat, span: Span)

  /** The decoder's result: the table, the number of in-range records, and whether bytes were left over. */
  datatype Decoded = Decoded(table: seq<Option<Span>>, count: nat, unparsed: bool)

  function RtaLen(buf: seq<byte>, pos: nat): nat
  {
    U16(buf, pos)
  }

  function RtaType(buf: seq<byte>, pos: nat): nat
  {
    U16(buf, pos + 2)
  }

  /** RTA_OK(rta, len): room for a header, and a record length between 4 and what remains. */
  predicate RtaOk(buf: seq<byte>, pos: nat, len: int)
  {
    len >= RTA_HDRLEN as int && RtaLen(buf, pos) >= RTA_HDRLEN && RtaLen(buf, pos) <= len
  }

  /** The bytes one RTA_NEXT step consumes. */
  function Step(buf: seq<byte>, pos: nat): nat
  {
    Align4(RtaLen(buf, pos))
  }

  /** The records the loop `for (rta = data; RTA_OK(rta, len); rta = RTA_NEXT(rta, len))` visits, in stream order. */
  function Walk(buf: seq<byte>, pos: nat, len: int): seq<Attr>
    decreases len
  {
    if RtaOk(buf, pos, len) then
      [Attr(RtaType(buf, pos), Span(pos, RtaLen(buf, pos)))] + Walk(buf, pos + Step(buf, pos), len - Step(buf, pos))
    else
      []
  }

  /** The value of `len` when that loop stops. */
  function Leftover(buf: seq<byte>, pos: nat, len: int): int
    decreases len
  {
    if RtaOk(buf, pos, len) then Leftover(buf, pos + Step(buf, pos), len - Step(buf, pos)) else len
  }

  /** The table after `max` cleared slots received the records of `w` in order. */
  function Table(w: seq<Attr>, max: nat): (tb: seq<Option<Span>>)
    ensures |tb| == max
  {
    if w == [] then
      seq(max, _ => None)
    else
      var tb := Table(w[..|w| - 1], max);
      var a := w[|w| - 1];
      if 0 < a.kind < max then tb[a.kind := Some(a.span)] else tb
  }

  /** The number of records of `w` whose type is in [1, max). */
  function InRange(w: seq<Attr>, max: nat): (n: nat)
    ensures n <= |w|
  {
    if w == [] then 0
    else InRange(w[..|w| - 1], max) + (if 0 < w[|w| - 1].kind < max then 1 else 0)
  }

  /** What `parse_rt_attrs(tb, max, data, len)` leaves in `tb`, returns, and reports. */
  function Decode(buf: seq<byte>, data: nat, len: int, max: nat): Decoded
  {
    var w := Walk(buf, data, len);
    Decoded(Table(w, max), InRange(w, max), Leftover(buf, data, len) > 0)
  }

  /**
   * parse_rt_attrs: clear `max` slots, walk the stream, file each in-range record
   * under its type, count them, and report leftover bytes.
   */
  method ParseRtAttrs(buf: seq<byte>, data: nat, len: int, max: nat)
    returns (tb: seq<Option<Span>>, atts: nat, unparsed: bool)
    ensures Decoded(tb, atts, unparsed) == Decode(buf, data, len, max)
  {
    tb := seq(max, _ => None);
    atts := 0;
    var rta, rem := data, len;
    ghost var walked: seq<Attr> := [];
    while RtaOk(buf, rta, rem)
      invariant walked + Walk(buf, rta, rem) == Walk(buf, data, len)
      invariant Leftover(buf, rta, rem) == Leftover(buf, data, len)
      invariant tb == Table(walked, max)
      invariant atts == InRange(walked, max)
      decreases rem
    {
      var kind := RtaType(buf, rta);
      var span := Span(rta, RtaLen(buf, rta));
      var step := Step(buf, rta);
      if 0 < kind < max {
        tb := tb[kind := Some(span)];
        atts := atts + 1;
      }
      LoopStep(buf, rta, rem, walked, max);
      walked := walked + [Attr(kind, span)];
      rta, rem := rta + step, rem - step;
    }
    assert Walk(buf, rta, rem) == [] && Leftover(buf, rta, rem) == rem;
    assert walked == Walk(buf, data, len);
    unparsed := rem > 0;
  }

  /** What one turn of the decoding loop does to the walked prefix, the rest of the walk, the table and the count. */
  lemma LoopStep(buf: seq<byte>, rta: nat, rem: int, walked: seq<Attr>, max: nat)
    requires RtaOk(buf, rta, rem)
    ensures var a := Attr(RtaType(buf, rta), Span(rta, RtaLen(buf, rta)));
            var step := Step(buf, rta);
            walked + [a] + Walk(buf, rta + step, rem - step) == walked + Walk(buf, rta, rem) &&
            Leftover(buf, rta + step, rem - step) == Leftover(buf, rta, rem) &&
            Table(walked + [a], max) == (if 0 < a.kind < max then Table(walked, max)[a.kind := Some(a.span)] else Table(walked, max)) &&
            InRange(walked + [a], max) == InRange(walked, max) + (if 0 < a.kind < max then 1 else 0)
  {
    var a := Attr(RtaType(buf, rta), Span(rta, RtaLen(buf, rta)));
    WalkStep(buf, rta, rem);
    AppendRecord(walked, a, max);
  }

  /** One turn of the loop: the first record, then the walk from the next one. */
  lemma WalkStep(buf: seq<byte>, pos: nat, len: int)
    requires RtaOk(buf, pos, len)
    ensures Walk(buf, pos, len) ==
            [Attr(RtaType(buf, pos), Span(pos, RtaLen(buf, pos)))] + Walk(buf, pos + Step(buf, pos), len - Step(buf, pos))
    ensures Leftover(buf, pos, len) == Leftover(buf, pos + Step(buf, pos), len - Step(buf, pos))
  {
  }

  /** The same, for a record whose header fields are already known. */
  lemma WalkCons(buf: seq<byte>, pos: nat, len: int, kind: nat, length: nat, step: nat)
    requires RtaType(buf, pos) == kind && RtaLen(buf, pos) == length && Step(buf, pos) == step
    requires RTA_HDRLEN <= length <= len
    ensures Walk(buf, pos, len) == [Attr(kind, Span(pos, length))] + Walk(buf, pos + step, len - step)
    ensures Leftover(buf, pos, len) == Leftover(buf, pos + step, len - step)
  {
    WalkStep(buf, pos, len);
  }

  /** Filing one more record into the table and the count. */
  lemma AppendRecord(w: seq<Attr>, a: Attr, max: nat)
    ensures Table(w + [a], max) == if 0 < a.kind < max then Table(w, max)[a.kind := Some(a.span)] else Table(w, max)
    ensures InRange(w + [a], max) == InRange(w, max) + if 0 < a.kind < max then 1 else 0
  {
    assert (w + [a])[..|w|] == w;
  }

  /**
   * Every slot below `max` is empty unless some walked record had that type, type 0
   * is never stored, and a filled slot holds the LAST record of its type.
   */
  lemma {:induction false} TableLastWins(w: seq<Attr>, max: nat, t: nat)
    requires t < max
    ensures Table(w, max)[t].None? <==> t == 0 || forall i :: 0 <= i < |w| ==> w[i].kind != t
    ensures Table(w, max)[t].Some? ==>
              exists i :: 0 <= i < |w| && w[i].kind == t && Table(w, max)[t] == Some(w[i].span) &&
                          forall j :: i < j < |w| ==> w[j].kind != t
  {
    if w != [] {
      var p, a := w[..|w| - 1], w[|w| - 1];
      TableLastWins(p, max, t);
      assert forall i :: 0 <= i < |p| ==> p[i] == w[i];
      if 0 < t && a.kind == t {
        assert Table(w, max)[t] == Some(w[|w| - 1].span);
      } else if Table(p, max)[t].Some? {
        var i :| 0 <= i < |p| && p[i].kind == t && Table(p, max)[t] == Some(p[i].span) &&
                 forall j :: i < j < |p| ==> p[j].kind != t;
        assert w[i].kind == t && Table(w, max)[t] == Some(w[i].span);
      }
    }
  }

  /** The count is the number of in-range records walked, repeated types included. */
  lemma {:induction false} InRangeCountsRecords(w: seq<Attr>, max: nat)
    ensures InRange(w, max) == |set i | 0 <= i < |w| && 0 < w[i].kind < max|
  {
    if w != [] {
      var p := w[..|w| - 1];
      InRangeCountsRecords(p, max);
      var sp := set i | 0 <= i < |p| && 0 < p[i].kind < max;
      var sw := set i | 0 <= i < |w| && 0 < w[i].kind < max;
      if 0 < w[|w| - 1].kind < max {
        assert sw == sp + {|w| - 1};
      } else {
        assert sw == sp;
      }
    }
  }

  /** The number of filled slots in a table. */
  function Filled(tb: seq<Option<Span>>): nat
  {
    |set t | 0 <= t < |tb| && tb[t].Some?|
  }

  /** The count never falls below the number of filled slots: repeats are counted, slots are not. */
  lemma {:induction false} FilledAtMostCount(w: seq<Attr>, max: nat)
    ensures Filled(Table(w, max)) <= InRange(w, max)
  {
    if w == [] {
      assert (set t | 0 <= t < max && Table(w, max)[t].Some?) == {};
    } else {
      var p, a := w[..|w| - 1], w[|w| - 1];
      FilledAtMostCount(p, max);
      var old_ := set t | 0 <= t < max && Table(p, max)[t].Some?;
      var new_ := set t | 0 <= t < max && Table(w, max)[t].Some?;
      if 0 < a.kind < max {
        SubsetCard(new_, old_ + {a.kind});
      } else {
        assert new_ == old_;
      }
    }
  }

  /**
   * The walk stays inside the declared length: every record starts at or after
   * `pos`, is at least a header long, and ends within `pos + len`; each record
   * starts where the previous one's aligned length ends; every step consumes at
   * least 4 bytes; and the walk overshoots by less than 4 bytes at most.
   */
  lemma {:induction false} WalkInBounds(buf: seq<byte>, pos: nat, len: int)
    ensures var w := Walk(buf, pos, len);
            forall i :: 0 <= i < |w| ==>
              pos <= w[i].span.offset && RTA_HDRLEN <= w[i].span.length &&
              w[i].span.offset + w[i].span.length <= pos + len
    ensures var w := Walk(buf, pos, len);
            forall i :: 0 <= i < |w| - 1 ==> w[i + 1].span.offset == w[i].span.offset + Align4(w[i].span.length)
    ensures 4 * |Walk(buf, pos, len)| <= len - Leftover(buf, pos, len)
    ensures |Walk(buf, pos, len)| == 0 ==> Leftover(buf, pos, len) == len
    ensures |Walk(buf, pos, len)| > 0 ==> Leftover(buf, pos, len) > -4
    decreases len
  {
    if RtaOk(buf, pos, len) {
      var step := Step(buf, pos);
      WalkInBounds(buf, pos + step, len - step);
      var w, r := Walk(buf, pos, len), Walk(buf, pos + step, len - step);
      assert w == [w[0]] + r;
      assert forall i :: 1 <= i < |w| ==> w[i] == r[i - 1];
      if |r| == 0 {
        assert Leftover(buf, pos, len) == len - step;
      }
    }
  }

  /** An attribute as a sender writes it: a type and its payload. */
  datatype Tlv = Tlv(kind: nat, data: seq<byte>)

  /** A record whose type and length fit the 16-bit header fields. */
  predicate Encodable(t: Tlv)
  {
    t.kind < 0x1_0000 && RTA_HDRLEN + |t.data| < 0x1_0000
  }

  predicate AllEncodable(ts: seq<Tlv>)
  {
    forall i :: 0 <= i < |ts| ==> Encodable(ts[i])
  }

  /** The zero bytes that pad a record of `n` bytes to RTA_ALIGN(n). */
  function Padding(n: nat): (s: seq<byte>)
    ensures |s| + n == Align4(n)
  {
    seq(Align4(n) - n, _ => 0)
  }

  /** One record: `rta_len = RTA_LENGTH(|data|)`, `rta_type`, payload, padding. */
  function EncodeOne(t: Tlv): (s: seq<byte>)
    requires Encodable(t)
    ensures |s| == Align4(RTA_HDRLEN + |t.data|)
  {
    Le16(RTA_HDRLEN + |t.data|) + Le16(t.kind) + t.data + Padding(RTA_HDRLEN + |t.data|)
  }

  /** A whole attribute stream, records in the given order. */
  function Encode(ts: seq<Tlv>): (s: seq<byte>)
    requires AllEncodable(ts)
  {
    if ts == [] then [] else EncodeOne(ts[0]) + Encode(ts[1..])
  }

  /** RTA_DATA/RTA_PAYLOAD: the bytes after a record's header, up to its `rta_len`. */
  function Payload(buf: seq<byte>, s: Span): seq<byte>
  {
    if s.length < RTA_HDRLEN then [] else seq(s.length - RTA_HDRLEN, i => ByteAt(buf, s.offset + RTA_HDRLEN + i))
  }

  /** `buf` holds the bytes `s` from offset `pos` on. */
  predicate HoldsAt(buf: seq<byte>, pos: nat, s: seq<byte>)
  {
    pos + |s| <= |buf| && forall k :: 0 <= k < |s| ==> buf[pos + k] == s[k]
  }

  /** The header of an encoded record reads back as its length and type, and its payload as its data. */
  lemma RecordOfEncoding(buf: seq<byte>, pos: nat, t: Tlv)
    requires Encodable(t) && HoldsAt(buf, pos, EncodeOne(t))
    ensures RtaLen(buf, pos) == RTA_HDRLEN + |t.data| && RtaType(buf, pos) == t.kind
    ensures Step(buf, pos) == |EncodeOne(t)|
    ensures Payload(buf, Span(pos, RTA_HDRLEN + |t.data|)) == t.data
  {
    var e := EncodeOne(t);
    var n := RTA_HDRLEN + |t.data|;
    assert e[0] == Le16(n)[0] && e[1] == Le16(n)[1];
    assert e[2] == Le16(t.kind)[0] && e[3] == Le16(t.kind)[1];
    assert buf[pos] == e[0] && buf[pos + 1] == e[1] && buf[pos + 2] == e[2] && buf[pos + 3] == e[3];
    U16OfLe16(buf, pos, n);
    U16OfLe16(buf, pos + 2, t.kind);
    forall i | 0 <= i < |t.data|
      ensures ByteAt(buf, pos + RTA_HDRLEN + i) == t.data[i]
    {
      assert e[RTA_HDRLEN + i] == t.data[i];
    }
  }

  /** Splitting the bytes of `a + b` held at `pos` into those of `a` and those of `b`. */
  lemma SplitAt(buf: seq<byte>, pos: nat, a: seq<byte>, b: seq<byte>)
    requires HoldsAt(buf, pos, a + b)
    ensures HoldsAt(buf, pos, a) && HoldsAt(buf, pos + |a|, b)
  {
    forall k | 0 <= k < |a|
      ensures buf[pos + k] == a[k]
    {
      assert (a + b)[k] == a[k];
    }
    forall k | 0 <= k < |b|
      ensures buf[pos + |a| + k] == b[k]
    {
      assert (a + b)[|a| + k] == b[k];
    }
  }

  /** Walking an encoded stream visits one record per attribute, with its type and payload, and consumes it exactly. */
  lemma {:induction false} WalkOfEncoding(buf: seq<byte>, pos: nat, ts: seq<Tlv>)
    requires AllEncodable(ts) && HoldsAt(buf, pos, Encode(ts))
    ensures Carries(buf, Walk(buf, pos, |Encode(ts)|), ts)
    ensures Leftover(buf, pos, |Encode(ts)|) == 0
    decreases |ts|
  {
    if ts != [] {
      EncodedHead(buf, pos, ts);
      WalkOfEncoding(buf, pos + |EncodeOne(ts[0])|, ts[1..]);
      ExtendByHead(buf, pos, ts);
    }
  }

  /** What walking the encoding of `ts[1..]` yields extends to `ts` once the first record is walked. */
  lemma ExtendByHead(buf: seq<byte>, pos: nat, ts: seq<Tlv>)
    requires AllEncodable(ts) && ts != [] && HoldsAt(buf, pos, Encode(ts)) && AllEncodable(ts[1..])
    requires var next := pos + |EncodeOne(ts[0])|;
             Carries(buf, Walk(buf, next, |Encode(ts[1..])|), ts[1..]) &&
             Leftover(buf, next, |Encode(ts[1..])|) == 0
    ensures Carries(buf, Walk(buf, pos, |Encode(ts)|), ts)
    ensures Leftover(buf, pos, |Encode(ts)|) == 0
  {
    EncodedHead(buf, pos, ts);
    Matches(buf, Walk(buf, pos, |Encode(ts)|), Walk(buf, pos + |EncodeOne(ts[0])|, |Encode(ts[1..])|), ts,
            Span(pos, RTA_HDRLEN + |ts[0].data|));
  }

  lemma EncodeCons(ts: seq<Tlv>)
    requires AllEncodable(ts) && ts != []
    ensures AllEncodable(ts[1..]) && Encode(ts) == EncodeOne(ts[0]) + Encode(ts[1..])
  {
    assert forall i :: 0 <= i < |ts[1..]| ==> ts[1..][i] == ts[i + 1];
  }

  /** The first step of walking an encoded stream: one record for the first attribute, then the encoding of the rest. */
  lemma EncodedHead(buf: seq<byte>, pos: nat, ts: seq<Tlv>)
    requires AllEncodable(ts) && ts != [] && HoldsAt(buf, pos, Encode(ts))
    ensures AllEncodable(ts[1..])
    ensures |Encode(ts)| == |EncodeOne(ts[0])| + |Encode(ts[1..])|
    ensures HoldsAt(buf, pos + |EncodeOne(ts[0])|, Encode(ts[1..]))
    ensures Walk(buf, pos, |Encode(ts)|) ==
              [Attr(ts[0].kind, Span(pos, RTA_HDRLEN + |ts[0].data|))] +
              Walk(buf, pos + |EncodeOne(ts[0])|, |Encode(ts[1..])|)
    ensures Leftover(buf, pos, |Encode(ts)|) == Leftover(buf, pos + |EncodeOne(ts[0])|, |Encode(ts[1..])|)
    ensures Payload(buf, Span(pos, RTA_HDRLEN + |ts[0].data|)) == ts[0].data
  {
    var t, rest := ts[0], ts[1..];
    EncodeCons(ts);
    var e, er := EncodeOne(t), Encode(rest);
    SplitAt(buf, pos, e, er);
    RecordOfEncoding(buf, pos, t);
    var hl := RTA_HDRLEN + |t.data|;
    assert hl <= |e| by {
      assert hl <= Align4(hl) == |e|;
    }
    WalkCons(buf, pos, |e| + |er|, t.kind, hl, |e|);
  }

  /** Walked records `w` carry the types and payloads of `ts`, element by element. */
  predicate Carries(buf: seq<byte>, w: seq<Attr>, ts: seq<Tlv>)
  {
    |w| == |ts| &&
    forall i :: 0 <= i < |ts| ==>
      w[i].kind == ts[i].kind && w[i].span.length == RTA_HDRLEN + |ts[i].data| &&
      Payload(buf, w[i].span) == ts[i].data
  }

  /** Carrying extends by one record at the front. */
  lemma Matches(buf: seq<byte>, w: seq<Attr>, r: seq<Attr>, ts: seq<Tlv>, s: Span)
    requires ts != [] && w == [Attr(ts[0].kind, s)] + r && s.length == RTA_HDRLEN + |ts[0].data|
    requires Payload(buf, s) == ts[0].data && Carries(buf, r, ts[1..])
    ensures Carries(buf, w, ts)
  {
    forall i | 0 <= i < |ts|
      ensures w[i].kind == ts[i].kind && w[i].span.length == RTA_HDRLEN + |ts[i].data| &&
              Payload(buf, w[i].span) == ts[i].data
    {
      if i > 0 {
        assert w[i] == r[i - 1] && ts[i] == ts[1..][i - 1];
      }
    }
  }

  /**
   * Round trip: decoding an encoded stream, wherever it sits in the buffer, loses
   * nothing and reports no leftover bytes; a type in [1, max) carried by some
   * attribute has a slot holding the payload of the last attribute of that type.
   */
  lemma DecodeEncodeLastWins(buf: seq<byte>, pos: nat, ts: seq<Tlv>, max: nat, t: nat, i: nat)
    requires AllEncodable(ts) && 0 < t < max && HoldsAt(buf, pos, Encode(ts))
    requires i < |ts| && ts[i].kind == t && forall j :: i < j < |ts| ==> ts[j].kind != t
    ensures var d := Decode(buf, pos, |Encode(ts)|, max);
            !d.unparsed && d.table[t].Some? && d.table[t].value.length == RTA_HDRLEN + |ts[i].data| &&
            Payload(buf, d.table[t].value) == ts[i].data
  {
    WalkOfEncoding(buf, pos, ts);
    var w := Walk(buf, pos, |Encode(ts)|);
    TableLastWins(w, max, t);
    assert w[i].kind == t;
    var k :| 0 <= k < |w| && w[k].kind == t && Table(w, max)[t] == Some(w[k].span) &&
             forall j :: k < j < |w| ==> w[j].kind != t;
    assert k == i;
  }

  /** ... and a type that no attribute carried has an empty slot. */
  lemma DecodeEncodeAbsent(buf: seq<byte>, pos: nat, ts: seq<Tlv>, max: nat, t: nat)
    requires AllEncodable(ts) && t < max && HoldsAt(buf, pos, Encode(ts))
    requires forall j :: 0 <= j < |ts| ==> ts[j].kind != t
    ensures var d := Decode(buf, pos, |Encode(ts)|, max);
            !d.unparsed && d.table[t].None? && d.count <= |ts|
  {
    WalkOfEncoding(buf, pos, ts);
    var w := Walk(buf, pos, |Encode(ts)|);
    TableLastWins(w, max, t);
  }

  /** A slot of the decoded table is filled exactly when some encoded attribute has its type. */
  lemma DecodeEncodePresent(buf: seq<byte>, pos: nat, ts: seq<Tlv>, max: nat, t: nat)
    requires AllEncodable(ts) && 0 < t < max && HoldsAt(buf, pos, Encode(ts))
    ensures var d := Decode(buf, pos, |Encode(ts)|, max);
            !d.unparsed && (d.table[t].Some? <==> exists i :: 0 <= i < |ts| && ts[i].kind == t)
  {
    WalkOfEncoding(buf, pos, ts);
    var w := Walk(buf, pos, |Encode(ts)|);
    TableLastWins(w, max, t);
    if exists i :: 0 <= i < |ts| && ts[i].kind == t {
      var i :| 0 <= i < |ts| && ts[i].kind == t;
      assert w[i].kind == t;
    }
  }

  lemma SubsetCard<T>(a: set<T>, b: set<T>)
    requires a <= b
    ensures |a| <= |b|
  {
    if a != {} {
      var x :| x in a;
      SubsetCard(a - {x}, b - {x});
    }
  }
}
