/**
 * The consumer registry (`struct event_handler` in events.h, operations in events.c).
 *
 * A registry is two fixed arrays of 64 handler slots, `sync` and `async`; an empty
 * slot is NULL. Registration fills the first empty `sync` slot; a push calls every
 * non-empty `sync` slot in index order. `async` is cleared by event_init and
 * otherwise never touched.
 *
 * A handler is a C function pointer; the model knows it only by its identity, and
 * records each invocation a push makes as a `Call` instead of running it. What a
 * consumer does with the bytes, and what it returns, is outside the model: the
 * registry ignores the return value.
 */
module Events {
  import opened Wire

  const MAX_HANDLERS: nat := 64

  /** errno value reported when every slot is taken. */
  const ENOMEM: int := 12

  /** An `ev_handler_t`: which consumer function a slot points to. */
  datatype Handler = Handler(id: nat)

  /** One consumer invocation `fun(buf, len)`. */
  datatype Call = Call(handler: Handler, buf: seq<byte>, len: nat)

  /** Where the scan `for (i = 0; i < MAX_HANDLERS && h->sync[i]; i++)` stops, if before the end. */
  function FirstEmpty(slots: seq<Option<Handler>>): (k: Option<nat>)
    ensures k.Some? ==> k.value < |slots| && slots[k.value].None? &&
                        forall j :: 0 <= j < k.value ==> slots[j].Some?
    ensures k.None? ==> forall j :: 0 <= j < |slots| ==> slots[j].Some?
  {
    if slots == [] then None
    else if slots[0].None? then Some(0)
    else match FirstEmpty(slots[1..])
      case None => None
      case Some(k) => Some(k + 1)
  }

  /** The `sync` slots after event_register(fun): the first empty slot takes `fun`, if there is one. */
  function RegisterSlots(slots: seq<Option<Handler>>, fun: Option<Handler>): seq<Option<Handler>>
  {
    match FirstEmpty(slots)
    case None => slots
    case Some(k) => slots[k := fun]
  }

  /** The slots after registering each of `funs` in turn. */
  function RegisterAll(slots: seq<Option<Handler>>, funs: seq<Option<Handler>>): seq<Option<Handler>>
    decreases |funs|
  {
    if funs == [] then slots
    else RegisterAll(RegisterSlots(slots, funs[0]), funs[1..])
  }

  /** The calls event_push(h, buf, len) makes, in the order it makes them. */
  function Fanout(slots: seq<Option<Handler>>, buf: seq<byte>, len: nat): seq<Call>
  {
    if slots == [] then []
    else
      var last := slots[|slots| - 1];
      Fanout(slots[..|slots| - 1], buf, len) + if last.Some? then [Call(last.value, buf, len)] else []
  }

  /** The indices of the non-empty slots, in increasing order. */
  function Occupied(slots: seq<Option<Handler>>): (idx: seq<nat>)
    ensures forall k :: 0 <= k < |idx| ==> idx[k] < |slots| && slots[idx[k]].Some?
    ensures forall i :: 0 <= i < |slots| && slots[i].Some? ==> i in idx
    ensures forall k, l :: 0 <= k < l < |idx| ==> idx[k] < idx[l]
  {
    if slots == [] then []
    else
      var prefix := Occupied(slots[..|slots| - 1]);
      prefix + if slots[|slots| - 1].Some? then [|slots| - 1] else []
  }

  /**
   * A push calls each non-empty slot exactly once, in index order, each time with
   * the same `buf` and `len`: call k goes to the k-th occupied slot.
   */
  lemma {:induction false} FanoutFollowsOccupied(slots: seq<Option<Handler>>, buf: seq<byte>, len: nat)
    ensures |Fanout(slots, buf, len)| == |Occupied(slots)|
    ensures forall k :: 0 <= k < |Occupied(slots)| ==>
              Fanout(slots, buf, len)[k] == Call(slots[Occupied(slots)[k]].value, buf, len)
  {
    if slots != [] {
      var p := slots[..|slots| - 1];
      FanoutFollowsOccupied(p, buf, len);
      assert forall i :: 0 <= i < |p| ==> p[i] == slots[i];
    }
  }

  /** A registry whose first |hs| slots hold `hs`, in order, and whose other slots are empty. */
  function Prefilled(hs: seq<Handler>): (slots: seq<Option<Handler>>)
    requires |hs| <= MAX_HANDLERS
    ensures |slots| == MAX_HANDLERS
    ensures forall i :: 0 <= i < MAX_HANDLERS ==> slots[i] == if i < |hs| then Some(hs[i]) else None
  {
    seq(MAX_HANDLERS, i => if 0 <= i < |hs| then Some(hs[i]) else None)
  }

  /** Non-NULL handler pointers. */
  function Pointers(hs: seq<Handler>): (r: seq<Option<Handler>>)
    ensures |r| == |hs| && forall i :: 0 <= i < |hs| ==> r[i] == Some(hs[i])
  {
    seq(|hs|, i requires 0 <= i < |hs| => Some(hs[i]))
  }

  /** One registration into a prefilled registry with room left appends to the prefix. */
  lemma RegisterOne(hs: seq<Handler>, h: Handler)
    requires |hs| < MAX_HANDLERS
    ensures RegisterSlots(Prefilled(hs), Some(h)) == Prefilled(hs + [h])
  {
    assert FirstEmpty(Prefilled(hs)) == Some(|hs|) by {
      assert Prefilled(hs)[|hs|].None?;
    }
  }

  /**
   * k <= 64 registrations of non-NULL handlers, after `hs` were registered into a
   * cleared registry, all find a slot: the slots then hold `hs` followed by the new
   * handlers, in call order, and nothing else.
   */
  lemma {:induction false} RegistrationsFillPrefix(hs: seq<Handler>, funs: seq<Handler>)
    requires |hs| + |funs| <= MAX_HANDLERS
    ensures RegisterAll(Prefilled(hs), Pointers(funs)) == Prefilled(hs + funs)
    decreases |funs|
  {
    if funs == [] {
      assert hs + funs == hs;
    } else {
      RegisterOne(hs, funs[0]);
      assert Pointers(funs)[1..] == Pointers(funs[1..]);
      RegistrationsFillPrefix(hs + [funs[0]], funs[1..]);
      assert hs + [funs[0]] + funs[1..] == hs + funs;
    }
  }

  /** After registering k non-NULL handlers into a cleared registry, a push calls exactly them, in registration order. */
  lemma PushAfterRegistrations(funs: seq<Handler>, buf: seq<byte>, len: nat)
    requires |funs| <= MAX_HANDLERS
    ensures Fanout(RegisterAll(Prefilled([]), Pointers(funs)), buf, len) == seq(|funs|, k requires 0 <= k < |funs| => Call(funs[k], buf, len))
  {
    RegistrationsFillPrefix([], funs);
    assert [] + funs == funs;
    var r := Prefilled(funs);
    FanoutFollowsOccupied(r, buf, len);
    OccupiedPrefix(r, |funs|);
  }

  /** When exactly the first n slots are occupied, the occupied indices are 0..n-1. */
  lemma {:induction false} OccupiedPrefix(slots: seq<Option<Handler>>, n: nat)
    requires n <= |slots|
    requires forall i :: 0 <= i < |slots| ==> (slots[i].Some? <==> i < n)
    ensures |Occupied(slots)| == n && forall k :: 0 <= k < n ==> Occupied(slots)[k] == k
  {
    if slots != [] {
      var p := slots[..|slots| - 1];
      if n == |slots| {
        OccupiedPrefix(p, n - 1);
      } else {
        OccupiedPrefix(p, n);
      }
    }
  }

  /** A `struct event_handler`: the two slot arrays. */
  class EventHandler {
    var async: array<Option<Handler>>
    var sync: array<Option<Handler>>

    ghost predicate Valid()
      reads this
    {
      sync.Length == MAX_HANDLERS && async.Length == MAX_HANDLERS && sync != async
    }

    /** A registry as declared on the stack, before event_init: its slots hold whatever was in memory. */
    constructor (syncJunk: seq<Option<Handler>>, asyncJunk: seq<Option<Handler>>)
      requires |syncJunk| == MAX_HANDLERS && |asyncJunk| == MAX_HANDLERS
      ensures Valid() && fresh(sync) && fresh(async)
      ensures sync[..] == syncJunk && async[..] == asyncJunk
    {
      sync := new Option<Handler>[MAX_HANDLERS](i requires 0 <= i < MAX_HANDLERS => syncJunk[i]);
      async := new Option<Handler>[MAX_HANDLERS](i requires 0 <= i < MAX_HANDLERS => asyncJunk[i]);
    }

    /** event_init: every `sync` and every `async` slot becomes NULL. */
    method Init()
      requires Valid()
      modifies sync, async
      ensures Valid()
      ensures sync[..] == Prefilled([]) && async[..] == Prefilled([])
    {
      for i := 0 to MAX_HANDLERS
        invariant forall j :: 0 <= j < i ==> sync[j].None? && async[j].None?
      {
        async[i] := None;
        sync[i] := None;
      }
    }

    /**
     * event_register: store `fun` in the lowest-index empty `sync` slot and return 0;
     * with no empty slot, return -1 with errno ENOMEM and change nothing.
     */
    method Register(fun: Option<Handler>) returns (r: int, errno: Option<int>)
      requires Valid()
      modifies sync
      ensures Valid()
      ensures sync[..] == RegisterSlots(old(sync[..]), fun)
      ensures r == 0 <==> FirstEmpty(old(sync[..])).Some?
      ensures r != 0 ==> r == -1 && errno == Some(ENOMEM)
      ensures r == 0 ==> errno == None
      ensures async[..] == old(async[..])
    {
      var i := 0;
      while i < MAX_HANDLERS && sync[i].Some?
        invariant 0 <= i <= MAX_HANDLERS
        invariant forall j :: 0 <= j < i ==> sync[j].Some?
      {
        i := i + 1;
      }
      ghost var before := sync[..];
      if i == MAX_HANDLERS {
        assert FirstEmpty(before).None?;
        return -1, Some(ENOMEM);
      }
      assert FirstEmpty(before) == Some(i) by {
        assert before[i].None?;
      }
      sync[i] := fun;
      return 0, None;
    }

    /** event_push: call every non-empty `sync` slot with `buf` and `len`, in index order. */
    method Push(buf: seq<byte>, len: nat) returns (calls: seq<Call>)
      requires Valid()
      ensures calls == Fanout(sync[..], buf, len)
    {
      calls := [];
      for i := 0 to MAX_HANDLERS
        invariant calls == Fanout(sync[..i], buf, len)
      {
        assert sync[..i + 1][..i] == sync[..i];
        if sync[i].Some? {
          calls := calls + [Call(sync[i].value, buf, len)];
        }
      }
      assert sync[..MAX_HANDLERS] == sync[..];
    }
  }
}
