/**
 The single-producer, single-consumer ring of os/lib/ringbuf.c: as a state machine over the individual
 shared reads and writes of `ringbuf_put` and `ringbuf_get`, and as an object whose calls are not interrupted.
 */
module RingBuffer {
  import opened Arithmetic

  type byte = x: int | 0 <= x < 256

  /** (p - g) & mask, for pointers below the size n = mask + 1 */
  function Distance(n: nat, p: nat, g: nat): int {
    if p >= g then p - g else p + n - g
  }

  /** (p + 1) & mask */
  function Advance(n: nat, p: nat): nat {
    if p + 1 == n then 0 else p + 1
  }

  /** On 8-bit pointers the masked expressions of the source are these two functions. */
  lemma MaskedArithmetic(mask: bv8, p: bv8, g: bv8)
    requires mask == 0 || mask == 1 || mask == 3 || mask == 7 || mask == 15 || mask == 31 || mask == 63 || mask == 127
    requires p <= mask && g <= mask
    ensures (p - g) & mask == if p >= g then p - g else p + (mask + 1) - g
    ensures (p + 1) & mask == if p + 1 == mask + 1 then 0 else p + 1
  {
    if p >= g {
      assert (p - g) & mask == p - g;
    }
  }

  // ----- Interleaved steps -----

  /** Between which of its shared accesses the producer is. */
  datatype Producer = Ready | Admitted(c: byte) | Stored(c: byte)

  /** Between which of its shared accesses the consumer is. */
  datatype Consumer = Waiting | Granted | Fetched(c: byte)

  /** The ring with both sides' progress and the bytes that puts accepted and gets returned so far. */
  datatype Ring = Ring(data: seq<byte>, put: nat, get: nat, producer: Producer, consumer: Consumer,
                       accepted: seq<byte>, returned: seq<byte>)
  {
    function Size(): nat { |data| }
  }

  datatype Action =
    | PutCheck(c: byte)  // put: reads get_ptr and compares
    | PutStore           // put: writes data[put_ptr]
    | PutPublish         // put: writes put_ptr
    | GetCheck           // get: reads put_ptr and compares
    | GetFetch           // get: reads data[get_ptr]
    | GetRelease         // get: writes get_ptr

  /** One access; an action whose side is elsewhere does nothing. */
  function Step(s: Ring, a: Action): Ring
    requires s.put < s.Size() && s.get < s.Size()
  {
    match a
    case PutCheck(c) =>
      if s.producer.Ready? && Distance(s.Size(), s.put, s.get) != s.Size() - 1 then s.(producer := Admitted(c)) else s
    case PutStore =>
      if s.producer.Admitted? then s.(data := s.data[s.put := s.producer.c], producer := Stored(s.producer.c)) else s
    case PutPublish =>
      if s.producer.Stored?
      then s.(put := Advance(s.Size(), s.put), producer := Ready, accepted := s.accepted + [s.producer.c]) else s
    case GetCheck =>
      if s.consumer.Waiting? && Distance(s.Size(), s.put, s.get) > 0 then s.(consumer := Granted) else s
    case GetFetch =>
      if s.consumer.Granted? then s.(consumer := Fetched(s.data[s.get])) else s
    case GetRelease =>
      if s.consumer.Fetched?
      then s.(get := Advance(s.Size(), s.get), consumer := Waiting, returned := s.returned + [s.consumer.c]) else s
  }

  /** The ring slot of the byte that is i-th to be accepted. */
  function Slot(n: nat, i: nat): nat
    requires n > 0
  {
    i % n
  }

  ghost predicate Inv(s: Ring) {
    var n, t, r := s.Size(), |s.accepted|, |s.returned|;
    && n > 0 && s.put < n && s.get < n
    && r <= t <= r + n - 1
    && s.put == Slot(n, t) && s.get == Slot(n, r)
    && s.returned <= s.accepted
    && (forall i :: r <= i < t ==> s.data[Slot(n, i)] == s.accepted[i])
    && (!s.producer.Ready? ==> t < r + n - 1)
    && (s.producer.Stored? ==> s.data[s.put] == s.producer.c)
    && (!s.consumer.Waiting? ==> r < t)
    && (s.consumer.Fetched? ==> s.consumer.c == s.accepted[r])
  }

  function Init(n: nat, data: seq<byte>): Ring
    requires |data| == n
  {
    Ring(data, 0, 0, Ready, Waiting, [], [])
  }

  lemma SlotStep(n: nat, i: nat)
    requires n > 0
    ensures Slot(n, i + 1) == Advance(n, Slot(n, i))
  {
    var q, r := i / n, i % n;
    assert i == q * n + r;
    if r + 1 == n {
      ModOf(n, q + 1, 0, i + 1);
    } else {
      ModOf(n, q, r + 1, i + 1);
    }
  }

  /** Two numbers less than n apart, in different slots unless they are equal. */
  lemma {:induction false} SlotsApart(n: nat, i: nat, j: nat)
    requires n > 0 && i <= j < i + n
    ensures Distance(n, Slot(n, j), Slot(n, i)) == j - i
    decreases j
  {
    if i < j {
      SlotsApart(n, i, j - 1);
      SlotStep(n, j - 1);
    }
  }

  /** Every access by either side keeps the invariant. */
  lemma StepKeeps(s: Ring, a: Action)
    requires Inv(s)
    ensures Inv(Step(s, a))
  {
    var n, t, r := s.Size(), |s.accepted|, |s.returned|;
    SlotsApart(n, r, t);
    match a {
      case PutCheck(c) =>
      case PutStore =>
        if s.producer.Admitted? {
          forall i | r <= i < t
            ensures Slot(n, i) != s.put
          {
            SlotsApart(n, i, t);
          }
        }
      case PutPublish =>
        SlotStep(n, t);
      case GetCheck =>
      case GetFetch =>
      case GetRelease =>
        SlotStep(n, r);
    }
  }

  /** All accesses of a run, in the order in which they happened. */
  function Run(s: Ring, actions: seq<Action>): Ring
    requires Inv(s)
    ensures Inv(Run(s, actions))
    decreases |actions|
  {
    if actions == [] then s
    else
      StepKeeps(s, actions[0]);
      Run(Step(s, actions[0]), actions[1..])
  }

  /** For every interleaving, what gets return is what puts accepted, in order and without loss. */
  lemma Fifo(n: nat, data: seq<byte>, actions: seq<Action>)
    requires n > 0 && |data| == n
    ensures Inv(Init(n, data))
    ensures var s := Run(Init(n, data), actions);
      && s.Size() == n && s.returned <= s.accepted && |s.accepted| - |s.returned| <= n - 1
      && forall i :: |s.returned| <= i < |s.accepted| ==> s.data[Slot(n, i)] == s.accepted[i]
  {
    SizeKept(Init(n, data), actions);
  }

  lemma {:induction false} SizeKept(s: Ring, actions: seq<Action>)
    requires Inv(s)
    ensures Run(s, actions).Size() == s.Size()
    decreases |actions|
  {
    if actions != [] {
      StepKeeps(s, actions[0]);
      SizeKept(Step(s, actions[0]), actions[1..]);
    }
  }

  /** A store never hits a slot that holds an unread byte. */
  lemma StoreHitsNoUnread(s: Ring, i: nat)
    requires Inv(s) && s.producer.Admitted? && |s.returned| <= i < |s.accepted|
    ensures Step(s, PutStore).data[Slot(s.Size(), i)] == s.accepted[i] == s.data[Slot(s.Size(), i)]
  {
    SlotsApart(s.Size(), i, |s.accepted|);
  }

  /** A put is refused exactly when n - 1 bytes are unread, a get exactly when none is. */
  lemma RefusedExactlyWhenFullOrEmpty(s: Ring, c: byte)
    requires Inv(s)
    ensures s.producer.Ready? ==> (Step(s, PutCheck(c)).producer.Ready? <==> |s.accepted| - |s.returned| == s.Size() - 1)
    ensures s.consumer.Waiting? ==> (Step(s, GetCheck).consumer.Waiting? <==> |s.accepted| == |s.returned|)
  {
    SlotsApart(s.Size(), |s.returned|, |s.accepted|);
  }

  // ----- Uninterrupted calls -----

  class RingBuf {
    var data: seq<byte>
    var put: nat
    var get: nat
    ghost var accepted: seq<byte>
    ghost var returned: seq<byte>

    ghost function AsRing(): Ring
      reads this
    {
      Ring(data, put, get, Ready, Waiting, accepted, returned)
    }

    ghost predicate Valid()
      reads this
    {
      Inv(AsRing())
    }

    /** The unread bytes. */
    ghost function Contents(): seq<byte>
      reads this
      requires Valid()
    {
      accepted[|returned|..]
    }

    constructor (data: seq<byte>)
      requires |data| > 0
      ensures Valid() && Contents() == [] && |this.data| == |data| && accepted == returned == []
    {
      this.data, put, get := data, 0, 0;
      accepted, returned := [], [];
    }

    method Put(c: byte) returns (ok: bool)
      requires Valid()
      modifies this
      ensures Valid() && |data| == old(|data|)
      ensures ok <==> |old(Contents())| < |data| - 1
      ensures Contents() == if ok then old(Contents()) + [c] else old(Contents())
      ensures accepted == (if ok then old(accepted) + [c] else old(accepted)) && returned == old(returned)
    {
      ghost var s := AsRing();
      RefusedExactlyWhenFullOrEmpty(s, c);
      if Distance(|data|, put, get) == |data| - 1 {
        return false;
      }
      StepKeeps(s, PutCheck(c));
      StepKeeps(Step(s, PutCheck(c)), PutStore);
      StepKeeps(Step(Step(s, PutCheck(c)), PutStore), PutPublish);
      data := data[put := c];
      put := Advance(|data|, put);
      accepted := accepted + [c];
      assert AsRing() == Step(Step(Step(s, PutCheck(c)), PutStore), PutPublish);
      ok := true;
    }

    /** Returns -1 when there is nothing to read. */
    method Get() returns (c: int)
      requires Valid()
      modifies this
      ensures Valid() && |data| == old(|data|)
      ensures old(Contents()) == [] ==> c == -1 && Contents() == []
      ensures old(Contents()) != [] ==> c == old(Contents())[0] && Contents() == old(Contents())[1..]
      ensures accepted == old(accepted)
      ensures returned == if old(Contents()) == [] then old(returned) else old(returned) + [old(Contents())[0]]
    {
      ghost var s := AsRing();
      RefusedExactlyWhenFullOrEmpty(s, 0);
      if Distance(|data|, put, get) > 0 {
        StepKeeps(s, GetCheck);
        StepKeeps(Step(s, GetCheck), GetFetch);
        StepKeeps(Step(Step(s, GetCheck), GetFetch), GetRelease);
        c := data[get];
        get := Advance(|data|, get);
        returned := returned + [c];
        assert AsRing() == Step(Step(Step(s, GetCheck), GetFetch), GetRelease);
      } else {
        c := -1;
      }
    }
  }
}
