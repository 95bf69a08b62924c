/**
 * The firmware's remote-key queue: key events received over the UART are
 * checked against the key state they would produce, held in a 16-slot
 * circular FIFO, and drained into the key that is injected into the
 * keyboard path, where a physically pressed key always wins.
 */
module RemoteKey {
  import opened Bytes
  import opened RemoteKeyApi

  const QUEUE_SIZE: nat := 16

  /** The two KEY_Code_t values this file depends on: `invalid` (KEY_INVALID,
      above every real key, also meaning "no key held") and `ptt` (KEY_PTT). */
  datatype KeyCodes = KeyCodes(invalid: nat, ptt: nat)

  predicate ValidCodes(codes: KeyCodes)
  {
    codes.ptt < codes.invalid
  }

  /** IsAllowedKey: a real key other than PTT. An allowed key is never the
      "no key" sentinel. */
  predicate IsAllowedKey(codes: KeyCodes, key: nat): (ok: bool)
    ensures ok ==> key != codes.invalid && key != codes.ptt
  {
    key < codes.invalid && key != codes.ptt
  }

  /** The keys below `n`. */
  ghost function KeysBelow(n: nat): set<nat>
    decreases n
  {
    if n == 0 then {} else KeysBelow(n - 1) + {n - 1}
  }

  lemma {:induction false} KeysBelowMembers(n: nat)
    ensures forall k :: k in KeysBelow(n) <==> 0 <= k < n
    decreases n
  {
    if n > 0 {
      KeysBelowMembers(n - 1);
    }
  }

  lemma {:induction false} KeysBelowSize(n: nat)
    ensures |KeysBelow(n)| == n
    decreases n
  {
    if n > 0 {
      var below := KeysBelow(n - 1);
      KeysBelowSize(n - 1);
      KeysBelowMembers(n - 1);
      assert n - 1 !in below;
      assert KeysBelow(n) == below + {n - 1};
    }
  }

  /** The keys the queue accepts. */
  ghost function AllowedKeys(codes: KeyCodes): set<nat>
  {
    set k | k in KeysBelow(codes.invalid) && IsAllowedKey(codes, k)
  }

  /** Every real key but PTT may be injected: exactly KEY_INVALID - 1 keys,
      and no key at or above KEY_INVALID. */
  lemma AllowedKeysCount(codes: KeyCodes)
    requires ValidCodes(codes)
    ensures forall k: nat :: IsAllowedKey(codes, k) <==> k in AllowedKeys(codes)
    ensures forall k: nat :: codes.invalid <= k ==> !IsAllowedKey(codes, k)
    ensures codes.ptt !in AllowedKeys(codes) && codes.invalid !in AllowedKeys(codes)
    ensures |AllowedKeys(codes)| == codes.invalid - 1
  {
    KeysBelowMembers(codes.invalid);
    assert AllowedKeys(codes) == KeysBelow(codes.invalid) - {codes.ptt};
    KeysBelowSize(codes.invalid);
  }

  /** A key state: no key held, or a key that may be injected. */
  predicate Held(codes: KeyCodes, k: nat)
  {
    k == codes.invalid || IsAllowedKey(codes, k)
  }

  /** RemoteKeyEvent_t. */
  datatype Event = Event(key: nat, action: byte)

  /** The key held right after event `e`: its key on a press, none on a release. */
  function Effect(codes: KeyCodes, e: Event): (k: nat)
    ensures IsAllowedKey(codes, e.key) ==> Held(codes, k)
    ensures k != codes.invalid ==> k == e.key && e.action == ACTION_PRESS
  {
    if e.action == ACTION_PRESS then e.key else codes.invalid
  }

  /** The key held after the events `evs` are applied in order to `held`. */
  function Apply(codes: KeyCodes, held: nat, evs: seq<Event>): nat
    decreases |evs|
  {
    if evs == [] then held else Apply(codes, Effect(codes, evs[0]), evs[1..])
  }

  /** The reference rule for one event: an allowed key; a press only when no
      key is held, a release only of the key that is held. */
  predicate Admissible(codes: KeyCodes, held: nat, e: Event): (ok: bool)
    ensures ok ==> IsAllowedKey(codes, e.key) && Held(codes, Effect(codes, e))
    ensures ok ==> (e.action == ACTION_PRESS <==> held == codes.invalid)
  {
    IsAllowedKey(codes, e.key) &&
    ((e.action == ACTION_PRESS && held == codes.invalid) ||
     (e.action == ACTION_RELEASE && held == e.key))
  }

  /** Every event of `evs` is admissible in the state the earlier ones leave. */
  predicate Alternating(codes: KeyCodes, held: nat, evs: seq<Event>)
    decreases |evs|
  {
    evs == [] ||
    (Admissible(codes, held, evs[0]) && Alternating(codes, Effect(codes, evs[0]), evs[1..]))
  }

  /** From no key held, a press and a release of the same allowed key are
      accepted in turn and return to no key held; while the key is held, no
      second press of any key is accepted, nor a release of another key. */
  lemma PressThenRelease(codes: KeyCodes, k: nat)
    requires ValidCodes(codes) && IsAllowedKey(codes, k)
    ensures var evs := [Event(k, ACTION_PRESS), Event(k, ACTION_RELEASE)];
      Alternating(codes, codes.invalid, evs) && Apply(codes, codes.invalid, evs) == codes.invalid
    ensures forall j :: !Admissible(codes, Effect(codes, Event(k, ACTION_PRESS)), Event(j, ACTION_PRESS))
    ensures forall j :: j != k ==>
      !Admissible(codes, Effect(codes, Event(k, ACTION_PRESS)), Event(j, ACTION_RELEASE))
  {
    var evs := [Event(k, ACTION_PRESS), Event(k, ACTION_RELEASE)];
    assert evs[1..] == [Event(k, ACTION_RELEASE)] && evs[1..][1..] == [];
    assert Apply(codes, k, evs[1..]) == Apply(codes, codes.invalid, []);
    assert Apply(codes, codes.invalid, evs) == Apply(codes, k, evs[1..]);
  }

  /** The state after a run of events is set by the last of them alone. */
  lemma {:induction false} ApplyIsLastEffect(codes: KeyCodes, held: nat, evs: seq<Event>)
    ensures Apply(codes, held, evs) == if evs == [] then held else Effect(codes, evs[|evs| - 1])
    decreases |evs|
  {
    if evs != [] {
      ApplyIsLastEffect(codes, Effect(codes, evs[0]), evs[1..]);
    }
  }

  /** Applying one more event at the end. */
  lemma {:induction false} ApplyAppend(codes: KeyCodes, held: nat, evs: seq<Event>, e: Event)
    ensures Apply(codes, held, evs + [e]) == Effect(codes, e)
  {
    ApplyIsLastEffect(codes, held, evs + [e]);
  }

  /** An admissible event may be appended to an alternating run. */
  lemma {:induction false} AlternatingAppend(codes: KeyCodes, held: nat, evs: seq<Event>, e: Event)
    requires Alternating(codes, held, evs) && Admissible(codes, Apply(codes, held, evs), e)
    ensures Alternating(codes, held, evs + [e])
    decreases |evs|
  {
    if evs == [] {
      assert [] + [e] == [e];
    } else {
      assert (evs + [e])[1..] == evs[1..] + [e];
      AlternatingAppend(codes, Effect(codes, evs[0]), evs[1..], e);
    }
  }

  /** In an alternating run presses and releases alternate, a release names
      the key of the press before it, no event names PTT or an invalid key,
      and the state reached is again a valid key state. */
  lemma {:induction false} AlternationShape(codes: KeyCodes, held: nat, evs: seq<Event>)
    requires Alternating(codes, held, evs)
    ensures forall i :: 0 <= i < |evs| ==> IsAllowedKey(codes, evs[i].key)
    ensures forall i :: 0 <= i < |evs| ==>
      evs[i].action == ACTION_PRESS || evs[i].action == ACTION_RELEASE
    ensures forall i :: 0 <= i < |evs| - 1 ==>
      evs[i].action != evs[i + 1].action &&
      (evs[i].action == ACTION_PRESS ==> evs[i + 1].key == evs[i].key)
    ensures Held(codes, held) ==> Held(codes, Apply(codes, held, evs))
    decreases |evs|
  {
    if evs != [] {
      var rest := evs[1..];
      AlternationShape(codes, Effect(codes, evs[0]), rest);
      forall i | 0 < i < |evs| ensures evs[i] == rest[i - 1] { }
      if |evs| > 1 {
        assert Admissible(codes, Effect(codes, evs[0]), evs[1]);
      }
    }
  }

  /** The ring slot after slot `i`. */
  function Next(i: nat): (j: nat)
    requires i < QUEUE_SIZE
    ensures j < QUEUE_SIZE
  {
    if i + 1 == QUEUE_SIZE then 0 else i + 1
  }

  /** Next is the increment modulo 16 that the firmware writes. */
  lemma NextIsIncrementMod(i: nat)
    requires i < QUEUE_SIZE
    ensures Next(i) == (i + 1) % QUEUE_SIZE
  {
  }

  /** The slot `n` places on from slot `h`. */
  function Slot(h: nat, n: nat): (s: nat)
    requires h < QUEUE_SIZE
    ensures s < QUEUE_SIZE
    decreases n
  {
    if n == 0 then h else Next(Slot(h, n - 1))
  }

  /** Counting from the next slot takes one step fewer. */
  lemma {:induction false} SlotShift(h: nat, n: nat)
    requires h < QUEUE_SIZE && n > 0
    ensures Slot(h, n) == Slot(Next(h), n - 1)
    decreases n
  {
    if n > 1 {
      SlotShift(h, n - 1);
    }
  }

  /** Up to 16 places on, a slot wraps around at most once. */
  lemma {:induction false} SlotWrapsOnce(h: nat, n: nat)
    requires h < QUEUE_SIZE && n <= QUEUE_SIZE
    ensures Slot(h, n) == if h + n < QUEUE_SIZE then h + n else h + n - QUEUE_SIZE
    decreases n
  {
    if n > 0 {
      SlotWrapsOnce(h, n - 1);
    }
  }

  /** Slot `n` on from `h` is (h + n) mod 16. */
  lemma SlotIsSumMod(h: nat, n: nat)
    requires h < QUEUE_SIZE && n <= QUEUE_SIZE
    ensures Slot(h, n) == (h + n) % QUEUE_SIZE
  {
    SlotWrapsOnce(h, n);
  }

  /** Fewer than 16 places on from a slot is a different slot. */
  lemma SlotsDiffer(h: nat, n: nat)
    requires h < QUEUE_SIZE && 0 < n < QUEUE_SIZE
    ensures Slot(h, n) != h
  {
    SlotWrapsOnce(h, n);
  }

  /** The events held in the `depth` ring slots from `head` on, oldest first. */
  function RingContents(q: seq<Event>, head: nat, depth: nat): (r: seq<Event>)
    requires |q| == QUEUE_SIZE && head < QUEUE_SIZE
    ensures |r| == depth
    decreases depth
  {
    if depth == 0 then [] else [q[head]] + RingContents(q, Next(head), depth - 1)
  }

  /** Storing an event in the slot just past the queued ones appends it. */
  lemma {:induction false} RingPush(q: seq<Event>, head: nat, depth: nat, e: Event)
    requires |q| == QUEUE_SIZE && head < QUEUE_SIZE && depth < QUEUE_SIZE
    ensures RingContents(q[Slot(head, depth) := e], head, depth + 1) ==
            RingContents(q, head, depth) + [e]
    decreases depth
  {
    var q' := q[Slot(head, depth) := e];
    if depth > 0 {
      SlotsDiffer(head, depth);
      SlotShift(head, depth);
      RingPush(q, Next(head), depth - 1, e);
      assert RingContents(q', head, depth + 1) == [q[head]] + RingContents(q', Next(head), depth);
    }
  }

  /** Applying the oldest event of an alternating run leaves an alternating
      run that reaches the same state. */
  lemma DrainOne(codes: KeyCodes, held: nat, evs: seq<Event>)
    requires evs != [] && Alternating(codes, held, evs)
    ensures Alternating(codes, Effect(codes, evs[0]), evs[1..])
    ensures Apply(codes, Effect(codes, evs[0]), evs[1..]) == Apply(codes, held, evs)
    ensures Held(codes, Effect(codes, evs[0]))
  {
  }

  /** The queue invariant over the values of the statics: the ring
      indices agree, the queued events alternate from the injected key, and
      the predicted key is what applying all of them in FIFO order gives. */
  ghost predicate RingValid(codes: KeyCodes, q: seq<Event>, head: nat, tail: nat, depth: nat,
                            injected: nat, predicted: nat)
  {
    |q| == QUEUE_SIZE && head < QUEUE_SIZE && depth <= QUEUE_SIZE && tail == Slot(head, depth) &&
    ValidCodes(codes) && Held(codes, injected) &&
    Alternating(codes, injected, RingContents(q, head, depth)) &&
    predicted == Apply(codes, injected, RingContents(q, head, depth))
  }

  /** Enqueueing an admissible event into a ring with room keeps the
      invariant, appends the event, and moves the prediction to its effect. */
  lemma PushKeepsInvariant(codes: KeyCodes, q: seq<Event>, head: nat, tail: nat, depth: nat,
                           injected: nat, predicted: nat, e: Event)
    requires RingValid(codes, q, head, tail, depth, injected, predicted)
    requires depth < QUEUE_SIZE && Admissible(codes, predicted, e)
    ensures RingContents(q[tail := e], head, depth + 1) == RingContents(q, head, depth) + [e]
    ensures RingValid(codes, q[tail := e], head, Next(tail), depth + 1, injected, Effect(codes, e))
  {
    var before := RingContents(q, head, depth);
    RingPush(q, head, depth, e);
    AlternatingAppend(codes, injected, before, e);
    ApplyAppend(codes, injected, before, e);
  }

  /** Draining the oldest event keeps the invariant with that event's
      effect as the injected key; the prediction does not move. */
  lemma DropKeepsInvariant(codes: KeyCodes, q: seq<Event>, head: nat, tail: nat, depth: nat,
                           injected: nat, predicted: nat)
    requires RingValid(codes, q, head, tail, depth, injected, predicted) && depth > 0
    ensures RingContents(q, head, depth)[0] == q[head]
    ensures RingContents(q, Next(head), depth - 1) == RingContents(q, head, depth)[1..]
    ensures RingValid(codes, q, Next(head), tail, depth - 1, Effect(codes, q[head]), predicted)
  {
    DrainOne(codes, injected, RingContents(q, head, depth));
    SlotShift(head, depth);
  }

  /** The static state of remote_key.c. */
  class RemoteKeyQueue {
    const codes: KeyCodes
    const queue: array<Event>
    var head: nat
    var tail: nat
    var depth: nat
    /** The key currently injected into the keyboard path. */
    var injected: nat
    /** The key state once every queued event is applied. */
    var predicted: nat

    ghost function Contents(): seq<Event>
      reads this, queue
      requires queue.Length == QUEUE_SIZE && head < QUEUE_SIZE && depth <= QUEUE_SIZE
    {
      RingContents(queue[..], head, depth)
    }

    /** The ring invariants, and the relational one: the predicted key is
        the injected key with the queued events applied in FIFO order. */
    ghost predicate Valid()
      reads this, queue
    {
      queue.Length == QUEUE_SIZE &&
      RingValid(codes, queue[..], head, tail, depth, injected, predicted)
    }

    /** The zero-initialised statics: an empty ring, no key injected or predicted. */
    constructor (codes: KeyCodes)
      requires ValidCodes(codes)
      ensures Valid() && fresh(queue) && this.codes == codes
      ensures Contents() == [] && head == 0 && tail == 0
      ensures injected == codes.invalid && predicted == codes.invalid
    {
      this.codes := codes;
      queue := new Event[QUEUE_SIZE](_ => Event(0, 0));
      head, tail, depth := 0, 0, 0;
      injected, predicted := codes.invalid, codes.invalid;
    }

    /** REMOTEKEY_Enqueue. Validity is checked before capacity: an event that
        is not admissible is INVALID even when the ring is full. */
    method Enqueue(key: nat, action: byte) returns (status: AckStatus)
      requires Valid()
      modifies this, queue
      ensures Valid()
      ensures status == Invalid <==> !Admissible(codes, old(predicted), Event(key, action))
      ensures status == Busy <==>
        Admissible(codes, old(predicted), Event(key, action)) && old(depth) >= QUEUE_SIZE
      ensures status == Accepted <==>
        Admissible(codes, old(predicted), Event(key, action)) && old(depth) < QUEUE_SIZE
      ensures status == Accepted ==>
        Contents() == old(Contents()) + [Event(key, action)] &&
        queue[old(tail)] == Event(key, action) &&
        tail == (old(tail) + 1) % QUEUE_SIZE && depth == old(depth) + 1 &&
        head == old(head) && injected == old(injected) &&
        predicted == Effect(codes, Event(key, action))
      ensures status != Accepted ==> unchanged(this) && unchanged(queue)
    {
      if !IsAllowedKey(codes, key) {
        return Invalid;
      }
      if action != ACTION_PRESS && action != ACTION_RELEASE {
        return Invalid;
      }
      if action == ACTION_PRESS {
        if predicted != codes.invalid {
          return Invalid;
        }
      } else {
        if predicted != key {
          return Invalid;
        }
      }
      if depth >= QUEUE_SIZE {
        return Busy;
      }
      Push(Event(key, action));
      return Accepted;
    }

    /** The accepting half of REMOTEKEY_Enqueue: the event is stored at the
        tail, the ring grows by one, and the prediction follows the event. */
    method Push(e: Event)
      requires Valid() && depth < QUEUE_SIZE && Admissible(codes, predicted, e)
      modifies this, queue
      ensures Valid()
      ensures Contents() == old(Contents()) + [e] && queue[old(tail)] == e
      ensures tail == (old(tail) + 1) % QUEUE_SIZE && depth == old(depth) + 1
      ensures head == old(head) && injected == old(injected) && predicted == Effect(codes, e)
    {
      PushKeepsInvariant(codes, queue[..], head, tail, depth, injected, predicted, e);
      queue[tail] := e;
      assert queue[..] == old(queue[..])[tail := e];
      NextIsIncrementMod(tail);
      tail := (tail + 1) % QUEUE_SIZE;
      depth := depth + 1;
      if e.action == ACTION_PRESS {
        predicted := e.key;
      } else {
        predicted := codes.invalid;
      }
    }

    /** REMOTEKEY_ProcessQueue: drains the whole ring, oldest event first,
        into the injected key. */
    method ProcessQueue()
      requires Valid()
      modifies this
      ensures Valid()
      ensures depth == 0 && Contents() == []
      ensures head == old(tail) == (old(head) + old(depth)) % QUEUE_SIZE && tail == old(tail)
      ensures injected == old(predicted) && predicted == old(predicted)
      ensures injected == if old(depth) == 0 then old(injected)
                          else Effect(codes, old(Contents())[old(depth) - 1])
    {
      ghost var all, start, depth0 := Contents(), head, depth;
      assert tail == Slot(start, depth0);
      ApplyIsLastEffect(codes, injected, all);
      ghost var drained := 0;
      while depth > 0
        invariant Valid()
        invariant drained + depth == |all|
        invariant head == Slot(start, drained)
        invariant Contents() == all[drained..]
        invariant tail == old(tail) && predicted == old(predicted)
        decreases depth
      {
        Step();
        assert all[drained..][1..] == all[drained + 1..];
        drained := drained + 1;
      }
      assert drained == depth0 && all == old(Contents());
      assert head == Slot(start, depth0) == tail;
      SlotIsSumMod(start, depth0);
      assert injected == Apply(codes, injected, []) == old(predicted);
    }

    /** One iteration of the drain loop: the oldest event becomes the
        injected key state and its slot is released. */
    method Step()
      requires Valid() && depth > 0
      modifies this
      ensures Valid()
      ensures Contents() == old(Contents())[1..] && injected == Effect(codes, old(Contents())[0])
      ensures head == Next(old(head)) && depth == old(depth) - 1
      ensures tail == old(tail) && predicted == old(predicted)
    {
      ghost var q := queue[..];
      DropKeepsInvariant(codes, q, head, tail, depth, injected, predicted);
      var ev := queue[head];
      if ev.action == ACTION_PRESS {
        injected := ev.key;
      } else {
        injected := codes.invalid;
      }
      assert injected == Effect(codes, ev);
      NextIsIncrementMod(head);
      head := (head + 1) % QUEUE_SIZE;
      depth := depth - 1;
      assert queue[..] == q;
    }

    /** REMOTEKEY_GetQueueDepth: the number of queued events. */
    function GetQueueDepth(): (d: byte)
      reads this, queue
      requires Valid()
      ensures d == |Contents()| && d <= QUEUE_SIZE
    {
      depth
    }

    /** REMOTEKEY_MergeWithHardware: a physically pressed key has priority;
        otherwise the injected key, which is never PTT, is used. */
    function MergeWithHardware(hardwareKey: nat): (k: nat)
      reads this, queue
      requires Valid()
      ensures hardwareKey != codes.invalid ==> k == hardwareKey
      ensures hardwareKey == codes.invalid ==> k == injected
      ensures k == codes.ptt ==> hardwareKey == codes.ptt
      ensures Held(codes, k) || k == hardwareKey
    {
      if hardwareKey != codes.invalid then hardwareKey else injected
    }
  }
}
