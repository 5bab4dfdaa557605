/** In which order the interleaved table delivers: when it is the order of publication, and when it is not. */
module KmsgOrders {
  import opened KmsgTables
  import opened KmsgInterleavings

  /** The message of a slot, if it holds one. */
  function Held(slot: Kmsg): seq<Kmsg> {
    if slot.len > 0 then [slot] else []
  }

  function Occupied(slots: seq<Kmsg>): seq<Kmsg> {
    if slots == [] then [] else Held(slots[0]) + Occupied(slots[1..])
  }

  /** The slot the consumer looks at next. */
  function Position(consumer: Consumer): nat {
    match consumer
    case Resting => 0
    case Looking(i) => i
    case Reading(i, _) => i
    case Releasing(i, _) => i
  }

  /** The messages in the order the consumer will come by them. */
  function Upcoming(slots: seq<Kmsg>, pos: nat): seq<Kmsg>
    requires pos <= |slots|
  {
    Occupied(slots[pos..]) + Occupied(slots[..pos])
  }

  function Before(slots: seq<Kmsg>, pos: nat, i: nat): seq<Kmsg>
    requires pos <= |slots| && i < |slots|
  {
    if pos <= i then Occupied(slots[pos..i]) else Occupied(slots[pos..]) + Occupied(slots[..i])
  }

  /** The messages the consumer will come by after slot `i`. */
  function Behind(slots: seq<Kmsg>, pos: nat, i: nat): seq<Kmsg>
    requires pos <= |slots| && i < |slots|
  {
    if pos <= i then Occupied(slots[i + 1..]) + Occupied(slots[..pos]) else Occupied(slots[i + 1..pos])
  }

  lemma {:induction false} OccupiedAppend(a: seq<Kmsg>, b: seq<Kmsg>)
    ensures Occupied(a + b) == Occupied(a) + Occupied(b)
  {
    hide Held;
    if a == [] {
      assert a + b == b;
    } else {
      assert (a + b)[1..] == a[1..] + b;
      OccupiedAppend(a[1..], b);
    }
  }

  lemma OccupiedAround(slots: seq<Kmsg>, i: nat)
    requires i < |slots|
    ensures Occupied(slots) == Occupied(slots[..i]) + Held(slots[i]) + Occupied(slots[i + 1..])
  {
    hide Held;
    assert slots == slots[..i] + slots[i..];
    assert slots[i..][1..] == slots[i + 1..];
    OccupiedAppend(slots[..i], slots[i..]);
  }

  /** Slot `i` has its place in the order, whatever it holds. */
  lemma UpcomingAround(slots: seq<Kmsg>, pos: nat, i: nat, v: Kmsg)
    requires pos <= |slots| && i < |slots|
    ensures Upcoming(slots[i := v], pos) == Before(slots, pos, i) + Held(v) + Behind(slots, pos, i)
  {
    hide Held, Occupied;
    var u := slots[i := v];
    assert u[i] == v;
    if pos <= i {
      OccupiedAround(u[pos..], i - pos);
      assert u[pos..][..i - pos] == slots[pos..i] && u[pos..][i - pos + 1..] == slots[i + 1..];
      assert u[..pos] == slots[..pos];
    } else {
      OccupiedAround(u[..pos], i);
      assert u[..pos][..i] == slots[..i] && u[..pos][i + 1..] == slots[i + 1..pos];
      assert u[pos..] == slots[pos..];
    }
  }

  lemma UpcomingSplit(slots: seq<Kmsg>, pos: nat, i: nat)
    requires pos <= |slots| && i < |slots|
    ensures Upcoming(slots, pos) == Before(slots, pos, i) + Held(slots[i]) + Behind(slots, pos, i)
  {
    UpcomingAround(slots, pos, i, slots[i]);
    assert slots[i := slots[i]] == slots;
  }

  /** Writing into a free slot does not touch the order. */
  lemma FreeSlotInOrder(slots: seq<Kmsg>, pos: nat, i: nat, v: Kmsg)
    requires pos <= |slots| && i < |slots| && slots[i].len <= 0 && v.len <= 0
    ensures Upcoming(slots[i := v], pos) == Upcoming(slots, pos)
  {
    UpcomingAround(slots, pos, i, v);
    UpcomingSplit(slots, pos, i);
  }

  lemma MoveOn(slots: seq<Kmsg>, pos: nat)
    requires pos < |slots|
    ensures Upcoming(slots, pos) == Held(slots[pos]) + Occupied(slots[pos + 1..]) + Occupied(slots[..pos])
    ensures Upcoming(slots, pos + 1) == Occupied(slots[pos + 1..]) + Occupied(slots[..pos]) + Held(slots[pos])
  {
    hide Held;
    OccupiedAround(slots[pos..], 0);
    assert slots[pos..][..0] == [] && slots[pos..][1..] == slots[pos + 1..];
    OccupiedAround(slots[..pos + 1], pos);
    assert slots[..pos + 1][..pos] == slots[..pos] && slots[..pos + 1][pos + 1..] == [];
  }

  /** Everything published was delivered, or comes up in the order of publication. */
  ghost predicate InOrder(s: State)
    requires InRange(s)
  {
    s.published == s.delivered + Upcoming(s.slots, Position(s.consumer))
  }

  /** A publication whose slot the consumer reaches after every occupied one, up to equal messages. */
  ghost predicate KeepsOrder(s: State, step: Step)
    requires InRange(s)
  {
    step.Produce? && s.producer.Publishing? && s.producer.m.len > 0 ==>
      forall x :: x in Behind(s.slots, Position(s.consumer), s.producer.i) ==> x == s.producer.m
  }

  lemma {:induction false} LastAmongEquals(r: seq<Kmsg>, m: Kmsg)
    ensures [m] + r == r + [m] <==> forall x :: x in r ==> x == m
  {
    if r != [] {
      assert r == [r[0]] + r[1..];
      assert ([m] + r)[1..] == r && (r + [m])[1..] == r[1..] + [m] && (r + [m])[0] == r[0];
      LastAmongEquals(r[1..], m);
      assert forall x :: x in r <==> x == r[0] || x in r[1..];
      if r[0] == m {
        assert [m] + r[1..] == r;
      } else {
        assert ([m] + r)[0] != (r + [m])[0] && r[0] in r;
      }
    }
  }

  lemma PublishedInOrder(s: State, i: nat, m: Kmsg)
    requires Safe(s) && InOrder(s) && s.producer == Publishing(i, m)
    ensures InOrder(Produced(s)) <==> KeepsOrder(s, Produce)
  {
    hide Pending, IsMessage, AllPublished, Upcoming, Before, Behind, ConsumerOk;
    var pos := Position(s.consumer);
    var p, r := Before(s.slots, pos, i), Behind(s.slots, pos, i);
    MessageLength(m);
    UpcomingSplit(s.slots, pos, i);
    UpcomingAround(s.slots, pos, i, s.slots[i].(len := m.len));
    if m.len > 0 {
      LastAmongEquals(r, m);
      Cancel(s.delivered, p, r, m);
    }
  }

  lemma Cancel(d: seq<Kmsg>, p: seq<Kmsg>, r: seq<Kmsg>, m: Kmsg)
    ensures d + (p + [] + r) + [m] == d + (p + [m] + r) <==> [m] + r == r + [m]
  {
    var left, right := d + (p + [] + r) + [m], d + (p + [m] + r);
    assert left == d + p + (r + [m]) && right == d + p + ([m] + r);
    assert left[|d + p|..] == r + [m] && right[|d + p|..] == [m] + r;
  }

  lemma WrittenInOrder(s: State)
    requires Safe(s) && InOrder(s) && !s.producer.Publishing?
    ensures InOrder(Produced(s))
  {
    hide Pending, IsMessage, AllPublished, Upcoming, ConsumerOk;
    var u := Produced(s);
    match s.producer
    case Clearing(i, m, k) =>
      if k < P2S_MSG_LEN {
        FreeSlotInOrder(s.slots, Position(s.consumer), i, u.slots[i]);
        assert u.slots == s.slots[i := u.slots[i]];
      }
    case Copying(i, m, k) =>
      if k < m.len {
        FreeSlotInOrder(s.slots, Position(s.consumer), i, u.slots[i]);
        assert u.slots == s.slots[i := u.slots[i]];
      }
    case _ =>
  }

  /** Releasing the slot the consumer stands at hands out the first of the upcoming messages. */
  lemma Released(slots: seq<Kmsg>, i: nat, v: Kmsg)
    requires i < |slots| && slots[i].len > 0 && v.len <= 0
    ensures Upcoming(slots, i) == [slots[i]] + Upcoming(slots[i := v], i + 1)
  {
    assert Held(slots[i]) == [slots[i]] && Held(v) == [];
    hide Upcoming, Occupied, Held;
    var u := slots[i := v];
    var x, y := Occupied(slots[i + 1..]), Occupied(slots[..i]);
    MoveOn(slots, i);
    MoveOn(u, i);
    assert u[i + 1..] == slots[i + 1..] && u[..i] == slots[..i];
    Regrouped(slots[i], x, y);
  }

  lemma Regrouped(m: Kmsg, x: seq<Kmsg>, y: seq<Kmsg>)
    ensures [m] + x + y == [m] + (x + y + [])
  {
  }

  lemma Passed(slots: seq<Kmsg>, i: nat)
    requires i < |slots| && slots[i].len <= 0
    ensures Upcoming(slots, i) == Upcoming(slots, i + 1)
  {
    MoveOn(slots, i);
  }

  lemma FromTheStart(slots: seq<Kmsg>)
    ensures Upcoming(slots, |slots|) == Upcoming(slots, 0)
  {
    assert slots[|slots|..] == [] && slots[..|slots|] == slots == slots[0..] && slots[..0] == [];
  }

  lemma ConsumedInOrder(s: State)
    requires Safe(s) && InOrder(s)
    ensures InOrder(Consumed(s))
  {
    hide Pending, IsMessage, AllPublished, ProducerOk, Upcoming;
    match s.consumer
    case Resting =>
    case Looking(i) =>
      if i == MSG_MAX {
        FromTheStart(s.slots);
      } else if s.slots[i].len <= 0 {
        Passed(s.slots, i);
      }
    case Reading(i, buf) =>
    case Releasing(i, got) => Released(s.slots, i, s.slots[i].(len := 0));
  }

  /** Delivery order stays the order of publication through a step if and only if the step is not a publication into
      a slot the consumer reaches before an occupied one with another message. */
  lemma NextInOrder(s: State, step: Step)
    requires Safe(s) && InOrder(s)
    ensures InOrder(Next(s, step)) <==> KeepsOrder(s, step)
  {
    hide Safe, Produced, Consumed, Cut, Upcoming, Behind, InRange;
    match step
    case Start(len, text) =>
    case Produce =>
      if s.producer.Publishing? {
        PublishedInOrder(s, s.producer.i, s.producer.m);
      } else {
        WrittenInOrder(s);
      }
    case Consume => ConsumedInOrder(s);
  }

  lemma RunStep(steps: seq<Step>, n: nat)
    requires n < |steps| && InOrder(Run(steps[..n]))
    ensures InOrder(Run(steps[..n + 1])) <==> KeepsOrder(Run(steps[..n]), steps[n])
  {
    hide InRange, Safe, Next, InOrder, KeepsOrder, Accounted;
    assert steps[..n + 1][..n] == steps[..n] && steps[..n + 1][n] == steps[n];
    RunInv(steps[..n]);
    NextInOrder(Run(steps[..n]), steps[n]);
  }

  lemma StartsInOrder(steps: seq<Step>)
    ensures InOrder(Run(steps[..0]))
  {
    FreeSlots(Initial().slots);
    var s := Initial().slots;
    assert s[0..] == s && s[..0] == [];
  }

  lemma {:induction false} FreeSlots(slots: seq<Kmsg>)
    requires forall i :: 0 <= i < |slots| ==> slots[i].len <= 0
    ensures Occupied(slots) == []
  {
    if slots != [] {
      FreeSlots(slots[1..]);
    }
  }

  lemma {:induction false} InOrderUpTo(steps: seq<Step>, n: nat)
    requires n <= |steps| && forall k :: 0 <= k < |steps| ==> KeepsOrder(Run(steps[..k]), steps[k])
    ensures InOrder(Run(steps[..n]))
  {
    hide InRange, Run, InOrder, KeepsOrder;
    if n == 0 {
      StartsInOrder(steps);
    } else {
      InOrderUpTo(steps, n - 1);
      RunStep(steps, n - 1);
    }
  }

  /** Over any interleaving: in every state the delivered messages, and behind them the pending ones as the consumer
      will come by them, are the published ones in order, if and only if every publication keeps the order. */
  lemma DeliveredInOrder(steps: seq<Step>)
    ensures (forall n :: 0 <= n <= |steps| ==> InOrder(Run(steps[..n]))) <==>
            (forall n :: 0 <= n < |steps| ==> KeepsOrder(Run(steps[..n]), steps[n]))
  {
    hide InRange, Run, InOrder, KeepsOrder;
    if forall n :: 0 <= n <= |steps| ==> InOrder(Run(steps[..n])) {
      forall n | 0 <= n < |steps|
        ensures KeepsOrder(Run(steps[..n]), steps[n])
      {
        assert InOrder(Run(steps[..n + 1]));
        RunStep(steps, n);
      }
    }
    if forall n :: 0 <= n < |steps| ==> KeepsOrder(Run(steps[..n]), steps[n]) {
      forall n | 0 <= n <= |steps|
        ensures InOrder(Run(steps[..n]))
      {
        InOrderUpTo(steps, n);
      }
    }
  }
}
