/** The same table stepped field by field: one producer adding messages, one consumer draining, in any interleaving. */
module KmsgInterleavings {
  import opened KmsgTables

  /** Where the producer stands in kp2s_add_msg. `seen` are the slots its scan found occupied, as it found them. */
  datatype Producer =
    | Idle
    | Scanning(i: nat, m: Kmsg, seen: seq<Kmsg>)
    | Clearing(i: nat, m: Kmsg, k: nat)
    | Copying(i: nat, m: Kmsg, k: nat)
    | Publishing(i: nat, m: Kmsg)

  /** Where the consumer stands in kpsp2shell_wait_buffer. */
  datatype Consumer =
    | Resting
    | Looking(i: nat)
    | Reading(i: nat, buf: seq<char>)
    | Releasing(i: nat, got: Kmsg)

  datatype Drop = Drop(m: Kmsg, seen: seq<Kmsg>)

  datatype State = State(
    slots: seq<Kmsg>,
    producer: Producer,
    consumer: Consumer,
    added: multiset<Kmsg>,
    published: seq<Kmsg>,
    delivered: seq<Kmsg>,
    dropped: seq<Drop>,
    empty: multiset<Kmsg>)

  /** One access to a shared field, or the start of an addition. */
  datatype Step = Start(len: nat, text: seq<char>) | Produce | Consume

  const FREE := Kmsg(seq(P2S_MSG_LEN, _ => NUL), 0)

  function Initial(): State {
    State(seq(MSG_MAX, _ => FREE), Idle, Resting, multiset{}, [], [], [], multiset{})
  }

  /** All indices point into the table and the buffers. */
  predicate InRange(s: State) {
    && |s.slots| == MSG_MAX
    && (forall i :: 0 <= i < MSG_MAX ==> |s.slots[i].msg| == P2S_MSG_LEN)
    && (match s.producer
        case Idle => true
        case Scanning(i, m, _) => i <= MSG_MAX && IsMessage(m)
        case Clearing(i, m, k) => i < MSG_MAX && k <= P2S_MSG_LEN && IsMessage(m)
        case Copying(i, m, k) => i < MSG_MAX && k <= m.len && IsMessage(m)
        case Publishing(i, m) => i < MSG_MAX && IsMessage(m))
    && (match s.consumer
        case Resting => true
        case Looking(i) => i <= MSG_MAX
        case Reading(i, buf) => i < MSG_MAX && |buf| <= P2S_MSG_LEN
        case Releasing(i, _) => i < MSG_MAX)
  }

  function Started(s: State, m: Kmsg): (u: State)
    requires InRange(s) && IsMessage(m)
    ensures InRange(u)
  {
    s.(producer := Scanning(0, m, []), added := s.added + multiset{m})
  }

  function Produced(s: State): (u: State)
    requires InRange(s)
    ensures InRange(u)
  {
    match s.producer
    case Idle => s
    case Scanning(i, m, seen) =>
      if i == MSG_MAX then s.(producer := Idle, dropped := s.dropped + [Drop(m, seen)])
      else if s.slots[i].len <= 0 then s.(producer := Clearing(i, m, 0))
      else s.(producer := Scanning(i + 1, m, seen + [s.slots[i]]))
    case Clearing(i, m, k) =>
      if k == P2S_MSG_LEN then s.(producer := Copying(i, m, 0))
      else s.(slots := WithChar(s.slots, i, k, NUL), producer := Clearing(i, m, k + 1))
    case Copying(i, m, k) =>
      if k == m.len then s.(producer := Publishing(i, m))
      else s.(slots := WithChar(s.slots, i, k, m.msg[k]), producer := Copying(i, m, k + 1))
    case Publishing(i, m) =>
      var u := s.(slots := s.slots[i := s.slots[i].(len := m.len)], producer := Idle);
      if m.len > 0 then u.(published := s.published + [m]) else u.(empty := s.empty + multiset{m})
  }

  function Consumed(s: State): (u: State)
    requires InRange(s)
    ensures InRange(u)
  {
    match s.consumer
    case Resting => s.(consumer := Looking(0))
    case Looking(i) =>
      if i == MSG_MAX then s.(consumer := Resting)
      else if s.slots[i].len > 0 then s.(consumer := Reading(i, []))
      else s.(consumer := Looking(i + 1))
    case Reading(i, buf) =>
      if |buf| == P2S_MSG_LEN then s.(consumer := Releasing(i, Kmsg(buf, s.slots[i].len)))
      else s.(consumer := Reading(i, buf + [s.slots[i].msg[|buf|]]))
    case Releasing(i, got) =>
      s.(slots := s.slots[i := s.slots[i].(len := 0)], consumer := Looking(i + 1), delivered := s.delivered + [got])
  }

  function Next(s: State, step: Step): (u: State)
    requires InRange(s)
    ensures InRange(u)
  {
    match step
    case Start(len, text) => if s.producer.Idle? then Started(s, Cut(len, text)) else s
    case Produce => Produced(s)
    case Consume => Consumed(s)
  }

  function WithChar(slots: seq<Kmsg>, i: nat, k: nat, c: char): (r: seq<Kmsg>)
    requires i < |slots| && k < |slots[i].msg|
    ensures |r| == |slots|
  {
    slots[i := slots[i].(msg := slots[i].msg[k := c])]
  }

  /** The messages in occupied slots. */
  function Pending(slots: seq<Kmsg>): multiset<Kmsg> {
    if slots == [] then multiset{}
    else Occupant(slots[0]) + Pending(slots[1..])
  }

  function Occupant(slot: Kmsg): multiset<Kmsg> {
    if slot.len > 0 then multiset{slot} else multiset{}
  }

  lemma {:induction false} PendingUpdate(slots: seq<Kmsg>, i: nat, v: Kmsg)
    requires i < |slots|
    ensures Pending(slots[i := v]) + Occupant(slots[i]) == Pending(slots) + Occupant(v)
  {
    hide Occupant;
    var changed := slots[i := v];
    if i == 0 {
      assert changed[1..] == slots[1..];
    } else {
      PendingUpdate(slots[1..], i - 1, v);
      assert changed[1..] == slots[1..][i - 1 := v];
      assert changed[0] == slots[0] && slots[1..][i - 1] == slots[i];
      assert Pending(changed) == Occupant(slots[0]) + Pending(changed[1..]);
      assert Pending(slots) == Occupant(slots[0]) + Pending(slots[1..]);
      Regroup(Occupant(slots[0]), Pending(changed[1..]), Occupant(slots[i]), Pending(slots[1..]), Occupant(v));
    }
  }

  lemma Regroup(o: multiset<Kmsg>, a: multiset<Kmsg>, x: multiset<Kmsg>, b: multiset<Kmsg>, y: multiset<Kmsg>)
    requires a + x == b + y
    ensures o + a + x == o + b + y
  {
    assert o + a + x == o + (a + x);
    assert o + b + y == o + (b + y);
  }

  lemma {:induction false} NothingPending(slots: seq<Kmsg>)
    requires forall i :: 0 <= i < |slots| ==> slots[i].len <= 0
    ensures Pending(slots) == multiset{}
  {
    if slots != [] {
      NothingPending(slots[1..]);
    }
  }

  /** The state after a run. */
  function Run(steps: seq<Step>): (s: State)
    ensures InRange(s)
  {
    if steps == [] then Initial() else Next(Run(steps[..|steps| - 1]), steps[|steps| - 1])
  }

  /** The slot a producer writes is free, and holds what has been written so far. */
  predicate ProducerOk(producer: Producer, slots: seq<Kmsg>, published: seq<Kmsg>)
    requires |slots| == MSG_MAX && forall i :: 0 <= i < MSG_MAX ==> |slots[i].msg| == P2S_MSG_LEN
  {
    match producer
    case Idle => true
    case Scanning(i, m, seen) => |seen| == i && AllPublished(seen, published)
    case Clearing(i, m, k) =>
      && i < MSG_MAX && k <= P2S_MSG_LEN
      && slots[i].len == 0 && forall j :: 0 <= j < k ==> slots[i].msg[j] == NUL
    case Copying(i, m, k) =>
      && i < MSG_MAX && k <= m.len && IsMessage(m)
      && slots[i].len == 0
      && (forall j :: 0 <= j < k ==> slots[i].msg[j] == m.msg[j])
      && (forall j :: k <= j < P2S_MSG_LEN ==> slots[i].msg[j] == NUL)
    case Publishing(i, m) => i < MSG_MAX && slots[i].len == 0 && slots[i].msg == m.msg
  }

  /** The slot a consumer copies from stays occupied, and the copy agrees with it. */
  predicate ConsumerOk(consumer: Consumer, slots: seq<Kmsg>)
    requires |slots| == MSG_MAX
  {
    match consumer
    case Resting => true
    case Looking(i) => true
    case Reading(i, buf) => i < MSG_MAX && slots[i].len > 0 && buf <= slots[i].msg
    case Releasing(i, got) => i < MSG_MAX && slots[i].len > 0 && got == slots[i]
  }

  /** Every slot seen was occupied by a message published before. */
  predicate AllPublished(seen: seq<Kmsg>, published: seq<Kmsg>) {
    forall j :: 0 <= j < |seen| ==> seen[j].len > 0 && seen[j] in published
  }

  /** The message an addition under way has in hand. */
  function InHand(producer: Producer): multiset<Kmsg> {
    if producer.Idle? then multiset{} else multiset{producer.m}
  }

  function Refused(dropped: seq<Drop>): multiset<Kmsg> {
    if dropped == [] then multiset{} else Refused(dropped[..|dropped| - 1]) + multiset{dropped[|dropped| - 1].m}
  }

  /** Nothing added is unaccounted for. */
  predicate Accounted(s: State) {
    && s.added == Total(multiset(s.published), Refused(s.dropped), s.empty, InHand(s.producer))
    && OnlyEmpty(s.empty)
  }

  predicate OnlyEmpty(messages: multiset<Kmsg>) {
    forall m :: m in messages ==> m.len == 0
  }

  function Total(p: multiset<Kmsg>, r: multiset<Kmsg>, e: multiset<Kmsg>, h: multiset<Kmsg>): multiset<Kmsg> {
    p + r + e + h
  }

  predicate Safe(s: State) {
    && InRange(s)
    && (forall i :: 0 <= i < MSG_MAX ==> s.slots[i].len >= 0)
    && ProducerOk(s.producer, s.slots, s.published) && ConsumerOk(s.consumer, s.slots)
    && multiset(s.published) == multiset(s.delivered) + Pending(s.slots)
    && (forall j :: 0 <= j < |s.dropped| ==>
         |s.dropped[j].seen| == MSG_MAX && AllPublished(s.dropped[j].seen, s.published))
  }

  lemma InitialInv()
    ensures Safe(Initial()) && Accounted(Initial())
  {
    hide Pending, Accounted;
    NothingPending(Initial().slots);
    NothingAdded();
  }

  lemma NothingAdded()
    ensures Accounted(Initial())
  {
  }

  lemma {:induction false} OccupiedIsPending(slots: seq<Kmsg>, i: nat)
    requires i < |slots| && slots[i].len > 0
    ensures slots[i] in Pending(slots)
  {
    if i > 0 {
      OccupiedIsPending(slots[1..], i - 1);
    }
  }

  lemma PublishedGrows(seen: seq<Kmsg>, published: seq<Kmsg>, m: Kmsg)
    requires AllPublished(seen, published)
    ensures AllPublished(seen, published + [m])
  {
  }

  /** Writing a free slot's text disturbs neither the consumer nor the pending messages. */
  lemma FreeSlotWritten(slots: seq<Kmsg>, consumer: Consumer, i: nat, v: Kmsg)
    requires |slots| == MSG_MAX && i < MSG_MAX && slots[i].len == 0
    requires ConsumerOk(consumer, slots)
    ensures ConsumerOk(consumer, slots[i := v])
    ensures Pending(slots[i := v]) == Pending(slots) + Occupant(v)
  {
    hide Pending;
    PendingUpdate(slots, i, v);
  }

  lemma ProducedInv(s: State)
    requires Safe(s)
    ensures Safe(Produced(s))
  {
    hide Pending, ConsumerOk, IsMessage, AllPublished;
    var u := Produced(s);
    match s.producer
    case Idle =>
    case Scanning(i, m, seen) => SlotScanned(s, i, m, seen);
    case Clearing(i, m, k) =>
      if k < P2S_MSG_LEN {
        FreeSlotWritten(s.slots, s.consumer, i, u.slots[i]);
        assert forall j :: 0 <= j < k ==> u.slots[i].msg[j] == s.slots[i].msg[j];
      }
    case Copying(i, m, k) =>
      if k < m.len {
        CharCopied(s, i, m, k);
      } else {
        Copied(s.slots[i], m);
      }
    case Publishing(i, m) => MessagePublished(s, i, m);
  }

  lemma SlotScanned(s: State, i: nat, m: Kmsg, seen: seq<Kmsg>)
    requires Safe(s) && s.producer == Scanning(i, m, seen)
    ensures Safe(Produced(s))
  {
    hide Pending, ConsumerOk, IsMessage;
    if i < MSG_MAX && s.slots[i].len > 0 {
      OccupiedIsPending(s.slots, i);
      assert s.slots[i] in multiset(s.published);
    }
  }

  lemma MessagePublished(s: State, i: nat, m: Kmsg)
    requires Safe(s) && s.producer == Publishing(i, m)
    ensures Safe(Produced(s))
  {
    hide Pending, ConsumerOk, IsMessage, AllPublished;
    var u := Produced(s);
    MessageLength(m);
    FreeSlotWritten(s.slots, s.consumer, i, u.slots[i]);
    assert u.slots[i] == m;
    DropsStay(s.dropped, s.published, m);
  }

  lemma MessageLength(m: Kmsg)
    requires IsMessage(m)
    ensures 0 <= m.len <= P2S_MSG_LEN
  {
  }

  lemma CharCopied(s: State, i: nat, m: Kmsg, k: nat)
    requires Safe(s) && s.producer == Copying(i, m, k) && k < m.len
    ensures Safe(Produced(s))
  {
    hide Pending, ConsumerOk;
    var u := Produced(s);
    FreeSlotWritten(s.slots, s.consumer, i, u.slots[i]);
    assert u.slots[i].msg == s.slots[i].msg[k := m.msg[k]];
  }

  lemma Copied(slot: Kmsg, m: Kmsg)
    requires IsMessage(m) && |slot.msg| == P2S_MSG_LEN
    requires forall j :: 0 <= j < m.len ==> slot.msg[j] == m.msg[j]
    requires forall j :: m.len <= j < P2S_MSG_LEN ==> slot.msg[j] == NUL
    ensures slot.msg == m.msg
  {
  }

  lemma DropsStay(dropped: seq<Drop>, published: seq<Kmsg>, m: Kmsg)
    requires forall j :: 0 <= j < |dropped| ==> |dropped[j].seen| == MSG_MAX && AllPublished(dropped[j].seen, published)
    ensures forall j :: 0 <= j < |dropped| ==>
              |dropped[j].seen| == MSG_MAX && AllPublished(dropped[j].seen, published + [m])
  {
    forall j | 0 <= j < |dropped|
      ensures AllPublished(dropped[j].seen, published + [m])
    {
      PublishedGrows(dropped[j].seen, published, m);
    }
  }

  /** Releasing an occupied slot leaves the producer's free slot alone. */
  lemma ConsumedInv(s: State)
    requires Safe(s)
    ensures Safe(Consumed(s))
  {
    hide Pending, AllPublished, IsMessage;
    var u := Consumed(s);
    match s.consumer
    case Resting =>
    case Looking(i) =>
    case Reading(i, buf) =>
      if |buf| == P2S_MSG_LEN {
        assert buf == s.slots[i].msg;
      }
    case Releasing(i, got) =>
      PendingUpdate(s.slots, i, u.slots[i]);
      assert Pending(u.slots) + multiset{got} == Pending(s.slots);
  }

  lemma NextInv(s: State, step: Step)
    requires Safe(s)
    ensures Safe(Next(s, step))
  {
    hide Pending, AllPublished, IsMessage, ConsumerOk, Cut;
    match step
    case Start(len, text) => NothingSeen(s.published);
    case Produce => ProducedInv(s);
    case Consume => ConsumedInv(s);
  }

  /** What an access of the producer does to the books: nothing, or the message in hand goes to one of them. */
  lemma ProducedBooks(s: State)
    requires InRange(s) && !s.producer.Idle?
    ensures var m, u := s.producer.m, Produced(s);
            && u.added == s.added
            && (|| (&& u.published == s.published && u.dropped == s.dropped && u.empty == s.empty
                    && !u.producer.Idle? && u.producer.m == m)
                || (&& u.published == s.published + [m] && u.dropped == s.dropped && u.empty == s.empty
                    && u.producer.Idle?)
                || (&& s.producer.Scanning? && u.published == s.published
                    && u.dropped == s.dropped + [Drop(m, s.producer.seen)] && u.empty == s.empty && u.producer.Idle?)
                || (&& m.len == 0 && u.published == s.published && u.dropped == s.dropped
                    && u.empty == s.empty + multiset{m} && u.producer.Idle?))
  {
    MessageInHand(s);
  }

  lemma ProducedAccounted(s: State)
    requires InRange(s) && Accounted(s)
    ensures Accounted(Produced(s))
  {
    if !s.producer.Idle? {
      ProducedBooks(s);
      hide IsMessage, Refused, InRange, Total, OnlyEmpty, Produced;
      var p, r, e, m := multiset(s.published), Refused(s.dropped), s.empty, s.producer.m;
      HandedOn(p, r, e, m);
      RefusedNext(s.dropped);
      EmptyToo(e, m);
      assert multiset(s.published + [m]) == p + multiset{m};
    }
  }

  lemma StartedAccounted(s: State, m: Kmsg)
    requires InRange(s) && Accounted(s) && IsMessage(m) && s.producer.Idle?
    ensures Accounted(Started(s, m))
  {
    hide Refused, InRange, Total, OnlyEmpty;
    HandedOn(multiset(s.published), Refused(s.dropped), s.empty, m);
  }

  lemma ConsumedBooks(s: State)
    requires InRange(s)
    ensures var u := Consumed(s);
            u.added == s.added && u.published == s.published && u.dropped == s.dropped && u.empty == s.empty &&
                u.producer == s.producer
  {
  }

  lemma ConsumedAccounted(s: State)
    requires InRange(s) && Accounted(s)
    ensures Accounted(Consumed(s))
  {
    hide Refused, Total, OnlyEmpty, Consumed, InRange;
    ConsumedBooks(s);
  }

  lemma NextAccounted(s: State, step: Step)
    requires InRange(s) && Accounted(s)
    ensures Accounted(Next(s, step))
  {
    hide IsMessage, Cut, Refused, InRange, Total, OnlyEmpty, Produced, Started, Consumed, Accounted;
    match step
    case Start(len, text) =>
      if s.producer.Idle? {
        StartedAccounted(s, Cut(len, text));
      }
    case Consume => ConsumedAccounted(s);
    case Produce => ProducedAccounted(s);
  }

  lemma EmptyToo(e: multiset<Kmsg>, m: Kmsg)
    requires OnlyEmpty(e)
    ensures m.len == 0 ==> OnlyEmpty(e + multiset{m})
  {
  }

  lemma MessageInHand(s: State)
    requires InRange(s) && !s.producer.Idle?
    ensures s.producer.m.len >= 0
  {
  }

  lemma RefusedNext(dropped: seq<Drop>)
    ensures forall d :: Refused(dropped + [d]) == Refused(dropped) + multiset{d.m}
  {
    forall d
      ensures Refused(dropped + [d]) == Refused(dropped) + multiset{d.m}
    {
      assert (dropped + [d])[..|dropped|] == dropped;
    }
  }

  lemma HandedOn(p: multiset<Kmsg>, r: multiset<Kmsg>, e: multiset<Kmsg>, m: Kmsg)
    ensures Total(p, r, e, multiset{}) + multiset{m} == Total(p, r, e, multiset{m})
    ensures Total(p, r, e, multiset{m}) == Total(p + multiset{m}, r, e, multiset{})
    ensures Total(p, r, e, multiset{m}) == Total(p, r + multiset{m}, e, multiset{})
    ensures Total(p, r, e, multiset{m}) == Total(p, r, e + multiset{m}, multiset{})
  {
  }

  lemma NothingSeen(published: seq<Kmsg>)
    ensures AllPublished([], published)
  {
  }

  lemma {:induction false} RunInv(steps: seq<Step>)
    ensures Safe(Run(steps)) && Accounted(Run(steps))
  {
    hide Safe, Next, InRange, Accounted;
    if steps == [] {
      InitialInv();
    } else {
      RunInv(steps[..|steps| - 1]);
      NextAccounted(Run(steps[..|steps| - 1]), steps[|steps| - 1]);
      NextInv(Run(steps[..|steps| - 1]), steps[|steps| - 1]);
    }
  }

  /** In every state of every run: each message added is published, dropped, empty or still in the producer's
      hands; the published ones are the delivered and the pending ones, so each is delivered at most once and
      whole; and a message was dropped only after its scan saw all 64 slots hold published messages. */
  lemma MessagesConserved(steps: seq<Step>)
    ensures var s := Run(steps);
            && multiset(s.published) == multiset(s.delivered) + Pending(s.slots)
            && s.added == multiset(s.published) + Refused(s.dropped) + s.empty + InHand(s.producer)
            && OnlyEmpty(s.empty)
            && (forall m :: multiset(s.delivered)[m] <= multiset(s.published)[m])
            && (forall j :: 0 <= j < |s.dropped| ==>
                  |s.dropped[j].seen| == MSG_MAX && AllPublished(s.dropped[j].seen, s.published))
  {
    hide Pending, AllPublished, Run, InRange, Refused;
    RunInv(steps);
  }
}
