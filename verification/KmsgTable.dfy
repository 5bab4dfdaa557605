/** The kernel message slot table of psp2shell_k/main.c with each operation taken as one step. */
module KmsgTables {

  const MSG_MAX := 64
  const P2S_MSG_LEN := 256
  const NUL := '\0'

  /** One slot; a positive `len` marks it occupied. */
  datatype Kmsg = Kmsg(msg: seq<char>, len: int)

  /** What strncpy finds to copy: at most `n` characters, up to the terminator. */
  function TextOf(text: seq<char>, n: nat): (r: seq<char>)
    ensures |r| <= n && r <= text && NUL !in r
    ensures |r| == n || |r| == |text| || text[|r|] == NUL
  {
    if n == 0 || text == [] || text[0] == NUL then [] else [text[0]] + TextOf(text[1..], n - 1)
  }

  /** The contents of a zeroed slot after strncpy of `n` characters. */
  function Stored(text: seq<char>, n: nat): (r: seq<char>)
    requires n <= P2S_MSG_LEN
    ensures |r| == P2S_MSG_LEN
  {
    var t := TextOf(text, n);
    t + seq(P2S_MSG_LEN - |t|, _ => NUL)
  }

  /** The message an addition puts into its slot: cut to the slot size. */
  function Cut(len: nat, text: seq<char>): (m: Kmsg)
    ensures IsMessage(m)
  {
    var newLen := if len > P2S_MSG_LEN then P2S_MSG_LEN else len;
    Kmsg(Stored(text, newLen), newLen)
  }

  /** The slot `m` holds what an addition of `len` characters of `text` must leave in it: at most 256 of them, no
      further than the text's own end or terminator, and zeros behind. */
  ghost predicate Carries(m: Kmsg, len: nat, text: seq<char>) {
    && m.len == (if len < 256 then len else 256) && |m.msg| == 256
    && forall k :: 0 <= k < 256 ==>
         m.msg[k] == if k < m.len && k < |text| && NUL !in text[..k + 1] then text[k] else NUL
  }

  lemma {:induction false} TextOfEnds(text: seq<char>, n: nat, k: nat)
    requires k < |text|
    ensures k < |TextOf(text, n)| <==> k < n && NUL !in text[..k + 1]
  {
    if n != 0 {
      assert text[..k + 1] == [text[0]] + text[1..][..k];
      if k > 0 && text[0] != NUL {
        TextOfEnds(text[1..], n - 1, k - 1);
      }
    }
  }

  /** What is put into a slot is the message's text. */
  lemma CutCarries(len: nat, text: seq<char>)
    ensures Carries(Cut(len, text), len, text)
  {
    hide TextOf;
    var m := Cut(len, text);
    var t := TextOf(text, m.len);
    forall k | 0 <= k < 256
      ensures m.msg[k] == if k < m.len && k < |text| && NUL !in text[..k + 1] then text[k] else NUL
    {
      if k < |text| {
        TextOfEnds(text, m.len, k);
      }
      assert k < |t| ==> m.msg[k] == t[k] == text[k];
    }
  }

  /** A full slot buffer with nothing behind the announced length. */
  predicate IsMessage(m: Kmsg) {
    && |m.msg| == P2S_MSG_LEN && 0 <= m.len <= P2S_MSG_LEN
    && forall k :: m.len <= k < P2S_MSG_LEN ==> m.msg[k] == NUL
  }

  /** Adding to a bounded queue that drops the newest; an empty message leaves its slot free. */
  function Push(queue: seq<Kmsg>, len: nat, text: seq<char>): seq<Kmsg> {
    if |queue| < MSG_MAX && len > 0 then queue + [Cut(len, text)] else queue
  }

  class KmsgTable {
    const msgs: array<seq<char>>
    const lens: array<int>
    ghost var queue: seq<Kmsg>

    /** The occupied slots are the first ones, and they hold the queue. */
    ghost predicate Valid()
      reads this, msgs, lens
    {
      && msgs.Length == lens.Length == MSG_MAX
      && |queue| <= MSG_MAX
      && (forall i :: 0 <= i < |queue| ==> msgs[i] == queue[i].msg && lens[i] == queue[i].len > 0)
      && (forall i :: |queue| <= i < MSG_MAX ==> lens[i] == 0)
    }

    constructor ()
      ensures Valid() && queue == [] && fresh(msgs) && fresh(lens)
    {
      msgs := new seq<char>[MSG_MAX](_ => []);
      lens := new int[MSG_MAX](_ => 0);
      queue := [];
    }

    /** Stores a message in the first free slot, if there is one. */
    method AddMsg(len: nat, text: seq<char>)
      requires Valid()
      modifies this, msgs, lens
      ensures Valid() && queue == Push(old(queue), len, text)
      ensures if |old(queue)| == 64 || len == 0 then queue == old(queue)
              else |queue| == |old(queue)| + 1 && queue[..|old(queue)|] == old(queue)
                   && Carries(queue[|old(queue)|], len, text)
    {
      CutCarries(len, text);
      hide Stored, IsMessage, Carries;
      var i := 0;
      while i < MSG_MAX
        invariant i <= |queue| && Valid() && queue == old(queue)
        decreases MSG_MAX - i
      {
        if lens[i] <= 0 {
          var newLen := if len > P2S_MSG_LEN then P2S_MSG_LEN else len;
          msgs[i] := Stored(text, newLen);
          lens[i] := newLen;
          if newLen > 0 {
            queue := queue + [Kmsg(msgs[i], newLen)];
          }
          return;
        }
        i := i + 1;
      }
    }

    /** Copies the occupied slots out in order and frees them. */
    method WaitBuffer() returns (msgList: seq<Kmsg>)
      requires Valid()
      modifies this, lens
      ensures Valid() && queue == [] && msgList == old(queue)
    {
      msgList := [];
      for i := 0 to MSG_MAX
        invariant queue == old(queue) && |queue| <= MSG_MAX
        invariant forall k :: 0 <= k < |queue| ==> msgs[k] == queue[k].msg
        invariant forall k :: i <= k < |queue| ==> lens[k] == queue[k].len > 0
        invariant forall k :: 0 <= k < MSG_MAX && (k < i || |queue| <= k) ==> lens[k] == 0
        invariant msgList == queue[..if i < |queue| then i else |queue|]
      {
        if lens[i] > 0 {
          msgList := msgList + [Kmsg(msgs[i], lens[i])];
          lens[i] := 0;
        }
      }
      queue := [];
    }
  }

  datatype Event = Add(len: nat, text: seq<char>) | Drain

  /** What a bounded queue of 64 accepts over a run, told from the number of waiting messages alone. */
  function Accepted(events: seq<Event>, waiting: nat): seq<Kmsg> {
    if events == [] then []
    else match events[0]
      case Drain => Accepted(events[1..], 0)
      case Add(len, text) =>
        if len > 0 && waiting < MSG_MAX then [Cut(len, text)] + Accepted(events[1..], waiting + 1)
        else Accepted(events[1..], waiting)
  }

  lemma {:induction false} AcceptedAppend(a: seq<Event>, b: seq<Event>, waiting: nat)
    ensures Accepted(a + b, waiting) == Accepted(a, waiting) + Accepted(b, Waiting(a, waiting))
    ensures Waiting(a + b, waiting) == Waiting(b, Waiting(a, waiting))
    decreases a
  {
    hide Cut;
    if a == [] {
      assert a + b == b;
    } else {
      assert (a + b)[1..] == a[1..] + b;
      match a[0]
      case Drain => AcceptedAppend(a[1..], b, 0);
      case Add(len, _) => AcceptedAppend(a[1..], b, if len > 0 && waiting < MSG_MAX then waiting + 1 else waiting);
    }
  }

  /** The number of waiting messages after a run. */
  function Waiting(events: seq<Event>, waiting: nat): nat
    decreases events
  {
    if events == [] then waiting
    else match events[0]
      case Drain => Waiting(events[1..], 0)
      case Add(len, _) => Waiting(events[1..], if len > 0 && waiting < MSG_MAX then waiting + 1 else waiting)
  }

  /** Over any run, what was drained and what is still waiting are the accepted messages in order. */
  method Serve(table: KmsgTable, events: seq<Event>) returns (drained: seq<Kmsg>)
    requires table.Valid()
    modifies table, table.msgs, table.lens
    ensures table.Valid()
    ensures drained + table.queue == old(table.queue) + Accepted(events, |old(table.queue)|)
    ensures |table.queue| == Waiting(events, |old(table.queue)|) <= MSG_MAX
  {
    hide Cut, IsMessage;
    drained := [];
    ghost var start := table.queue;
    for i := 0 to |events|
      invariant table.Valid()
      invariant drained + table.queue == start + Accepted(events[..i], |start|)
      invariant |table.queue| == Waiting(events[..i], |start|)
    {
      ghost var before := table.queue;
      assert events[..i + 1] == events[..i] + [events[i]];
      AcceptedAppend(events[..i], [events[i]], |start|);
      match events[i]
      case Add(len, text) =>
        table.AddMsg(len, text);
        AcceptedOne(events[i], |before|);
        assert drained + (before + [Cut(len, text)]) == drained + before + [Cut(len, text)];
      case Drain =>
        var list := table.WaitBuffer();
        AcceptedOne(events[i], |before|);
        drained := drained + list;
        assert drained + [] == drained;
    }
    assert events[..|events|] == events;
  }

  lemma AcceptedOne(e: Event, waiting: nat)
    ensures Accepted([e], waiting) == if e.Add? && e.len > 0 && waiting < MSG_MAX then [Cut(e.len, e.text)] else []
    ensures Waiting([e], waiting)
         == if e.Drain? then 0 else if e.len > 0 && waiting < MSG_MAX then waiting + 1 else waiting
  {
    assert [e][1..] == [];
  }
}
