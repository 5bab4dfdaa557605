/** The coloured message format of common/p2s_msg.c, and the print-and-acknowledge handshake around it. */
module Messages {
  import opened Basics
  import opened Decimals
  import opened Strtols

  const COL_NONE := 10
  const COL_RED := 11
  const COL_YELLOW := 12
  const COL_GREEN := 13
  const COL_HEX := 14

  datatype Message = Message(color: int, text: string)

  /** A terminated text: the terminator itself is not part of it. */
  type CText = s: string | '\0' !in s

  /** The two-digit colours. */
  type Color = c: nat | 10 <= c <= 99 witness 10

  /** What the string functions see of a buffer: everything up to the terminator. */
  function CString(buffer: string): (s: CText)
    ensures s <= buffer
    ensures |s| < |buffer| ==> buffer[|s|] == '\0'
  {
    if buffer == "" || buffer[0] == '\0' then "" else [buffer[0]] + CString(buffer[1..])
  }

  lemma {:induction false} CStringOfText(s: CText)
    ensures CString(s) == s
  {
    hide CString;
    assert forall i :: 0 <= i < |s| ==> s[i] in s;
    var c := CString(s);
  }

  /** p2s_msg_to_string. */
  function Encode(color: Color, text: CText): string {
    Decimal(color) + text
  }

  /** p2s_msg_to_msg. */
  function Decode(buffer: CText): Option<Message> {
    if |buffer| < 3 then None
    else
      var color := Strtol10(buffer[..2]);
      if color < COL_NONE then None else Some(Message(color, buffer[2..]))
  }

  /** p2s_msg_receive as the client uses it: what does not decode is printed raw. */
  function Received(record: string): Message {
    match Decode(CString(record))
    case Some(m) => m
    case None => Message(COL_NONE, CString(record))
  }

  /** A record that begins with a two-digit number of at least 10 and goes on behind it. */
  predicate Numbered(record: string) {
    |record| >= 3 && IsDigit(record[0]) && IsDigit(record[1]) && record[0] != '0' && record[2] != '\0'
  }

  /** `text` is what `record` holds from index `from` on, up to its terminator. */
  predicate Holds(text: string, record: string, from: nat)
    requires from <= |record|
  {
    && text <= record[from..] && '\0' !in text
    && (|text| < |record| - from ==> record[from + |text|] == '\0')
  }

  /** What arrives: the number and the rest of a numbered record, no colour and the whole text of any other. */
  lemma ReceivedIs(record: string)
    ensures if Numbered(record)
            then Received(record).color == 10 * DigitValue(record[0]) + DigitValue(record[1])
                 && Holds(Received(record).text, record, 2)
            else Received(record).color == 10 && Holds(Received(record).text, record, 0)
  {
    hide Strtol10;
    var text := CString(record);
    if |record| >= 3 && '\0' !in record[..3] {
      assert forall i :: 0 <= i < 3 ==> record[i] in record[..3];
    }
    if |text| >= 3 {
      var s := text[..2];
      TwoCharacters(s);
      if IsDigit(s[0]) && IsDigit(s[1]) {
        TwoDigits(s);
      }
      assert text[2..] <= record[2..];
    }
  }

  predicate IsColor(color: int) {
    color == COL_RED || color == COL_YELLOW || color == COL_GREEN || color == COL_HEX
  }

  /** Whether the client answers a record. */
  predicate Answered(record: string) {
    IsColor(Received(record).color)
  }

  /** A non-empty message of a two-digit colour arrives as it was sent. */
  lemma DecodeAfterEncode(color: Color, text: CText)
    ensures '\0' !in Encode(color, text)
    ensures Decode(Encode(color, text)) == if text == "" then None else Some(Message(color, text))
  {
    hide Strtol10;
    assert Decimal(color / 10) == [('0' as int + color / 10) as char];
    assert |Decimal(color)| == 2;
    Strtol10OfDecimal(color);
    assert Encode(color, text)[..2] == Decimal(color);
  }

  /** Which printed messages are answered. */
  lemma PrintedAnswered(color: Color, text: CText)
    ensures Answered(Encode(color, text)) <==> IsColor(color) && text != ""
  {
    DecodeAfterEncode(color, text);
    CStringOfText(Encode(color, text));
  }

  /** Which raw records are taken for messages and answered. */
  lemma RawAnswered(record: string)
    ensures Answered(record) <==> |record| >= 3 && record[0] == '1' && '1' <= record[1] <= '4' && record[2] != '\0'
  {
    hide Strtol10;
    var text := CString(record);
    if |record| >= 3 && '\0' !in record[..3] {
      assert forall i :: 0 <= i < 3 ==> record[i] in record[..3];
    }
    if |text| >= 3 {
      var s := text[..2];
      TwoCharacters(s);
      if IsDigit(s[0]) && IsDigit(s[1]) {
        TwoDigits(s);
      }
    }
  }

  lemma TwoDigits(s: string)
    requires |s| == 2 && IsDigit(s[0]) && IsDigit(s[1])
    ensures Strtol10(s) == DigitValue(s[0]) * 10 + DigitValue(s[1])
  {
    DigitPrefixAll(s);
    assert s == [s[0], s[1]];
    ReadTwo(s[0], s[1]);
  }

  /** The P2S_MSG record. */
  class MessageRecord {
    var color: int
    var text: string

    constructor ()
      ensures color == 0 && text == ""
    {
      color, text := 0, "";
    }

    /** p2s_msg_to_msg: a buffer that is too short leaves the record alone, an unknown colour empties it. */
    method FromBuffer(buffer: CText) returns (ret: int)
      modifies this
      ensures ret == 0 <==> Decode(buffer).Some?
      ensures ret == 0 ==> Message(color, text) == Decode(buffer).value
      ensures ret != 0 ==> ret == -1
      ensures ret != 0 && |buffer| >= 3 ==> color == 0 && text == ""
      ensures |buffer| < 3 ==> color == old(color) && text == old(text)
    {
      if |buffer| < 3 {
        return -1;
      }
      color, text := 0, "";
      color := Strtol10(buffer[..2]);
      if color < COL_NONE {
        color := 0;
        return -1;
      }
      text := buffer[2..];
      return 0;
    }

    /** p2s_msg_receive and the client's fallback: what does not decode is kept as raw text. */
    method Receive(record: string)
      modifies this
      ensures Message(color, text) == Received(record)
      ensures if Numbered(record)
              then color == 10 * DigitValue(record[0]) + DigitValue(record[1]) && Holds(text, record, 2)
              else color == 10 && Holds(text, record, 0)
    {
      ReceivedIs(record);
      var ret := FromBuffer(CString(record));
      if ret != 0 {
        text := CString(record);
        color := COL_NONE;
      }
    }
  }

  // ---- the handshake ----

  /** The printing thread between prints, or waiting for its answer. */
  datatype Printer = Ready | Waiting

  /** The client between records, or with one in hand. */
  datatype Client = Resting | Handling(record: string)

  /** The records on their way to the client, the answers on their way back, and how many of each kind there were. */
  datatype Link = Link(
    toClient: seq<string>,
    answers: nat,
    printer: Printer,
    client: Client,
    printed: nat,
    answered: nat)

  datatype Step =
    | Print(color: Color, text: CText)
    | KernelRecord(record: string)
    | Receive
    | Handle
    | TakeAnswer

  function Opened(): Link {
    Link([], 0, Ready, Resting, 0, 0)
  }

  function Next(s: Link, step: Step): Link {
    match step
    case Print(color, text) =>
      if s.printer.Ready? then
        s.(toClient := s.toClient + [Encode(color, text)], printer := Waiting, printed := s.printed + 1)
      else s
    case KernelRecord(record) => s.(toClient := s.toClient + [record])
    case Receive =>
      if s.client.Resting? && s.toClient != [] then s.(toClient := s.toClient[1..], client := Handling(s.toClient[0]))
      else s
    case Handle =>
      if s.client.Resting? then s
      else if Answered(s.client.record) then s.(client := Resting, answers := s.answers + 1, answered := s.answered + 1)
      else s.(client := Resting)
    case TakeAnswer =>
      if s.printer.Waiting? && s.answers > 0 then s.(printer := Ready, answers := s.answers - 1) else s
  }

  function Run(s: Link, steps: seq<Step>): Link
    decreases steps
  {
    if steps == [] then s else Run(Next(s, steps[0]), steps[1..])
  }

  /** Printed messages are non-empty and of an answered colour; raw records do not look like one. */
  predicate Allowed(step: Step) {
    match step
    case Print(color, text) => IsColor(color) && text != ""
    case KernelRecord(record) => !Answered(record)
    case _ => true
  }

  /** How many records will be answered. */
  function ToAnswer(records: seq<string>): nat {
    if records == [] then 0 else (if Answered(records[0]) then 1 else 0) + ToAnswer(records[1..])
  }

  function InHand(client: Client): nat {
    if client.Handling? && Answered(client.record) then 1 else 0
  }

  lemma {:induction false} ToAnswerAppend(records: seq<string>, record: string)
    ensures ToAnswer(records + [record]) == ToAnswer(records) + if Answered(record) then 1 else 0
  {
    hide Answered;
    if records == [] {
      assert records + [record] == [record];
    } else {
      assert (records + [record])[1..] == records[1..] + [record];
      ToAnswerAppend(records[1..], record);
    }
  }

  /** A waiting printer has exactly one thing in flight, its message or its answer, and a ready one nothing. */
  predicate StopAndWait(s: Link) {
    && ToAnswer(s.toClient) + InHand(s.client) + s.answers == (if s.printer.Waiting? then 1 else 0)
    && s.printed == s.answered + ToAnswer(s.toClient) + InHand(s.client)
  }

  /** A step that is allowed, or that takes no effect because the printer is still waiting. */
  predicate Harmless(s: Link, step: Step) {
    Allowed(step) || (step.Print? && s.printer.Waiting?)
  }

  /** Stop-and-wait survives a step if and only if the step is harmless. */
  lemma NextKeeps(s: Link, step: Step)
    requires StopAndWait(s)
    ensures StopAndWait(Next(s, step)) <==> Harmless(s, step)
  {
    hide Answered, Encode;
    match step
    case Print(color, text) =>
      PrintedAnswered(color, text);
      ToAnswerAppend(s.toClient, Encode(color, text));
    case KernelRecord(record) => ToAnswerAppend(s.toClient, record);
    case _ =>
  }

  lemma {:induction false} RunNext(s: Link, steps: seq<Step>, step: Step)
    ensures Run(s, steps + [step]) == Next(Run(s, steps), step)
    decreases steps
  {
    hide Next;
    if steps == [] {
      assert steps + [step] == [step];
      assert [step][1..] == [];
      assert Run(Next(s, step), []) == Next(s, step);
    } else {
      assert (steps + [step])[1..] == steps[1..] + [step];
      RunNext(Next(s, steps[0]), steps[1..], step);
    }
  }

  /** Every state along a run keeps stop-and-wait. */
  ghost predicate KeptAlong(s: Link, steps: seq<Step>) {
    forall n :: 0 <= n <= |steps| ==> StopAndWait(Run(s, steps[..n]))
  }

  ghost predicate HarmlessAlong(s: Link, steps: seq<Step>) {
    forall n :: 0 <= n < |steps| ==> Harmless(Run(s, steps[..n]), steps[n])
  }

  lemma OneMore(s: Link, steps: seq<Step>, n: nat)
    requires n < |steps| && StopAndWait(Run(s, steps[..n]))
    ensures StopAndWait(Run(s, steps[..n + 1])) <==> Harmless(Run(s, steps[..n]), steps[n])
  {
    hide Run, StopAndWait, Harmless;
    assert steps[..n + 1] == steps[..n] + [steps[n]];
    RunNext(s, steps[..n], steps[n]);
    NextKeeps(Run(s, steps[..n]), steps[n]);
  }

  lemma {:induction false} KeptUpTo(s: Link, steps: seq<Step>, n: nat)
    requires StopAndWait(s) && HarmlessAlong(s, steps) && n <= |steps|
    ensures StopAndWait(Run(s, steps[..n]))
  {
    hide StopAndWait, Harmless;
    if n == 0 {
      assert Run(s, steps[..0]) == s;
    } else {
      KeptUpTo(s, steps, n - 1);
      OneMore(s, steps, n - 1);
    }
  }

  /** Over any run, every state keeps stop-and-wait if and only if every step that takes effect is allowed. */
  lemma RunKeepsExactly(s: Link, steps: seq<Step>)
    requires StopAndWait(s)
    ensures KeptAlong(s, steps) <==> HarmlessAlong(s, steps)
  {
    hide StopAndWait, Harmless, Run;
    if KeptAlong(s, steps) {
      forall n | 0 <= n < |steps|
        ensures Harmless(Run(s, steps[..n]), steps[n])
      {
        OneMore(s, steps, n);
      }
    }
    if HarmlessAlong(s, steps) {
      forall n | 0 <= n <= |steps|
        ensures StopAndWait(Run(s, steps[..n]))
      {
        KeptUpTo(s, steps, n);
      }
    }
  }

  lemma OpenedStopsAndWaits()
    ensures StopAndWait(Opened())
  {
  }

  /** From an opened link, in every interleaving and for exactly the harmless runs: at most one coloured message
      is unanswered, answers never outnumber messages, and a waiting printer has its message or answer in flight. */
  lemma AnyRunKeeps(steps: seq<Step>)
    ensures KeptAlong(Opened(), steps) <==> HarmlessAlong(Opened(), steps)
    ensures HarmlessAlong(Opened(), steps) ==>
              var u := Run(Opened(), steps);
              && u.answered <= u.printed <= u.answered + 1
              && (u.printer.Waiting? <==> ToAnswer(u.toClient) + InHand(u.client) + u.answers == 1)
  {
    hide *;
    OpenedStopsAndWaits();
    RunKeepsExactly(Opened(), steps);
    if HarmlessAlong(Opened(), steps) {
      KeptUpTo(Opened(), steps, |steps|);
      assert steps[..|steps|] == steps;
      WhatItMeans(Run(Opened(), steps));
    }
  }

  lemma WhatItMeans(s: Link)
    requires StopAndWait(s)
    ensures s.answered <= s.printed <= s.answered + 1
    ensures s.printer.Waiting? <==> ToAnswer(s.toClient) + InHand(s.client) + s.answers == 1
  {
  }

  // ---- the wait ends ----

  /** How far the first answered record is from the front. */
  function FirstToAnswer(records: seq<string>): nat {
    if records == [] || Answered(records[0]) then 0 else 1 + FirstToAnswer(records[1..])
  }

  /** How many steps of the client are due before the answer of a waiting printer is there. */
  function AnswerDue(s: Link): nat {
    if s.printer.Ready? || s.answers > 0 then 0
    else if InHand(s.client) == 1 then 1
    else (if s.client.Handling? then 1 else 0) + 2 * (FirstToAnswer(s.toClient) + 1)
  }

  /** A step of the client that takes effect. */
  predicate ClientStep(s: Link, step: Step) {
    (step.Receive? && s.client.Resting? && s.toClient != []) || (step.Handle? && s.client.Handling?)
  }

  lemma {:induction false} FirstToAnswerAppend(records: seq<string>, record: string)
    requires ToAnswer(records) > 0
    ensures FirstToAnswer(records + [record]) == FirstToAnswer(records)
  {
    hide Answered;
    assert (records + [record])[1..] == records[1..] + [record];
    if !Answered(records[0]) {
      FirstToAnswerAppend(records[1..], record);
    }
  }

  /** While the printer waits, records of the kernel do not delay the answer and each effective step of the client
      brings it one step closer; until it is there, the client has such a step. */
  lemma DueFalls(s: Link, step: Step)
    requires StopAndWait(s) && s.printer.Waiting? && Harmless(s, step) && !step.TakeAnswer?
    ensures Next(s, step).printer.Waiting?
    ensures ClientStep(s, step) && AnswerDue(s) > 0 ==> AnswerDue(Next(s, step)) == AnswerDue(s) - 1
    ensures !ClientStep(s, step) || AnswerDue(s) == 0 ==> AnswerDue(Next(s, step)) == AnswerDue(s)
    ensures AnswerDue(s) > 0 ==> ClientStep(s, Receive) || ClientStep(s, Handle)
    ensures AnswerDue(s) == 0 ==> Next(s, TakeAnswer).printer.Ready?
  {
    hide Answered, Encode;
    if step.KernelRecord? && ToAnswer(s.toClient) > 0 {
      FirstToAnswerAppend(s.toClient, step.record);
    }
  }

  lemma DueNow(s: Link)
    requires StopAndWait(s) && s.printer.Waiting?
    ensures AnswerDue(s) > 0 ==> ClientStep(s, Receive) || ClientStep(s, Handle)
    ensures AnswerDue(s) == 0 ==> Next(s, TakeAnswer).printer.Ready?
  {
    DueFalls(s, Receive);
  }

  /** The number of effective client steps in a run. */
  function ClientSteps(s: Link, steps: seq<Step>): nat
    decreases steps
  {
    if steps == [] then 0
    else (if ClientStep(s, steps[0]) then 1 else 0) + ClientSteps(Next(s, steps[0]), steps[1..])
  }

  lemma HarmlessRest(s: Link, steps: seq<Step>)
    requires steps != [] && HarmlessAlong(s, steps)
    ensures Harmless(s, steps[0]) && HarmlessAlong(Next(s, steps[0]), steps[1..])
  {
    hide Harmless, Next;
    assert Run(s, steps[..0]) == s;
    forall n | 0 <= n < |steps[1..]|
      ensures Harmless(Run(Next(s, steps[0]), steps[1..][..n]), steps[1..][n])
    {
      assert steps[..n + 1][1..] == steps[1..][..n];
      assert Run(s, steps[..n + 1]) == Run(Next(s, steps[0]), steps[1..][..n]);
    }
  }

  /** The wait ends under every schedule: whatever the kernel sends in between, after as many effective client
      steps as were due the answer is there for the printer to take. */
  lemma {:induction false} WaitEnds(s: Link, steps: seq<Step>)
    requires StopAndWait(s) && s.printer.Waiting? && HarmlessAlong(s, steps)
    requires forall i :: 0 <= i < |steps| ==> !steps[i].TakeAnswer?
    ensures var u, n := Run(s, steps), ClientSteps(s, steps);
            && StopAndWait(u) && u.printer.Waiting?
            && AnswerDue(u) == (if n < AnswerDue(s) then AnswerDue(s) - n else 0)
            && (n >= AnswerDue(s) ==> Next(u, TakeAnswer).printer.Ready?)
            && (n < AnswerDue(s) ==> ClientStep(u, Receive) || ClientStep(u, Handle))
    decreases steps
  {
    hide AnswerDue, Harmless, Next, ClientStep, StopAndWait, HarmlessAlong;
    if steps == [] {
      DueNow(s);
    } else {
      HarmlessRest(s, steps);
      NextKeeps(s, steps[0]);
      DueFalls(s, steps[0]);
      WaitEnds(Next(s, steps[0]), steps[1..]);
    }
  }

  // ---- when it fails ----

  /** Every raw record that looks like a coloured message is answered, though nothing was printed. */
  lemma LookalikeIsAnswered(s: Link, record: string)
    requires StopAndWait(s) && s.printer.Ready? && s.client.Resting? && s.toClient == [] && Answered(record)
    ensures var u := Run(s, [KernelRecord(record), Receive, Handle]);
            u.answered > u.printed && u.answers == 1 && u.printer.Ready?
  {
    hide Answered;
    var a := Next(s, KernelRecord(record));
    var b := Next(a, Receive);
    ThreeSteps(s, KernelRecord(record), Receive, Handle);
  }

  lemma ThreeSteps(s: Link, first: Step, second: Step, third: Step)
    ensures Run(s, [first, second, third]) == Next(Next(Next(s, first), second), third)
  {
    hide Next;
    var none: seq<Step> := [];
    RunNext(s, none, first);
    RunNext(s, [first], second);
    RunNext(s, [first, second], third);
    assert none + [first] == [first] && [first] + [second] == [first, second];
    assert [first, second] + [third] == [first, second, third];
  }

  /** An empty message, or one in a colour the client does not answer, leaves the printer waiting for nothing. */
  lemma UnansweredPrintHangs(s: Link, color: Color, text: CText)
    requires StopAndWait(s) && s.printer.Ready? && s.client.Resting? && s.toClient == []
    requires !IsColor(color) || text == ""
    ensures var u := Run(s, [Print(color, text), Receive, Handle]);
            u.printer.Waiting? && u.toClient == [] && u.client.Resting? && u.answers == 0
  {
    hide Answered, Encode;
    PrintedAnswered(color, text);
    var a := Next(s, Print(color, text));
    var b := Next(a, Receive);
    ThreeSteps(s, Print(color, text), Receive, Handle);
  }
}
