/** The quote-delimited command format of common/p2s_cmd.c. */
module Commands {
  import opened Basics
  import opened Splitting
  import opened Decimals
  import opened Strtols

  const P2S_MAX_ARGS := 3
  const P2S_SIZE_STRING := 512
  const P2S_SIZE_CMD := 4 + P2S_MAX_ARGS * P2S_SIZE_STRING + P2S_MAX_ARGS * 10
  const CMD_START := 10
  const QUOTE := '"'

  datatype Command = Command(kind: int, args: seq<string>)

  /** What a field of a command can carry to the other side. */
  predicate Sendable(arg: string) {
    QUOTE !in arg && |arg| < P2S_SIZE_STRING
  }

  /** A command of a two-digit kind with three sendable arguments. */
  predicate SendableCommand(c: Command) {
    10 <= c.kind <= 99 && |c.args| == P2S_MAX_ARGS && forall i :: 0 <= i < P2S_MAX_ARGS ==> Sendable(c.args[i])
  }

  /** The kind, then each argument behind a quote, then a last quote. */
  function Encode(c: Command): string
    requires c.kind >= 0 && |c.args| == P2S_MAX_ARGS
  {
    Decimal(c.kind) + [QUOTE] + c.args[0] + [QUOTE] + c.args[1] + [QUOTE] + c.args[2] + [QUOTE]
  }

  /** Argument `i` of a buffer cut at its quotes: the field between quote `i` and the one after it, if both are
      there. */
  function Field(fields: seq<string>, i: nat): string {
    if i + 2 < |fields| then fields[i + 1] else ""
  }

  function Arguments(buffer: string): (args: seq<string>)
    ensures |args| == P2S_MAX_ARGS
  {
    var fields := Split(buffer, QUOTE);
    [Field(fields, 0), Field(fields, 1), Field(fields, 2)]
  }

  /** The fields of a buffer are short enough for the record's arrays. */
  predicate FitsRecord(buffer: string) {
    forall i :: 0 <= i < P2S_MAX_ARGS ==> |Arguments(buffer)[i]| < P2S_SIZE_STRING
  }

  function Decode(buffer: string): Option<Command> {
    if |buffer| < 2 then None
    else
      var kind := Strtol10(buffer[..2]);
      if kind < CMD_START then None else Some(Command(kind, Arguments(buffer)))
  }

  /** Argument `i` is what stands between quote `i` and the next one, and empty without that quote. */
  lemma ArgumentBetweenQuotes(before: string, arg: string, behind: string, i: nat)
    requires i < P2S_MAX_ARGS && Occurrences(before, QUOTE) == i && QUOTE !in arg
    ensures Arguments(before + [QUOTE] + arg + [QUOTE] + behind)[i] == arg
  {
    hide Split;
    JoinAfterSplit(before, QUOTE);
    SplitAppend(before, arg + [QUOTE] + behind, QUOTE);
    SplitAppend(arg, behind, QUOTE);
    SplitWithoutDelimiter(arg, QUOTE);
    assert before + [QUOTE] + arg + [QUOTE] + behind == before + [QUOTE] + (arg + [QUOTE] + behind);
  }

  lemma ArgumentMissing(buffer: string, i: nat)
    requires i < P2S_MAX_ARGS && Occurrences(buffer, QUOTE) < i + 2
    ensures Arguments(buffer)[i] == ""
  {
    hide Split;
    JoinAfterSplit(buffer, QUOTE);
  }

  /** The short forms: a kind and up to three fields, as printed by the senders. */
  function Short(kind: nat, fields: seq<string>): string {
    if fields == [] then Decimal(kind) else Join([Decimal(kind)] + fields + [""], QUOTE)
  }

  lemma KindPrefix(kind: nat, rest: string)
    requires 10 <= kind <= 99
    ensures |Decimal(kind)| == 2 && QUOTE !in Decimal(kind)
    ensures (Decimal(kind) + rest)[..2] == Decimal(kind)
    ensures Strtol10((Decimal(kind) + rest)[..2]) == kind
  {
    assert Decimal(kind / 10) == [('0' as int + kind / 10) as char];
    assert |Decimal(kind)| == 2;
    assert (Decimal(kind) + rest)[..2] == Decimal(kind);
    Strtol10OfDecimal(kind);
  }

  lemma {:induction false} FieldsLength(fields: seq<string>)
    requires forall i :: 0 <= i < |fields| ==> |fields[i]| < P2S_SIZE_STRING
    ensures |Join(fields + [""], QUOTE)| <= P2S_SIZE_STRING * |fields|
  {
    if fields == [] {
      assert fields + [""] == [""];
    } else {
      assert (fields + [""])[1..] == fields[1..] + [""];
      FieldsLength(fields[1..]);
    }
  }

  /** Each short form fits its sender's buffer, that of a single string too, and decodes to its kind and fields,
      the other arguments empty. */
  lemma ShortDecodes(kind: nat, fields: seq<string>)
    requires 10 <= kind <= 99 && |fields| <= P2S_MAX_ARGS && forall i :: 0 <= i < |fields| ==> Sendable(fields[i])
    ensures |Short(kind, fields)| + 1 <= P2S_SIZE_CMD
    ensures |fields| <= 1 ==> |Short(kind, fields)| + 1 <= P2S_SIZE_STRING + 6
    ensures Decode(Short(kind, fields)) == Some(Command(kind, fields + seq(P2S_MAX_ARGS - |fields|, _ => "")))
  {
    hide Decimal, Strtol10;
    KindPrefix(kind, "");
    assert Decimal(kind) + "" == Decimal(kind);
    if fields == [] {
      SplitWithoutDelimiter(Decimal(kind), QUOTE);
      assert Arguments(Decimal(kind)) == ["", "", ""] == seq(P2S_MAX_ARGS, _ => "");
      assert fields + seq(P2S_MAX_ARGS, _ => "") == ["", "", ""];
    } else {
      var t := [Decimal(kind)] + fields + [""];
      SplitAfterJoin(t, QUOTE);
      assert t[1..] == fields + [""];
      FieldsLength(fields);
      KindPrefix(kind, [QUOTE] + Join(t[1..], QUOTE));
      assert Short(kind, fields) == Decimal(kind) + ([QUOTE] + Join(t[1..], QUOTE));
      var args := fields + seq(P2S_MAX_ARGS - |fields|, _ => "");
      assert forall i :: 0 <= i < P2S_MAX_ARGS ==> Field(t, i) == args[i];
      assert Arguments(Short(kind, fields)) == args;
    }
  }

  /** The full form is the short form with three fields. */
  lemma EncodeIsShort(c: Command)
    requires c.kind >= 0 && |c.args| == P2S_MAX_ARGS
    ensures Encode(c) == Short(c.kind, c.args)
  {
    hide Decimal;
    var t := [Decimal(c.kind)] + c.args + [""];
    var d := [QUOTE];
    assert t[1..] == [c.args[0], c.args[1], c.args[2], ""];
    assert t[1..][1..] == [c.args[1], c.args[2], ""];
    assert t[1..][1..][1..] == [c.args[2], ""];
    assert t[1..][1..][1..][1..] == [""];
    assert Join([""], QUOTE) == "";
    var j3 := c.args[2] + d + "";
    assert Join(t[1..][1..][1..], QUOTE) == j3;
    var j2 := c.args[1] + d + j3;
    assert Join(t[1..][1..], QUOTE) == j2;
    var j1 := c.args[0] + d + j2;
    assert Join(t[1..], QUOTE) == j1;
    assert Join(t, QUOTE) == Decimal(c.kind) + d + j1;
    assert Encode(c) == Decimal(c.kind) + d + j1;
  }

  /** Decoding inverts encoding, and the encoding with its terminator fits the buffer. */
  lemma DecodeAfterEncode(c: Command)
    requires SendableCommand(c)
    ensures Decode(Encode(c)) == Some(c)
    ensures |Encode(c)| + 1 <= P2S_SIZE_CMD
  {
    hide Decimal, Strtol10;
    EncodeIsShort(c);
    ShortDecodes(c.kind, c.args);
    KindPrefix(c.kind, "");
    assert c.args + [] == c.args;
  }

  /** A buffer is accepted just when it starts with a decimal number of at least 10 in two characters. */
  lemma AcceptedExactly(buffer: string)
    ensures Decode(buffer).Some? <==>
              |buffer| >= 2 && IsDigit(buffer[0]) && IsDigit(buffer[1]) && buffer[0] != '0'
    ensures Decode(buffer).Some? ==> 10 <= Decode(buffer).value.kind <= 99
    ensures Decode(buffer).Some? ==> DelimiterFree(Decode(buffer).value.args, QUOTE)
  {
    hide Strtol10;
    if |buffer| >= 2 {
      TwoCharacters(buffer[..2]);
      JoinAfterSplit(buffer, QUOTE);
    }
  }

  /** What was decoded survives another trip. */
  lemma DecodeEncodeDecode(buffer: string)
    requires Decode(buffer).Some? && FitsRecord(buffer)
    ensures Decode(Encode(Decode(buffer).value)) == Decode(buffer)
  {
    hide Strtol10, Split;
    AcceptedExactly(buffer);
    DecodeAfterEncode(Decode(buffer).value);
  }

  /** p2s_cmd_to_string: appends piece by piece. */
  method ToBuffer(kind: nat, args: seq<string>) returns (buffer: string)
    requires |args| == P2S_MAX_ARGS
    ensures buffer == Encode(Command(kind, args))
  {
    hide Decimal;
    buffer := Decimal(kind);
    for i := 0 to P2S_MAX_ARGS
      invariant i == 0 ==> buffer == Decimal(kind)
      invariant i == 1 ==> buffer == Decimal(kind) + [QUOTE] + args[0]
      invariant i == 2 ==> buffer == Decimal(kind) + [QUOTE] + args[0] + [QUOTE] + args[1]
      invariant i == 3 ==> buffer == Decimal(kind) + [QUOTE] + args[0] + [QUOTE] + args[1] + [QUOTE] + args[2]
    {
      buffer := buffer + [QUOTE] + args[i];
    }
    buffer := buffer + [QUOTE];
  }

  /** The P2S_CMD record. */
  class CommandRecord {
    var kind: int
    const args: array<string>

    ghost predicate Valid() {
      args.Length == P2S_MAX_ARGS
    }

    constructor ()
      ensures Valid() && kind == 0 && fresh(args)
    {
      kind := 0;
      args := new string[P2S_MAX_ARGS](_ => "");
    }

    /** p2s_cmd_to_cmd: `end` stays on the quote that closed the last argument, which opens the next. */
    method FromBuffer(buffer: string) returns (ret: int)
      requires Valid() && FitsRecord(buffer)
      modifies this, args
      ensures ret == 0 || ret == -1
      ensures ret == 0 <==> Decode(buffer).Some?
      ensures ret == 0 ==> Command(kind, args[..]) == Decode(buffer).value
      ensures ret != 0 && |buffer| >= 2 ==> kind == 0 && args[..] == ["", "", ""]
      ensures |buffer| < 2 ==> kind == old(kind) && args[..] == old(args[..])
    {
      hide Strtol10, Split;
      if |buffer| < 2 {
        return -1;
      }
      for i := 0 to args.Length
        invariant forall k :: 0 <= k < i ==> args[k] == ""
      {
        args[i] := "";
      }
      kind := Strtol10(buffer[..2]);
      if kind < CMD_START {
        kind := 0;
        return -1;
      }
      ghost var fields := Split(buffer, QUOTE);
      var end := 0;
      assert buffer[0..] == buffer;
      var i := 0;
      while i < P2S_MAX_ARGS
        invariant 0 <= i <= P2S_MAX_ARGS && end <= |buffer|
        invariant forall k :: 0 <= k < i ==> args[k] == Field(fields, k)
        invariant forall k :: i <= k < P2S_MAX_ARGS ==> args[k] == ""
        invariant Cursor(buffer, fields, i, end)
        invariant kind == Strtol10(buffer[..2])
      {
        var start := NextDelimiter(buffer, QUOTE, end);
        OpeningQuote(buffer, fields, i, end, start);
        if start == |buffer| {
          break;
        }
        start := start + 1;
        end := NextDelimiter(buffer, QUOTE, start);
        ClosingQuote(buffer, fields, i, start, end);
        if end == |buffer| {
          break;
        }
        args[i] := buffer[start..end];
        i := i + 1;
      }
      LaterFieldsEmpty(fields, i);
      return 0;
    }
  }

  /** Where the cursor stands after `i` arguments: at the start, or on quote `i`. */
  ghost predicate Cursor(buffer: string, fields: seq<string>, i: nat, end: nat)
    requires end <= |buffer|
  {
    if i == 0 then fields == Split(buffer[end..], QUOTE)
    else
      && end < |buffer| && buffer[end] == QUOTE && i + 1 < |fields|
      && fields[i + 1..] == Split(buffer[end + 1..], QUOTE)
  }

  lemma FirstOfSlice(s: string, from: nat, to: nat)
    requires from < to <= |s|
    ensures s[from] in s[from..to]
  {
    assert s[from..to][0] == s[from];
  }

  lemma OpeningQuote(buffer: string, fields: seq<string>, i: nat, end: nat, start: nat)
    requires end <= start <= |buffer| && Cursor(buffer, fields, i, end)
    requires QUOTE !in buffer[end..start] && (start < |buffer| ==> buffer[start] == QUOTE)
    ensures start == |buffer| ==> |fields| <= i + 2
    ensures start < |buffer| ==> i + 1 < |fields| && fields[i + 1..] == Split(buffer[start + 1..], QUOTE)
  {
    hide Split;
    if i == 0 {
      SplitAtDelimiter(buffer, QUOTE, end, start);
    } else if start > end {
      FirstOfSlice(buffer, end, start);
    }
  }

  lemma ClosingQuote(buffer: string, fields: seq<string>, i: nat, start: nat, end: nat)
    requires 0 < start <= end <= |buffer| && i + 1 < |fields| && fields[i + 1..] == Split(buffer[start..], QUOTE)
    requires QUOTE !in buffer[start..end] && (end < |buffer| ==> buffer[end] == QUOTE)
    ensures end == |buffer| ==> |fields| <= i + 2
    ensures end < |buffer| ==> Field(fields, i) == buffer[start..end] && Cursor(buffer, fields, i + 1, end)
  {
    hide Split;
    SplitAtDelimiter(buffer, QUOTE, start, end);
    var tail := fields[i + 1..];
    assert tail[0] == buffer[start..end];
    if end < |buffer| {
      assert tail[1..] == fields[i + 2..];
    }
  }

  lemma LaterFieldsEmpty(fields: seq<string>, i: nat)
    ensures |fields| <= i + 2 ==> forall k :: k >= i ==> Field(fields, k) == ""
  {
  }
}
