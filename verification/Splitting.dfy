/** Delimiter splitting: the specification of the client's tokenizer (psp2shell_cli/source/utility.c),
    the tokenizer itself with its doubling token array, and the inverse laws. */
module Splitting {

  /** The fields of `s` between occurrences of `d`; there is always at least one. */
  function Split(s: string, d: char): (t: seq<string>)
    ensures |t| >= 1
  {
    if s == "" then [""]
    else
      var rest := Split(s[1..], d);
      if s[0] == d then [""] + rest else [[s[0]] + rest[0]] + rest[1..]
  }

  function Join(t: seq<string>, d: char): string
    requires t != []
  {
    if |t| == 1 then t[0] else t[0] + [d] + Join(t[1..], d)
  }

  /** The number of occurrences of `d` in `s`. */
  function Occurrences(s: string, d: char): nat {
    if s == "" then 0 else (if s[0] == d then 1 else 0) + Occurrences(s[1..], d)
  }

  predicate DelimiterFree(t: seq<string>, d: char) {
    forall i :: 0 <= i < |t| ==> d !in t[i]
  }

  /** Tokens hold no delimiter, there is one more of them than there are delimiters,
      and joining them gives the input back. */
  lemma {:induction false} JoinAfterSplit(s: string, d: char)
    ensures DelimiterFree(Split(s, d), d)
    ensures |Split(s, d)| == Occurrences(s, d) + 1
    ensures Join(Split(s, d), d) == s
  {
    if s != "" {
      JoinAfterSplit(s[1..], d);
      var rest := Split(s[1..], d);
      if s[0] == d {
        assert ([""] + rest)[1..] == rest;
        assert Join([""] + rest, d) == "" + [d] + Join(rest, d);
        assert s == "" + [d] + s[1..];
      } else {
        var t := [[s[0]] + rest[0]] + rest[1..];
        assert Join(t, d) == [s[0]] + Join(rest, d) by {
          if |rest| == 1 {
          } else {
            assert t[1..] == rest[1..];
            assert ([s[0]] + rest[0]) + [d] + Join(rest[1..], d) == [s[0]] + (rest[0] + [d] + Join(rest[1..], d));
          }
        }
        assert s == [s[0]] + s[1..];
      }
    }
  }

  /** Splitting distributes over concatenation at a delimiter. */
  lemma {:induction false} SplitAppend(a: string, b: string, d: char)
    ensures Split(a + [d] + b, d) == Split(a, d) + Split(b, d)
  {
    if a == "" {
      assert ("" + [d] + b)[1..] == b;
    } else {
      var s := a + [d] + b;
      assert s[1..] == a[1..] + [d] + b;
      SplitAppend(a[1..], b, d);
    }
  }

  lemma {:induction false} SplitWithoutDelimiter(s: string, d: char)
    requires d !in s
    ensures Split(s, d) == [s]
  {
    if s != "" {
      SplitWithoutDelimiter(s[1..], d);
      assert s == [s[0]] + s[1..];
    }
  }

  /** Conversely, any non-empty list of delimiter-free tokens survives joining and splitting. */
  lemma {:induction false} SplitAfterJoin(t: seq<string>, d: char)
    requires t != [] && DelimiterFree(t, d)
    ensures Split(Join(t, d), d) == t
  {
    if |t| == 1 {
      SplitWithoutDelimiter(t[0], d);
    } else {
      SplitAfterJoin(t[1..], d);
      SplitAppend(t[0], Join(t[1..], d), d);
      SplitWithoutDelimiter(t[0], d);
    }
  }

  lemma {:induction false} JoinAppend(a: seq<string>, b: seq<string>, d: char)
    requires a != [] && b != []
    ensures Join(a + b, d) == Join(a, d) + [d] + Join(b, d)
  {
    if |a| == 1 {
      assert (a + b)[1..] == b;
    } else {
      assert (a + b)[1..] == a[1..] + b;
      JoinAppend(a[1..], b, d);
    }
  }

  /** `n` is a power of two. */
  ghost predicate PowerOfTwo(n: nat) {
    n == 1 || (n % 2 == 0 && n > 0 && PowerOfTwo(n / 2))
  }

  /** The index of the first `d` in `s` from `from` on, or |s|: what strsep looks for. */
  method NextDelimiter(s: string, d: char, from: nat) returns (k: nat)
    requires from <= |s|
    ensures from <= k <= |s|
    ensures d !in s[from..k]
    ensures k < |s| ==> s[k] == d
  {
    k := from;
    while k < |s| && s[k] != d
      invariant from <= k <= |s|
      invariant d !in s[from..k]
    {
      k := k + 1;
    }
  }

  /** The tokens already produced, then those still to come when strsep stands at `rest`. */
  ghost function Outcome(done: seq<string>, s: string, d: char, rest: int): seq<string>
    requires -1 <= rest <= |s|
  {
    done + if rest < 0 then [] else Split(s[rest..], d)
  }

  /** The first delimiter ends the first token. */
  lemma SplitAtDelimiter(s: string, d: char, from: nat, k: nat)
    requires from <= k <= |s| && d !in s[from..k] && (k < |s| ==> s[k] == d)
    ensures Split(s[from..], d) == [s[from..k]] + if k == |s| then [] else Split(s[k + 1..], d)
  {
    SplitWithoutDelimiter(s[from..k], d);
    if k == |s| {
      assert s[from..] == s[from..k];
    } else {
      assert s[from..] == s[from..k] + [d] + s[k + 1..];
      SplitAppend(s[from..k], s[k + 1..], d);
    }
  }

  lemma OutcomeAtStart(s: string, d: char)
    ensures Outcome([], s, d, 0) == Split(s, d)
  {
  }

  lemma OutcomeAtEnd(done: seq<string>, s: string, d: char)
    ensures Outcome(done, s, d, -1) == done
  {
  }

  lemma TokenFinished(done: seq<string>, s: string, d: char, from: nat, k: nat)
    requires from <= k <= |s| && d !in s[from..k] && (k < |s| ==> s[k] == d)
    ensures Outcome(done, s, d, from) == Outcome(done + [s[from..k]], s, d, if k == |s| then -1 else k + 1)
  {
    SplitAtDelimiter(s, d, from, k);
  }

  /** The tokenizer. `rest` is the index strsep continues from, -1 standing for its null pointer.
      The array doubles when full and is cut to the tokens found at the end. */
  method StrSplit(str: string, delim: char) returns (tokens: array<string>, numTokens: nat)
    ensures fresh(tokens)
    ensures tokens.Length == numTokens
    ensures tokens[..] == Split(str, delim)
  {
    hide Split, Outcome;
    OutcomeAtStart(str, delim);
    var tokensAlloc := 1;
    var tokensUsed := 0;
    tokens := new string[tokensAlloc](_ => "");
    var rest: int := 0;
    ghost var done: seq<string> := [];
    while rest >= 0
      invariant fresh(tokens)
      invariant -1 <= rest <= |str|
      invariant tokensUsed <= tokensAlloc == tokens.Length
      invariant PowerOfTwo(tokensAlloc)
      invariant if tokensUsed == 0 then tokensAlloc == 1 && rest == 0 else tokensAlloc < 2 * tokensUsed
      invariant tokens[..tokensUsed] == done
      invariant Outcome(done, str, delim, rest) == Split(str, delim)
      decreases if rest < 0 then 0 else |str| - rest + 1
    {
      var k := NextDelimiter(str, delim, rest);
      var token := str[rest..k];
      if tokensUsed == tokensAlloc {
        tokensAlloc := tokensAlloc * 2;
        tokens := Resize(tokens, tokensUsed, tokensAlloc);
      }
      tokens[tokensUsed] := token;
      tokensUsed := tokensUsed + 1;
      assert tokens[..tokensUsed] == done + [token];
      TokenFinished(done, str, delim, rest, k);
      rest := if k == |str| then -1 else k + 1;
      done := done + [token];
    }
    OutcomeAtEnd(done, str, delim);
    tokens := Resize(tokens, tokensUsed, tokensUsed);
    numTokens := tokensUsed;
    assert tokens[..] == tokens[..tokensUsed];
  }

  /** realloc: a block of `size` slots that keeps the first `used`. */
  method Resize(a: array<string>, used: nat, size: nat) returns (b: array<string>)
    requires used <= a.Length && used <= size
    ensures fresh(b) && b.Length == size
    ensures b[..used] == a[..used]
  {
    b := new string[size](_ => "");
    for i := 0 to used
      invariant b[..i] == a[..i]
    {
      b[i] := a[i];
    }
  }
}
