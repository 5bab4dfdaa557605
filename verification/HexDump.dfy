/** The memory dump: cmd_memr prints words as hexadecimal lines, and the client's print_hex reads them back
    to show the bytes as text. */
module HexDumps {
  import opened Basics
  import opened Splitting
  import opened Strtols

  const WORD := 0x1_0000_0000

  function HexDigit(v: nat): (c: char)
    requires v < 16
    ensures CharValue(c) == v && c != ' ' && c != 'x' && c != 'X' && c != '+' && c != '-' && !IsSpace(c)
  {
    if v < 10 then ('0' as int + v) as char else ('A' as int + v - 10) as char
  }

  function Pow16(n: nat): nat {
    if n == 0 then 1 else 16 * Pow16(n - 1)
  }

  /** `n` hexadecimal digits, as %08X prints them for n = 8. */
  function Hex(w: nat, n: nat): (s: string)
    ensures |s| == n
    ensures ' ' !in s
    ensures forall i :: 0 <= i < n ==> s[i] != 'x' && s[i] != 'X' && s[i] != '+' && s[i] != '-' && !IsSpace(s[i])
  {
    if n == 0 then "" else Hex(w / 16, n - 1) + [HexDigit(w % 16)]
  }

  lemma {:induction false} ReadHex(w: nat, n: nat, tail: string)
    requires w < Pow16(n)
    ensures ReadIn(0, Hex(w, n) + tail, 16) == ReadIn(w, tail, 16)
    decreases n
  {
    if n == 0 {
      assert "" + tail == tail;
    } else {
      var rest := [HexDigit(w % 16)] + tail;
      assert Hex(w, n) + tail == Hex(w / 16, n - 1) + rest;
      ReadHex(w / 16, n - 1, rest);
      assert rest[1..] == tail;
      assert w / 16 * 16 + w % 16 == w;
    }
  }

  /** A printed word parses back, whatever ends the token. */
  lemma StrtoulOfHex(w: nat, tail: string)
    requires w < WORD && (tail == "" || CharValue(tail[0]) >= 16)
    ensures Strtoul(Hex(w, 8) + tail, 16) == w
  {
    hide Hex;
    var s := Hex(w, 8) + tail;
    assert Pow16(8) == WORD;
    ReadHex(w, 8, tail);
    assert s[0] == Hex(w, 8)[0] && s[1] == Hex(w, 8)[1];
    assert SkipSpace(s) == s;
    assert Strtoul(s, 16) == ReadIn(0, s, 16);
  }

  /** The tokens of one line, and the line: an address and four words. */
  function LineTokens(address: nat, words: seq<nat>): seq<string>
    requires |words| == 4
  {
    ["0x" + Hex(address, 8) + ":", Hex(words[0], 8), Hex(words[1], 8), Hex(words[2], 8), Hex(words[3], 8) + "\n"]
  }

  function Line(address: nat, words: seq<nat>): string
    requires |words| == 4
  {
    Join(LineTokens(address, words), ' ')
  }

  lemma LineSplits(address: nat, words: seq<nat>)
    requires |words| == 4
    ensures Split(Line(address, words), ' ') == LineTokens(address, words)
  {
    hide Hex, Join, Split;
    SplitAfterJoin(LineTokens(address, words), ' ');
  }

  /** Byte `j` of a word, the most significant first. */
  function ByteOf(w: nat, j: nat): (b: nat)
    requires j < 4
    ensures b < 256
  {
    if j == 0 then w / 0x100_0000 % 256
    else if j == 1 then w / 0x1_0000 % 256
    else if j == 2 then w / 0x100 % 256
    else w % 256
  }

  /** What isprint lets through, and a dot for the rest. */
  function Shown(b: nat): char
    requires b < 256
  {
    if 0x20 <= b <= 0x7E then b as char else '.'
  }

  /** The sixteen characters beside a line that was cut into these tokens. */
  function Gutter(tokens: seq<string>): (r: seq<char>)
    requires |tokens| == 5
    ensures |r| == 16
  {
    seq(16, k requires 0 <= k < 16 => Shown(ByteOf(Strtoul(tokens[k / 4 + 1], 16), k % 4)))
  }

  lemma GutterOfWord(tokens: seq<string>, i: nat)
    requires |tokens| == 5 && i < 4
    ensures forall k :: 4 * i <= k < 4 * i + 4 ==>
              Gutter(tokens)[k] == Shown(ByteOf(Strtoul(tokens[i + 1], 16), k - 4 * i))
  {
    hide Strtoul, Shown, ByteOf;
  }

  /** print_hex: the line without its newline, and the characters; nothing for a line of another shape. */
  method PrintHex(line: string) returns (shown: Option<string>)
    ensures shown == if |Split(line, ' ')| == 5 &&
              line != "" then Some(line[..|line| - 1] + " | " + Gutter(Split(line, ' ')))
                     else None
  {
    hide Split, Strtoul, Shown, ByteOf, Gutter;
    var tokens, numTokens := StrSplit(line, ' ');
    ghost var all := Split(line, ' ');
    if numTokens != 5 || line == "" {
      return None;
    }
    var chars := new char[16](_ => '\0');
    for i := 0 to 4
      invariant forall k :: 0 <= k < 4 * i ==> chars[k] == Gutter(all)[k]
      invariant tokens[..] == all
    {
      var hex := Strtoul(tokens[i + 1], 16);
      assert tokens[i + 1] == all[i + 1];
      GutterOfWord(all, i);
      var index := i + i * 3;
      chars[index] := Shown(ByteOf(hex, 0));
      chars[index + 1] := Shown(ByteOf(hex, 1));
      chars[index + 2] := Shown(ByteOf(hex, 2));
      chars[index + 3] := Shown(ByteOf(hex, 3));
    }
    assert chars[..] == Gutter(all);
    return Some(line[..|line| - 1] + " | " + chars[..]);
  }

  /** The client shows, beside each printed line, the bytes of the words the device read. */
  lemma GutterShowsWords(address: nat, words: seq<nat>)
    requires |words| == 4 && forall i :: 0 <= i < 4 ==> words[i] < WORD
    ensures |Split(Line(address, words), ' ')| == 5
    ensures forall k :: 0 <= k < 16 ==>
              Gutter(Split(Line(address, words), ' '))[k] == Shown(ByteOf(words[k / 4], k % 4))
  {
    hide Hex, Split, Strtoul, Shown, ByteOf, Line;
    LineSplits(address, words);
    var t := LineTokens(address, words);
    StrtoulOfHex(words[0], "");
    StrtoulOfHex(words[1], "");
    StrtoulOfHex(words[2], "");
    StrtoulOfHex(words[3], "\n");
    assert Hex(words[0], 8) + "" == Hex(words[0], 8);
    assert Hex(words[1], 8) + "" == Hex(words[1], 8);
    assert Hex(words[2], 8) + "" == Hex(words[2], 8);
    forall k | 0 <= k < 16
      ensures Gutter(t)[k] == Shown(ByteOf(words[k / 4], k % 4))
    {
      assert Strtoul(t[k / 4 + 1], 16) == words[k / 4];
    }
  }

  /** Four bytes as a word, the lowest first. */
  function Word(b0: nat, b1: nat, b2: nat, b3: nat): (w: nat)
    requires b0 < 256 && b1 < 256 && b2 < 256 && b3 < 256
    ensures w < WORD
  {
    b0 + b1 * 0x100 + b2 * 0x1_0000 + b3 * 0x100_0000
  }

  function WordAt(memory: seq<Byte>, a: nat): (w: nat)
    requires a + 4 <= |memory|
    ensures w < WORD
  {
    Word(memory[a], memory[a + 1], memory[a + 2], memory[a + 3])
  }

  lemma BytesOfWord(b0: nat, b1: nat, b2: nat, b3: nat)
    requires b0 < 256 && b1 < 256 && b2 < 256 && b3 < 256
    ensures var w := Word(b0, b1, b2, b3);
            w / 0x100_0000 == b3 && w / 0x1_0000 == b2 + 256 * b3 && w / 0x100 == b1 + 256 * (b2 + 256 * b3)
  {
  }

  /** So within each word the characters run against the order of the bytes in memory. */
  lemma GutterRunsBackwards(memory: seq<Byte>, a: nat, j: nat)
    requires a + 4 <= |memory| && j < 4
    ensures ByteOf(WordAt(memory, a), j) == memory[a + 3 - j]
  {
    BytesOfWord(memory[a], memory[a + 1], memory[a + 2], memory[a + 3]);
    var w: nat := WordAt(memory, a);
    var b0: nat, b1: nat, b2: nat, b3: nat := memory[a], memory[a + 1], memory[a + 2], memory[a + 3];
    var high := b2 + 256 * b3;
    assert w % 256 == (b0 + 256 * (b1 + 256 * high)) % 256 == b0;
    assert (b1 + 256 * high) % 256 == b1;
  }

  function WordsAt(memory: seq<Byte>, a: nat): seq<nat>
    requires a + 16 <= |memory|
  {
    [WordAt(memory, a), WordAt(memory, a + 4), WordAt(memory, a + 8), WordAt(memory, a + 12)]
  }

  /** Four bytes of memory as the number they are, the lowest first. */
  function Number(memory: seq<Byte>, a: nat): nat
    requires a + 4 <= |memory|
  {
    var b0: nat, b1: nat, b2: nat, b3: nat := memory[a], memory[a + 1], memory[a + 2], memory[a + 3];
    b0 + 256 * b1 + 65_536 * b2 + 16_777_216 * b3
  }

  /** What a line for the sixteen bytes at `a` says when it is cut at its spaces and its numbers are read: the
      address, and in word `j` the four bytes from `a + 4 * j` on; and what is shown beside it. */
  ghost predicate Tells(line: string, memory: seq<Byte>, a: nat)
    requires a + 16 <= |memory|
  {
    var tokens := Split(line, ' ');
    && |tokens| == 5 && Strtoul(tokens[0], 16) == a
    && |tokens[0]| == 11 && tokens[0][..2] == "0x" && tokens[0][10] == ':' && Digits(tokens[0][2..10])
    && |tokens[4]| == 9 && tokens[4][8] == '\n' && Digits(tokens[4][..8])
    && (forall j :: 1 <= j < 4 ==> |tokens[j]| == 8 && Digits(tokens[j]))
    && (forall j :: 0 <= j < 4 ==> Strtoul(tokens[j + 1], 16) == Number(memory, a + 4 * j))
    && (forall c :: 0 <= c < 16 ==>
          var b := memory[a + c / 4 * 4 + 3 - c % 4];
          Gutter(tokens)[c] == if 32 <= b <= 126 then b as char else '.')
  }

  /** Upper-case hexadecimal digits. */
  predicate Digits(s: string) {
    forall i :: 0 <= i < |s| ==> '0' <= s[i] <= '9' || 'A' <= s[i] <= 'F'
  }

  lemma TokenShapes(address: nat, words: seq<nat>)
    requires |words| == 4
    ensures var tokens := LineTokens(address, words);
            && |tokens[0]| == 11 && tokens[0][..2] == "0x" && tokens[0][10] == ':' && Digits(tokens[0][2..10])
            && |tokens[4]| == 9 && tokens[4][8] == '\n' && Digits(tokens[4][..8])
            && (forall j :: 1 <= j < 4 ==> |tokens[j]| == 8 && Digits(tokens[j]))
  {
    hide Hex;
    HexCharacters(address, 8);
    HexCharacters(words[0], 8);
    HexCharacters(words[1], 8);
    HexCharacters(words[2], 8);
    HexCharacters(words[3], 8);
    var t := LineTokens(address, words);
    assert t[0][2..10] == Hex(address, 8) && t[4][..8] == Hex(words[3], 8);
  }

  lemma AddressReads(address: nat)
    requires address < WORD
    ensures Strtoul("0x" + Hex(address, 8) + ":", 16) == address
  {
    var s := "0x" + Hex(address, 8) + ":";
    var digits := Hex(address, 8) + ":";
    HexCharacters(address, 8);
    assert Pow16(8) == WORD;
    ReadHex(address, 8, ":");
    hide Hex, ReadIn;
    assert s[2..] == digits && s[0] == '0' && s[1] == 'x' && s[2] == Hex(address, 8)[0];
    assert SkipSpace(s) == s;
    ColonEnds(address);
  }

  lemma ColonEnds(acc: nat)
    ensures ReadIn(acc, ":", 16) == acc
  {
  }

  lemma {:induction false} HexCharacters(w: nat, n: nat)
    ensures Digits(Hex(w, n))
  {
    if n > 0 {
      HexCharacters(w / 16, n - 1);
    }
  }

  lemma LineTells(memory: seq<Byte>, a: nat)
    requires a + 16 <= |memory| <= WORD
    ensures Tells(Line(a, WordsAt(memory, a)), memory, a)
  {
    hide Hex, Split, Strtoul, Line, ByteOf, WordAt, Gutter, Digits;
    var words := WordsAt(memory, a);
    LineSplits(a, words);
    AddressReads(a);
    TokenShapes(a, words);
    var t := LineTokens(a, words);
    WordsRead(words);
    GutterShowsWords(a, words);
    forall j | 0 <= j < 4
      ensures Strtoul(t[j + 1], 16) == Number(memory, a + 4 * j)
    {
      WordIs(memory, a + 4 * j);
    }
    forall c | 0 <= c < 16
      ensures var b := memory[a + c / 4 * 4 + 3 - c % 4];
              Gutter(t)[c] == if 32 <= b <= 126 then b as char else '.'
    {
      GutterRunsBackwards(memory, a + 4 * (c / 4), c % 4);
    }
  }

  lemma WordIs(memory: seq<Byte>, a: nat)
    requires a + 4 <= |memory|
    ensures WordAt(memory, a) == Number(memory, a)
  {
  }

  lemma WordsRead(words: seq<nat>)
    requires |words| == 4 && forall i :: 0 <= i < 4 ==> words[i] < WORD
    ensures forall a :: forall j :: 0 <= j < 4 ==> Strtoul(LineTokens(a, words)[j + 1], 16) == words[j]
  {
    hide Hex, Strtoul;
    StrtoulOfHex(words[0], "");
    StrtoulOfHex(words[1], "");
    StrtoulOfHex(words[2], "");
    StrtoulOfHex(words[3], "\n");
    assert forall i :: 0 <= i < 4 ==> Hex(words[i], 8) + "" == Hex(words[i], 8);
  }

  /** cmd_memr: one line for every 16 bytes, so up to 15 bytes more than asked for are read. The range and these
      bytes lie below the top of the address space, where the pointer would wrap. */
  method ReadMemory(memory: seq<Byte>, address: nat, size: nat) returns (lines: seq<string>)
    requires address + size + 15 <= |memory| <= WORD
    ensures |lines| == (size + 15) / 16
    ensures forall k :: 0 <= k < |lines| ==>
              address + 16 * k + 16 <= |memory| && Tells(lines[k], memory, address + 16 * k)
    ensures forall k :: 0 <= k < |lines| ==>
              address + 16 * k + 16 <= |memory| && lines[k] == Line(address + 16 * k, WordsAt(memory, address + 16 * k))
  {
    hide Line, WordAt, Tells;
    var max := address + size;
    var addr := address;
    lines := [];
    while addr < max
      invariant addr == address + 16 * |lines| && addr < max + 16
      invariant forall k :: 0 <= k < |lines| ==>
                  address + 16 * k + 16 <= |memory| && Tells(lines[k], memory, address + 16 * k)
      invariant forall k :: 0 <= k < |lines| ==>
                  && address + 16 * k + 16 <= |memory|
                  && lines[k] == Line(address + 16 * k, WordsAt(memory, address + 16 * k))
      decreases max - addr
    {
      LineTells(memory, addr);
      lines := lines + [Line(addr, WordsAt(memory, addr))];
      addr := addr + 16;
    }
  }
}
