/** A 120 by 68 character-cell terminal: what psvDebugScreenPuts is meant to show, and how it walks its text. */
module Terminals {
  import opened Decimals

  const SCREEN_WIDTH := 960
  const SCREEN_HEIGHT := 544
  const GLYPH := 8
  const COLS := 120
  const ROWS := 68
  const FONT_SIZE := 2048
  const ESC := '\U{1b}'

  type Color = bv32

  const COLOR_DEFAULT_FG: Color := 0xFFFFFFFF
  const COLOR_DEFAULT_BG: Color := 0xFF000000

  /** One cell: cleared to a colour, or a character in two colours. */
  datatype Cell = Blank(color: Color) | Glyph(ch: char, fg: Color, bg: Color)

  datatype Term = Term(grid: seq<Cell>, x: nat, y: nat, fg: Color, bg: Color)

  predicate IsTerm(t: Term) {
    |t.grid| == COLS * ROWS
  }

  // ---- escape sequences ----

  datatype Effect = NoEffect | MoveTo(col: nat, row: nat) | SetColors(params: seq<nat>)

  /** What the parser makes of the text after "ESC [": how far it scanned, and what the sequence does. */
  datatype Escape = Escape(len: nat, effect: Effect)

  const NO_PARAMS: seq<nat> := [0, 0, 0, 0, 0, 0, 0, 0]

  predicate IsLetter(c: char) {
    c == 'f' || c == 'H' || c == 'm'
  }

  function ScanFrom(s: string, i: nat, params: seq<nat>, p: nat): (e: Escape)
    requires p <= i <= 8 && |params| == 8
    ensures e.len <= 8 && (i <= |s| ==> i <= e.len <= |s|)
    ensures e.effect != NoEffect ==> e.len < 8 && e.len < |s|
    decreases 8 - i
  {
    if i == 8 || i >= |s| then Escape(i, NoEffect)
    else if IsDigit(s[i]) then ScanFrom(s, i + 1, params[p := params[p] * 10 + DigitValue(s[i])], p)
    else if s[i] == ';' then ScanFrom(s, i + 1, params, p + 1)
    else if s[i] == 'f' || s[i] == 'H' then Escape(i, MoveTo(params[0], params[1]))
    else if s[i] == 'm' then Escape(i, SetColors(params[..p + 1]))
    else ScanFrom(s, i + 1, params, p)
  }

  lemma ScanUnfolds(s: string, i: nat, params: seq<nat>, p: nat)
    requires p <= i < 8 && i < |s| && |params| == 8
    ensures IsDigit(s[i]) ==>
              ScanFrom(s, i, params, p) == ScanFrom(s, i + 1, params[p := params[p] * 10 + DigitValue(s[i])], p)
    ensures s[i] == ';' ==> ScanFrom(s, i, params, p) == ScanFrom(s, i + 1, params, p + 1)
    ensures s[i] == 'f' || s[i] == 'H' ==> ScanFrom(s, i, params, p) == Escape(i, MoveTo(params[0], params[1]))
    ensures s[i] == 'm' ==> ScanFrom(s, i, params, p) == Escape(i, SetColors(params[..p + 1]))
    ensures !IsDigit(s[i]) && s[i] != ';' && s[i] != 'f' && s[i] != 'H' && s[i] != 'm' ==>
              ScanFrom(s, i, params, p) == ScanFrom(s, i + 1, params, p)
  {
  }

  /** The scan stops at the first letter within 8 characters, and only a letter gives it an effect. */
  lemma {:induction false} ScanStopsAtLetter(s: string, i: nat, params: seq<nat>, p: nat)
    requires p <= i <= 8 && |params| == 8 && i <= |s|
    ensures var e := ScanFrom(s, i, params, p);
            && (e.effect != NoEffect <==> e.len < 8 && e.len < |s| && IsLetter(s[e.len]))
            && (e.effect == NoEffect ==> e.len == 8 || e.len == |s|)
            && forall k :: i <= k < e.len ==> !IsLetter(s[k])
    decreases 8 - i
  {
    hide ScanFrom;
    if i == 8 || i == |s| {
      ScanStops(s, i, params, p);
    } else {
      ScanUnfolds(s, i, params, p);
      if IsDigit(s[i]) {
        ScanStopsAtLetter(s, i + 1, params[p := params[p] * 10 + DigitValue(s[i])], p);
      } else if s[i] == ';' {
        ScanStopsAtLetter(s, i + 1, params, p + 1);
      } else if !IsLetter(s[i]) {
        ScanStopsAtLetter(s, i + 1, params, p);
      }
    }
  }

  lemma ScanStops(s: string, i: nat, params: seq<nat>, p: nat)
    requires p <= i <= 8 && |params| == 8 && (i == 8 || i >= |s|)
    ensures ScanFrom(s, i, params, p) == Escape(i, NoEffect)
  {
  }

  function Scan(s: string): (e: Escape)
    ensures e.len <= 8 && e.len <= |s|
    ensures e.effect != NoEffect ==> e.len < 8 && e.len < |s|
  {
    ScanFrom(s, 0, NO_PARAMS, 0)
  }

  /** BIT2BYTE: three bits to the high bits of the three colour bytes. */
  function BitToByte(bit: nat): Color {
    (if bit / 4 % 2 == 1 then 0x800000 else 0)
    | (if bit / 2 % 2 == 1 then 0x8000 else 0)
    | (if bit % 2 == 1 then 0x80 else 0)
  }

  /** One colour parameter. */
  function WithColor(t: Term, param: nat): Term {
    match param / 10
    case 0 => t.(fg := COLOR_DEFAULT_FG, bg := COLOR_DEFAULT_BG)
    case 3 => t.(fg := BitToByte(param % 10))
    case 9 => t.(fg := BitToByte(param % 10) | 0x7F7F7F7F)
    case 4 => t.(bg := BitToByte(param % 10))
    case 10 => t.(bg := BitToByte(param % 10) | 0x7F7F7F7F)
    case _ => t
  }

  function WithColors(t: Term, params: seq<nat>): (r: Term)
    ensures r.grid == t.grid && r.x == t.x && r.y == t.y
    decreases params
  {
    if params == [] then t else WithColors(WithColor(t, params[0]), params[1..])
  }

  function Apply(t: Term, e: Effect): Term {
    match e
    case NoEffect => t
    case MoveTo(col, row) => t.(x := col * GLYPH, y := row * GLYPH)
    case SetColors(params) => WithColors(t, params)
  }

  // ---- printing ----

  function Cleared(t: Term, color: Color): Term {
    t.(grid := seq(COLS * ROWS, _ => Blank(color)), x := 0, y := 0)
  }

  /** A cell that fits the screen is kept; past the right edge the next line is taken if there is one; otherwise all
      cells are blank in the background colour and the cursor is home. The colours stay. */
  ghost predicate Roomy(t: Term, r: Term) {
    && r.fg == t.fg && r.bg == t.bg
    && (t.x <= 952 && t.y <= 536 ==> r == t)
    && (t.x > 952 && t.y <= 528 ==> r.x == 0 && r.y == t.y + 8 && r.grid == t.grid)
    && (t.y > 536 || (t.x > 952 && t.y > 528) ==>
          r.x == 0 && r.y == 0 && |r.grid| == 8160 && forall k :: 0 <= k < 8160 ==> r.grid[k] == Blank(t.bg))
  }

  /** Before each character: wrap at the right edge, clear at the bottom. */
  function Wrapped(t: Term): Term {
    if t.x + GLYPH > SCREEN_WIDTH then t.(x := 0, y := t.y + GLYPH) else t
  }

  function Ready(t: Term): (r: Term)
    ensures r.x + GLYPH <= SCREEN_WIDTH && r.y + GLYPH <= SCREEN_HEIGHT
    ensures IsTerm(t) ==> IsTerm(r)
  {
    var w := Wrapped(t);
    if w.y + GLYPH > SCREEN_HEIGHT then Cleared(w, w.bg) else w
  }

  function CellIndex(x: nat, y: nat): nat {
    y / GLYPH * COLS + x / GLYPH
  }

  /** What the walk over the text does at one position. */
  datatype Action = Print(ch: char) | Sequence(escape: Escape)

  function Act(t: Term, a: Action): (r: Term)
    requires IsTerm(t)
    ensures IsTerm(r)
  {
    var n := Ready(t);
    match a
    case Sequence(e) => Apply(n, e.effect)
    case Print(ch) =>
      if ch == '\n' then n.(x := 0, y := n.y + GLYPH)
      else if ch == '\r' then n.(x := 0)
      else n.(grid := n.grid[CellIndex(n.x, n.y) := Glyph(ch, n.fg, n.bg)], x := n.x + GLYPH)
  }

  /** A step of the walk: the position, and what is done there. */
  type Trace = seq<(nat, Action)>

  function Replay(t: Term, trace: Trace): (r: Term)
    requires IsTerm(t)
    ensures IsTerm(r)
    decreases trace
  {
    if trace == [] then t else Replay(Act(t, trace[0].1), trace[1..])
  }

  // ---- walking the text ----

  /** The walk as the code does it, or as it is meant: with the sequence read behind its own "ESC [". */
  datatype Mode = AsWritten | AsMeant

  predicate EscapeAt(text: string, c: nat) {
    c + 1 < |text| && text[c] == ESC && text[c + 1] == '['
  }

  /** The text the parser is handed for the sequence at `c`. The code hands it the text from index 2 on. */
  function Payload(mode: Mode, text: string, c: nat): string
    requires EscapeAt(text, c)
  {
    if mode == AsWritten then text[2..] else text[c + 2..]
  }

  function ActionAt(mode: Mode, text: string, c: nat): Action
    requires c < |text|
  {
    if EscapeAt(text, c) then Sequence(Scan(Payload(mode, text, c))) else Print(text[c])
  }

  /** Where the loop goes on: behind the terminating letter of a sequence. */
  function After(c: nat, a: Action): nat {
    match a
    case Print(_) => c + 1
    case Sequence(e) => c + e.len + 3
  }

  /** The walk from `c`; it ends where it reaches or passes the end of the text. */
  function Walk(mode: Mode, text: string, c: nat): Trace
    decreases |text| - c
  {
    if c >= |text| then []
    else
      var a := ActionAt(mode, text, c);
      [(c, a)] + Walk(mode, text, After(c, a))
  }

  /** The walk from `c` meets the end of the text and never passes it. */
  predicate StaysInside(mode: Mode, text: string, c: nat)
    decreases |text| - c
  {
    c == |text| || (c < |text| && StaysInside(mode, text, After(c, ActionAt(mode, text, c))))
  }

  /** Every "ESC [" met from `c` on has its letter within 8 characters and before the end. */
  predicate WellFormed(text: string, c: nat)
    decreases |text| - c
  {
    c < |text| ==>
      && (EscapeAt(text, c) ==> Scan(text[c + 2..]).effect != NoEffect)
      && WellFormed(text, After(c, ActionAt(AsMeant, text, c)))
  }

  /** Two sequences of the same length that do the same to every terminal. */
  ghost predicate SameEscape(e: Escape, f: Escape) {
    e.len == f.len && forall t :: Apply(t, e.effect) == Apply(t, f.effect)
  }

  ghost predicate SameAction(x: Action, y: Action) {
    match (x, y)
    case (Print(c), Print(d)) => c == d
    case (Sequence(e), Sequence(f)) => SameEscape(e, f)
    case _ => false
  }

  /** Two walks over the same positions that do the same at each of them, whatever the terminal. */
  ghost predicate Alike(u: Trace, v: Trace) {
    |u| == |v| && forall i :: 0 <= i < |u| ==> u[i].0 == v[i].0 && SameAction(u[i].1, v[i].1)
  }

  lemma SameActionActs(t: Term, c: nat, x: Action, y: Action)
    requires IsTerm(t) && SameAction(x, y)
    ensures Act(t, x) == Act(t, y) && After(c, x) == After(c, y)
  {
  }

  lemma AlikeHead(u: Trace, v: Trace)
    ensures u == [] && v == [] ==> Alike(u, v)
    ensures u != [] && v != [] ==>
              (Alike(u, v) <==> u[0].0 == v[0].0 && SameAction(u[0].1, v[0].1) && Alike(u[1..], v[1..]))
  {
    hide SameAction;
    if u != [] && v != [] && u[0].0 == v[0].0 && SameAction(u[0].1, v[0].1) && Alike(u[1..], v[1..]) {
      forall i | 0 <= i < |u|
        ensures u[i].0 == v[i].0 && SameAction(u[i].1, v[i].1)
      {
        if i > 0 {
          assert u[i] == u[1..][i - 1] && v[i] == v[1..][i - 1];
        }
      }
    }
  }

  /** Walks alike show the same. */
  lemma {:induction false} ReplayAlike(t: Term, u: Trace, v: Trace)
    requires IsTerm(t) && Alike(u, v)
    ensures Replay(t, u) == Replay(t, v)
    decreases u
  {
    hide SameAction, Act;
    if u != [] {
      AlikeHead(u, v);
      SameActionActs(t, 0, u[0].1, v[0].1);
      ReplayAlike(Act(t, u[0].1), u[1..], v[1..]);
    }
  }

  /** Every sequence met from `c` on does the same read at index 2 as read behind its own "ESC [". */
  ghost predicate Aligned(text: string, c: nat)
    decreases |text| - c
  {
    c < |text| ==>
      && (EscapeAt(text, c) ==> SameEscape(Scan(text[2..]), Scan(text[c + 2..])))
      && Aligned(text, After(c, ActionAt(AsMeant, text, c)))
  }

  /** On well-formed text the meant walk consumes each sequence exactly and ends at the end. */
  lemma {:induction false} MeantWalkStaysInside(text: string, c: nat)
    requires c <= |text| && WellFormed(text, c)
    ensures StaysInside(AsMeant, text, c)
    decreases |text| - c
  {
    if c < |text| {
      MeantWalkStaysInside(text, After(c, ActionAt(AsMeant, text, c)));
    }
  }

  lemma ActionsOfModes(text: string, c: nat)
    requires c < |text|
    ensures SameAction(ActionAt(AsWritten, text, c), ActionAt(AsMeant, text, c)) <==>
              (EscapeAt(text, c) ==> SameEscape(Scan(text[2..]), Scan(text[c + 2..])))
    ensures SameAction(ActionAt(AsWritten, text, c), ActionAt(AsMeant, text, c)) ==>
              After(c, ActionAt(AsWritten, text, c)) == After(c, ActionAt(AsMeant, text, c))
  {
    hide Scan;
  }

  /** The code does, position by position, what is meant if and only if the text is aligned. */
  lemma {:induction false} WrittenWalkIsMeant(text: string, c: nat)
    ensures Alike(Walk(AsWritten, text, c), Walk(AsMeant, text, c)) <==> Aligned(text, c)
    ensures Aligned(text, c) ==> (StaysInside(AsWritten, text, c) <==> StaysInside(AsMeant, text, c))
    decreases |text| - c
  {
    hide SameAction, SameEscape, Scan, ActionAt, Alike, EscapeAt;
    var u, v := Walk(AsWritten, text, c), Walk(AsMeant, text, c);
    AlikeHead(u, v);
    if c < |text| {
      var w, m := ActionAt(AsWritten, text, c), ActionAt(AsMeant, text, c);
      ActionsOfModes(text, c);
      assert u[0] == (c, w) && v[0] == (c, m);
      WrittenWalkIsMeant(text, After(c, m));
      assert u[1..] == Walk(AsWritten, text, After(c, w)) && v[1..] == Walk(AsMeant, text, After(c, m));
    }
  }

  /** So a well-formed, aligned text is printed as meant, and the walk ends at its end. */
  lemma AlignedPrintsAsMeant(t: Term, text: string)
    requires IsTerm(t) && WellFormed(text, 0) && Aligned(text, 0)
    ensures StaysInside(AsWritten, text, 0)
    ensures Replay(t, Walk(AsWritten, text, 0)) == Replay(t, Walk(AsMeant, text, 0))
  {
    MeantWalkStaysInside(text, 0);
    WrittenWalkIsMeant(text, 0);
    ReplayAlike(t, Walk(AsWritten, text, 0), Walk(AsMeant, text, 0));
  }

  /** A text with no "ESC [" but at its start is aligned. */
  lemma {:induction false} LeadingSequenceIsAligned(text: string, c: nat)
    requires forall i :: 0 < i ==> !EscapeAt(text, i)
    ensures Aligned(text, c)
    decreases |text| - c
  {
    if c < |text| {
      LeadingSequenceIsAligned(text, After(c, ActionAt(AsMeant, text, c)));
    }
  }

  /** A well-formed text whose sequence is not at its start: the code reads it from the wrong place
      and walks past the end. */
  lemma LaterSequenceMisread()
    ensures var text := ['x', ESC, '[', '3', '1', 'm'];
            WellFormed(text, 0) && !Aligned(text, 0) && !StaysInside(AsWritten, text, 0)
  {
    var text := ['x', ESC, '[', '3', '1', 'm'];
    var meant, written := text[3..], text[2..];
    assert ScanFrom(meant, 2, [31, 0, 0, 0, 0, 0, 0, 0], 0) == Escape(2, SetColors([31]));
    assert ScanFrom(meant, 1, [3, 0, 0, 0, 0, 0, 0, 0], 0) == Escape(2, SetColors([31]));
    assert Scan(meant) == Escape(2, SetColors([31]));
    assert ScanFrom(written, 3, [31, 0, 0, 0, 0, 0, 0, 0], 0) == Escape(3, SetColors([31]));
    assert ScanFrom(written, 2, [3, 0, 0, 0, 0, 0, 0, 0], 0) == Escape(3, SetColors([31]));
    assert ScanFrom(written, 1, NO_PARAMS, 0) == Escape(3, SetColors([31]));
    assert Scan(written) == Escape(3, SetColors([31]));
    assert EscapeAt(text, 1) && Scan(text[2..]) != Scan(text[1 + 2..]);
    hide ScanFrom, Scan;
    assert After(1, ActionAt(AsMeant, text, 1)) == 6;
    assert After(1, ActionAt(AsWritten, text, 1)) == 7;
    assert WellFormed(text, 1) && !Aligned(text, 1) && !StaysInside(AsWritten, text, 1);
  }

  /** A sequence with its letter, read behind its own "ESC [", is consumed through that letter and no further. */
  lemma ConsumedThroughLetter(text: string, c: nat)
    requires EscapeAt(text, c) && Scan(text[c + 2..]).effect != NoEffect
    ensures var next := After(c, ActionAt(AsMeant, text, c));
            && c + 2 < next <= |text| && next <= c + 10 && IsLetter(text[next - 1])
            && forall k :: c + 2 <= k < next - 1 ==> !IsLetter(text[k])
  {
    hide ScanFrom;
    var s := text[c + 2..];
    ScanStopsAtLetter(s, 0, NO_PARAMS, 0);
    assert forall k :: c + 2 <= k < |text| ==> text[k] == s[k - (c + 2)];
  }

  // ---- what texts show ----

  lemma ReadyIsRoomy(t: Term)
    ensures Roomy(t, Ready(t))
  {
    ClearedIsBlank(t, t.bg);
    ClearedIsBlank(Wrapped(t), t.bg);
    hide Cleared;
  }

  lemma ClearedIsBlank(t: Term, color: Color)
    ensures var r := Cleared(t, color);
            && r.x == 0 && r.y == 0 && r.fg == t.fg && r.bg == t.bg
            && |r.grid| == 8160 && forall k :: 0 <= k < 8160 ==> r.grid[k] == Blank(color)
  {
  }

  lemma RoomyIsReady(t: Term)
    requires t.x <= 952 && t.y <= 536
    ensures Ready(t) == t
  {
    hide Cleared;
  }

  /** Neither a line break nor the start of a sequence. */
  predicate Plain(text: string) {
    forall i :: 0 <= i < |text| ==> text[i] != '\n' && text[i] != '\r' && text[i] != ESC
  }

  /** The cells from number `base` on show `text` in the terminal's colours, the others are as they were. */
  ghost predicate Shown(t: Term, text: string, base: nat, r: Term) {
    && |r.grid| == |t.grid| && r.fg == t.fg && r.bg == t.bg
    && forall k :: 0 <= k < |r.grid| ==>
         r.grid[k] == if base <= k < base + |text| then Glyph(text[k - base], t.fg, t.bg) else t.grid[k]
  }

  /** A plain text that fits the line fills as many cells from the cursor on, which ends up behind them. */
  lemma {:induction false} PlainTextShown(t: Term, text: string, c: nat)
    requires IsTerm(t) && t.x % 8 == 0 && t.y % 8 == 0 && Plain(text) && c <= |text|
    requires t.x + 8 * (|text| - c) <= 960 && t.y <= 536
    ensures var r := Replay(t, Walk(AsWritten, text, c));
            && Shown(t, text[c..], t.y / 8 * 120 + t.x / 8, r)
            && r.x == t.x + 8 * (|text| - c) && r.y == t.y
    decreases |text| - c
  {
    hide Ready, Scan, ScanFrom;
    if c < |text| {
      RoomyIsReady(t);
      var u := Act(t, Print(text[c]));
      assert Walk(AsWritten, text, c)[1..] == Walk(AsWritten, text, c + 1);
      assert text[c..][1..] == text[c + 1..];
      PlainTextShown(u, text, c + 1);
    }
  }

  /** Line breaks where there is room: down and to the left, or to the left only. */
  lemma LineBreaks(t: Term)
    requires IsTerm(t) && t.x <= 952 && t.y <= 536
    ensures Replay(t, Walk(AsWritten, "\n", 0)) == Term(t.grid, 0, t.y + 8, t.fg, t.bg)
    ensures Replay(t, Walk(AsWritten, "\r", 0)) == Term(t.grid, 0, t.y, t.fg, t.bg)
  {
    RoomyIsReady(t);
    hide Ready, Scan;
    OneStep(t, '\n');
    OneStep(t, '\r');
  }

  lemma OneStep(t: Term, ch: char)
    requires IsTerm(t)
    ensures Replay(t, Walk(AsWritten, [ch], 0)) == Act(t, Print(ch))
  {
    hide Act, Scan;
    assert !EscapeAt([ch], 0) && Walk(AsWritten, [ch], 1) == [];
    assert Walk(AsWritten, [ch], 0) == [(0, Print(ch))];
    ReplayOne(t, (0, Print(ch)));
  }

  // ---- printing in two parts ----

  predicate MeetsSequence(mode: Mode, text: string, c: nat)
    decreases |text| - c
  {
    c < |text| && (EscapeAt(text, c) || MeetsSequence(mode, text, After(c, ActionAt(mode, text, c))))
  }

  /** Splitting `a + b` here cuts no "ESC [" in two. */
  predicate CleanCut(a: string, b: string) {
    !(a != "" && b != "" && a[|a| - 1] == ESC && b[0] == '[')
  }

  /** A sequence in `part` does at index 2 of `whole` what it does at index 2 of `part`. */
  ghost predicate ReadsAlike(part: string, whole: string) {
    |part| >= 2 && |whole| >= 2 && SameEscape(Scan(part[2..]), Scan(whole[2..]))
  }

  function Shifted(trace: Trace, offset: nat): (r: Trace)
    ensures |r| == |trace|
  {
    seq(|trace|, i requires 0 <= i < |trace| => (trace[i].0 + offset, trace[i].1))
  }

  lemma EscapesOfParts(a: string, b: string, c: nat)
    requires CleanCut(a, b)
    ensures c < |a| ==> (EscapeAt(a + b, c) <==> EscapeAt(a, c))
    ensures EscapeAt(a + b, |a| + c) <==> EscapeAt(b, c)
  {
    assert forall i :: 0 <= i < |a| ==> (a + b)[i] == a[i];
    assert forall i :: 0 <= i < |b| ==> (a + b)[|a| + i] == b[i];
  }

  /** One character or sequence of the first part: alone and with the second behind it. */
  lemma ActionOfFirst(a: string, b: string, c: nat)
    requires CleanCut(a, b) && c < |a|
    ensures SameAction(ActionAt(AsWritten, a + b, c), ActionAt(AsWritten, a, c)) <==>
              (EscapeAt(a, c) ==> ReadsAlike(a, a + b))
    ensures SameAction(ActionAt(AsWritten, a + b, c), ActionAt(AsWritten, a, c)) ==>
              After(c, ActionAt(AsWritten, a + b, c)) == After(c, ActionAt(AsWritten, a, c))
  {
    hide Scan;
    EscapesOfParts(a, b, c);
  }

  /** The walk over the first part does what it would alone if and only if its sequences, if any, read alike;
      whatever the rest of the walk is compared with. */
  lemma {:induction false} FirstPart(a: string, b: string, c: nat, rest: Trace)
    requires CleanCut(a, b) && StaysInside(AsWritten, a, c)
    ensures Alike(Walk(AsWritten, a + b, c), Walk(AsWritten, a, c) + rest) <==>
              (MeetsSequence(AsWritten, a, c) ==> ReadsAlike(a, a + b)) && Alike(Walk(AsWritten, a + b, |a|), rest)
    ensures (MeetsSequence(AsWritten, a, c) ==> ReadsAlike(a, a + b)) ==>
              (StaysInside(AsWritten, a + b, c) <==> StaysInside(AsWritten, a + b, |a|))
    decreases |a| - c
  {
    hide SameAction, Alike, ActionAt, EscapeAt, CleanCut, ReadsAlike;
    var u, v := Walk(AsWritten, a + b, c), Walk(AsWritten, a, c);
    if c < |a| {
      var x, y := ActionAt(AsWritten, a, c), ActionAt(AsWritten, a + b, c);
      ActionOfFirst(a, b, c);
      assert u[0] == (c, y) && v[0] == (c, x) && (v + rest)[0] == (c, x);
      assert (v + rest)[1..] == v[1..] + rest;
      assert v[1..] == Walk(AsWritten, a, After(c, x));
      assert u[1..] == Walk(AsWritten, a + b, After(c, y));
      FirstPart(a, b, After(c, x), rest);
      AlikeHead(u, v + rest);
    } else {
      assert v + rest == rest;
    }
  }

  lemma CommonHead(u: Trace, v: Trace, w: Trace)
    requires u != [] && v != [] && u[0] == v[0]
    ensures u <= v <==> u[1..] <= v[1..]
    ensures v[1..] == u[1..] + w ==> v == u + w
  {
    assert u == [u[0]] + u[1..] && v == [v[0]] + v[1..];
  }

  /** One character or sequence of the second part: alone and behind the first. */
  lemma ActionOfSecond(a: string, b: string, d: nat)
    requires CleanCut(a, b) && d < |b|
    ensures SameAction(ActionAt(AsWritten, a + b, |a| + d), ActionAt(AsWritten, b, d)) <==>
              (EscapeAt(b, d) ==> ReadsAlike(b, a + b))
    ensures SameAction(ActionAt(AsWritten, a + b, |a| + d), ActionAt(AsWritten, b, d)) ==>
              After(|a| + d, ActionAt(AsWritten, a + b, |a| + d)) == |a| + After(d, ActionAt(AsWritten, b, d))
  {
    hide Scan;
    EscapesOfParts(a, b, d);
  }

  lemma {:induction false} SecondPart(a: string, b: string, d: nat)
    requires CleanCut(a, b) && StaysInside(AsWritten, b, d)
    ensures Alike(Walk(AsWritten, a + b, |a| + d), Shifted(Walk(AsWritten, b, d), |a|)) <==>
              (MeetsSequence(AsWritten, b, d) ==> ReadsAlike(b, a + b))
    ensures (MeetsSequence(AsWritten, b, d) ==> ReadsAlike(b, a + b)) ==> StaysInside(AsWritten, a + b, |a| + d)
    decreases |b| - d
  {
    hide Shifted, SameAction, Alike, ActionAt, EscapeAt, CleanCut, ReadsAlike;
    var u, v := Walk(AsWritten, a + b, |a| + d), Walk(AsWritten, b, d);
    if d < |b| {
      var x, y := ActionAt(AsWritten, b, d), ActionAt(AsWritten, a + b, |a| + d);
      ActionOfSecond(a, b, d);
      assert u[0] == (|a| + d, y) && v[0] == (d, x);
      ShiftedTail(v, |a|);
      assert v[1..] == Walk(AsWritten, b, After(d, x));
      assert u[1..] == Walk(AsWritten, a + b, After(|a| + d, y));
      SecondPart(a, b, After(d, x));
      AlikeHead(u, Shifted(v, |a|));
    } else {
      AlikeHead(u, Shifted(v, |a|));
    }
  }

  /** A walk is another one shifted just when its head and its tail are. */
  lemma ShiftedHead(u: Trace, v: Trace, offset: nat)
    ensures u == [] && v == [] ==> v == Shifted(u, offset)
    ensures u != [] && v != [] ==>
              (v == Shifted(u, offset) <==> v[0] == (u[0].0 + offset, u[0].1) && v[1..] == Shifted(u[1..], offset))
  {
    if u != [] && v != [] {
      ShiftedTail(u, offset);
      assert v == [v[0]] + v[1..];
      if v == Shifted(u, offset) {
        assert v[1..] == Shifted(u[1..], offset);
      }
    }
  }

  lemma ShiftedTail(u: Trace, offset: nat)
    requires u != []
    ensures Shifted(u, offset) == [(u[0].0 + offset, u[0].1)] + Shifted(u[1..], offset)
  {
  }

  ghost predicate WalksInTwoParts(a: string, b: string) {
    Alike(Walk(AsWritten, a + b, 0), Walk(AsWritten, a, 0) + Shifted(Walk(AsWritten, b, 0), |a|))
  }

  ghost predicate SequencesReadAlike(a: string, b: string) {
    && (MeetsSequence(AsWritten, a, 0) ==> ReadsAlike(a, a + b))
    && (MeetsSequence(AsWritten, b, 0) ==> ReadsAlike(b, a + b))
  }

  /** Printing `a + b` does, position by position, what printing `a` and then `b` does, if and only if the sequences
      of each part do at index 2 of the whole text what they do at index 2 of the part. */
  lemma WalkInTwoParts(a: string, b: string)
    requires CleanCut(a, b) && StaysInside(AsWritten, a, 0) && StaysInside(AsWritten, b, 0)
    ensures WalksInTwoParts(a, b) <==> SequencesReadAlike(a, b)
    ensures SequencesReadAlike(a, b) ==> StaysInside(AsWritten, a + b, 0)
  {
    hide Scan, Walk, MeetsSequence, StaysInside, Alike, Shifted, ReadsAlike, CleanCut;
    FirstPart(a, b, 0, Shifted(Walk(AsWritten, b, 0), |a|));
    SecondPart(a, b, 0);
  }

  lemma {:induction false} ReplayInTwoParts(t: Term, u: Trace, v: Trace)
    requires IsTerm(t)
    ensures Replay(t, u + v) == Replay(Replay(t, u), v)
    decreases u
  {
    if u == [] {
      assert u + v == v;
    } else {
      assert (u + v)[1..] == u[1..] + v;
      ReplayInTwoParts(Act(t, u[0].1), u[1..], v);
    }
  }

  lemma {:induction false} ReplayShifted(t: Term, u: Trace, offset: nat)
    requires IsTerm(t)
    ensures Replay(t, Shifted(u, offset)) == Replay(t, u)
    decreases u
  {
    if u != [] {
      ShiftedTail(u, offset);
      ReplayShifted(Act(t, u[0].1), u[1..], offset);
    }
  }

  /** What the walk in two parts means on the screen: the whole text can be printed, and shows what its parts
      show one after the other. */
  lemma PrintInTwoParts(t: Term, a: string, b: string)
    requires IsTerm(t)
    requires CleanCut(a, b) && StaysInside(AsWritten, a, 0) && StaysInside(AsWritten, b, 0)
    requires SequencesReadAlike(a, b)
    ensures StaysInside(AsWritten, a + b, 0)
    ensures Replay(t, Walk(AsWritten, a + b, 0)) == Replay(Replay(t, Walk(AsWritten, a, 0)), Walk(AsWritten, b, 0))
  {
    hide Scan, Walk, MeetsSequence, StaysInside, Alike, Shifted, ReadsAlike, CleanCut, SequencesReadAlike;
    var u, v := Walk(AsWritten, a, 0), Shifted(Walk(AsWritten, b, 0), |a|);
    WalkInTwoParts(a, b);
    ReplayAlike(t, Walk(AsWritten, a + b, 0), u + v);
    ReplayInTwoParts(t, u, v);
    ReplayShifted(Replay(t, u), Walk(AsWritten, b, 0), |a|);
  }

  /** A sequence with its letter reads the same whatever follows. */
  lemma {:induction false} ScanExtends(s: string, more: string, i: nat, params: seq<nat>, p: nat)
    requires p <= i <= 8 && |params| == 8
    requires ScanFrom(s, i, params, p).effect != NoEffect
    ensures ScanFrom(s + more, i, params, p) == ScanFrom(s, i, params, p)
    decreases 8 - i
  {
    hide ScanFrom;
    if i == 8 || i >= |s| {
      ScanStops(s, i, params, p);
    } else {
      assert (s + more)[i] == s[i];
      ScanUnfolds(s, i, params, p);
      ScanUnfolds(s + more, i, params, p);
      if IsDigit(s[i]) {
        ScanExtends(s, more, i + 1, params[p := params[p] * 10 + DigitValue(s[i])], p);
      } else if s[i] == ';' {
        ScanExtends(s, more, i + 1, params, p + 1);
      } else if s[i] != 'f' && s[i] != 'H' && s[i] != 'm' {
        ScanExtends(s, more, i + 1, params, p);
      }
    }
  }

  lemma SequenceExtends(s: string, more: string)
    requires Scan(s).effect != NoEffect
    ensures Scan(s + more) == Scan(s)
  {
    ScanExtends(s, more, 0, NO_PARAMS, 0);
  }

  /** As it is meant, printing in two parts is always printing at once. */
  lemma {:induction false} MeantFirstPart(a: string, b: string, c: nat)
    requires CleanCut(a, b) && c <= |a| && WellFormed(a, c)
    ensures Walk(AsMeant, a + b, c) == Walk(AsMeant, a, c) + Walk(AsMeant, a + b, |a|)
    decreases |a| - c
  {
    hide Scan;
    EscapesOfParts(a, b, c);
    if c < |a| {
      if EscapeAt(a, c) {
        assert (a + b)[c + 2..] == a[c + 2..] + b;
        SequenceExtends(a[c + 2..], b);
      }
      var x := ActionAt(AsMeant, a, c);
      assert ActionAt(AsMeant, a + b, c) == x;
      var u, v := Walk(AsMeant, a, c), Walk(AsMeant, a + b, c);
      assert u[0] == v[0] == (c, x);
      assert u[1..] == Walk(AsMeant, a, After(c, x)) && v[1..] == Walk(AsMeant, a + b, After(c, x));
      MeantFirstPart(a, b, After(c, x));
      CommonHead(u, v, Walk(AsMeant, a + b, |a|));
    }
  }

  lemma MeantActionOfSecond(a: string, b: string, d: nat)
    requires CleanCut(a, b) && d < |b|
    ensures ActionAt(AsMeant, a + b, |a| + d) == ActionAt(AsMeant, b, d)
  {
    hide Scan;
    EscapesOfParts(a, b, d);
    if EscapeAt(b, d) {
      assert (a + b)[|a| + d + 2..] == b[d + 2..];
    }
  }

  lemma {:induction false} MeantSecondPart(a: string, b: string, d: nat)
    requires CleanCut(a, b)
    ensures Walk(AsMeant, a + b, |a| + d) == Shifted(Walk(AsMeant, b, d), |a|)
    decreases |b| - d
  {
    hide Shifted, ActionAt, CleanCut;
    if d < |b| {
      var x := ActionAt(AsMeant, b, d);
      MeantActionOfSecond(a, b, d);
      var u, v := Walk(AsMeant, b, d), Walk(AsMeant, a + b, |a| + d);
      assert u[0] == (d, x) && v[0] == (|a| + d, x);
      assert u[1..] == Walk(AsMeant, b, After(d, x)) && v[1..] == Walk(AsMeant, a + b, |a| + After(d, x));
      MeantSecondPart(a, b, After(d, x));
      ShiftedHead(u, v, |a|);
    } else {
      ShiftedHead([], [], |a|);
    }
  }

  lemma MeantWalkInTwoParts(a: string, b: string)
    requires CleanCut(a, b) && WellFormed(a, 0)
    ensures Walk(AsMeant, a + b, 0) == Walk(AsMeant, a, 0) + Shifted(Walk(AsMeant, b, 0), |a|)
  {
    MeantFirstPart(a, b, 0);
    MeantSecondPart(a, b, 0);
  }

  // ---- the sequences the parser understands ----

  /** A run of digits goes into the current parameter. */
  lemma {:induction false} ScanDigits(s: string, i: nat, digits: string, params: seq<nat>, p: nat)
    requires AllDigits(digits) && i + |digits| <= 8 && i + |digits| <= |s| && s[i..i + |digits|] == digits
    requires p <= i && p < 8 && |params| == 8
    ensures ScanFrom(s, i, params, p) == ScanFrom(s, i + |digits|, params[p := ReadDigits(params[p], digits)], p)
    decreases digits
  {
    hide ScanFrom, ReadDigits, AllDigits, IsDigit;
    if digits == "" {
      NoDigits(params[p]);
      assert params[p := params[p]] == params;
    } else {
      FirstDigit(s, i, digits);
      DigitsUnfold(params[p], digits);
      var acc := params[p] * 10 + DigitValue(s[i]);
      ScanUnfolds(s, i, params, p);
      ScanDigits(s, i + 1, digits[1..], params[p := acc], p);
      UpdatedTwice(params, p, acc, ReadDigits(acc, digits[1..]));
    }
  }

  lemma FirstDigit(s: string, i: nat, digits: string)
    requires digits != "" && AllDigits(digits) && i + |digits| <= |s| && s[i..i + |digits|] == digits
    ensures s[i] == digits[0] && IsDigit(s[i])
    ensures AllDigits(digits[1..]) && s[i + 1..i + 1 + |digits[1..]|] == digits[1..]
  {
    assert s[i + 1..i + |digits|] == s[i..i + |digits|][1..];
  }

  lemma NoDigits(acc: nat)
    ensures ReadDigits(acc, "") == acc
  {
  }

  lemma UpdatedTwice(params: seq<nat>, p: nat, acc: nat, n: nat)
    requires p < |params|
    ensures params[p := acc][p := n] == params[p := n]
  {
  }

  lemma DigitsUnfold(acc: nat, digits: string)
    requires digits != "" && AllDigits(digits)
    ensures AllDigits(digits[1..])
    ensures ReadDigits(acc, digits) == ReadDigits(acc * 10 + DigitValue(digits[0]), digits[1..])
  {
  }

  /** "col;rowH" with at most 7 characters before the letter places the cursor. */
  lemma ReadsPosition(col: nat, row: nat, more: string)
    requires |Decimal(col)| + 1 + |Decimal(row)| <= 7
    ensures Scan(Decimal(col) + ";" + Decimal(row) + "H" + more)
         == Escape(|Decimal(col)| + 1 + |Decimal(row)|, MoveTo(col, row))
  {
    hide Decimal, ReadDigits, ScanFrom;
    var a, b := Decimal(col), Decimal(row);
    var s := a + ";" + b + "H" + more;
    PositionText(a, b, more);
    ReadDecimal(col);
    ReadDecimal(row);
    var one := NO_PARAMS[0 := col];
    ScanDigits(s, 0, a, NO_PARAMS, 0);
    ScanUnfolds(s, |a|, one, 0);
    ScanDigits(s, |a| + 1, b, one, 1);
    ScanUnfolds(s, |a| + 1 + |b|, one[1 := row], 1);
  }

  lemma PositionText(a: string, b: string, more: string)
    ensures var s := a + ";" + b + "H" + more;
            && |s| > |a| + 1 + |b|
            && s[0..0 + |a|] == a && s[|a|] == ';'
            && s[|a| + 1..|a| + 1 + |b|] == b && s[|a| + 1 + |b|] == 'H'
  {
  }

  /** "nm" sets one colour parameter. */
  lemma ReadsColor(param: nat, more: string)
    requires |Decimal(param)| <= 7
    ensures Scan(Decimal(param) + "m" + more) == Escape(|Decimal(param)|, SetColors([param]))
  {
    hide Decimal, ReadDigits;
    var a := Decimal(param);
    var s := a + "m" + more;
    ReadDecimal(param);
    ScanDigits(s, 0, a, NO_PARAMS, 0);
    assert s[|a|] == 'm';
    assert NO_PARAMS[0 := param][..1] == [param];
  }

  // ---- what sequences do ----

  /** The eight dark colours, and what the digits 8 and 9 come to. */
  const PALETTE: seq<Color> :=
    [0x000000, 0x000080, 0x008000, 0x008080, 0x800000, 0x800080, 0x808000, 0x808080, 0x000000, 0x000080]

  lemma PaletteOf(bit: nat)
    requires bit < 10
    ensures BitToByte(bit) == PALETTE[bit]
  {
    if bit < 5 {
      assert bit == 0 || bit == 1 || bit == 2 || bit == 3 || bit == 4;
    } else {
      assert bit == 5 || bit == 6 || bit == 7 || bit == 8 || bit == 9;
    }
  }

  /** What one colour parameter does: 30 to 37 and 40 to 47 set the foreground and the background to a dark colour,
      90 to 97 and 100 to 107 to a light one, a single digit restores the defaults, anything else does nothing. */
  predicate Colored(t: Term, param: nat, r: Term) {
    && r.grid == t.grid && r.x == t.x && r.y == t.y
    && (param < 10 ==> r.fg == 0xFFFFFFFF && r.bg == 0xFF000000)
    && (30 <= param < 40 ==> r.fg == PALETTE[param - 30] && r.bg == t.bg)
    && (90 <= param < 100 ==> r.fg == PALETTE[param - 90] | 0x7F7F7F7F && r.bg == t.bg)
    && (40 <= param < 50 ==> r.fg == t.fg && r.bg == PALETTE[param - 40])
    && (100 <= param < 110 ==> r.fg == t.fg && r.bg == PALETTE[param - 100] | 0x7F7F7F7F)
    && (10 <= param < 30 || 50 <= param < 90 || 110 <= param ==> r.fg == t.fg && r.bg == t.bg)
  }

  lemma OneColor(t: Term, param: nat)
    ensures Colored(t, param, WithColor(t, param))
    ensures WithColors(t, [param]) == WithColor(t, param)
  {
    hide BitToByte;
    assert [param][1..] == [];
    assert WithColors(WithColor(t, param), []) == WithColor(t, param);
    if 30 <= param < 50 {
      DarkColor(t, param);
    } else if 90 <= param < 110 {
      LightColor(t, param);
    }
  }

  lemma DarkColor(t: Term, param: nat)
    requires 30 <= param < 50
    ensures Colored(t, param, WithColor(t, param))
  {
    hide BitToByte;
    var digit := if param < 40 then param - 30 else param - 40;
    assert param % 10 == digit;
    PaletteOf(digit);
  }

  lemma LightColor(t: Term, param: nat)
    requires 90 <= param < 110
    ensures Colored(t, param, WithColor(t, param))
  {
    hide BitToByte;
    var digit := if param < 100 then param - 90 else param - 100;
    assert param % 10 == digit;
    PaletteOf(digit);
  }

  /** "nm" colours as its number says, whatever follows. */
  lemma ColorSequence(t: Term, param: nat, more: string)
    requires |Decimal(param)| <= 7
    ensures Colored(t, param, Apply(t, Scan(Decimal(param) + "m" + more).effect))
  {
    hide Scan, Decimal, Colored, WithColor;
    ReadsColor(param, more);
    OneColor(t, param);
  }

  /** "col;rowH" puts the cursor at that column and row and does nothing else. */
  lemma PositionSequence(t: Term, col: nat, row: nat, more: string)
    requires |Decimal(col)| + 1 + |Decimal(row)| <= 7
    ensures Apply(t, Scan(Decimal(col) + ";" + Decimal(row) + "H" + more).effect)
         == Term(t.grid, 8 * col, 8 * row, t.fg, t.bg)
  {
    hide Scan, Decimal;
    ReadsPosition(col, row, more);
  }

  /** A list of colour parameters with its letter. */
  function ColorText(params: seq<nat>): (s: string)
    requires params != []
    ensures s != ""
  {
    Decimal(params[0]) + if |params| == 1 then "m" else ";" + ColorText(params[1..])
  }

  /** The parameters read so far are `read`, the others are still zero. */
  predicate ReadSoFar(params: seq<nat>, read: seq<nat>) {
    |params| == 8 && |read| < 8 && params[..|read|] == read && forall k :: |read| <= k < 8 ==> params[k] == 0
  }

  lemma OneMoreRead(params: seq<nat>, read: seq<nat>, v: nat)
    requires ReadSoFar(params, read)
    ensures params[|read|] == 0
    ensures params[|read| := v][..|read| + 1] == read + [v]
    ensures |read| < 7 ==> ReadSoFar(params[|read| := v], read + [v])
  {
  }

  lemma ParamsAre(params: seq<nat>, read: seq<nat>)
    requires ReadSoFar(params, read)
    ensures |params| == 8 && |read| < 8
  {
  }

  /** One number of a list goes into the next parameter. */
  lemma ScanOne(s: string, i: nat, v: nat, read: seq<nat>, params: seq<nat>)
    requires i + |Decimal(v)| <= |s| && i + |Decimal(v)| < 8 && s[i..i + |Decimal(v)|] == Decimal(v)
    requires ReadSoFar(params, read) && |read| <= i
    ensures ScanFrom(s, i, params, |read|) == ScanFrom(s, i + |Decimal(v)|, params[|read| := v], |read|)
  {
    hide ScanFrom, ReadDigits, Decimal, AllDigits, IsDigit;
    ReadDecimal(v);
    ScanDigits(s, i, Decimal(v), params, |read|);
  }

  /** One number of a list, and what stands behind it. */
  lemma NumberRead(s: string, i: nat, v: nat, tail: string, read: seq<nat>, params: seq<nat>)
    requires i <= |s| && s[i..] == Decimal(v) + tail && tail != "" && i + |Decimal(v)| < 8
    requires ReadSoFar(params, read) && |read| <= i
    ensures var k := i + |Decimal(v)|;
            && k < |s| && s[k] == tail[0] && s[k + 1..] == tail[1..]
            && ScanFrom(s, i, params, |read|) == ScanFrom(s, k, params[|read| := v], |read|)
  {
    hide ScanFrom, Decimal, ReadSoFar;
    var d := Decimal(v);
    assert s[i..i + |d|] == s[i..][..|d|] == d;
    assert s[i + |d| + 1..] == s[i..][|d| + 1..];
    assert (d + tail)[|d|] == tail[0] && (d + tail)[|d| + 1..] == tail[1..];
    ScanOne(s, i, v, read, params);
  }

  lemma LastNumber(s: string, i: nat, v: nat, read: seq<nat>, params: seq<nat>, more: string)
    requires i <= |s| && s[i..] == Decimal(v) + ("m" + more) && i + |Decimal(v)| < 8
    requires ReadSoFar(params, read) && |read| <= i
    ensures ScanFrom(s, i, params, |read|) == Escape(i + |Decimal(v)|, SetColors(read + [v]))
  {
    NumberRead(s, i, v, "m" + more, read, params);
    OneMoreRead(params, read, v);
    hide ScanFrom, Decimal;
    ScanUnfolds(s, i + |Decimal(v)|, params[|read| := v], |read|);
  }

  lemma NextNumber(s: string, i: nat, v: nat, rest: string, read: seq<nat>, params: seq<nat>)
    requires i <= |s| && s[i..] == Decimal(v) + (";" + rest) && i + |Decimal(v)| < 7
    requires ReadSoFar(params, read) && |read| <= i
    ensures var k := i + |Decimal(v)| + 1;
            && k <= |s| && s[k..] == rest && |read| + 1 <= k && ReadSoFar(params[|read| := v], read + [v])
            && ScanFrom(s, i, params, |read|) == ScanFrom(s, k, params[|read| := v], |read| + 1)
  {
    NumberRead(s, i, v, ";" + rest, read, params);
    assert (";" + rest)[1..] == rest;
    OneMoreRead(params, read, v);
    hide ScanFrom, Decimal;
    ScanUnfolds(s, i + |Decimal(v)|, params[|read| := v], |read|);
  }

  lemma ColorTextParts(todo: seq<nat>, more: string)
    requires todo != []
    ensures |todo| == 1 ==>
              ColorText(todo) + more == Decimal(todo[0]) + ("m" + more) && |ColorText(todo)| == |Decimal(todo[0])| + 1
    ensures |todo| > 1 ==>
              && ColorText(todo) + more == Decimal(todo[0]) + (";" + (ColorText(todo[1..]) + more))
              && |ColorText(todo)| == |Decimal(todo[0])| + 1 + |ColorText(todo[1..])|
  {
    hide Decimal;
    if |todo| > 1 {
      Reassociated(Decimal(todo[0]), ";", ColorText(todo[1..]), more);
    }
  }

  lemma Reassociated(a: string, b: string, c: string, d: string)
    ensures a + (b + c) + d == a + (b + (c + d))
  {
  }

  /** The rest of a list goes into the parameters behind those read. */
  lemma {:induction false} ScanColors(s: string, i: nat, todo: seq<nat>, read: seq<nat>, params: seq<nat>, more: string)
    requires todo != [] && i <= |s| && s[i..] == ColorText(todo) + more && i + |ColorText(todo)| <= 8
    requires ReadSoFar(params, read) && |read| <= i
    ensures ScanFrom(s, i, params, |read|) == Escape(i + |ColorText(todo)| - 1, SetColors(read + todo))
    decreases todo
  {
    hide ScanFrom, Decimal, ColorText, ReadSoFar;
    ColorTextParts(todo, more);
    ParamsAre(params, read);
    var v := todo[0];
    if |todo| == 1 {
      LastNumber(s, i, v, read, params, more);
      assert todo == [v];
    } else {
      NextNumber(s, i, v, ColorText(todo[1..]) + more, read, params);
      ScanColors(s, i + |Decimal(v)| + 1, todo[1..], read + [v], params[|read| := v], more);
      assert read + [v] + todo[1..] == read + todo;
    }
  }

  /** "a;b;...m" of up to seven characters before the letter does what its parameters do one after the other. */
  lemma ColorsInTurn(t: Term, first: nat, rest: seq<nat>, more: string)
    requires rest != [] && |ColorText([first] + rest)| <= 8
    ensures Apply(t, Scan(ColorText([first] + rest) + more).effect)
         == Apply(Apply(t, Scan(ColorText([first])).effect), Scan(ColorText(rest)).effect)
  {
    var all := [first] + rest;
    assert all[1..] == rest && all[0] == first;
    ColorTextParts(all, more);
    ColorTextParts([first], "");
    hide Scan, ColorText, WithColor, Decimal;
    ReadsColors(all, more);
    ReadsColors([first], "");
    ReadsColors(rest, "");
    assert ColorText([first]) + "" == ColorText([first]) && ColorText(rest) + "" == ColorText(rest);
    OneColor(t, first);
  }

  /** The parser reads exactly the parameters that were written. */
  lemma ReadsColors(params: seq<nat>, more: string)
    requires params != [] && |ColorText(params)| <= 8
    ensures Scan(ColorText(params) + more) == Escape(|ColorText(params)| - 1, SetColors(params))
  {
    hide ScanFrom, ColorText;
    var s := ColorText(params) + more;
    var none: seq<nat> := [];
    assert s[0..] == s && none + params == params && ReadSoFar(NO_PARAMS, none);
    ScanColors(s, 0, params, none, NO_PARAMS, more);
  }

  const HOME: string := [ESC, '[', '0', ';', '0', 'H']
  const NEXT: string := [ESC, '[', '1', ';', '0', 'H', '\r']

  lemma HomeAndNextScanned()
    ensures Scan(HOME[2..]) == Escape(3, MoveTo(0, 0))
    ensures Scan((HOME + NEXT)[2..]) == Escape(3, MoveTo(0, 0))
    ensures Scan(NEXT[2..]) == Escape(3, MoveTo(1, 0))
  {
    assert Decimal(0) == ['0'] && Decimal(1) == ['1'];
    hide Decimal, Scan;
    assert HOME[2..] == Decimal(0) + ";" + Decimal(0) + "H" + "";
    assert (HOME + NEXT)[2..] == Decimal(0) + ";" + Decimal(0) + "H" + NEXT;
    assert NEXT[2..] == Decimal(1) + ";" + Decimal(0) + "H" + "\r";
    ReadsPosition(0, 0, "");
    ReadsPosition(0, 0, NEXT);
    ReadsPosition(1, 0, "\r");
  }

  /** That the steps differ does not mean that the screens do: here the second sequence is misread, and the carriage
      return behind it makes up for that on every terminal. */
  lemma ScreensCanAgreeAnyway(t: Term)
    requires IsTerm(t)
    ensures StaysInside(AsWritten, HOME, 0) && StaysInside(AsWritten, NEXT, 0) && StaysInside(AsWritten, HOME + NEXT, 0)
    ensures !SequencesReadAlike(HOME, NEXT)
    ensures Replay(t, Walk(AsWritten, HOME + NEXT, 0))
         == Replay(Replay(t, Walk(AsWritten, HOME, 0)), Walk(AsWritten, NEXT, 0))
  {
    hide Scan;
    HomeAndNextScanned();
    var home, next, back := Sequence(Escape(3, MoveTo(0, 0))), Sequence(Escape(3, MoveTo(1, 0))), Print('\r');
    var whole := HOME + NEXT;
    assert EscapeAt(HOME, 0) && EscapeAt(NEXT, 0) && EscapeAt(whole, 0) && EscapeAt(whole, 6);
    assert !EscapeAt(NEXT, 6) && !EscapeAt(whole, 12) && NEXT[6] == whole[12] == '\r';
    assert ActionAt(AsWritten, HOME, 0) == home && ActionAt(AsWritten, NEXT, 0) == next;
    assert ActionAt(AsWritten, NEXT, 6) == back && ActionAt(AsWritten, whole, 12) == back;
    assert ActionAt(AsWritten, whole, 0) == home && ActionAt(AsWritten, whole, 6) == home;
    assert MeetsSequence(AsWritten, NEXT, 0) && !SameEscape(Escape(3, MoveTo(1, 0)), Escape(3, MoveTo(0, 0))) by {
      assert Apply(t, MoveTo(1, 0)).x != Apply(t, MoveTo(0, 0)).x;
    }
    hide EscapeAt, ActionAt, Act, MeetsSequence, SameEscape;
    assert StaysInside(AsWritten, HOME, 6) && StaysInside(AsWritten, NEXT, 7) && StaysInside(AsWritten, whole, 13);
    assert StaysInside(AsWritten, NEXT, 6) && StaysInside(AsWritten, whole, 12);
    assert StaysInside(AsWritten, whole, 6);
    assert Walk(AsWritten, HOME, 6) == [] && Walk(AsWritten, NEXT, 7) == [] && Walk(AsWritten, whole, 13) == [];
    assert Walk(AsWritten, HOME, 0) == [(0, home)];
    assert Walk(AsWritten, NEXT, 6) == [(6, back)] && Walk(AsWritten, whole, 12) == [(12, back)];
    assert Walk(AsWritten, NEXT, 0) == [(0, next), (6, back)];
    assert Walk(AsWritten, whole, 6) == [(6, home), (12, back)];
    assert Walk(AsWritten, whole, 0) == [(0, home)] + [(6, home), (12, back)];
    ReplayInTwoParts(t, [(0, home)], [(6, home), (12, back)]);
    var n := Replay(t, [(0, home)]);
    ReplayOne(t, (0, home));
    ReplayTwo(n, (0, next), (6, back));
    ReplayTwo(n, (6, home), (12, back));
    BackFromEither(t);
  }

  lemma ReplayOne(t: Term, x: (nat, Action))
    requires IsTerm(t)
    ensures Replay(t, [x]) == Act(t, x.1)
  {
    assert [x][1..] == [];
    assert Replay(Act(t, x.1), []) == Act(t, x.1);
  }

  lemma ReplayTwo(t: Term, x: (nat, Action), y: (nat, Action))
    requires IsTerm(t)
    ensures Replay(t, [x, y]) == Act(Act(t, x.1), y.1)
  {
    hide Act;
    assert [x, y][1..] == [y];
    ReplayOne(Act(t, x.1), y);
  }

  lemma BackFromEither(t: Term)
    requires IsTerm(t)
    ensures var home, next, back := Sequence(Escape(3, MoveTo(0, 0))), Sequence(Escape(3, MoveTo(1, 0))), Print('\r');
            Act(Act(Act(t, home), next), back) == Act(Act(Act(t, home), home), back)
  {
  }
}
