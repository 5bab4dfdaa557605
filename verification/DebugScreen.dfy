/** The framebuffer terminal of psp2shell_loader/include/debugScreen.h: 960 by 544 pixels that show 120 by 68 cells. */
module DebugScreens {
  import opened Terminals

  newtype int32 = x: int | -0x8000_0000 <= x < 0x8000_0000
  newtype uint32 = x: int | 0 <= x < 0x1_0000_0000

  /** The furthest coordinate a sequence can set: seven digits times the glyph size. */
  const COORD_MAX := 79_999_992

  function Row(i: int): int {
    i / SCREEN_WIDTH
  }

  function Col(i: int): int {
    i % SCREEN_WIDTH
  }

  lemma RowCol(r: int, c: int)
    requires 0 <= c < SCREEN_WIDTH
    ensures Row(r * SCREEN_WIDTH + c) == r && Col(r * SCREEN_WIDTH + c) == c
  {
  }

  lemma PixelOfRowCol(i: int)
    ensures i == Row(i) * SCREEN_WIDTH + Col(i) && 0 <= Col(i) < SCREEN_WIDTH
    ensures 0 <= i < SCREEN_WIDTH * SCREEN_HEIGHT ==> 0 <= Row(i) < SCREEN_HEIGHT
  {
  }

  /** One bit of a glyph. */
  predicate FontBit(font: seq<bv8>, ch: char, row: nat, col: nat)
    requires |font| == FONT_SIZE && ch as int < 256 && row < GLYPH && col < GLYPH
  {
    font[ch as int * 8 + row] & (128 >> col) != 0
  }

  /** The colour a cell shows at one of its pixels. */
  function CellPixel(font: seq<bv8>, cell: Cell, row: nat, col: nat): Color
    requires |font| == FONT_SIZE && row < GLYPH && col < GLYPH
  {
    match cell
    case Blank(color) => color
    case Glyph(ch, fg, bg) => if ch as int < 256 && FontBit(font, ch, row, col) then fg else bg
  }

  /** The cell a pixel belongs to. */
  function CellOf(i: nat): nat {
    Row(i) / GLYPH * COLS + Col(i) / GLYPH
  }

  lemma CellOfBounds(i: nat)
    requires i < SCREEN_WIDTH * SCREEN_HEIGHT
    ensures CellOf(i) < COLS * ROWS
  {
  }

  function PixelColor(font: seq<bv8>, grid: seq<Cell>, i: nat): Color
    requires |font| == FONT_SIZE && |grid| == COLS * ROWS && i < SCREEN_WIDTH * SCREEN_HEIGHT
  {
    CellOfBounds(i);
    CellPixel(font, grid[CellOf(i)], Row(i) % GLYPH, Col(i) % GLYPH)
  }

  /** The pixel buffer is the rendering of the grid. */
  ghost predicate Shows(vram: seq<Color>, font: seq<bv8>, grid: seq<Cell>) {
    && |font| == FONT_SIZE && |grid| == COLS * ROWS && |vram| == SCREEN_WIDTH * SCREEN_HEIGHT
    && forall i :: 0 <= i < |vram| ==> vram[i] == PixelColor(font, grid, i)
  }

  predicate IsText(text: string) {
    forall i :: 0 <= i < |text| ==> 0 < text[i] as int < 256
  }

  /** The drawing state of the header; the cells its pixels show are a ghost field. */
  class DebugScreen {
    var coordX: uint32
    var coordY: uint32
    var colorFg: Color
    var colorBg: Color
    const font: seq<bv8>
    const vram: array<Color>
    ghost var grid: seq<Cell>

    ghost predicate Valid()
      reads this, vram
    {
      && |font| == FONT_SIZE && |grid| == COLS * ROWS && vram.Length == SCREEN_WIDTH * SCREEN_HEIGHT
      && Shows(vram[..], font, grid)
      && coordX % 8 == 0 && coordX as int <= COORD_MAX
      && coordY % 8 == 0 && coordY as int <= COORD_MAX
    }

    ghost function State(): Term
      reads this
    {
      Term(grid, coordX as int, coordY as int, colorFg, colorBg)
    }

    constructor (font: seq<bv8>)
      requires |font| == FONT_SIZE
      ensures Valid() && fresh(vram)
      ensures State() == Cleared(Term([], 0, 0, COLOR_DEFAULT_FG, COLOR_DEFAULT_BG), 0)
    {
      this.font := font;
      coordX, coordY := 0, 0;
      colorFg, colorBg := COLOR_DEFAULT_FG, COLOR_DEFAULT_BG;
      vram := new Color[SCREEN_WIDTH * SCREEN_HEIGHT](_ => 0);
      grid := seq(COLS * ROWS, _ => Blank(0));
    }

    /** Fills the screen and homes the cursor. */
    method Clear(color: Color)
      requires |font| == FONT_SIZE && vram.Length == SCREEN_WIDTH * SCREEN_HEIGHT
      modifies this`coordX, this`coordY, this`grid, vram
      ensures Valid()
      ensures State() == Cleared(old(State()), color)
      ensures coordX == 0 && coordY == 0 && forall k :: 0 <= k < vram.Length ==> vram[k] == color
    {
      coordX := 0;
      coordY := 0;
      for i := 0 to SCREEN_WIDTH * SCREEN_HEIGHT
        invariant coordX == 0 && coordY == 0
        invariant forall k :: 0 <= k < i ==> vram[k] == color
      {
        vram[i] := color;
      }
      grid := seq(COLS * ROWS, _ => Blank(color));
      BlankShows(vram[..], font, color);
    }

    /** The parser, reading the text from `at`. It returns how far it scanned. */
    method ParseEscape(text: string, at: nat) returns (i: int32)
      requires at <= |text| && Valid()
      modifies this`coordX, this`coordY, this`colorFg, this`colorBg
      ensures Valid()
      ensures i as int == Scan(text[at..]).len
      ensures State() == Apply(old(State()), Scan(text[at..]).effect)
      ensures match Scan(text[at..]).effect
              case NoEffect => State() == old(State())
              case MoveTo(col, row) => State() == Term(old(grid), 8 * col, 8 * row, old(colorFg), old(colorBg))
              case SetColors(ps) => |ps| == 1 ==> Colored(old(State()), ps[0], State())
    {
      hide Shows, ScanFrom, WithColors, Scan;
      var params, p, letter;
      i, params, p, letter := ReadParams(text, at);
      if letter == 'f' || letter == 'H' {
        coordX := ToPixels(params[0]);
        coordY := ToPixels(params[1]);
      } else if letter == 'm' {
        OnlyColor(State(), Scan(text[at..]).effect.params);
        ApplyColors(params, p);
      }
    }

    /** The colour parameters up to index `p`, one after the other. */
    method ApplyColors(params: array<int32>, p: int32)
      requires params.Length == 8 && 0 <= p < 8 && Bounded(params[..], 8)
      requires Valid()
      modifies this`colorFg, this`colorBg
      ensures Valid()
      ensures State() == WithColors(old(State()), Naturals(params[..])[..p as int + 1])
    {
      hide Shows, BitToByte;
      ghost var all := Naturals(params[..])[..p as int + 1];
      var j: int32 := 0;
      while j <= p
        invariant 0 <= j <= p + 1
        invariant Valid()
        invariant WithColors(State(), all[j as int..]) == WithColors(old(State()), all)
        decreases p - j
      {
        ghost var before := State();
        var kind := params[j] / 10;
        var bit := (params[j] % 10) as int;
        if kind == 0 {
          colorFg := COLOR_DEFAULT_FG;
          colorBg := COLOR_DEFAULT_BG;
        } else if kind == 3 {
          colorFg := BitToByte(bit);
        } else if kind == 9 {
          colorFg := BitToByte(bit) | 0x7F7F7F7F;
        } else if kind == 4 {
          colorBg := BitToByte(bit);
        } else if kind == 10 {
          colorBg := BitToByte(bit) | 0x7F7F7F7F;
        }
        assert all[j as int..][0] == params[j] as int;
        assert all[j as int..][1..] == all[j as int + 1..];
        assert State() == WithColor(before, params[j] as int);
        j := j + 1;
      }
    }

    /** Draws a character into the cell at the cursor, row by row. */
    method DrawGlyph(ch: char)
      requires Valid() && ch as int < 256
      requires coordX as int + GLYPH <= SCREEN_WIDTH && coordY as int + GLYPH <= SCREEN_HEIGHT
      modifies this`grid, vram
      ensures Valid()
      ensures grid == old(grid)[CellIndex(coordX as int, coordY as int) := Glyph(ch, colorFg, colorBg)]
      ensures forall k :: 0 <= k < vram.Length ==>
                var row, col := k / 960 - coordY as int, k % 960 - coordX as int;
                vram[k] == if 0 <= row < 8 && 0 <= col < 8 then
                             if font[8 * ch as int + row] as int / WEIGHTS[col] % 2 == 1 then colorFg else colorBg
                           else old(vram[k])
    {
      hide Row, Col, FontBit, CellOf, PixelColor, Inked;
      ghost var was, cell := vram[..], Glyph(ch, colorFg, colorBg);
      ghost var x: int, y: int := coordX as int, coordY as int;
      var start := coordX as int + coordY as int * SCREEN_WIDTH;
      NothingInked(x, y);
      for i := 0 to GLYPH
        invariant grid == old(grid) && start == x + (y + i) * SCREEN_WIDTH
        invariant Drawn(vram[..], was, font, cell, x, y, i, 0)
      {
        var ptr := start;
        for j := 0 to GLYPH
          invariant grid == old(grid) && ptr == start + j
          invariant Drawn(vram[..], was, font, cell, x, y, i, j)
        {
          ghost var before := vram[..];
          if FontBit(font, ch, i, j) {
            vram[ptr] := colorFg;
          } else {
            vram[ptr] := colorBg;
          }
          assert vram[..] == before[ptr := vram[ptr]];
          InkPixel(before, was, font, cell, x, y, i, j);
          ptr := ptr + 1;
        }
        InkRow(x, y, i);
        start := start + SCREEN_WIDTH;
      }
      GlyphShows(vram[..], was, font, grid, cell, x, y);
      DrawnIsGlyph(vram[..], was, font, ch, colorFg, colorBg, x, y);
      grid := grid[CellIndex(x, y) := cell];
    }

    /** Before each character: wraps at the right edge, clears at the bottom. */
    method MakeRoom()
      requires Valid()
      modifies this`coordX, this`coordY, this`grid, vram
      ensures Valid()
      ensures State() == Ready(old(State())) && Roomy(old(State()), State())
    {
      hide Shows;
      ReadyIsRoomy(State());
      if coordX + 8 > 960 {
        coordY := coordY + 8;
        coordX := 0;
      }
      if coordY + 8 > 544 {
        Clear(colorBg);
      }
    }

    /** Handles the character or sequence at `c`; the result is the index before the one to go on with. */
    method PutOne(text: string, c: nat) returns (last: nat)
      requires Valid() && IsText(text) && c < |text|
      modifies this, vram
      ensures Valid()
      ensures State() == Act(old(State()), ActionAt(AsWritten, text, c))
      ensures last + 1 == After(c, ActionAt(AsWritten, text, c))
    {
      hide Shows, Scan, Apply, Ready, CellIndex;
      MakeRoom();
      last := c;
      if text[c] == '\n' {
        coordX := 0;
        coordY := coordY + 8;
      } else if text[c] == '\r' {
        coordX := 0;
      } else if c + 1 < |text| && text[c] == ESC && text[c + 1] == '[' {
        var len := ParseEscape(text, 2);
        last := c + len as int + 2;
      } else {
        DrawGlyph(text[c]);
        coordX := coordX + 8;
      }
    }

    /** Prints a text. */
    method Puts(text: string) returns (c: nat)
      requires Valid() && IsText(text) && StaysInside(AsWritten, text, 0)
      modifies this, vram
      ensures Valid()
      ensures State() == Replay(old(State()), Walk(AsWritten, text, 0))
      ensures c == |text|
    {
      hide Shows, Walk, Act, ActionAt, StaysInside, Replay, IsText;
      c := 0;
      while c != |text|
        invariant Valid() && c <= |text| && StaysInside(AsWritten, text, c)
        invariant Replay(State(), Walk(AsWritten, text, c)) == Replay(old(State()), Walk(AsWritten, text, 0))
        decreases |text| - c
      {
        WalkUnfolds(State(), text, c);
        c := PutOne(text, c);
        c := c + 1;
      }
      WalkEnds(State(), text);
    }
  }

  /** Printing two texts one after the other is printing them as one, where their sequences read alike: the whole can
      be printed, and leaves the same state. */
  method PutsBoth(screen: DebugScreen, a: string, b: string)
    requires screen.Valid() && IsText(a) && IsText(b) && CleanCut(a, b)
    requires StaysInside(AsWritten, a, 0) && StaysInside(AsWritten, b, 0) && SequencesReadAlike(a, b)
    modifies screen, screen.vram
    ensures screen.Valid() && IsText(a + b) && StaysInside(AsWritten, a + b, 0)
    ensures screen.State() == Replay(old(screen.State()), Walk(AsWritten, a + b, 0))
  {
    hide Shows, Walk, StaysInside, Replay, SequencesReadAlike, CleanCut;
    ghost var start := screen.State();
    PrintInTwoParts(start, a, b);
    var c := screen.Puts(a);
    c := screen.Puts(b);
  }

  /** The loop of the parser: fills the parameters up to the letter, if there is one within 8 characters. */
  method ReadParams(text: string, at: nat) returns (i: int32, params: array<int32>, p: int32, letter: char)
    requires at <= |text|
    ensures fresh(params) && params.Length == 8 && Bounded(params[..], 8) && NonNegative(params[..]) && 0 <= p
    ensures i as int == Scan(text[at..]).len
    ensures match letter
            case 'f' => Placed(params[..], Scan(text[at..]).effect)
            case 'H' => Placed(params[..], Scan(text[at..]).effect)
            case 'm' => p < 8 && Scan(text[at..]).effect == SetColors(Naturals(params[..])[..p as int + 1])
            case _ => Scan(text[at..]).effect == NoEffect
  {
    hide ScanFrom, Scan, Bounded;
    params := new int32[8](_ => 0);
    p, i, letter := 0, 0, '\0';
    ghost var s := text[at..];
    NothingRead(params[..]);
    ScanStarts(s);
    while i < 8 && at + i as int < |text|
      invariant 0 <= p <= i <= 8
      invariant Bounded(params[..], i as int) && NonNegative(params[..])
      invariant ScanFrom(s, i as int, Naturals(params[..]), p as int) == Scan(s)
      decreases 8 - i
    {
      var ch := text[at + i as int];
      assert ch == s[i];
      BoundedMore(params[..], i as int);
      PlacedWithin(params[..], i as int);
      ghost var before := params[..];
      ScanUnfolds(s, i as int, Naturals(before), p as int);
      if '0' <= ch <= '9' {
        StoreDigit(params, p, (ch as int - '0' as int) as int32, i as int);
      } else if ch == ';' {
        p := p + 1;
      } else if ch == 'f' || ch == 'H' || ch == 'm' {
        letter := ch;
        return;
      }
      i := i + 1;
    }
    BoundedMore(params[..], i as int);
    ScanStops(s, i as int, Naturals(params[..]), p as int);
  }

  /** One more digit of the current parameter, after `i` characters. */
  method StoreDigit(params: array<int32>, p: int32, digit: int32, ghost i: nat)
    requires params.Length == 8 && 0 <= p < 8 && 0 <= digit <= 9 && i < 8
    requires Bounded(params[..], i)
    modifies params
    ensures Bounded(params[..], i + 1) && NonNegative(params[..])
    ensures Naturals(params[..])
         == Naturals(old(params[..]))[p as int := old(params[p]) as int * 10 + digit as int]
  {
    ghost var before := params[..];
    LimitsGrow(i);
    params[p] := params[p] * 10 + digit;
    assert params[..] == before[p as int := params[p]];
  }

  predicate NonNegative(params: seq<int32>) {
    forall k :: 0 <= k < |params| ==> params[k] >= 0
  }

  lemma NothingRead(params: seq<int32>)
    requires |params| == 8 && forall k :: 0 <= k < 8 ==> params[k] == 0
    ensures Bounded(params, 0) && NonNegative(params) && Naturals(params) == NO_PARAMS
  {
  }

  lemma BoundedMore(params: seq<int32>, i: nat)
    requires i <= 8 && Bounded(params, i)
    ensures |params| == 8 && NonNegative(params) && Bounded(params, 8)
    ensures i < 8 ==> Bounded(params, i + 1)
  {
  }

  lemma PlacedWithin(params: seq<int32>, i: nat)
    requires i < 8 && Bounded(params, i)
    ensures 0 <= params[0] < 10_000_000 && 0 <= params[1] < 10_000_000
    ensures NonNegative(params) && Naturals(params)[0] == params[0] as int && Naturals(params)[1] == params[1] as int
  {
  }

  /** The first two parameters are the position of a cursor sequence, and small enough to become coordinates. */
  ghost predicate Placed(params: seq<int32>, effect: Effect) {
    && |params| == 8 && 0 <= params[0] < 10_000_000 && 0 <= params[1] < 10_000_000
    && effect == MoveTo(params[0] as int, params[1] as int)
  }

  function ToPixels(cells: int32): (r: uint32)
    requires 0 <= cells < 10_000_000
    ensures r % 8 == 0 && r as int == cells as int * GLYPH && r as int <= COORD_MAX
  {
    (cells * 8) as uint32
  }

  lemma ScanStarts(s: string)
    ensures Scan(s) == ScanFrom(s, 0, NO_PARAMS, 0)
  {
  }

  /** Bounds on a parameter after so many characters. */
  const LIMITS: seq<int> := [1, 10, 100, 1_000, 10_000, 100_000, 1_000_000, 10_000_000, 100_000_000]

  lemma LimitsGrow(i: nat)
    requires i < 8
    ensures LIMITS[i + 1] == 10 * LIMITS[i] && 1 <= LIMITS[i] <= 10_000_000
  {
  }

  ghost predicate Bounded(params: seq<int32>, i: nat)
    requires i <= 8
  {
    |params| == 8 && forall k :: 0 <= k < 8 ==> 0 <= params[k] as int < LIMITS[i]
  }

  ghost function Naturals(params: seq<int32>): (r: seq<nat>)
    requires NonNegative(params)
    ensures |r| == |params| && forall k :: 0 <= k < |r| ==> r[k] == params[k] as int
  {
    seq(|params|, k requires 0 <= k < |params| => params[k] as int)
  }

  // ---- the font ----

  /** What the bits of a font byte are worth, the leftmost pixel first. */
  const WEIGHTS: seq<nat> := [128, 64, 32, 16, 8, 4, 2, 1]

  lemma HighBits(b: bv8)
    ensures b & 128 != 0 <==> b as int / 128 % 2 == 1
    ensures b & 64 != 0 <==> b as int / 64 % 2 == 1
    ensures b & 32 != 0 <==> b as int / 32 % 2 == 1
  {
  }

  lemma BitOfSixteen(b: bv8)
    ensures b & 16 != 0 <==> b as int / 16 % 2 == 1
  {
  }

  lemma BitOfEight(b: bv8)
    ensures b & 8 != 0 <==> b as int / 8 % 2 == 1
  {
  }

  lemma BitOfFour(b: bv8)
    ensures b & 4 != 0 <==> b as int / 4 % 2 == 1
  {
  }

  lemma BitOfTwo(b: bv8)
    ensures b & 2 != 0 <==> b as int / 2 % 2 == 1
  {
  }

  lemma BitOfOne(b: bv8)
    ensures b & 1 != 0 <==> b as int % 2 == 1
  {
  }

  lemma AnyBit(b: bv8, col: nat)
    requires col < 8
    ensures b & [128 as bv8, 64, 32, 16, 8, 4, 2, 1][col] != 0 <==> b as int / WEIGHTS[col] % 2 == 1
  {
    HighBits(b);
    BitOfSixteen(b);
    BitOfEight(b);
    BitOfFour(b);
    BitOfTwo(b);
    BitOfOne(b);
  }

  lemma ShiftedWeight(col: nat)
    requires col < 8
    ensures (128 as bv8) >> col == [128 as bv8, 64, 32, 16, 8, 4, 2, 1][col]
  {
  }

  /** A pixel of a glyph is lit just when its bit of the font byte is set, the highest bit on the left. */
  lemma FontBitIs(font: seq<bv8>, ch: char, row: nat, col: nat)
    requires |font| == FONT_SIZE && ch as int < 256 && row < GLYPH && col < GLYPH
    ensures FontBit(font, ch, row, col) <==> font[8 * ch as int + row] as int / WEIGHTS[col] % 2 == 1
  {
    var b := font[ch as int * 8 + row];
    AnyBit(b, col);
    ShiftedWeight(col);
  }

  /** What a cell shows at a pixel, in terms of the font's bytes. */
  lemma CellPixelIs(font: seq<bv8>, cell: Cell, row: nat, col: nat)
    requires |font| == FONT_SIZE && row < GLYPH && col < GLYPH
    ensures match cell
            case Blank(color) => CellPixel(font, cell, row, col) == color
            case Glyph(ch, fg, bg) =>
              ch as int < 256 ==>
                CellPixel(font, cell, row, col)
                == if font[8 * ch as int + row] as int / WEIGHTS[col] % 2 == 1 then fg else bg
  {
    hide FontBit;
    if cell.Glyph? && cell.ch as int < 256 {
      FontBitIs(font, cell.ch, row, col);
    }
  }

  lemma DrawnIsGlyph(vram: seq<Color>, was: seq<Color>, font: seq<bv8>, ch: char, fg: Color, bg: Color, x: int, y: int)
    requires x % GLYPH == 0 && 0 <= x <= SCREEN_WIDTH - GLYPH && y % GLYPH == 0 && 0 <= y <= SCREEN_HEIGHT - GLYPH
    requires ch as int < 256 && Drawn(vram, was, font, Glyph(ch, fg, bg), x, y, GLYPH, 0)
    ensures forall k :: 0 <= k < |vram| ==>
              var row, col := k / 960 - y, k % 960 - x;
              vram[k] == if 0 <= row < 8 && 0 <= col < 8 then
                           if font[8 * ch as int + row] as int / WEIGHTS[col] % 2 == 1 then fg else bg
                         else was[k]
  {
    hide CellPixel;
    forall k | 0 <= k < |vram|
      ensures var row, col := k / 960 - y, k % 960 - x;
              vram[k] == if 0 <= row < 8 && 0 <= col < 8 then
                           if font[8 * ch as int + row] as int / WEIGHTS[col] % 2 == 1 then fg else bg
                         else was[k]
    {
      var row, col := k / 960 - y, k % 960 - x;
      if 0 <= row < 8 && 0 <= col < 8 {
        assert Row(k) % GLYPH == row && Col(k) % GLYPH == col;
        CellPixelIs(font, Glyph(ch, fg, bg), row, col);
      }
    }
  }

  lemma OnlyColor(t: Term, params: seq<nat>)
    ensures |params| == 1 ==> Colored(t, params[0], WithColors(t, params))
  {
    if |params| == 1 {
      assert params == [params[0]];
      OneColor(t, params[0]);
    }
  }

  // ---- drawing one glyph ----

  /** Pixel `k` is among the first `i` rows, or the first `j` pixels of row `i`, of the cell at (x, y). */
  ghost predicate Inked(k: int, x: int, y: int, i: int, j: int) {
    x <= Col(k) < x + GLYPH && y <= Row(k) && (Row(k) < y + i || (Row(k) == y + i && Col(k) < x + j))
  }

  ghost predicate Drawn(vram: seq<Color>, was: seq<Color>, font: seq<bv8>, cell: Cell, x: int, y: int, i: int, j: int) {
    && |font| == FONT_SIZE && |vram| == |was|
    && forall k :: 0 <= k < |vram| ==>
         vram[k] == if Inked(k, x, y, i, j) then CellPixel(font, cell, Row(k) % GLYPH, Col(k) % GLYPH) else was[k]
  }

  lemma NothingInked(x: int, y: int)
    ensures forall k :: !Inked(k, x, y, 0, 0)
  {
    hide Row, Col;
  }

  lemma InkRow(x: int, y: int, i: int)
    ensures forall k :: Inked(k, x, y, i, GLYPH) <==> Inked(k, x, y, i + 1, 0)
  {
    hide Row, Col;
  }

  lemma InkPixel(before: seq<Color>, was: seq<Color>, font: seq<bv8>, cell: Cell, x: int, y: int, i: nat, j: nat)
    requires x % GLYPH == 0 && 0 <= x <= SCREEN_WIDTH - GLYPH && y % GLYPH == 0 && 0 <= y <= SCREEN_HEIGHT - GLYPH
    requires i < GLYPH && j < GLYPH && |before| == SCREEN_WIDTH * SCREEN_HEIGHT
    requires Drawn(before, was, font, cell, x, y, i, j)
    ensures 0 <= x + (y + i) * SCREEN_WIDTH + j < |before|
    ensures Drawn(before[x + (y + i) * SCREEN_WIDTH + j := CellPixel(font, cell, i, j)], was, font, cell, x, y, i,
              j + 1)
  {
    hide Row, Col, CellPixel;
    var at := x + (y + i) * SCREEN_WIDTH + j;
    RowCol(y + i, x + j);
    assert at == (y + i) * SCREEN_WIDTH + (x + j);
    assert Row(at) % GLYPH == i && Col(at) % GLYPH == j;
    forall k | 0 <= k < |before| && k != at
      ensures Inked(k, x, y, i, j + 1) <==> Inked(k, x, y, i, j)
    {
      PixelOfRowCol(k);
    }
  }

  /** A pixel lies in the cell at (x, y) just when all of that cell was inked over it. */
  lemma CellInked(k: nat, x: int, y: int)
    requires x % GLYPH == 0 && 0 <= x <= SCREEN_WIDTH - GLYPH && y % GLYPH == 0 && 0 <= y <= SCREEN_HEIGHT - GLYPH
    requires k < SCREEN_WIDTH * SCREEN_HEIGHT
    ensures CellOf(k) == CellIndex(x, y) <==> Inked(k, x, y, GLYPH, 0)
  {
    hide Row, Col;
    PixelOfRowCol(k);
  }

  lemma GlyphShows(vram: seq<Color>, was: seq<Color>, font: seq<bv8>, grid: seq<Cell>, cell: Cell, x: int, y: int)
    requires x % GLYPH == 0 && 0 <= x <= SCREEN_WIDTH - GLYPH && y % GLYPH == 0 && 0 <= y <= SCREEN_HEIGHT - GLYPH
    requires Shows(was, font, grid) && Drawn(vram, was, font, cell, x, y, GLYPH, 0)
    ensures CellIndex(x, y) < |grid|
    ensures Shows(vram, font, grid[CellIndex(x, y) := cell])
  {
    hide Row, Col, CellOf, Inked;
    forall k | 0 <= k < |vram|
      ensures vram[k] == PixelColor(font, grid[CellIndex(x, y) := cell], k)
    {
      CellOfBounds(k);
      CellInked(k, x, y);
      assert was[k] == PixelColor(font, grid, k);
    }
  }

  // ---- the walk, one step at a time ----

  lemma WalkUnfolds(t: Term, text: string, c: nat)
    requires c < |text| && IsTerm(t) && StaysInside(AsWritten, text, c)
    ensures var a := ActionAt(AsWritten, text, c);
            && Replay(t, Walk(AsWritten, text, c)) == Replay(Act(t, a), Walk(AsWritten, text, After(c, a)))
            && StaysInside(AsWritten, text, After(c, a)) && After(c, a) <= |text|
  {
    hide Scan, Act;
    var a := ActionAt(AsWritten, text, c);
    assert Walk(AsWritten, text, c)[1..] == Walk(AsWritten, text, After(c, a));
  }

  lemma WalkEnds(t: Term, text: string)
    requires IsTerm(t)
    ensures Replay(t, Walk(AsWritten, text, |text|)) == t
  {
  }

  lemma BlankShows(vram: seq<Color>, font: seq<bv8>, color: Color)
    requires |font| == FONT_SIZE && |vram| == SCREEN_WIDTH * SCREEN_HEIGHT
    requires forall k :: 0 <= k < |vram| ==> vram[k] == color
    ensures Shows(vram, font, seq(COLS * ROWS, _ => Blank(color)))
  {
    var grid := seq(COLS * ROWS, _ => Blank(color));
    forall i | 0 <= i < |vram|
      ensures vram[i] == PixelColor(font, grid, i)
    {
      CellOfBounds(i);
    }
  }
}
