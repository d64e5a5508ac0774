/** RGB colors. */
module Colors {
  datatype Color = Color(r: bv8, g: bv8, b: bv8)

  const BLACK: Color := Color(0, 0, 0)
  const GREY: Color := Color(170, 170, 170)

  function AnsiColor(k: nat): Color
    requires k < 8
  {
    [BLACK, Color(170, 0, 0), Color(0, 170, 0), Color(170, 85, 0),
     Color(0, 0, 170), Color(170, 0, 170), Color(0, 170, 170), GREY][k]
  }
}

/** The text terminal behind `write_byte`: a cursor on a grid of cells, the cells known to show a glyph,
    the current colors, and the escape-sequence state. The framebuffer is proved to show it. */
module TextGrid {
  import opened Colors

  const ESC: nat := 0x1b
  const NEWLINE: nat := 10
  const BACKSPACE: nat := 8
  const BRACKET: nat := 91
  const SEMICOLON: nat := 59
  const LETTER_M: nat := 109
  const REPLACEMENT: nat := 0xfe
  const CSI_LEN: nat := 8

  datatype Glyph = Glyph(c: nat, fg: Color, bg: Color)

  datatype Escape = Normal | SawEsc | SawBracket | InCsi(params: seq<nat>)

  type Cells = map<(nat, nat), Glyph>

  /** `cells[(row, col)]` is the glyph that cell shows; a cell the cursor has been drawn on is not known.
      While the cursor is shown, `bar` is its color. */
  datatype Term = Term(cells: Cells, row: nat, col: nat, fg: Color, bg: Color, esc: Escape, shown: bool, bar: Color)

  datatype Grid = Grid(rows: nat, cols: nat)

  // ---------------------------------------------------------------- the cursor

  /** The cursor is drawn on, or erased from, its cell. */
  function Touched(t: Term): Term {
    t.(cells := t.cells - {(t.row, t.col)})
  }

  function Erased(t: Term): Term {
    if t.shown then Touched(t).(shown := false) else t
  }

  function Drawn(t: Term): Term {
    if t.shown then t else Touched(t).(shown := true, bar := t.fg)
  }

  /** Every known cell one row up; the top row is lost. */
  function ScrolledCells(cells: Cells): Cells {
    map k | k in Raised(cells) :: cells[(k.0 + 1, k.1)]
  }

  function Raised(cells: Cells): set<(nat, nat)> {
    set k | k in cells && k.0 > 0 :: (k.0 - 1, k.1)
  }

  lemma ScrolledCell(cells: Cells, r: nat, c: nat)
    ensures (r, c) in ScrolledCells(cells) <==> (r + 1, c) in cells
    ensures (r + 1, c) in cells ==> ScrolledCells(cells)[(r, c)] == cells[(r + 1, c)]
  {
    if (r + 1, c) in cells { assert (r, c) in Raised(cells); }
  }

  /** The start of the next row, or of the same row after scrolling. */
  function NewLine(g: Grid, t: Term): Term {
    if t.row + 2 <= g.rows then t.(row := t.row + 1, col := 0)
    else t.(cells := ScrolledCells(t.cells), col := 0)
  }

  // ---------------------------------------------------------------- colors

  predicate IsDigit(b: nat) {
    48 <= b <= 57
  }

  predicate IsParam(b: nat) {
    IsDigit(b) || b == SEMICOLON
  }

  /** The decimal value of the digits before the first semicolon; 0 if there are none. */
  function FirstParam(params: seq<nat>, value: nat): nat {
    if |params| == 0 || !IsDigit(params[0]) then value
    else FirstParam(params[1..], 10 * value + (params[0] - 48))
  }

  function WithColor(t: Term, code: nat): Term {
    if code == 0 then t.(fg := GREY, bg := BLACK)
    else if 30 <= code <= 37 then t.(fg := AnsiColor(code - 30))
    else if 40 <= code <= 47 then t.(bg := AnsiColor(code - 40))
    else t
  }

  // ---------------------------------------------------------------- bytes

  function Wrapped(g: Grid, t: Term): Term {
    if t.col + 1 > g.cols then NewLine(g, Erased(t)) else t
  }

  /** A byte drawn at the cursor, which moves one cell on. */
  function Put(g: Grid, t: Term, byte: nat): Term {
    var w := Wrapped(g, t);
    Drawn(w.(cells := w.cells[(w.row, w.col) := Glyph(byte, w.fg, w.bg)], col := w.col + 1, shown := false))
  }

  function Back(t: Term): Term {
    if t.col > 0 then t.(col := t.col - 1) else t
  }

  function Write(g: Grid, t: Term, byte: nat): Term {
    match t.esc
    case Normal =>
      if byte == ESC then t.(esc := SawEsc)
      else if byte == NEWLINE then Drawn(NewLine(g, Erased(t)))
      else if byte == BACKSPACE then Drawn(Back(Erased(t)))
      else Put(g, t, byte)
    case SawEsc => t.(esc := if byte == BRACKET then SawBracket else Normal)
    case SawBracket => t.(esc := if IsParam(byte) then InCsi([byte]) else Normal)
    case InCsi(params) =>
      if IsParam(byte) && |params| < CSI_LEN then t.(esc := InCsi(params + [byte]))
      else if byte == LETTER_M then WithColor(t, FirstParam(params, 0)).(esc := Normal)
      else t.(esc := Normal)
  }

  function WriteAll(g: Grid, t: Term, bytes: seq<nat>): Term
    decreases |bytes|
  {
    if |bytes| == 0 then t else Write(g, WriteAll(g, t, bytes[..|bytes| - 1]), bytes[|bytes| - 1])
  }

  predicate IsPrintable(b: nat) {
    0x20 <= b <= 0x7e
  }

  /** What `write_string` passes on: printable and control bytes, the rest replaced. */
  function Filtered(b: nat): nat {
    if IsPrintable(b) || b == NEWLINE || b == BACKSPACE || b == ESC then b else REPLACEMENT
  }

  function FilteredAll(bytes: seq<nat>): seq<nat> {
    seq(|bytes|, i requires 0 <= i < |bytes| => Filtered(bytes[i]))
  }

  // ---------------------------------------------------------------- the cursor stays on the grid

  /** The cursor's row is on the grid, and its column is on it or just past its end. */
  predicate CursorOnGrid(g: Grid, t: Term) {
    && (t.row == 0 || t.row < g.rows)
    && (t.col <= 1 || t.col <= g.cols)
    && (t.esc.InCsi? ==> 0 < |t.esc.params| <= CSI_LEN && forall i: nat :: i < |t.esc.params| ==> IsParam(t.esc.params[i]))
  }

  lemma WriteStaysOnGrid(g: Grid, t: Term, byte: nat)
    requires CursorOnGrid(g, t)
    ensures CursorOnGrid(g, Write(g, t, byte))
  {
  }

  /** Over any bytes whatever, the cursor stays on the grid. */
  lemma {:induction false} CursorStaysOnGrid(g: Grid, t: Term, bytes: seq<nat>)
    requires CursorOnGrid(g, t)
    ensures CursorOnGrid(g, WriteAll(g, t, bytes))
    decreases |bytes|
  {
    hide CursorOnGrid, Write;
    if |bytes| > 0 {
      CursorStaysOnGrid(g, t, bytes[..|bytes| - 1]);
      WriteStaysOnGrid(g, WriteAll(g, t, bytes[..|bytes| - 1]), bytes[|bytes| - 1]);
    }
  }

  // ---------------------------------------------------------------- color sequences

  lemma {:induction false} ParamsCollected(g: Grid, t: Term, params: seq<nat>)
    requires t.esc == Normal && 0 < |params| <= CSI_LEN && forall i: nat :: i < |params| ==> IsParam(params[i])
    ensures WriteAll(g, t, [ESC, BRACKET] + params) == t.(esc := InCsi(params))
    decreases |params|
  {
    var n := |params| - 1;
    var front := params[..n];
    var bytes := [ESC, BRACKET] + params;
    assert bytes[..|bytes| - 1] == [ESC, BRACKET] + front && bytes[|bytes| - 1] == params[n];
    if n == 0 {
      var intro := [ESC, BRACKET];
      assert intro + front == intro && intro[..1] == [ESC] && [ESC][..0] == [];
      assert WriteAll(g, t, []) == t;
      assert WriteAll(g, t, [ESC]) == t.(esc := SawEsc);
      assert WriteAll(g, t, intro) == t.(esc := SawBracket);
      assert [params[0]] == params;
    } else {
      ParamsCollected(g, t, front);
      assert front + [params[n]] == params;
    }
  }

  /** An escape sequence of up to eight parameter bytes draws nothing, leaves the cursor alone, and sets
      the colors by its first parameter. */
  lemma ColorSequence(g: Grid, t: Term, params: seq<nat>)
    requires t.esc == Normal && 0 < |params| <= CSI_LEN && forall i: nat :: i < |params| ==> IsParam(params[i])
    ensures WriteAll(g, t, [ESC, BRACKET] + params + [LETTER_M]) == WithColor(t, FirstParam(params, 0))
  {
    var bytes := [ESC, BRACKET] + params + [LETTER_M];
    assert bytes[..|bytes| - 1] == [ESC, BRACKET] + params;
    ParamsCollected(g, t, params);
  }

  /** The decimal digits of a number. */
  function Decimal(n: nat): (d: seq<nat>)
    ensures |d| > 0 && forall i: nat :: i < |d| ==> IsDigit(d[i])
  {
    if n < 10 then [48 + n] else Decimal(n / 10) + [48 + n % 10]
  }

  /** Reading a decimal number back, up to a semicolon or the end. */
  lemma {:induction false} DecimalIsRead(n: nat, rest: seq<nat>)
    ensures FirstParam(Decimal(n) + rest, 0) == FirstParam(rest, n)
    decreases n
  {
    if n >= 10 {
      var more := [48 + n % 10] + rest;
      DecimalIsRead(n / 10, more);
      assert Decimal(n) + rest == Decimal(n / 10) + more;
      assert more[1..] == rest;
    } else {
      assert (Decimal(n) + rest)[1..] == rest;
    }
  }

  function Pow10(k: nat): nat {
    if k == 0 then 1 else 10 * Pow10(k - 1)
  }

  lemma {:induction false} DecimalLength(n: nat, k: nat)
    requires k > 0 && n < Pow10(k)
    ensures |Decimal(n)| <= k
    decreases n
  {
    if n >= 10 {
      assert k > 1 by { assert Pow10(1) == 10; }
      DecimalLength(n / 10, k - 1);
    }
  }

  lemma EightDigits()
    ensures Pow10(8) == 1_0000_0000
  {
    assert Pow10(4) == 1_0000;
  }

  function ColorBytes(code: nat): seq<nat> {
    [ESC, BRACKET] + Decimal(code) + [LETTER_M]
  }

  /** Codes 30 to 37 set the foreground and 40 to 47 the background to one of eight colors, 0 restores the
      default colors, and every other code of up to eight digits does nothing. */
  lemma ColorCodes(g: Grid, t: Term, code: nat)
    requires t.esc == Normal && code < 1_0000_0000
    ensures WriteAll(g, t, ColorBytes(code)) ==
            if code == 0 then t.(fg := Color(170, 170, 170), bg := Color(0, 0, 0))
            else if 30 <= code < 38 then t.(fg := AnsiColor(code - 30))
            else if 40 <= code < 48 then t.(bg := AnsiColor(code - 40))
            else t
  {
    hide WriteAll, Decimal;
    EightDigits();
    DecimalLength(code, 8);
    ColorSequence(g, t, Decimal(code));
    DecimalIsRead(code, []);
    assert Decimal(code) + [] == Decimal(code);
  }

  /** Bit 0 of a color's number is red, bit 1 green, bit 2 blue; red and green alone make brown. */
  lemma AnsiChannels(k: nat)
    requires k < 8
    ensures AnsiColor(k).r == if k % 2 == 1 then 170 else 0
    ensures AnsiColor(k).g == if k / 2 % 2 == 0 then 0 else if k == 3 then 85 else 170
    ensures AnsiColor(k).b == if k / 4 == 1 then 170 else 0
  {
  }

  /** Bytes of an escape sequence are invisible: only the `m` that ends one can change anything but the
      escape state, and then only colors. */
  lemma EscapeIsInvisible(g: Grid, t: Term, byte: nat)
    requires t.esc != Normal || byte == ESC
    ensures var u := Write(g, t, byte);
            && u.(esc := t.esc, fg := t.fg, bg := t.bg) == t
            && (!(t.esc.InCsi? && byte == LETTER_M) ==> u.fg == t.fg && u.bg == t.bg)
            && (t.esc == SawEsc && byte != BRACKET ==> u.esc == Normal)
            && (t.esc.InCsi? && |t.esc.params| >= 8 ==> u.esc == Normal)
  {
  }

  /** After every other byte the cursor is shown, in the foreground color. */
  lemma CursorShown(g: Grid, t: Term, byte: nat)
    requires t.esc == Normal && byte != ESC
    ensures var u := Write(g, t, byte); u.shown && u.bar == t.fg
  {
  }

  // ---------------------------------------------------------------- backspace

  predicate IsDrawn(byte: nat) {
    byte != ESC && byte != NEWLINE && byte != BACKSPACE
  }

  /** Backspace after a byte returns the cursor to where it was; only the byte's cell and the next are
      no longer known. */
  lemma BackspaceUndoes(g: Grid, t: Term, byte: nat)
    requires t.esc == Normal && t.col < g.cols && IsDrawn(byte)
    ensures var u := Write(g, Write(g, t, byte), BACKSPACE);
            && u.row == t.row && u.col == t.col && u.fg == t.fg && u.bg == t.bg && u.esc == Normal
            && u.cells == t.cells - {(t.row, t.col), (t.row, t.col + 1)}
  {
  }

  /** In the first column backspace leaves the cursor where it is. */
  lemma BackspaceAtEdge(g: Grid, t: Term)
    requires t.esc == Normal && t.col == 0
    ensures var u := Write(g, t, BACKSPACE);
            u.row == t.row && u.col == 0 && u.esc == Normal && u.cells == t.cells - {(t.row, 0)}
  {
  }

  lemma {:induction false} WriteConcat(g: Grid, t: Term, a: seq<nat>, b: seq<nat>)
    ensures WriteAll(g, t, a + b) == WriteAll(g, WriteAll(g, t, a), b)
    decreases |b|
  {
    hide Write;
    if |b| == 0 {
      assert a + b == a;
    } else {
      var n := |b| - 1;
      WriteConcat(g, t, a, b[..n]);
      assert (a + b)[..|a| + n] == a + b[..n] && (a + b)[|a| + n] == b[n];
    }
  }

  ghost predicate AtColumn(t: Term, u: Term, col: nat) {
    u.row == t.row && u.col == col && u.esc == Normal && u.fg == t.fg && u.bg == t.bg
  }

  lemma {:induction false} TypedColumn(g: Grid, t: Term, bytes: seq<nat>)
    requires t.esc == Normal && t.col + |bytes| <= g.cols && forall i: nat :: i < |bytes| ==> IsDrawn(bytes[i])
    ensures AtColumn(t, WriteAll(g, t, bytes), t.col + |bytes|)
    decreases |bytes|
  {
    if |bytes| > 0 { TypedColumn(g, t, bytes[..|bytes| - 1]); }
  }

  function Backspaces(n: nat): seq<nat> {
    seq(n, _ => BACKSPACE)
  }

  lemma {:induction false} ErasedColumn(g: Grid, t: Term, n: nat)
    requires t.esc == Normal && n <= t.col
    ensures AtColumn(t, WriteAll(g, t, Backspaces(n)), t.col - n)
    decreases n
  {
    if n > 0 {
      ErasedColumn(g, t, n - 1);
      assert Backspaces(n)[..n - 1] == Backspaces(n - 1);
    }
  }

  /** Typing within a row and backspacing as often brings the cursor back. */
  lemma BackspacesUndo(g: Grid, t: Term, bytes: seq<nat>)
    requires t.esc == Normal && t.col + |bytes| <= g.cols && forall i: nat :: i < |bytes| ==> IsDrawn(bytes[i])
    ensures AtColumn(t, WriteAll(g, t, bytes + Backspaces(|bytes|)), t.col)
  {
    hide WriteAll;
    TypedColumn(g, t, bytes);
    ErasedColumn(g, WriteAll(g, t, bytes), |bytes|);
    WriteConcat(g, t, bytes, Backspaces(|bytes|));
  }

  // ---------------------------------------------------------------- where text appears

  predicate IsText(b: nat) {
    IsPrintable(b) || b == NEWLINE
  }

  /** Line and column of the cursor after `n` bytes of text on an endless screen of `cols` columns; it can
      stand just past the last column. */
  function CursorAfter(g: Grid, row: nat, col: nat, bytes: seq<nat>, n: nat): (nat, nat)
    requires n <= |bytes|
    decreases n
  {
    if n == 0 then (row, col)
    else
      var (line, c) := CursorAfter(g, row, col, bytes, n - 1);
      if bytes[n - 1] == NEWLINE then (line + 1, 0)
      else if c < g.cols then (line, c + 1)
      else (line + 1, 1)
  }

  /** Where byte `i` is drawn on that screen: at the cursor, or wrapped to the next line. */
  function Place(g: Grid, row: nat, col: nat, bytes: seq<nat>, i: nat): (nat, nat)
    requires i < |bytes|
  {
    var (line, c) := CursorAfter(g, row, col, bytes, i);
    if c < g.cols then (line, c) else (line + 1, 0)
  }

  /** How far the screen has scrolled when `line` is its last. */
  function ScrolledBy(g: Grid, line: nat): nat {
    if line < g.rows then 0 else line - g.rows + 1
  }

  lemma {:induction false} CursorBounds(g: Grid, row: nat, col: nat, bytes: seq<nat>, n: nat)
    requires g.cols > 0 && col <= g.cols && n <= |bytes|
    ensures var (line, c) := CursorAfter(g, row, col, bytes, n); row <= line && c <= g.cols
    decreases n
  {
    if n > 0 { CursorBounds(g, row, col, bytes, n - 1); }
  }

  /** Everything drawn so far is before the cursor. */
  lemma {:induction false} PlaceBeforeCursor(g: Grid, row: nat, col: nat, bytes: seq<nat>, i: nat, n: nat)
    requires g.cols > 0 && col <= g.cols && i < n <= |bytes| && bytes[i] != NEWLINE
    ensures var (line, c), (l, d) := Place(g, row, col, bytes, i), CursorAfter(g, row, col, bytes, n);
            c < g.cols && (line < l || (line == l && c < d))
    decreases n
  {
    CursorBounds(g, row, col, bytes, n - 1);
    if i < n - 1 { PlaceBeforeCursor(g, row, col, bytes, i, n - 1); }
  }

  /** Byte `i`, if it draws, shows at its place, moved up by what has scrolled away, unless it has scrolled
      away itself. */
  ghost predicate Shown(g: Grid, t0: Term, t: Term, bytes: seq<nat>, n: nat, i: nat)
    requires i < n <= |bytes|
  {
    var up := ScrolledBy(g, CursorAfter(g, t0.row, t0.col, bytes, n).0);
    var (line, c) := Place(g, t0.row, t0.col, bytes, i);
    bytes[i] != NEWLINE && line >= up ==>
      (line - up, c) in t.cells && t.cells[(line - up, c)] == Glyph(bytes[i], t0.fg, t0.bg)
  }

  ghost predicate CursorAt(g: Grid, t0: Term, t: Term, bytes: seq<nat>, n: nat)
    requires n <= |bytes|
  {
    var (line, c) := CursorAfter(g, t0.row, t0.col, bytes, n);
    && t.row == line - ScrolledBy(g, line) && t.col == c
    && t.fg == t0.fg && t.bg == t0.bg && t.esc == Normal
  }

  ghost predicate LaidOut(g: Grid, t0: Term, t: Term, bytes: seq<nat>, n: nat)
    requires n <= |bytes|
  {
    CursorAt(g, t0, t, bytes, n) && forall i: nat :: i < n ==> Shown(g, t0, t, bytes, n, i)
  }

  /** Whether the next byte scrolls the screen. */
  predicate Scrolls(g: Grid, t: Term, byte: nat) {
    (byte == NEWLINE || t.col >= g.cols) && t.row + 2 > g.rows
  }

  predicate SameCell(a: Cells, r: nat, c: nat, b: Cells, r': nat, c': nat) {
    (r, c) in a && (r', c') in b && b[(r', c')] == a[(r, c)]
  }

  /** A byte leaves every known cell before the cursor as it was, one row up if the screen scrolls. */
  lemma WriteKeepsCell(g: Grid, t: Term, byte: nat, r: nat, c: nat)
    requires t.esc == Normal && IsText(byte)
    requires (r, c) in t.cells && c < g.cols && (r < t.row || (r == t.row && c < t.col))
    ensures !Scrolls(g, t, byte) ==> SameCell(t.cells, r, c, Write(g, t, byte).cells, r, c)
    ensures Scrolls(g, t, byte) && r > 0 ==> SameCell(t.cells, r, c, Write(g, t, byte).cells, r - 1, c)
  {
    hide ScrolledCells;
    if r > 0 { ScrolledCell(Erased(t).cells, r - 1, c); }
  }

  /** The cursor goes where the endless screen's does, and the screen scrolls when that line does not fit. */
  lemma CursorStep(g: Grid, t0: Term, t: Term, bytes: seq<nat>, n: nat)
    requires g.cols > 0 && t0.row < g.rows && t0.col <= g.cols && n < |bytes| && IsText(bytes[n])
    requires CursorAt(g, t0, t, bytes, n)
    ensures CursorAt(g, t0, Write(g, t, bytes[n]), bytes, n + 1)
    ensures var up := ScrolledBy(g, CursorAfter(g, t0.row, t0.col, bytes, n).0);
            ScrolledBy(g, CursorAfter(g, t0.row, t0.col, bytes, n + 1).0) ==
              if Scrolls(g, t, bytes[n]) then up + 1 else up
  {
    hide ScrolledCells;
    CursorBounds(g, t0.row, t0.col, bytes, n);
  }

  /** The byte itself shows at its place. */
  lemma ByteShown(g: Grid, t0: Term, t: Term, bytes: seq<nat>, n: nat)
    requires g.cols > 0 && t0.row < g.rows && t0.col <= g.cols && n < |bytes| && IsText(bytes[n])
    requires CursorAt(g, t0, t, bytes, n)
    ensures Shown(g, t0, Write(g, t, bytes[n]), bytes, n + 1, n)
  {
    hide ScrolledCells;
    CursorBounds(g, t0.row, t0.col, bytes, n);
  }

  /** What was shown before the byte is still shown. */
  lemma EarlierShown(g: Grid, t0: Term, t: Term, bytes: seq<nat>, n: nat, i: nat)
    requires g.cols > 0 && t0.row < g.rows && t0.col <= g.cols && i < n < |bytes| && IsText(bytes[n])
    requires LaidOut(g, t0, t, bytes, n)
    ensures Shown(g, t0, Write(g, t, bytes[n]), bytes, n + 1, i)
  {
    hide Place, CursorAfter, Write, ScrolledBy, Scrolls;
    CursorStep(g, t0, t, bytes, n);
    assert Shown(g, t0, t, bytes, n, i);
    var up := ScrolledBy(g, CursorAfter(g, t0.row, t0.col, bytes, n).0);
    var (line, c) := Place(g, t0.row, t0.col, bytes, i);
    if bytes[i] != NEWLINE && line >= up {
      PlaceBeforeCursor(g, t0.row, t0.col, bytes, i, n);
      WriteKeepsCell(g, t, bytes[n], line - up, c);
    }
  }

  lemma LaidOutStep(g: Grid, t0: Term, t: Term, bytes: seq<nat>, n: nat)
    requires g.cols > 0 && t0.row < g.rows && t0.col <= g.cols && n < |bytes| && IsText(bytes[n])
    requires LaidOut(g, t0, t, bytes, n)
    ensures LaidOut(g, t0, Write(g, t, bytes[n]), bytes, n + 1)
  {
    hide Shown, CursorAt, Write;
    CursorStep(g, t0, t, bytes, n);
    var t', m := Write(g, t, bytes[n]), n + 1;
    forall i: nat | i < m ensures Shown(g, t0, t', bytes, m, i) {
      if i < n { EarlierShown(g, t0, t, bytes, n, i); } else { ByteShown(g, t0, t, bytes, n); }
    }
  }

  /** Any text of printable bytes and newlines appears byte by byte from the cursor on, wrapped at the right
      edge and scrolled at the bottom, in the current colors, and the cursor ends after it. */
  lemma {:induction false} TextIsLaidOut(g: Grid, t0: Term, bytes: seq<nat>, n: nat)
    requires g.cols > 0 && t0.row < g.rows && t0.col <= g.cols && t0.esc == Normal && n <= |bytes|
    requires forall i: nat :: i < |bytes| ==> IsText(bytes[i])
    ensures LaidOut(g, t0, WriteAll(g, t0, bytes[..n]), bytes, n)
    decreases n
  {
    hide LaidOut, Write, IsText;
    if n == 0 {
      NothingLaidOut(g, t0, bytes);
    } else {
      TextIsLaidOut(g, t0, bytes, n - 1);
      assert bytes[..n][..n - 1] == bytes[..n - 1];
      LaidOutStep(g, t0, WriteAll(g, t0, bytes[..n - 1]), bytes, n - 1);
    }
  }

  lemma NothingLaidOut(g: Grid, t0: Term, bytes: seq<nat>)
    requires t0.esc == Normal && t0.row < g.rows
    ensures LaidOut(g, t0, t0, bytes, 0)
  {
  }
}
