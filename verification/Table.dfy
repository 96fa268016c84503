/**
 Text tables in terminal columns: `displayWidth`, `fitWidth` and `writeTable` of
 internal/report/table.go. Which characters take two columns is a parameter; the space and the
 full stop take one. Output is the list of lines written.
 */
module Table {
  import opened Wrappers

  type Wide = char -> bool

  function CharWidth(c: char, wide: Wide): nat { if wide(c) then 2 else 1 }

  /** Terminal columns a text takes. */
  function Width(s: string, wide: Wide): nat {
    if s == "" then 0 else Width(s[..|s| - 1], wide) + CharWidth(s[|s| - 1], wide)
  }

  method DisplayWidth(s: string, wide: Wide) returns (n: nat)
    ensures n == Width(s, wide)
  {
    n := 0;
    for i := 0 to |s|
      invariant n == Width(s[..i], wide)
    {
      assert s[..i + 1][..i] == s[..i];
      if wide(s[i]) {
        n := n + 2;
      } else {
        n := n + 1;
      }
    }
    assert s[..|s|] == s;
  }

  lemma {:induction false} WidthConcat(a: string, b: string, wide: Wide)
    ensures Width(a + b, wide) == Width(a, wide) + Width(b, wide)
  {
    if b == "" {
      assert a + b == a;
    } else {
      assert (a + b)[..|a + b| - 1] == a + b[..|b| - 1];
      WidthConcat(a, b[..|b| - 1], wide);
    }
  }

  lemma PrefixWidth(s: string, i: nat, j: nat, wide: Wide)
    requires i <= j <= |s|
    ensures Width(s[..i], wide) <= Width(s[..j], wide)
    ensures i < j ==> Width(s[..i], wide) + CharWidth(s[i], wide) <= Width(s[..j], wide)
  {
    assert s[..j] == s[..i] + s[i..j];
    WidthConcat(s[..i], s[i..j], wide);
    if i < j {
      assert s[i..j] == [s[i]] + s[i + 1..j];
      WidthConcat([s[i]], s[i + 1..j], wide);
      assert [s[i]][..0] == "";
    }
  }

  // ---- fitWidth ----

  const DOTS: string := "..."

  lemma DotsWidth(wide: Wide)
    requires !wide('.')
    ensures Width(DOTS, wide) == 3
  {
    assert DOTS[..2] == ".." && ".."[..1] == "." && "."[..0] == "";
  }

  /** k is where s is cut: its longest prefix of at most `room` columns. */
  ghost predicate LongestPrefix(s: string, k: nat, room: int, wide: Wide) {
    && k <= |s|
    && (k == 0 || Width(s[..k], wide) <= room)
    && forall j | k < j <= |s| :: Width(s[..j], wide) > room
  }

  method FitWidth(s: string, w: int, wide: Wide) returns (r: string, ghost k: nat)
    ensures Width(s, wide) <= w ==> r == s
    ensures Width(s, wide) > w ==> LongestPrefix(s, k, w - 3, wide) && r == s[..k] + "..."
  {
    k := 0;
    var total := DisplayWidth(s, wide);
    if total <= w {
      return s, 0;
    }
    var b := "";
    var n := 0;
    for i := 0 to |s|
      invariant b == s[..i] && n == Width(s[..i], wide) && k == i
      invariant i == 0 || n <= w - 3
    {
      var rw := DisplayWidth([s[i]], wide);
      assert s[..i + 1] == s[..i] + [s[i]];
      WidthConcat(s[..i], [s[i]], wide);
      if n + rw > w - 3 {
        forall j | i < j <= |s|
          ensures Width(s[..j], wide) > w - 3
        {
          PrefixWidth(s, i + 1, j, wide);
        }
        return b + DOTS, i;
      }
      b := b + [s[i]];
      n := n + rw;
      k := i + 1;
    }
    r := b + DOTS;
  }

  /** A cut text fills the columns it is given up to one, when there is room for the dots at all. */
  lemma FitWidthFills(s: string, w: int, k: nat, wide: Wide)
    requires !wide('.') && Width(s, wide) > w
    requires LongestPrefix(s, k, w - 3, wide)
    ensures var total := Width(s[..k] + DOTS, wide);
      && (w >= 3 ==> w - 1 <= total <= w)
      && (w < 3 ==> s[..k] == "" && total == 3)
  {
    WidthConcat(s[..k], DOTS, wide);
    DotsWidth(wide);
    if k < |s| {
      assert s[..k + 1][..k] == s[..k];
      assert Width(s[..k + 1], wide) == Width(s[..k], wide) + CharWidth(s[k], wide);
    } else {
      assert s[..k] == s;
    }
  }

  /** The result never exceeds w columns exactly when the text fits or w has room for the dots. */
  lemma FitWidthBound(s: string, w: int, k: nat, wide: Wide)
    requires !wide('.') && (Width(s, wide) > w ==> LongestPrefix(s, k, w - 3, wide))
    ensures var r := if Width(s, wide) <= w then s else s[..k] + DOTS;
      Width(r, wide) <= w <==> Width(s, wide) <= w || w >= 3
  {
    if Width(s, wide) > w {
      FitWidthFills(s, w, k, wide);
    }
  }

  // ---- writeTable ----

  type Row = seq<string>

  function Max(a: int, b: int): int { if a > b then a else b }

  function Pad(n: nat): string { seq(n, _ => ' ') }

  /** strings.TrimRight(s, " ") */
  function TrimSpaces(s: string): (r: string)
    ensures |r| <= |s| && r == s[..|r|]
    ensures forall i | |r| <= i < |s| :: s[i] == ' '
    ensures r != "" ==> r[|r| - 1] != ' '
  {
    if s != "" && s[|s| - 1] == ' ' then TrimSpaces(s[..|s| - 1]) else s
  }

  /** The widest cell of a column. */
  function ColumnWidth(all: seq<Row>, i: nat, wide: Wide): nat {
    if all == [] then 0
    else
      var last := all[|all| - 1];
      Max(ColumnWidth(all[..|all| - 1], i, wide), if i < |last| then Width(last[i], wide) else 0)
  }

  lemma {:induction false} CellFits(all: seq<Row>, m: nat, i: nat, wide: Wide)
    requires m < |all| && i < |all[m]|
    ensures Width(all[m][i], wide) <= ColumnWidth(all, i, wide)
  {
    if m < |all| - 1 {
      CellFits(all[..|all| - 1], m, i, wide);
    }
  }

  /** Every cell of the row fits its column. */
  ghost predicate Fits(all: seq<Row>, r: Row, wide: Wide) {
    forall i | 0 <= i < |r| :: Width(r[i], wide) <= ColumnWidth(all, i, wide)
  }

  /** The spaces after cell i. */
  function Gap(all: seq<Row>, r: Row, i: nat, wide: Wide): int
    requires i < |r|
  {
    ColumnWidth(all, i, wide) - Width(r[i], wide) + 2
  }

  /** Cell i of a row, padded to its column unless it is the row's last. */
  function CellText(all: seq<Row>, r: Row, i: nat, wide: Wide): string
    requires i < |r|
  {
    if i < |r| - 1 && Gap(all, r, i, wide) >= 0 then r[i] + Pad(Gap(all, r, i, wide)) else r[i]
  }

  /** The text of the first k cells of a row. */
  function LineTo(all: seq<Row>, r: Row, k: nat, wide: Wide): string
    requires k <= |r|
  {
    if k == 0 then "" else LineTo(all, r, k - 1, wide) + CellText(all, r, k - 1, wide)
  }

  function TableLine(all: seq<Row>, indent: string, r: Row, wide: Wide): string {
    TrimSpaces(indent + LineTo(all, r, |r|, wide))
  }

  /** make([]int, n) and the loops that fill it. */
  method ColumnWidths(all: seq<Row>, wide: Wide) returns (widths: array<nat>)
    ensures fresh(widths)
    ensures forall m | 0 <= m < |all| :: |all[m]| <= widths.Length
    ensures forall i | 0 <= i < widths.Length :: widths[i] == ColumnWidth(all, i, wide)
  {
    var n := 0;
    for m := 0 to |all|
      invariant n >= 0 && forall j | 0 <= j < m :: |all[j]| <= n
    {
      n := Max(n, |all[m]|);
    }
    widths := new nat[n](_ => 0);
    for m := 0 to |all|
      invariant forall i | 0 <= i < widths.Length :: widths[i] == ColumnWidth(all[..m], i, wide)
    {
      var r := all[m];
      for i := 0 to |r|
        invariant forall j | 0 <= j < i :: widths[j] == Max(ColumnWidth(all[..m], j, wide), Width(r[j], wide))
        invariant forall j | i <= j < widths.Length :: widths[j] == ColumnWidth(all[..m], j, wide)
      {
        var d := DisplayWidth(r[i], wide);
        widths[i] := Max(widths[i], d);
      }
      assert all[..m + 1][..m] == all[..m];
    }
    assert all[..|all|] == all;
  }

  lemma LineStep(all: seq<Row>, indent: string, r: Row, i: nat, wide: Wide)
    requires i < |r|
    ensures indent + LineTo(all, r, i + 1, wide) == indent + LineTo(all, r, i, wide) + CellText(all, r, i, wide)
  {
    hide CellText;
  }

  /** A cell and its padding, at least two spaces: strings.Repeat would panic on a negative count. */
  method PadCell(all: seq<Row>, widths: array<nat>, m: nat, i: nat, wide: Wide) returns (cell: string)
    requires m < |all| && i < |all[m]| <= widths.Length
    requires widths[i] == ColumnWidth(all, i, wide)
    ensures cell == CellText(all, all[m], i, wide)
    ensures i < |all[m]| - 1 ==> Gap(all, all[m], i, wide) >= 2 && cell == all[m][i] + Pad(Gap(all, all[m], i, wide))
  {
    hide Width, ColumnWidth, Pad;
    CellFits(all, m, i, wide);
    cell := all[m][i];
    if i < |all[m]| - 1 {
      var d := DisplayWidth(all[m][i], wide);
      var pad: nat := widths[i] - d + 2;
      cell := cell + Pad(pad);
    }
  }

  method WriteRow(all: seq<Row>, widths: array<nat>, indent: string, m: nat, wide: Wide) returns (line: string)
    requires m < |all| && |all[m]| <= widths.Length
    requires forall i | 0 <= i < widths.Length :: widths[i] == ColumnWidth(all, i, wide)
    ensures line == TableLine(all, indent, all[m], wide)
  {
    hide CellText, ColumnWidth, LineTo, TrimSpaces;
    var r := all[m];
    var b := indent;
    LineToNothing(all, r, wide);
    assert indent + "" == indent;
    for i := 0 to |r|
      invariant b == indent + LineTo(all, r, i, wide)
    {
      var cell := PadCell(all, widths, m, i, wide);
      LineStep(all, indent, r, i, wide);
      b := b + cell;
    }
    line := TrimSpaces(b);
  }

  lemma LineToNothing(all: seq<Row>, r: Row, wide: Wide)
    ensures LineTo(all, r, 0, wide) == ""
  {
  }

  method WriteTable(indent: string, header: Option<Row>, rows: seq<Row>, wide: Wide) returns (lines: seq<string>)
    ensures var all := (if header.Some? then [header.value] else []) + rows;
      && |lines| == |all|
      && forall m | 0 <= m < |all| :: lines[m] == TableLine(all, indent, all[m], wide)
  {
    hide ColumnWidth, TableLine;
    var all := rows;
    if header.Some? {
      all := [header.value] + rows;
    }
    assert all == (if header.Some? then [header.value] else []) + rows;
    var widths := ColumnWidths(all, wide);
    lines := [];
    for m := 0 to |all|
      invariant |lines| == m
      invariant forall i | 0 <= i < widths.Length :: widths[i] == ColumnWidth(all, i, wide)
      invariant forall j | 0 <= j < m :: lines[j] == TableLine(all, indent, all[j], wide)
    {
      var line := WriteRow(all, widths, indent, m, wide);
      lines := lines + [line];
    }
  }

  // ---- alignment ----

  /** Where column i starts, in columns after the indent. */
  function Start(all: seq<Row>, i: nat, wide: Wide): nat {
    if i == 0 then 0 else Start(all, i - 1, wide) + ColumnWidth(all, i - 1, wide) + 2
  }

  lemma {:induction false} PadWidth(n: nat, wide: Wide)
    requires !wide(' ')
    ensures Width(Pad(n), wide) == n
  {
    if n > 0 {
      PadWidth(n - 1, wide);
      assert Pad(n)[..n - 1] == Pad(n - 1);
    }
  }

  lemma CellWidth(all: seq<Row>, r: Row, i: nat, wide: Wide)
    requires !wide(' ') && i < |r| - 1 && Gap(all, r, i, wide) >= 0
    ensures Width(CellText(all, r, i, wide), wide) == ColumnWidth(all, i, wide) + 2
  {
    hide Width, ColumnWidth, Pad;
    WidthConcat(r[i], Pad(Gap(all, r, i, wide)), wide);
    PadWidth(Gap(all, r, i, wide), wide);
  }

  /** Before its last cell a row is as wide as its columns. */
  lemma {:induction false} LineWidth(all: seq<Row>, r: Row, i: nat, wide: Wide)
    requires !wide(' ') && i < |r| && Fits(all, r, wide)
    ensures Width(LineTo(all, r, i, wide), wide) == Start(all, i, wide)
  {
    hide Width, ColumnWidth, CellText;
    if i == 0 {
      EmptyWidth(wide);
    } else {
      LineWidth(all, r, i - 1, wide);
      assert Width(r[i - 1], wide) <= ColumnWidth(all, i - 1, wide);
      CellWidth(all, r, i - 1, wide);
      WidthConcat(LineTo(all, r, i - 1, wide), CellText(all, r, i - 1, wide), wide);
    }
  }

  lemma EmptyWidth(wide: Wide)
    ensures Width("", wide) == 0
  {
  }

  lemma PrefixConcat(a: string, b: string, c: string)
    requires b <= c
    ensures a + b <= a + c
  {
  }

  lemma PrefixMore(a: string, b: string, c: string)
    requires a <= b
    ensures a <= b + c
  {
  }

  lemma CellStarts(all: seq<Row>, r: Row, i: nat, wide: Wide)
    requires i < |r|
    ensures r[i] <= CellText(all, r, i, wide)
  {
    hide Gap, Pad;
  }

  /** A line is its first cells and the rest. */
  lemma {:induction false} LinePrefix(all: seq<Row>, r: Row, i: nat, k: nat, wide: Wide)
    requires i < k <= |r|
    ensures LineTo(all, r, i, wide) + r[i] <= LineTo(all, r, k, wide)
  {
    hide CellText;
    if i + 1 < k {
      LinePrefix(all, r, i, k - 1, wide);
      PrefixMore(LineTo(all, r, i, wide) + r[i], LineTo(all, r, k - 1, wide), CellText(all, r, k - 1, wide));
    } else {
      CellStarts(all, r, i, wide);
      PrefixConcat(LineTo(all, r, i, wide), r[i], CellText(all, r, i, wide));
    }
  }

  /** Trimming a line never reaches into the text a cell shows. */
  lemma ShownTextStays(full: string, before: string, cell: string)
    requires before + cell <= full && TrimSpaces(cell) != ""
    ensures before + TrimSpaces(cell) <= TrimSpaces(full)
  {
    hide TrimSpaces;
    var text, line := TrimSpaces(cell), TrimSpaces(full);
    var n := |before| + |text|;
    assert full[n - 1] == (before + cell)[n - 1] == text[|text| - 1];
    assert n <= |line|;
    assert full[..n] == (before + cell)[..n] == before + text;
  }

  /** `text` stands in `line` after exactly `column` terminal columns. */
  ghost predicate StandsAt(line: string, text: string, column: nat, wide: Wide) {
    exists before: string :: before + text <= line && Width(before, wide) == column
  }

  /**
   Every line keeps what it shows in column: cell i of any row, without its own trailing spaces, stands in
   the written line after exactly Width(indent) + Start(i) columns, however wide the characters, and no
   line ends in a space.
   */
  lemma CellsAligned(all: seq<Row>, indent: string, m: nat, i: nat, wide: Wide)
    requires !wide(' ') && m < |all| && i < |all[m]|
    ensures var line := TableLine(all, indent, all[m], wide);
      var text := TrimSpaces(all[m][i]);
      && (line != "" ==> line[|line| - 1] != ' ')
      && (text != "" ==> StandsAt(line, text, Width(indent, wide) + Start(all, i, wide), wide))
  {
    hide Width, ColumnWidth, LineTo, TrimSpaces, Start;
    var r := all[m];
    var row, before := LineTo(all, r, |r|, wide), LineTo(all, r, i, wide);
    forall j | 0 <= j < |r|
      ensures Width(r[j], wide) <= ColumnWidth(all, j, wide)
    {
      CellFits(all, m, j, wide);
    }
    LineWidth(all, r, i, wide);
    WidthConcat(indent, before, wide);
    LinePrefix(all, r, i, |r|, wide);
    assert indent + before + r[i] == indent + (before + r[i]) <= indent + row;
    if TrimSpaces(r[i]) != "" {
      ShownTextStays(indent + row, indent + before, r[i]);
    }
  }

  // ---- a line in full ----

  /** A column is as wide as its widest cell, and no wider. */
  lemma {:induction false} ColumnWidthExactly(all: seq<Row>, i: nat, wide: Wide)
    ensures forall m | 0 <= m < |all| && i < |all[m]| :: Width(all[m][i], wide) <= ColumnWidth(all, i, wide)
    ensures ColumnWidth(all, i, wide) == 0 || exists m | 0 <= m < |all| && i < |all[m]| :: Width(all[m][i], wide) == ColumnWidth(all, i, wide)
  {
    if all != [] {
      var n := |all| - 1;
      ColumnWidthExactly(all[..n], i, wide);
      assert forall m | 0 <= m < n :: all[..n][m] == all[m];
    }
  }

  ghost function Spaces(n: nat): (s: string)
    ensures |s| == n && forall i | 0 <= i < n :: s[i] == ' '
  {
    seq(n, _ => ' ')
  }

  /** Cells and the number of spaces after each. */
  ghost function Laid(r: Row, pads: seq<nat>): string
    requires |r| == |pads|
  {
    if r == [] then ""
    else
      var n := |r| - 1;
      Laid(r[..n], pads[..n]) + r[n] + Spaces(pads[n])
  }

  /** The spaces after cell i: its column's width less its own and two more, none after the last cell. */
  ghost function PadAt(all: seq<Row>, r: Row, i: nat, wide: Wide): nat
    requires i < |r| && Width(r[i], wide) <= ColumnWidth(all, i, wide)
  {
    if i < |r| - 1 then ColumnWidth(all, i, wide) - Width(r[i], wide) + 2 else 0
  }

  ghost function Pads(all: seq<Row>, r: Row, k: nat, wide: Wide): (pads: seq<nat>)
    requires k <= |r| && Fits(all, r, wide)
    ensures |pads| == k
  {
    seq(k, i requires 0 <= i < k => PadAt(all, r, i, wide))
  }

  /** A line is the indent and the cells as they are with those spaces, less the spaces it would end in. */
  lemma LineInFull(all: seq<Row>, indent: string, m: nat, wide: Wide) returns (cut: nat)
    requires m < |all|
    ensures Fits(all, all[m], wide)
    ensures TableLine(all, indent, all[m], wide) + Spaces(cut) == indent + Laid(all[m], Pads(all, all[m], |all[m]|, wide))
  {
    var r := all[m];
    forall i | 0 <= i < |r|
      ensures Width(r[i], wide) <= ColumnWidth(all, i, wide)
    {
      CellFits(all, m, i, wide);
    }
    LaidTo(all, r, |r|, wide);
    assert r[..|r|] == r;
    hide Pads, Laid, LineTo, ColumnWidth, Width;
    var full := indent + LineTo(all, r, |r|, wide);
    cut := |full| - |TrimSpaces(full)|;
    assert full == TrimSpaces(full) + Spaces(cut);
  }

  lemma {:induction false} LaidTo(all: seq<Row>, r: Row, k: nat, wide: Wide)
    requires k <= |r| && Fits(all, r, wide)
    ensures LineTo(all, r, k, wide) == Laid(r[..k], Pads(all, r, k, wide))
  {
    hide Pads, Laid, LineTo, Fits;
    if k > 0 {
      LaidTo(all, r, k - 1, wide);
      LaidStep(all, r, k - 1, wide);
    } else {
      LaidNothing(all, r, wide);
    }
  }

  lemma LaidNothing(all: seq<Row>, r: Row, wide: Wide)
    requires Fits(all, r, wide)
    ensures LineTo(all, r, 0, wide) == Laid(r[..0], Pads(all, r, 0, wide))
  {
    assert r[..0] == [];
  }

  lemma LaidStep(all: seq<Row>, r: Row, n: nat, wide: Wide)
    requires n < |r| && Fits(all, r, wide)
    requires LineTo(all, r, n, wide) == Laid(r[..n], Pads(all, r, n, wide))
    ensures LineTo(all, r, n + 1, wide) == Laid(r[..n + 1], Pads(all, r, n + 1, wide))
  {
    hide Spaces, Pads, Laid, LineTo, PadAt, Fits, ColumnWidth, Width, CellText;
    FitsAt(all, r, n, wide);
    var cells, c, pads, pad := r[..n], r[n], Pads(all, r, n, wide), PadAt(all, r, n, wide);
    LineToMore(all, r, n, wide);
    PadsMore(all, r, n, wide);
    LaidMore(cells, c, pads, pad);
    assert r[..n + 1] == cells + [c];
  }

  lemma FitsAt(all: seq<Row>, r: Row, i: nat, wide: Wide)
    requires i < |r| && Fits(all, r, wide)
    ensures Width(r[i], wide) <= ColumnWidth(all, i, wide)
  {
  }

  lemma LineToMore(all: seq<Row>, r: Row, k: nat, wide: Wide)
    requires k < |r| && Width(r[k], wide) <= ColumnWidth(all, k, wide)
    ensures LineTo(all, r, k + 1, wide) == LineTo(all, r, k, wide) + r[k] + Spaces(PadAt(all, r, k, wide))
  {
    hide CellText, ColumnWidth, Width;
    CellAndSpaces(all, r, k, LineTo(all, r, k, wide), wide);
  }

  lemma PadsMore(all: seq<Row>, r: Row, k: nat, wide: Wide)
    requires k < |r| && Fits(all, r, wide)
    ensures Pads(all, r, k + 1, wide) == Pads(all, r, k, wide) + [PadAt(all, r, k, wide)]
  {
    hide PadAt;
  }

  lemma LaidMore(cells: Row, c: string, pads: seq<nat>, pad: nat)
    requires |pads| == |cells|
    ensures Laid(cells + [c], pads + [pad]) == Laid(cells, pads) + c + Spaces(pad)
  {
    assert (cells + [c])[..|cells|] == cells && (pads + [pad])[..|pads|] == pads;
  }

  lemma CellAndSpaces(all: seq<Row>, r: Row, i: nat, before: string, wide: Wide)
    requires i < |r| && Width(r[i], wide) <= ColumnWidth(all, i, wide)
    ensures before + CellText(all, r, i, wide) == before + r[i] + Spaces(PadAt(all, r, i, wide))
  {
    hide Width, ColumnWidth;
    assert Spaces(0) == "";
    assert CellText(all, r, i, wide) == r[i] + Spaces(PadAt(all, r, i, wide));
  }
}
