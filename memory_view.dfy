/** `DisplayMemory`: the first `length` cells of the tape as fixed-width text, ten cells per
    row; each row starts on a new line with the index of its first cell, and the cell under
    the pointer is drawn as `|>v  <|` instead of `| v   |`. */
module MemoryView {
  import opened JsText

  /** The text that opens the row starting at cell `i`: a newline, the index padded to 5, and a
      colon with 7 spaces (14 characters). */
  function Header(i: nat): string {
    "\n" + PadEnd(NatToString(i), 5) + ":       "
  }

  /** The text of one cell holding `v`, the value padded to 3 between two two-character
      borders (7 characters); `marked` when the pointer is on it. */
  function Cell(v: byte, marked: bool): string {
    if marked then "|>" + PadEnd(NatToString(v), 3) + "<|"
    else "| " + PadEnd(NatToString(v), 3) + " |"
  }

  /** The text the loop adds for cell `i`: the row header when the cell opens a row, then
      the cell, marked when it is the pointer's. */
  function Piece(mem: seq<byte>, p: int, i: nat): string
    requires i < |mem|
  {
    (if i % 10 == 0 then Header(i) else "") + Cell(mem[i], i == p)
  }

  /** The texts the loop adds for the first `n` cells, in order. */
  function Pieces(mem: seq<byte>, p: int, n: nat): (parts: seq<string>)
    requires n <= |mem|
    ensures |parts| == n
  {
    seq(n, i requires 0 <= i < n <= |mem| => Piece(mem, p, i))
  }

  /** The texts of `parts` one after another. */
  function Concat(parts: seq<string>): string {
    if |parts| == 0 then "" else Concat(parts[..|parts| - 1]) + parts[|parts| - 1]
  }

  /** The view of the first `n` cells of `mem` with the pointer at `p`. */
  function Render(mem: seq<byte>, p: int, n: nat): string
    requires n <= |mem|
  {
    Concat(Pieces(mem, p, n))
  }

  /** The number of cells the loop `for (i = 0; i < length; i++)` visits: none for a negative
      length or NaN. */
  function CellCount(length: Number): nat {
    if length.Int? && length.value > 0 then length.value else 0
  }

  /** Where cell `i` begins in the view: after `i` cells and the headers of the rows up to and
      including its own. */
  function CellStart(i: nat): nat {
    7 * i + 14 * (i / 10 + 1)
  }

  /** The view of the first `length` cells, built by the source's loop. The source reads past
      the end of the tape (and throws) when `length` exceeds its size, so that is excluded. */
  method DisplayMemory(memory: array<byte>, pointer: int, length: Number) returns (m: string)
    requires CellCount(length) <= memory.Length
    ensures m == Render(memory[..], pointer, CellCount(length))
  {
    ghost var mem := memory[..];
    m := "";
    var i := 0;
    while LessThan(i, length)
      invariant 0 <= i <= CellCount(length)
      invariant m == Render(mem, pointer, i)
      decreases CellCount(length) - i
    {
      assert memory[i] == mem[i];
      ghost var before, header := m, if i % 10 == 0 then Header(i) else "";
      if i % 10 == 0 {
        m := m + Header(i);
      }
      assert m == before + header;
      if i == pointer {
        m := m + Cell(memory[i], true);
      } else {
        m := m + Cell(memory[i], false);
      }
      RenderStep(mem, pointer, i, before, header, m);
      i := i + 1;
    }
    assert i == CellCount(length);
  }

  /** Appending the row header when due and then the cell extends the view by one cell. */
  lemma RenderStep(mem: seq<byte>, p: int, i: nat, before: string, header: string, m: string)
    requires i < |mem| && before == Render(mem, p, i)
    requires header == if i % 10 == 0 then Header(i) else ""
    requires m == before + header + Cell(mem[i], i == p)
    ensures m == Render(mem, p, i + 1)
  {
    var cell := Cell(mem[i], i == p);
    assert Piece(mem, p, i) == header + cell;
    RenderExtend(mem, p, i);
    Associative(before, header, cell);
  }

  /** The view of one more cell is the view so far followed by that cell's text. */
  lemma RenderExtend(mem: seq<byte>, p: int, i: nat)
    requires i < |mem|
    ensures Render(mem, p, i + 1) == Render(mem, p, i) + Piece(mem, p, i)
  {
    PiecesPrefix(mem, p, i, i + 1);
    ConcatAppend(Pieces(mem, p, i), Piece(mem, p, i), Pieces(mem, p, i + 1));
  }

  /** Concatenation is associative. RenderStep calls it rather than asserting the equation
      itself, where the string literals of the header and the cell make it costly. */
  lemma Associative(a: string, b: string, c: string)
    ensures a + b + c == a + (b + c)
  {
  }

  /** The first `k` of the pieces of `n` cells are the pieces of `k` cells. */
  lemma PiecesPrefix(mem: seq<byte>, p: int, k: nat, n: nat)
    requires k <= n <= |mem|
    ensures Pieces(mem, p, n)[..k] == Pieces(mem, p, k)
  {
  }

  /** Adding a part at the end adds its text at the end. */
  lemma ConcatAppend(parts: seq<string>, last: string, all: seq<string>)
    requires |all| > 0 && all[..|all| - 1] == parts && all[|all| - 1] == last
    ensures Concat(all) == Concat(parts) + last
  {
  }

  /** A value of a cell takes at most 3 digits and an index below 100000 at most 5, so every
      cell is 7 characters and every row header 14. */
  lemma PieceWidths(v: byte, marked: bool, i: nat)
    requires i < 100000
    ensures |Cell(v, marked)| == 7
    ensures |Header(i)| == 14
  {
    assert Pow10(3) == 1000 && Pow10(5) == 100000;
    NatToStringWidth(v, 3);
    NatToStringWidth(i, 5);
  }

  /** The text for one cell is 7 characters, and 14 more when it opens a row. */
  lemma PieceLength(mem: seq<byte>, p: int, i: nat)
    requires i < |mem| && i < 100000
    ensures |Piece(mem, p, i)| == 7 + (if i % 10 == 0 then 14 else 0)
  {
    PieceWidths(mem[i], i == p, i);
  }

  /** One more cell adds 7 characters, and 14 more when it starts a new row. */
  lemma RowsArith(n: nat)
    requires n >= 1
    ensures 7 * n + 14 * ((n + 9) / 10) == 7 * (n - 1) + 14 * ((n + 8) / 10) + 7 + (if (n - 1) % 10 == 0 then 14 else 0)
  {
    assert (n + 9) / 10 == (n + 8) / 10 + (if (n - 1) % 10 == 0 then 1 else 0);
  }

  /** The view of `n` cells is 7 characters per cell plus 14 per started row of ten. */
  lemma {:induction false} RenderLength(mem: seq<byte>, p: int, n: nat)
    requires n <= |mem| && n <= 100000
    ensures |Render(mem, p, n)| == 7 * n + 14 * ((n + 9) / 10)
  {
    if n > 0 {
      RenderLength(mem, p, n - 1);
      RenderExtend(mem, p, n - 1);
      PieceLength(mem, p, n - 1);
      RowsArith(n);
    }
  }

  /** The view of `i` cells plus the header of cell `i`'s row, if it opens one, is `CellStart(i)` long. */
  lemma CellStartArith(i: nat)
    ensures 7 * i + 14 * ((i + 9) / 10) + (if i % 10 == 0 then 14 else 0) == CellStart(i)
  {
    assert (i + 9) / 10 + (if i % 10 == 0 then 1 else 0) == i / 10 + 1;
  }

  /** The cells before cell `i` and its own row header end where cell `i` starts. */
  lemma CellOffset(mem: seq<byte>, p: int, i: nat)
    requires i < |mem| && i < 100000
    ensures |Render(mem, p, i)| + (if i % 10 == 0 then 14 else 0) == CellStart(i)
  {
    RenderLength(mem, p, i);
    PieceWidths(0, false, i);
    CellStartArith(i);
  }

  /** A shorter view is the beginning of a longer one. */
  lemma RenderPrefix(mem: seq<byte>, p: int, k: nat, n: nat)
    requires k <= n <= |mem|
    ensures Render(mem, p, k) <= Render(mem, p, n)
  {
    PiecesPrefix(mem, p, k, n);
    ConcatPrefix(Pieces(mem, p, n), k);
  }

  /** The texts of the first `k` parts begin the texts of all parts. */
  lemma {:induction false} ConcatPrefix(parts: seq<string>, k: nat)
    requires k <= |parts|
    ensures Concat(parts[..k]) <= Concat(parts)
    decreases |parts|
  {
    if k < |parts| {
      var front := parts[..|parts| - 1];
      ConcatPrefix(front, k);
      assert front[..k] == parts[..k];
      assert Concat(front) <= Concat(front) + parts[|parts| - 1];
    } else {
      assert parts[..k] == parts;
    }
  }

  /** A text that begins with `u` is `u` followed by the rest. */
  lemma PrefixSplit(u: string, m: string)
    requires u <= m
    ensures m == u + m[|u|..]
  {
  }

  /** In a text that begins with `before`, an optional 14-character header and a 7-character
      cell, the cell sits right after `before` and the header, and the header right before it. */
  lemma Layout(m: string, before: string, opens: bool, header: string, cell: string, offset: nat)
    requires before + (if opens then header else "") + cell == m
    requires |before| + (if opens then 14 else 0) == offset
    requires |header| == 14 && |cell| == 7
    ensures offset + 7 == |m|
    ensures m[offset..offset + 7] == cell
    ensures opens ==> m[offset - 14..offset] == header
  {
    PiecesAt(m, before, if opens then header else "", cell, offset);
  }

  /** The pieces of a text that begins with `before + header + cell` are found at their offsets. */
  lemma PiecesAt(m: string, before: string, header: string, cell: string, offset: nat)
    requires before + header + cell <= m
    requires |before| + |header| == offset
    ensures offset + |cell| <= |m|
    ensures m[offset..offset + |cell|] == cell
    ensures m[offset - |header|..offset] == header
  {
    var u := before + header + cell;
    assert m[offset - |header|..offset] == u[|before|..|before| + |header|];
    assert m[offset..offset + |cell|] == u[offset..|u|];
  }

  /** Cell `i` sits at `CellStart(i)`, drawn with its value and marked exactly when it is the
      pointer's cell; when it opens a row, the 14 characters before it are that row's header. */
  lemma CellLayout(mem: seq<byte>, p: int, n: nat, i: nat)
    requires n <= |mem| && n <= 100000 && i < n
    ensures CellStart(i) + 7 <= |Render(mem, p, n)|
    ensures Render(mem, p, n)[CellStart(i)..CellStart(i) + 7] == Cell(mem[i], i == p)
    ensures i % 10 == 0 ==> Render(mem, p, n)[CellStart(i) - 14..CellStart(i)] == Header(i)
  {
    LastCell(mem, p, i);
    RenderPrefix(mem, p, i + 1, n);
    PrefixSplit(Render(mem, p, i + 1), Render(mem, p, n));
    var rest := Render(mem, p, n)[|Render(mem, p, i + 1)|..];
    SliceOfConcat(Render(mem, p, i + 1), rest, Render(mem, p, n), CellStart(i), CellStart(i) + 7, Cell(mem[i], i == p));
    if i % 10 == 0 {
      SliceOfConcat(Render(mem, p, i + 1), rest, Render(mem, p, n), CellStart(i) - 14, CellStart(i), Header(i));
    }
  }

  /** A slice of a prefix is the same slice of the whole text. */
  lemma SliceOfConcat(u: string, rest: string, m: string, lo: nat, hi: nat, w: string)
    requires m == u + rest && lo <= hi <= |u| && u[lo..hi] == w
    ensures hi <= |m| && m[lo..hi] == w
  {
    assert m[lo..hi] == u[lo..hi];
  }

  /** The view of cells `0..i` ends with cell `i`, preceded by its row header when it opens a
      row. */
  lemma LastCell(mem: seq<byte>, p: int, i: nat)
    requires i < |mem| && i < 100000
    ensures |Render(mem, p, i + 1)| == CellStart(i) + 7
    ensures Render(mem, p, i + 1)[CellStart(i)..CellStart(i) + 7] == Cell(mem[i], i == p)
    ensures i % 10 == 0 ==> Render(mem, p, i + 1)[CellStart(i) - 14..CellStart(i)] == Header(i)
  {
    var before := Render(mem, p, i);
    var header := if i % 10 == 0 then Header(i) else "";
    RenderStep(mem, p, i, before, header, before + header + Cell(mem[i], i == p));
    CellOffset(mem, p, i);
    PieceWidths(mem[i], i == p, i);
    Layout(Render(mem, p, i + 1), before, i % 10 == 0, Header(i), Cell(mem[i], i == p), CellStart(i));
  }

  /** The number of occurrences of `c` in `s`. */
  function Count(c: char, s: string): nat {
    if |s| == 0 then 0 else Count(c, s[..|s| - 1]) + (if s[|s| - 1] == c then 1 else 0)
  }

  /** The occurrences in two texts together are those of each added up. */
  lemma CountConcat(c: char, a: string, b: string)
    ensures Count(c, a + b) == Count(c, a) + Count(c, b)
    decreases |b|
  {
    if |b| > 0 {
      assert (a + b)[..|a + b| - 1] == a + b[..|b| - 1];
      CountConcat(c, a, b[..|b| - 1]);
    } else {
      assert a + b == a;
    }
  }

  /** A text none of whose characters is `c` holds no `c`. */
  lemma CountAbsent(c: char, s: string)
    requires forall k :: 0 <= k < |s| ==> s[k] != c
    ensures Count(c, s) == 0
  {
    if |s| > 0 {
      CountAbsent(c, s[..|s| - 1]);
    }
  }

  /** A cell holds a `>` exactly when it is marked. */
  lemma CellMarkers(v: byte, marked: bool)
    ensures Count('>', Cell(v, marked)) == if marked then 1 else 0
  {
    var value := PadEnd(NatToString(v), 3);
    CountAbsent('>', value);
    if marked {
      assert Count('>', "|>") == 1 by {
        assert "|>"[..1] == "|";
        assert "|"[..0] == "";
      }
      CountAbsent('>', "<|");
      CountConcat('>', "|>", value);
      CountConcat('>', "|>" + value, "<|");
    } else {
      CountAbsent('>', "| ");
      CountAbsent('>', " |");
      CountConcat('>', "| ", value);
      CountConcat('>', "| " + value, " |");
    }
  }

  /** A row header holds no `>`. */
  lemma HeaderMarkers(i: nat)
    ensures Count('>', Header(i)) == 0
  {
    var index := PadEnd(NatToString(i), 5);
    CountAbsent('>', index);
    CountAbsent('>', "\n");
    CountAbsent('>', ":       ");
    CountConcat('>', "\n", index);
    CountConcat('>', "\n" + index, ":       ");
  }

  /** The text for cell `i` holds a `>` exactly when the pointer is on it. */
  lemma PieceMarkers(mem: seq<byte>, p: int, i: nat)
    requires i < |mem|
    ensures Count('>', Piece(mem, p, i)) == if i == p then 1 else 0
  {
    var header := if i % 10 == 0 then Header(i) else "";
    CellMarkers(mem[i], i == p);
    if i % 10 == 0 {
      HeaderMarkers(i);
    } else {
      CountAbsent('>', header);
    }
    CountConcat('>', header, Cell(mem[i], i == p));
  }

  /** Exactly one cell of the view is marked when the pointer is among the shown cells, and
      none otherwise: the view holds one `>` or none. */
  lemma OneMarkIffPointerShown(mem: seq<byte>, p: int, n: nat)
    requires n <= |mem|
    ensures Count('>', Render(mem, p, n)) == if 0 <= p < n then 1 else 0
  {
    var parts := Pieces(mem, p, n);
    forall i | 0 <= i < n
      ensures Count('>', parts[i]) == if i == p then 1 else 0
    {
      PieceMarkers(mem, p, i);
    }
    CountParts('>', parts, p);
  }

  /** When every part holds no `c` except part `j`, which holds one, all parts together hold
      one `c` if part `j` exists and none otherwise. */
  lemma {:induction false} CountParts(c: char, parts: seq<string>, j: int)
    requires forall i :: 0 <= i < |parts| ==> Count(c, parts[i]) == if i == j then 1 else 0
    ensures Count(c, Concat(parts)) == if 0 <= j < |parts| then 1 else 0
    decreases |parts|
  {
    if |parts| > 0 {
      var front := parts[..|parts| - 1];
      CountParts(c, front, j);
      CountConcat(c, Concat(front), parts[|parts| - 1]);
    }
  }
}
