/** The board of the game (the `Board` and `WordPosition` structs): a
    row-major grid of tiles with a parallel grid of owner codes, and the
    position of the word the current player placed last. */
module Boards {
  import opened Common

  /** Origin, length and orientation of the current player's last word. */
  datatype WordPosition = WordPosition(x: int, y: int, length: int, horizontal: bool)

  /** `Tiles` and `PlayerMask` are indexed by `x + y * Width`. An owner code
      is 0 for no player, 1 for the current player and 2 or more for another
      player. */
  datatype Board = Board(width: int, height: int, tiles: seq<char>, mask: seq<nat>, pos: WordPosition)

  predicate WellFormed(b: Board)
  {
    0 <= b.width && 0 <= b.height &&
    |b.tiles| == b.width * b.height && |b.mask| == b.width * b.height
  }

  predicate InGrid(b: Board, x: int, y: int)
  {
    0 <= x < b.width && 0 <= y < b.height
  }

  /** The anchor word lies inside the grid; this is what the search needs of
      `PlayerPosition` to stay within the arrays. */
  predicate AnchorInGrid(b: Board)
  {
    var p := b.pos;
    0 <= p.length &&
    if p.horizontal then 0 <= p.y < b.height && 0 <= p.x && p.x + p.length <= b.width
    else 0 <= p.x < b.width && 0 <= p.y && p.y + p.length <= b.height
  }

  function Tile(b: Board, x: int, y: int): char
    requires WellFormed(b) && InGrid(b, x, y)
  {
    b.tiles[Cell(x, y, b.width, b.height)]
  }

  function Owner(b: Board, x: int, y: int): nat
    requires WellFormed(b) && InGrid(b, x, y)
  {
    b.mask[Cell(x, y, b.width, b.height)]
  }

  /** Row y of the tile grid. */
  function Row(b: Board, y: int): (r: seq<char>)
    requires WellFormed(b) && 0 <= y < b.height
    ensures |r| == b.width
  {
    RowPrefix(b, y, b.width)
  }

  /** The first n cells of row y of the tile grid. */
  function RowPrefix(b: Board, y: int, n: int): (r: seq<char>)
    requires WellFormed(b) && 0 <= y < b.height && 0 <= n <= b.width
    ensures |r| == n
  {
    if n == 0 then [] else RowPrefix(b, y, n - 1) + [Tile(b, n - 1, y)]
  }

  /** Column x of the tile grid. */
  function Column(b: Board, x: int): (c: seq<char>)
    requires WellFormed(b) && 0 <= x < b.width
    ensures |c| == b.height
  {
    ColumnPrefix(b, x, b.height)
  }

  /** The first n cells of column x of the tile grid. */
  function ColumnPrefix(b: Board, x: int, n: int): (c: seq<char>)
    requires WellFormed(b) && 0 <= x < b.width && 0 <= n <= b.height
    ensures |c| == n
  {
    if n == 0 then [] else ColumnPrefix(b, x, n - 1) + [Tile(b, x, n - 1)]
  }

  /** Row y of the owner grid. */
  function MaskRow(b: Board, y: int): (r: seq<nat>)
    requires WellFormed(b) && 0 <= y < b.height
    ensures |r| == b.width
  {
    MaskRowPrefix(b, y, b.width)
  }

  /** The first n cells of row y of the owner grid. */
  function MaskRowPrefix(b: Board, y: int, n: int): (r: seq<nat>)
    requires WellFormed(b) && 0 <= y < b.height && 0 <= n <= b.width
    ensures |r| == n
  {
    if n == 0 then [] else MaskRowPrefix(b, y, n - 1) + [Owner(b, n - 1, y)]
  }

  /** Column x of the owner grid. */
  function MaskColumn(b: Board, x: int): (c: seq<nat>)
    requires WellFormed(b) && 0 <= x < b.width
    ensures |c| == b.height
  {
    MaskColumnPrefix(b, x, b.height)
  }

  /** The first n cells of column x of the owner grid. */
  function MaskColumnPrefix(b: Board, x: int, n: int): (c: seq<nat>)
    requires WellFormed(b) && 0 <= x < b.width && 0 <= n <= b.height
    ensures |c| == n
  {
    if n == 0 then [] else MaskColumnPrefix(b, x, n - 1) + [Owner(b, x, n - 1)]
  }

  /** Cell x of row y is the tile at (x, y). */
  lemma RowAt(b: Board, y: int, x: int)
    requires WellFormed(b) && 0 <= y < b.height && 0 <= x < b.width
    ensures Row(b, y)[x] == Tile(b, x, y)
  {
    RowPrefixAt(b, y, b.width, x);
  }

  lemma {:induction false} RowPrefixAt(b: Board, y: int, n: int, x: int)
    requires WellFormed(b) && 0 <= y < b.height && 0 <= x < n <= b.width
    ensures RowPrefix(b, y, n)[x] == Tile(b, x, y)
    decreases n
  {
    if x < n - 1 {
      RowPrefixAt(b, y, n - 1, x);
    }
  }

  /** Cell y of column x is the tile at (x, y). */
  lemma ColumnAt(b: Board, x: int, y: int)
    requires WellFormed(b) && 0 <= x < b.width && 0 <= y < b.height
    ensures Column(b, x)[y] == Tile(b, x, y)
  {
    ColumnPrefixAt(b, x, b.height, y);
  }

  lemma {:induction false} ColumnPrefixAt(b: Board, x: int, n: int, y: int)
    requires WellFormed(b) && 0 <= x < b.width && 0 <= y < n <= b.height
    ensures ColumnPrefix(b, x, n)[y] == Tile(b, x, y)
    decreases n
  {
    if y < n - 1 {
      ColumnPrefixAt(b, x, n - 1, y);
    }
  }

  /** Cell x of owner row y is the owner of (x, y). */
  lemma MaskRowAt(b: Board, y: int, x: int)
    requires WellFormed(b) && 0 <= y < b.height && 0 <= x < b.width
    ensures MaskRow(b, y)[x] == Owner(b, x, y)
  {
    MaskRowPrefixAt(b, y, b.width, x);
  }

  lemma {:induction false} MaskRowPrefixAt(b: Board, y: int, n: int, x: int)
    requires WellFormed(b) && 0 <= y < b.height && 0 <= x < n <= b.width
    ensures MaskRowPrefix(b, y, n)[x] == Owner(b, x, y)
    decreases n
  {
    if x < n - 1 {
      MaskRowPrefixAt(b, y, n - 1, x);
    }
  }

  /** Cell y of owner column x is the owner of (x, y). */
  lemma MaskColumnAt(b: Board, x: int, y: int)
    requires WellFormed(b) && 0 <= x < b.width && 0 <= y < b.height
    ensures MaskColumn(b, x)[y] == Owner(b, x, y)
  {
    MaskColumnPrefixAt(b, x, b.height, y);
  }

  lemma {:induction false} MaskColumnPrefixAt(b: Board, x: int, n: int, y: int)
    requires WellFormed(b) && 0 <= x < b.width && 0 <= y < n <= b.height
    ensures MaskColumnPrefix(b, x, n)[y] == Owner(b, x, y)
    decreases n
  {
    if y < n - 1 {
      MaskColumnPrefixAt(b, x, n - 1, y);
    }
  }

  // -------------------------------------------------------------------- bomb

  /** The blast of a bomb: the half-open rectangle
      [X - 3, X + 4 + (L - 1 if horizontal)) x [Y - 2, Y + 4 + (L - 1 if vertical))
      around the anchor, clamped to the grid. */
  predicate InBlast(b: Board, x: int, y: int)
  {
    var p := b.pos;
    Max(0, p.x - 3) <= x < Min(b.width, p.x + 4 + (if p.horizontal then p.length - 1 else 0)) &&
    Max(0, p.y - 2) <= y < Min(b.height, p.y + 4 + (if p.horizontal then 0 else p.length - 1))
  }

  /** The cell at index k is cleared by a bomb: it is in the blast and no
      player owns it. */
  predicate Cleared(b: Board, k: int)
    requires WellFormed(b) && 0 <= k < |b.tiles|
  {
    assert b.width != 0;
    InBlast(b, k % b.width, k / b.width) && b.mask[k] == 0
  }

  /** The board after a bomb: every unowned cell of the blast is blank. */
  function Bombed(b: Board): (r: Board)
    requires WellFormed(b)
    ensures WellFormed(r)
  {
    b.(tiles := seq(|b.tiles|, k requires 0 <= k < |b.tiles| => if Cleared(b, k) then Blank else b.tiles[k]))
  }

  /** `Board.Bomb`: copies the tiles and blanks the unowned cells of the
      blast; the owner grid and the anchor are shared with the input. */
  method Bomb(b: Board) returns (r: Board)
    requires WellFormed(b)
    ensures r == Bombed(b)
  {
    var n := |b.tiles|;
    var bombed := new char[n](k requires 0 <= k < n => b.tiles[k]);
    var p := b.pos;
    var xFrom := Max(0, p.x - 3);
    var xTo := Min(b.width, p.x + 4 + (if p.horizontal then p.length - 1 else 0));
    var yFrom := Max(0, p.y - 2);
    var yTo := Min(b.height, p.y + 4 + (if p.horizontal then 0 else p.length - 1));
    var x := xFrom;
    while x < xTo
      invariant xFrom <= x || xTo <= xFrom
      invariant forall k :: 0 <= k < n ==> bombed[k] == (if Cleared(b, k) && k % b.width < x then Blank else b.tiles[k])
    {
      var y := yFrom;
      while y < yTo
        invariant yFrom <= y || yTo <= yFrom
        invariant forall k :: 0 <= k < n ==>
          bombed[k] == (if Cleared(b, k) && (k % b.width < x || (k % b.width == x && k / b.width < y)) then Blank else b.tiles[k])
      {
        CellInGrid(x, y, b.width, b.height);
        var index := x + y * b.width;
        CellCoordinates(x, y, b.width);
        if b.mask[index] == 0 {
          bombed[index] := Blank;
        }
        forall k | 0 <= k < n && k != index
          ensures (k % b.width == x && k / b.width == y) == false
        {
          IndexInGrid(k, b.width, b.height);
        }
        y := y + 1;
      }
      x := x + 1;
    }
    r := Board(b.width, b.height, bombed[..], b.mask, b.pos);
  }

  /** What a bomb does to one cell. */
  lemma BombedCell(b: Board, x: int, y: int)
    requires WellFormed(b) && InGrid(b, x, y)
    ensures Tile(Bombed(b), x, y) == if InBlast(b, x, y) && Owner(b, x, y) == 0 then Blank else Tile(b, x, y)
    ensures Owner(Bombed(b), x, y) == Owner(b, x, y)
  {
    CellInGrid(x, y, b.width, b.height);
    CellCoordinates(x, y, b.width);
  }

  /** A second bomb at the same anchor changes nothing more. */
  lemma BombIdempotent(b: Board)
    requires WellFormed(b)
    ensures Bombed(Bombed(b)) == Bombed(b)
  {
    var once := Bombed(b);
    assert Bombed(once).tiles == once.tiles;
  }

  /** The owner grid, the anchor and the size survive a bomb, and so does
      every tile a player owns. */
  lemma BombKeepsOwnedTiles(b: Board, x: int, y: int)
    requires WellFormed(b) && InGrid(b, x, y) && Owner(b, x, y) != 0
    ensures Tile(Bombed(b), x, y) == Tile(b, x, y)
    ensures Bombed(b).mask == b.mask && Bombed(b).pos == b.pos
    ensures Bombed(b).width == b.width && Bombed(b).height == b.height
  {
    BombedCell(b, x, y);
  }

  /** A horizontal anchor of length 3 at (5, 5) on a 12 x 12 board: the
      blast covers columns 2 to 10 and rows 3 to 8; column 11 and row 9
      lie outside it because both upper bounds are exclusive. */
  lemma BombBlastExample(b: Board)
    requires WellFormed(b) && b.width == 12 && b.height == 12
    requires b.pos == WordPosition(5, 5, 3, true)
    ensures forall x, y :: InGrid(b, x, y) ==> (InBlast(b, x, y) <==> 2 <= x <= 10 && 3 <= y <= 8)
    ensures !InBlast(b, 11, 5) && !InBlast(b, 5, 9)
  {
  }

  // -------------------------------------------------------------------- load

  datatype LoadError = UnevenLines | RaggedLines | NoLines | InvalidLetter | InvalidMask

  /** The model reads ASCII files: `char.ToLower` and `char.IsLetter` are
      modelled on ASCII only. */
  predicate Ascii(lines: seq<string>)
  {
    forall i, k :: 0 <= i < |lines| && 0 <= k < |lines[i]| ==> lines[i][k] as int < 128
  }

  /** All lines have the length of the first one. */
  predicate SameLengths(lines: seq<string>)
  {
    forall i :: 0 <= i < |lines| ==> |lines[i]| == |lines[0]|
  }

  /** Two stacked grids of equal width, the letters above the owners. */
  predicate Shaped(lines: seq<string>)
  {
    |lines| % 2 == 0 && |lines| > 0 && SameLengths(lines)
  }

  /** `char.IsLetter(char.ToLower(c)) || char.ToLower(c) == '_'` on ASCII. */
  predicate TileChar(c: char) { IsLower(Lower(c)) || Lower(c) == Blank }

  predicate IsDigit(c: char) { '0' <= c <= '9' }

  /** `byte.Parse` of a one-character string. */
  function DigitValue(c: char): nat
    requires IsDigit(c)
  {
    c as int - '0' as int
  }

  function LinesWidth(lines: seq<string>): int requires |lines| > 0 { |lines[0]| }

  function LinesHeight(lines: seq<string>): int { |lines| / 2 }

  predicate InLines(lines: seq<string>, x: int, y: int)
    requires Shaped(lines)
  {
    0 <= x < LinesWidth(lines) && 0 <= y < LinesHeight(lines)
  }

  /** The letter written for cell (x, y): line y, column x. */
  function LetterAt(lines: seq<string>, x: int, y: int): char
    requires Shaped(lines) && InLines(lines, x, y)
  {
    lines[y][x]
  }

  /** The owner digit written for cell (x, y): line y + Height, column x. */
  function DigitAt(lines: seq<string>, x: int, y: int): char
    requires Shaped(lines) && InLines(lines, x, y)
  {
    lines[y + LinesHeight(lines)][x]
  }

  /** The letter and the owner digit of a cell are both readable. */
  predicate CellReadable(lines: seq<string>, x: int, y: int)
    requires Shaped(lines) && InLines(lines, x, y)
  {
    TileChar(LetterAt(lines, x, y)) && IsDigit(DigitAt(lines, x, y))
  }

  /** The cell is owned by the current player (digit '1'). */
  predicate Own(lines: seq<string>, x: int, y: int)
    requires Shaped(lines) && InLines(lines, x, y)
  {
    DigitAt(lines, x, y) == '1'
  }

  /** Cells are read column by column: (x', y') comes before (x, y). */
  predicate Before(x': int, y': int, x: int, y: int)
  {
    x' < x || (x' == x && y' < y)
  }

  /** Number of owned cells read before (x, y). */
  function OwnBefore(lines: seq<string>, x: int, y: int): nat
    requires Shaped(lines) && 0 <= x <= LinesWidth(lines) && 0 <= y <= LinesHeight(lines)
    requires x < LinesWidth(lines) || y == 0
    decreases x, y
  {
    if y > 0 then OwnBefore(lines, x, y - 1) + (if Own(lines, x, y - 1) then 1 else 0)
    else if x > 0 then OwnBefore(lines, x - 1, LinesHeight(lines))
    else 0
  }

  function OwnCount(lines: seq<string>): nat
    requires Shaped(lines)
  {
    OwnBefore(lines, LinesWidth(lines), 0)
  }

  /** (x, y) is an owned cell and no owned cell is read after it. */
  ghost predicate LastOwned(lines: seq<string>, x: int, y: int)
    requires Shaped(lines)
  {
    InLines(lines, x, y) && Own(lines, x, y) &&
    forall x', y' :: InLines(lines, x', y') && Own(lines, x', y') ==> !Before(x, y, x', y')
  }

  /** How `Load` derives `PlayerPosition`: the smallest x and the smallest y
      of the owned cells (the width and the height when there are none),
      their number, and horizontal exactly when the last owned cell read
      lies on the topmost owned row. */
  ghost predicate AnchorFrom(lines: seq<string>, p: WordPosition)
    requires Shaped(lines)
  {
    var w, h := LinesWidth(lines), LinesHeight(lines);
    p.length == OwnCount(lines) &&
    (forall x, y :: InLines(lines, x, y) && Own(lines, x, y) ==> p.x <= x && p.y <= y) &&
    ((forall x, y :: InLines(lines, x, y) ==> !Own(lines, x, y)) ==> p.x == w && p.y == h) &&
    (p.x == w || exists x, y :: InLines(lines, x, y) && Own(lines, x, y) && x == p.x) &&
    (p.y == h || exists x, y :: InLines(lines, x, y) && Own(lines, x, y) && y == p.y) &&
    (p.horizontal <==> exists x :: LastOwned(lines, x, p.y))
  }

  /** The board read from `lines`: its size, each cell's lower-cased letter
      and owner digit, and its anchor. */
  ghost predicate LoadedFrom(lines: seq<string>, b: Board)
    requires Shaped(lines)
  {
    b.width == LinesWidth(lines) && b.height == LinesHeight(lines) && WellFormed(b) &&
    (forall x, y :: InLines(lines, x, y) ==>
       CellReadable(lines, x, y) &&
       Tile(b, x, y) == Lower(LetterAt(lines, x, y)) && Owner(b, x, y) == DigitValue(DigitAt(lines, x, y))) &&
    AnchorFrom(lines, b.pos)
  }

  /** The first unreadable cell in reading order is (x, y). */
  ghost predicate FirstUnreadable(lines: seq<string>, x: int, y: int)
    requires Shaped(lines)
  {
    InLines(lines, x, y) && !CellReadable(lines, x, y) &&
    forall x', y' :: InLines(lines, x', y') && Before(x', y', x, y) ==> CellReadable(lines, x', y')
  }

  /** One cell of `Load`'s scan applied to the anchor being derived. */
  function ScanCell(p: WordPosition, x: int, y: int, own: bool): WordPosition
  {
    if own then
      var q := p.(x := Min(p.x, x), y := Min(p.y, y), length := p.length + 1);
      q.(horizontal := y == q.y)
    else p
  }

  /** The anchor after scanning the cells read before (x, y). */
  function AnchorAfter(lines: seq<string>, x: int, y: int): WordPosition
    requires Shaped(lines) && 0 <= x <= LinesWidth(lines) && 0 <= y <= LinesHeight(lines)
    requires x < LinesWidth(lines) || y == 0
    decreases x, y
  {
    if y > 0 then ScanCell(AnchorAfter(lines, x, y - 1), x, y - 1, Own(lines, x, y - 1))
    else if x > 0 then AnchorAfter(lines, x - 1, LinesHeight(lines))
    else WordPosition(LinesWidth(lines), LinesHeight(lines), 0, false)
  }

  /** The anchor's length counts the owned cells read so far. */
  lemma {:induction false} AnchorLength(lines: seq<string>, x: int, y: int)
    requires Shaped(lines) && 0 <= x <= LinesWidth(lines) && 0 <= y <= LinesHeight(lines)
    requires x < LinesWidth(lines) || y == 0
    ensures AnchorAfter(lines, x, y).length == OwnBefore(lines, x, y)
    decreases x, y
  {
    if y > 0 {
      AnchorLength(lines, x, y - 1);
    } else if x > 0 {
      AnchorLength(lines, x - 1, LinesHeight(lines));
    }
  }

  /** What the scan has established about anchor `p` after the cells before
      (x, y), with witnesses: an owned cell in column p.x, one in row p.y,
      and the last owned cell read. */
  ghost predicate Witnessed(lines: seq<string>, x: int, y: int, p: WordPosition,
                            seen: bool, ax: int, ay: int, cx: int, cy: int, lx: int, ly: int)
    requires Shaped(lines)
  {
    (forall x', y' :: InLines(lines, x', y') && Before(x', y', x, y) && Own(lines, x', y') ==>
       seen && p.x <= x' && p.y <= y' && ((x' == lx && y' == ly) || Before(x', y', lx, ly))) &&
    (!seen ==> p.x == LinesWidth(lines) && p.y == LinesHeight(lines) && !p.horizontal) &&
    (seen ==> InLines(lines, lx, ly) && Own(lines, lx, ly) && p.horizontal == (ly == p.y)) &&
    (seen ==> InLines(lines, ax, ay) && Own(lines, ax, ay) && ax == p.x) &&
    (seen ==> InLines(lines, cx, cy) && Own(lines, cx, cy) && cy == p.y)
  }

  /** Scanning cell (x, y) keeps the witnesses of the anchor. */
  lemma AnchorScanCell(lines: seq<string>, x: int, y: int, p: WordPosition,
                       seen: bool, ax: int, ay: int, cx: int, cy: int, lx: int, ly: int)
    returns (seen': bool, ax': int, ay': int, cx': int, cy': int, lx': int, ly': int)
    requires Shaped(lines) && InLines(lines, x, y)
    requires Witnessed(lines, x, y, p, seen, ax, ay, cx, cy, lx, ly)
    ensures Witnessed(lines, x, y + 1, ScanCell(p, x, y, Own(lines, x, y)), seen', ax', ay', cx', cy', lx', ly')
  {
    seen', ax', ay', cx', cy', lx', ly' := seen, ax, ay, cx, cy, lx, ly;
    if Own(lines, x, y) {
      if x < p.x { ax', ay' := x, y; }
      if y < p.y { cx', cy' := x, y; }
      seen', lx', ly' := true, x, y;
    }
  }

  /** The scan's witnesses for the cells before (x, y). */
  lemma {:induction false} AnchorScan(lines: seq<string>, x: int, y: int)
    returns (seen: bool, ax: int, ay: int, cx: int, cy: int, lx: int, ly: int)
    requires Shaped(lines) && 0 <= x <= LinesWidth(lines) && 0 <= y <= LinesHeight(lines)
    requires x < LinesWidth(lines) || y == 0
    ensures Witnessed(lines, x, y, AnchorAfter(lines, x, y), seen, ax, ay, cx, cy, lx, ly)
    decreases x, y
  {
    if y > 0 {
      seen, ax, ay, cx, cy, lx, ly := AnchorScan(lines, x, y - 1);
      seen, ax, ay, cx, cy, lx, ly := AnchorScanCell(lines, x, y - 1, AnchorAfter(lines, x, y - 1), seen, ax, ay, cx, cy, lx, ly);
    } else if x > 0 {
      seen, ax, ay, cx, cy, lx, ly := AnchorScan(lines, x - 1, LinesHeight(lines));
      assert forall x', y' :: InLines(lines, x', y') ==> (Before(x', y', x, 0) <==> Before(x', y', x - 1, LinesHeight(lines)));
    } else {
      seen, ax, ay, cx, cy, lx, ly := false, 0, 0, 0, 0, 0, 0;
    }
  }

  /** The anchor `Load` computes meets the declarative description. */
  lemma AnchorAfterMeetsSpec(lines: seq<string>)
    requires Shaped(lines)
    ensures AnchorFrom(lines, AnchorAfter(lines, LinesWidth(lines), 0))
  {
    var seen, ax, ay, cx, cy, lx, ly := AnchorScan(lines, LinesWidth(lines), 0);
    AnchorLength(lines, LinesWidth(lines), 0);
    var p := AnchorAfter(lines, LinesWidth(lines), 0);
    assert forall x', y' :: InLines(lines, x', y') ==> Before(x', y', LinesWidth(lines), 0);
    if seen {
      assert LastOwned(lines, lx, ly);
      forall x | LastOwned(lines, x, p.y)
        ensures ly == p.y
      {
        assert (x == lx && p.y == ly) || Before(x, p.y, lx, ly);
      }
    }
  }

  /** The cells read before (x, y) are readable and stored lower-cased,
      with their owner digits, at their index in `tiles` and `mask`. */
  ghost predicate CellsLoaded(lines: seq<string>, tiles: seq<char>, mask: seq<nat>, x: int, y: int)
    requires Shaped(lines)
  {
    var w, h := LinesWidth(lines), LinesHeight(lines);
    |tiles| == w * h && |mask| == w * h &&
    forall x', y' :: InLines(lines, x', y') && Before(x', y', x, y) ==>
      CellReadable(lines, x', y') && tiles[Cell(x', y', w, h)] == Lower(LetterAt(lines, x', y')) &&
      mask[Cell(x', y', w, h)] == DigitValue(DigitAt(lines, x', y'))
  }

  /** `Board.Load` with the file already read into `lines`. */
  method Load(lines: seq<string>) returns (r: Result<Board, LoadError>)
    requires Ascii(lines)
    ensures r == Err(UnevenLines) <==> |lines| % 2 != 0
    ensures r == Err(RaggedLines) <==> |lines| % 2 == 0 && !SameLengths(lines)
    ensures r == Err(NoLines) <==> |lines| == 0
    ensures r.Ok? <==> Shaped(lines) && forall x, y :: InLines(lines, x, y) ==> CellReadable(lines, x, y)
    ensures r == Err(InvalidLetter) ==>
      Shaped(lines) && exists x, y :: FirstUnreadable(lines, x, y) && !TileChar(LetterAt(lines, x, y))
    ensures r == Err(InvalidMask) ==>
      Shaped(lines) && exists x, y :: FirstUnreadable(lines, x, y) && TileChar(LetterAt(lines, x, y))
    ensures r.Ok? ==> Shaped(lines) && LoadedFrom(lines, r.value)
  {
    if |lines| % 2 != 0 {
      return Err(UnevenLines);
    }
    if !SameLengths(lines) {
      return Err(RaggedLines);
    }
    if |lines| == 0 {
      return Err(NoLines);
    }
    var w := |lines[0]|;
    var h := |lines| / 2;
    var tiles := new char[w * h];
    var mask := new nat[w * h];
    var pos := WordPosition(w, h, 0, false);
    var x := 0;
    while x < w
      invariant 0 <= x <= w
      invariant CellsLoaded(lines, tiles[..], mask[..], x, 0)
      invariant pos == AnchorAfter(lines, x, 0)
    {
      var err;
      err, pos := LoadColumn(lines, x, tiles, mask, pos);
      if err.Some? {
        return Err(err.value);
      }
      x := x + 1;
    }
    var b := Board(w, h, tiles[..], mask[..], pos);
    LoadedAll(lines, b);
    r := Ok(b);
  }

  /** Once every column is read, the board holds every cell of `lines` and
      the anchor the scan derived. */
  lemma LoadedAll(lines: seq<string>, b: Board)
    requires Shaped(lines) && b.width == LinesWidth(lines) && b.height == LinesHeight(lines)
    requires CellsLoaded(lines, b.tiles, b.mask, b.width, 0) && b.pos == AnchorAfter(lines, b.width, 0)
    ensures LoadedFrom(lines, b) && forall x, y :: InLines(lines, x, y) ==> CellReadable(lines, x, y)
  {
    assert forall x', y' :: InLines(lines, x', y') ==> Before(x', y', b.width, 0);
    AnchorAfterMeetsSpec(lines);
  }

  /** One column of `Load`'s scan: cells (x, 0) to (x, h - 1) in turn, each
      stored or the first unreadable one reported. */
  method LoadColumn(lines: seq<string>, x: int, tiles: array<char>, mask: array<nat>, pos0: WordPosition)
    returns (err: Option<LoadError>, pos: WordPosition)
    requires Ascii(lines) && Shaped(lines) && 0 <= x < LinesWidth(lines)
    requires CellsLoaded(lines, tiles[..], mask[..], x, 0) && pos0 == AnchorAfter(lines, x, 0)
    modifies tiles, mask
    ensures err.None? ==> CellsLoaded(lines, tiles[..], mask[..], x + 1, 0) && pos == AnchorAfter(lines, x + 1, 0)
    ensures err == Some(InvalidLetter) || err == Some(InvalidMask) || err == None
    ensures err.Some? ==>
      exists y :: FirstUnreadable(lines, x, y) && (err == Some(InvalidLetter) <==> !TileChar(LetterAt(lines, x, y)))
  {
    var w, h := LinesWidth(lines), LinesHeight(lines);
    pos := pos0;
    var y := 0;
    while y < h
      invariant 0 <= y <= h
      invariant CellsLoaded(lines, tiles[..], mask[..], x, y)
      invariant pos == AnchorAfter(lines, x, y)
    {
      var index := Cell(x, y, w, h);
      forall x', y' | InLines(lines, x', y') && Before(x', y', x, y)
        ensures Cell(x', y', w, h) != index
      {
        if Cell(x', y', w, h) == index {
          CellInjective(x, y, x', y', w, h);
        }
      }
      var t := Lower(LetterAt(lines, x, y));
      tiles[index] := t;
      if !(IsLower(t) || t == Blank) {
        assert FirstUnreadable(lines, x, y);
        return Some(InvalidLetter), pos;
      }
      var m := DigitAt(lines, x, y);
      if !IsDigit(m) {
        assert FirstUnreadable(lines, x, y);
        return Some(InvalidMask), pos;
      }
      mask[index] := DigitValue(m);
      if mask[index] == 1 {
        pos := pos.(x := Min(pos.x, x), y := Min(pos.y, y), length := pos.length + 1);
        pos := pos.(horizontal := y == pos.y);
      }
      y := y + 1;
    }
    err := None;
  }

  /** An anchor whose owned cells all lie in one row is horizontal, and that
      row is the anchor's row. */
  lemma SingleRowAnchorIsHorizontal(lines: seq<string>, p: WordPosition, row: int, x0: int)
    requires Shaped(lines) && AnchorFrom(lines, p)
    requires InLines(lines, x0, row) && Own(lines, x0, row)
    requires forall x, y :: InLines(lines, x, y) && Own(lines, x, y) ==> y == row
    ensures p.horizontal && p.y == row
  {
    var last := x0;
    var x := x0 + 1;
    while x < LinesWidth(lines)
      invariant x0 <= last < x <= LinesWidth(lines)
      invariant Own(lines, last, row)
      invariant forall x' :: last < x' < x ==> !Own(lines, x', row)
    {
      if Own(lines, x, row) { last := x; }
      x := x + 1;
    }
    assert LastOwned(lines, last, row);
  }

  /** An anchor of two or more owned cells stacked in one column is vertical
      and starts at the topmost of them. */
  lemma ColumnAnchorIsVertical(lines: seq<string>, p: WordPosition, col: int, top: int, n: int)
    requires Shaped(lines) && AnchorFrom(lines, p)
    requires 2 <= n && 0 <= col < LinesWidth(lines) && 0 <= top && top + n <= LinesHeight(lines)
    requires forall x, y :: InLines(lines, x, y) ==> (Own(lines, x, y) <==> x == col && top <= y < top + n)
    ensures !p.horizontal && p.x == col && p.y == top
  {
    assert Own(lines, col, top) && Own(lines, col, top + 1);
    forall x | InLines(lines, x, p.y) && Own(lines, x, p.y)
      ensures !LastOwned(lines, x, p.y)
    {
      assert Before(x, p.y, col, top + 1) && Own(lines, col, top + 1);
    }
  }

  // ------------------------------------------------------ hand mask display

  /** The letters of the bits 0 to n - 1 set in a mask, in alphabetical
      order. */
  function MaskLetters(m: Mask, n: nat): (s: string)
    requires n <= Alphabet
    ensures |s| <= n
  {
    if n == 0 then ""
    else MaskLetters(m, n - 1) + (if n - 1 in m then [Chr(n - 1)] else "")
  }

  /** The letters shown for a mask are exactly the letters of its bits, each
      once and in alphabetical order, so reading them back gives the mask
      restricted to a-z. */
  lemma MaskLettersExact(m: Mask, n: nat)
    requires n <= Alphabet
    ensures IsWord(MaskLetters(m, n))
    ensures forall k :: 0 <= k < |MaskLetters(m, n)| ==> Index(MaskLetters(m, n)[k]) in m && Index(MaskLetters(m, n)[k]) < n
    ensures forall k, j :: 0 <= k < j < |MaskLetters(m, n)| ==> MaskLetters(m, n)[k] < MaskLetters(m, n)[j]
    ensures LetterMask(MaskLetters(m, n)) == set i | 0 <= i < n && i in m
  {
    MaskLettersOrdered(m, n);
    MaskLettersBits(m, n);
  }

  /** The letters shown are letters of bits below n, in increasing order. */
  lemma {:induction false} MaskLettersOrdered(m: Mask, n: nat)
    requires n <= Alphabet
    ensures IsWord(MaskLetters(m, n))
    ensures forall k :: 0 <= k < |MaskLetters(m, n)| ==> Index(MaskLetters(m, n)[k]) in m && Index(MaskLetters(m, n)[k]) < n
    ensures forall k, j :: 0 <= k < j < |MaskLetters(m, n)| ==> MaskLetters(m, n)[k] < MaskLetters(m, n)[j]
  {
    if n > 0 {
      MaskLettersOrdered(m, n - 1);
      var s := MaskLetters(m, n - 1);
      var t := MaskLetters(m, n);
      assert t[..|s|] == s;
    }
  }

  /** Every bit below n has its letter shown, and no other letter is. */
  lemma {:induction false} MaskLettersBits(m: Mask, n: nat)
    requires n <= Alphabet
    ensures IsWord(MaskLetters(m, n))
    ensures LetterMask(MaskLetters(m, n)) == set i | 0 <= i < n && i in m
  {
    MaskLettersOrdered(m, n);
    if n > 0 {
      MaskLettersBits(m, n - 1);
      var s := MaskLetters(m, n - 1);
      if n - 1 in m {
        LetterMaskAppend(s, Chr(n - 1));
      } else {
        assert MaskLetters(m, n) == s;
      }
    }
  }

  /** One more letter adds its bit to the mask of a word. */
  lemma LetterMaskAppend(w: string, c: char)
    requires IsWord(w) && IsLower(c)
    ensures IsWord(w + [c]) && LetterMask(w + [c]) == LetterMask(w) + {Index(c)}
  {
    var v := w + [c];
    forall i | i in LetterMask(v)
      ensures i in LetterMask(w) + {Index(c)}
    {
      var k :| 0 <= k < |v| && i == Index(v[k]);
      if k < |w| { assert v[k] == w[k]; }
    }
    forall i | i in LetterMask(w)
      ensures i in LetterMask(v)
    {
      var k :| 0 <= k < |w| && i == Index(w[k]);
      assert v[k] == w[k];
    }
    assert v[|w|] == c;
  }

  /** A mask with all 26 letter bits shows 26 letters. */
  lemma FullMaskShowsAllLetters(m: Mask)
    requires forall i :: 0 <= i < Alphabet ==> i in m
    ensures |MaskLetters(m, Alphabet)| == Alphabet
  {
    FullPrefix(m, Alphabet);
  }

  lemma {:induction false} FullPrefix(m: Mask, n: nat)
    requires n <= Alphabet && forall i :: 0 <= i < n ==> i in m
    ensures |MaskLetters(m, n)| == n
  {
    if n > 0 { FullPrefix(m, n - 1); }
  }

  /** `Board.FormatHandBitmask` as written: its result buffer has
      'z' - 'a' = 25 slots, so a mask with all 26 letters fails with an
      index fault (None). */
  method FormatHandBitmask(bitmask: Mask) returns (r: Option<string>)
    ensures r.None? <==> |MaskLetters(bitmask, Alphabet)| > Alphabet - 1
    ensures r.Some? ==> r.value == MaskLetters(bitmask, Alphabet)
  {
    var result := new char[Alphabet - 1];
    var letterCount := 0;
    for i := 0 to Alphabet
      invariant letterCount == |MaskLetters(bitmask, i)| <= result.Length
      invariant result[..letterCount] == MaskLetters(bitmask, i)
    {
      if i in bitmask {
        if letterCount == result.Length {
          // MaskLetters only grows from here on
          MaskLettersGrow(bitmask, i + 1, Alphabet);
          return None;
        }
        result[letterCount] := Chr(i);
        letterCount := letterCount + 1;
      }
    }
    r := Some(result[..letterCount]);
  }

  lemma {:induction false} MaskLettersGrow(m: Mask, n: nat, n': nat)
    requires n <= n' <= Alphabet
    ensures |MaskLetters(m, n)| <= |MaskLetters(m, n')|
  {
    if n < n' { MaskLettersGrow(m, n, n' - 1); }
  }

  /** `FormatHandBitmask` with the 26-slot buffer the alphabet needs. */
  method FormatHandBitmaskFixed(bitmask: Mask) returns (s: string)
    ensures s == MaskLetters(bitmask, Alphabet)
  {
    var result := new char[Alphabet];
    var letterCount := 0;
    for i := 0 to Alphabet
      invariant letterCount == |MaskLetters(bitmask, i)| <= i
      invariant result[..letterCount] == MaskLetters(bitmask, i)
    {
      if i in bitmask {
        result[letterCount] := Chr(i);
        letterCount := letterCount + 1;
      }
    }
    s := result[..letterCount];
  }
}
