/** The arithmetic of draw_board and the image keys of load_piece_images: an 8x8 grid of
    50-unit squares on a 400x400 canvas, squares shaded by the parity of row + column, and
    each piece drawn at the top-left corner of its square with rank 8 at the top.
    Canvas calls become values (Rect, Placed) returned in the order they are issued;
    what the chess library says stands on each square is a parameter. */
module Render {

  const SquareSize: nat := 50
  const LightShade: string := "#f0d9b5"
  const DarkShade: string := "#b58863"
  /** The two fills, indexed by (row + col) % 2. */
  const Shades: seq<string> := [LightShade, DarkShade]

  /** The letters of the image keys, in the order load_piece_images walks them. */
  const KeyColors: seq<char> := ['w', 'b']
  const KeyPieces: seq<char> := ['p', 'r', 'n', 'b', 'q', 'k']

  datatype Option<T> = None | Some(value: T)

  datatype Color = White | Black
  datatype PieceType = Pawn | Knight | Bishop | Rook | Queen | King
  datatype Piece = Piece(color: Color, pieceType: PieceType)

  /** A filled rectangle from (x0, y0) to (x1, y1). */
  datatype Rect = Rect(x0: int, y0: int, x1: int, y1: int, fill: string)

  /** A piece image drawn with its north-west corner at (x, y). */
  datatype Placed = Placed(x: int, y: int, key: string)

  // ---------------------------------------------------------------- the grid

  /** The square drawn at grid row `row` (0 at the top) and column `col`. */
  function GridRect(row: nat, col: nat): (r: Rect)
    requires row < 8 && col < 8
    ensures 0 <= r.x0 && r.x1 <= 8 * SquareSize && 0 <= r.y0 && r.y1 <= 8 * SquareSize
    ensures r.x1 - r.x0 == SquareSize && r.y1 - r.y0 == SquareSize
    ensures r.fill == LightShade || r.fill == DarkShade
  {
    Rect(col * SquareSize, row * SquareSize, (col + 1) * SquareSize, (row + 1) * SquareSize,
         Shades[(row + col) % 2])
  }

  /** Neighbouring squares, across a row or down a column, get different shades,
      and the top-left square is light. */
  lemma ShadesAlternate(row: nat, col: nat)
    requires row < 8 && col < 8
    ensures col < 7 ==> GridRect(row, col).fill != GridRect(row, col + 1).fill
    ensures row < 7 ==> GridRect(row, col).fill != GridRect(row + 1, col).fill
    ensures GridRect(0, 0).fill == LightShade
  {
    if col < 7 {
      assert (row + col) % 2 != (row + col + 1) % 2;
    }
    if row < 7 {
      assert (row + col) % 2 != (row + 1 + col) % 2;
    }
  }

  /** Distinct grid cells cover distinct areas: the grid tiles the canvas. */
  lemma GridCellsDistinct(r1: nat, c1: nat, r2: nat, c2: nat)
    requires r1 < 8 && c1 < 8 && r2 < 8 && c2 < 8
    requires (r1, c1) != (r2, c2)
    ensures GridRect(r1, c1).x0 != GridRect(r2, c2).x0 || GridRect(r1, c1).y0 != GridRect(r2, c2).y0
  {
  }

  // ---------------------------------------------------------------- squares

  /** The x of the corner of square s (0 = a1, 63 = h8): its file times the square size. */
  function CornerX(s: nat): (x: int)
    requires s < 64
    ensures 0 <= x <= 7 * SquareSize && x % SquareSize == 0
  {
    (s % 8) * SquareSize
  }

  /** The y of the corner of square s: rank 8 at the top, rank 1 at the bottom. */
  function CornerY(s: nat): (y: int)
    requires s < 64
    ensures 0 <= y <= 7 * SquareSize && y % SquareSize == 0
  {
    (7 - s / 8) * SquareSize
  }

  /** The square whose piece is drawn at corner (x, y); the inverse of the corner mapping. */
  function SquareAt(x: int, y: int): int {
    8 * (7 - y / SquareSize) + x / SquareSize
  }

  lemma {:induction false} CornerRoundTrip(s: nat)
    requires s < 64
    ensures SquareAt(CornerX(s), CornerY(s)) == s
  {
    var file, rank := s % 8, s / 8;
    assert s == 8 * rank + file;
    assert CornerX(s) / SquareSize == file;
    assert CornerY(s) / SquareSize == 7 - rank;
  }

  /** No two squares share a corner, so no two pieces are drawn on top of each other. */
  lemma CornerInjective(s: nat, t: nat)
    requires s < 64 && t < 64 && s != t
    ensures CornerX(s) != CornerX(t) || CornerY(s) != CornerY(t)
  {
    CornerRoundTrip(s);
    CornerRoundTrip(t);
  }

  /** Rank 8 is drawn along the top edge and rank 1 along the bottom row. */
  lemma RanksTopToBottom(s: nat)
    requires s < 64
    ensures s / 8 == 7 ==> CornerY(s) == 0
    ensures s / 8 == 0 ==> CornerY(s) == 7 * SquareSize
  {
  }

  /** A piece is drawn at the top-left corner of the grid cell in row 7 - rank, column file;
      that cell is dark exactly when file + rank is even, so a1 is dark and h1 light. */
  lemma {:induction false} PieceSitsOnItsSquare(s: nat)
    requires s < 64
    ensures GridRect(7 - s / 8, s % 8).x0 == CornerX(s)
    ensures GridRect(7 - s / 8, s % 8).y0 == CornerY(s)
    ensures GridRect(7 - s / 8, s % 8).fill == DarkShade <==> (s % 8 + s / 8) % 2 == 0
  {
    var file, rank := s % 8, s / 8;
    assert (7 - rank + file) % 2 == 1 <==> (file + rank) % 2 == 0;
  }

  // ---------------------------------------------------------------- piece keys

  /** What the chess library's symbol() gives: upper case for White, lower case for Black. */
  function Symbol(p: Piece): char {
    var c := match p.pieceType
      case Pawn => 'p'
      case Knight => 'n'
      case Bishop => 'b'
      case Rook => 'r'
      case Queen => 'q'
      case King => 'k';
    if p.color == White then (c as int - 32) as char else c
  }

  /** ASCII lower case, as str.lower() on these letters. */
  function Lower(c: char): char {
    if 'A' <= c <= 'Z' then (c as int + 32) as char else c
  }

  function ColorLetter(c: Color): char {
    if c == White then 'w' else 'b'
  }

  /** The key draw_board looks a piece up under: colour letter, then lower-cased symbol. */
  function PieceKey(p: Piece): (k: string)
    ensures |k| == 2 && k[0] in KeyColors && k[1] in KeyPieces
  {
    [ColorLetter(p.color)] + [Lower(Symbol(p))]
  }

  /** Different pieces have different keys, so each piece finds its own image. */
  lemma PieceKeyInjective(p: Piece, q: Piece)
    requires p != q
    ensures PieceKey(p) != PieceKey(q)
  {
    if p.color == q.color {
      assert PieceKey(p)[1] != PieceKey(q)[1];
    } else {
      assert PieceKey(p)[0] != PieceKey(q)[0];
    }
  }

  /** The file an image is read from: colour letter, underscore, piece letter, ".png". */
  function PieceFile(p: Piece): (f: string)
    ensures f == PieceKey(p)[..1] + "_" + PieceKey(p)[1..] + ".png"
  {
    [ColorLetter(p.color)] + "_" + [Lower(Symbol(p))] + ".png"
  }

  /** The key and the file of the m-th image load_piece_images reads: colours in the outer
      loop, pieces in the inner one. */
  function KeyAt(m: nat): string
    requires m < 12
  {
    [KeyColors[m / 6]] + [KeyPieces[m % 6]]
  }

  function FileAt(m: nat): string
    requires m < 12
  {
    [KeyColors[m / 6]] + "_" + [KeyPieces[m % 6]] + ".png"
  }

  /** The table after the first n images are read. */
  function LoadedImages(n: nat): map<string, string>
    requires n <= 12
  {
    if n == 0 then map[] else LoadedImages(n - 1)[KeyAt(n - 1) := FileAt(n - 1)]
  }

  /** The position of a piece in the loader's walk; the key and file read there are the piece's. */
  function Ordinal(p: Piece): (m: nat)
    ensures m < 12 && KeyAt(m) == PieceKey(p) && FileAt(m) == PieceFile(p)
  {
    (if p.color == White then 0 else 6)
    + match p.pieceType
      case Pawn => 0
      case Rook => 1
      case Knight => 2
      case Bishop => 3
      case Queen => 4
      case King => 5
  }

  /** The piece read at position m of the loader's walk; the partner of Ordinal. */
  function PieceAt(m: nat): (p: Piece)
    requires m < 12
    ensures Ordinal(p) == m
  {
    Piece(if m < 6 then White else Black, [Pawn, Rook, Knight, Bishop, Queen, King][m % 6])
  }

  /** The twelve keys are pairwise distinct, so no image overwrites another. */
  lemma KeyAtInjective(m: nat, m': nat)
    requires m < 12 && m' < 12 && KeyAt(m) == KeyAt(m')
    ensures m == m'
  {
    assert KeyAt(m)[0] == KeyAt(m')[0] && KeyAt(m)[1] == KeyAt(m')[1];
    assert m == 6 * (m / 6) + m % 6 && m' == 6 * (m' / 6) + m' % 6;
  }

  /** After n images, the table holds exactly the first n keys, each with its own file. */
  lemma {:induction false} LoadedImagesContents(n: nat, m: nat)
    requires n <= 12 && m < 12
    ensures KeyAt(m) in LoadedImages(n) <==> m < n
    ensures m < n ==> LoadedImages(n)[KeyAt(m)] == FileAt(m)
    ensures forall k :: k in LoadedImages(n) ==> exists i :: 0 <= i < n && KeyAt(i) == k
    decreases n
  {
    if n != 0 {
      LoadedImagesContents(n - 1, m);
      if KeyAt(n - 1) == KeyAt(m) {
        KeyAtInjective(n - 1, m);
      }
    }
  }

  /** Once all twelve images are read, the table has one entry per piece, under that piece's
      key, read from that piece's file, and nothing else. */
  lemma LoadedImagesComplete()
    ensures forall p: Piece :: PieceKey(p) in LoadedImages(12) && LoadedImages(12)[PieceKey(p)] == PieceFile(p)
    ensures forall k :: k in LoadedImages(12) ==> exists p: Piece :: PieceKey(p) == k
  {
    forall p: Piece
      ensures PieceKey(p) in LoadedImages(12) && LoadedImages(12)[PieceKey(p)] == PieceFile(p)
    {
      LoadedImagesContents(12, Ordinal(p));
    }
    forall k | k in LoadedImages(12)
      ensures exists p: Piece :: PieceKey(p) == k
    {
      LoadedImagesContents(12, 0);
      var m :| 0 <= m < 12 && KeyAt(m) == k;
      assert PieceKey(PieceAt(m)) == k;
    }
  }

  /** load_piece_images, with each image given by the file it is read from: one entry per
      piece, under that piece's key, and nothing else. */
  method LoadPieceImages() returns (images: map<string, string>)
    ensures forall p: Piece :: PieceKey(p) in images && images[PieceKey(p)] == PieceFile(p)
    ensures forall k :: k in images ==> exists p: Piece :: PieceKey(p) == k
  {
    images := map[];
    var i, m := 0, 0;
    while i < |KeyColors|
      invariant 0 <= i <= 2 && m == 6 * i
      invariant images == LoadedImages(m)
    {
      var j := 0;
      while j < |KeyPieces|
        invariant 0 <= j <= 6 && m == 6 * i + j
        invariant images == LoadedImages(m)
      {
        assert m / 6 == i && m % 6 == j;
        images := images[[KeyColors[i]] + [KeyPieces[j]] := [KeyColors[i]] + "_" + [KeyPieces[j]] + ".png"];
        j, m := j + 1, m + 1;
      }
      i := i + 1;
    }
    assert m == 12 && images == LoadedImages(12);
    LoadedImagesComplete();
  }

  // ---------------------------------------------------------------- drawing

  /** The image draw_board places for piece p standing on square s. */
  function PieceImage(s: nat, p: Piece): Placed
    requires s < 64
  {
    Placed(CornerX(s), CornerY(s), PieceKey(p))
  }

  /** The images drawn for squares 0 .. n-1, in square order, skipping empty squares. */
  function PlacedPieces(position: seq<Option<Piece>>, n: nat): seq<Placed>
    requires |position| == 64 && n <= 64
  {
    if n == 0 then []
    else
      PlacedPieces(position, n - 1)
      + (if position[n - 1].Some? then [PieceImage(n - 1, position[n - 1].value)] else [])
  }

  /** An image of p at the corner of square s is drawn exactly when p stands on s. */
  lemma {:induction false} PlacedPiecesExact(position: seq<Option<Piece>>, n: nat, s: nat, p: Piece)
    requires |position| == 64 && n <= 64 && s < 64
    ensures PieceImage(s, p) in PlacedPieces(position, n) <==> s < n && position[s] == Some(p)
    decreases n
  {
    if n != 0 {
      PlacedPiecesExact(position, n - 1, s, p);
      if position[n - 1].Some? && PieceImage(n - 1, position[n - 1].value) == PieceImage(s, p) {
        if s != n - 1 {
          CornerInjective(s, n - 1);
        }
        if p != position[n - 1].value {
          PieceKeyInjective(p, position[n - 1].value);
        }
      }
    }
  }

  /** Every image drawn is the image of the piece on some occupied square. */
  lemma {:induction false} PlacedPiecesSound(position: seq<Option<Piece>>, n: nat, i: nat)
    requires |position| == 64 && n <= 64 && i < |PlacedPieces(position, n)|
    ensures exists s :: 0 <= s < n && position[s].Some? && PlacedPieces(position, n)[i] == PieceImage(s, position[s].value)
    decreases n
  {
    if i < |PlacedPieces(position, n - 1)| {
      PlacedPiecesSound(position, n - 1, i);
    } else {
      assert PlacedPieces(position, n)[i] == PieceImage(n - 1, position[n - 1].value);
    }
  }

  /** draw_board: the 64 shaded squares row by row, then one image per occupied square,
      where position[s] is the piece the chess library reports on square s. */
  method DrawBoard(position: seq<Option<Piece>>) returns (rects: seq<Rect>, images: seq<Placed>)
    requires |position| == 64
    ensures |rects| == 64
    ensures forall row, col :: 0 <= row < 8 && 0 <= col < 8 ==> rects[8 * row + col] == GridRect(row, col)
    ensures images == PlacedPieces(position, 64)
    ensures forall s, p :: 0 <= s < 64 ==> (PieceImage(s, p) in images <==> position[s] == Some(p))
  {
    rects := [];
    var row := 0;
    while row < 8
      invariant 0 <= row <= 8
      invariant |rects| == 8 * row
      invariant forall r, c :: 0 <= r < row && 0 <= c < 8 ==> rects[8 * r + c] == GridRect(r, c)
    {
      var col := 0;
      while col < 8
        invariant 0 <= col <= 8
        invariant |rects| == 8 * row + col
        invariant forall r, c :: 0 <= r < row && 0 <= c < 8 ==> rects[8 * r + c] == GridRect(r, c)
        invariant forall c :: 0 <= c < col ==> rects[8 * row + c] == GridRect(row, c)
      {
        rects := rects + [GridRect(row, col)];
        col := col + 1;
      }
      row := row + 1;
    }
    images := [];
    var square := 0;
    while square < 64
      invariant 0 <= square <= 64
      invariant images == PlacedPieces(position, square)
    {
      if position[square].Some? {
        images := images + [PieceImage(square, position[square].value)];
      }
      square := square + 1;
    }
    forall s, p | 0 <= s < 64
      ensures PieceImage(s, p) in images <==> position[s] == Some(p)
    {
      PlacedPiecesExact(position, 64, s, p);
    }
  }
}
