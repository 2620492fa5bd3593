/**
 * Placement of seat stickers on the pages of the sticker PDF: a 4 x 6 grid of
 * 130-point stickers with 10-point gaps inside a 20-point margin. Drawing, QR
 * rasterisation and file output are not modelled; what is kept is where each
 * sticker goes, on which page, and which URL its QR code carries.
 */
module QrStickers {

  const Domain: string := "http://192.168.0.14:3333/seat"
  const PageMargin: int := 20
  const Cols: int := 4
  const Rows: int := 6
  const StickerWidth: int := 130
  const StickerHeight: int := 130
  const GapX: int := 10
  const GapY: int := 10
  /** Stickers per page. */
  const PerPage: int := Cols * Rows

  /** One placed sticker: its seat, QR payload, top-left corner and 0-based page. */
  datatype Sticker = Sticker(seatId: string, url: string, x: int, y: int, page: nat)

  /** The text encoded in a seat's QR code. */
  function QrPayload(seatId: string): (url: string)
    ensures |url| == |Domain| + 1 + |seatId|
    ensures url[..|Domain| + 1] == Domain + "/" && url[|Domain| + 1..] == seatId
  {
    Domain + "/" + seatId
  }

  /** Where the `k`-th sticker (0-based) goes: column `k mod 4`, row `(k div 4) mod 6`, page `k div 24`. */
  function StickerFor(seatId: string, k: nat): (s: Sticker)
    ensures s.seatId == seatId && s.url == QrPayload(seatId) && s.page == k / PerPage
    ensures PageMargin <= s.x <= PageMargin + (Cols - 1) * (StickerWidth + GapX)
    ensures PageMargin <= s.y <= PageMargin + (Rows - 1) * (StickerHeight + GapY)
  {
    Sticker(seatId, QrPayload(seatId),
            PageMargin + (k % Cols) * (StickerWidth + GapX),
            PageMargin + ((k / Cols) % Rows) * (StickerHeight + GapY),
            k / PerPage)
  }

  /** The counters (page, row, col) of the loop are the mixed-radix digits of the sticker index. */
  lemma GridPosition(k: nat, page: nat, row: int, col: int)
    requires 0 <= col < Cols && 0 <= row < Rows
    requires k == page * PerPage + row * Cols + col
    ensures k % Cols == col && (k / Cols) % Rows == row && k / PerPage == page
  {
    assert k == (page * Rows + row) * Cols + col;
    assert k / Cols == page * Rows + row;
  }

  /** Every index is its page, row and column read back in mixed radix. */
  lemma Decompose(k: nat)
    ensures k == (k / PerPage) * PerPage + ((k / Cols) % Rows) * Cols + k % Cols
  {
    var q := k / Cols;
    assert k == q * Cols + k % Cols;
    assert q == (q / Rows) * Rows + q % Rows;
    assert k == (q / Rows) * PerPage + (q % Rows) * Cols + k % Cols;
    assert 0 <= (q % Rows) * Cols + k % Cols < PerPage;
  }

  /** Two stickers on the same page never overlap: they start at different grid cells, 140 points apart. */
  lemma SamePageDistinctCells(s1: string, s2: string, k1: nat, k2: nat)
    requires k1 != k2 && k1 / PerPage == k2 / PerPage
    ensures StickerFor(s1, k1).x != StickerFor(s2, k2).x || StickerFor(s1, k1).y != StickerFor(s2, k2).y
  {
    Decompose(k1);
    Decompose(k2);
  }

  /**
   * The placement loop of `generate`: `col` and `row` advance per sticker, a
   * full row wraps to the next one, and a full page adds a new page (also
   * after the very last sticker when the count is a multiple of 24).
   */
  method Generate(seats: seq<string>) returns (stickers: seq<Sticker>, pages: nat)
    ensures |stickers| == |seats|
    ensures forall k :: 0 <= k < |seats| ==> stickers[k] == StickerFor(seats[k], k)
    ensures pages == 1 + |seats| / PerPage
  {
    var col, row := 0, 0;
    pages := 1;
    stickers := [];
    for i := 0 to |seats|
      invariant |stickers| == i && pages >= 1
      invariant 0 <= col < Cols && 0 <= row < Rows
      invariant i == (pages - 1) * PerPage + row * Cols + col
      invariant forall k :: 0 <= k < i ==> stickers[k] == StickerFor(seats[k], k)
    {
      GridPosition(i, pages - 1, row, col);
      var x := PageMargin + col * (StickerWidth + GapX);
      var y := PageMargin + row * (StickerHeight + GapY);
      stickers := stickers + [Sticker(seats[i], QrPayload(seats[i]), x, y, pages - 1)];
      col := col + 1;
      if col >= Cols {
        col := 0;
        row := row + 1;
        if row >= Rows {
          row := 0;
          pages := pages + 1;
        }
      }
    }
    GridPosition(|seats|, pages - 1, row, col);
  }
}
