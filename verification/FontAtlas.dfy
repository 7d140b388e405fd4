/** Packing glyph images into a font atlas, row by row. The atlas size is a parameter. */
module FontAtlas {

  import Modular

  type Pixel = bv8

  datatype Glyph = Glyph(width: nat, height: nat, pixels: seq<Pixel>)

  datatype Rec = Rec(x: int, y: int, width: int, height: int)

  datatype Spot = Spot(x: int, y: int)

  datatype Atlas = Atlas(width: nat, height: nat, fontSize: nat, padding: nat)

  function Area(width: nat, height: nat): nat {
    width * height
  }

  // ---- Layout ----

  /** Where the next glyph would go if it fits the row. */
  function CursorAt(a: Atlas, glyphs: seq<Glyph>, k: nat): Spot
    requires k <= |glyphs|
    decreases k, 0
  {
    if k == 0 then Spot(a.padding, a.padding)
    else
      var before := SpotOf(a, glyphs, k - 1);
      Spot(before.x + glyphs[k - 1].width + 2 * a.padding, before.y)
  }

  predicate StartsRow(a: Atlas, glyphs: seq<Glyph>, k: nat)
    requires k < |glyphs|
    decreases k, 1
  {
    CursorAt(a, glyphs, k).x >= a.width - glyphs[k].width - 2 * a.padding
  }

  /** Where glyph k goes. */
  function SpotOf(a: Atlas, glyphs: seq<Glyph>, k: nat): Spot
    requires k < |glyphs|
    decreases k, 2
  {
    var c := CursorAt(a, glyphs, k);
    if StartsRow(a, glyphs, k) then Spot(a.padding, c.y + RowHeight(a)) else c
  }

  function RowHeight(a: Atlas): nat {
    a.fontSize + 2 * a.padding
  }

  /** The new row that glyph k starts does not fit the atlas any more. */
  predicate Overflows(a: Atlas, glyphs: seq<Glyph>, k: nat)
    requires k < |glyphs|
  {
    StartsRow(a, glyphs, k) && SpotOf(a, glyphs, k).y > a.height - a.fontSize - a.padding
  }

  /** The glyphs up to number k have all been placed. */
  ghost predicate NoneOverflows(a: Atlas, glyphs: seq<Glyph>, k: nat)
    requires k < |glyphs|
  {
    forall i :: 0 <= i <= k ==> !Overflows(a, glyphs, i)
  }

  /** What the packer needs to stay inside the atlas and to keep its rows apart: no glyph too wide, none
      higher than the distance of the rows, and none that reaches below the atlas where it is put. */
  ghost predicate Packable(a: Atlas, glyphs: seq<Glyph>) {
    && 3 <= a.width && 3 <= a.height && a.padding <= a.width
    && (forall i :: 0 <= i < |glyphs| ==>
          && glyphs[i].width <= a.width - a.padding && glyphs[i].height <= RowHeight(a)
          && |glyphs[i].pixels| == Area(glyphs[i].width, glyphs[i].height))
    && (forall k :: 0 <= k < |glyphs| && NoneOverflows(a, glyphs, k) ==>
          SpotOf(a, glyphs, k).y + glyphs[k].height <= a.height)
  }

  function RecOf(a: Atlas, glyphs: seq<Glyph>, k: nat): Rec
    requires k < |glyphs|
  {
    Rec(SpotOf(a, glyphs, k).x, SpotOf(a, glyphs, k).y, glyphs[k].width, glyphs[k].height)
  }

  predicate Inside(r: Rec, x: int, y: int) {
    r.x <= x < r.x + r.width && r.y <= y < r.y + r.height
  }

  predicate InCorner(a: Atlas, x: int, y: int) {
    a.width - 3 <= x < a.width && a.height - 3 <= y < a.height
  }

  predicate InAtlas(a: Atlas, x: int, y: int) {
    0 <= x < a.width && 0 <= y < a.height
  }

  /** A later glyph is further right in the same row, or in a later row. */
  lemma {:induction false} SpotsApart(a: Atlas, glyphs: seq<Glyph>, i: nat, j: nat)
    requires i < j < |glyphs|
    ensures var p, q := SpotOf(a, glyphs, i), SpotOf(a, glyphs, j);
            p.y + RowHeight(a) <= q.y || (p.y == q.y && p.x + glyphs[i].width + 2 * a.padding <= q.x)
    decreases j
  {
    if i < j - 1 {
      SpotsApart(a, glyphs, i, j - 1);
    }
  }

  /** No two packed glyphs share a place. */
  lemma RecsDisjoint(a: Atlas, glyphs: seq<Glyph>, i: nat, j: nat, x: int, y: int)
    requires i < j < |glyphs| && glyphs[i].height <= RowHeight(a)
    ensures !(Inside(RecOf(a, glyphs, i), x, y) && Inside(RecOf(a, glyphs, j), x, y))
  {
    SpotsApart(a, glyphs, i, j);
    hide SpotOf;
  }

  lemma {:induction false} SpotBounds(a: Atlas, glyphs: seq<Glyph>, k: nat)
    requires k < |glyphs| && (forall i :: 0 <= i < |glyphs| ==> glyphs[i].width <= a.width - a.padding)
    requires NoneOverflows(a, glyphs, k)
    ensures var p := SpotOf(a, glyphs, k);
            && a.padding <= p.x && p.x + glyphs[k].width <= a.width && a.padding <= p.y
            && (RowHeight(a) <= a.height ==> p.y <= a.height - a.fontSize - a.padding)
    decreases k
  {
    if k > 0 {
      SpotBounds(a, glyphs, k - 1);
    }
    assert !Overflows(a, glyphs, k);
  }

  /** A packed glyph lies inside the atlas. */
  lemma RecBounds(a: Atlas, glyphs: seq<Glyph>, k: nat, x: int, y: int)
    requires Packable(a, glyphs) && k < |glyphs| && NoneOverflows(a, glyphs, k) && Inside(RecOf(a, glyphs, k), x, y)
    ensures InAtlas(a, x, y)
  {
    SpotBounds(a, glyphs, k);
    hide SpotOf, NoneOverflows;
  }

  /** Sizes that can be checked beforehand. */
  predicate Roomy(a: Atlas, glyphs: seq<Glyph>) {
    && 3 <= a.width && 3 <= a.height && a.padding <= a.width && RowHeight(a) <= a.height
    && forall i :: 0 <= i < |glyphs| ==>
         && glyphs[i].width <= a.width - a.padding && glyphs[i].height <= RowHeight(a)
         && |glyphs[i].pixels| == Area(glyphs[i].width, glyphs[i].height)
  }

  /** Glyphs that are higher than the font by no more than the padding do not reach below the atlas. */
  lemma LowGlyphsArePackable(a: Atlas, glyphs: seq<Glyph>)
    requires Roomy(a, glyphs) && forall i :: 0 <= i < |glyphs| ==> glyphs[i].height <= a.fontSize + a.padding
    ensures Packable(a, glyphs)
  {
    hide NoneOverflows, SpotOf;
    forall k | 0 <= k < |glyphs| && NoneOverflows(a, glyphs, k) ensures SpotOf(a, glyphs, k).y
      + glyphs[k].height <= a.height {
      SpotBounds(a, glyphs, k);
    }
  }

  /** With three rows less than that they are clear of the white corner as well. */
  lemma ClearOfCorner(a: Atlas, glyphs: seq<Glyph>, k: nat, x: int, y: int)
    requires Roomy(a, glyphs) && k < |glyphs| && NoneOverflows(a, glyphs, k) && Inside(RecOf(a, glyphs, k), x, y)
    requires glyphs[k].height + 3 <= a.fontSize + a.padding
    ensures InAtlas(a, x, y) && !InCorner(a, x, y)
  {
    SpotBounds(a, glyphs, k);
    hide SpotOf, NoneOverflows;
  }

  /** One row more than that, and a glyph in the last row can be overwritten by the corner. */
  lemma HigherGlyphMeetsCorner()
    ensures var a, g := Atlas(20, 36, 10, 4), Glyph(16, 12, seq(192, _ => 1));
      && Roomy(a, [g]) && NoneOverflows(a, [g], 0) && g.height + 2 == a.fontSize + a.padding
      && Inside(RecOf(a, [g], 0), 19, 33) && InCorner(a, 19, 33)
  {
    OneWideGlyph(12);
  }

  /** Higher than the font and the padding, and it can reach below the atlas. */
  lemma HigherGlyphLeavesAtlas()
    ensures var a, g := Atlas(20, 36, 10, 4), Glyph(16, 15, seq(240, _ => 1));
      && Roomy(a, [g]) && NoneOverflows(a, [g], 0) && g.height == a.fontSize + a.padding + 1
      && Inside(RecOf(a, [g], 0), 19, 36) && !InAtlas(a, 19, 36)
  {
    OneWideGlyph(15);
  }

  lemma OneWideGlyph(height: nat)
    ensures var a, g := Atlas(20, 36, 10, 4), Glyph(16, height, seq(Area(16, height), _ => 1));
      SpotOf(a, [g], 0) == Spot(4, 22) && !Overflows(a, [g], 0)
  {
  }

  // ---- Pixels ----

  /** The place of a pixel in the row-by-row image data. */
  function Index(a: Atlas, x: int, y: int): (k: nat)
    requires InAtlas(a, x, y)
    ensures k < Area(a.width, a.height)
  {
    IndexBound(a, x, y);
    y * a.width + x
  }

  lemma IndexBound(a: Atlas, x: int, y: int)
    requires InAtlas(a, x, y)
    ensures 0 <= y * a.width + x < a.width * a.height
  {
    assert y * a.width >= 0;
    assert (y + 1) * a.width <= a.height * a.width;
    assert (y + 1) * a.width == y * a.width + a.width;
  }

  lemma IndexInjective(a: Atlas, x: int, y: int, x': int, y': int)
    requires InAtlas(a, x, y) && InAtlas(a, x', y') && Index(a, x, y) == Index(a, x', y')
    ensures x == x' && y == y'
  {
    Modular.Unique(y * a.width + x, a.width, y, x);
    Modular.Unique(y' * a.width + x', a.width, y', x');
  }

  function At(a: Atlas, data: seq<Pixel>, x: int, y: int): Pixel
    requires |data| == Area(a.width, a.height) && InAtlas(a, x, y)
  {
    data[Index(a, x, y)]
  }

  /** The pixel of a glyph that lands on a place of the atlas. */
  function GlyphPixel(g: Glyph, r: Rec, x: int, y: int): Pixel
    requires |g.pixels| == Area(g.width, g.height) && r.width == g.width && r.height == g.height && Inside(r, x, y)
  {
    ImageAt(g, x - r.x, y - r.y)
  }

  function ImageAt(g: Glyph, x: nat, y: nat): Pixel
    requires |g.pixels| == Area(g.width, g.height) && x < g.width && y < g.height
  {
    g.pixels[Index(Atlas(g.width, g.height, 0, 0), x, y)]
  }

  method WritePixel(a: Atlas, data: array<Pixel>, x: int, y: int, p: Pixel)
    requires data.Length == Area(a.width, a.height) && InAtlas(a, x, y)
    modifies data
    ensures forall u, v :: InAtlas(a, u, v) ==>
              At(a, data[..], u, v) == if u == x && v == y then p else old(At(a, data[..], u, v))
  {
    ghost var was := data[..];
    data[Index(a, x, y)] := p;
    forall u, v | InAtlas(a, u, v)
      ensures At(a, data[..], u, v) == if u == x && v == y then p else At(a, was, u, v)
    {
      if Index(a, u, v) == Index(a, x, y) {
        IndexInjective(a, u, v, x, y);
      }
    }
  }

  /** The image data after the first rows of a glyph, and some pixels of the next, were copied. */
  ghost predicate CopiedTo(a: Atlas, was: seq<Pixel>, data: seq<Pixel>, g: Glyph, r: Rec, row: nat, column: nat)
    requires |was| == |data| == Area(a.width, a.height)
    requires |g.pixels| == Area(g.width, g.height) && r.width == g.width && r.height == g.height
  {
    forall x, y {:trigger At(a, data, x, y)} :: InAtlas(a, x, y) ==>
      At(a, data, x, y) ==
        if Inside(r, x, y) && (y - r.y < row || (y - r.y == row && x - r.x < column)) then GlyphPixel(g, r, x, y)
        else At(a, was, x, y)
  }

  /** Copies a glyph's image to its place: any pixel x, y of the atlas is the glyph's pixel there, or as
      it was. */
  method CopyGlyph(a: Atlas, data: array<Pixel>, g: Glyph, ghost r: Rec, offsetX: nat, offsetY: nat,
                   ghost x: nat, ghost y: nat)
    requires data.Length == Area(a.width, a.height) && |g.pixels| == Area(g.width, g.height)
    requires r == Rec(offsetX, offsetY, g.width, g.height)
    requires offsetX + g.width <= a.width && offsetY + g.height <= a.height
    modifies data
    ensures CopiedTo(a, old(data[..]), data[..], g, r, g.height, 0)
    ensures x < a.width && y < a.height ==>
              && y * a.width + x < data.Length
              && if offsetX <= x < offsetX + g.width && offsetY <= y < offsetY + g.height
                 then var k := (y - offsetY) * g.width + (x - offsetX);
                      0 <= k < |g.pixels| && data[y * a.width + x] == g.pixels[k]
                 else data[y * a.width + x] == old(data[..])[y * a.width + x]
  {
    hide *;
    ghost var was := data[..];
    CopyRows(a, data, g, r, offsetX, offsetY);
    CopiedPixel(a, was, data[..], g, r, offsetX, offsetY, x, y);
  }

  method CopyRows(a: Atlas, data: array<Pixel>, g: Glyph, ghost r: Rec, offsetX: nat, offsetY: nat)
    requires data.Length == Area(a.width, a.height) && |g.pixels| == Area(g.width, g.height)
    requires r == Rec(offsetX, offsetY, g.width, g.height)
    requires offsetX + g.width <= a.width && offsetY + g.height <= a.height
    modifies data
    ensures CopiedTo(a, old(data[..]), data[..], g, r, g.height, 0)
  {
    ghost var was := data[..];
    for y := 0 to g.height
      invariant CopiedTo(a, was, data[..], g, r, y, 0)
    {
      for x := 0 to g.width
        invariant CopiedTo(a, was, data[..], g, r, y, x)
      {
        hide Index, At, ImageAt;
        WritePixel(a, data, offsetX + x, offsetY + y, ImageAt(g, x, y));
      }
    }
  }

  lemma CopiedPixel(a: Atlas, was: seq<Pixel>, data: seq<Pixel>, g: Glyph, r: Rec, offsetX: nat, offsetY: nat,
                    x: nat, y: nat)
    requires |was| == |data| == Area(a.width, a.height) && |g.pixels| == Area(g.width, g.height)
    requires offsetX + g.width <= a.width && offsetY + g.height <= a.height
    requires r == Rec(offsetX, offsetY, g.width, g.height) && CopiedTo(a, was, data, g, r, g.height, 0)
    ensures x < a.width && y < a.height ==>
              && y * a.width + x < |data|
              && if offsetX <= x < offsetX + g.width && offsetY <= y < offsetY + g.height
                 then var k := (y - offsetY) * g.width + (x - offsetX);
                      0 <= k < |g.pixels| && data[y * a.width + x] == g.pixels[k]
                 else data[y * a.width + x] == was[y * a.width + x]
  {
    if x < a.width && y < a.height {
      IndexBound(a, x, y);
      if Inside(r, x, y) {
        IndexBound(Atlas(g.width, g.height, 0, 0), x - offsetX, y - offsetY);
        assert At(a, data, x, y) == GlyphPixel(g, r, x, y);
      } else {
        assert At(a, data, x, y) == At(a, was, x, y);
      }
    }
  }

  // ---- The packer ----

  /** A pixel shows what lies at its place: one of the first n glyphs, or nothing. */
  ghost predicate ShowsPixel(a: Atlas, glyphs: seq<Glyph>, n: nat, x: int, y: int, p: Pixel)
    requires Packable(a, glyphs) && n <= |glyphs|
  {
    && (forall i :: 0 <= i < n && Inside(RecOf(a, glyphs, i), x, y) ==>
          p == GlyphPixel(glyphs[i], RecOf(a, glyphs, i), x, y))
    && ((forall i :: 0 <= i < n ==> !Inside(RecOf(a, glyphs, i), x, y)) ==> p == 0)
  }

  ghost predicate Shows(a: Atlas, glyphs: seq<Glyph>, n: nat, data: seq<Pixel>)
    requires Packable(a, glyphs) && n <= |glyphs| && |data| == Area(a.width, a.height)
  {
    forall x, y {:trigger At(a, data, x, y)} :: InAtlas(a, x, y) ==> ShowsPixel(a, glyphs, n, x, y, At(a, data, x, y))
  }

  lemma PixelOneMore(a: Atlas, glyphs: seq<Glyph>, n: nat, x: int, y: int, was: Pixel, p: Pixel)
    requires Packable(a, glyphs) && n < |glyphs| && ShowsPixel(a, glyphs, n, x, y, was)
    requires p == if Inside(RecOf(a, glyphs, n), x, y) then GlyphPixel(glyphs[n], RecOf(a, glyphs, n), x, y) else was
    ensures ShowsPixel(a, glyphs, n + 1, x, y, p)
  {
    forall i | 0 <= i < n && Inside(RecOf(a, glyphs, i), x, y)
      ensures !Inside(RecOf(a, glyphs, n), x, y)
    {
      RecsDisjoint(a, glyphs, i, n, x, y);
    }
    hide SpotOf, GlyphPixel, Inside;
  }

  lemma ShowsOneMore(a: Atlas, glyphs: seq<Glyph>, n: nat, was: seq<Pixel>, data: seq<Pixel>)
    requires Packable(a, glyphs) && n < |glyphs| && |was| == |data| == Area(a.width, a.height)
    requires Shows(a, glyphs, n, was)
    requires CopiedTo(a, was, data, glyphs[n], RecOf(a, glyphs, n), glyphs[n].height, 0)
    ensures Shows(a, glyphs, n + 1, data)
  {
    forall x, y | InAtlas(a, x, y)
      ensures ShowsPixel(a, glyphs, n + 1, x, y, At(a, data, x, y))
    {
      hide At, GlyphPixel, ShowsPixel, SpotOf;
      PixelOneMore(a, glyphs, n, x, y, At(a, was, x, y), At(a, data, x, y));
    }
  }

  lemma ShowsNothing(a: Atlas, glyphs: seq<Glyph>, data: seq<Pixel>)
    requires Packable(a, glyphs) && |data| == Area(a.width, a.height)
    requires forall k :: 0 <= k < |data| ==> data[k] == 0
    ensures Shows(a, glyphs, 0, data)
  {
  }

  /** The step of the layout, and where a glyph that does not overflow comes to lie. */
  lemma LayoutStep(a: Atlas, glyphs: seq<Glyph>, k: nat, offsetX: int, offsetY: int)
    requires Packable(a, glyphs) && k < |glyphs|
    requires CursorAt(a, glyphs, k) == Spot(offsetX, offsetY)
    requires forall i :: 0 <= i < k ==> !Overflows(a, glyphs, i)
    ensures var wraps := offsetX >= a.width - glyphs[k].width - 2 * a.padding;
            var spot := if wraps
                        then Spot(a.padding, offsetY + (a.fontSize + 2 * a.padding)) else Spot(offsetX, offsetY);
            && SpotOf(a, glyphs, k) == spot && 0 <= a.fontSize && 0 <= a.padding
            && RecOf(a, glyphs, k) == Rec(spot.x, spot.y, glyphs[k].width, glyphs[k].height)
            && (Overflows(a, glyphs, k) <==> wraps && spot.y > a.height - a.fontSize - a.padding)
            && (!Overflows(a, glyphs, k) ==>
                  && NoneOverflows(a, glyphs, k) && 0 <= spot.x && spot.x + glyphs[k].width <= a.width
                  && 0 <= spot.y && spot.y + glyphs[k].height <= a.height)
            && CursorAt(a, glyphs, k + 1) == Spot(spot.x + (glyphs[k].width + 2 * a.padding), spot.y)
            && |glyphs[k].pixels| == Area(glyphs[k].width, glyphs[k].height)
  {
    if !Overflows(a, glyphs, k) {
      assert NoneOverflows(a, glyphs, k);
      SpotBounds(a, glyphs, k);
    }
  }

  /** The basic packing method. It returns how many glyphs were packed; the rectangle of the
      first one that was not is left as the allocator returned it. */
  method PackGlyphs(a: Atlas, glyphs: seq<Glyph>, data: array<Pixel>) returns (recs: array<Rec>, packed: nat)
    requires Packable(a, glyphs) && data.Length == Area(a.width, a.height)
    requires forall k :: 0 <= k < data.Length ==> data[k] == 0
    modifies data
    ensures fresh(recs) && recs.Length == |glyphs| && packed <= |glyphs|
    ensures forall i :: 0 <= i < packed ==> !Overflows(a, glyphs, i) && recs[i] == RecOf(a, glyphs, i)
    ensures packed < |glyphs| ==> Overflows(a, glyphs, packed)
    ensures forall i :: packed < i < |glyphs| ==> recs[i] == Rec(0, 0, 0, 0)
    ensures Shows(a, glyphs, packed, data[..])
  {
    recs := new Rec[|glyphs|];
    var offsetX, offsetY: int := a.padding, a.padding;
    packed := 0;
    ShowsNothing(a, glyphs, data[..]);
    assert CursorAt(a, glyphs, 0) == Spot(offsetX, offsetY);
    hide *;
    while packed < |glyphs|
      invariant packed <= |glyphs| && CursorAt(a, glyphs, packed) == Spot(offsetX, offsetY)
      invariant forall i :: 0 <= i < packed ==> !Overflows(a, glyphs, i) && recs[i] == RecOf(a, glyphs, i)
      invariant Shows(a, glyphs, packed, data[..])
    {
      LayoutStep(a, glyphs, packed, offsetX, offsetY);
      if offsetX >= a.width - glyphs[packed].width - 2 * a.padding {
        offsetX := a.padding;
        offsetY := offsetY + (a.fontSize + 2 * a.padding);
        if offsetY > a.height - a.fontSize - a.padding {
          ClearRecs(recs, packed + 1);
          break;
        }
      }
      PlaceGlyph(a, glyphs, packed, data, offsetX, offsetY);
      recs[packed] := Rec(offsetX, offsetY, glyphs[packed].width, glyphs[packed].height);
      offsetX := offsetX + (glyphs[packed].width + 2 * a.padding);
      packed := packed + 1;
    }
  }

  /** Copies glyph k to its place. */
  method PlaceGlyph(a: Atlas, glyphs: seq<Glyph>, k: nat, data: array<Pixel>, offsetX: nat, offsetY: nat)
    requires Packable(a, glyphs) && data.Length == Area(a.width, a.height) && k < |glyphs|
    requires Shows(a, glyphs, k, data[..])
    requires RecOf(a, glyphs, k) == Rec(offsetX, offsetY, glyphs[k].width, glyphs[k].height)
    requires offsetX + glyphs[k].width <= a.width && offsetY + glyphs[k].height <= a.height
    modifies data
    ensures Shows(a, glyphs, k + 1, data[..])
  {
    assert |glyphs[k].pixels| == Area(glyphs[k].width, glyphs[k].height);
    hide *;
    ghost var was := data[..];
    CopyGlyph(a, data, glyphs[k], RecOf(a, glyphs, k), offsetX, offsetY, 0, 0);
    ShowsOneMore(a, glyphs, k, was, data[..]);
  }

  method ClearRecs(recs: array<Rec>, from: nat)
    requires from <= recs.Length
    modifies recs
    ensures forall i :: 0 <= i < from ==> recs[i] == old(recs[i])
    ensures forall i :: from <= i < recs.Length ==> recs[i] == Rec(0, 0, 0, 0)
  {
    forall j | from <= j < recs.Length {
      recs[j] := Rec(0, 0, 0, 0);
    }
  }

  /** The flat position of the corner's pixels, counted back from the end of the data. */
  lemma CornerIndex(a: Atlas, row: nat, column: nat)
    requires row < a.height && column < a.width
    ensures Index(a, a.width - 1 - column, a.height - 1 - row) == Area(a.width, a.height) - 1 - row * a.width - column
  {
  }

  /** The white 3x3 rectangle at the bottom right. */
  method WriteCorner(a: Atlas, data: array<Pixel>)
    requires data.Length == Area(a.width, a.height) && 3 <= a.width && 3 <= a.height
    modifies data
    ensures forall x, y :: InAtlas(a, x, y) ==>
              At(a, data[..], x, y) == if InCorner(a, x, y) then 255 else old(At(a, data[..], x, y))
  {
    hide Index, At, Area;
    ghost var k := Area(a.width, a.height) - 1;
    for i := 0 to 3
      invariant k == Area(a.width, a.height) - 1 - i * a.width
      invariant forall x, y :: InAtlas(a, x, y) ==>
                  At(a, data[..], x, y) ==
                    if InCorner(a, x, y) && a.height - i <= y then 255 else old(At(a, data[..], x, y))
    {
      WritePixel(a, data, a.width - 1, a.height - 1 - i, 255);
      WritePixel(a, data, a.width - 2, a.height - 1 - i, 255);
      WritePixel(a, data, a.width - 3, a.height - 1 - i, 255);
      CornerIndex(a, i, 0);
      CornerIndex(a, i, 1);
      CornerIndex(a, i, 2);
      assert Index(a, a.width - 1, a.height - 1 - i) == k - 0 && Index(a, a.width - 2, a.height - 1 - i) == k - 1;
      assert Index(a, a.width - 3, a.height - 1 - i) == k - 2;
      k := k - a.width;
    }
  }

  /** From one channel to two: white, with the image as alpha. */
  method ToGrayAlpha(data: array<Pixel>) returns (grayAlpha: array<Pixel>)
    ensures fresh(grayAlpha) && grayAlpha.Length == 2 * data.Length
    ensures forall i :: 0 <= i < data.Length ==> grayAlpha[2 * i] == 255 && grayAlpha[2 * i + 1] == data[i]
  {
    grayAlpha := new Pixel[2 * data.Length];
    var k := 0;
    for i := 0 to data.Length
      invariant k == 2 * i
      invariant forall j :: 0 <= j < i ==> grayAlpha[2 * j] == 255 && grayAlpha[2 * j + 1] == data[j]
    {
      grayAlpha[k] := 255;
      grayAlpha[k + 1] := data[i];
      k := k + 2;
    }
  }

  /** The alpha of a place in the finished atlas. */
  function Alpha(a: Atlas, grayAlpha: seq<Pixel>, x: int, y: int): Pixel
    requires |grayAlpha| == 2 * Area(a.width, a.height) && InAtlas(a, x, y)
  {
    grayAlpha[2 * Index(a, x, y) + 1]
  }

  /** The atlas as a picture. */
  method PaintAtlas(a: Atlas, glyphs: seq<Glyph>)
    returns (image: array<Pixel>, recs: array<Rec>, packed: nat, ghost data: seq<Pixel>)
    requires Packable(a, glyphs)
    ensures fresh(image) && fresh(recs) && image.Length == 2 * Area(a.width, a.height) && recs.Length == |glyphs|
    ensures packed <= |glyphs| && (packed < |glyphs| ==> Overflows(a, glyphs, packed))
    ensures forall i :: 0 <= i < packed ==> !Overflows(a, glyphs, i) && recs[i] == RecOf(a, glyphs, i)
    ensures forall i :: packed < i < |glyphs| ==> recs[i] == Rec(0, 0, 0, 0)
    ensures forall i, x, y :: 0 <= i < packed && Inside(recs[i], x, y) ==>
              InAtlas(a, x, y) && Alpha(a, image[..], x, y)
                == if InCorner(a, x, y) then 255 else GlyphPixel(glyphs[i], RecOf(a, glyphs, i), x, y)
    ensures forall x, y :: InAtlas(a, x, y) && InCorner(a, x, y) ==> Alpha(a, image[..], x, y) == 255
    ensures forall x, y :: InAtlas(a, x, y) && !InCorner(a, x, y) ==>
              ShowsPixel(a, glyphs, packed, x, y, Alpha(a, image[..], x, y))
    ensures |data| == Area(a.width, a.height)
    ensures forall i :: 0 <= i < |data| ==> image[2 * i] == 255 && image[2 * i + 1] == data[i]
  {
    BigEnough(a, glyphs);
    hide *;
    var gray := new Pixel[Area(a.width, a.height)](_ => 0);
    recs, packed := PackGlyphs(a, glyphs, gray);
    ghost var painted := gray[..];
    WriteCorner(a, gray);
    image := ToGrayAlpha(gray);
    data := gray[..];
    Finished(a, glyphs, packed, painted, data, image[..]);
  }

  /** The whole atlas: every packed glyph can be read back from the alpha channel, pixel by pixel,
      after all later copies, the corner and the conversion, except where the corner lies on it; the
      corner is white; and there is nothing anywhere else. The last clause says the same of any place
      x, y by its position in the data. */
  method GenImageFontAtlas(a: Atlas, glyphs: seq<Glyph>, ghost x: nat, ghost y: nat)
    returns (image: array<Pixel>, recs: array<Rec>, packed: nat)
    requires Packable(a, glyphs)
    ensures fresh(image) && fresh(recs) && image.Length == 2 * Area(a.width, a.height) && recs.Length == |glyphs|
    ensures packed <= |glyphs| && (packed < |glyphs| ==> Overflows(a, glyphs, packed))
    ensures forall i :: 0 <= i < packed ==> !Overflows(a, glyphs, i) && recs[i] == RecOf(a, glyphs, i)
    ensures forall i :: packed < i < |glyphs| ==> recs[i] == Rec(0, 0, 0, 0)
    ensures forall i, x, y :: 0 <= i < packed && Inside(recs[i], x, y) ==>
              InAtlas(a, x, y) && Alpha(a, image[..], x, y)
                == if InCorner(a, x, y) then 255 else GlyphPixel(glyphs[i], RecOf(a, glyphs, i), x, y)
    ensures forall x, y :: InAtlas(a, x, y) && InCorner(a, x, y) ==> Alpha(a, image[..], x, y) == 255
    ensures forall x, y :: InAtlas(a, x, y) && !InCorner(a, x, y) ==>
              ShowsPixel(a, glyphs, packed, x, y, Alpha(a, image[..], x, y))
    ensures x < a.width && y < a.height ==>
              var k := 2 * (y * a.width + x);
              && 0 <= k && k + 1 < |image[..]| && image[..][k] == 255
              && if a.width - 3 <= x && a.height - 3 <= y then image[..][k + 1] == 255
                 else (forall i :: 0 <= i < packed ==>
                         var r, g := recs[..][i], glyphs[i];
                         r.x <= x < r.x + g.width && r.y <= y < r.y + g.height ==>
                           var j := (y - r.y) * g.width + (x - r.x);
                           0 <= j < |g.pixels| && image[..][k + 1] == g.pixels[j])
                      && ((forall i :: 0 <= i < packed ==>
                             var r, g := recs[..][i], glyphs[i];
                             !(r.x <= x < r.x + g.width && r.y <= y < r.y + g.height)) ==>
                            image[..][k + 1] == 0)
  {
    hide *;
    ghost var data;
    image, recs, packed, data := PaintAtlas(a, glyphs);
    FlatPlace(a, glyphs, packed, data, image[..], recs[..], x, y);
  }

  lemma BigEnough(a: Atlas, glyphs: seq<Glyph>)
    requires Packable(a, glyphs)
    ensures 3 <= a.width && 3 <= a.height
  {
  }

  /** One place of the finished image, by its position in the data. */
  lemma FlatPlace(a: Atlas, glyphs: seq<Glyph>, packed: nat, data: seq<Pixel>, image: seq<Pixel>,
                  recs: seq<Rec>, x: nat, y: nat)
    requires Packable(a, glyphs) && packed <= |glyphs|
    requires |data| == Area(a.width, a.height) && |image| == 2 * |data| && |recs| == |glyphs|
    requires forall i :: 0 <= i < packed ==> recs[i] == RecOf(a, glyphs, i)
    requires forall i :: 0 <= i < |data| ==> image[2 * i] == 255 && image[2 * i + 1] == data[i]
    requires forall x, y :: InAtlas(a, x, y) && InCorner(a, x, y) ==> Alpha(a, image, x, y) == 255
    requires forall x, y :: InAtlas(a, x, y) && !InCorner(a, x, y) ==>
               ShowsPixel(a, glyphs, packed, x, y, Alpha(a, image, x, y))
    ensures x < a.width && y < a.height ==>
              var k := 2 * (y * a.width + x);
              && 0 <= k && k + 1 < |image| && image[k] == 255
              && if a.width - 3 <= x && a.height - 3 <= y then image[k + 1] == 255
                 else (forall i :: 0 <= i < packed ==>
                         var r, g := recs[i], glyphs[i];
                         r.x <= x < r.x + g.width && r.y <= y < r.y + g.height ==>
                           var j := (y - r.y) * g.width + (x - r.x);
                           0 <= j < |g.pixels| && image[k + 1] == g.pixels[j])
                      && ((forall i :: 0 <= i < packed ==>
                             var r, g := recs[i], glyphs[i];
                             !(r.x <= x < r.x + g.width && r.y <= y < r.y + g.height)) ==>
                            image[k + 1] == 0)
  {
    if x < a.width && y < a.height {
      IndexBound(a, x, y);
      var j, p := y * a.width + x, Alpha(a, image, x, y);
      assert data[j] == image[2 * j + 1] == p;
      if !InCorner(a, x, y) {
        PlaceShows(a, glyphs, packed, recs, x, y, p);
      }
      hide SpotOf, Packable, Area, ShowsPixel, RecOf, Inside, Alpha, Index;
    }
  }

  lemma PlaceShows(a: Atlas, glyphs: seq<Glyph>, packed: nat, recs: seq<Rec>, x: nat, y: nat, p: Pixel)
    requires Packable(a, glyphs) && packed <= |glyphs| == |recs| && ShowsPixel(a, glyphs, packed, x, y, p)
    requires forall i :: 0 <= i < packed ==> recs[i] == RecOf(a, glyphs, i)
    ensures forall i :: 0 <= i < packed ==>
              var r, g := recs[i], glyphs[i];
              r.x <= x < r.x + g.width && r.y <= y < r.y + g.height ==>
                var j := (y - r.y) * g.width + (x - r.x); 0 <= j < |g.pixels| && p == g.pixels[j]
    ensures (forall i :: 0 <= i < packed ==>
               var r, g := recs[i], glyphs[i];
               !(r.x <= x < r.x + g.width && r.y <= y < r.y + g.height)) ==> p == 0
  {
    forall i | 0 <= i < packed
      ensures var r, g := recs[i], glyphs[i];
              r.x <= x < r.x + g.width && r.y <= y < r.y + g.height ==>
                var j := (y - r.y) * g.width + (x - r.x); 0 <= j < |g.pixels| && p == g.pixels[j]
    {
      var r := RecOf(a, glyphs, i);
      assert recs[i] == r;
      if Inside(r, x, y) {
        assert p == GlyphPixel(glyphs[i], r, x, y);
        PixelOf(glyphs[i], r, x, y);
      }
      hide SpotOf, GlyphPixel, Packable, Area;
    }
    hide SpotOf, GlyphPixel, Packable;
  }

  lemma PixelOf(g: Glyph, r: Rec, x: int, y: int)
    requires |g.pixels| == Area(g.width, g.height) && r.width == g.width && r.height == g.height && Inside(r, x, y)
    ensures var j := (y - r.y) * g.width + (x - r.x); 0 <= j < |g.pixels| && GlyphPixel(g, r, x, y) == g.pixels[j]
  {
    IndexBound(Atlas(g.width, g.height, 0, 0), x - r.x, y - r.y);
  }

  /** The layout as the program walks it: a glyph lies two paddings right of the one before it, or, if
      that leaves less than two paddings to the right edge, at the left of the next row; and it is the
      new row that overflows. */
  lemma Layout(a: Atlas, glyphs: seq<Glyph>, i: nat)
    requires i < |glyphs|
    ensures var x := if i == 0 then a.padding else RecOf(a, glyphs, i - 1).x + glyphs[i - 1].width + 2 * a.padding;
            var y := if i == 0 then a.padding else RecOf(a, glyphs, i - 1).y;
            var wraps := x >= a.width - glyphs[i].width - 2 * a.padding;
            && RecOf(a, glyphs, i)
               == (if wraps then Rec(a.padding, y + a.fontSize + 2 * a.padding, glyphs[i].width, glyphs[i].height)
                   else Rec(x, y, glyphs[i].width, glyphs[i].height))
            && (Overflows(a, glyphs, i) <==>
                  wraps && y + a.fontSize + 2 * a.padding > a.height - a.fontSize - a.padding)
  {
    LayoutAt(a, glyphs, i);
    hide SpotOf;
  }

  lemma LayoutAt(a: Atlas, glyphs: seq<Glyph>, i: nat)
    requires i < |glyphs|
    ensures var x := if i == 0 then a.padding else SpotOf(a, glyphs, i - 1).x + glyphs[i - 1].width + 2 * a.padding;
            var y := if i == 0 then a.padding else SpotOf(a, glyphs, i - 1).y;
            && SpotOf(a, glyphs, i)
               == (if x >= a.width - glyphs[i].width - 2 * a.padding
                   then Spot(a.padding, y + a.fontSize + 2 * a.padding) else Spot(x, y))
            && (StartsRow(a, glyphs, i) <==> x >= a.width - glyphs[i].width - 2 * a.padding)
  {
  }

  lemma Finished(a: Atlas, glyphs: seq<Glyph>, packed: nat, painted: seq<Pixel>, data: seq<Pixel>, image: seq<Pixel>)
    requires Packable(a, glyphs) && packed <= |glyphs|
    requires |painted| == |data| == Area(a.width, a.height) && |image| == 2 * |data|
    requires forall i :: 0 <= i < packed ==> !Overflows(a, glyphs, i)
    requires Shows(a, glyphs, packed, painted)
    requires forall x, y :: InAtlas(a, x, y) ==>
               At(a, data, x, y) == if InCorner(a, x, y) then 255 else At(a, painted, x, y)
    requires forall i :: 0 <= i < |data| ==> image[2 * i + 1] == data[i]
    ensures forall i, x, y :: 0 <= i < packed && Inside(RecOf(a, glyphs, i), x, y) ==>
              InAtlas(a, x, y) && Alpha(a, image, x, y)
                == if InCorner(a, x, y) then 255 else GlyphPixel(glyphs[i], RecOf(a, glyphs, i), x, y)
    ensures forall x, y :: InAtlas(a, x, y) && InCorner(a, x, y) ==> Alpha(a, image, x, y) == 255
    ensures forall x, y :: InAtlas(a, x, y) && !InCorner(a, x, y) ==>
              ShowsPixel(a, glyphs, packed, x, y, Alpha(a, image, x, y))
  {
    hide SpotOf, GlyphPixel, Index, Area;
    assert forall x, y :: InAtlas(a, x, y) ==> Alpha(a, image, x, y) == At(a, data, x, y);
    forall i, x, y | 0 <= i < packed && Inside(RecOf(a, glyphs, i), x, y)
      ensures InAtlas(a, x, y) && Alpha(a, image, x, y)
                == if InCorner(a, x, y) then 255 else GlyphPixel(glyphs[i], RecOf(a, glyphs, i), x, y)
    {
      assert NoneOverflows(a, glyphs, i);
      RecBounds(a, glyphs, i, x, y);
    }
  }
}
