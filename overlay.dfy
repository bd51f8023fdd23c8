/**
 * The overlay renderer, `add_polygons` (GreenEye.py lines 8-20): pairs
 * images with annotation records as `zip` does, copies each image and
 * draws every polygon of its record as a rectangle outline, all circles
 * first and then all triangles.
 */
module Overlay {
  import opened Wrappers
  import opened Annotations
  import opened Images

  /** The outlines drawn for a list of polygons, in list order. */
  function Outlines(polygons: seq<Polygon>, color: Color, width: int): seq<Mark>
    decreases |polygons|
  {
    if polygons == [] then []
    else Outlines(polygons[..|polygons| - 1], color, width)
         + [Outline(polygons[|polygons| - 1], color, width)]
  }

  /** The commands one record adds to its image. */
  function RecordOutlines(rec: Record, color: Color, width: int): seq<Mark>
  {
    Outlines(rec.circle, color, width) + Outlines(rec.triangle, color, width)
  }

  /** One outline per polygon, k-th outline from k-th polygon, same colour and width. */
  lemma {:induction false} OutlinesAt(polygons: seq<Polygon>, color: Color, width: int)
    ensures |Outlines(polygons, color, width)| == |polygons|
    ensures forall k :: 0 <= k < |polygons| ==>
              Outlines(polygons, color, width)[k] == Outline(polygons[k], color, width)
    decreases |polygons|
  {
    if polygons != [] {
      var init := polygons[..|polygons| - 1];
      OutlinesAt(init, color, width);
      assert forall k :: 0 <= k < |init| ==> init[k] == polygons[k];
    }
  }

  /**
   * A record adds exactly one rectangle per polygon: its circles first, in
   * order, then its triangles, each in the given colour and stroke width.
   */
  lemma RecordOutlinesShape(rec: Record, color: Color, width: int)
    ensures |RecordOutlines(rec, color, width)| == PolygonCount(rec)
    ensures forall k :: 0 <= k < |rec.circle| ==>
              RecordOutlines(rec, color, width)[k] == Outline(rec.circle[k], color, width)
    ensures forall k :: 0 <= k < |rec.triangle| ==>
              RecordOutlines(rec, color, width)[|rec.circle| + k] == Outline(rec.triangle[k], color, width)
  {
    OutlinesAt(rec.circle, color, width);
    OutlinesAt(rec.triangle, color, width);
  }

  /** `for circle in circles: draw.rectangle(...)`, and the same loop for triangles. */
  method DrawOutlines(img2: Image, polygons: seq<Polygon>, color: Color, width: int)
    modifies img2
    ensures img2.View() == Drawn(old(img2.View()), Outlines(polygons, color, width))
  {
    ghost var start := img2.View();
    for k := 0 to |polygons|
      invariant img2.View() == Drawn(start, Outlines(polygons[..k], color, width))
    {
      assert polygons[..k + 1][..k] == polygons[..k];
      img2.Rectangle(polygons[k], color, width);
    }
    assert polygons[..|polygons|] == polygons;
  }

  /** The loop body: copy the image and draw the record's polygons onto the copy. */
  method DrawRecord(img: Image, rec: Record, color: Color, width: int) returns (img2: Image)
    ensures fresh(img2)
    ensures img2.View() == Drawn(img.View(), RecordOutlines(rec, color, width))
  {
    img2 := img.Copy();
    var circles, triangles := rec.circle, rec.triangle;
    DrawOutlines(img2, circles, color, width);
    DrawOutlines(img2, triangles, color, width);
  }

  /**
   * `add_polygons(images, polygons, color, width)`: one new image per pair
   * `zip` forms; the i-th is a copy of `images[i]` with the outlines of
   * `polygons[i]` drawn on it. The input images are left as they were.
   */
  method AddPolygons(images: seq<Image>, polygons: seq<Record>, color: Color, width: int)
    returns (newImages: seq<Image>)
    ensures |newImages| == Min(|images|, |polygons|)
    ensures forall i :: 0 <= i < |newImages| ==> fresh(newImages[i])
    ensures forall i, j :: 0 <= i < j < |newImages| ==> newImages[i] != newImages[j]
    ensures forall i :: 0 <= i < |newImages| ==>
              newImages[i].View() == Drawn(images[i].View(), RecordOutlines(polygons[i], color, width))
    ensures forall i :: 0 <= i < |images| ==> images[i].View() == old(images[i].View())
  {
    newImages := [];
    for i := 0 to Min(|images|, |polygons|)
      invariant |newImages| == i
      invariant forall k :: 0 <= k < i ==> fresh(newImages[k])
      invariant forall k, j :: 0 <= k < j < i ==> newImages[k] != newImages[j]
      invariant forall k :: 0 <= k < i ==>
                  newImages[k].View() == Drawn(images[k].View(), RecordOutlines(polygons[k], color, width))
    {
      var img2 := DrawRecord(images[i], polygons[i], color, width);
      assert forall k :: 0 <= k < i ==> newImages[k] != img2;
      newImages := newImages + [img2];
    }
  }
}
