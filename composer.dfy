/**
 * The composer, `combine_images` (GreenEye.py lines 51-69): one wide
 * canvas per index common to the three lists, holding the original, the
 * ground-truth overlay and the ground-truth-plus-prediction overlay side
 * by side.
 */
module Composer {
  import opened Wrappers
  import opened Images

  /** Every source image is 700 x 512; the canvas holds three of them. */
  const PanelWidth: nat := 700
  const PanelHeight: nat := 512

  /** What composite `i` shows: a blank RGB canvas with the three panels pasted left to right. */
  function Composite(left: Picture, middle: Picture, right: Picture): Picture
  {
    Picture(Blank("RGB", PanelWidth * 3, PanelHeight),
            [Pasted(left, (0, 0)), Pasted(middle, (PanelWidth, 0)), Pasted(right, (2 * PanelWidth, 0))])
  }

  /** The loop body: a blank canvas with the three images pasted side by side. */
  method ComposeOne(left: Image, middle: Image, right: Image) returns (newIm: Image)
    ensures fresh(newIm)
    ensures newIm.View() == Composite(left.View(), middle.View(), right.View())
  {
    newIm := new Image.New("RGB", PanelWidth * 3, PanelHeight);
    var xOffset := 0;
    newIm.Paste(left, (xOffset, 0));
    xOffset := xOffset + PanelWidth;
    newIm.Paste(middle, (xOffset, 0));
    xOffset := xOffset + PanelWidth;
    newIm.Paste(right, (xOffset, 0));
  }

  method CombineImages(l1: seq<Image>, l2: seq<Image>, l3: seq<Image>) returns (combined: seq<Image>)
    ensures |combined| == Min(Min(|l1|, |l2|), |l3|)
    ensures forall i :: 0 <= i < |combined| ==> fresh(combined[i])
    ensures forall i, j :: 0 <= i < j < |combined| ==> combined[i] != combined[j]
    ensures forall i :: 0 <= i < |combined| ==>
              combined[i].View() == Composite(l1[i].View(), l2[i].View(), l3[i].View())
  {
    combined := [];
    for i := 0 to Min(Min(|l1|, |l2|), |l3|)
      invariant |combined| == i
      invariant forall k :: 0 <= k < i ==> fresh(combined[k])
      invariant forall k, j :: 0 <= k < j < i ==> combined[k] != combined[j]
      invariant forall k :: 0 <= k < i ==>
                  combined[k].View() == Composite(l1[k].View(), l2[k].View(), l3[k].View())
    {
      var newIm := ComposeOne(l1[i], l2[i], l3[i]);
      assert forall k :: 0 <= k < i ==> combined[k] != newIm;
      combined := combined + [newIm];
    }
  }

}
