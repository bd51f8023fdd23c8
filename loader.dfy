/**
 * The two loaders, `load_images` and `load_polygons` (GreenEye.py lines
 * 24-48). Both sort the directory listing, index every name at the marker
 * position and keep the names that carry the marker. Listing a directory,
 * decoding an image and parsing JSON are outside the model: the listing is
 * a parameter, and so is the parsed content of each annotation file.
 */
module Loader {
  import opened Wrappers
  import opened Annotations
  import opened Names
  import opened Images

  /** The loop body of `load_images`: open the file as RGBA and write its name at the top-left. */
  method OpenLabelled(p: string, imgName: string) returns (img: Image)
    ensures fresh(img)
    ensures img.View() == Picture(Decoded(p + imgName, "RGBA"), [Label((0, 0), imgName)])
  {
    img := new Image.Open(p + imgName, "RGBA");
    img.Text((0, 0), imgName);
  }

  /**
   * `load_images(p)`: one image per kept name, in sorted order, opened from
   * `p + name`, converted to RGBA, with the name written at the top-left.
   */
  method LoadImages(p: string, listing: seq<string>) returns (r: Result<seq<Image>, NameError>)
    ensures r.Err? <==> Select(Sort(listing)).Err?
    ensures r.Ok? ==> |r.value| == |Select(Sort(listing)).value|
    ensures r.Ok? ==> forall i :: 0 <= i < |r.value| ==> fresh(r.value[i])
    ensures r.Ok? ==> forall i, j :: 0 <= i < j < |r.value| ==> r.value[i] != r.value[j]
    ensures r.Ok? ==> forall i :: 0 <= i < |r.value| ==>
              var name := Select(Sort(listing)).value[i];
              r.value[i].View() == Picture(Decoded(p + name, "RGBA"), [Label((0, 0), name)])
  {
    var imagesList := Sort(listing);
    var loaded: seq<Image> := [];
    for k := 0 to |imagesList|
      invariant Select(imagesList[..k]).Ok?
      invariant |loaded| == |Select(imagesList[..k]).value|
      invariant forall i :: 0 <= i < |loaded| ==> fresh(loaded[i])
      invariant forall i, j :: 0 <= i < j < |loaded| ==> loaded[i] != loaded[j]
      invariant forall i :: 0 <= i < |loaded| ==>
                  var name := Select(imagesList[..k]).value[i];
                  loaded[i].View() == Picture(Decoded(p + name, "RGBA"), [Label((0, 0), name)])
    {
      var imgName := imagesList[k];
      assert imagesList[..k + 1][..k] == imagesList[..k];
      if |imgName| <= MarkerIndex {
        SelectErrorSticks(imagesList, k + 1);
        return Err(IndexError);
      }
      if imgName[MarkerIndex] == Marker {
        var img := OpenLabelled(p, imgName);
        assert forall i :: 0 <= i < |loaded| ==> loaded[i] != img;
        loaded := loaded + [img];
      }
    }
    assert imagesList[..|imagesList|] == imagesList;
    return Ok(loaded);
  }

  /**
   * `load_polygons(path)`: one record per kept name, in sorted order;
   * `parsed` gives what `json.load` returns for the file at a path.
   */
  method LoadPolygons(path: string, listing: seq<string>, parsed: string -> Record)
    returns (r: Result<seq<Record>, NameError>)
    ensures r.Err? <==> Select(Sort(listing)).Err?
    ensures r.Ok? ==> |r.value| == |Select(Sort(listing)).value|
    ensures r.Ok? ==> forall i :: 0 <= i < |r.value| ==>
              r.value[i] == parsed(path + "/" + Select(Sort(listing)).value[i])
  {
    var jsonList := Sort(listing);
    var loaded: seq<Record> := [];
    for k := 0 to |jsonList|
      invariant Select(jsonList[..k]).Ok?
      invariant |loaded| == |Select(jsonList[..k]).value|
      invariant forall i :: 0 <= i < |loaded| ==>
                  loaded[i] == parsed(path + "/" + Select(jsonList[..k]).value[i])
    {
      var j := jsonList[k];
      assert jsonList[..k + 1][..k] == jsonList[..k];
      if |j| <= MarkerIndex {
        SelectErrorSticks(jsonList, k + 1);
        return Err(IndexError);
      }
      if j[MarkerIndex] == Marker {
        loaded := loaded + [parsed(path + "/" + j)];
      }
    }
    assert jsonList[..|jsonList|] == jsonList;
    return Ok(loaded);
  }

}
