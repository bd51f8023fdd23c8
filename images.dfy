/**
 * Images as the program uses them through PIL. Pixels are not modelled:
 * an image is where its raster came from (a decoded file or a blank canvas)
 * plus the ordered list of drawing and pasting commands applied to it
 * since. Copies are new objects; drawing changes only the image drawn on.
 */
module Images {
  import opened Annotations

  type Color = string

  datatype Origin =
    | Decoded(path: string, mode: string)
    | Blank(mode: string, width: nat, height: nat)

  datatype Mark =
    | Label(at: Point, text: string)
    | Outline(corners: Polygon, color: Color, width: int)
    | Pasted(picture: Picture, at: Point)

  /** The value of an image: what a later paste or save would read from it. */
  datatype Picture = Picture(origin: Origin, marks: seq<Mark>)

  /** The picture after further commands are applied to it. */
  function Drawn(p: Picture, more: seq<Mark>): Picture
  {
    Picture(p.origin, p.marks + more)
  }

  class Image {
    var origin: Origin
    var marks: seq<Mark>

    function View(): Picture
      reads this
    {
      Picture(origin, marks)
    }

    /** `Image.open(path).convert(mode)` */
    constructor Open(path: string, mode: string)
      ensures View() == Picture(Decoded(path, mode), [])
    {
      origin := Decoded(path, mode);
      marks := [];
    }

    /** `Image.new(mode, (width, height))` */
    constructor New(mode: string, width: nat, height: nat)
      ensures View() == Picture(Blank(mode, width, height), [])
    {
      origin := Blank(mode, width, height);
      marks := [];
    }

    /** An image with the given origin and commands already applied. */
    constructor Of(origin: Origin, marks: seq<Mark>)
      ensures View() == Picture(origin, marks)
    {
      this.origin := origin;
      this.marks := marks;
    }

    /** `img.copy()` */
    method Copy() returns (c: Image)
      ensures fresh(c) && c.View() == View()
    {
      c := new Image.Of(origin, marks);
    }

    /** `ImageDraw.Draw(img).text(at, text)` */
    method Text(at: Point, text: string)
      modifies this
      ensures View() == Picture(old(origin), old(marks) + [Label(at, text)])
    {
      marks := marks + [Label(at, text)];
    }

    /** `ImageDraw.Draw(img).rectangle(corners, outline=color, width=width)` */
    method Rectangle(corners: Polygon, color: Color, width: int)
      modifies this
      ensures View() == Picture(old(origin), old(marks) + [Outline(corners, color, width)])
    {
      marks := marks + [Outline(corners, color, width)];
    }

    /** `img.paste(src, at)`: copies what `src` shows at the time of the call. */
    method Paste(src: Image, at: Point)
      modifies this
      ensures View() == Picture(old(origin), old(marks) + [Pasted(old(src.View()), at)])
    {
      marks := marks + [Pasted(src.View(), at)];
    }
  }
}
