/**
 * The design elements of the ring editor and the pure operations on the
 * scene that `RingCustomizer` performs (app/static/js/app.js): the
 * built-in gemstone table of `addElement`, removal of one object and the
 * clone made by `duplicateSelected`. A scene is the canvas's object list
 * in paint order: a later index paints on top.
 */
module Scene {
  import opened Wrappers

  /** The canvas is 800 by 600 pixels; new elements go to its centre. */
  const CanvasWidth: int := 800
  const CanvasHeight: int := 600

  /** A duplicate is shifted right and down by 20 pixels. */
  const DuplicateOffset: int := 20

  /** Stroke width of every built-in gemstone. */
  const GemStrokeWidth: nat := 2

  /** The names of the built-in gemstones, the `src` values `addElement` switches on. */
  const BuiltinGems: set<string> := {"diamond", "ruby", "amethyst", "emerald", "sapphire", "topaz"}

  datatype Point = Point(x: int, y: int)

  /** The geometry of an element, one variant per kind of canvas object. */
  datatype Shape =
    | Polygon(points: seq<Point>)
    | Circle(radius: nat)
    | Rect(width: nat, height: nat)
    | Ellipse(rx: nat, ry: nat)
    | Image(src: string)
    | Text(text: string)

  /**
   * One canvas object: its geometry, colours, the position of its centre,
   * its user-visible name ("" when it has none) and its `type` tag
   * ("gemstone", "custom", "text", ...).
   */
  datatype Element = Element(
    shape: Shape,
    fill: string,
    stroke: string,
    strokeWidth: nat,
    left: int,
    top: int,
    name: string,
    kind: string)

  /** The look of a built-in gemstone: its geometry and colours. */
  datatype Gem = Gem(shape: Shape, fill: string, stroke: string)

  /** The built-in gemstone table of `addElement`; `None` for every other source. */
  function BuiltinGem(src: string): (r: Option<Gem>)
    ensures r.Some? <==> src in BuiltinGems
    ensures r.Some? ==> BoxSize(r.value.shape).Some?
  {
    if src == "diamond" then
      Some(Gem(Polygon([Point(30, 5), Point(45, 20), Point(30, 55), Point(15, 20)]), "#DDDDDD", "#999999"))
    else if src == "ruby" then
      Some(Gem(Circle(20), "#DC143C", "#B91C2C"))
    else if src == "amethyst" then
      Some(Gem(Circle(20), "#9C27B0", "#6A1B9A"))
    else if src == "emerald" then
      Some(Gem(Rect(30, 30), "#50CD1E", "#2E7D32"))
    else if src == "sapphire" then
      Some(Gem(Ellipse(20, 15), "#007FFF", "#005FBF"))
    else if src == "topaz" then
      Some(Gem(Polygon([Point(30, 8), Point(46, 18), Point(46, 42), Point(30, 52), Point(14, 42), Point(14, 18)]),
               "#FFA500", "#E69500"))
    else
      None
  }

  /**
   * The element `addElement(src, name, type)` creates for a built-in
   * gemstone: the table's shape and colours, centred on the canvas, with
   * the given name and type tag.
   */
  function NewElement(src: string, name: string, kind: string): (r: Option<Element>)
    ensures r.Some? <==> src in BuiltinGems
    ensures r.Some? ==> r.value.left == CanvasWidth / 2 && r.value.top == CanvasHeight / 2
    ensures r.Some? ==> r.value.name == name && r.value.kind == kind
    ensures r.Some? ==> r.value.shape == BuiltinGem(src).value.shape
  {
    match BuiltinGem(src)
    case None => None
    case Some(g) =>
      Some(Element(g.shape, g.fill, g.stroke, GemStrokeWidth, CanvasWidth / 2, CanvasHeight / 2, name, kind))
  }

  function MinX(ps: seq<Point>): int
    requires ps != []
  {
    if |ps| == 1 then ps[0].x else var m := MinX(ps[1..]); if ps[0].x < m then ps[0].x else m
  }

  function MaxX(ps: seq<Point>): int
    requires ps != []
  {
    if |ps| == 1 then ps[0].x else var m := MaxX(ps[1..]); if ps[0].x > m then ps[0].x else m
  }

  function MinY(ps: seq<Point>): int
    requires ps != []
  {
    if |ps| == 1 then ps[0].y else var m := MinY(ps[1..]); if ps[0].y < m then ps[0].y else m
  }

  function MaxY(ps: seq<Point>): int
    requires ps != []
  {
    if |ps| == 1 then ps[0].y else var m := MaxY(ps[1..]); if ps[0].y > m then ps[0].y else m
  }

  /** Width and height of the bounding box of a geometric shape; `None` for pictures and text. */
  function BoxSize(shape: Shape): Option<(int, int)>
  {
    match shape
    case Polygon(ps) => if ps == [] then None else Some((MaxX(ps) - MinX(ps), MaxY(ps) - MinY(ps)))
    case Circle(r) => Some((2 * r, 2 * r))
    case Rect(w, h) => Some((w, h))
    case Ellipse(rx, ry) => Some((2 * rx, 2 * ry))
    case Image(_) => None
    case Text(_) => None
  }

  /** The bounding box of a built-in gemstone: width 30 by height 50 for the diamond, and so on. */
  function GemBox(src: string): (int, int)
  {
    if src == "diamond" then (30, 50)
    else if src == "ruby" || src == "amethyst" then (40, 40)
    else if src == "emerald" then (30, 30)
    else if src == "sapphire" then (40, 30)
    else (32, 44)
  }

  /** Every built-in gemstone's geometry has the bounding box `GemBox` gives. */
  lemma BuiltinGemsFitGemstoneBox(src: string)
    requires src in BuiltinGems
    ensures BoxSize(BuiltinGem(src).value.shape) == Some(GemBox(src))
  {
    if src == "diamond" {
      DiamondBox();
    } else if src == "topaz" {
      TopazBox();
    }
  }

  lemma DiamondBox()
    ensures BoxSize(BuiltinGem("diamond").value.shape) == Some((30, 50))
  {
  }

  lemma TopazBox()
    ensures BoxSize(BuiltinGem("topaz").value.shape) == Some((32, 44))
  {
  }

  /** The scene with the element at index `i` taken out. */
  function RemoveAt<T>(s: seq<T>, i: nat): (r: seq<T>)
    requires i < |s|
    ensures |r| == |s| - 1
    ensures forall j :: 0 <= j < i ==> r[j] == s[j]
    ensures forall j :: i <= j < |r| ==> r[j] == s[j + 1]
    ensures multiset(r) + multiset{s[i]} == multiset(s)
  {
    assert s == s[..i] + [s[i]] + s[i + 1..];
    s[..i] + s[i + 1..]
  }

  /** The name of a copy: the original's name, or "Copy" when it has none, followed by " Copy". */
  function CopyName(name: string): string
  {
    (if name == "" then "Copy" else name) + " Copy"
  }

  /** The clone `duplicateSelected` adds: moved by the offset, renamed, otherwise identical. */
  function Duplicate(e: Element): (d: Element)
    ensures d.left == e.left + DuplicateOffset && d.top == e.top + DuplicateOffset
    ensures d.name == CopyName(e.name)
    ensures d.(left := e.left, top := e.top, name := e.name) == e
  {
    e.(left := e.left + DuplicateOffset, top := e.top + DuplicateOffset, name := CopyName(e.name))
  }

  /** A copy's name always ends in " Copy" and keeps the original name in front of it. */
  lemma CopyNameEndsInCopy(name: string)
    ensures |CopyName(name)| >= 5 && CopyName(name)[|CopyName(name)| - 5..] == " Copy"
    ensures name != "" ==> CopyName(name)[..|name|] == name
    ensures name == "" ==> CopyName(name) == "Copy Copy"
  {
  }
}
