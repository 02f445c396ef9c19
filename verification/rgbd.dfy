/**
  The tensor-based RGBDImage: one color image and one depth image, which the
  class documentation asks to be registered and of the same resolution but
  which no operation checks.
 */
module RGBD {

  import opened Images
  import opened Results

  /** An Int64 2-vector, the result of the bound queries (as a pair of
      unbounded integers). */
  datatype Bound2 = Bound2(x: int, y: int)

  /** The composite: the public fields `color_` and `depth_`. */
  datatype RGBDImage<P> = RGBDImage(color: Image<P>, depth: Image<P>)

  /** The legacy RGBD pair: a color slot and a depth slot of legacy images. */
  datatype LegacyRGBDImage<L> = LegacyRGBDImage(color: L, depth: L)

  /** The two owned image fields. */
  datatype Slot = ColorSlot | DepthSlot

  /** The default constructor: both fields default-constructed. */
  function Default<P>(blank: P): (r: RGBDImage<P>)
    ensures r.color == r.depth == DefaultImage(blank)
    ensures r.color.rows == r.color.cols == r.depth.rows == r.depth.cols == 0
  {
    RGBDImage(DefaultImage(blank), DefaultImage(blank))
  }

  /** The parameterized constructor: copies both images in, whatever their
      resolutions. */
  function Make<P>(color: Image<P>, depth: Image<P>): (r: RGBDImage<P>)
    ensures r.color == color && r.depth == depth
  {
    RGBDImage(color, depth)
  }

  /** Minimum 2D coordinate of the data: the origin, for every state. */
  function GetMinBound<P>(s: RGBDImage<P>): (b: Bound2)
    ensures b.x == 0 && b.y == 0
  {
    Bound2(0, 0)
  }

  /** Maximum 2D coordinate of the data: the extent of the two images laid
      out side by side, with the height taken from the color image only. */
  function GetMaxBound<P>(s: RGBDImage<P>): (b: Bound2)
    ensures b == Bound2(s.color.cols + s.depth.cols, s.color.rows)
    ensures GetMinBound(s).x <= b.x && GetMinBound(s).y <= b.y
  {
    Bound2(s.color.cols + s.depth.cols, s.color.rows)
  }

  /** Conversion to the legacy pair. `convert` is Image::ToLegacyImage; a
      failure of either conversion is passed on unchanged. When both fail,
      which of the two errors surfaces is not fixed (the two conversions are
      arguments of one constructor call), so the contract admits either. */
  function ToLegacyRGBDImage<P, L, E>(s: RGBDImage<P>, convert: Image<P> -> Result<L, E>)
    : (r: Result<LegacyRGBDImage<L>, E>)
    ensures r.Success? <==> convert(s.color).Success? && convert(s.depth).Success?
    ensures r.Success? ==> r.value.color == convert(s.color).value
    ensures r.Success? ==> r.value.depth == convert(s.depth).value
    ensures r.Failure? ==>
              || (convert(s.color).Failure? && r.error == convert(s.color).error)
              || (convert(s.depth).Failure? && r.error == convert(s.depth).error)
  {
    match convert(s.color)
    case Failure(e) => Failure(e)
    case Success(c) =>
      match convert(s.depth)
      case Failure(e) => Failure(e)
      case Success(d) => Success(LegacyRGBDImage(c, d))
  }

  /** Applies the abstract Image::Clear to one field, leaving the other alone. */
  function ClearSlot<P>(s: RGBDImage<P>, slot: Slot, clear: Image<P> -> Image<P>): (r: RGBDImage<P>)
    ensures slot == ColorSlot ==> r.color == clear(s.color) && r.depth == s.depth
    ensures slot == DepthSlot ==> r.depth == clear(s.depth) && r.color == s.color
  {
    match slot
    case ColorSlot => s.(color := clear(s.color))
    case DepthSlot => s.(depth := clear(s.depth))
  }

  /** `f` applied `n` times to `x`: the effect of calling an abstract
      per-image operation (such as Image::Clear) `n` times in a row. */
  function Iterate<T>(f: T -> T, n: nat, x: T): T
    decreases n
  {
    if n == 0 then x else Iterate(f, n - 1, f(x))
  }

  /** Clears the fields named in `slots`, in that order; a field never named
      keeps its image. */
  function ClearAll<P>(s: RGBDImage<P>, slots: seq<Slot>, clear: Image<P> -> Image<P>): (r: RGBDImage<P>)
    ensures ColorSlot !in slots ==> r.color == s.color
    ensures DepthSlot !in slots ==> r.depth == s.depth
    decreases |slots|
  {
    if slots == [] then s else ClearAll(ClearSlot(s, slots[0], clear), slots[1..], clear)
  }

  /** The order in which the destructor clears the fields. */
  function DestructorOrder(): (order: seq<Slot>)
    ensures multiset(order)[ColorSlot] == 1 && multiset(order)[DepthSlot] == 1
    ensures order[0] == ColorSlot
  {
    [ColorSlot, DepthSlot]
  }

  /** The destructor's effect on the owned images: `color_.Clear()` then
      `depth_.Clear()`. */
  function Destroy<P>(s: RGBDImage<P>, clear: Image<P> -> Image<P>): (r: RGBDImage<P>)
    ensures r.color == clear(s.color) && r.depth == clear(s.depth)
  {
    ClearAll(s, DestructorOrder(), clear)
  }
}
