/**
  The tensor-backed Image as the RGBD composite sees it: a row count, a
  column count, and content (pixel tensor, dtype, device) that the composite
  never inspects and that this model leaves uninterpreted as `P`.
 */
module Images {

  datatype Image<P> = Image(rows: nat, cols: nat, content: P)

  /** A default-constructed Image has no rows and no columns; `blank` stands
      for its empty tensor. */
  function DefaultImage<P>(blank: P): (img: Image<P>)
    ensures img.rows == 0 && img.cols == 0
  {
    Image(0, 0, blank)
  }
}
