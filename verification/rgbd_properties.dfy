/** Properties of the RGBDImage constructors, bound queries, legacy
    conversion and destructor. */
module RGBDProperties {

  import opened Images
  import opened Results
  import opened RGBD

  /** Every state is the parameterized constructor applied to its own fields. */
  lemma ConstructorRoundTrip<P>(s: RGBDImage<P>)
    ensures Make(s.color, s.depth) == s
  {
  }

  /** The default-constructed composite is bounded by the origin on both sides. */
  lemma DefaultBounds<P>(blank: P)
    ensures GetMinBound(Default(blank)) == Bound2(0, 0)
    ensures GetMaxBound(Default(blank)) == Bound2(0, 0)
  {
  }

  /** The minimum bound is the same for any two states. */
  lemma MinBoundIndependentOfState<P>(s: RGBDImage<P>, t: RGBDImage<P>)
    ensures GetMinBound(s) == GetMinBound(t)
  {
  }

  /** Two states have the same maximum bound exactly when their total widths
      agree and their color images have the same height. */
  lemma MaxBoundEqualIff<P>(s: RGBDImage<P>, t: RGBDImage<P>)
    ensures GetMaxBound(s) == GetMaxBound(t)
            <==> s.color.cols + s.depth.cols == t.color.cols + t.depth.cols && s.color.rows == t.color.rows
  {
  }

  /** The depth image's height never reaches the maximum bound. */
  lemma MaxBoundIgnoresDepthRows<P>(color: Image<P>, depth: Image<P>, depth': Image<P>)
    requires depth.cols == depth'.cols
    ensures GetMaxBound(Make(color, depth)) == GetMaxBound(Make(color, depth'))
  {
  }

  /** A 640x480 pair is bounded by (1280, 480); a 320x240 color image with a
      160x120 depth image by (480, 240), the depth height being ignored. */
  lemma MaxBoundExamples<P>(p: P)
    ensures GetMaxBound(Make(Image(480, 640, p), Image(480, 640, p))) == Bound2(1280, 480)
    ensures GetMaxBound(Make(Image(240, 320, p), Image(120, 160, p))) == Bound2(480, 240)
  {
  }

  const Int64Max: int := 0x7FFF_FFFF_FFFF_FFFF
  const Bound62: int := 0x4000_0000_0000_0000

  /** With every count below 2^62 the Int64 sum of the two widths cannot
      overflow, so the unbounded model agrees with the source there. */
  lemma MaxBoundFitsInt64<P>(s: RGBDImage<P>)
    requires s.color.cols < Bound62 && s.depth.cols < Bound62 && s.color.rows < Bound62
    ensures 0 <= GetMaxBound(s).x <= Int64Max
    ensures 0 <= GetMaxBound(s).y <= Int64Max
  {
  }

  /** The legacy pair never swaps the slots: when the two images convert to
      different legacy images, the pair with color and depth exchanged is
      not the result. */
  lemma LegacyNeverSwapped<P, L, E>(s: RGBDImage<P>, convert: Image<P> -> Result<L, E>)
    requires convert(s.color).Success? && convert(s.depth).Success?
    requires convert(s.color).value != convert(s.depth).value
    ensures ToLegacyRGBDImage(s, convert).Success?
    ensures ToLegacyRGBDImage(s, convert).value
            != LegacyRGBDImage(convert(s.depth).value, convert(s.color).value)
  {
  }

  /** How many times `slot` occurs in a clearing order. */
  function Occurrences(slots: seq<Slot>, slot: Slot): nat
  {
    multiset(slots)[slot]
  }

  /** Clearing along any order applies Image::Clear to each field exactly as
      often as that field is named, and nothing else. */
  lemma {:induction false} ClearAllCounts<P>(s: RGBDImage<P>, slots: seq<Slot>, clear: Image<P> -> Image<P>)
    ensures ClearAll(s, slots, clear)
            == RGBDImage(Iterate(clear, Occurrences(slots, ColorSlot), s.color),
                         Iterate(clear, Occurrences(slots, DepthSlot), s.depth))
    decreases |slots|
  {
    if slots != [] {
      var s' := ClearSlot(s, slots[0], clear);
      ClearAllCounts(s', slots[1..], clear);
      assert slots == [slots[0]] + slots[1..];
      assert multiset(slots) == multiset([slots[0]]) + multiset(slots[1..]);
    }
  }

  /** Two clearing orders naming each field equally often have the same effect. */
  lemma ClearOrderIrrelevant<P>(s: RGBDImage<P>, slots: seq<Slot>, slots': seq<Slot>, clear: Image<P> -> Image<P>)
    requires multiset(slots) == multiset(slots')
    ensures ClearAll(s, slots, clear) == ClearAll(s, slots', clear)
  {
    ClearAllCounts(s, slots, clear);
    ClearAllCounts(s, slots', clear);
  }

  /** The destructor clears each owned image exactly once, and clearing depth
      before color would leave the same state. */
  lemma DestroyClearsEachOnce<P>(s: RGBDImage<P>, clear: Image<P> -> Image<P>)
    ensures Destroy(s, clear) == RGBDImage(clear(s.color), clear(s.depth))
    ensures Destroy(s, clear) == ClearAll(s, [DepthSlot, ColorSlot], clear)
  {
    ClearAllCounts(s, DestructorOrder(), clear);
    ClearOrderIrrelevant(s, DestructorOrder(), [DepthSlot, ColorSlot], clear);
  }
}
