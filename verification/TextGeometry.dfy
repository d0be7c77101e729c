/**
  Text geometry of atk/atktext.c: character boxes, their union over a range of offsets, and the ranges of
  text inside a clip rectangle. Coordinates are unbounded integers.
 */
module TextGeometry {
  import opened Common

  datatype Rect = Rect(x: int, y: int, width: int, height: int)

  const NO_RECT := Rect(-1, -1, -1, -1)

  /** The virtual function get_range_extents, which has a default. */
  datatype RangeExtentsImpl = Missing | Default | Override(f: (int, int) -> Rect)

  /** The implementor's virtual functions, as functions of their arguments; each may be missing. */
  datatype Text = Text(
    characterExtents: Option<int -> Rect>,
    offsetAtPoint: Option<(int, int) -> int>,
    lineAtOffset: Option<int -> (int, int)>,
    substring: Option<(int, int) -> string>,
    rangeExtents: RangeExtentsImpl)

  /** atk_text_get_character_extents */
  function CharacterExtents(t: Text, offset: int): Rect {
    if offset < 0 then NO_RECT
    else
      var r := if t.characterExtents.Some? then t.characterExtents.value(offset) else NO_RECT;
      if r.width < 0 then r.(x := r.x + r.width, width := -r.width) else r
  }

  /**
    At every proper offset the width is non-negative, also when the implementor gives no extents at all:
    the default of -1 is turned over like any negative width.
   */
  lemma ExtentsWidth(t: Text, offset: int)
    ensures CharacterExtents(t, offset).width < 0 <==> offset < 0
    ensures offset < 0 ==> CharacterExtents(t, offset) == Rect(-1, -1, -1, -1)
    ensures offset >= 0 && t.characterExtents.None? ==> CharacterExtents(t, offset) == Rect(-2, -1, 1, -1)
  {
  }

  /** Turning a box over keeps its two vertical sides where the implementor put them. */
  lemma ExtentsKeepSides(t: Text, offset: int)
    requires offset >= 0 && t.characterExtents.Some?
    ensures var raw, r := t.characterExtents.value(offset), CharacterExtents(t, offset);
            && r.x == Min(raw.x, raw.x + raw.width)
            && r.x + r.width == Max(raw.x, raw.x + raw.width)
            && r.y == raw.y && r.height == raw.height
  {
  }

  // ---------------------------------------------------------------- unions

  /** What atk_text_rectangle_union leaves in its destination. */
  function UnionOf(a: Rect, b: Rect): Rect {
    if a.width == -1 then b
    else if b.width == -1 then a
    else
      var x, y := Min(a.x, b.x), Min(a.y, b.y);
      Rect(x, y, Max(a.x + a.width, b.x + b.width) - x, Max(a.y + a.height, b.y + b.height) - y)
  }

  /**
    A box of width -1 counts as none; the union of two others is the box that contains both and whose sides
    each lie on a side of one of them.
   */
  lemma UnionMeaning(a: Rect, b: Rect)
    ensures a.width == -1 ==> UnionOf(a, b) == b
    ensures b.width == -1 && a.width != -1 ==> UnionOf(a, b) == a
    ensures a.width != -1 && b.width != -1 ==>
              var u := UnionOf(a, b);
              && Inside(a, u) && Inside(b, u)
              && (u.x == a.x || u.x == b.x) && (u.y == a.y || u.y == b.y)
              && (u.x + u.width == a.x + a.width || u.x + u.width == b.x + b.width)
              && (u.y + u.height == a.y + a.height || u.y + u.height == b.y + b.height)
  {
  }

  class TextRectangle {
    var x: int
    var y: int
    var width: int
    var height: int

    function Value(): Rect
      reads this
    {
      Rect(x, y, width, height)
    }

    constructor (r: Rect)
      ensures Value() == r
    {
      x, y, width, height := r.x, r.y, r.width, r.height;
    }

    method Set(r: Rect)
      modifies this
      ensures Value() == r
    {
      x, y, width, height := r.x, r.y, r.width, r.height;
    }
  }

  /** atk_text_rectangle_union; the destination may be either source. */
  method RectangleUnion(src1: TextRectangle, src2: TextRectangle, dest: TextRectangle)
    modifies dest
    ensures dest.Value() == UnionOf(old(src1.Value()), old(src2.Value()))
  {
    if src1.width == -1 {
      dest.Set(src2.Value());
      return;
    }
    if src2.width == -1 {
      dest.Set(src1.Value());
      return;
    }
    var destX := Min(src1.x, src2.x);
    var destY := Min(src1.y, src2.y);
    dest.width := Max(src1.x + src1.width, src2.x + src2.width) - destX;
    dest.height := Max(src1.y + src1.height, src2.y + src2.height) - destY;
    dest.x := destX;
    dest.y := destY;
  }

  /** The fold of unions over the offsets from `a` up to `b`. */
  function Extents(t: Text, a: int, b: int): Rect
    decreases b - a
  {
    if b <= a + 1 then CharacterExtents(t, a) else UnionOf(Extents(t, a, b - 1), CharacterExtents(t, b - 1))
  }

  /** `inner` lies within `outer`. */
  predicate Inside(inner: Rect, outer: Rect) {
    && outer.x <= inner.x && inner.x + inner.width <= outer.x + outer.width
    && outer.y <= inner.y && inner.y + inner.height <= outer.y + outer.height
  }

  /** `r` contains the box of every offset in the range, and each of its four sides touches one of them. */
  ghost predicate IsTightBox(t: Text, a: int, b: int, r: Rect) {
    && (forall i :: a <= i < b ==> Inside(CharacterExtents(t, i), r))
    && (exists i :: a <= i < b && CharacterExtents(t, i).x == r.x)
    && (exists i :: a <= i < b && CharacterExtents(t, i).y == r.y)
    && (exists i :: a <= i < b && CharacterExtents(t, i).x + CharacterExtents(t, i).width == r.x + r.width)
    && (exists i :: a <= i < b && CharacterExtents(t, i).y + CharacterExtents(t, i).height == r.y + r.height)
  }

  lemma TightBoxUnique(t: Text, a: int, b: int, r: Rect, s: Rect)
    requires IsTightBox(t, a, b, r) && IsTightBox(t, a, b, s)
    ensures r == s
  {
  }

  lemma TightBoxJoin(t: Text, a: int, b: int, c: int, r: Rect, s: Rect)
    requires a < b < c && IsTightBox(t, a, b, r) && IsTightBox(t, b, c, s)
    requires r.width >= 0 && s.width >= 0
    ensures IsTightBox(t, a, c, UnionOf(r, s)) && UnionOf(r, s).width >= 0
  {
    JoinContains(t, a, b, c, r, s);
    JoinTouchesLow(t, a, b, c, r, s);
    JoinTouchesHigh(t, a, b, c, r, s);
  }

  lemma JoinContains(t: Text, a: int, b: int, c: int, r: Rect, s: Rect)
    requires a < b < c && r.width >= 0 && s.width >= 0
    requires forall i :: a <= i < b ==> Inside(CharacterExtents(t, i), r)
    requires forall i :: b <= i < c ==> Inside(CharacterExtents(t, i), s)
    ensures forall i :: a <= i < c ==> Inside(CharacterExtents(t, i), UnionOf(r, s))
  {
  }

  lemma JoinTouchesLow(t: Text, a: int, b: int, c: int, r: Rect, s: Rect)
    requires a < b < c && r.width >= 0 && s.width >= 0
    requires exists i :: a <= i < b && CharacterExtents(t, i).x == r.x
    requires exists i :: b <= i < c && CharacterExtents(t, i).x == s.x
    requires exists i :: a <= i < b && CharacterExtents(t, i).y == r.y
    requires exists i :: b <= i < c && CharacterExtents(t, i).y == s.y
    ensures exists i :: a <= i < c && CharacterExtents(t, i).x == UnionOf(r, s).x
    ensures exists i :: a <= i < c && CharacterExtents(t, i).y == UnionOf(r, s).y
  {
  }

  lemma JoinTouchesHigh(t: Text, a: int, b: int, c: int, r: Rect, s: Rect)
    requires a < b < c && r.width >= 0 && s.width >= 0
    requires exists i :: a <= i < b && CharacterExtents(t, i).x + CharacterExtents(t, i).width == r.x + r.width
    requires exists i :: b <= i < c && CharacterExtents(t, i).x + CharacterExtents(t, i).width == s.x + s.width
    requires exists i :: a <= i < b && CharacterExtents(t, i).y + CharacterExtents(t, i).height == r.y + r.height
    requires exists i :: b <= i < c && CharacterExtents(t, i).y + CharacterExtents(t, i).height == s.y + s.height
    ensures var u := UnionOf(r, s);
            exists i :: a <= i < c && CharacterExtents(t, i).x + CharacterExtents(t, i).width == u.x + u.width
    ensures var u := UnionOf(r, s);
            exists i :: a <= i < c && CharacterExtents(t, i).y + CharacterExtents(t, i).height == u.y + u.height
  {
  }

  lemma SingleIsTight(t: Text, a: int)
    ensures IsTightBox(t, a, a + 1, CharacterExtents(t, a))
    ensures a >= 0 ==> CharacterExtents(t, a).width >= 0
  {
    ExtentsWidth(t, a);
    assert a <= a < a + 1;
  }

  /** The fold is the tight bounding box of the characters' boxes. */
  lemma {:induction false} ExtentsTight(t: Text, a: int, b: int)
    requires 0 <= a < b
    ensures IsTightBox(t, a, b, Extents(t, a, b)) && Extents(t, a, b).width >= 0
    decreases b - a
  {
    if b == a + 1 {
      SingleIsTight(t, a);
    } else {
      ExtentsTight(t, a, b - 1);
      OneMoreIsTight(t, a, b);
    }
  }

  lemma OneMoreIsTight(t: Text, a: int, b: int)
    requires 0 <= a < b - 1
    requires IsTightBox(t, a, b - 1, Extents(t, a, b - 1)) && Extents(t, a, b - 1).width >= 0
    ensures IsTightBox(t, a, b, Extents(t, a, b)) && Extents(t, a, b).width >= 0
  {
    SingleIsTight(t, b - 1);
    TightBoxJoin(t, a, b - 1, b, Extents(t, a, b - 1), CharacterExtents(t, b - 1));
  }

  /** The extents of a range are the union of the extents of its two parts. */
  lemma ExtentsSplit(t: Text, a: int, b: int, c: int)
    requires 0 <= a < b < c
    ensures Extents(t, a, c) == UnionOf(Extents(t, a, b), Extents(t, b, c))
  {
    ExtentsTight(t, a, b);
    ExtentsTight(t, b, c);
    ExtentsTight(t, a, c);
    TightBoxJoin(t, a, b, c, Extents(t, a, b), Extents(t, b, c));
    TightBoxUnique(t, a, c, Extents(t, a, c), UnionOf(Extents(t, a, b), Extents(t, b, c)));
  }

  /** atk_text_real_get_range_extents: the running box is both a source and the destination of each union. */
  method RealGetRangeExtents(t: Text, startOffset: int, endOffset: int, rect: TextRectangle)
    modifies rect
    ensures rect.Value() == Extents(t, startOffset, endOffset)
  {
    var bounds := new TextRectangle(CharacterExtents(t, startOffset));
    var cbounds := new TextRectangle(NO_RECT);
    var i := startOffset + 1;
    while i < endOffset
      invariant fresh(bounds) && fresh(cbounds) && bounds != cbounds
      invariant startOffset + 1 <= i && (startOffset + 1 <= endOffset ==> i <= endOffset)
      invariant bounds.Value() == Extents(t, startOffset, i)
      invariant i > startOffset + 1 ==> i <= endOffset
    {
      cbounds.Set(CharacterExtents(t, i));
      RectangleUnion(bounds, cbounds, bounds);
      i := i + 1;
    }
    rect.Set(bounds.Value());
  }

  /** The box a text gives for a proper range: its own, the tight one, or -1 throughout. */
  function RangeExtents(t: Text, a: int, b: int): Rect {
    match t.rangeExtents
    case Missing => NO_RECT
    case Default => Extents(t, a, b)
    case Override(f) => f(a, b)
  }

  /** atk_text_get_range_extents: outside its guard it leaves the rectangle alone. */
  method GetRangeExtents(t: Text, startOffset: int, endOffset: int, rect: TextRectangle) returns (written: bool)
    modifies rect
    ensures written <==> 0 <= startOffset < endOffset
    ensures rect.Value() == if written then RangeExtents(t, startOffset, endOffset) else old(rect.Value())
    ensures written && t.rangeExtents.Default? ==> IsTightBox(t, startOffset, endOffset, rect.Value())
    ensures written && t.rangeExtents.Missing? ==> rect.Value() == Rect(-1, -1, -1, -1)
    ensures written && t.rangeExtents.Override? ==> rect.Value() == t.rangeExtents.f(startOffset, endOffset)
  {
    written := 0 <= startOffset < endOffset;
    if written {
      match t.rangeExtents
      case Missing => rect.Set(NO_RECT);
      case Override(f) => rect.Set(f(startOffset, endOffset));
      case Default =>
        ExtentsTight(t, startOffset, endOffset);
        RealGetRangeExtents(t, startOffset, endOffset, rect);
    }
  }

  // ---------------------------------------------------------------- clipping

  datatype Clip = ClipNone | ClipMin | ClipMax | ClipBoth

  /** atk_text_rectangle_contain */
  predicate Contain(clip: Rect, bounds: Rect, xClip: Clip, yClip: Clip) {
    var xMinOk := bounds.x >= clip.x
                  || (bounds.x + bounds.width >= clip.x && (xClip == ClipNone || xClip == ClipMax));
    var xMaxOk := bounds.x + bounds.width <= clip.x + clip.width
                  || (bounds.x <= clip.x + clip.width && (xClip == ClipNone || xClip == ClipMin));
    var yMinOk := bounds.y >= clip.y
                  || (bounds.y + bounds.height >= clip.y && (yClip == ClipNone || yClip == ClipMax));
    var yMaxOk := bounds.y + bounds.height <= clip.y + clip.height
                  || (bounds.y <= clip.y + clip.height && (yClip == ClipNone || yClip == ClipMin));
    xMinOk && xMaxOk && yMinOk && yMaxOk
  }

  /** The point lies in the closed box. */
  predicate Covers(r: Rect, x: int, y: int) {
    r.x <= x <= r.x + r.width && r.y <= y <= r.y + r.height
  }

  /** Two closed boxes have a point in common. */
  ghost predicate Meet(a: Rect, b: Rect) {
    exists x, y :: Covers(a, x, y) && Covers(b, x, y)
  }

  lemma MeetIff(a: Rect, b: Rect)
    requires a.width >= 0 && a.height >= 0 && b.width >= 0 && b.height >= 0
    ensures Meet(a, b) <==>
            && b.x <= a.x + a.width && a.x <= b.x + b.width
            && b.y <= a.y + a.height && a.y <= b.y + b.height
  {
    var x, y := Max(a.x, b.x), Max(a.y, b.y);
    if b.x <= a.x + a.width && a.x <= b.x + b.width && b.y <= a.y + a.height && a.y <= b.y + b.height {
      assert Covers(a, x, y) && Covers(b, x, y);
    }
  }

  /** The minimum coordinate is clipped against. */
  predicate ClipsMin(c: Clip) {
    c == ClipMin || c == ClipBoth
  }

  predicate ClipsMax(c: Clip) {
    c == ClipMax || c == ClipBoth
  }

  /**
    What the clip types mean for boxes of non-negative size: the box meets the clip rectangle, and on each
    side that is clipped against it does not stick out.
   */
  lemma ClipMeaning(clip: Rect, bounds: Rect, xClip: Clip, yClip: Clip)
    requires clip.width >= 0 && clip.height >= 0 && bounds.width >= 0 && bounds.height >= 0
    ensures Contain(clip, bounds, xClip, yClip) <==>
            && Meet(clip, bounds)
            && (ClipsMin(xClip) ==> bounds.x >= clip.x)
            && (ClipsMax(xClip) ==> bounds.x + bounds.width <= clip.x + clip.width)
            && (ClipsMin(yClip) ==> bounds.y >= clip.y)
            && (ClipsMax(yClip) ==> bounds.y + bounds.height <= clip.y + clip.height)
  {
    MeetIff(clip, bounds);
  }

  /**
    For all sizes: between its two vertical sides, whichever comes first, the box reaches the clip rectangle,
    and likewise between its horizontal ones; and a side that is clipped against keeps within.
   */
  lemma ClipMeaningAnySize(clip: Rect, bounds: Rect, xClip: Clip, yClip: Clip)
    ensures Contain(clip, bounds, xClip, yClip) <==>
            && Max(bounds.x, bounds.x + bounds.width) >= clip.x
            && Min(bounds.x, bounds.x + bounds.width) <= clip.x + clip.width
            && Max(bounds.y, bounds.y + bounds.height) >= clip.y
            && Min(bounds.y, bounds.y + bounds.height) <= clip.y + clip.height
            && (xClip in {ClipMin, ClipBoth} ==> bounds.x >= clip.x)
            && (xClip in {ClipMax, ClipBoth} ==> bounds.x + bounds.width <= clip.x + clip.width)
            && (yClip in {ClipMin, ClipBoth} ==> bounds.y >= clip.y)
            && (yClip in {ClipMax, ClipBoth} ==> bounds.y + bounds.height <= clip.y + clip.height)
  {
  }

  /** Clipped on both sides a box passes exactly when it lies inside; sizes do not matter. */
  lemma BothClipIffInside(clip: Rect, bounds: Rect)
    ensures Contain(clip, bounds, ClipBoth, ClipBoth) <==> Inside(bounds, clip)
  {
  }

  predicate Stricter(strict: Clip, loose: Clip) {
    strict == loose || strict == ClipBoth || loose == ClipNone
  }

  // ---------------------------------------------------------------- bounded ranges

  datatype TextRange = TextRange(startOffset: int, endOffset: int, content: Option<string>, bounds: Option<Rect>)

  datatype Query = Query(text: Text, rect: Rect, xClip: Clip, yClip: Clip)

  /** The character at the offset passes the clip test. */
  predicate Passes(q: Query, i: int) {
    Contain(q.rect, CharacterExtents(q.text, i), q.xClip, q.yClip)
  }

  /** A stricter clip lets a subset of the offsets pass. */
  lemma StricterPassesFewer(q: Query, xClip: Clip, yClip: Clip, i: int)
    requires Stricter(xClip, q.xClip) && Stricter(yClip, q.yClip)
    ensures Passes(q.(xClip := xClip, yClip := yClip), i) ==> Passes(q, i)
  {
  }

  function OffsetAtPoint(t: Text, x: int, y: int): int {
    if t.offsetAtPoint.Some? then t.offsetAtPoint.value(x, y) else -1
  }

  /** The bounds of the line at an offset; they stay zero when the implementor gives none. */
  function LineAt(t: Text, offset: int): (int, int) {
    if t.lineAtOffset.Some? then t.lineAtOffset.value(offset) else (0, 0)
  }

  /** atk_text_get_text */
  function GetText(t: Text, a: int, b: int): Option<string> {
    if a < 0 || b < -1 || (b != -1 && b < a) || t.substring.None? then None else Some(t.substring.value(a, b))
  }

  function MinOffset(q: Query): int {
    OffsetAtPoint(q.text, q.rect.x, q.rect.y)
  }

  function MaxOffset(q: Query): int {
    OffsetAtPoint(q.text, q.rect.x + q.rect.width, q.rect.y + q.rect.height)
  }

  /** Both corners fall on offset zero, and the search is given up. */
  predicate GivesUp(q: Query) {
    MinOffset(q) == 0 && MaxOffset(q) == 0
  }

  function Low(q: Query): int {
    Min(LineAt(q.text, MinOffset(q)).0, LineAt(q.text, MaxOffset(q)).0)
  }

  function High(q: Query): int {
    Max(LineAt(q.text, MinOffset(q)).1, LineAt(q.text, MaxOffset(q)).1)
  }

  /** The offset that the implementor finds at a point, or -1, and the line it gives for an offset, or (0, 0). */
  lemma CallbacksOrDefaults(t: Text, x: int, y: int, offset: int)
    ensures t.offsetAtPoint.Some? ==> OffsetAtPoint(t, x, y) == t.offsetAtPoint.value(x, y)
    ensures t.offsetAtPoint.None? ==> OffsetAtPoint(t, x, y) == -1
    ensures t.lineAtOffset.Some? ==> LineAt(t, offset) == t.lineAtOffset.value(offset)
    ensures t.lineAtOffset.None? ==> LineAt(t, offset) == (0, 0)
  {
  }

  /** The lines at the upper left and at the lower right corner of the query's rectangle. */
  ghost predicate CornerLines(q: Query, a: (int, int), b: (int, int)) {
    && q.text.offsetAtPoint.Some? && q.text.lineAtOffset.Some?
    && a == q.text.lineAtOffset.value(q.text.offsetAtPoint.value(q.rect.x, q.rect.y))
    && b == q.text.lineAtOffset.value(
              q.text.offsetAtPoint.value(q.rect.x + q.rect.width, q.rect.y + q.rect.height))
  }

  /** The search runs from the earlier beginning to the later end of the two corners' lines. */
  lemma SearchSpansLines(q: Query, a: (int, int), b: (int, int))
    requires CornerLines(q, a, b)
    ensures Low(q) in {a.0, b.0} && Low(q) <= a.0 && Low(q) <= b.0
    ensures High(q) in {a.1, b.1} && High(q) >= a.1 && High(q) >= b.1
  {
  }

  /** It is given up exactly when both corners fall on offset zero. */
  lemma GivesUpIff(q: Query)
    ensures GivesUp(q) <==>
            && q.text.offsetAtPoint.Some?
            && q.text.offsetAtPoint.value(q.rect.x, q.rect.y) == 0
            && q.text.offsetAtPoint.value(q.rect.x + q.rect.width, q.rect.y + q.rect.height) == 0
  {
  }

  /** A run of passing offsets within the bounds that cannot be made longer. */
  predicate MaximalRun(q: Query, lo: int, hi: int, r: TextRange) {
    && lo <= r.startOffset < r.endOffset <= hi
    && (forall i :: r.startOffset <= i < r.endOffset ==> Passes(q, i))
    && (r.startOffset == lo || !Passes(q, r.startOffset - 1))
    && (r.endOffset == hi || !Passes(q, r.endOffset))
  }

  predicate InRange(r: TextRange, i: int) {
    r.startOffset <= i < r.endOffset
  }

  ghost predicate Separated(rs: seq<TextRange>) {
    forall j, k :: 0 <= j < k < |rs| ==> rs[j].endOffset < rs[k].startOffset
  }

  ghost predicate CoversAll(q: Query, lo: int, hi: int, rs: seq<TextRange>) {
    forall i :: lo <= i < hi && Passes(q, i) ==> exists k :: 0 <= k < |rs| && InRange(rs[k], i)
  }

  /** The ranges are exactly the maximal runs between the bounds, in order. */
  ghost predicate AreTheRuns(q: Query, lo: int, hi: int, rs: seq<TextRange>) {
    && (forall k :: 0 <= k < |rs| ==> MaximalRun(q, lo, hi, rs[k]))
    && Separated(rs)
    && CoversAll(q, lo, hi, rs)
  }

  /** Each range carries its own text and extents; extents are unwritten for a negative start. */
  predicate Described(q: Query, r: TextRange) {
    && r.content == GetText(q.text, r.startOffset, r.endOffset)
    && r.bounds == if r.startOffset < 0 then None else Some(RangeExtents(q.text, r.startOffset, r.endOffset))
  }

  /** A range carries the implementor's text, if there is any, and the box that the text gives for the range. */
  lemma DescribedMeaning(q: Query, r: TextRange)
    requires 0 <= r.startOffset < r.endOffset && Described(q, r)
    ensures r.content == if q.text.substring.None? then None
                         else Some(q.text.substring.value(r.startOffset, r.endOffset))
    ensures q.text.rangeExtents.Default? ==>
              r.bounds.Some? && IsTightBox(q.text, r.startOffset, r.endOffset, r.bounds.value)
  {
    ExtentsTight(q.text, r.startOffset, r.endOffset);
  }

  ghost predicate AllDescribed(q: Query, rs: seq<TextRange>) {
    forall r :: r in rs ==> Described(q, r)
  }

  lemma OneMoreDescribed(q: Query, rs: seq<TextRange>, r: TextRange)
    requires AllDescribed(q, rs) && Described(q, r)
    ensures AllDescribed(q, rs + [r])
  {
  }

  /** What a caller reading the array up to its null terminator sees. */
  function Listed(a: seq<Option<TextRange>>): seq<TextRange> {
    if a == [] || a[0].None? then [] else [a[0].value] + Listed(a[1..])
  }

  lemma {:induction false} ListedUpTo(a: seq<Option<TextRange>>, rs: seq<TextRange>)
    requires |rs| < |a| && a[|rs|] == None
    requires forall k :: 0 <= k < |rs| ==> a[k] == Some(rs[k])
    ensures Listed(a) == rs
  {
    if rs != [] {
      assert forall k :: 0 <= k < |rs[1..]| ==> a[1..][k] == Some(rs[1..][k]);
      ListedUpTo(a[1..], rs[1..]);
    }
  }

  /** The maximal runs are determined by the query: no other list of ranges fits the description. */
  lemma RunsUnique(q: Query, lo: int, hi: int, rs: seq<TextRange>, ss: seq<TextRange>)
    requires AreTheRuns(q, lo, hi, rs) && AreTheRuns(q, lo, hi, ss)
    ensures |rs| == |ss|
    ensures forall k :: 0 <= k < |rs| ==>
              rs[k].startOffset == ss[k].startOffset && rs[k].endOffset == ss[k].endOffset
  {
    RunsAgree(q, lo, hi, rs, ss, |rs|);
    RunsAgree(q, lo, hi, ss, rs, |ss|);
  }

  /** Two maximal runs that share an offset are the same. */
  lemma SharedRunSame(q: Query, lo: int, hi: int, r: TextRange, s: TextRange, i: int)
    requires MaximalRun(q, lo, hi, r) && MaximalRun(q, lo, hi, s) && InRange(r, i) && InRange(s, i)
    ensures r.startOffset == s.startOffset && r.endOffset == s.endOffset
  {
    assert r.startOffset < s.startOffset ==> InRange(r, s.startOffset - 1);
    assert s.startOffset < r.startOffset ==> InRange(s, r.startOffset - 1);
    assert r.endOffset < s.endOffset ==> InRange(s, r.endOffset);
    assert s.endOffset < r.endOffset ==> InRange(r, s.endOffset);
  }

  lemma {:induction false} RunsAgree(q: Query, lo: int, hi: int, rs: seq<TextRange>, ss: seq<TextRange>, n: nat)
    requires AreTheRuns(q, lo, hi, rs) && AreTheRuns(q, lo, hi, ss) && n <= |rs|
    ensures n <= |ss|
    ensures forall k :: 0 <= k < n ==>
              rs[k].startOffset == ss[k].startOffset && rs[k].endOffset == ss[k].endOffset
  {
    if n > 0 {
      RunsAgree(q, lo, hi, rs, ss, n - 1);
      NextRunAgrees(q, lo, hi, rs, ss, n - 1);
    }
  }

  lemma NextRunAgrees(q: Query, lo: int, hi: int, rs: seq<TextRange>, ss: seq<TextRange>, n: nat)
    requires AreTheRuns(q, lo, hi, rs) && AreTheRuns(q, lo, hi, ss) && n < |rs| && n <= |ss|
    requires forall k :: 0 <= k < n ==>
               rs[k].startOffset == ss[k].startOffset && rs[k].endOffset == ss[k].endOffset
    ensures n < |ss| && rs[n].startOffset == ss[n].startOffset && rs[n].endOffset == ss[n].endOffset
  {
    var j := SameRunIn(q, lo, hi, ss, rs[n]);
    if j > n {
      var k := SameRunIn(q, lo, hi, rs, ss[n]);
    }
  }

  /** A complete list of runs holds every maximal run. */
  lemma SameRunIn(q: Query, lo: int, hi: int, rs: seq<TextRange>, r: TextRange) returns (k: nat)
    requires AreTheRuns(q, lo, hi, rs) && MaximalRun(q, lo, hi, r)
    ensures k < |rs| && rs[k].startOffset == r.startOffset && rs[k].endOffset == r.endOffset
  {
    k := RunContaining(q, lo, hi, rs, r.startOffset);
    SharedRunSame(q, lo, hi, rs[k], r, r.startOffset);
  }

  lemma RunContaining(q: Query, lo: int, hi: int, rs: seq<TextRange>, i: int) returns (k: nat)
    requires AreTheRuns(q, lo, hi, rs) && lo <= i < hi && Passes(q, i)
    ensures k < |rs| && InRange(rs[k], i)
  {
    k :| 0 <= k < |rs| && InRange(rs[k], i);
  }

  /** Under clipping on both sides the default bounds of every range lie inside the clip rectangle. */
  lemma ClippedBoundsInside(q: Query, lo: int, hi: int, rs: seq<TextRange>, k: nat)
    requires q.xClip == ClipBoth && q.yClip == ClipBoth && q.text.rangeExtents.Default?
    requires 0 <= lo && AreTheRuns(q, lo, hi, rs) && k < |rs| && Described(q, rs[k])
    ensures rs[k].bounds.Some? && Inside(rs[k].bounds.value, q.rect)
  {
    ExtentsTight(q.text, rs[k].startOffset, rs[k].endOffset);
    forall i | InRange(rs[k], i) ensures Inside(CharacterExtents(q.text, i), q.rect) {
      assert Passes(q, i);
      BothClipIffInside(q.rect, CharacterExtents(q.text, i));
    }
    TightInside(q.text, rs[k].startOffset, rs[k].endOffset, rs[k].bounds.value, q.rect);
  }

  /** A tight box lies inside whatever contains all its parts. */
  lemma TightInside(t: Text, a: int, b: int, r: Rect, outer: Rect)
    requires IsTightBox(t, a, b, r)
    requires forall i :: a <= i < b ==> Inside(CharacterExtents(t, i), outer)
    ensures Inside(r, outer)
  {
  }

  /**
    The early return is not covered by the promise: a single character at offset zero inside the
    rectangle is a run, and it is not returned.
   */
  lemma EarlyReturnLosesRuns() returns (q: Query)
    ensures GivesUp(q) && Low(q) == 0 && High(q) == 1 && Passes(q, 0)
    ensures !AreTheRuns(q, Low(q), High(q), [])
  {
    var t := Text(Some((i: int) => Rect(0, 0, 5, 5)), Some((x: int, y: int) => 0),
                  Some((i: int) => (0, 1)), None, Default);
    q := Query(t, Rect(0, 0, 9, 9), ClipBoth, ClipBoth);
    assert Passes(q, 0);
    assert !CoversAll(q, 0, 1, []);
  }

  /** To return nothing is right exactly when no offset between the bounds passes. */
  lemma NothingIsRightIff(q: Query, lo: int, hi: int)
    ensures AreTheRuns(q, lo, hi, []) <==> forall i :: lo <= i < hi ==> !Passes(q, i)
  {
    if AreTheRuns(q, lo, hi, []) {
      forall i | lo <= i < hi ensures !Passes(q, i) {
        if Passes(q, i) {
          var k := RunContaining(q, lo, hi, [], i);
          assert false;
        }
      }
    }
  }

  // ---------------------------------------------------------------- the search

  /** A run that begins after a gap joins the runs found so far. */
  lemma AddRun(q: Query, lo: int, c: int, rs: seq<TextRange>, r: TextRange)
    requires AreTheRuns(q, lo, c, rs) && lo <= c
    requires c == lo || !Passes(q, c - 1)
    requires r.startOffset == c < r.endOffset && forall i :: c <= i < r.endOffset ==> Passes(q, i)
    ensures AreTheRuns(q, lo, r.endOffset, rs + [r])
  {
    var e := r.endOffset;
    forall k | 0 <= k < |rs| ensures rs[k].endOffset < c && MaximalRun(q, lo, e, rs[k]) {
    }
    var all := rs + [r];
    assert MaximalRun(q, lo, e, r);
    forall k | 0 <= k < |all| ensures MaximalRun(q, lo, e, all[k]) {
      assert k < |rs| ==> all[k] == rs[k];
    }
    forall i | lo <= i < e && Passes(q, i) ensures exists k :: 0 <= k < |all| && InRange(all[k], i) {
      if i < c {
        var k := RunContaining(q, lo, c, rs, i);
        assert InRange(all[k], i);
      } else {
        assert InRange(all[|rs|], i);
      }
    }
  }

  /** An offset that does not pass closes the runs before it. */
  lemma SkipOffset(q: Query, lo: int, c: int, rs: seq<TextRange>)
    requires AreTheRuns(q, lo, c, rs) && lo <= c && !Passes(q, c)
    ensures AreTheRuns(q, lo, c + 1, rs)
  {
    forall k | 0 <= k < |rs| ensures MaximalRun(q, lo, c + 1, rs[k]) {
    }
    forall i | lo <= i < c + 1 && Passes(q, i) ensures exists k :: 0 <= k < |rs| && InRange(rs[k], i) {
      assert i < c;
    }
  }

  /** Where the outer loop stands before it looks at `c`. */
  ghost predicate RunsSoFar(q: Query, lo: int, hi: int, c: int, rs: seq<TextRange>) {
    if lo >= hi then rs == [] && c == lo
    else lo <= c <= hi + 1 && AreTheRuns(q, lo, Min(c, hi), rs) && (lo < c < hi ==> !Passes(q, c - 1))
  }

  lemma RunsComplete(q: Query, lo: int, hi: int, c: int, rs: seq<TextRange>)
    requires RunsSoFar(q, lo, hi, c, rs) && c >= hi
    ensures AreTheRuns(q, lo, hi, rs)
  {
  }

  /**
    One turn of the outer loop: the run from `c` to `e`, unless it is empty, joins the runs, and the offset
    at `e` ends it.
   */
  lemma NextRun(q: Query, lo: int, hi: int, c: int, e: int, rs: seq<TextRange>, rs': seq<TextRange>)
    requires c < hi && RunsSoFar(q, lo, hi, c, rs) && c <= e <= hi
    requires forall i :: c <= i < e ==> Passes(q, i)
    requires e == hi || !Passes(q, e)
    requires if e == c then rs' == rs
             else |rs'| > 0 && rs' == rs + [rs'[|rs'| - 1]]
                  && rs'[|rs'| - 1].startOffset == c && rs'[|rs'| - 1].endOffset == e
    ensures RunsSoFar(q, lo, hi, e + 1, rs')
  {
    if e > c {
      AddRun(q, lo, c, rs, rs'[|rs'| - 1]);
    }
    if e < hi {
      SkipOffset(q, lo, e, rs');
    }
  }

  method MakeRange(q: Query, startOffset: int, endOffset: int) returns (r: TextRange)
    requires startOffset < endOffset
    ensures r.startOffset == startOffset && r.endOffset == endOffset && Described(q, r)
  {
    var bounds := new TextRectangle(NO_RECT);
    var written := GetRangeExtents(q.text, startOffset, endOffset, bounds);
    r := TextRange(startOffset, endOffset, GetText(q.text, startOffset, endOffset),
                   if written then Some(bounds.Value()) else None);
  }

  /** The inner loop: the end of the run of passing offsets that begins here. */
  method RunEnd(q: Query, from: int, hi: int) returns (end: int)
    requires from <= hi
    ensures from <= end <= hi
    ensures forall i :: from <= i < end ==> Passes(q, i)
    ensures end == hi || !Passes(q, end)
  {
    end := from;
    while end < hi
      invariant from <= end <= hi
      invariant forall i :: from <= i < end ==> Passes(q, i)
    {
      var cbounds := CharacterExtents(q.text, end);
      if !Contain(q.rect, cbounds, q.xClip, q.yClip) { break; }
      end := end + 1;
    }
  }

  /** g_realloc: room for `size` pointers, the old ones first. */
  method Grow(range: array?<Option<TextRange>>, size: nat) returns (bigger: array<Option<TextRange>>)
    requires range != null ==> range.Length <= size
    ensures fresh(bigger) && bigger.Length == size
    ensures range != null ==> forall k :: 0 <= k < range.Length ==> bigger[k] == range[k]
  {
    bigger := new Option<TextRange>[size](_ => None);
    if range != null {
      for k := 0 to range.Length
        invariant forall i :: 0 <= i < k ==> bigger[i] == range[i]
      {
        bigger[k] := range[k];
      }
    }
  }

  /** The array holds these ranges and there is room for a terminator behind them. */
  ghost predicate Holds(range: array?<Option<TextRange>>, size: nat, rs: seq<TextRange>)
    reads range
  {
    if range == null then rs == [] && size == 1
    else |rs| < range.Length == size && forall k :: 0 <= k < |rs| ==> range[k] == Some(rs[k])
  }

  /** Appends one range, growing the array first when only the terminator's place is left. */
  method Append(range: array?<Option<TextRange>>, size: nat, ghost rs: seq<TextRange>, num: nat, r: TextRange)
    returns (range': array<Option<TextRange>>, size': nat)
    requires Holds(range, size, rs) && num == |rs|
    modifies range
    ensures Holds(range', size', rs + [r])
    ensures range' == range || fresh(range')
  {
    size' := size;
    if num >= size - 1 {
      size' := size * 2;
      range' := Grow(range, size');
    } else {
      range' := range;
    }
    range'[num] := Some(r);
  }

  /** What a caller reads from the returned array; a null pointer lists nothing. */
  ghost function Found(range: array?<Option<TextRange>>): seq<TextRange>
    reads range
  {
    if range == null then [] else Listed(range[..])
  }

  /** The array, if there is one, holds some ranges and a null pointer behind them. */
  ghost predicate IsTerminated(range: array?<Option<TextRange>>, num: nat)
    reads range
  {
    range != null ==> 0 < num < range.Length && range[num] == None
  }

  lemma FoundUpTo(range: array?<Option<TextRange>>, size: nat, rs: seq<TextRange>)
    requires Holds(range, size, rs) && IsTerminated(range, |rs|)
    ensures Found(range) == rs
    ensures range != null ==> None in range[..] && rs != []
  {
    if range != null {
      assert range[..][|rs|] == None;
      ListedUpTo(range[..], rs);
    }
  }

  /** The outer loop, from one bound to the other. */
  method FindRanges(q: Query, lo: int, hi: int) returns (range: array?<Option<TextRange>>)
    ensures AreTheRuns(q, lo, hi, Found(range)) && AllDescribed(q, Found(range))
    ensures range != null ==> None in range[..] && Found(range) != []
  {
    range := null;
    var currOffset, numRanges, rangeSize := lo, 0, 1;
    ghost var found: seq<TextRange> := [];
    while currOffset < hi
      invariant range != null ==> fresh(range)
      invariant Holds(range, rangeSize, found) && numRanges == |found|
      invariant IsTerminated(range, numRanges)
      invariant RunsSoFar(q, lo, hi, currOffset, found)
      invariant AllDescribed(q, found)
      decreases hi - currOffset
    {
      var offset := currOffset;
      ghost var before := found;
      currOffset := RunEnd(q, offset, hi);
      if currOffset > offset {
        var oneRange := MakeRange(q, offset, currOffset);
        range, rangeSize := Append(range, rangeSize, found, numRanges, oneRange);
        OneMoreDescribed(q, found, oneRange);
        numRanges := numRanges + 1;
        found := found + [oneRange];
      }
      NextRun(q, lo, hi, offset, currOffset, before, found);
      currOffset := currOffset + 1;
      if range != null {
        range[numRanges] := None;
      }
    }
    RunsComplete(q, lo, hi, currOffset, found);
    FoundUpTo(range, rangeSize, found);
  }

  /** The result is right exactly when the search was not given up or there was nothing to find. */
  lemma ResultRightIff(q: Query, found: seq<TextRange>)
    requires if GivesUp(q) then found == [] else AreTheRuns(q, Low(q), High(q), found)
    ensures AreTheRuns(q, Low(q), High(q), found) <==>
            !GivesUp(q) || forall i :: Low(q) <= i < High(q) ==> !Passes(q, i)
  {
    if GivesUp(q) {
      NothingIsRightIff(q, Low(q), High(q));
    }
  }

  /**
    From the two corners' lines: every passing offset of either line lies in a range that was found, and
    every range found lies between the two lines' ends.
   */
  ghost predicate FindsBothLines(q: Query, a: (int, int), b: (int, int), found: seq<TextRange>) {
    && (forall i :: (a.0 <= i < a.1 || b.0 <= i < b.1) && Passes(q, i) ==>
          exists k :: 0 <= k < |found| && InRange(found[k], i))
    && (forall k :: 0 <= k < |found| ==>
          && (a.0 <= found[k].startOffset || b.0 <= found[k].startOffset)
          && (found[k].endOffset <= a.1 || found[k].endOffset <= b.1))
  }

  lemma BothLinesFound(q: Query, a: (int, int), b: (int, int), found: seq<TextRange>)
    requires CornerLines(q, a, b) && AreTheRuns(q, Low(q), High(q), found)
    ensures FindsBothLines(q, a, b, found)
  {
    SearchSpansLines(q, a, b);
    forall k | 0 <= k < |found|
      ensures a.0 <= found[k].startOffset || b.0 <= found[k].startOffset
      ensures found[k].endOffset <= a.1 || found[k].endOffset <= b.1
    {
      assert MaximalRun(q, Low(q), High(q), found[k]);
    }
  }

  /**
    atk_text_real_get_bounded_ranges. The null-terminated array lists exactly the maximal runs of passing
    offsets between the line bounds, and no array at all means there is none: this holds exactly when the
    early return is not taken, or else no offset passes anyway.
   */
  method RealGetBoundedRanges(q: Query) returns (range: array?<Option<TextRange>>)
    ensures GivesUp(q) ==> range == null
    ensures AreTheRuns(q, Low(q), High(q), Found(range)) <==>
            !GivesUp(q) || forall i :: Low(q) <= i < High(q) ==> !Passes(q, i)
    ensures AllDescribed(q, Found(range))
    ensures range != null ==> None in range[..] && Found(range) != []
    ensures forall a, b :: CornerLines(q, a, b) && !GivesUp(q) ==> FindsBothLines(q, a, b, Found(range))
  {
    range := null;
    var boundsMinOffset := OffsetAtPoint(q.text, q.rect.x, q.rect.y);
    var boundsMaxOffset := OffsetAtPoint(q.text, q.rect.x + q.rect.width, q.rect.y + q.rect.height);
    if !(boundsMinOffset == 0 && boundsMinOffset == boundsMaxOffset) {
      var (minLineStart, minLineEnd) := LineAt(q.text, boundsMinOffset);
      var (maxLineStart, maxLineEnd) := LineAt(q.text, boundsMaxOffset);
      boundsMinOffset := Min(minLineStart, maxLineStart);
      boundsMaxOffset := Max(minLineEnd, maxLineEnd);
      range := FindRanges(q, boundsMinOffset, boundsMaxOffset);
    }
    ResultRightIff(q, Found(range));
    forall a, b | CornerLines(q, a, b) && !GivesUp(q) ensures FindsBothLines(q, a, b, Found(range)) {
      BothLinesFound(q, a, b, Found(range));
    }
  }
}
