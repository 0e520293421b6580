/**
 * `RectangleL`: an axis-aligned rectangle with `Long` corner `(x, y)` (bottom
 * left) and extents `width` and `height`. The right and top edges are the
 * `Long` sums `x + width` and `y + height`, which wrap as the JVM's do. The
 * value a rectangle holds is a `Rect`; the class mutates it and every method
 * is stated by the function on `Rect` it applies.
 */
module LongRectangles {
  import opened Wrappers
  import JavaMath
  import Text
  import LongVectors

  datatype Rect = Rect(x: int, y: int, width: int, height: int)

  predicate IsLongRect(r: Rect)
  {
    JavaMath.IsLong(r.x) && JavaMath.IsLong(r.y) && JavaMath.IsLong(r.width) && JavaMath.IsLong(r.height)
  }

  /** The edges do not overflow and the extents are not negative: the rectangles the source is written for. */
  predicate Proper(r: Rect)
  {
    IsLongRect(r) && r.width >= 0 && r.height >= 0
    && JavaMath.IsLong(r.x + r.width) && JavaMath.IsLong(r.y + r.height)
  }

  function Right(r: Rect): int { JavaMath.Wrap64(r.x + r.width) }

  function Top(r: Rect): int { JavaMath.Wrap64(r.y + r.height) }

  lemma ProperEdges(r: Rect)
    requires Proper(r)
    ensures Right(r) == r.x + r.width && Top(r) == r.y + r.height
  {
    JavaMath.Wrap64Identity(r.x + r.width);
    JavaMath.Wrap64Identity(r.y + r.height);
  }

  /** `contains(x, y)`. */
  predicate ContainsPoint(r: Rect, px: int, py: int)
  {
    r.x <= px && Right(r) >= px && r.y <= py && Top(r) >= py
  }

  /** `contains(rectangle)`: both corners of `s` strictly inside `r`. */
  predicate ContainsRect(r: Rect, s: Rect)
  {
    var xmin, xmax := s.x, Right(s);
    var ymin, ymax := s.y, Top(s);
    (xmin > r.x && xmin < Right(r)) && (xmax > r.x && xmax < Right(r))
    && (ymin > r.y && ymin < Top(r)) && (ymax > r.y && ymax < Top(r))
  }

  /** `overlaps(r)`. */
  predicate Overlaps(r: Rect, s: Rect)
  {
    r.x < Right(s) && Right(r) > s.x && r.y < Top(s) && Top(r) > s.y
  }

  /** A point is contained exactly when it lies on or between all four edges. */
  lemma ContainsPointInclusive(r: Rect, px: int, py: int)
    requires Proper(r)
    ensures ContainsPoint(r, px, py) <==> r.x <= px <= r.x + r.width && r.y <= py <= r.y + r.height
    ensures ContainsPoint(r, r.x, r.y) && ContainsPoint(r, r.x + r.width, r.y + r.height)
  {
    ProperEdges(r);
  }

  /**
   * A rectangle contains another exactly when both its corners lie strictly
   * inside, so no rectangle contains itself, and every point of a contained
   * rectangle is a point of the containing one.
   */
  lemma ContainsRectStrict(r: Rect, s: Rect)
    requires Proper(r) && Proper(s)
    ensures ContainsRect(r, s) <==>
      r.x < s.x && s.x + s.width < r.x + r.width && r.y < s.y && s.y + s.height < r.y + r.height
    ensures !ContainsRect(r, r)
    ensures ContainsRect(r, s) ==> forall px, py :: ContainsPoint(s, px, py) ==> ContainsPoint(r, px, py)
  {
    ProperEdges(r);
    ProperEdges(s);
  }

  /** Overlap does not depend on the order, even when edges overflow. */
  lemma OverlapsSymmetric(r: Rect, s: Rect)
    ensures Overlaps(r, s) <==> Overlaps(s, r)
  {
  }

  /** Overlapping rectangles share a point: the larger of the two lower-left corners. */
  lemma OverlapsSharePoint(r: Rect, s: Rect)
    requires Proper(r) && Proper(s) && Overlaps(r, s)
    ensures ContainsPoint(r, JavaMath.Max(r.x, s.x), JavaMath.Max(r.y, s.y))
    ensures ContainsPoint(s, JavaMath.Max(r.x, s.x), JavaMath.Max(r.y, s.y))
  {
    ProperEdges(r);
    ProperEdges(s);
  }

  /** The running bounds of the `merge` methods: least and greatest x and y seen. */
  datatype Bounds = Bounds(minX: int, maxX: int, minY: int, maxY: int)

  /** The bounds a `merge` starts from: the rectangle's own edges. */
  function Start(r: Rect): Bounds
  {
    Bounds(r.x, Right(r), r.y, Top(r))
  }

  /** Widening the bounds to take in one point. */
  function Include(b: Bounds, p: LongVectors.Vec): (c: Bounds)
    ensures c.minX <= b.minX && c.minX <= p.x && c.maxX >= b.maxX && c.maxX >= p.x
    ensures c.minY <= b.minY && c.minY <= p.y && c.maxY >= b.maxY && c.maxY >= p.y
  {
    Bounds(JavaMath.Min(b.minX, p.x), JavaMath.Max(b.maxX, p.x), JavaMath.Min(b.minY, p.y), JavaMath.Max(b.maxY, p.y))
  }

  /** The rectangle written back from the bounds: corner at the minima, extents as `Long` differences. */
  function ToRect(b: Bounds): Rect
  {
    Rect(b.minX, b.minY, JavaMath.Wrap64(b.maxX - b.minX), JavaMath.Wrap64(b.maxY - b.minY))
  }

  /** The bounds are `Long`s, ordered, and their differences are `Long`s. */
  predicate Fits(b: Bounds)
  {
    JavaMath.IsLong(b.minX) && JavaMath.IsLong(b.maxX) && JavaMath.IsLong(b.minY) && JavaMath.IsLong(b.maxY)
    && b.minX <= b.maxX && b.minY <= b.maxY
    && JavaMath.IsLong(b.maxX - b.minX) && JavaMath.IsLong(b.maxY - b.minY)
  }

  /** Bounds that fit become a proper rectangle with exactly those edges. */
  lemma ToRectEdges(b: Bounds)
    requires Fits(b)
    ensures Proper(ToRect(b)) && Start(ToRect(b)) == b
  {
    JavaMath.Wrap64Identity(b.maxX - b.minX);
    JavaMath.Wrap64Identity(b.maxY - b.minY);
    ProperEdges(ToRect(b));
  }

  /** `merge(rect)`. */
  function Merged(r: Rect, s: Rect): Rect
  {
    ToRect(Bounds(JavaMath.Min(r.x, s.x), JavaMath.Max(Right(r), Right(s)), JavaMath.Min(r.y, s.y), JavaMath.Max(Top(r), Top(s))))
  }

  /** `merge(x, y)`. */
  function MergedPoint(r: Rect, px: int, py: int): Rect
  {
    ToRect(Include(Start(r), LongVectors.Vec(px, py)))
  }

  /** The bounds `merge(vecs)` has reached after the points in `ps`. */
  function Extend(b: Bounds, ps: seq<LongVectors.Vec>): Bounds
  {
    if ps == [] then b else Include(Extend(b, ps[..|ps| - 1]), ps[|ps| - 1])
  }

  /** `merge(vecs)`. */
  function MergedPoints(r: Rect, ps: seq<LongVectors.Vec>): Rect
  {
    ToRect(Extend(Start(r), ps))
  }

  /** The merge of two rectangles does not depend on their order. */
  lemma MergedSymmetric(r: Rect, s: Rect)
    ensures Merged(r, s) == Merged(s, r)
  {
  }

  /**
   * Merging two proper rectangles (when the result's extents are `Long`s)
   * gives the smallest rectangle holding both: every point of either is in
   * it, and it lies inside every proper rectangle holding the corners of both.
   */
  lemma MergedSmallest(r: Rect, s: Rect, c: Rect)
    requires Proper(r) && Proper(s) && Proper(c)
    requires Fits(Bounds(JavaMath.Min(r.x, s.x), JavaMath.Max(Right(r), Right(s)), JavaMath.Min(r.y, s.y), JavaMath.Max(Top(r), Top(s))))
    ensures Proper(Merged(r, s))
    ensures forall px, py :: ContainsPoint(r, px, py) || ContainsPoint(s, px, py) ==> ContainsPoint(Merged(r, s), px, py)
    ensures (ContainsPoint(c, r.x, r.y) && ContainsPoint(c, Right(r), Top(r))
             && ContainsPoint(c, s.x, s.y) && ContainsPoint(c, Right(s), Top(s))) ==>
      forall px, py :: ContainsPoint(Merged(r, s), px, py) ==> ContainsPoint(c, px, py)
  {
    ProperEdges(r);
    ProperEdges(s);
    ProperEdges(c);
    ToRectEdges(Bounds(JavaMath.Min(r.x, s.x), JavaMath.Max(Right(r), Right(s)), JavaMath.Min(r.y, s.y), JavaMath.Max(Top(r), Top(s))));
  }

  /** The bounds after a run of points lie around the starting bounds and every point. */
  lemma {:induction false} ExtendHolds(b: Bounds, ps: seq<LongVectors.Vec>)
    ensures var e := Extend(b, ps);
      e.minX <= b.minX && e.maxX >= b.maxX && e.minY <= b.minY && e.maxY >= b.maxY
      && forall i :: 0 <= i < |ps| ==> e.minX <= ps[i].x <= e.maxX && e.minY <= ps[i].y <= e.maxY
  {
    if ps != [] {
      ExtendHolds(b, ps[..|ps| - 1]);
    }
  }

  /** Merging points into a proper rectangle (when the result's extents are `Long`s) keeps the rectangle and takes in every point. */
  lemma MergedPointsContains(r: Rect, ps: seq<LongVectors.Vec>)
    requires Proper(r) && Fits(Extend(Start(r), ps))
    ensures Proper(MergedPoints(r, ps))
    ensures forall i :: 0 <= i < |ps| ==> ContainsPoint(MergedPoints(r, ps), ps[i].x, ps[i].y)
    ensures forall px, py :: ContainsPoint(r, px, py) ==> ContainsPoint(MergedPoints(r, ps), px, py)
  {
    ExtendHolds(Start(r), ps);
    ToRectEdges(Extend(Start(r), ps));
    ProperEdges(r);
  }

  /** Merging an array of points is merging them one at a time, as long as nothing overflows. */
  lemma MergedPointsOneByOne(r: Rect, ps: seq<LongVectors.Vec>, p: LongVectors.Vec)
    requires Fits(Extend(Start(r), ps))
    ensures MergedPoints(r, ps + [p]) == MergedPoint(MergedPoints(r, ps), p.x, p.y)
  {
    assert (ps + [p])[..|ps|] == ps;
    ToRectEdges(Extend(Start(r), ps));
  }

  /** `getCenter(vector)`: the corner plus half of each extent, truncated. */
  function Center(r: Rect): LongVectors.Vec
  {
    LongVectors.Vec(JavaMath.Wrap64(r.x + JavaMath.Div(r.width, 2)), JavaMath.Wrap64(r.y + JavaMath.Div(r.height, 2)))
  }

  /** `setCenter(x, y)`: the rectangle moved so that its corner is half an extent below the point. */
  function Centered(r: Rect, px: int, py: int): Rect
  {
    Rect(JavaMath.Wrap64(px - JavaMath.Div(r.width, 2)), JavaMath.Wrap64(py - JavaMath.Div(r.height, 2)), r.width, r.height)
  }

  /** Centering on a point puts the center there, overflow or not. */
  lemma CenteredCenter(r: Rect, px: int, py: int)
    requires JavaMath.IsLong(px) && JavaMath.IsLong(py)
    ensures Center(Centered(r, px, py)) == LongVectors.Vec(px, py)
  {
    var hw, hh := JavaMath.Div(r.width, 2), JavaMath.Div(r.height, 2);
    JavaMath.Wrap64Sum(px - hw, hw);
    JavaMath.Wrap64Sum(py - hh, hh);
    assert px - hw + hw == px && py - hh + hh == py;
    JavaMath.Wrap64Identity(px);
    JavaMath.Wrap64Identity(py);
  }

  /** The center of a proper rectangle lies in it. */
  lemma CenterInside(r: Rect)
    requires Proper(r)
    ensures ContainsPoint(r, Center(r).x, Center(r).y)
  {
    ProperEdges(r);
    var hw, hh := JavaMath.Div(r.width, 2), JavaMath.Div(r.height, 2);
    JavaMath.DivNonNegative(r.width, 2);
    JavaMath.DivNonNegative(r.height, 2);
    assert 0 <= hw <= r.width && 0 <= hh <= r.height;
    JavaMath.Wrap64Identity(r.x + hw);
    JavaMath.Wrap64Identity(r.y + hh);
  }

  /** `area()`: `width * height` as a `Long`. */
  function Area(r: Rect): int
  {
    JavaMath.Wrap64(r.width * r.height)
  }

  /** `perimeter()`: `2 * (width + height)` as a `Long`. */
  function Perimeter(r: Rect): int
  {
    JavaMath.Wrap64(2 * JavaMath.Wrap64(r.width + r.height))
  }

  /** Without overflow the area and perimeter are the exact ones, and the area is zero only for a flat rectangle. */
  lemma AreaPerimeterExact(r: Rect)
    requires r.width >= 0 && r.height >= 0
    requires JavaMath.IsLong(r.width * r.height) && JavaMath.IsLong(2 * (r.width + r.height))
    ensures Area(r) == r.width * r.height && Perimeter(r) == 2 * (r.width + r.height)
    ensures Area(r) == 0 <==> r.width == 0 || r.height == 0
    ensures Perimeter(r) >= 0
  {
    JavaMath.Wrap64Identity(r.width * r.height);
    JavaMath.Wrap64Identity(r.width + r.height);
    JavaMath.Wrap64Identity(2 * (r.width + r.height));
    if r.width != 0 && r.height != 0 {
      JavaMath.MulAtLeast(r.width, r.height);
    }
  }

  /** `toString()`: `[x,y,width,height]`. */
  function Format(r: Rect): string
  {
    "[" + Text.IntToString(r.x) + "," + Text.IntToString(r.y) + "," + Text.IntToString(r.width) + ","
    + Text.IntToString(r.height) + "]"
  }

  function Malformed(s: string): Exception
  {
    Runtime("Malformed RectangleL: " + s)
  }

  /**
   * `fromString(s)`: the first three commas from position 1 on split the text;
   * it must start with `[`, end with `]`, and all four parts must be `Long`s,
   * or it is a `GdxRuntimeException`.
   */
  function Parse(s: string): (r: Result<Rect>)
    ensures r.Ok? ==> IsLongRect(r.value) && |s| >= 9 && s[0] == '[' && s[|s| - 1] == ']'
  {
    var s0 := Text.IndexOf(s, ',', 1);
    var s1 := Text.IndexOfAfter(s, ',', s0);
    var s2 := Text.IndexOfAfter(s, ',', s1);
    if s0 != -1 && s1 != -1 && s2 != -1 && s[0] == '[' && s[|s| - 1] == ']' then
      ParseFields(s, s0, s1, s2)
    else Err(Malformed(s))
  }

  /** The four `Long.parseLong` calls of `fromString`, between the brackets and commas at `s0`, `s1` and `s2`. */
  function ParseFields(s: string, s0: int, s1: int, s2: int): (r: Result<Rect>)
    requires 1 <= s0 < s1 < s2 < |s| - 1
    ensures r.Ok? ==> IsLongRect(r.value)
  {
    var x, y := Text.ParseLong(s[1..s0]), Text.ParseLong(s[s0 + 1..s1]);
    var w, h := Text.ParseLong(s[s1 + 1..s2]), Text.ParseLong(s[s2 + 1..|s| - 1]);
    if x.Some? && y.Some? && w.Some? && h.Some? then Ok(Rect(x.value, y.value, w.value, h.value))
    else Err(Malformed(s))
  }

  lemma NoComma(x: int)
    ensures forall k :: 0 <= k < |Text.IntToString(x)| ==> Text.IntToString(x)[k] != ','
  {
    Text.IntToStringChars(x);
  }

  /** The printed form as its three prefixes ending before each comma, and what follows them. */
  lemma FormatPieces(r: Rect, s: string, s0: int, s1: int, s2: int)
    requires s == Format(r)
    requires s0 == |Text.IntToString(r.x)| + 1
    requires s1 == s0 + |Text.IntToString(r.y)| + 1
    requires s2 == s1 + |Text.IntToString(r.width)| + 1
    ensures 1 <= s0 < s1 < s2 < |s| - 1 && s[0] == '[' && s[|s| - 1] == ']'
    ensures s[1..s0] == Text.IntToString(r.x) && s[s0 + 1..s1] == Text.IntToString(r.y)
    ensures s[s1 + 1..s2] == Text.IntToString(r.width) && s[s2 + 1..|s| - 1] == Text.IntToString(r.height)
  {
    var a, b, c, d := Text.IntToString(r.x), Text.IntToString(r.y), Text.IntToString(r.width), Text.IntToString(r.height);
    assert s[1..s0] == a;
    assert s[s0 + 1..s1] == b;
    assert s[s1 + 1..s2] == c;
    assert s[s2 + 1..|s| - 1] == d;
  }

  /** The printed form's first comma closes the `x` field. */
  lemma FirstComma(r: Rect, s: string, s0: int)
    requires s == Format(r) && s0 == |Text.IntToString(r.x)| + 1
    ensures Text.IndexOf(s, ',', 1) == s0
  {
    var p := "[" + Text.IntToString(r.x);
    var q := "," + Text.IntToString(r.y) + "," + Text.IntToString(r.width) + "," + Text.IntToString(r.height) + "]";
    NoComma(r.x);
    assert s == p + q;
    Text.IndexOfAfterPrefix(s, p, q, ',', 1);
  }

  /** The printed form's second comma closes the `y` field. */
  lemma SecondComma(r: Rect, s: string, s0: int, s1: int)
    requires s == Format(r) && s0 == |Text.IntToString(r.x)| + 1
    requires s1 == s0 + |Text.IntToString(r.y)| + 1
    ensures Text.IndexOfAfter(s, ',', s0) == s1
  {
    var b := Text.IntToString(r.y);
    var p := "[" + Text.IntToString(r.x) + "," + b;
    var q := "," + Text.IntToString(r.width) + "," + Text.IntToString(r.height) + "]";
    NoComma(r.y);
    assert s == p + q;
    assert forall k :: s0 + 1 <= k < |p| ==> p[k] == b[k - s0 - 1];
    Text.IndexOfAfterPrefix(s, p, q, ',', s0 + 1);
  }

  /** The printed form's third comma closes the `width` field. */
  lemma ThirdComma(r: Rect, s: string, s1: int, s2: int)
    requires s == Format(r)
    requires s1 == |Text.IntToString(r.x)| + |Text.IntToString(r.y)| + 2
    requires s2 == s1 + |Text.IntToString(r.width)| + 1
    ensures Text.IndexOfAfter(s, ',', s1) == s2
  {
    var c := Text.IntToString(r.width);
    var p := "[" + Text.IntToString(r.x) + "," + Text.IntToString(r.y) + "," + c;
    var q := "," + Text.IntToString(r.height) + "]";
    NoComma(r.width);
    assert s == p + q;
    assert forall k :: s1 + 1 <= k < |p| ==> p[k] == c[k - s1 - 1];
    Text.IndexOfAfterPrefix(s, p, q, ',', s1 + 1);
  }

  /** A text laid out as `[a,b,c,d]` with four `Long`s in the fields parses to them. */
  lemma ParseLayout(s: string, s0: int, s1: int, s2: int, r: Rect)
    requires 1 <= s0 < s1 < s2 < |s| - 1
    requires Text.IndexOf(s, ',', 1) == s0 && Text.IndexOfAfter(s, ',', s0) == s1 && Text.IndexOfAfter(s, ',', s1) == s2
    requires s[0] == '[' && s[|s| - 1] == ']'
    requires Text.ParseLong(s[1..s0]) == Some(r.x) && Text.ParseLong(s[s0 + 1..s1]) == Some(r.y)
    requires Text.ParseLong(s[s1 + 1..s2]) == Some(r.width) && Text.ParseLong(s[s2 + 1..|s| - 1]) == Some(r.height)
    ensures Parse(s) == Ok(r)
  {
  }

  /** Reading back the printed form gives the rectangle. */
  lemma ParseFormat(r: Rect)
    requires IsLongRect(r)
    ensures Parse(Format(r)) == Ok(r)
  {
    var s0 := |Text.IntToString(r.x)| + 1;
    var s1 := s0 + |Text.IntToString(r.y)| + 1;
    var s2 := s1 + |Text.IntToString(r.width)| + 1;
    var s := Format(r);
    FormatPieces(r, s, s0, s1, s2);
    FirstComma(r, s, s0);
    SecondComma(r, s, s0, s1);
    ThirdComma(r, s, s1, s2);
    Text.ParseLongToString(r.x);
    Text.ParseLongToString(r.y);
    Text.ParseLongToString(r.width);
    Text.ParseLongToString(r.height);
    ParseLayout(s, s0, s1, s2, r);
  }

  class RectangleL {
    var x: int
    var y: int
    var width: int
    var height: int

    function Value(): Rect
      reads this
    {
      Rect(x, y, width, height)
    }

    /** `RectangleL()`: all zero. */
    constructor Empty()
      ensures Value() == Rect(0, 0, 0, 0)
    {
      x, y, width, height := 0, 0, 0, 0;
    }

    /** `RectangleL(x, y, width, height)`. */
    constructor (x: int, y: int, width: int, height: int)
      ensures Value() == Rect(x, y, width, height)
    {
      this.x, this.y, this.width, this.height := x, y, width, height;
    }

    /** `RectangleL(rect)`. */
    constructor Copy(rect: RectangleL)
      ensures Value() == rect.Value()
    {
      x, y, width, height := rect.x, rect.y, rect.width, rect.height;
    }

    /** `set(x, y, width, height)`. */
    method Set(x: int, y: int, width: int, height: int)
      modifies this
      ensures Value() == Rect(x, y, width, height)
    {
      this.x, this.y, this.width, this.height := x, y, width, height;
    }

    /** `set(rect)`. */
    method SetRect(rect: RectangleL)
      modifies this
      ensures Value() == old(rect.Value())
    {
      x, y, width, height := rect.x, rect.y, rect.width, rect.height;
    }

    /** `merge(rect)`; `rect` may be this rectangle itself. */
    method Merge(rect: RectangleL)
      modifies this
      ensures Value() == Merged(old(Value()), old(rect.Value()))
    {
      var rx, rRight, ry, rTop := rect.x, JavaMath.Wrap64(rect.x + rect.width), rect.y, JavaMath.Wrap64(rect.y + rect.height);
      var minX := JavaMath.Min(x, rx);
      var maxX := JavaMath.Max(JavaMath.Wrap64(x + width), rRight);
      x := minX;
      width := JavaMath.Wrap64(maxX - minX);
      var minY := JavaMath.Min(y, ry);
      var maxY := JavaMath.Max(JavaMath.Wrap64(y + height), rTop);
      y := minY;
      height := JavaMath.Wrap64(maxY - minY);
    }

    /** `merge(x, y)`. */
    method MergeXY(px: int, py: int)
      modifies this
      ensures Value() == MergedPoint(old(Value()), px, py)
    {
      var minX := JavaMath.Min(x, px);
      var maxX := JavaMath.Max(JavaMath.Wrap64(x + width), px);
      x := minX;
      width := JavaMath.Wrap64(maxX - minX);
      var minY := JavaMath.Min(y, py);
      var maxY := JavaMath.Max(JavaMath.Wrap64(y + height), py);
      y := minY;
      height := JavaMath.Wrap64(maxY - minY);
    }

    /** `merge(vec)`. */
    method MergeVec(vec: LongVectors.Vector2L)
      modifies this
      ensures Value() == MergedPoint(old(Value()), old(vec.x), old(vec.y))
    {
      MergeXY(vec.x, vec.y);
    }

    /** `merge(vecs)`: one pass keeping the least and greatest coordinates, written back at the end. */
    method MergeAll(vecs: seq<LongVectors.Vec>)
      modifies this
      ensures Value() == MergedPoints(old(Value()), vecs)
    {
      var minX, maxX := x, JavaMath.Wrap64(x + width);
      var minY, maxY := y, JavaMath.Wrap64(y + height);
      var i := 0;
      while i < |vecs|
        invariant 0 <= i <= |vecs|
        invariant Bounds(minX, maxX, minY, maxY) == Extend(Start(old(Value())), vecs[..i])
      {
        assert vecs[..i + 1][..i] == vecs[..i];
        var v := vecs[i];
        minX := JavaMath.Min(minX, v.x);
        maxX := JavaMath.Max(maxX, v.x);
        minY := JavaMath.Min(minY, v.y);
        maxY := JavaMath.Max(maxY, v.y);
        i := i + 1;
      }
      assert vecs[..|vecs|] == vecs;
      x := minX;
      width := JavaMath.Wrap64(maxX - minX);
      y := minY;
      height := JavaMath.Wrap64(maxY - minY);
    }

    /** `getCenter(vector)`: writes the center into `vector`. */
    method GetCenter(vector: LongVectors.Vector2L)
      modifies vector
      ensures vector.Value() == Center(old(Value()))
    {
      var cx, cy := JavaMath.Wrap64(x + JavaMath.Div(width, 2)), JavaMath.Wrap64(y + JavaMath.Div(height, 2));
      vector.x, vector.y := cx, cy;
    }

    /** `setCenter(x, y)`. */
    method SetCenter(px: int, py: int)
      modifies this
      ensures Value() == Centered(old(Value()), px, py)
    {
      x := JavaMath.Wrap64(px - JavaMath.Div(width, 2));
      y := JavaMath.Wrap64(py - JavaMath.Div(height, 2));
    }

    /** `equals(obj)` on another `RectangleL`. */
    predicate Equals(other: RectangleL)
      reads this, other
    {
      this == other || (height == other.height && width == other.width && x == other.x && y == other.y)
    }

    function ToString(): string
      reads this
    {
      Format(Value())
    }

    /** `fromString(s)`: sets all four fields, or throws and leaves the rectangle as it was. */
    method FromString(s: string) returns (o: Outcome)
      modifies this
      ensures Parse(s).Ok? ==> o == Pass && Value() == Parse(s).value
      ensures Parse(s).Err? ==> o == Fail(Parse(s).error) && Value() == old(Value())
    {
      match Parse(s)
      case Ok(r) =>
        x, y, width, height := r.x, r.y, r.width, r.height;
        return Pass;
      case Err(e) =>
        return Fail(e);
    }
  }

  /** Two rectangles are `equals` exactly when they hold the same value. */
  lemma EqualsIsValue(a: RectangleL, b: RectangleL)
    ensures a.Equals(b) <==> a.Value() == b.Value()
  {
  }
}
