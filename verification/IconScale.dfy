/** purple_buddy_icon_spec_get_scaled_size() of libpurple/buddyicon.c, on exact rationals: the
    (int)(0.5 + a * b / c) of positive numbers is the floor of one half plus a * b / c. */
module IconScale {

  datatype Spec = Spec(minWidth: int, minHeight: int, maxWidth: int, maxHeight: int)

  // A minimum may be 0, as several protocols have it.
  ghost predicate Sensible(s: Spec) {
    0 <= s.minWidth <= s.maxWidth && 0 <= s.minHeight <= s.maxHeight && 0 < s.maxWidth && 0 < s.maxHeight
  }

  function Clamp(x: int, min: int, max: int): int {
    if x < min then min else if x > max then max else x
  }

  function Distance(x: int, y: int): nat {
    if x < y then y - x else x - y
  }

  // Clamping gives the one number within the bounds that is nearest to x.
  lemma ClampIsNearest(x: int, min: int, max: int, y: int)
    requires min <= y <= max
    ensures min <= Clamp(x, min, max) <= max
    ensures Distance(x, Clamp(x, min, max)) < Distance(x, y) || y == Clamp(x, min, max)
  {}

  // q is the integer nearest to a / b, the upper one of two.
  ghost predicate Nearest(q: int, a: int, b: int) {
    -b < 2 * (q * b - a) <= b
  }

  // (int)(0.5 + a / b)
  method Round(a: int, b: int) returns (q: int)
    requires 0 <= a && 0 < b
    ensures Nearest(q, a, b)
  {
    q := (2 * a + b) / (2 * b);
    var r := (2 * a + b) % (2 * b);
    assert 2 * a + b == q * (2 * b) + r;
    assert q * (2 * b) == 2 * (q * b);
  }

  lemma Gap(m: int, q: int, b: int)
    requires 0 < b && m < q
    ensures m * b + b <= q * b
  {
    var d := q - m;
    AtLeastOnce(d, b);
    assert q * b == (m + d) * b == m * b + d * b;
  }

  lemma {:induction false} AtLeastOnce(d: int, b: int)
    requires 0 < b && 1 <= d
    ensures b <= d * b
    decreases d
  {
    if d > 1 {
      AtLeastOnce(d - 1, b);
      assert d * b == (d - 1) * b + b;
    }
  }

  // A whole number that is not exceeded is not exceeded after rounding either.
  lemma NearestStaysBelow(q: int, a: int, b: int, m: int)
    requires 0 < b && a <= m * b && Nearest(q, a, b)
    ensures q <= m
  {
    if m < q {
      Gap(m, q, b);
    }
  }

  lemma NearestIsExact(q: int, b: int, m: int)
    requires 0 < b && Nearest(q, m * b, b)
    ensures q == m
  {
    NearestStaysBelow(q, m * b, b, m);
    if q < m {
      Gap(q, m, b);
    }
  }

  // Rounding reaches m exactly if the quotient comes within one half of it.
  lemma NearestReaches(q: int, a: int, b: int, m: int)
    requires 0 < b && Nearest(q, a, b)
    ensures m <= q <==> 2 * (m * b) <= 2 * a + b
  {
    if q < m {
      Gap(q, m, b);
    } else if m < q {
      Gap(m, q, b);
    }
  }

  // The dimension that is scaled to the aspect ratio comes out no smaller than its minimum.
  predicate ReachesMinimum(spec: Spec, width: int, height: int) {
    var w := Clamp(width, spec.minWidth, spec.maxWidth);
    var h := Clamp(height, spec.minHeight, spec.maxHeight);
    if height * w > width * h then 2 * (spec.minWidth * height) <= 2 * (width * h) + height
    else 2 * (spec.minHeight * width) <= 2 * (height * w) + width
  }

  method GetScaledSize(spec: Spec, width: int, height: int) returns (newWidth: int, newHeight: int)
    requires Sensible(spec) && 0 < width && 0 < height
    // never above the maximum, nor above what clamping asks for
    ensures newWidth <= Clamp(width, spec.minWidth, spec.maxWidth) <= spec.maxWidth
    ensures newHeight <= Clamp(height, spec.minHeight, spec.maxHeight) <= spec.maxHeight
    // so a dimension that is too small is not made larger than the minimum, and none larger than it was
    ensures newWidth <= (if width < spec.minWidth then spec.minWidth else width)
    ensures newHeight <= (if height < spec.minHeight then spec.minHeight else height)
    // and one of the two is at its minimum, at its maximum, or unchanged, as the bounds say
    ensures newWidth == (if width < spec.minWidth then spec.minWidth
                         else if width > spec.maxWidth then spec.maxWidth else width)
         || newHeight == (if height < spec.minHeight then spec.minHeight
                          else if height > spec.maxHeight then spec.maxHeight else height)
    // one dimension is what clamping asks for, and the other the nearest to the old aspect ratio
    ensures (newWidth == Clamp(width, spec.minWidth, spec.maxWidth) && Nearest(newHeight, height * newWidth, width))
         || (newHeight == Clamp(height, spec.minHeight, spec.maxHeight) && Nearest(newWidth, width * newHeight, height))
    // and not below the minimum, exactly when scaling to the aspect ratio does not lead below it
    ensures newWidth >= spec.minWidth && newHeight >= spec.minHeight <==> ReachesMinimum(spec, width, height)
    // a size within bounds stays
    ensures spec.minWidth <= width <= spec.maxWidth && spec.minHeight <= height <= spec.maxHeight
            ==> newWidth == width && newHeight == height
  {
    newWidth, newHeight := width, height;
    if width < spec.minWidth {
      newWidth := spec.minWidth;
    } else if width > spec.maxWidth {
      newWidth := spec.maxWidth;
    }
    if height < spec.minHeight {
      newHeight := spec.minHeight;
    } else if height > spec.maxHeight {
      newHeight := spec.maxHeight;
    }
    Products(width, height, newWidth, newHeight);
    if height * newWidth > width * newHeight {
      var w := Round(width * newHeight, height);
      NearestStaysBelow(w, width * newHeight, height, newWidth);
      NearestReaches(w, width * newHeight, height, spec.minWidth);
      newWidth := w;
    } else {
      var h := Round(height * newWidth, width);
      NearestStaysBelow(h, height * newWidth, width, newHeight);
      NearestReaches(h, height * newWidth, width, spec.minHeight);
      if newWidth == width {
        NearestIsExact(h, width, height);
      }
      newHeight := h;
    }
  }

  lemma Products(width: int, height: int, newWidth: int, newHeight: int)
    requires 0 < width && 0 < height && 0 < newWidth && 0 < newHeight
    ensures 0 <= width * newHeight && 0 <= height * newWidth
    ensures width * newHeight == newHeight * width && height * newWidth == newWidth * height
  {}

  // A 200 by 20 icon does not fit bounds of 50 to 100 both ways: it becomes 100 by 10.
  method MinimumIsMissed() returns (width: int, height: int)
    ensures width == 100 && height == 10
    ensures !ReachesMinimum(Spec(50, 50, 100, 100), 200, 20)
  {
    width, height := GetScaledSize(Spec(50, 50, 100, 100), 200, 20);
  }

  // Where no minimum is asked for, none is missed.
  lemma NoMinimumIsReached(spec: Spec, width: int, height: int)
    requires Sensible(spec) && 0 < width && 0 < height
    ensures spec.minWidth == 0 && spec.minHeight == 0 ==> ReachesMinimum(spec, width, height)
  {
    var w := Clamp(width, spec.minWidth, spec.maxWidth);
    var h := Clamp(height, spec.minHeight, spec.maxHeight);
    Products(width, height, w, h);
  }
}
