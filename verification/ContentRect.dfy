// Where the visible content of an image lies inside its element, given object-fit and
// object-position. Badges are placed relative to it.
module ContentRect {

  datatype Rect = Rect(top: real, left: real, right: real, bottom: real, width: real, height: real)

  // One component of object-position, as far as the parser tells them apart.
  datatype PosValue = Percent(p: real) | Pixels(v: real) | Near | Far | Other

  datatype Fit = Contain | ScaleDown | OtherFit

  datatype Target = Target(isImage: bool, natW: real, natH: real, fit: Fit, pos: seq<PosValue>)

  predicate IsBox(r: Rect)
  {
    r.width >= 0.0 && r.height >= 0.0 && r.right == r.left + r.width && r.bottom == r.top + r.height
  }

  // left/top are Near, right/bottom are Far; anything else centers.
  function ParsePosValue(val: PosValue, availableSpace: real): real
  {
    match val
    case Percent(p) => p / 100.0 * availableSpace
    case Pixels(v) => v
    case Near => 0.0
    case Far => availableSpace
    case Other => availableSpace / 2.0
  }

  function Min(a: real, b: real): real { if a < b then a else b }

  // The branches that return the element's own rectangle.
  predicate IsUnscaled(elem: Rect, t: Target)
  {
    || !t.isImage || t.natW == 0.0 || t.natH == 0.0 || t.fit == OtherFit
    || (t.fit == ScaleDown && t.natW <= elem.width && t.natH <= elem.height)
  }

  function Offset(pos: seq<PosValue>, k: nat, slack: real): real
    requires k < 2
  {
    if |pos| >= 2 then ParsePosValue(pos[k], slack) else slack / 2.0
  }

  function Scale(elem: Rect, t: Target): real
    requires t.natW > 0.0 && t.natH > 0.0
  {
    Min(elem.width / t.natW, elem.height / t.natH)
  }

  function GetVisibleContentRect(elem: Rect, t: Target): Rect
    requires t.natW >= 0.0 && t.natH >= 0.0
  {
    if IsUnscaled(elem, t) then elem
    else
      var scale := Scale(elem, t);
      var contentW, contentH := t.natW * scale, t.natH * scale;
      var offsetX := Offset(t.pos, 0, elem.width - contentW);
      var offsetY := Offset(t.pos, 1, elem.height - contentH);
      Rect(elem.top + offsetY, elem.left + offsetX, elem.left + offsetX + contentW,
           elem.top + offsetY + contentH, contentW, contentH)
  }

  predicate Inside(r: Rect, elem: Rect)
  {
    elem.left <= r.left && r.right <= elem.right && elem.top <= r.top && r.bottom <= elem.bottom
  }

  lemma Scaled(x: real, y: real, k: real)
    requires k > 0.0
    ensures x < y ==> x * k < y * k
    ensures x <= y ==> x * k <= y * k
  {
    assert (y - x) * k == y * k - x * k;
  }

  lemma Quotient(a: real, n: real)
    requires n > 0.0
    ensures n * (a / n) == a
    ensures a / n > 1.0 ==> a > n
  {
    Scaled(1.0, a / n, n);
  }

  // Scaling by the smaller ratio fits both dimensions and fills the one with that ratio.
  lemma SmallerRatioFits(a: real, b: real, x: real, y: real)
    requires x > 0.0 && y > 0.0 && a >= 0.0 && a / x <= b / y
    ensures x * (a / x) == a && 0.0 <= y * (a / x) <= b
  {
    Quotient(a, x);
    Quotient(b, y);
    Scaled(a / x, b / y, y);
    Scaled(a / x, 0.0, x);
    Scaled(0.0, a / x, y);
  }

  lemma ScaleOf(elem: Rect, t: Target)
    requires IsBox(elem) && t.natW > 0.0 && t.natH > 0.0
    ensures var scale := Scale(elem, t);
            && 0.0 <= t.natW * scale <= elem.width && 0.0 <= t.natH * scale <= elem.height
            && (t.natW * scale == elem.width || t.natH * scale == elem.height)
  {
    if elem.width / t.natW <= elem.height / t.natH {
      SmallerRatioFits(elem.width, elem.height, t.natW, t.natH);
    } else {
      SmallerRatioFits(elem.height, elem.width, t.natH, t.natW);
    }
  }

  lemma ScaleDownShrinks(elem: Rect, t: Target)
    requires t.natW > 0.0 && t.natH > 0.0 && !(t.natW <= elem.width && t.natH <= elem.height)
    ensures var scale := Scale(elem, t);
            t.natW * scale <= t.natW && t.natH * scale <= t.natH
  {
    var scale := Scale(elem, t);
    Quotient(elem.width, t.natW);
    Quotient(elem.height, t.natH);
    assert scale <= 1.0;
    Scaled(scale, 1.0, t.natW);
    Scaled(scale, 1.0, t.natH);
  }

  lemma SameRatio(w: real, h: real, scale: real)
    ensures w * scale * h == h * scale * w
  {
  }

  // A loaded image under contain, or under scale-down if it is larger than its element.
  predicate IsRescaled(elem: Rect, t: Target)
  {
    && t.isImage && t.natW != 0.0 && t.natH != 0.0
    && (t.fit == Contain || (t.fit == ScaleDown && (t.natW > elem.width || t.natH > elem.height)))
  }

  // Keeps the aspect ratio, fits into the element and fills one dimension exactly.
  predicate Fits(r: Rect, elem: Rect, t: Target)
  {
    && IsBox(r)
    && r.width * t.natH == r.height * t.natW
    && r.width <= elem.width && r.height <= elem.height
    && (r.width == elem.width || r.height == elem.height)
  }

  // A rescaled image fits; of everything else the whole element is visible.
  lemma RescaledFits(elem: Rect, t: Target)
    requires IsBox(elem) && t.natW >= 0.0 && t.natH >= 0.0
    ensures var r := GetVisibleContentRect(elem, t);
            if IsRescaled(elem, t) then Fits(r, elem, t) else r == elem
  {
    if IsRescaled(elem, t) {
      ScaleOf(elem, t);
      SameRatio(t.natW, t.natH, Scale(elem, t));
    }
  }

  // Where a position component puts the content: a percentage lays the point of the content at that
  // part of its length on the same point of the element, near is 0%, far 100%, anything else 50%.
  predicate IsPlaced(val: PosValue, at: real, length: real, elemAt: real, elemLength: real)
  {
    match val
    case Percent(p) => 100.0 * at + p * length == 100.0 * elemAt + p * elemLength
    case Pixels(v) => at - elemAt == v
    case Near => at == elemAt
    case Far => at + length == elemAt + elemLength
    case Other => at - elemAt == (elemAt + elemLength) - (at + length)
  }

  lemma OffsetPlaces(val: PosValue, at: real, length: real, elemAt: real, elemLength: real)
    requires at == elemAt + ParsePosValue(val, elemLength - length)
    ensures IsPlaced(val, at, length, elemAt, elemLength)
  {
    if val.Percent? {
      assert 100.0 * (val.p / 100.0) == val.p;
      assert 100.0 * (val.p / 100.0 * (elemLength - length)) == val.p * (elemLength - length);
    }
  }

  // A rescaled image is placed horizontally by the first component and vertically by the second; with
  // fewer than two it is centered.
  lemma RescaledIsPlaced(elem: Rect, t: Target)
    requires IsBox(elem) && t.natW >= 0.0 && t.natH >= 0.0
    ensures IsRescaled(elem, t) ==>
      var r := GetVisibleContentRect(elem, t);
      && IsPlaced(if |t.pos| >= 2 then t.pos[0] else Other, r.left, r.width, elem.left, elem.width)
      && IsPlaced(if |t.pos| >= 2 then t.pos[1] else Other, r.top, r.height, elem.top, elem.height)
  {
    if IsRescaled(elem, t) {
      var r := GetVisibleContentRect(elem, t);
      OffsetPlaces(if |t.pos| >= 2 then t.pos[0] else Other, r.left, r.width, elem.left, elem.width);
      OffsetPlaces(if |t.pos| >= 2 then t.pos[1] else Other, r.top, r.height, elem.top, elem.height);
    }
  }

  // Scale-down never enlarges.
  lemma ScaleDownNeverEnlarges(elem: Rect, t: Target)
    requires t.natW >= 0.0 && t.natH >= 0.0 && IsRescaled(elem, t) && t.fit == ScaleDown
    ensures var r := GetVisibleContentRect(elem, t);
            r.width <= t.natW && r.height <= t.natH
  {
    var r, scale := GetVisibleContentRect(elem, t), Scale(elem, t);
    assert r.width == t.natW * scale && r.height == t.natH * scale;
    ScaleDownShrinks(elem, t);
  }

  // A position component that keeps the content inside when there is some room to spare.
  predicate IsAnchored(val: PosValue, slack: real)
  {
    match val
    case Percent(p) => slack == 0.0 || 0.0 <= p <= 100.0
    case Pixels(v) => 0.0 <= v <= slack
    case _ => true
  }

  lemma AnchoredPercent(p: real, slack: real)
    requires slack >= 0.0
    ensures 0.0 <= ParsePosValue(Percent(p), slack) <= slack <==> IsAnchored(Percent(p), slack)
  {
    if slack == 0.0 {
      assert p * slack == 0.0;
    } else {
      assert (p - 100.0) * slack == p * slack - 100.0 * slack;
      if p > 100.0 {
        assert (p - 100.0) * slack > 0.0;
      } else {
        assert (100.0 - p) * slack >= 0.0;
      }
    }
  }

  lemma AnchoredOffset(val: PosValue, slack: real)
    requires slack >= 0.0
    ensures 0.0 <= ParsePosValue(val, slack) <= slack <==> IsAnchored(val, slack)
  {
    if val.Percent? {
      AnchoredPercent(val.p, slack);
    }
  }

  // The content lies inside the element exactly when both position components anchor it there:
  // always for keywords, for percentages from 0 to 100, for pixels up to the spare room.
  lemma ContentInsideIff(elem: Rect, t: Target)
    requires IsBox(elem) && t.natW >= 0.0 && t.natH >= 0.0 && IsRescaled(elem, t)
    ensures var r := GetVisibleContentRect(elem, t);
            Inside(r, elem) <==>
              (|t.pos| >= 2 ==>
                 IsAnchored(t.pos[0], elem.width - r.width) && IsAnchored(t.pos[1], elem.height - r.height))
  {
    RescaledFits(elem, t);
    var r := GetVisibleContentRect(elem, t);
    if |t.pos| >= 2 {
      AnchoredOffset(t.pos[0], elem.width - r.width);
      AnchoredOffset(t.pos[1], elem.height - r.height);
    }
  }
}
