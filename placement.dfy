/**
 * Placement maths of the editor, over mathematical reals: clamping of the
 * scale slider, the cover/contain fit of an image to the canvas, and the
 * default placement (and reset) of an accessory from its catalog hints.
 */
module Placement {
  import opened Wrappers
  import opened Layers
  import opened Catalog

  /** Side of the square working canvas, in logical pixels. */
  const LogicalSize: real := 1024.0

  /** Bounds of the scale factor the scale slider may store. */
  const MinScale: real := 0.02
  const MaxScale: real := 20.0

  function Max(a: real, b: real): real { if a >= b then a else b }
  function Min(a: real, b: real): real { if a <= b then a else b }

  /** `Math.max(lo, Math.min(hi, n))`. */
  function Clamp(n: real, lo: real, hi: real): (r: real)
    ensures lo <= hi ==> lo <= r <= hi
    ensures lo <= n <= hi ==> r == n
    ensures n < lo ==> r == lo
    ensures lo <= hi && hi < n ==> r == hi
  {
    Max(lo, Min(hi, n))
  }

  /** The uniform scale the scale slider stores for a percentage. */
  function ScaleFromPercent(pct: real): (s: real)
    ensures MinScale <= s <= MaxScale
    ensures 2.0 <= pct <= 2000.0 ==> s == pct / 100.0
  {
    Clamp(pct / 100.0, MinScale, MaxScale)
  }

  datatype FitMode = Cover | Contain

  /** `fitObjectToCanvas`: scale by the cover (larger) or contain (smaller) ratio
      of canvas to scaled image size, and centre the image on the canvas. An
      image of zero scaled width or height is left as it is. */
  function Fit(l: Layer, mode: FitMode, cw: real, ch: real): (r: Layer)
    ensures r.id == l.id && r.kind == l.kind && r.width == l.width && r.height == l.height
    ensures r.angle == l.angle
    ensures !HasArea(l) ==> r == l
    ensures HasArea(l) ==> r.scaleX == r.scaleY && r.left == cw / 2.0 && r.top == ch / 2.0
  {
    if !HasArea(l) then l
    else
      var s := l.scaleX * FitFactor(mode, cw, ch, ScaledWidth(l), ScaledHeight(l));
      l.(scaleX := s, scaleY := s, left := cw / 2.0, top := ch / 2.0)
  }

  function ScaledWidth(l: Layer): real { l.width as real * l.scaleX }
  function ScaledHeight(l: Layer): real { l.height as real * l.scaleY }

  /** The object covers some area on the canvas: neither scaled side is zero. */
  predicate HasArea(l: Layer) { ScaledWidth(l) != 0.0 && ScaledHeight(l) != 0.0 }

  /** The factor a fit multiplies the scale by: the larger (cover) or smaller
      (contain) of the two canvas-to-image ratios. */
  function FitFactor(mode: FitMode, cw: real, ch: real, ow: real, oh: real): real
    requires ow != 0.0 && oh != 0.0
  {
    if mode == Cover then Max(cw / ow, ch / oh) else Min(cw / ow, ch / oh)
  }

  /** Scaling the image by `s` divides the fit factor by `s`. */
  lemma FitFactorScaled(mode: FitMode, cw: real, ch: real, w: real, h: real, s: real)
    requires w > 0.0 && h > 0.0 && s > 0.0
    ensures w * s > 0.0 && h * s > 0.0
    ensures s * FitFactor(mode, cw, ch, w * s, h * s) == FitFactor(mode, cw, ch, w, h)
  {
    ScaledRatio(cw, w, s);
    ScaledRatio(ch, h, s);
    PositiveFactorOrder(s, cw / (w * s), ch / (h * s));
  }

  /** The scale that makes an unscaled `w` by `h` image just cover the canvas. */
  function CoverScale(w: real, h: real, cw: real, ch: real): real
    requires w > 0.0 && h > 0.0
  {
    Max(cw / w, ch / h)
  }

  /** Dividing by a scaled length and multiplying by the scale cancel. */
  lemma ScaledRatio(c: real, w: real, s: real)
    requires w > 0.0 && s > 0.0
    ensures s * (c / (w * s)) == c / w
  {
    var q := c / (w * s);
    assert q * (w * s) == c;
    assert (s * q) * w == c;
  }

  lemma RatioTimes(c: real, o: real, f: real)
    requires o > 0.0 && f >= c / o
    ensures o * f >= c
  {
    assert o * (c / o) == c;
  }

  lemma RatioTimesAtMost(c: real, o: real, f: real)
    requires o > 0.0 && f <= c / o
    ensures o * f <= c
  {
    assert o * (c / o) == c;
  }

  /** For an image with a positive uniform scale, the fitted scale depends only
      on the image's own size: whatever scale came before, the fit gives the same. */
  lemma {:induction false} FitScaleIgnoresPriorScale(l: Layer, mode: FitMode, cw: real, ch: real)
    requires l.width > 0 && l.height > 0 && l.scaleX > 0.0 && l.scaleX == l.scaleY
    ensures Fit(l, mode, cw, ch).scaleX == FitFactor(mode, cw, ch, l.width as real, l.height as real)
  {
    var w, h, s := l.width as real, l.height as real, l.scaleX;
    FitFactorScaled(mode, cw, ch, w, h, s);
    FitOfPositive(l, mode, cw, ch, w, h, s);
  }

  /** For positive scaled sizes the fit takes its second branch. */
  lemma FitOfPositive(l: Layer, mode: FitMode, cw: real, ch: real, w: real, h: real, s: real)
    requires w == l.width as real && h == l.height as real && s == l.scaleX == l.scaleY
    requires w * s > 0.0 && h * s > 0.0
    ensures Fit(l, mode, cw, ch).scaleX == s * FitFactor(mode, cw, ch, w * s, h * s)
  {
  }

  /** A positive factor keeps the order of two reals, so it commutes with Max and Min. */
  lemma PositiveFactorOrder(s: real, a: real, b: real)
    requires s > 0.0
    ensures s * Max(a, b) == Max(s * a, s * b) && s * Min(a, b) == Min(s * a, s * b)
  {
    if a <= b {
      assert s * a <= s * b;
    } else {
      assert s * b <= s * a;
    }
  }

  /** Cover fit: the centred image fills the canvas on both axes, exactly on at least one. */
  lemma {:induction false} FitCoverFills(l: Layer, cw: real, ch: real)
    requires l.width > 0 && l.height > 0 && l.scaleX > 0.0 && l.scaleX == l.scaleY
    requires cw > 0.0 && ch > 0.0
    ensures var r := Fit(l, Cover, cw, ch);
      && r.scaleX == r.scaleY && r.scaleX > 0.0
      && r.width as real * r.scaleX >= cw && r.height as real * r.scaleY >= ch
      && (r.width as real * r.scaleX == cw || r.height as real * r.scaleY == ch)
      && r.left == cw / 2.0 && r.top == ch / 2.0
  {
    var w, h := l.width as real, l.height as real;
    FitScaleIgnoresPriorScale(l, Cover, cw, ch);
    var f := Max(cw / w, ch / h);
    assert cw / w > 0.0 && ch / h > 0.0;
    RatioTimes(cw, w, f);
    RatioTimes(ch, h, f);
    assert w * (cw / w) == cw && h * (ch / h) == ch;
    assert Fit(l, Cover, cw, ch) == l.(scaleX := f, scaleY := f, left := cw / 2.0, top := ch / 2.0);
  }

  /** Contain fit: the centred image lies within the canvas on both axes, exactly filling one. */
  lemma {:induction false} FitContainInside(l: Layer, cw: real, ch: real)
    requires l.width > 0 && l.height > 0 && l.scaleX > 0.0 && l.scaleX == l.scaleY
    requires cw > 0.0 && ch > 0.0
    ensures var r := Fit(l, Contain, cw, ch);
      && r.scaleX == r.scaleY && r.scaleX > 0.0
      && r.width as real * r.scaleX <= cw && r.height as real * r.scaleY <= ch
      && (r.width as real * r.scaleX == cw || r.height as real * r.scaleY == ch)
      && r.left == cw / 2.0 && r.top == ch / 2.0
  {
    var w, h := l.width as real, l.height as real;
    FitScaleIgnoresPriorScale(l, Contain, cw, ch);
    var f := Min(cw / w, ch / h);
    assert cw / w > 0.0 && ch / h > 0.0;
    RatioTimesAtMost(cw, w, f);
    RatioTimesAtMost(ch, h, f);
    assert w * (cw / w) == cw && h * (ch / h) == ch;
    assert Fit(l, Contain, cw, ch) == l.(scaleX := f, scaleY := f, left := cw / 2.0, top := ch / 2.0);
  }

  /** A fit keeps a positive uniform scale positive and uniform. */
  lemma FitKeepsScalePositive(l: Layer, mode: FitMode, cw: real, ch: real)
    requires l.scaleX > 0.0 && l.scaleX == l.scaleY && cw > 0.0 && ch > 0.0
    ensures Fit(l, mode, cw, ch).scaleX > 0.0
    ensures Fit(l, mode, cw, ch).scaleX == Fit(l, mode, cw, ch).scaleY
  {
    if HasArea(l) {
      var ow, oh := ScaledWidth(l), ScaledHeight(l);
      NonZeroScaledSide(l.width as real, l.scaleX);
      NonZeroScaledSide(l.height as real, l.scaleY);
      FitFactorPositive(mode, cw, ch, ow, oh);
      ProductPositive(l.scaleX, FitFactor(mode, cw, ch, ow, oh));
    }
  }

  lemma NonZeroScaledSide(n: real, s: real)
    requires n >= 0.0 && s > 0.0 && n * s != 0.0
    ensures n * s > 0.0
  {
  }

  lemma FitFactorPositive(mode: FitMode, cw: real, ch: real, ow: real, oh: real)
    requires cw > 0.0 && ch > 0.0 && ow > 0.0 && oh > 0.0
    ensures FitFactor(mode, cw, ch, ow, oh) > 0.0
  {
    assert cw / ow > 0.0 && ch / oh > 0.0;
  }

  lemma ProductPositive(a: real, b: real)
    requires a > 0.0 && b > 0.0
    ensures a * b > 0.0
  {
  }

  // ----- Accessory placement -----

  /** The uniform scale that makes an image `width` pixels wide span
      `suggestedWidthRatio` of the canvas width (widths below 1 count as 1). */
  function DefaultScale(def: AccessoryDef, width: nat, cw: real): real
  {
    cw * def.suggestedWidthRatio / Max(1.0, width as real)
  }

  /** Centre `(cw/2, ch*suggestedY)` and the default uniform scale; nothing else changes. */
  function PlaceAccessory(l: Layer, def: AccessoryDef, cw: real, ch: real): (r: Layer)
    ensures r.id == l.id && r.kind == l.kind && r.width == l.width && r.height == l.height
    ensures r.angle == l.angle
  {
    var s := DefaultScale(def, l.width, cw);
    l.(left := cw / 2.0, top := ch * def.suggestedY, scaleX := s, scaleY := s)
  }

  /** The layer `addAccessory` creates for a decoded `width` by `height` image:
      unrotated, at the catalog's default placement. */
  function NewAccessory(id: LayerId, def: AccessoryDef, width: nat, height: nat, cw: real, ch: real): (r: Layer)
    ensures r.id == id && r.kind == Accessory(def.id) && r.width == width && r.height == height
    ensures r.angle == 0.0 && r.scaleX == r.scaleY
    ensures r.left == cw / 2.0 && r.top == ch * def.suggestedY
    ensures width >= 1 ==> r.width as real * r.scaleX == cw * def.suggestedWidthRatio
  {
    var r := PlaceAccessory(Layer(id, Accessory(def.id), width, height, cw / 2.0, ch * def.suggestedY, 0.0, 1.0, 1.0), def, cw, ch);
    if width >= 1 then
      DefaultWidthIsRatio(def, width, cw);
      r
    else r
  }

  lemma DefaultWidthIsRatio(def: AccessoryDef, width: nat, cw: real)
    requires width >= 1
    ensures width as real * DefaultScale(def, width, cw) == cw * def.suggestedWidthRatio
  {
    var w := width as real;
    assert Max(1.0, w) == w;
    assert w * ((cw * def.suggestedWidthRatio) / w) == cw * def.suggestedWidthRatio;
  }

  /** A width ratio in (0, 1] gives a positive default scale and a default
      width no wider than the canvas. */
  lemma DefaultScaleWithin(def: AccessoryDef, width: nat, cw: real)
    requires 0.0 < def.suggestedWidthRatio <= 1.0 && cw > 0.0
    ensures 0.0 < DefaultScale(def, width, cw)
    ensures width as real * DefaultScale(def, width, cw) <= cw
  {
    var t := cw * def.suggestedWidthRatio;
    assert 0.0 < t <= cw;
    if width >= 1 {
      DefaultWidthIsRatio(def, width, cw);
    } else {
      assert DefaultScale(def, width, cw) == t;
    }
  }

  /** A new accessory with a width ratio in (0, 1] starts with a positive scale
      and no wider than the canvas. */
  lemma NewAccessoryWithin(def: AccessoryDef, id: LayerId, width: nat, height: nat, cw: real, ch: real)
    requires 0.0 < def.suggestedWidthRatio <= 1.0 && cw > 0.0
    ensures var r := NewAccessory(id, def, width, height, cw, ch);
      0.0 < r.scaleX && r.width as real * r.scaleX <= cw
  {
    DefaultScaleWithin(def, width, cw);
  }

  /** A catalog accessory's default width never exceeds the canvas width. */
  lemma CatalogAccessoryFitsCanvas(def: AccessoryDef, id: LayerId, width: nat, height: nat, cw: real, ch: real)
    requires def in Accessories && cw > 0.0
    ensures var r := NewAccessory(id, def, width, height, cw, ch);
      0.0 < r.scaleX && r.width as real * r.scaleX <= cw
  {
    CatalogPlacementHints();
    NewAccessoryWithin(def, id, width, height, cw, ch);
  }

  // ----- Reset to default -----

  /** `resetSelectedTransform` on one layer: the photo is unrotated and cover-fitted;
      an accessory found in the catalog by its id is unrotated and placed by
      its definition; anything else is only unrotated. */
  function ResetLayer(l: Layer, isPhoto: bool, catalog: seq<AccessoryDef>, cw: real, ch: real): (r: Layer)
    ensures r.id == l.id && r.kind == l.kind && r.width == l.width && r.height == l.height
    ensures r.angle == 0.0
    ensures !isPhoto && !(l.kind.Accessory? && l.kind.defId != "" && FindById(catalog, l.kind.defId).Some?) ==>
      r == l.(angle := 0.0)
  {
    if isPhoto then Fit(l.(angle := 0.0), Cover, cw, ch)
    else if l.kind.Accessory? && l.kind.defId != "" then
      match FindById(catalog, l.kind.defId)
      case Some(def) => PlaceAccessory(l.(angle := 0.0), def, cw, ch)
      case None => l.(angle := 0.0)
    else l.(angle := 0.0)
  }

  /** Reset of a catalog accessory gives back exactly the layer the add handler
      created for it, whatever was done to it since. */
  lemma ResetRestoresNewAccessory(l: Layer, def: AccessoryDef, cw: real, ch: real)
    requires def in Accessories && l.kind == Accessory(def.id)
    ensures ResetLayer(l, false, Accessories, cw, ch) == NewAccessory(l.id, def, l.width, l.height, cw, ch)
  {
    CatalogLookupIsExact(def);
    CatalogIdsDistinct();
    assert def.id != "" by {
      assert forall d :: d in Accessories ==> |d.id| > 0;
    }
  }

  /** Reset of the photo gives an unrotated image, centred, at the cover scale
      of its own size, whatever position, rotation and scale it had before. */
  lemma ResetRestoresPhotoCover(l: Layer, cw: real, ch: real)
    requires l.width > 0 && l.height > 0 && l.scaleX > 0.0 && l.scaleX == l.scaleY
    requires cw > 0.0 && ch > 0.0
    ensures var r := ResetLayer(l, true, Accessories, cw, ch);
      && r == l.(angle := 0.0, left := cw / 2.0, top := ch / 2.0,
                 scaleX := CoverScale(l.width as real, l.height as real, cw, ch),
                 scaleY := CoverScale(l.width as real, l.height as real, cw, ch))
  {
    var m := l.(angle := 0.0);
    FitScaleIgnoresPriorScale(m, Cover, cw, ch);
  }

  /** Two layers differing only in placement reset to the same layer. */
  lemma ResetForgetsPlacement(l1: Layer, l2: Layer, isPhoto: bool, cw: real, ch: real)
    requires l1.id == l2.id && l1.kind == l2.kind && l1.width == l2.width && l1.height == l2.height
    requires l1.scaleX == l1.scaleY && l2.scaleX == l2.scaleY
    requires isPhoto ==> l1.width > 0 && l1.height > 0 && l1.scaleX > 0.0 && l2.scaleX > 0.0 && cw > 0.0 && ch > 0.0
    requires !isPhoto ==> l1.kind.Accessory? && l1.kind.defId in set d | d in Accessories :: d.id
    ensures ResetLayer(l1, isPhoto, Accessories, cw, ch) == ResetLayer(l2, isPhoto, Accessories, cw, ch)
  {
    if isPhoto {
      ResetRestoresPhotoCover(l1, cw, ch);
      ResetRestoresPhotoCover(l2, cw, ch);
    } else {
      var def :| def in Accessories && def.id == l1.kind.defId;
      ResetRestoresNewAccessory(l1, def, cw, ch);
      ResetRestoresNewAccessory(l2, def, cw, ch);
    }
  }

  /** Resetting the photo twice is resetting it once. */
  lemma ResetPhotoIdempotent(l: Layer, cw: real, ch: real)
    requires l.width > 0 && l.height > 0 && l.scaleX > 0.0 && l.scaleX == l.scaleY
    requires cw > 0.0 && ch > 0.0
    ensures var r := ResetLayer(l, true, Accessories, cw, ch);
      ResetLayer(r, true, Accessories, cw, ch) == r
  {
    var r := ResetLayer(l, true, Accessories, cw, ch);
    ResetRestoresPhotoCover(l, cw, ch);
    assert cw / (l.width as real) > 0.0;
    assert r.scaleX > 0.0;
    ResetForgetsPlacement(r, l, true, cw, ch);
  }
}
