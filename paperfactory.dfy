/** The decisions `PaperFactory.__call__` takes before any pixel is touched: the two
    "random" flags, where the texture comes from, the blend inputs and method, and the
    colour step with its hue and saturation windows. */
module PaperFactory {
  import opened Numeric

  /** A flag option: the string "random", or an integer whose truth value is used. */
  datatype Flag = RandomFlag | Fixed(v: int)

  /** Python's truth value of an integer. */
  predicate Truthy(v: int) {
    v != 0
  }

  /** Lines 185-194: "random" becomes the `random.randint(0, 1)` draw, anything else is kept. */
  function ResolveFlag(f: Flag, draw: int): (r: int)
    requires 0 <= draw <= 1
    ensures f.RandomFlag? ==> r == draw
    ensures f.Fixed? ==> r == f.v
  {
    match f
    case RandomFlag => draw
    case Fixed(v) => v
  }

  /** A "random" flag resolves to 0 or 1, and a fixed flag does not depend on the draw. */
  lemma ResolvedFlagRange(f: Flag, d1: int, d2: int)
    requires 0 <= d1 <= 1 && 0 <= d2 <= 1
    ensures f.RandomFlag? ==> 0 <= ResolveFlag(f, d1) <= 1
    ensures f.Fixed? ==> ResolveFlag(f, d1) == ResolveFlag(f, d2)
  {
  }

  /** Where the first texture comes from. */
  datatype TextureSource = Library | Procedural

  /** Lines 197-202: a loaded texture library is used when it is not empty, otherwise a
      texture is generated. */
  function SourceFor(libraryCount: nat): (s: TextureSource)
    ensures s == Library <==> libraryCount > 0
    ensures s == Procedural <==> libraryCount == 0
  {
    if libraryCount > 0 then Library else Procedural
  }

  /** The blend methods `random.choice` picks from (lines 224-241). */
  const BlendMethods: seq<string> := ["ink_to_paper", "min", "max", "mix", "normal", "lighten",
                                      "darken", "screen", "dodge", "multiply", "divide",
                                      "grain_merge", "overlay", "FFT"]

  /** Lines 223-243: "random" becomes the method at the drawn index, anything else is kept. */
  function ResolveBlendMethod(configured: string, pick: nat): (m: string)
    requires pick < |BlendMethods|
    ensures configured == "random" ==> m in BlendMethods && m == BlendMethods[pick]
    ensures configured != "random" ==> m == configured
  {
    if configured == "random" then BlendMethods[pick] else configured
  }

  /** Every listed method can be drawn, and "random" itself never comes out of the draw. */
  lemma EveryBlendMethodReachable(m: string)
    requires m in BlendMethods
    ensures exists pick :: 0 <= pick < |BlendMethods| && ResolveBlendMethod("random", pick) == m
    ensures forall pick :: 0 <= pick < |BlendMethods| ==> ResolveBlendMethod("random", pick) != "random"
  {
    var pick :| 0 <= pick < |BlendMethods| && BlendMethods[pick] == m;
    assert ResolveBlendMethod("random", pick) == m;
  }

  /** The two images handed to the overlay builder (lines 246-254): the foreground and the
      background. Lines 218-222 overwrite the second texture with a same-size resize of
      the first, so both are the first texture whatever the second draw produced. */
  function BlendInputs<T>(texture: T, second: T): (inputs: (T, T))
    ensures inputs.0 == texture && inputs.1 == texture
  {
    (texture, texture)
  }

  /** The second texture has no effect on the blend inputs. */
  lemma SecondTextureIgnored<T>(texture: T, a: T, b: T)
    ensures BlendInputs(texture, a) == BlendInputs(texture, b)
  {
  }

  /** The offset of both colour windows. */
  const ColourOffset: int := 10

  /** Lines 264-266: the hue window around `hue = random.randint(10, 245)`. */
  function HueRange(hue: int): (r: (int, int))
    requires ColourOffset <= hue <= 255 - ColourOffset
    ensures 0 <= r.0 <= hue <= r.1 <= 255
    ensures r.1 - r.0 == 2 * ColourOffset
  {
    (hue - ColourOffset, hue + ColourOffset)
  }

  /** Lines 268-270: the saturation window around `saturation = random.randint(60, 195)`. */
  function SaturationRange(saturation: int): (r: (int, int))
    requires 50 + ColourOffset <= saturation <= 205 - ColourOffset
    ensures 50 <= r.0 <= saturation <= r.1 <= 205
    ensures r.1 - r.0 == 2 * ColourOffset
  {
    (saturation - ColourOffset, saturation + ColourOffset)
  }

  /** Every hue window of width 20 inside [0, 255] is drawn by exactly one hue, and every
      saturation window of width 20 inside [50, 205] by exactly one saturation. */
  lemma ColourWindowsExhaustive(lo: int)
    ensures 0 <= lo <= 235 ==> HueRange(lo + 10) == (lo, lo + 20)
    ensures forall hue :: 10 <= hue <= 245 && HueRange(hue).0 == lo ==> hue == lo + 10
    ensures 50 <= lo <= 185 ==> SaturationRange(lo + 10) == (lo, lo + 20)
    ensures forall s :: 60 <= s <= 195 && SaturationRange(s).0 == lo ==> s == lo + 10
  {
  }

  /** The colour step (lines 256-276). */
  datatype ColourStep =
    | Colourise(hueRange: (int, int), saturationRange: (int, int))  // gray to BGR, then `ColorPaper`
    | ToGray                                                         // `cv2.COLOR_BGR2GRAY`
    | Unchanged

  /** Colour is enabled: a gray texture is colourised with windows drawn from `hue` and
      `saturation`, a colour texture is left alone. Colour is disabled: a colour texture is
      converted to gray, a gray one left alone. */
  function ColourFor(enableColour: int, isGray: bool, hue: int, saturation: int): (c: ColourStep)
    requires 10 <= hue <= 245 && 60 <= saturation <= 195
    ensures c.Colourise? <==> Truthy(enableColour) && isGray
    ensures c.ToGray? <==> !Truthy(enableColour) && !isGray
    ensures c.Colourise? ==> 0 <= c.hueRange.0 && c.hueRange.1 <= 255 &&
                             50 <= c.saturationRange.0 && c.saturationRange.1 <= 205
  {
    if Truthy(enableColour) then
      if isGray then Colourise(HueRange(hue), SaturationRange(saturation)) else Unchanged
    else
      if isGray then Unchanged else ToGray
  }

  /** After the colour step a texture is gray exactly when colour is disabled, except that
      a colour texture stays in colour when colour is enabled and a gray one is coloured. */
  lemma ColourStepOutcome(enableColour: int, isGray: bool, hue: int, saturation: int)
    requires 10 <= hue <= 245 && 60 <= saturation <= 195
    ensures var c := ColourFor(enableColour, isGray, hue, saturation);
            (isGray && !c.Colourise?) || c.ToGray? <==> !Truthy(enableColour)
  {
  }

  /** The random draws `__call__` makes before any pixel work, each within its range. */
  datatype CallDraws = CallDraws(blendDraw: int, colourDraw: int, methodPick: nat, hue: int, saturation: int)

  predicate CallDrawsOk(d: CallDraws) {
    0 <= d.blendDraw <= 1 && 0 <= d.colourDraw <= 1 && d.methodPick < |BlendMethods| &&
    10 <= d.hue <= 245 && 60 <= d.saturation <= 195
  }

  /** The decisions of one call: where the first texture comes from; when blending, where
      the (discarded) second texture comes from and the blend method; and the colour step. */
  datatype Plan = Plan(source: TextureSource, blend: Option<(TextureSource, string)>, colour: ColourStep)

  /** `__call__` up to the brightness step. `isGray` says whether the texture reaching the
      colour step is single-channel. */
  function CallPlan(blendFlag: Flag, colourFlag: Flag, blendMethod: string, libraryCount: nat,
                    isGray: bool, d: CallDraws): (p: Plan)
    requires CallDrawsOk(d)
    ensures p.source == SourceFor(libraryCount)
    ensures p.blend.Some? <==> Truthy(ResolveFlag(blendFlag, d.blendDraw))
    ensures p.blend.Some? ==> p.blend.value.0 == p.source &&
                              p.blend.value.1 == ResolveBlendMethod(blendMethod, d.methodPick)
    ensures p.colour == ColourFor(ResolveFlag(colourFlag, d.colourDraw), isGray, d.hue, d.saturation)
  {
    var source := SourceFor(libraryCount);
    var blend := if Truthy(ResolveFlag(blendFlag, d.blendDraw))
                 then Some((source, ResolveBlendMethod(blendMethod, d.methodPick)))
                 else None;
    Plan(source, blend, ColourFor(ResolveFlag(colourFlag, d.colourDraw), isGray, d.hue, d.saturation))
  }

  /** With both flags fixed to 0 the call neither blends nor colours: it only converts a
      colour texture to gray. */
  lemma FixedOffFlags(blendMethod: string, libraryCount: nat, isGray: bool, d: CallDraws)
    requires CallDrawsOk(d)
    ensures CallPlan(Fixed(0), Fixed(0), blendMethod, libraryCount, isGray, d).blend.None?
    ensures CallPlan(Fixed(0), Fixed(0), blendMethod, libraryCount, isGray, d).colour
         == if isGray then Unchanged else ToGray
  {
  }
}
