/** Translating a Render compositing request into texture swizzles, one shader
    multiply and two blend factors, on R300 to R500 and on R6xx. */
module RenderOp {
  import opened Wrappers

  // ---- Pictures ----

  datatype Channel = R | G | B | A

  /** A field of a stored pixel, from the low bits upwards, or a constant. */
  datatype Select = SelX | SelY | SelZ | SelW | Sel0 | Sel1

  /** The fields of one stored pixel. */
  datatype Texel = Texel(x: real, y: real, z: real, w: real) {
    function Pick(s: Select): real {
      match s
      case SelX => x
      case SelY => y
      case SelZ => z
      case SelW => w
      case Sel0 => 0.0
      case Sel1 => 1.0
    }
  }

  /** One selection for each channel. */
  datatype Swizzle = Swizzle(r: Select, g: Select, b: Select, a: Select) {
    function Get(c: Channel): Select {
      match c
      case R => r
      case G => g
      case B => b
      case A => a
    }
  }

  /** A picture format: its pixel size and where each channel is stored. A format
      without colour reads as colour 0 and one without alpha as alpha 1. */
  datatype Format = Format(bpp: nat, layout: Swizzle) {
    predicate HasAlpha(): (has: bool)
      ensures Readable(this) ==> (has <==> this in {A8R8G8B8, A8B8G8R8, A1R5G5B5, A8})
    {
      layout.a != Sel1
    }

    predicate HasRgb(): (has: bool)
      ensures Readable(this) ==> (has <==> this != A8)
    {
      layout.r != Sel0
    }
  }

  const A8R8G8B8 := Format(32, Swizzle(SelZ, SelY, SelX, SelW))
  const X8R8G8B8 := Format(32, Swizzle(SelZ, SelY, SelX, Sel1))
  const A8B8G8R8 := Format(32, Swizzle(SelX, SelY, SelZ, SelW))
  const X8B8G8R8 := Format(32, Swizzle(SelX, SelY, SelZ, Sel1))
  const R5G6B5 := Format(16, Swizzle(SelZ, SelY, SelX, Sel1))
  const A1R5G5B5 := Format(15, Swizzle(SelZ, SelY, SelX, SelW))
  const X1R5G5B5 := Format(15, Swizzle(SelZ, SelY, SelX, Sel1))
  const A8 := Format(8, Swizzle(Sel0, Sel0, Sel0, SelX))

  /** Colours and alpha by their places in the pixel, blue lowest or red lowest, or alpha alone. */
  predicate Readable(f: Format) {
    || f == Format(32, Swizzle(SelZ, SelY, SelX, SelW)) || f == Format(32, Swizzle(SelZ, SelY, SelX, Sel1))
    || f == Format(32, Swizzle(SelX, SelY, SelZ, SelW)) || f == Format(32, Swizzle(SelX, SelY, SelZ, Sel1))
    || f == Format(16, Swizzle(SelZ, SelY, SelX, Sel1))
    || f == Format(15, Swizzle(SelZ, SelY, SelX, SelW)) || f == Format(15, Swizzle(SelZ, SelY, SelX, Sel1))
    || f == Format(8, Swizzle(Sel0, Sel0, Sel0, SelX))
  }

  /** The value of channel c of a stored pixel: the lowest field is blue or, in two formats,
      red; a format without alpha is opaque and one without colors black. */
  function Meaning(f: Format, t: Texel, c: Channel): (v: real)
    ensures f == A8 ==> v == if c == A then t.x else 0.0
    ensures Readable(f) && f != A8 ==> v == match c
                                            case R => if f in {A8B8G8R8, X8B8G8R8} then t.x else t.z
                                            case G => t.y
                                            case B => if f in {A8B8G8R8, X8B8G8R8} then t.z else t.x
                                            case A => if f in {A8R8G8B8, A8B8G8R8, A1R5G5B5} then t.w else 1.0
  {
    t.Pick(f.layout.Get(c))
  }

  datatype Mask = Mask(format: Format, componentAlpha: bool)

  // ---- The rendering model of the X Rendering Extension ----

  datatype Op = Clear | Src | Dst | Over | OverReverse | In | InReverse | Out | OutReverse
              | Atop | AtopReverse | Xor | Add | OtherOp

  function SourceWeight(op: Op, dstAlpha: real): real {
    match op
    case Clear => 0.0
    case Src => 1.0
    case Dst => 0.0
    case Over => 1.0
    case OverReverse => 1.0 - dstAlpha
    case In => dstAlpha
    case InReverse => 0.0
    case Out => 1.0 - dstAlpha
    case OutReverse => 0.0
    case Atop => dstAlpha
    case AtopReverse => 1.0 - dstAlpha
    case Xor => 1.0 - dstAlpha
    case Add => 1.0
    case OtherOp => 0.0
  }

  function DestWeight(op: Op, srcAlpha: real): real {
    match op
    case Clear => 0.0
    case Src => 0.0
    case Dst => 1.0
    case Over => 1.0 - srcAlpha
    case OverReverse => 1.0
    case In => 0.0
    case InReverse => srcAlpha
    case Out => 0.0
    case OutReverse => 1.0 - srcAlpha
    case Atop => 1.0 - srcAlpha
    case AtopReverse => srcAlpha
    case Xor => 1.0 - srcAlpha
    case Add => 1.0
    case OtherOp => 0.0
  }

  function Saturate(v: real): real { if v < 0.0 then 0.0 else if v > 1.0 then 1.0 else v }

  function WeightedSum(a: real, wa: real, b: real, wb: real): real {
    Saturate(a * wa + b * wb)
  }

  /** What the mask multiplies channel c of the source with: its alpha, or with component alpha its own channel. */
  function MaskValue(mask: Option<Mask>, m: Texel, c: Channel): real {
    match mask
    case None => 1.0
    case Some(k) => Meaning(k.format, m, if k.componentAlpha then c else A)
  }

  /** The stored destination pixel: one channel and the alpha field. */
  datatype Dest = Dest(value: real, alpha: real)

  function DestAlpha(dst: Format, d: Dest): real {
    if dst.HasAlpha() then d.alpha else 1.0
  }

  /** source IN mask for one channel, and the alpha it carries there. */
  function Masked(src: Format, mask: Option<Mask>, s: Texel, m: Texel, c: Channel): real {
    Meaning(src, s, c) * MaskValue(mask, m, c)
  }

  function MaskedAlpha(src: Format, mask: Option<Mask>, s: Texel, m: Texel, c: Channel): real {
    Meaning(src, s, A) * MaskValue(mask, m, c)
  }

  /** masked OP dest for one channel. */
  function Composite(op: Op, dst: Format, masked: real, maskedAlpha: real, d: Dest): (v: real)
    ensures var sum := masked * SourceWeight(op, DestAlpha(dst, d)) + d.value * DestWeight(op, maskedAlpha);
            v == if sum < 0.0 then 0.0 else if sum > 1.0 then 1.0 else sum
  {
    WeightedSum(masked, SourceWeight(op, DestAlpha(dst, d)), d.value, DestWeight(op, maskedAlpha))
  }

  // ---- The blend table ----

  datatype Factor = Zero | One | SrcColor | OneMinusSrcColor | SrcAlpha | OneMinusSrcAlpha | DstAlpha | OneMinusDstAlpha

  datatype BlendInfo = BlendInfo(dstAlpha: bool, srcAlpha: bool, src: Factor, dst: Factor)

  function BlendOp(op: Op): BlendInfo
    requires !op.OtherOp?
  {
    match op
    case Clear => BlendInfo(false, false, Zero, Zero)
    case Src => BlendInfo(false, false, One, Zero)
    case Dst => BlendInfo(false, false, Zero, One)
    case Over => BlendInfo(false, true, One, OneMinusSrcAlpha)
    case OverReverse => BlendInfo(true, false, OneMinusDstAlpha, One)
    case In => BlendInfo(true, false, DstAlpha, Zero)
    case InReverse => BlendInfo(false, true, Zero, SrcAlpha)
    case Out => BlendInfo(true, false, OneMinusDstAlpha, Zero)
    case OutReverse => BlendInfo(false, true, Zero, OneMinusSrcAlpha)
    case Atop => BlendInfo(true, true, DstAlpha, OneMinusSrcAlpha)
    case AtopReverse => BlendInfo(true, true, OneMinusDstAlpha, SrcAlpha)
    case Xor => BlendInfo(true, true, OneMinusDstAlpha, OneMinusSrcAlpha)
    case Add => BlendInfo(false, false, One, One)
  }

  /** Without destination alpha the source factor is replaced by its value at 1. */
  function SourceFactor(op: Op, dst: Format): Factor
    requires !op.OtherOp?
  {
    var info := BlendOp(op);
    if !dst.HasAlpha() && info.dstAlpha then
      if info.src == DstAlpha then One else if info.src == OneMinusDstAlpha then Zero else info.src
    else info.src
  }

  /** Component alpha and an operator that weighs the destination by source alpha. */
  predicate AlphaOnly(op: Op, mask: Option<Mask>)
    requires !op.OtherOp?
  {
    mask.Some? && mask.value.componentAlpha && BlendOp(op).srcAlpha
  }

  /** Then the destination factor is taken channel by channel. */
  function DestFactor(op: Op, mask: Option<Mask>): Factor
    requires !op.OtherOp?
  {
    var info := BlendOp(op);
    if AlphaOnly(op, mask) then
      if info.dst == SrcAlpha then SrcColor else if info.dst == OneMinusSrcAlpha then OneMinusSrcColor else info.dst
    else info.dst
  }

  /** A blend factor for one channel, given the shader's value and alpha. */
  function FactorValue(f: Factor, value: real, alpha: real, dstAlpha: real): real {
    match f
    case Zero => 0.0
    case One => 1.0
    case SrcColor => value
    case OneMinusSrcColor => 1.0 - value
    case SrcAlpha => alpha
    case OneMinusSrcAlpha => 1.0 - alpha
    case DstAlpha => dstAlpha
    case OneMinusDstAlpha => 1.0 - dstAlpha
  }

  /** The blend unit. Its destination alpha is whatever the surface holds there, even in a format without alpha. */
  function Blend(sf: Factor, df: Factor, value: real, alpha: real, d: Dest): real {
    WeightedSum(value, FactorValue(sf, value, alpha, d.alpha), d.value, FactorValue(df, value, alpha, d.alpha))
  }

  // ---- The acceptance tests ----

  predicate TextureFormat(f: Format) {
    f in {A8R8G8B8, X8R8G8B8, A8B8G8R8, X8B8G8R8, R5G6B5, A1R5G5B5, X1R5G5B5, A8}
  }

  predicate DestFormat(f: Format) { f in {A8R8G8B8, X8R8G8B8, R5G6B5, A1R5G5B5, X1R5G5B5, A8} }

  predicate Supported(op: Op, src: Format, mask: Option<Mask>) {
    !op.OtherOp? && TextureFormat(src) && (mask.Some? ==> TextureFormat(mask.value.format))
  }

  /** Component alpha is refused where the blend would need both the source value and the source alpha. */
  predicate CheckComposite(op: Op, src: Format, mask: Option<Mask>, dst: Format) {
    && !op.OtherOp?
    && (mask.Some? ==>
          && !(mask.value.componentAlpha && BlendOp(op).srcAlpha && BlendOp(op).src != Zero)
          && TextureFormat(mask.value.format))
    && TextureFormat(src) && DestFormat(dst)
  }

  // ---- R6xx: everything in the texture swizzle ----

  function R600FormatSwizzle(f: Format): Swizzle
    requires TextureFormat(f)
  {
    if f == A1R5G5B5 || f == A8R8G8B8 then Swizzle(SelZ, SelY, SelX, SelW)
    else if f == A8B8G8R8 then Swizzle(SelX, SelY, SelZ, SelW)
    else if f == X8B8G8R8 then Swizzle(SelX, SelY, SelZ, Sel1)
    else if f == X1R5G5B5 || f == X8R8G8B8 || f == R5G6B5 then Swizzle(SelZ, SelY, SelX, Sel1)
    else Swizzle(Sel0, Sel0, Sel0, SelX)
  }

  function Opaque(z: Swizzle, f: Format): Swizzle {
    if f.HasAlpha() then z else z.(a := Sel1)
  }

  function Colourless(z: Swizzle, f: Format): Swizzle {
    if f.HasRgb() then z else z.(r := Sel0, g := Sel0, b := Sel0)
  }

  function AlphaEverywhere(z: Swizzle, f: Format): Swizzle {
    if f.HasAlpha() then Swizzle(z.a, z.a, z.a, z.a) else Swizzle(Sel1, Sel1, Sel1, Sel1)
  }

  function R600SourceSwizzle(op: Op, f: Format, mask: Option<Mask>): Swizzle
    requires !op.OtherOp? && TextureFormat(f)
  {
    var z := R600FormatSwizzle(f);
    if mask.None? then Opaque(Colourless(z, f), f)
    else if mask.value.componentAlpha then
      if BlendOp(op).srcAlpha then AlphaEverywhere(z, f) else Opaque(z, f)
    else Opaque(Colourless(z, f), f)
  }

  function R600MaskSwizzle(k: Mask): Swizzle
    requires TextureFormat(k.format)
  {
    var z := R600FormatSwizzle(k.format);
    if k.componentAlpha then Opaque(z, k.format) else AlphaEverywhere(z, k.format)
  }

  // ---- R300 to R500: a texture swizzle and operand selects ----

  /** The easy texture formats name the fields for blue, green, red and alpha. */
  function R300FormatSwizzle(f: Format): Swizzle
    requires TextureFormat(f)
  {
    if f == A8R8G8B8 then Swizzle(SelZ, SelY, SelX, SelW)
    else if f == X8R8G8B8 then Swizzle(SelZ, SelY, SelX, Sel1)
    else if f == A8B8G8R8 then Swizzle(SelX, SelY, SelZ, SelW)
    else if f == X8B8G8R8 then Swizzle(SelX, SelY, SelZ, Sel1)
    else if f == R5G6B5 then Swizzle(SelZ, SelY, SelX, Sel1)
    else if f == A1R5G5B5 then Swizzle(SelZ, SelY, SelX, SelW)
    else if f == X1R5G5B5 then Swizzle(SelZ, SelY, SelX, Sel1)
    else Swizzle(Sel0, Sel0, Sel0, SelX)
  }

  datatype ColorSelect = Rgb | Aaa | Rgb0 | Rgb1
  datatype AlphaSelect = Alpha | Alpha1

  /** The field a shader operand ends up reading in each channel. */
  function Operand(c: ColorSelect, a: AlphaSelect, z: Swizzle): Swizzle {
    var alpha := if a == Alpha then z.a else Sel1;
    match c
    case Rgb => z.(a := alpha)
    case Aaa => Swizzle(z.a, z.a, z.a, alpha)
    case Rgb0 => Swizzle(Sel0, Sel0, Sel0, alpha)
    case Rgb1 => Swizzle(Sel1, Sel1, Sel1, alpha)
  }

  function AlphaOf(f: Format): AlphaSelect { if f.HasAlpha() then Alpha else Alpha1 }

  function R300SourceSwizzle(op: Op, f: Format, mask: Option<Mask>): Swizzle
    requires !op.OtherOp? && TextureFormat(f)
  {
    var z := R300FormatSwizzle(f);
    if mask.Some? && mask.value.componentAlpha then
      if BlendOp(op).srcAlpha then
        if f.HasAlpha() then Operand(Aaa, Alpha, z) else Operand(Rgb1, Alpha1, z)
      else Operand(Rgb, AlphaOf(f), z)
    else Operand(if f.HasRgb() then Rgb else Rgb0, AlphaOf(f), z)
  }

  function R300MaskSwizzle(k: Mask): Swizzle
    requires TextureFormat(k.format)
  {
    var z := R300FormatSwizzle(k.format);
    if k.componentAlpha then Operand(Rgb, AlphaOf(k.format), z)
    else Operand(if k.format.HasAlpha() then Aaa else Rgb1, AlphaOf(k.format), z)
  }

  datatype Family = R300 | R600

  function SourceSwizzle(family: Family, op: Op, f: Format, mask: Option<Mask>): Swizzle
    requires !op.OtherOp? && TextureFormat(f)
  {
    if family == R300 then R300SourceSwizzle(op, f, mask) else R600SourceSwizzle(op, f, mask)
  }

  function MaskSwizzle(family: Family, k: Mask): Swizzle
    requires TextureFormat(k.format)
  {
    if family == R300 then R300MaskSwizzle(k) else R600MaskSwizzle(k)
  }

  /** What the pixel shader exports: the source operand, times the mask operand when there is a mask. */
  function Shader(family: Family, op: Op, src: Format, mask: Option<Mask>, s: Texel, m: Texel, c: Channel): real
    requires Supported(op, src, mask)
  {
    var source := s.Pick(SourceSwizzle(family, op, src, mask).Get(c));
    if mask.None? then source else source * m.Pick(MaskSwizzle(family, mask.value).Get(c))
  }

  // ---- The shader's export ----

  lemma R600SwizzlesRight(op: Op, src: Format, mask: Option<Mask>, c: Channel)
    requires Supported(op, src, mask)
    ensures R600SourceSwizzle(op, src, mask).Get(c) == src.layout.Get(if AlphaOnly(op, mask) then A else c)
    ensures mask.Some? ==>
              R600MaskSwizzle(mask.value).Get(c)
              == mask.value.format.layout.Get(if mask.value.componentAlpha then c else A)
  {
    assert R600FormatSwizzle(src) == src.layout;
    assert mask.Some? ==> R600FormatSwizzle(mask.value.format) == mask.value.format.layout;
  }

  lemma R300SwizzlesRight(op: Op, src: Format, mask: Option<Mask>, c: Channel)
    requires Supported(op, src, mask)
    ensures R300SourceSwizzle(op, src, mask).Get(c) == src.layout.Get(if AlphaOnly(op, mask) then A else c)
    ensures mask.Some? ==>
              R300MaskSwizzle(mask.value).Get(c)
              == mask.value.format.layout.Get(if mask.value.componentAlpha then c else A)
  {
    assert R300FormatSwizzle(src) == src.layout;
    assert mask.Some? ==> R300FormatSwizzle(mask.value.format) == mask.value.format.layout;
  }

  /** Both families export the masked source, or its masked alpha in every channel
      when the blend needs the alpha channel by channel. */
  lemma ShaderRight(family: Family, op: Op, src: Format, mask: Option<Mask>, s: Texel, m: Texel, c: Channel)
    requires Supported(op, src, mask)
    ensures Shader(family, op, src, mask, s, m, c)
         == if AlphaOnly(op, mask) then MaskedAlpha(src, mask, s, m, c) else Masked(src, mask, s, m, c)
  {
    if family == R300 {
      R300SwizzlesRight(op, src, mask, c);
    } else {
      R600SwizzlesRight(op, src, mask, c);
    }
  }

  // ---- The translation preserves the rendering model ----

  /** The destination stores channel c. */
  predicate Holds(f: Format, c: Channel) {
    if c == A then f.HasAlpha() else f.HasRgb()
  }

  /** The request needs the masked source and the masked source alpha in one shader
      output: the alpha weighs the destination while the source is still added. */
  predicate NeedsBoth(op: Op, mask: Option<Mask>, dst: Format)
    requires !op.OtherOp?
  {
    && AlphaOnly(op, mask) && SourceFactor(op, dst) != Zero
    && mask.value.format.HasRgb() && dst.HasRgb()
  }

  /** What the hardware writes is what the rendering model asks for. */
  predicate PixelRight(family: Family, op: Op, src: Format, mask: Option<Mask>, dst: Format, s: Texel, m: Texel,
                       d: Dest, c: Channel)
    requires Supported(op, src, mask)
  {
    Blend(SourceFactor(op, dst), DestFactor(op, mask), Shader(family, op, src, mask, s, m, c),
          Shader(family, op, src, mask, s, m, A), d)
    == Composite(op, dst, Masked(src, mask, s, m, c), MaskedAlpha(src, mask, s, m, c), d)
  }

  lemma SourceFactorRight(op: Op, dst: Format, value: real, alpha: real, d: Dest)
    requires !op.OtherOp?
    ensures FactorValue(SourceFactor(op, dst), value, alpha, d.alpha) == SourceWeight(op, DestAlpha(dst, d))
    ensures SourceFactor(op, dst) == Zero ==> SourceWeight(op, DestAlpha(dst, d)) == 0.0
  {
  }

  /** The destination factor weighs by the shader's alpha, or by its value in the channel. */
  lemma DestFactorRight(op: Op, mask: Option<Mask>, value: real, alpha: real, dstAlpha: real)
    requires !op.OtherOp?
    ensures FactorValue(DestFactor(op, mask), value, alpha, dstAlpha) == DestWeight(op,
          if AlphaOnly(op, mask) then value else alpha)
    ensures !BlendOp(op).srcAlpha ==> forall a :: DestWeight(op, a) == DestWeight(op, alpha)
  {
  }

  lemma BlendFactorsRight(op: Op, mask: Option<Mask>, dst: Format, value: real, alpha: real, d: Dest)
    requires !op.OtherOp?
    ensures Blend(SourceFactor(op, dst), DestFactor(op, mask), value, alpha, d)
         == Composite(op, dst, value, if AlphaOnly(op, mask) then value else alpha, d)
  {
    SourceFactorRight(op, dst, value, alpha, d);
    DestFactorRight(op, mask, value, alpha, d.alpha);
  }

  /** Where the alpha is exported in place of the source, the source is not added, or is zero as well. */
  lemma ExportEnough(op: Op, src: Format, mask: Option<Mask>, dst: Format, s: Texel, m: Texel, d: Dest, c: Channel)
    requires Supported(op, src, mask) && Holds(dst, c) && !NeedsBoth(op, mask, dst) && AlphaOnly(op, mask)
    ensures Masked(src, mask, s, m, c) == MaskedAlpha(src, mask, s, m, c) || SourceWeight(op, DestAlpha(dst, d)) == 0.0
  {
    if c != A {
      if SourceFactor(op, dst) == Zero {
        SourceFactorRight(op, dst, 0.0, 0.0, d);
      } else {
        assert TextureFormat(mask.value.format) && MaskValue(mask, m, c) == 0.0;
      }
    }
  }

  /** Without component alpha one mask value serves every channel; with it, operators
      outside AlphaOnly do not look at the source alpha. */
  lemma AlphaEnough(op: Op, src: Format, mask: Option<Mask>, s: Texel, m: Texel, c: Channel)
    requires Supported(op, src, mask) && !AlphaOnly(op, mask)
    ensures DestWeight(op, Masked(src, mask, s, m, A)) == DestWeight(op, MaskedAlpha(src, mask, s, m, c))
  {
    if mask.Some? && mask.value.componentAlpha {
      DestFactorRight(op, mask, 0.0, Masked(src, mask, s, m, A), 0.0);
    }
  }

  lemma SameComposite(op: Op, dst: Format, value: real, weigher: real, masked: real, maskedAlpha: real, d: Dest)
    requires value == masked || SourceWeight(op, DestAlpha(dst, d)) == 0.0
    requires DestWeight(op, weigher) == DestWeight(op, maskedAlpha)
    ensures Composite(op, dst, value, weigher, d) == Composite(op, dst, masked, maskedAlpha, d)
  {
    var weight := SourceWeight(op, DestAlpha(dst, d));
    assert value * weight == masked * weight;
  }

  /** For every request that does not need both, and all channel values, the hardware
      writes what the rendering model asks for in every channel the destination holds. */
  lemma PixelAlwaysRight(family: Family, op: Op, src: Format, mask: Option<Mask>, dst: Format, s: Texel, m: Texel,
                         d: Dest, c: Channel)
    requires Supported(op, src, mask) && DestFormat(dst) && Holds(dst, c) && !NeedsBoth(op, mask, dst)
    ensures PixelRight(family, op, src, mask, dst, s, m, d, c)
  {
    ShaderRight(family, op, src, mask, s, m, c);
    ShaderRight(family, op, src, mask, s, m, A);
    var value, alpha := Shader(family, op, src, mask, s, m, c), Shader(family, op, src, mask, s, m, A);
    BlendFactorsRight(op, mask, dst, value, alpha, d);
    if AlphaOnly(op, mask) {
      ExportEnough(op, src, mask, dst, s, m, d, c);
      SameComposite(op, dst, value, value, Masked(src, mask, s, m, c), MaskedAlpha(src, mask, s, m, c), d);
    } else {
      AlphaEnough(op, src, mask, s, m, c);
      SameComposite(op, dst, value, alpha, Masked(src, mask, s, m, c), MaskedAlpha(src, mask, s, m, c), d);
    }
  }

  predicate InUnit(v: real) { 0.0 <= v <= 1.0 }

  predicate UnitTexel(t: Texel) { InUnit(t.x) && InUnit(t.y) && InUnit(t.z) && InUnit(t.w) }

  predicate UnitDest(d: Dest) { InUnit(d.value) && InUnit(d.alpha) }

  /** A source that is opaque but has no red. */
  function OpaqueRedless(f: Format): Texel {
    if f.layout.r == SelX then Texel(0.0, 1.0, 1.0, 1.0) else Texel(1.0, 1.0, 0.0, 1.0)
  }

  const WHITE := Texel(1.0, 1.0, 1.0, 1.0)

  lemma OpaqueRedlessMasked(op: Op, src: Format, mask: Option<Mask>, dst: Format)
    requires Supported(op, src, mask) && NeedsBoth(op, mask, dst)
    ensures Masked(src, mask, OpaqueRedless(src), WHITE, R) == 0.0
    ensures MaskedAlpha(src, mask, OpaqueRedless(src), WHITE, R) == 1.0
  {
    OpaqueRedlessMeaning(src);
    WhiteMask(mask);
  }

  lemma OpaqueRedlessMeaning(f: Format)
    requires TextureFormat(f)
    ensures Meaning(f, OpaqueRedless(f), R) == 0.0 && Meaning(f, OpaqueRedless(f), A) == 1.0
  {
  }

  lemma WhiteMask(mask: Option<Mask>)
    requires mask.Some? && mask.value.componentAlpha && TextureFormat(mask.value.format) && mask.value.format.HasRgb()
    ensures MaskValue(mask, WHITE, R) == 1.0
  {
  }

  /** A black destination whose alpha has the source added with weight one. */
  function BlackUnder(op: Op): Dest { Dest(0.0, if op in {Over, Atop} then 1.0 else 0.0) }

  lemma AddedWithWeightOne(op: Op, mask: Option<Mask>, dst: Format)
    requires !op.OtherOp? && NeedsBoth(op, mask, dst)
    ensures Composite(op, dst, 1.0, 1.0, BlackUnder(op)) != Composite(op, dst, 0.0, 1.0, BlackUnder(op))
  {
    assert SourceWeight(op, DestAlpha(dst, BlackUnder(op))) == 1.0;
  }

  lemma NeedsBothIsWrong(family: Family, op: Op, src: Format, mask: Option<Mask>, dst: Format)
    requires Supported(op, src, mask) && DestFormat(dst) && NeedsBoth(op, mask, dst)
    ensures !PixelRight(family, op, src, mask, dst, OpaqueRedless(src), WHITE, BlackUnder(op), R)
  {
    ShaderRight(family, op, src, mask, OpaqueRedless(src), WHITE, R);
    OpaqueRedlessMasked(op, src, mask, dst);
    BlendFactorsRight(op, mask, dst, 1.0, Shader(family, op, src, mask, OpaqueRedless(src), WHITE, A), BlackUnder(op));
    AddedWithWeightOne(op, mask, dst);
  }

  /** Exactly which supported requests the hardware setup renders right. */
  lemma RightIffNotBoth(family: Family, op: Op, src: Format, mask: Option<Mask>, dst: Format)
    requires Supported(op, src, mask) && DestFormat(dst)
    ensures (forall s, m, d, c | UnitTexel(s) && UnitTexel(m) && UnitDest(d) && Holds(dst, c) ::
               PixelRight(family, op, src, mask, dst, s, m, d, c))
       <==> !NeedsBoth(op, mask, dst)
  {
    if NeedsBoth(op, mask, dst) {
      NeedsBothIsWrong(family, op, src, mask, dst);
      assert UnitTexel(OpaqueRedless(src)) && UnitTexel(WHITE) && UnitDest(BlackUnder(op)) && Holds(dst, R);
    } else {
      forall s, m, d, c | UnitTexel(s) && UnitTexel(m) && UnitDest(d) && Holds(dst, c)
        ensures PixelRight(family, op, src, mask, dst, s, m, d, c)
      {
        PixelAlwaysRight(family, op, src, mask, dst, s, m, d, c);
      }
    }
  }

  /** The acceptance test refuses everything that would be rendered wrong; what else it
      refuses is component alpha with a colourless mask or destination, or with a
      source factor that a destination without alpha makes zero. */
  lemma AcceptedIffRightAndMore(op: Op, src: Format, mask: Option<Mask>, dst: Format)
    requires Supported(op, src, mask) && DestFormat(dst)
    ensures CheckComposite(op, src, mask, dst) ==> !NeedsBoth(op, mask, dst)
    ensures !CheckComposite(op, src, mask, dst) && !NeedsBoth(op, mask, dst) ==>
              AlphaOnly(op, mask) &&
              (mask.value.format == A8 || dst == A8 || (!dst.HasAlpha() && op in {AtopReverse, Xor}))
  {
  }

  /** The destination is weighed by the source alpha. */
  ghost predicate LooksAtSourceAlpha(op: Op) {
    exists a: real, b: real :: DestWeight(op, a) != DestWeight(op, b)
  }

  ghost predicate AddsSource(op: Op) {
    exists a: real :: SourceWeight(op, a) != 0.0
  }

  /** Exactly which requests are accepted: every operator of the protocol on readable pictures, onto those with blue
      lowest or alpha alone; with component alpha only where the blend needs one of source value and source alpha. */
  lemma AcceptedIff(op: Op, src: Format, mask: Option<Mask>, dst: Format)
    ensures CheckComposite(op, src, mask, dst) <==>
            && op != OtherOp && Readable(src) && (mask.Some? ==> Readable(mask.value.format))
            && Readable(dst) && !(dst.bpp == 32 && dst.layout.r == SelX)
            && !(mask.Some? && mask.value.componentAlpha && LooksAtSourceAlpha(op) && AddsSource(op))
  {
    assert SourceWeight(op, 0.0) == SourceWeight(op, 1.0) == 0.0 ==> !AddsSource(op);
    assert DestWeight(op, 0.0) == DestWeight(op, 1.0) ==> !LooksAtSourceAlpha(op);
  }

  /** So every accepted request is rendered right. */
  lemma AcceptedIsRight(family: Family, op: Op, src: Format, mask: Option<Mask>, dst: Format, s: Texel, m: Texel,
                        d: Dest, c: Channel)
    requires CheckComposite(op, src, mask, dst) && Holds(dst, c)
    ensures PixelRight(family, op, src, mask, dst, s, m, d, c)
  {
    AcceptedIffRightAndMore(op, src, mask, dst);
    PixelAlwaysRight(family, op, src, mask, dst, s, m, d, c);
  }
}
