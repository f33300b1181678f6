/**
 * The host side of the two blur pipelines: output validation and
 * allocation, the working-texture cache of the separable pipeline, and the
 * render passes each `blur` records, with their uniform payloads.
 *
 * The GPU is an abstract store of live resources and a log of passes; a
 * pass records whether every resource it used was still alive when it was
 * encoded (WebGPU reports the other case as a validation error).
 */
module BlurHost {
  import opened Wrappers
  import TextureMetadata

  datatype Texture = Texture(id: nat, width: int, height: int, format: string)

  /** One render pass: `source` sampled through `uniform` (holding `payload`), written to `target`. */
  datatype Pass = Pass(source: nat, target: nat, uniform: nat, payload: seq<int>, valid: bool)

  datatype Gpu = Gpu(
    nextId: nat,
    live: set<nat>,            // resources created and not destroyed
    bufferSize: map<nat, nat>, // bytes of every buffer ever created
    passes: seq<Pass>)

  /** Identifiers are handed out in increasing order, so a new resource is never a live one. */
  predicate Valid(g: Gpu) {
    forall id :: id in g.live ==> id < g.nextId
  }

  function NewTexture(g: Gpu, width: int, height: int, format: string): (r: (Gpu, Texture))
    requires Valid(g)
    ensures Valid(r.0)
    ensures r.1.id !in g.live && r.0.live == g.live + {r.1.id}
    ensures r.1.width == width && r.1.height == height && r.1.format == format
    ensures r.0.passes == g.passes && r.0.bufferSize == g.bufferSize
  {
    (g.(nextId := g.nextId + 1, live := g.live + {g.nextId}), Texture(g.nextId, width, height, format))
  }

  function NewBuffer(g: Gpu, size: nat): (r: (Gpu, nat))
    requires Valid(g)
    ensures Valid(r.0)
    ensures r.1 !in g.live && r.0.live == g.live + {r.1}
    ensures r.1 in r.0.bufferSize && r.0.bufferSize[r.1] == size
    ensures r.0.passes == g.passes
  {
    (g.(nextId := g.nextId + 1, live := g.live + {g.nextId}, bufferSize := g.bufferSize[g.nextId := size]),
     g.nextId)
  }

  function Destroy(g: Gpu, id: nat): (r: Gpu)
    ensures Valid(g) ==> Valid(r)
    ensures r.live == g.live - {id} && r.passes == g.passes && r.bufferSize == g.bufferSize
  {
    g.(live := g.live - {id})
  }

  /** Encode and submit one pass. */
  function Render(g: Gpu, source: nat, target: nat, uniform: nat, payload: seq<int>): (r: Gpu)
    ensures r.live == g.live && r.nextId == g.nextId && r.bufferSize == g.bufferSize
    ensures |r.passes| == |g.passes| + 1 && r.passes[..|g.passes|] == g.passes
    ensures var p := r.passes[|g.passes|];
      && p.source == source && p.target == target && p.uniform == uniform && p.payload == payload
      && (p.valid <==> source in g.live && target in g.live && uniform in g.live)
  {
    var ok := source in g.live && target in g.live && uniform in g.live;
    g.(passes := g.passes + [Pass(source, target, uniform, payload, ok)])
  }

  // ---------------------------------------------------------------------------
  // Uniform payloads
  // ---------------------------------------------------------------------------

  const Int32Modulus: int := 0x1_0000_0000

  /** The conversion an `Int32Array` applies to an integral number (ECMAScript ToInt32). */
  function ToInt32(n: int): (v: int)
    ensures -0x8000_0000 <= v < 0x8000_0000
    ensures (v - n) % Int32Modulus == 0
  {
    var m := n % Int32Modulus;
    if m >= 0x8000_0000 then m - Int32Modulus else m
  }

  lemma ToInt32Identity(n: int)
    requires -0x8000_0000 <= n < 0x8000_0000
    ensures ToInt32(n) == n
  {
    if n < 0 {
      assert n % Int32Modulus == n + Int32Modulus;
    }
  }

  /** Byte size of an `Int32Array` payload. */
  function PayloadBytes(payload: seq<int>): nat {
    4 * |payload|
  }

  // ---------------------------------------------------------------------------
  // Output texture, shared by both pipelines
  // ---------------------------------------------------------------------------

  datatype BlurError = SizeMismatch | FormatMismatch

  /**
   * A supplied output must match the input's size (checked first) and then
   * its format; without one, a texture of the input's size and format is
   * created.
   */
  function ResolveOutput(g: Gpu, input: Texture, output: Option<Texture>): (r: Result<(Gpu, Texture), BlurError>)
    requires Valid(g)
    ensures output.Some? && (output.value.width != input.width || output.value.height != input.height) ==>
      r == Failure(SizeMismatch)
    ensures output.Some? && output.value.width == input.width && output.value.height == input.height ==>
      (r.Failure? <==> output.value.format != input.format) &&
      (r.Failure? ==> r.error == FormatMismatch) &&
      (r.Success? ==> r.value == (g, output.value))
    ensures output.None? ==>
      && r.Success? && Valid(r.value.0)
      && r.value.1.width == input.width && r.value.1.height == input.height
      && r.value.1.format == input.format
      && r.value.1.id !in g.live && r.value.0.live == g.live + {r.value.1.id}
      && r.value.0.passes == g.passes && r.value.0.bufferSize == g.bufferSize
  {
    match output
    case Some(out) =>
      if out.width != input.width || out.height != input.height then Failure(SizeMismatch)
      else if out.format != input.format then Failure(FormatMismatch)
      else Success((g, out))
    case None => Success(NewTexture(g, input.width, input.height, input.format))
  }

  // ---------------------------------------------------------------------------
  // The direct pipeline (`Gauss2dBlur`)
  // ---------------------------------------------------------------------------

  const DirectUniformBytes: nat := 4

  /** A created direct pipeline: the format it was compiled for and its uniform buffer. */
  datatype Direct = Direct(format: string, uniform: nat)

  function CreateDirect(g: Gpu, format: string): (r: (Gpu, Direct))
    requires Valid(g) && TextureMetadata.Lookup(format).Some?
    ensures Valid(r.0) && r.1.format == format
    ensures r.1.uniform !in g.live && r.0.live == g.live + {r.1.uniform}
    ensures r.1.uniform in r.0.bufferSize && r.0.bufferSize[r.1.uniform] == DirectUniformBytes
    ensures r.0.passes == g.passes
  {
    var (g1, buf) := NewBuffer(g, DirectUniformBytes);
    (g1, Direct(format, buf))
  }

  /**
   * `Gauss2dBlur.blur`: resolve the output, write `[kernelRadius]` to the
   * uniform buffer and record one pass from the input to the output.
   */
  function DirectBlur(g: Gpu, d: Direct, input: Texture, radius: int, output: Option<Texture>): (r: Result<(Gpu, Texture), BlurError>)
    requires Valid(g)
    ensures r.Failure? <==> ResolveOutput(g, input, output).Failure?
    ensures r.Success? ==>
      var (g', out) := r.value;
      && Valid(g')
      && out.width == input.width && out.height == input.height && out.format == input.format
      && |g'.passes| == |g.passes| + 1 && g'.passes[..|g.passes|] == g.passes
      && g'.passes[|g.passes|].source == input.id && g'.passes[|g.passes|].target == out.id
      && g'.passes[|g.passes|].uniform == d.uniform
      && g'.passes[|g.passes|].payload == [ToInt32(radius)]
      && (output.Some? ==> out == output.value && g'.live == g.live)
      && (output.None? ==> out.id !in g.live && g'.live == g.live + {out.id})
  {
    match ResolveOutput(g, input, output)
    case Failure(e) => Failure(e)
    case Success((g1, out)) =>
      Success((Render(g1, input.id, out.id, d.uniform, [ToInt32(radius)]), out))
  }

  /** `Gauss2dBlur.destroy` destroys the uniform buffer. */
  function DestroyDirect(g: Gpu, d: Direct): (r: Gpu)
    ensures r.live == g.live - {d.uniform}
  {
    Destroy(g, d.uniform)
  }

  /**
   * `gauss2dBlur`: create a pipeline, blur once, and destroy the pipeline in
   * `finally`, so that only the output it may have created outlives the call.
   */
  function Gauss2dBlur(g: Gpu, input: Texture, radius: int, output: Option<Texture>): (r: (Gpu, Result<Texture, BlurError>))
    requires Valid(g) && TextureMetadata.Lookup(input.format).Some?
    ensures Valid(r.0)
    ensures r.1.Failure? ==> r.0.live == g.live
    ensures r.1.Success? && output.Some? ==> r.0.live == g.live
    ensures r.1.Success? && output.None? ==> r.0.live == g.live + {r.1.value.id}
    ensures r.1.Success? && input.id in g.live && (output.Some? ==> output.value.id in g.live) ==>
      |r.0.passes| == |g.passes| + 1 && r.0.passes[|g.passes|].valid &&
      r.0.passes[|g.passes|].payload == [ToInt32(radius)]
  {
    var (g1, d) := CreateDirect(g, input.format);
    match DirectBlur(g1, d, input, radius, output)
    case Failure(e) => (DestroyDirect(g1, d), Failure(e))
    case Success((g2, out)) => (DestroyDirect(g2, d), Success(out))
  }

  /** The payload of the direct pipeline fills its uniform buffer exactly. */
  lemma DirectPayloadFits(g: Gpu, format: string, radius: int)
    requires Valid(g) && TextureMetadata.Lookup(format).Some?
    ensures var (g1, d) := CreateDirect(g, format);
      PayloadBytes([ToInt32(radius)]) == g1.bufferSize[d.uniform]
  {
  }

  // ---------------------------------------------------------------------------
  // The separable pipeline (`Gauss2dBlurOptimized`)
  // ---------------------------------------------------------------------------

  const OptimizedUniformBytes: nat := 8

  /** A created separable pipeline: its format, uniform buffer and cached working texture. */
  datatype Optimized = Optimized(format: string, uniform: nat, working: Option<Texture>)

  function CreateOptimized(g: Gpu, format: string): (r: (Gpu, Optimized))
    requires Valid(g) && TextureMetadata.Lookup(format).Some?
    ensures Valid(r.0) && r.1.format == format && r.1.working.None?
    ensures r.1.uniform !in g.live && r.0.live == g.live + {r.1.uniform}
    ensures r.1.uniform in r.0.bufferSize && r.0.bufferSize[r.1.uniform] == OptimizedUniformBytes
    ensures r.0.passes == g.passes
  {
    var (g1, buf) := NewBuffer(g, OptimizedUniformBytes);
    (g1, Optimized(format, buf, None))
  }

  /** `needsRecreation`: no working texture, or one narrower or shorter than the input. */
  predicate NeedsRecreation(working: Option<Texture>, input: Texture) {
    working.None? || working.value.width < input.width || working.value.height < input.height
  }

  /** Working texture is at least as large as the input in both dimensions: exactly when no recreation is needed. */
  predicate Covers(working: Option<Texture>, input: Texture) {
    working.Some? && working.value.width >= input.width && working.value.height >= input.height
  }

  /** `destroyTextures` as written: the texture is destroyed but stays in the field. */
  function DestroyTexturesAsWritten(g: Gpu, o: Optimized): (r: (Gpu, Optimized))
    ensures r.1 == o
    ensures o.working.Some? ==> r.0.live == g.live - {o.working.value.id}
    ensures o.working.None? ==> r.0 == g
  {
    match o.working
    case None => (g, o)
    case Some(t) => (Destroy(g, t.id), o)
  }

  /** `destroyTextures` corrected: the field is cleared together with the texture. */
  function DestroyTextures(g: Gpu, o: Optimized): (r: (Gpu, Optimized))
    ensures r.1 == o.(working := None)
    ensures o.working.Some? ==> r.0.live == g.live - {o.working.value.id}
    ensures o.working.None? ==> r.0 == g
  {
    match o.working
    case None => (g, o)
    case Some(t) => (Destroy(g, t.id), o.(working := None))
  }

  /**
   * `ensureTextures`: when recreation is needed, destroy the old working
   * texture (with `destroyTextures` as written; the field is overwritten
   * right after) and create one of exactly the input's size, in its format;
   * otherwise, for an input no larger than the cache, keep the cached one.
   */
  function EnsureTextures(g: Gpu, o: Optimized, input: Texture): (r: (Gpu, Optimized))
    requires Valid(g)
    ensures Valid(r.0) && r.0.passes == g.passes
    ensures Covers(r.1.working, input)
    ensures r.1.format == o.format && r.1.uniform == o.uniform
    ensures !NeedsRecreation(o.working, input) ==> r == (g, o)
    ensures NeedsRecreation(o.working, input) ==>
      var w := r.1.working.value;
      && w.width == input.width && w.height == input.height && w.format == input.format
      && w.id !in g.live
      && r.0.live == (if o.working.Some? then g.live - {o.working.value.id} else g.live) + {w.id}
  {
    if NeedsRecreation(o.working, input) then
      var (g1, _) := DestroyTexturesAsWritten(g, o);
      var (g2, w) := NewTexture(g1, input.width, input.height, input.format);
      (g2, o.(working := Some(w)))
    else (g, o)
  }

  /** The two passes of the separable blur, with the same radius: horizontal (0), then vertical (1). */
  function TwoPasses(g: Gpu, o: Optimized, input: Texture, working: Texture, out: Texture, radius: int): (r: Gpu)
    ensures r.live == g.live && r.nextId == g.nextId && r.bufferSize == g.bufferSize
    ensures |r.passes| == |g.passes| + 2 && r.passes[..|g.passes|] == g.passes
    ensures var p0 := r.passes[|g.passes|]; var p1 := r.passes[|g.passes| + 1];
      && p0.source == input.id && p0.target == working.id && p0.payload == [ToInt32(radius), 0]
      && p1.source == working.id && p1.target == out.id && p1.payload == [ToInt32(radius), 1]
      && p0.uniform == o.uniform && p1.uniform == o.uniform
      && (p0.valid <==> input.id in g.live && working.id in g.live && o.uniform in g.live)
      && (p1.valid <==> working.id in g.live && out.id in g.live && o.uniform in g.live)
  {
    var g1 := Render(g, input.id, working.id, o.uniform, [ToInt32(radius), 0]);
    var g2 := Render(g1, working.id, out.id, o.uniform, [ToInt32(radius), 1]);
    assert g2.passes[..|g.passes|] == g.passes;
    g2
  }

  /** `Gauss2dBlurOptimized.blur`: resolve the output, make the working texture fit, and run both passes. */
  function OptimizedBlur(g: Gpu, o: Optimized, input: Texture, radius: int, output: Option<Texture>): (r: Result<(Gpu, Optimized, Texture), BlurError>)
    requires Valid(g)
    ensures r.Failure? <==> ResolveOutput(g, input, output).Failure?
    ensures r.Failure? ==> r.error == ResolveOutput(g, input, output).error
    ensures r.Success? ==>
      var (g', o', out) := r.value;
      && Valid(g') && Covers(o'.working, input) && o'.uniform == o.uniform
      && out.width == input.width && out.height == input.height && out.format == input.format
      && (output.Some? ==> out == output.value)
      && |g'.passes| == |g.passes| + 2 && g'.passes[..|g.passes|] == g.passes
      && g'.passes[|g.passes|].source == input.id
      && g'.passes[|g.passes|].target == o'.working.value.id
      && g'.passes[|g.passes|].payload == [ToInt32(radius), 0]
      && g'.passes[|g.passes| + 1].source == o'.working.value.id
      && g'.passes[|g.passes| + 1].target == out.id
      && g'.passes[|g.passes| + 1].payload == [ToInt32(radius), 1]
  {
    match ResolveOutput(g, input, output)
    case Failure(e) => Failure(e)
    case Success((g1, out)) =>
      var (g2, o2) := EnsureTextures(g1, o, input);
      Success((TwoPasses(g2, o2, input, o2.working.value, out, radius), o2, out))
  }

  /** The payload of each pass fills the separable pipeline's uniform buffer exactly. */
  lemma OptimizedPayloadFits(g: Gpu, format: string, radius: int, direction: int)
    requires Valid(g) && TextureMetadata.Lookup(format).Some?
    ensures var (g1, o) := CreateOptimized(g, format);
      PayloadBytes([ToInt32(radius), direction]) == g1.bufferSize[o.uniform]
  {
  }

  /** `Gauss2dBlurOptimized.destroy`: the working texture, then the uniform buffer. */
  function DestroyOptimized(g: Gpu, o: Optimized): (r: Gpu)
    ensures r.live == g.live - {o.uniform} - (if o.working.Some? then {o.working.value.id} else {})
  {
    var (g1, _) := DestroyTexturesAsWritten(g, o);
    Destroy(g1, o.uniform)
  }

  /**
   * `gauss2dBlurOptimized`: create a pipeline and blur once. Nothing is
   * destroyed, so the uniform buffer and the working texture stay alive.
   */
  function Gauss2dBlurOptimized(g: Gpu, input: Texture, radius: int, output: Option<Texture>): (r: (Gpu, Result<Texture, BlurError>))
    requires Valid(g) && TextureMetadata.Lookup(input.format).Some?
    ensures Valid(r.0)
    ensures r.1.Success? ==> exists leaked :: leaked in r.0.live && leaked !in g.live && r.1.value.id != leaked
  {
    var (g1, o) := CreateOptimized(g, input.format);
    match OptimizedBlur(g1, o, input, radius, output)
    case Failure(e) => (g1, Failure(e))
    case Success((g2, o2, out)) =>
      assert o.uniform in g2.live;
      (g2, Success(out))
  }

  // ---------------------------------------------------------------------------
  // The separable pipeline renders only into live textures
  // ---------------------------------------------------------------------------

  /** The pipeline's own resources are alive and distinct. */
  predicate Usable(g: Gpu, o: Optimized) {
    && Valid(g) && o.uniform in g.live
    && (o.working.Some? ==> o.working.value.id in g.live && o.working.value.id != o.uniform)
  }

  /** A resource the caller can hand to `blur`: not one of the pipeline's private ones. */
  predicate Foreign(o: Optimized, id: nat) {
    id != o.uniform && (o.working.Some? ==> id != o.working.value.id)
  }

  /**
   * From a usable pipeline and live input and output textures, both passes of
   * `blur` use live resources only, and the pipeline stays usable.
   */
  lemma BlurUsesLiveTextures(g: Gpu, o: Optimized, input: Texture, radius: int, output: Option<Texture>)
    requires Usable(g, o) && input.id in g.live && Foreign(o, input.id)
    requires output.Some? ==> output.value.id in g.live && Foreign(o, output.value.id)
    requires OptimizedBlur(g, o, input, radius, output).Success?
    ensures var (g', o', _) := OptimizedBlur(g, o, input, radius, output).value;
      Usable(g', o') && g'.passes[|g.passes|].valid && g'.passes[|g.passes| + 1].valid
  {
    var (g1, out) := ResolveOutput(g, input, output).value;
    assert out.id in g1.live && input.id in g1.live && o.uniform in g1.live;
    var (g2, o2) := EnsureTextures(g1, o, input);
    if NeedsRecreation(o.working, input) {
      assert out.id != o2.working.value.id;
    }
    assert out.id in g2.live && input.id in g2.live && o.uniform in g2.live;
  }

  /** The corrected `destroyTextures` keeps the pipeline usable. */
  lemma DestroyTexturesKeepsUsable(g: Gpu, o: Optimized)
    requires Usable(g, o)
    ensures var (g', o') := DestroyTextures(g, o); Usable(g', o') && o'.working.None?
  {
  }

  /**
   * `destroyTextures` as written leaves a destroyed texture in the field: a
   * later `blur` of an input that fits does not recreate it and renders into it.
   */
  lemma AsWrittenRendersIntoDestroyed()
    ensures var g0 := Gpu(0, {}, map[], []);
      var (g1, input) := NewTexture(g0, 64, 64, "rgba8unorm");
      var (g2, o) := CreateOptimized(g1, "rgba8unorm");
      var (g3, o3, _) := OptimizedBlur(g2, o, input, 5, None).value;
      var (g4, o4) := DestroyTexturesAsWritten(g3, o3);
      var (g5, _, _) := OptimizedBlur(g4, o4, input, 5, None).value;
      && Usable(g3, o3)
      && !g5.passes[|g4.passes|].valid && !g5.passes[|g4.passes| + 1].valid
  {
    var g0 := Gpu(0, {}, map[], []);
    var (g1, input) := NewTexture(g0, 64, 64, "rgba8unorm");
    assert TextureMetadata.Lookup("rgba8unorm").Some?;
    var (g2, o) := CreateOptimized(g1, "rgba8unorm");
    BlurUsesLiveTextures(g2, o, input, 5, None);
    var (g3, o3, _) := OptimizedBlur(g2, o, input, 5, None).value;
    var (g4, o4) := DestroyTexturesAsWritten(g3, o3);
    assert !NeedsRecreation(o4.working, input);
    assert o4.working.value.id !in g4.live;
  }

  /** With the corrected `destroyTextures`, the same sequence recreates the working texture. */
  lemma CorrectedRecreates()
    ensures var g0 := Gpu(0, {}, map[], []);
      var (g1, input) := NewTexture(g0, 64, 64, "rgba8unorm");
      var (g2, o) := CreateOptimized(g1, "rgba8unorm");
      var (g3, o3, _) := OptimizedBlur(g2, o, input, 5, None).value;
      var (g4, o4) := DestroyTextures(g3, o3);
      var (g5, _, _) := OptimizedBlur(g4, o4, input, 5, None).value;
      g5.passes[|g4.passes|].valid && g5.passes[|g4.passes| + 1].valid
  {
    var g0 := Gpu(0, {}, map[], []);
    var (g1, input) := NewTexture(g0, 64, 64, "rgba8unorm");
    assert TextureMetadata.Lookup("rgba8unorm").Some?;
    var (g2, o) := CreateOptimized(g1, "rgba8unorm");
    BlurUsesLiveTextures(g2, o, input, 5, None);
    var (g3, o3, _) := OptimizedBlur(g2, o, input, 5, None).value;
    var (g4, o4) := DestroyTextures(g3, o3);
    BlurUsesLiveTextures(g4, o4, input, 5, None);
  }

  // ---------------------------------------------------------------------------
  // How the working texture follows the inputs
  // ---------------------------------------------------------------------------

  /** Recreation sizes exactly to the input, so a 64x32 texture followed by a 32x64 input leaves a 32x64 one. */
  lemma ShrinksInOneDimension(g: Gpu, o: Optimized, input: Texture)
    requires Valid(g)
    requires o.working.Some? && o.working.value.width == 64 && o.working.value.height == 32
    requires input.width == 32 && input.height == 64
    ensures var (_, o') := EnsureTextures(g, o, input);
      o'.working.value.width == 32 && o'.working.value.height == 64
  {
  }
}
