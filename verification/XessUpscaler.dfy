/** The XeSS upscaler's configuration, its cache of validated resources, and its aspect test.
    Calls into D3D12 and the XeSS runtime appear as parameters that say whether they succeeded. */
module XessUpscaler {
  import opened Arithmetic
  import opened Common

  // ---------------------------------------------------------------------------------------
  // The aspect test
  // ---------------------------------------------------------------------------------------

  newtype uint32 = x: int | 0 <= x < UINT32_SIZE
  newtype uint64 = x: int | 0 <= x < UINT64_SIZE

  lemma ProductFits(a: uint32, b: uint32)
    ensures 0 <= a as int * b as int < UINT64_SIZE
  {
    var x: int, y: int, top := a as int, b as int, UINT32_SIZE - 1;
    MulMonotone(0, x, y);
    MulMonotone(x, top, y);
    MulMonotone(y, top, top);
  }

  /** Every operation is checked to stay within 64 bits. */
  function AspectError(renderWidth: uint32, renderHeight: uint32, outputWidth: uint32, outputHeight: uint32)
    : (e: uint64)
    ensures e as int == (var d := renderWidth as int * outputHeight as int - renderHeight as int * outputWidth as int;
                         if d >= 0 then d else -d)
  {
    ProductFits(renderWidth, outputHeight);
    ProductFits(renderHeight, outputWidth);
    var wide := renderWidth as uint64 * outputHeight as uint64;
    var tall := renderHeight as uint64 * outputWidth as uint64;
    if wide > tall then wide - tall else tall - wide
  }

  predicate AspectAccepted(renderWidth: uint32, renderHeight: uint32, outputWidth: uint32, outputHeight: uint32) {
    AspectError(renderWidth, renderHeight, outputWidth, outputHeight)
    <= (if outputWidth > outputHeight then outputWidth else outputHeight) as uint64
  }

  predicate RoundsToNearest(x: real, n: int) {
    x - 0.5 <= n as real <= x + 0.5
  }

  predicate Truncates(x: real, n: int) {
    n as real <= x < n as real + 1.0
  }

  /** Flooring truncates, and flooring half a unit higher rounds to nearest. */
  lemma RoundingModes(x: real)
    ensures Truncates(x, x.Floor) && RoundsToNearest(x, (x + 0.5).Floor)
  {
  }

  /** Scaling both sides of the output by one factor is accepted, whether both results are rounded
      to nearest or both truncated. */
  lemma HonestScalingIsAccepted(scale: real, renderWidth: uint32, renderHeight: uint32,
                                outputWidth: uint32, outputHeight: uint32)
    requires
      || (&& RoundsToNearest(scale * outputWidth as real, renderWidth as int)
          && RoundsToNearest(scale * outputHeight as real, renderHeight as int))
      || (&& Truncates(scale * outputWidth as real, renderWidth as int)
          && Truncates(scale * outputHeight as real, renderHeight as int))
    ensures AspectAccepted(renderWidth, renderHeight, outputWidth, outputHeight)
  {
    var rw: int, rh: int, ow: int, oh: int :=
      renderWidth as int, renderHeight as int, outputWidth as int, outputHeight as int;
    CrossIsSmall(scale, rw as real, rh as real, ow as real, oh as real, Max(ow, oh) as real);
    IntegerCross(rw, rh, ow, oh);
  }

  lemma CrossIsSmall(scale: real, rw: real, rh: real, ow: real, oh: real, longer: real)
    requires 0.0 <= ow <= longer && 0.0 <= oh <= longer
    requires
      var dw, dh := rw - scale * ow, rh - scale * oh;
      (-0.5 <= dw <= 0.5 && -0.5 <= dh <= 0.5) || (-1.0 <= dw <= 0.0 && -1.0 <= dh <= 0.0)
    ensures -longer <= rw * oh - rh * ow <= longer
  {
    var dw, dh := rw - scale * ow, rh - scale * oh;
    ErrorBound(ow, oh, dw, dh, dw * oh, dh * ow, longer);
    CrossError(scale, ow, oh, dw, dh);
  }

  lemma IntegerCross(rw: int, rh: int, ow: int, oh: int)
    ensures (rw * oh - rh * ow) as real == rw as real * oh as real - rh as real * ow as real
  {
  }

  lemma CrossError(scale: real, ow: real, oh: real, dw: real, dh: real)
    ensures (scale * ow + dw) * oh - (scale * oh + dh) * ow == dw * oh - dh * ow
  {
  }

  /** The rounding errors of both sides, scaled up by the other side, stay below the longer side. */
  lemma ErrorBound(ow: real, oh: real, dw: real, dh: real, p: real, q: real, longer: real)
    requires 0.0 <= ow <= longer && 0.0 <= oh <= longer
    requires (-0.5 <= dw <= 0.5 && -0.5 <= dh <= 0.5) || (-1.0 <= dw <= 0.0 && -1.0 <= dh <= 0.0)
    requires p == dw * oh && q == dh * ow
    ensures -longer <= p - q <= longer
  {
    if -0.5 <= dw <= 0.5 && -0.5 <= dh <= 0.5 {
      ScaledRange(dw, oh, 0.5, 0.5, p);
      ScaledRange(dh, ow, 0.5, 0.5, q);
    } else {
      ScaledRange(dw, oh, 1.0, 0.0, p);
      ScaledRange(dh, ow, 1.0, 0.0, q);
    }
  }

  lemma ScaledRange(d: real, side: real, below: real, above: real, product: real)
    requires side >= 0.0 && -below <= d <= above && product == d * side
    ensures -(below * side) <= product <= above * side
  {
    ProductNotNegative(d + below, side);
    ProductNotNegative(above - d, side);
  }

  /** How far `across` is from what the shape of `long` by `short` demands beside `along`. */
  function Misfit(along: real, across: real, long: real, short: real): real
    requires long > 0.0
  {
    Abs(along * short / long - across)
  }

  /** The test as a distance: the shorter side of the render extent is within one pixel of what the output's
      shape demands beside its longer side. Anything farther off is refused. */
  lemma AspectIsWithinOnePixel(renderWidth: uint32, renderHeight: uint32, outputWidth: uint32, outputHeight: uint32)
    requires outputWidth > 0 && outputHeight > 0
    ensures var rw, rh, ow, oh := renderWidth as real, renderHeight as real, outputWidth as real, outputHeight as real;
            AspectAccepted(renderWidth, renderHeight, outputWidth, outputHeight)
            <==> (if outputWidth >= outputHeight then Misfit(rw, rh, ow, oh) else Misfit(rh, rw, oh, ow)) <= 1.0
  {
    AcceptedMeans(renderWidth, renderHeight, outputWidth, outputHeight);
    var rw, rh, ow, oh := renderWidth as real, renderHeight as real, outputWidth as real, outputHeight as real;
    hide *;
    if outputWidth >= outputHeight {
      DistanceInPixels(rw, rh, ow, oh);
    } else {
      DistanceInPixels(rh, rw, oh, ow);
    }
  }

  lemma AcceptedMeans(renderWidth: uint32, renderHeight: uint32, outputWidth: uint32, outputHeight: uint32)
    ensures var rw, rh, ow, oh := renderWidth as real, renderHeight as real, outputWidth as real, outputHeight as real;
            var longer := if outputWidth >= outputHeight then ow else oh;
            var accepted := AspectAccepted(renderWidth, renderHeight, outputWidth, outputHeight);
            && (accepted <==> -longer <= rw * oh - rh * ow <= longer)
            && (accepted <==> -longer <= rh * ow - rw * oh <= longer)
  {
    IntegerCross(renderWidth as int, renderHeight as int, outputWidth as int, outputHeight as int);
  }

  lemma DistanceInPixels(along: real, across: real, long: real, short: real)
    requires long > 0.0
    ensures Misfit(along, across, long, short) <= 1.0 <==> -long <= along * short - across * long <= long
  {
    MisfitMeans(along, across, long, short);
    hide *;
    var x, scaled := along * short, across * long;
    var q := x / long;
    DivideThenMultiply(x, long);
    ScaledDifference(q, across, long, x, scaled);
    AtMostOne(q - across, long, x - scaled);
    AtMostOne(across - q, long, scaled - x);
    BothWays(q, across, x - scaled, long);
  }

  lemma MisfitMeans(along: real, across: real, long: real, short: real)
    requires long > 0.0
    ensures Misfit(along, across, long, short) == Abs(along * short / long - across)
  {
  }

  lemma BothWays(q: real, side: real, gap: real, longer: real)
    requires q - side <= 1.0 <==> gap <= longer
    requires side - q <= 1.0 <==> -gap <= longer
    ensures Abs(q - side) <= 1.0 <==> -longer <= gap <= longer
  {
  }

  lemma ScaledDifference(x: real, y: real, factor: real, xf: real, yf: real)
    requires x * factor == xf && y * factor == yf
    ensures (x - y) * factor == xf - yf && (y - x) * factor == yf - xf
  {
  }

  lemma AtMostOne(x: real, factor: real, product: real)
    requires factor > 0.0 && product == x * factor
    ensures x <= 1.0 <==> product <= factor
  {
    if x <= 1.0 {
      ProductNotNegative(1.0 - x, factor);
    } else {
      assert (x - 1.0) * factor > 0.0;
    }
  }

  // ---------------------------------------------------------------------------------------
  // Resources and their contract
  // ---------------------------------------------------------------------------------------

  datatype Format = R8G8B8A8Unorm | R16G16Float | R32Float | R8Unorm | Other
  datatype QualityMode =
    | Off | NativeAntialiasing | UltraQualityPlus | UltraQuality | Quality | Balanced | Performance | UltraPerformance

  type Resource = nat
  type Device = nat
  type Thread = nat

  datatype Texture = Texture(
    isTexture2D: bool, width: nat, height: nat, arraySize: nat, mipLevels: nat, samples: nat,
    format: Format, unorderedAccess: bool, device: Device)

  /** The description behind each resource pointer; it does not change while the pointer is in use. */
  type Textures = Resource -> Texture

  datatype Dispatch = Dispatch(
    color: Option<Resource>, motion: Option<Resource>, depth: Option<Resource>, responsive: Option<Resource>,
    output: Option<Resource>,
    renderWidth: nat, renderHeight: nat, outputWidth: nat, outputHeight: nat, reversedDepth: bool)
  {
    function Resources(): seq<Option<Resource>> {
      [color, motion, depth, responsive, output]
    }
  }

  predicate ValidTexture(textures: Textures, r: Option<Resource>, width: nat, height: nat, format: Format, uav: bool) {
    && r.Some?
    && var t := textures(r.value);
       && t.isTexture2D && t.width >= width && t.height >= height
       && t.arraySize == 1 && t.mipLevels == 1 && t.samples == 1
       && t.format == format && (uav ==> t.unorderedAccess)
  }

  predicate OwnedBy(textures: Textures, r: Option<Resource>, device: Device) {
    r.Some? && textures(r.value).device == device
  }

  /** Everything the full check of `evaluate` demands of the five resources. */
  predicate Meets(textures: Textures, d: Dispatch, device: Device) {
    && ValidTexture(textures, d.color, d.renderWidth, d.renderHeight, R8G8B8A8Unorm, false)
    && ValidTexture(textures, d.motion, d.renderWidth, d.renderHeight, R16G16Float, false)
    && ValidTexture(textures, d.depth, d.renderWidth, d.renderHeight, R32Float, false)
    && ValidTexture(textures, d.responsive, d.renderWidth, d.renderHeight, R8Unorm, false)
    && ValidTexture(textures, d.output, d.outputWidth, d.outputHeight, R8G8B8A8Unorm, true)
    && d.output !in [d.color, d.motion, d.depth, d.responsive]
    && (forall r | r in d.Resources() :: OwnedBy(textures, r, device))
  }

  // ---------------------------------------------------------------------------------------
  // The machine with the cache
  // ---------------------------------------------------------------------------------------

  datatype Request = Request(
    quality: QualityMode, renderWidth: uint32, renderHeight: uint32, outputWidth: uint32, outputHeight: uint32,
    reversedDepth: bool, initFlags: nat)

  /** What the foreign calls of one `configure` report. */
  datatype Runtime = Runtime(
    device: Option<Device>, contextCreated: bool,
    minimumWidth: nat, minimumHeight: nat, maximumWidth: nat, maximumHeight: nat, initialized: bool)

  datatype Live = Live(request: Request, owner: Thread, device: Device, validated: seq<Option<Resource>>)

  datatype Machine = Machine(live: Option<Live>, available: bool)

  const UNVALIDATED: seq<Option<Resource>> := [None, None, None, None, None]

  datatype Operation =
    | Configure(request: Request, thread: Thread, runtime: Runtime)
    | Query(succeeded: bool)   // extent queries share the availability field
    | Evaluate(dispatch: Dispatch, thread: Thread)
    | Shutdown

  datatype Verdict = Done(ok: bool) | Mismatch | WrongThread | InvalidResources | Executes

  predicate Installs(request: Request, runtime: Runtime) {
    && request.quality != Off
    && request.renderWidth != 0 && request.renderHeight != 0 && request.outputWidth != 0 && request.outputHeight != 0
    && runtime.device.Some? && runtime.contextCreated
    && runtime.minimumWidth <= request.renderWidth as int <= runtime.maximumWidth
    && runtime.minimumHeight <= request.renderHeight as int <= runtime.maximumHeight
    && AspectAccepted(request.renderWidth, request.renderHeight, request.outputWidth, request.outputHeight)
    && runtime.initialized
  }

  predicate MatchesRequest(d: Dispatch, request: Request) {
    && None !in d.Resources()
    && d.renderWidth == request.renderWidth as int && d.renderHeight == request.renderHeight as int
    && d.outputWidth == request.outputWidth as int && d.outputHeight == request.outputHeight as int
    && d.reversedDepth == request.reversedDepth
  }

  /** One operation; with `useCache` off, every evaluation runs the full check. */
  function Step(textures: Textures, useCache: bool, m: Machine, op: Operation): (Machine, Verdict) {
    match op
    case Configure(request, thread, runtime) =>
      if m.live.Some? && m.live.value.owner != thread then (m, Done(false))
      else if m.live.Some? && m.live.value.request == request then (m, Done(true))
      else if Installs(request, runtime) then
        (Machine(Some(Live(request, thread, runtime.device.value, UNVALIDATED)), true), Done(true))
      else (Machine(None, false), Done(false))
    case Query(succeeded) => (m.(available := succeeded), Done(succeeded))
    case Evaluate(d, thread) =>
      if m.live == None || !m.available || !MatchesRequest(d, m.live.value.request) then (m, Mismatch)
      else if m.live.value.owner != thread then (m, WrongThread)
      else if useCache && d.Resources() == m.live.value.validated then (m, Executes)
      else if Meets(textures, d, m.live.value.device) then
        (m.(live := Some(m.live.value.(validated := d.Resources()))), Executes)
      else (m, InvalidResources)
    case Shutdown => (Machine(None, false), Done(true))
  }

  function Run(textures: Textures, useCache: bool, ops: seq<Operation>): (Machine, seq<Verdict>) {
    if ops == [] then (Machine(None, false), [])
    else
      var (m, verdicts) := Run(textures, useCache, ops[..|ops| - 1]);
      var (m', verdict) := Step(textures, useCache, m, ops[|ops| - 1]);
      (m', verdicts + [verdict])
  }

  /** Resources that the cache would let through meet the contract of the live configuration. */
  ghost predicate CacheIsSound(textures: Textures, m: Machine) {
    m.live.Some? ==>
      forall d: Dispatch | MatchesRequest(d, m.live.value.request) && d.Resources() == m.live.value.validated ::
        Meets(textures, d, m.live.value.device)
  }

  lemma SameResources(d: Dispatch, d': Dispatch, request: Request)
    requires MatchesRequest(d, request) && MatchesRequest(d', request) && d.Resources() == d'.Resources()
    ensures d == d'
  {
    assert forall k | 0 <= k < 5 :: d.Resources()[k] == d'.Resources()[k];
    assert d.Resources()[0] == d.color && d.Resources()[1] == d.motion && d.Resources()[2] == d.depth;
    assert d.Resources()[3] == d.responsive && d.Resources()[4] == d.output;
  }

  lemma StepKeepsCacheSound(textures: Textures, useCache: bool, m: Machine, op: Operation)
    requires CacheIsSound(textures, m)
    ensures CacheIsSound(textures, Step(textures, useCache, m, op).0)
    ensures op.Evaluate? && Step(textures, useCache, m, op).1 == Executes ==>
              m.live.Some? && Meets(textures, op.dispatch, m.live.value.device)
  {
    var m' := Step(textures, useCache, m, op).0;
    assert None in UNVALIDATED;
    if m'.live.Some? {
      forall d: Dispatch | MatchesRequest(d, m'.live.value.request) && d.Resources() == m'.live.value.validated
        ensures Meets(textures, d, m'.live.value.device)
      {
        if op.Evaluate? && m' != m {
          SameResources(d, op.dispatch, m'.live.value.request);
        }
      }
    }
  }

  /** A query touches nothing but the availability; shutting down and starting out leave no state. */
  lemma OtherOperations(textures: Textures, m: Machine, succeeded: bool)
    ensures var m' := Step(textures, true, m, Query(succeeded)).0;
            m'.live == m.live && m'.available == succeeded
    ensures var m' := Step(textures, true, m, Shutdown).0; m'.live == None && !m'.available
    ensures var m' := Run(textures, true, []).0; m'.live == None && !m'.available
  {
  }

  /** Two machines that differ at most in which resources they remember. */
  predicate Agree(m: Machine, m': Machine) {
    && m.available == m'.available
    && m.live.Some? == m'.live.Some?
    && (m.live.Some? ==> m.live.value.(validated := []) == m'.live.value.(validated := []))
  }

  lemma StepAgrees(textures: Textures, m: Machine, m': Machine, op: Operation)
    requires CacheIsSound(textures, m) && Agree(m, m')
    ensures var (n, verdict) := Step(textures, true, m, op);
            var (n', verdict') := Step(textures, false, m', op);
            verdict == verdict' && Agree(n, n')
  {
    StepKeepsCacheSound(textures, true, m, op);
  }

  /** Over every run the cached upscaler answers exactly like one that validates every time, and
      every dispatch it executes meets the full resource contract. */
  lemma {:induction false} CacheAgreesWithValidation(textures: Textures, ops: seq<Operation>)
    ensures Run(textures, true, ops).1 == Run(textures, false, ops).1
    ensures Agree(Run(textures, true, ops).0, Run(textures, false, ops).0)
    ensures CacheIsSound(textures, Run(textures, true, ops).0)
  {
    if ops != [] {
      var front, op := ops[..|ops| - 1], ops[|ops| - 1];
      CacheAgreesWithValidation(textures, front);
      var m, m' := Run(textures, true, front).0, Run(textures, false, front).0;
      StepKeepsCacheSound(textures, true, m, op);
      StepAgrees(textures, m, m', op);
    }
  }

  /** A dispatch executes with these resources only on the device they were checked against. */
  lemma ExecutedDispatchMeetsContract(textures: Textures, ops: seq<Operation>, d: Dispatch, thread: Thread)
    ensures var m := Run(textures, true, ops).0;
            Step(textures, true, m, Evaluate(d, thread)).1 == Executes
            ==> m.live.Some? && Meets(textures, d, m.live.value.device)
  {
    CacheAgreesWithValidation(textures, ops);
    StepKeepsCacheSound(textures, true, Run(textures, true, ops).0, Evaluate(d, thread));
  }

  /** After any run, a dispatch executes exactly when it comes from the owner of a live, available state, names
      five resources and the extents and depth direction that were configured, no input is also the output, and
      the textures are single, large enough, of their formats and on the device of that state. */
  lemma ExecutesExactlyOnGoodTextures(textures: Textures, ops: seq<Operation>, d: Dispatch, thread: Thread)
    ensures
      var m := Run(textures, true, ops).0;
      Step(textures, true, m, Evaluate(d, thread)).1 == Executes
      <==> && m.live.Some? && m.available && m.live.value.owner == thread
           && var Live(request, _, device, _) := m.live.value;
           && d.renderWidth == request.renderWidth as int && d.renderHeight == request.renderHeight as int
           && d.outputWidth == request.outputWidth as int && d.outputHeight == request.outputHeight as int
           && d.reversedDepth == request.reversedDepth
           && d.color.Some? && d.motion.Some? && d.depth.Some? && d.responsive.Some? && d.output.Some?
           && d.color != d.output && d.motion != d.output && d.depth != d.output && d.responsive != d.output
           && (forall r | r in [d.color, d.motion, d.depth, d.responsive, d.output] ::
                 var t := textures(r.value);
                 t.isTexture2D && t.arraySize == t.mipLevels == t.samples == 1 && t.device == device)
           && (forall r | r in [d.color, d.motion, d.depth, d.responsive] ::
                 textures(r.value).width >= d.renderWidth && textures(r.value).height >= d.renderHeight)
           && textures(d.output.value).width >= d.outputWidth && textures(d.output.value).height >= d.outputHeight
           && textures(d.color.value).format == R8G8B8A8Unorm && textures(d.motion.value).format == R16G16Float
           && textures(d.depth.value).format == R32Float && textures(d.responsive.value).format == R8Unorm
           && textures(d.output.value).format == R8G8B8A8Unorm && textures(d.output.value).unorderedAccess
  {
    CacheAgreesWithValidation(textures, ops);
    var m := Run(textures, true, ops).0;
    hide Run;
    StepKeepsCacheSound(textures, true, m, Evaluate(d, thread));
  }

  /** What configuring does: nothing to a foreign or matching state; otherwise it installs the request exactly
      when every check passes, with nothing validated yet, and leaves no state when one fails. */
  lemma ConfigureInstallsExactly(textures: Textures, m: Machine, request: Request, thread: Thread, runtime: Runtime)
    ensures
      var (m', verdict) := Step(textures, true, m, Configure(request, thread, runtime));
      && (m.live.Some? && m.live.value.owner != thread ==> m' == m && verdict == Done(false))
      && (m.live.Some? && m.live.value.owner == thread && m.live.value.request == request ==>
            m' == m && verdict == Done(true))
      && (m.live == None || (m.live.value.owner == thread && m.live.value.request != request) ==>
            && (verdict == Done(true)
                <==> && request.quality != Off && request.renderWidth > 0 && request.renderHeight > 0
                     && request.outputWidth > 0 && request.outputHeight > 0
                     && runtime.device.Some? && runtime.contextCreated && runtime.initialized
                     && runtime.minimumWidth <= request.renderWidth as int <= runtime.maximumWidth
                     && runtime.minimumHeight <= request.renderHeight as int <= runtime.maximumHeight
                     && AspectAccepted(request.renderWidth, request.renderHeight,
                                       request.outputWidth, request.outputHeight))
            && (verdict == Done(true) ==>
                  && m'.available && m'.live.Some? && m'.live.value.request == request
                  && m'.live.value.owner == thread && Some(m'.live.value.device) == runtime.device
                  && forall r | r in m'.live.value.validated :: r == None)
            && (verdict != Done(true) ==> verdict == Done(false) && m' == Machine(None, false)))
  {
    hide AspectAccepted;
  }

  // ---------------------------------------------------------------------------------------
  // The upscaler object
  // ---------------------------------------------------------------------------------------

  class Upscaler {
    var live: Option<Live>
    var available: bool

    function Current(): Machine
      reads this
    {
      Machine(live, available)
    }

    constructor ()
      ensures Current() == Machine(None, false)
    {
      live, available := None, false;
    }

    predicate Ready()
      reads this
    {
      live.Some? && available
    }

    /** A state that does not go idle is released rather than destroyed; either way it is gone. */
    method ShutDown(ghost textures: Textures)
      modifies this
      ensures Current() == Step(textures, true, old(Current()), Shutdown).0
    {
      live := None;
      available := false;
    }

    method ConfigureFor(request: Request, thread: Thread, runtime: Runtime, ghost textures: Textures) returns (ok: bool)
      modifies this
      ensures (Current(), Done(ok)) == Step(textures, true, old(Current()), Configure(request, thread, runtime))
    {
      if live.Some? && live.value.owner != thread {
        return false;
      }
      if live.Some? && live.value.request == request {
        return true;
      }
      ShutDown(textures);
      if request.quality == Off || request.renderWidth == 0 || request.renderHeight == 0
         || request.outputWidth == 0 || request.outputHeight == 0 {
        return false;
      }
      if runtime.device == None || !runtime.contextCreated {
        return false;
      }
      if request.renderWidth as int < runtime.minimumWidth || request.renderHeight as int < runtime.minimumHeight
         || request.renderWidth as int > runtime.maximumWidth || request.renderHeight as int > runtime.maximumHeight
         || !AspectAccepted(request.renderWidth, request.renderHeight, request.outputWidth, request.outputHeight) {
        return false;
      }
      if !runtime.initialized {
        return false;
      }
      available := true;
      live := Some(Live(request, thread, runtime.device.value, UNVALIDATED));
      return true;
    }

    /** The part of `evaluate` before it takes a command slot. */
    method Admit(d: Dispatch, thread: Thread, textures: Textures) returns (verdict: Verdict)
      modifies this
      ensures (Current(), verdict) == Step(textures, true, old(Current()), Evaluate(d, thread))
    {
      if !Ready() || !MatchesRequest(d, live.value.request) {
        return Mismatch;
      }
      if live.value.owner != thread {
        return WrongThread;
      }
      if d.Resources() != live.value.validated {
        if !Meets(textures, d, live.value.device) {
          return InvalidResources;
        }
        live := Some(live.value.(validated := d.Resources()));
      }
      return Executes;
    }
  }
}
