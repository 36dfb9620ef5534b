# shark shaders, modelled in Dafny

shark is a Rust library of composable colour shaders. A shader maps a sample
point (a position of one to three components plus a time) to a colour, and
shaders are built by nesting combinators: constants, patterns, vertex
rewrites, interpolation, channel-wise arithmetic, a blur, a cache and a
random source. The repository holds three snapshots of the library, and
this project models each on its own terms:

- the current library (`src/shader/...`, `src/point/mod.rs`): modules
  `CurrentShader`, `CurrentVertex`, `CurrentConstant`, `CurrentPattern`,
  `CurrentOperation` and `Memoize`;
- the older f64 snapshot (`shark/src/shader/...`): modules `SharkShader` and
  `SharkLaws`;
- the oldest snapshot, with `usize` positions (`shark/src/primitives.rs`,
  `shark/src/shader.rs`): modules `UsizeShader` and `UsizeLaws`;
- the point arithmetic of both `point/mod.rs` files: module `Points`; and
  the `Line` iterator of `shark/src/point/primitives.rs`: module `Lines`.

Each snapshot has one shader-term datatype whose constructors are the
shader structs, and an `Eval` function that is `Shader::shade`. A vertex is
`Vertex(pos, time)` (`Vertices`); the f64 snapshots use `real` components and
the `usize` snapshot `nat` components. In the two older snapshots a shader
implements `Shader` only for some fragment types, so a predicate
`Accepts(s, d)` says which dimension a term can shade, and `Eval` requires
it; a term built by a constructor that exists for FragOne only
(`position_gradient`, `one_dimensional_position_rainbow`) carries that
dimension. The oldest snapshot's `shade` can panic; there `Eval` returns a
`Result` whose error names the panic, and a ModPosition modulo is any
integer or float, converted by the truncating `ToPrimitive::to_usize`.

The vertex rewrites are functions on vertices (`VertexOps`); where the source
rewrites its vertex copy in place with a loop, a method with that loop is
proved equal to the function. Colours are triples of reals tagged with their
colour space (`Colors`); the colour-space conversions, `mix` and
`shift_hue` of the palette library are uninterpreted functions carried in a
`Palette` value. Reals stand in for floating point (`Reals`): Rust's `%`
on floats is the truncated remainder `Rem`, and a division or remainder by
zero, which would give an infinity or a NaN, gives the stand-in 0.0.

`Memoize` and `Random` change state in place and are classes, each proved
against a pure step function (`Memoize.Step`, `CurrentPattern.RandomStep`);
`Memoize` keeps a ghost trace of the vertices its child was evaluated at.
`Line` is a class whose `Next` is proved against `Lines.NextStep`.

A Memoize lookup uses the first stored key within the threshold in
ascending key order, and a threshold of `None` or one at or below 0 never
hits. VolumeBlur takes `P` samples along the diagonal with accumulating
offsets. The ModPosition remainder keeps the sign of a negative component,
so results lie in `(-|m|, |m|)`.

## Model

| member | source | states |
|---|---|---|
| Vertices.TimeWriteRead | src/shader/mod.rs:60-65 | by construction of the vertex model: a write through `time_mut` is read back by `time` and leaves the position unchanged (all snapshots share this vertex model) |
| Vertices.PosWriteRead | shark/src/shader.rs:16-21 | by construction of the vertex model: a write to one position component is read back, leaves the length, the time and every other component unchanged, and a second write to it replaces the first |
| VertexOps.ModPositionVertex | src/shader/primitives/operation.rs:116-124 | the vertex ModPosition passes on: every component replaced by its truncated remainder, time kept (stated by `VertexOps.RewriteComponents`) |
| VertexOps.ModTimeVertex | src/shader/primitives/operation.rs:148-156 | the vertex ModTime passes on: time replaced by `time % m`, position kept (stated by `VertexOps.RewriteComponents`) |
| VertexOps.ScaleTimeVertex | src/shader/primitives/operation.rs:205-209 | the vertex ScaleTime passes on: time multiplied by the scale, position kept (stated by `VertexOps.RewriteComponents`) |
| VertexOps.ScalePositionVertex | src/shader/primitives/operation.rs:229-235 | the vertex ScalePosition passes on: every component multiplied by the scale, time kept (stated by `VertexOps.RewriteComponents`) |
| VertexOps.TranslateVertex | src/shader/primitives/operation.rs:256-262 | the vertex TranslatePosition passes on: the one offset added to every component, time kept (stated by `VertexOps.RewriteComponents`) |
| VertexOps.TranslateAxes | shark/src/shader/primitives.rs:413-441 | the fragment the f64 snapshot's TranslatePosition passes on: offset i added to component i, time kept (stated by `VertexOps.RewriteComponents`) |
| VertexOps.DropLastAxis | shark/src/shader/primitives.rs:293-315 | the fragment Extrude passes on: the last axis dropped, the other components and the time kept (stated by `VertexOps.RewriteComponents`) |
| VertexOps.RewriteComponents | src/shader/primitives/operation.rs:107-262 | each vertex rewrite keeps what its combinator does not touch (dimension and time, or the position) and changes every component alike, component i becoming `Rem(p_i, m)`, `p_i * scale`, `p_i + offset` or `p_i + offset_i`; dropping the last axis keeps the others |
| CurrentShader.FragOne | src/shader/mod.rs:73-103 | a FragOne has a position of length 1 holding its component, and its time |
| CurrentShader.FragTwo | src/shader/mod.rs:106-136 | a FragTwo has a position of length 2 holding its two components, and its time |
| CurrentShader.FragThree | src/shader/mod.rs:139-159 | a FragThree has a position of length 3 holding its three components, and its time |
| CurrentShader.PosSized | src/shader/mod.rs:94-102 | `pos_sized` (D = 1 or 2 only) returns the same D components as `pos` |
| CurrentShader.Eval | src/shader/mod.rs:11-15 | `Shader::shade` for every combinator of the current library, each case delegating to its children at the rewritten vertex; its laws are the lemmas of `CurrentConstant`, `CurrentPattern` and `CurrentOperation` |
| CurrentShader.MakeOff | src/shader/primitives/constant.rs:16-18 | `off()` builds the Off shader (shading stated by `CurrentConstant.OffIsBlack`) |
| CurrentShader.Mix | src/shader/primitives/operation.rs:36-46 | `mix` builds an Interpolate with a constant factor (stated by `CurrentOperation.InterpolatorSources`) |
| CurrentShader.PositionGradient | src/shader/primitives/operation.rs:72-87 | `position_gradient` builds an Interpolate whose factor is `f` of the summed position (stated by `CurrentOperation.InterpolatorSources`) |
| CurrentShader.TimeGradient | src/shader/primitives/operation.rs:89-104 | `time_gradient` builds an Interpolate whose factor is `f` of the time (stated by `CurrentOperation.InterpolatorSources`) |
| CurrentShader.TimeRainbow | src/shader/primitives/pattern.rs:96-101 | `time_rainbow` builds a Rainbow selecting the time (stated by `CurrentPattern.TimeRainbowLaws`) |
| CurrentShader.PositionRainbow | src/shader/primitives/pattern.rs:103-108 | `position_rainbow` builds a Rainbow selecting the summed position (stated by `CurrentPattern.PositionRainbowLaws`) |
| CurrentShader.IntoShader | src/shader/mod.rs:37-48 | `into_shader` wraps a closure as a FnShader (stated by `CurrentVertex.FnShaderApplies`) |
| CurrentShader.MakeColor | src/shader/primitives/constant.rs:33-37 | `color(c)` builds a Color shader whose stored colour is already in linear sRGB |
| CurrentVertex.FnShaderApplies | src/shader/mod.rs:23-48 | a definitional unfolding, kept as documentation: `into_shader` wraps the closure unchanged and `FnShader::shade` is the closure applied to the vertex |
| CurrentVertex.FragTwoWrites | src/shader/mod.rs:106-136 | writing `pos_mut()[0]` or `time_mut` of a FragTwo gives the FragTwo with that one part replaced; `pos_sized` is `[x, y]` |
| CurrentConstant.OffIsBlack | src/shader/primitives/constant.rs:6-18 | `off()` is the unit shader and shades every vertex (0, 0, 0) in linear sRGB |
| CurrentConstant.ColorIsStored | src/shader/primitives/constant.rs:20-37 | the Color shader built by `color(c)` shades every vertex with `c` converted once into linear sRGB, which is `c` itself when `c` is linear already |
| CurrentConstant.ConstantsIgnoreVertex | src/shader/primitives/constant.rs:6-31 | Off and Color read neither position nor time: any two vertices shade alike, Color with its stored colour |
| CurrentPattern.CheckerboardChoice | src/shader/primitives/pattern.rs:15-28 | Checkerboard shades with the first child when the sum of `Floor(abs(pos_i / stride))` is even and with the second when it is odd |
| CurrentPattern.CheckerboardMirror | src/shader/primitives/pattern.rs:15-28 | negating any one position component never changes which child is chosen; the colour is that child's at the mirrored vertex |
| CurrentPattern.CheckerboardOneDim | src/shader/primitives/pattern.rs:15-28 | in one dimension, with stride > 0 and position >= 0, the first child is chosen exactly when `Floor(p / s)` is even |
| CurrentPattern.CheckerboardAlternates | src/shader/primitives/pattern.rs:15-28 | moving one non-negative component one stride further always switches to the other child |
| CurrentPattern.RainbowColor | src/shader/primitives/pattern.rs:80-94 | Rainbow yields Okhsl with saturation 1 and lightness 0.5, and hue `selector(v) % 360`, in [0, 360) for a non-negative selector value and in (-360, 0] for a non-positive one |
| CurrentPattern.TimeRainbowLaws | src/shader/primitives/pattern.rs:96-101 | `time_rainbow` ignores the position and repeats every 360 time units for non-negative time |
| CurrentPattern.PositionRainbowLaws | src/shader/primitives/pattern.rs:103-108 | `position_rainbow` depends only on the sum of the position components, and its hue is that sum `% 360` |
| CurrentPattern.ThreeDraws | src/shader/primitives/pattern.rs:50-57 | the three draws of one shading form an sRGB colour with channels in [0, 1) when every draw is, and the generator is advanced three times |
| CurrentPattern.RandomStep | src/shader/primitives/pattern.rs:47-58 | one shading yields the three draws in linear sRGB and the state after them, a function of the old seed alone |
| CurrentPattern.Random.constructor | src/shader/primitives/pattern.rs:69-73 | `random()` starts with seed 0xdeadbeef |
| CurrentPattern.Random.Clone | src/shader/primitives/pattern.rs:59-67 | a clone holds the original's current seed |
| CurrentPattern.Random.Shade | src/shader/primitives/pattern.rs:47-58 | the colour returned and the new seed are `RandomStep` of the old seed, whatever the vertex |
| CurrentPattern.CloneShadesAlike | src/shader/primitives/pattern.rs:47-67 | a clone's next colour equals the original's next colour, even at different vertices |
| CurrentOperation.ModPositionRewrite | src/shader/primitives/operation.rs:116-124 | the loop over `pos_mut` leaves the vertex with every component replaced by its truncated remainder and the time kept |
| CurrentOperation.ScalePositionRewrite | src/shader/primitives/operation.rs:229-235 | the loop over `pos_mut` leaves every component multiplied by the scale and the time kept |
| CurrentOperation.TranslateRewrite | src/shader/primitives/operation.rs:256-261 | the loop over `pos_mut` leaves every component increased by the one offset and the time kept |
| CurrentOperation.ModPositionRange | src/shader/primitives/operation.rs:107-127 | ModPosition shades its child at the reduced vertex, of the same dimension and time, whose components lie in [0, m) when m > 0 and the components are non-negative |
| CurrentOperation.ModPositionPeriodic | src/shader/primitives/operation.rs:116-124 | for m > 0, adding m to a non-negative component does not change the colour |
| CurrentOperation.ModPositionIdempotent | src/shader/primitives/operation.rs:116-124 | a ModPosition of a ModPosition with the same modulus shades like one |
| CurrentOperation.ModPositionSigned | src/shader/primitives/operation.rs:116-124 | for any non-zero modulus each reduced component keeps the sign of the original and is smaller than the modulus in size: non-negative components land in [0, abs(m)), non-positive ones in (-abs(m), 0] |
| CurrentOperation.ModPositionNegative | src/shader/primitives/operation.rs:116-124 | one concrete witness of `ModPositionSigned`: with modulus 5 the component -1 stays -1 while 4 stays 4, so negative components are not wrapped into [0, 5) |
| CurrentOperation.ModTimeRange | src/shader/primitives/operation.rs:148-159 | ModTime shades its child at the vertex with time `time % m` and the position kept; for m > 0 and time >= 0 that time lies in [0, m) |
| CurrentOperation.ModTimePeriodic | src/shader/primitives/operation.rs:148-156 | for m > 0 and time >= 0, time and time + m shade alike |
| CurrentOperation.ScaleTimeLaws | src/shader/primitives/operation.rs:205-211 | ScaleTime multiplies the time and keeps the position; two scalings compose into their product and scale 1 changes nothing |
| CurrentOperation.ScalePositionLaws | src/shader/primitives/operation.rs:229-235 | ScalePosition keeps the time and dimension; two scalings compose into their product and scale 1 changes nothing |
| CurrentOperation.TranslatePositionLaws | src/shader/primitives/operation.rs:256-264 | TranslatePosition keeps the time and dimension; two translations add and translating by `-o` then `o` restores the shader |
| CurrentOperation.LerpEndpoints | src/shader/primitives/operation.rs:308-310 | `lerp(a, b, 0) = a` and `lerp(a, b, 1) = b` |
| CurrentOperation.InterpolatorSources | src/shader/primitives/operation.rs:36-104 | `mix`'s factor ignores the vertex, `position_gradient`'s depends only on the summed position and `time_gradient`'s only on the time |
| CurrentOperation.InterpolateEndpoints | src/shader/primitives/operation.rs:16-23 | with a channel-wise linear `mix`, factor 0 gives the start shader's colour and factor 1 the end shader's, both in linear sRGB |
| CurrentOperation.InterpolateHalfway | src/shader/primitives/operation.rs:16-23 | with a channel-wise linear `mix`, half-way from black to white is grey 0.5 |
| CurrentOperation.RotateHueByZero | src/shader/primitives/operation.rs:57-61 | rotating by 0 returns the child's linear colour when `shift_hue(0)` is the identity and Hsl round-trips |
| CurrentOperation.AddMultiplyCommute | src/shader/primitives/operation.rs:270-306 | Add and Multiply shade both children at the same vertex, so swapping the children changes nothing |
| CurrentOperation.AddOff | src/shader/primitives/operation.rs:270-306 | adding Off gives the other child's linear colour |
| CurrentOperation.SubtractSelf | src/shader/primitives/operation.rs:270-306 | a shader minus itself is black |
| CurrentOperation.DivideThenMultiply | src/shader/primitives/operation.rs:270-306 | dividing by a shader with no zero channel and multiplying by it again gives the numerator's linear colour |
| CurrentOperation.VolumeBlurShade | src/shader/primitives/operation.rs:324-338 | the child is evaluated exactly P times, sample k at the vertex moved by the accumulated offsets `lerp(-r, r, i / P)` for i <= k with time kept, and the result is the mean of the samples |
| CurrentOperation.SampleColors | src/shader/primitives/operation.rs:328-332 | the sampling loop fills a fresh array of P colours, colour k being the child at sample k |
| CurrentOperation.NextBlurSample | src/shader/primitives/operation.rs:328-332 | moving sample k - 1 by offset k gives sample k, the fact that makes the offsets accumulate |
| CurrentOperation.MeanColor | src/shader/primitives/operation.rs:334-337 | the fold from black over the colours divided by their count is the channel-wise sum divided by P |
| CurrentOperation.VolumeBlurEval | src/shader/primitives/operation.rs:324-338 | a definitional unfolding, kept as documentation: a VolumeBlur shader shades with the blur mean of its child's linear colours |
| CurrentOperation.VolumeBlurOfConstant | src/shader/primitives/operation.rs:324-350 | for P > 0, blurring a shader that shades every vertex alike gives that colour back, in linear sRGB |
| CurrentOperation.BlurMeanOfConstant | src/shader/primitives/operation.rs:334-337 | for P > 0 the mean of P copies of one linear colour is that colour |
| Memoize.KeyLessIrreflexive | src/shader/primitives/memoize.rs:8-15 | the key order (the `OrderedFloat` array order the map sorts by) is irreflexive |
| Memoize.KeyLessTransitive | src/shader/primitives/memoize.rs:8-15 | the key order is transitive |
| Memoize.KeyLessTotal | src/shader/primitives/memoize.rs:8-15 | any two keys are equal or ordered one way or the other |
| Memoize.Insert | src/shader/primitives/memoize.rs:48-50 | inserting adds the key to the key set and grows the cache by at most one entry |
| Memoize.InsertMap | src/shader/primitives/memoize.rs:48-50 | after `insert` the cache maps the key to the new value and every other key as before, an equal key being overwritten |
| Memoize.InsertSorted | src/shader/primitives/memoize.rs:48-50 | `insert` keeps the keys in strictly ascending order |
| Memoize.InsertSize | src/shader/primitives/memoize.rs:48-50 | on a sorted cache an insert adds an entry exactly when the key was not there |
| Memoize.SortedKeysDistinct | src/shader/primitives/memoize.rs:8-15 | a key occurs at most once in the sorted cache |
| Memoize.SqDist | src/shader/primitives/memoize.rs:26-33 | the summed squared distance between keys is non-negative |
| Memoize.SqrtBelow | src/shader/primitives/memoize.rs:26-33 | `sqrt(d) < t` holds exactly when `t > 0` and `d < t * t`, which is how the model states the distance test |
| Memoize.FirstWithinNone | src/shader/primitives/memoize.rs:24-35 | `get` misses exactly when no stored key is within the threshold |
| Memoize.FirstWithinSome | src/shader/primitives/memoize.rs:24-35 | a hit returns the value of the first stored key in ascending order that is strictly within the threshold, every earlier key being outside it |
| Memoize.NoThresholdNoHit | src/shader/primitives/memoize.rs:32 | with threshold `None` (read as 0) or any threshold <= 0, `get` never hits |
| Memoize.StoredKeyHits | src/shader/primitives/memoize.rs:24-35 | with a positive threshold, a stored key equal to the requested one guarantees a hit |
| Memoize.SqDistSelf | src/shader/primitives/memoize.rs:26-33 | a key is at distance 0 from itself |
| Memoize.FirstCall | src/shader/primitives/memoize.rs:71-83 | a new cache (empty, `cached_time` 0.0) invalidates on the first call exactly when invalidation is on and the time is not 0.0; the call evaluates the child and leaves exactly its result cached |
| Memoize.StepInvalidating | src/shader/primitives/memoize.rs:37-51 | with invalidation on and a new time, the lookup is skipped, the child is evaluated and the cache ends with exactly that one entry at the new time |
| Memoize.StepHit | src/shader/primitives/memoize.rs:37-51 | on a hit the value stored at a key within the threshold is returned, the child is not evaluated and the cache is unchanged |
| Memoize.StepMiss | src/shader/primitives/memoize.rs:37-51 | on a miss the child is evaluated, its value is returned and stored at the key, overwriting an equal key |
| Memoize.StepKeepsSorted | src/shader/primitives/memoize.rs:37-51 | every call keeps the cache sorted and grows it by at most one entry |
| Memoize.NoThresholdAlwaysEvaluates | src/shader/primitives/memoize.rs:32-51 | without a positive threshold every call evaluates the child and returns its value |
| Memoize.RepeatedKeyHits | src/shader/primitives/memoize.rs:37-51 | with a positive threshold, a second call with the same key at the same time does not evaluate the child |
| Memoize.Step | src/shader/primitives/memoize.rs:37-51 | one `get_or_shade` on a cache state: invalidate on a new time, else look up and insert on a miss; its behaviour is stated by `StepInvalidating`, `StepHit`, `StepMiss` and `StepKeepsSorted`, and `Memoize.Memoize.GetOrShade` is proved against it |
| Memoize.NewTimeEvaluates | src/shader/primitives/memoize.rs:37-51 | with invalidation on, a call at a different time from the previous call always evaluates the child |
| Memoize.KeyOf | src/shader/primitives/memoize.rs:60-68 | the key is the first D position components |
| Memoize.KeyIgnoresTime | src/shader/primitives/memoize.rs:60-68 | the time is not part of the key |
| Memoize.Memoize.constructor | src/shader/primitives/memoize.rs:71-83 | `memoize` starts with an empty cache, `cached_time` 0.0, the given threshold and flag, and no evaluations |
| Memoize.Memoize.Invalidate | src/shader/primitives/memoize.rs:20-22 | `invalidate` empties the cache and changes nothing else |
| Memoize.Memoize.Get | src/shader/primitives/memoize.rs:24-35 | the scan in ascending key order returns the value of the first key within the threshold, or None |
| Memoize.Memoize.GetOrShade | src/shader/primitives/memoize.rs:37-51 | the value, the new cache state and the evaluation trace are those of `Step` on the old state |
| Memoize.Memoize.Shade | src/shader/primitives/memoize.rs:60-68 | the key array filled by the loop is the first D components, and the call is `get_or_shade` with that key |
| SharkShader.FragOne | shark/src/shader/mod.rs:69-91 | the scalar `pos` of a FragOne is seen through `pos()` as a slice of length 1 |
| SharkShader.FragTwo | shark/src/shader/mod.rs:93-115 | a FragTwo exposes a position of length 2 |
| SharkShader.FragThree | shark/src/shader/mod.rs:117-139 | a FragThree exposes a position of length 3 |
| SharkShader.MakeColor | shark/src/shader/primitives.rs:37-42 | `color(c)` stores a colour in linear sRGB |
| SharkShader.Eval | shark/src/shader/mod.rs:13-17 | `Shader::shade` of the f64 snapshot for every combinator, on a term that accepts the fragment's dimension; its laws are the lemmas of `SharkLaws` |
| SharkShader.Mix | shark/src/shader/primitives.rs:62-72 | `mix` builds an Interpolate with a constant factor, generic in the fragment (stated by `SharkLaws.InterpolatorSources` and `SharkLaws.GradientDimensions`) |
| SharkShader.MakeRotateHue | shark/src/shader/primitives.rs:89-95 | `rotate_hue` stores the angle in radians (stated by `SharkLaws.RotateHueRadians`) |
| SharkShader.PositionGradient | shark/src/shader/primitives.rs:98-112 | `position_gradient` builds a FragOne-only Interpolate whose factor is `f` of the scalar position (stated by `SharkLaws.InterpolatorSources` and `SharkLaws.GradientDimensions`) |
| SharkShader.TimeGradient | shark/src/shader/primitives.rs:114-129 | `time_gradient` builds an Interpolate whose factor is `f` of the time, generic in the fragment (stated by `SharkLaws.InterpolatorSources` and `SharkLaws.GradientDimensions`) |
| SharkShader.TimeRainbow | shark/src/shader/primitives.rs:344-349 | `time_rainbow` builds a Rainbow selecting the time, generic in the fragment (stated by `SharkLaws.GradientDimensions`) |
| SharkShader.OneDimensionalPositionRainbow | shark/src/shader/primitives.rs:351-356 | `one_dimensional_position_rainbow` builds a FragOne-only Rainbow selecting the scalar position (stated by `SharkLaws.GradientDimensions`) |
| SharkLaws.GradientDimensions | shark/src/shader/primitives.rs:62-129 | `position_gradient` and `one_dimensional_position_rainbow` shade exactly FragOne (when their children do); `mix`, `time_gradient` and `time_rainbow` shade every dimension their children shade |
| SharkLaws.FragOneWrite | shark/src/shader/mod.rs:84-90 | writing `pos_mut()[0]` of a FragOne updates its scalar field and nothing else |
| SharkLaws.FnShaderApplies | shark/src/shader/mod.rs:29-50 | a definitional unfolding, kept as documentation: `into_shader` wraps the closure unchanged and `FnShader::shade` applies it |
| SharkLaws.ExtrudeDimensions | shark/src/shader/primitives.rs:293-322 | Extrude is a shader of FragTwo or FragThree only, and only when the child shades the fragment one dimension lower |
| SharkLaws.ScalePositionShade | shark/src/shader/primitives.rs:387-397 | the `for part in 0..len` loop leaves every component multiplied by the scale and the time kept |
| SharkLaws.TranslatePositionShade | shark/src/shader/primitives.rs:413-441 | each per-dimension impl adds offset i to component i and keeps the time |
| SharkLaws.ConstantsIgnoreFragment | shark/src/shader/primitives.rs:6-35 | Off shades every fragment black and Color its stored colour |
| SharkLaws.InterpolatorSources | shark/src/shader/primitives.rs:62-129 | `mix` has a constant factor, `position_gradient` gives the interpolator FragOne's scalar position and `time_gradient` its time |
| SharkLaws.RotateHueRadians | shark/src/shader/primitives.rs:89-95 | `rotate_hue` stores its angle converted to radians: 180 degrees is `PI_f64`, the conversion is additive and the child is kept |
| SharkLaws.CheckerboardChoice | shark/src/shader/primitives.rs:140-154 | the first child is shaded exactly when the sum of `Floor(abs(pos_i / stride))` is even, the second otherwise |
| SharkLaws.CheckerboardOneDim | shark/src/shader/primitives.rs:140-154 | on a non-negative FragOne with a positive stride the first child is chosen exactly when `Floor(pos / stride)` is even |
| SharkLaws.ModPositionAgrees | shark/src/shader/primitives.rs:192-244 | the three per-dimension ModPosition impls reduce every component by the truncated remainder and keep the time |
| SharkLaws.ModPositionRange | shark/src/shader/primitives.rs:192-244 | the reduced fragment keeps dimension and time, and non-negative components land in [0, m) for m > 0 |
| SharkLaws.ModTimeRange | shark/src/shader/primitives.rs:266-274 | ModTime keeps the position and puts a non-negative time in [0, m) for m > 0 |
| SharkLaws.ExtrudeAgrees | shark/src/shader/primitives.rs:293-315 | both Extrude impls drop the last axis and keep the other components and the time |
| SharkLaws.ExtrudeIgnoresLastAxis | shark/src/shader/primitives.rs:293-315 | the colour of an extruded shader does not depend on the dropped coordinate |
| SharkLaws.ScaleLaws | shark/src/shader/primitives.rs:364-397 | ScaleTime touches only the time and ScalePosition only the position; scaling twice multiplies the factors |
| SharkLaws.TranslateLaws | shark/src/shader/primitives.rs:413-452 | TranslatePosition keeps the time, two translations add their offsets axis by axis, and a zero offset changes nothing |
| SharkLaws.AddMultiplyCommute | shark/src/shader/primitives.rs:460-492 | Add and Multiply shade both children at the same fragment, so they commute |
| UsizeShader.FragOne | shark/src/shader.rs:23-44 | a FragOne's natural position is seen as a slice of length 1 |
| UsizeShader.FragTwo | shark/src/shader.rs:46-67 | a FragTwo exposes a position of length 2 |
| UsizeShader.FragThree | shark/src/shader.rs:69-90 | a FragThree exposes a position of length 3 |
| UsizeShader.MakeColor | shark/src/primitives.rs:40-45 | `color(c)` stores a colour in Oklab |
| UsizeShader.ToUsize | shark/src/primitives.rs:192-252 | `to_usize` of the modulo: an integer converts exactly when it lies in `0..=usize::MAX`, unchanged; a float converts exactly when it lies strictly between -1 and `usize::MAX + 1`, to the natural within 1 below its size (its truncation) |
| UsizeShader.Eval | shark/src/shader.rs:9-14 | `Shader::shade` of the usize snapshot for every combinator, on a term that accepts the fragment's dimension, ending in the panic the source would raise; its laws are the lemmas of `UsizeLaws` |
| UsizeShader.Mix | shark/src/primitives.rs:68-76 | `mix` builds an Interpolate with a constant factor (stated by `UsizeLaws.InterpolatorSources`) |
| UsizeShader.MakeRotate | shark/src/primitives.rs:91-96 | `rotate` stores the angle in radians (stated by `UsizeLaws.RotateRadians`) |
| UsizeShader.PositionGradient | shark/src/primitives.rs:99-112 | `position_gradient` builds a FragOne-only Interpolate whose factor is `f` of the position (stated by `UsizeLaws.InterpolatorSources` and `UsizeLaws.GradientDimensions`) |
| UsizeShader.TimeGradient | shark/src/primitives.rs:114-127 | `time_gradient` builds an Interpolate whose factor is `f` of the time (stated by `UsizeLaws.InterpolatorSources` and `UsizeLaws.GradientDimensions`) |
| UsizeLaws.GradientDimensions | shark/src/primitives.rs:68-127 | `position_gradient` shades exactly FragOne (when its children do); `mix` and `time_gradient` shade every dimension their children shade |
| UsizeLaws.FloatModuloTruncates | shark/src/primitives.rs:197-252 | a float modulo of at least 1 reduces like its truncation toward zero: 2.7 acts as 2 |
| UsizeLaws.SafeNeverPanics | shark/src/primitives.rs:140-252 | a term whose every stride is non-zero and whose every modulo converts to a usize of at least 1 never panics |
| UsizeLaws.PanicCases | shark/src/primitives.rs:140-252 | a stride of 0 panics on the division; an integer modulo outside `0..=usize::MAX`, or a float one at most -1 or at least `usize::MAX + 1`, panics in `to_usize().expect`; the integer 0 and any float strictly between -1 and 1 panic on the remainder |
| UsizeLaws.InterpolatePanics | shark/src/primitives.rs:58-65 | a panic in the start shader, shaded first, ends Interpolate with that panic |
| UsizeLaws.ConstantsIgnoreFragment | shark/src/primitives.rs:7-38 | Off shades every fragment Oklab (0, 0, 0) and Color its stored colour |
| UsizeLaws.InterpolatorSources | shark/src/primitives.rs:68-127 | `mix` has a constant factor, `position_gradient` gives the interpolator FragOne's position and `time_gradient` the time |
| UsizeLaws.RotateRadians | shark/src/primitives.rs:91-96 | `rotate` stores its angle in radians: 180 degrees is `PI_f32`, and the conversion is additive |
| UsizeLaws.CheckerboardChoice | shark/src/primitives.rs:140-154 | with a positive stride the first child is shaded exactly when the sum of the integer quotients `pos_i / stride` is even |
| UsizeLaws.CheckerboardOneDim | shark/src/primitives.rs:140-154 | in one dimension the first child is chosen exactly when `pos / stride` is even |
| UsizeLaws.QuotientSumStep | shark/src/primitives.rs:140-154 | moving one component a whole stride further raises the quotient sum by exactly one |
| UsizeLaws.CheckerboardAlternates | shark/src/primitives.rs:140-154 | moving one component a whole stride further always switches to the other child |
| UsizeLaws.ModPositionLaws | shark/src/primitives.rs:197-252 | the reduced fragment keeps dimension and time, and each component becomes `p % m`, below m |
| UsizeLaws.ModAddMultiple | shark/src/primitives.rs:197-252 | adding any multiple of the modulo leaves a component's remainder unchanged |
| UsizeLaws.ModPositionPeriodic | shark/src/primitives.rs:197-252 | ModPosition repeats every n along each axis, n being the modulo converted to a usize: shifting a component by `k * n` does not change the result |
| UsizeLaws.ModPositionIdempotent | shark/src/primitives.rs:197-252 | reducing an already reduced fragment changes nothing |
| UsizeLaws.ModTimeLaws | shark/src/primitives.rs:270-280 | ModTime keeps the position and puts a non-negative time in [0, m) for m > 0 |
| UsizeLaws.ExtrudeAgrees | shark/src/primitives.rs:291-315 | both Extrude impls drop the last axis and keep the time |
| UsizeLaws.ExtrudeIgnoresLastAxis | shark/src/primitives.rs:291-315 | the result of an extruded shader does not depend on the dropped coordinate |
| Points.New | src/point/mod.rs:12-16 | `Point::new` sets the three fields |
| Points.Origin | src/point/mod.rs:3-10 | `Point::default()` (derived): every field 0.0 (laws in `Points.AddSubLaws`) |
| Points.Add | src/point/mod.rs:18-27 | `a + b` component-wise (laws in `Points.AddSubLaws` and `Points.ScaleDistributes`) |
| Points.Sub | src/point/mod.rs:29-38 | `a - b` component-wise (laws in `Points.AddSubLaws`) |
| Points.Mul | src/point/mod.rs:40-49 | `a * b` component-wise (laws in `Points.MulLaws`) |
| Points.Scale | src/point/mod.rs:51-60 | `p * k` for a scalar (laws in `Points.ScaleLaws` and `Points.ScaleDistributes`) |
| Points.ScaleLeft | src/point/mod.rs:62-68 | `k * p`, defined as `p * k` (stated by `Points.ScaleLaws`) |
| Points.AddSubLaws | src/point/mod.rs:3-39 | `+` and `-` are component-wise: the default point is neutral, `+` commutes and `-` undoes `+` |
| Points.MulLaws | shark/src/point/mod.rs:60-70 | the component-wise product commutes, with unit (1, 1, 1) and zero the default point |
| Points.ScaleLaws | src/point/mod.rs:51-68 | `k * p` equals `p * k`, which is the product with (k, k, k); scaling by 1 is the identity and scalings compose |
| Points.ScaleDistributes | shark/src/point/mod.rs:38-88 | scaling distributes over the sum of points and over the sum of scalars |
| Lines.Line.constructor | shark/src/point/primitives.rs:10-17 | `Line::new` and `line` keep a, b and `num_points` and start with `current_point` 0 |
| Lines.Line.Next | shark/src/point/primitives.rs:23-35 | `next` keeps `current_point <= num_points` and its item and new counter are those of `NextStep` |
| Lines.NextStep | shark/src/point/primitives.rs:23-35 | one `next`: an item is produced exactly when the counter is below `num_points`, it is the item at the counter and the counter advances by one; otherwise None and the counter is kept |
| Lines.NextOnEmpty | shark/src/point/primitives.rs:24-26 | with no points `next` yields None and leaves the counter unchanged |
| Lines.RunShape | shark/src/point/primitives.rs:23-35 | k calls from counter cp give k items, the j-th being `Some` of item cp + j exactly when cp + j < `num_points`, and the counter stops at `num_points` |
| Lines.Endpoints | shark/src/point/primitives.rs:28-34 | for two or more points item 0 is a and item `num_points - 1` is b |

## Left out

- Colour-space conversions, `Mix::mix` and `shift_hue` are foreign library code: they are uninterpreted fields of a `Palette`, and only structural and endpoint facts are stated about them (the endpoint facts under the assumption of a linear `mix`).
- Floating point is modelled by reals: rounding, NaN and infinity are not modelled. A division or remainder by zero gives the stand-in 0.0, and `Lines.Item` for `num_points == 1`, where the source computes `0.0 / 0.0`, also uses it; no lemma states anything about that case.
- Saturating `as usize` casts of large quotients and overflow of the `usize` sums are not modelled; quotient and cell sums are unbounded naturals.
- Memoize: the time is compared by its bit pattern in the source; the model compares reals, which does not tell `-0.0` from `0.0` or treat NaN bit patterns apart. The `RwLock` and `AtomicU64` are plain fields, with no concurrency.
- Random in the current library: its random-number generator is an abstract `Generator` value (a draw and an advance function of the seed); the atomic seed cell is a plain field.
- Random in the two shark snapshots draws from the global `fastrand` or thread-local `thread_rng` state, which is outside any model of the shader; it is not modelled.
- The `ShaderExt` and `ShaderExtrudeExt` methods of all three snapshots pass their arguments unchanged to the free constructor of the same name; the model writes each construction once, as the free constructor, so these forwarding methods have no members of their own.
- `ShaderExt::volume_blur` in `src/shader/mod.rs:211-213` passes one more argument than `volume_blur` takes; it is not modelled.
- The imports of `Memoize`, `divide`, `subtract` and `volume_blur` in `shark/src/shader/mod.rs:6-11` name items the f64 snapshot does not define; the f64 snapshot's term has no such constructors.
- `Extrude` of `src/shader/primitives/operation.rs` relies on vertex conversions that are not part of this model; Extrude is modelled from the two shark snapshots.
- Random and Memoize are classes with their own state, not constructors of the current `Shader` term; the term's children are pure shaders.
- `Points`, its `From` and `FromIterator` impls (raw pointers and leaked memory), the visualizer, its foreign-function interface and the example programs are not part of this model.
- In the two older snapshots a closure shader (`FnShader`, `rainbow(selector)`, an `Interpolate` built directly) has the fragment type its closure takes; the model does not track a closure's argument type, so such terms accept every dimension, and only the FragOne-only constructors carry their dimension.
- The usize snapshot's ModPosition modulo can be any `ToPrimitive` type; the model covers integers and floats by value. A NaN float modulo, which fails the `expect`, has no counterpart among the reals.
- Lines.Line: the source's `a`, `b` and `num_points` are public fields; the model treats them as fixed after construction (`const`), so `Valid()` and `Next` cover lines whose fields no caller reassigns, which is every use in the repository.
- Const generics, `PhantomData`, `Debug` impls and the `Send`/`Sync` bounds are type-level machinery with no behaviour to model.
