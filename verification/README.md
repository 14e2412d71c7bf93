# UFGU verification model

UFGU is a rendering plugin for Skyrim: it upscales frames through vendor runtimes, generates frames,
and paces them. Around its calls into D3D and the vendor SDKs it keeps a number of self-contained
algorithms and protocols. This Dafny project models those and proves what they are relied on for.

| file | models |
|---|---|
| `Halton.dfy`, `JointStratification.dfy` | the Halton jitter generator, its even filling of one and of both axes, and the frame-to-sample schedule |
| `FrameLimiter.dfy` | the base frame limiter, over whole runs against an oversleeping counter |
| `FrameTimeSeries.dfy` | the frame-time ring buffer, its window reader and the loops of its statistics |
| `OrderStatistics.dfy` | what those statistics mean: percentiles, tail averages, pacing deviation |
| `CommandSlots.dfy` | the four GPU command slots behind one fence, shared by the FidelityFX and XeSS upscalers |
| `XessUpscaler.dfy` | the XeSS configuration, its cache of validated resources and its aspect test |
| `DepthContract.dfy` | depth orientation, range and form of a projection |
| `CameraReprojection.dfy` | the camera reprojection transforms |
| `RuntimePath.dfy` | lexical containment of a vendor runtime |
| `AsciiText.dfy`, `ProfileFile.dfy`, `ProfileOverride.dfy`, `Settings.dfy` | the INI reader, the Win32 profile calls, what the one sees of the other, and the two-key commit with rollback |
| `HookPreflight.dfy` | the preflight of a direct call before it is hooked |
| `FramePacing.dfy` | the debounce of the frame-generation multiplier |
| `ComputeDispatch.dfy` | compute dispatch planning in 32-bit arithmetic |
| `ImageDifference.dfy` | the comparison of two captures of a surface |
| `Arithmetic.dfy`, `Common.dfy` | shared arithmetic facts and vocabulary |

## How the code is represented

- `float`, `double` and `long double` are exact reals. Where the source tests whether a value is finite,
  the model compares its magnitude with the bound the source uses, or with the largest `float`.
- Integers are bounded, with C++ wrap-around written out, wherever a property depends on their width:
  the frame counter, the transition counter, the aspect products, addresses and the dispatch sums.
- The outside world is a parameter. The performance counter is a sequence of readings that may fail. The
  GPU is an in-order queue that may retire any amount of work between any two steps. File operations
  carry an outcome each. Foreign matrix inversion returns a determinant and, unless that is zero, a two-sided
  inverse. The results that a vendor runtime reports are fields of a record.
- Classes keep the fields that the source mutates. A ghost field holds the history that such an object is
  measured against: the log of pushed samples, the observations of the debounce, the events of the slot
  protocol.
- Some properties turned out to hold only under a condition. Each is stated with its exact condition, and
  with an input on which it fails:
  - a window of jitter samples is free of repeats unless the 32-bit frame counter wraps inside it, when the
    phase count has to divide 2^32 (`WrappedWindowRepeats`);
  - a determinate depth orientation orders the whole range exactly when the projection's denominator has the
    same sign at both samples; the source samples only the two ends (`PoleBetweenSamples`);
  - the 0.1% low is at most the 1% low exactly when the longer tail has a positive mean, or the shorter tail
    is empty or has none (`LowsOutOfOrder`);
  - an idle queue passes the test of `wait_for_idle` exactly when a signal reached the largest slot value, so
    not after a failed last signal (`FailedSignalHidesIdle`);
  - the group-size test and the plan are exact unless a 64-bit product wraps (`WrappedTileIsAccepted`);
  - a rolled-back key reads as before exactly when its value had no outer white space and no outer quotes
    (`DoublyQuotedValueIsLost`);
  - a written selection passes its own verification exactly when no later entry of either key says something
    else (`SecondSectionBlocksCommit`);
  - containment means lying below the root, except for two families of relative paths
    (`MisjudgedCandidates`).

## Model

| member | source | states |
|---|---|---|
| Halton.Halton | src/render/DynamicResolution.cpp:176-186 | the accumulating loop computes the radical inverse: the index's digits mirrored about the radix point |
| Halton.RadicalInverse | src/render/DynamicResolution.cpp:176-186 | the value lies in [0, 1) and is zero only for index zero |
| Halton.OneDigit | src/render/DynamicResolution.cpp:176-186 | the value of a single digit is that digit over the base |
| Halton.PlacesAdd | src/render/DynamicResolution.cpp:176-186 | the value of a sum of low and high digits is the sum of their values, the high ones scaled by their place; with the value of one digit this fixes the function |
| Halton.SplitAt | src/render/DynamicResolution.cpp:176-186 | the low digits of the index are the high digits of the value |
| Halton.StratumIsReversal | src/render/DynamicResolution.cpp:176-186 | a value falls in the j-th of b^k strata exactly when the index's k low digits, reversed, read j |
| Halton.Stratification | src/render/DynamicResolution.cpp:176-186 | every aligned block of b^k indices puts exactly one value in each of the b^k strata, for every base, level and block |
| Halton.RadicalInverseIsInjective | src/render/DynamicResolution.cpp:176-186 | different indices never share a value |
| Halton.PhaseCount | src/render/DynamicResolution.cpp:2658-2662 | the phase count is the integer nearest to eight times the squared ratio of the widths, halves upwards, and at least one |
| Halton.JitterState.UpdateJitter | src/render/DynamicResolution.cpp:2644-2697 | the three outcomes of one update: not ready, jitter disabled, or the index of this frame's sample, the radical inverses of that index less a half, and the projection scales |
| Halton.JitterOffset | src/render/DynamicResolution.cpp:2663-2666 | each offset lies strictly between minus and plus half a pixel |
| Halton.JitterWindow | src/render/DynamicResolution.cpp:2658-2666 | as many consecutive frames as there are phases use pairwise different offsets on each axis, exactly when the counter does not wrap inside the window or the phase count divides 2^32 |
| Halton.WrappedWindowRepeats | src/render/DynamicResolution.cpp:2658-2666 | with the 18 phases of 1280 to 1920 columns, the window that starts at the counter's last value repeats an offset |
| JointStratification.StratumIsResidue | src/render/DynamicResolution.cpp:176-186 | a value falls in a stratum of b^k exactly when its index has one fixed residue modulo b^k |
| JointStratification.BoxesAreFilledOnce | src/render/DynamicResolution.cpp:2663-2666 | with coprime bases, every aligned block of b^k * c^l indices puts exactly one point in each of the b^k by c^l boxes |
| JointStratification.JitterFillsBoxes | src/render/DynamicResolution.cpp:2663-2666 | every aligned block of 2^k * 3^l samples puts exactly one jitter point in each of the 2^k by 3^l boxes of the pixel, for every k, l and block |
| FrameLimiter.BaseFrameLimiter.Wait | src/render/BaseFrameLimiter.cpp:69-152 | every exit: bypass and failed queries reset; a new limit, no deadline, or one more than two frames late re-anchors; otherwise the call returns on the first reading at or past the next deadline, `frequency / fps` ticks after the last one, and records the wait as the last, in the mean and in the worst |
| FrameLimiter.BaseFrameLimiter.Spin | src/render/BaseFrameLimiter.cpp:99-124 | the waiting loop ends at the first reading that fails or reaches the target |
| FrameLimiter.WaitEnds | src/render/BaseFrameLimiter.cpp:99-124 | the waiting loop has a last query exactly when the counter fails or reaches the target some time, which is all that waiting demands of it |
| FrameLimiter.BaseFrameLimiter.Record | src/render/BaseFrameLimiter.cpp:127-151 | the reported average is the mean of the waits since the census last started over, and the census starts over after 600 |
| FrameLimiter.BaseFrameLimiter.Reset | src/render/BaseFrameLimiter.cpp:48-57 | a reset limiter has no cadence and no statistics |
| FrameLimiter.DeadlineAdvances | src/render/BaseFrameLimiter.cpp:86-125 | each call moves the deadline by at least an interval, and a release is at most an interval past the following deadline |
| FrameLimiter.RateBound | src/render/BaseFrameLimiter.cpp:83-125 | over any run, whatever the oversleeps, two releases j - i calls apart are at least j - i - 2 intervals apart |
| FrameLimiter.RateBoundIsTight | src/render/BaseFrameLimiter.cpp:92-125 | one oversleep by two intervals attains that bound for every distance |
| FrameLimiter.NoDrift | src/render/BaseFrameLimiter.cpp:92-125 | without a re-anchor the n-th deadline is the first plus exactly n intervals |
| FrameLimiter.BaseFrameLimiter.PaceFrames | src/render/BaseFrameLimiter.cpp:69-125 | any number of calls on a steady counter, whatever its oversleeps, is such a run: two releases j - i calls apart are at least j - i - 2 frames apart at the requested rate |
| FrameTimeSeries.FrameTimeSeries.Push | src/diagnostics/FrameTimeSeries.cpp:14-27 | a finite sample extends the log the ring stands for; anything else leaves it alone |
| FrameTimeSeries.FrameTimeSeries.Clear | src/diagnostics/FrameTimeSeries.cpp:29-33 | a cleared ring stands for the empty log |
| FrameTimeSeries.FrameTimeSeries.ContentsAreLogTail | src/diagnostics/FrameTimeSeries.cpp:14-33 | after any pushes and clears the ring holds the last 16384 samples of the log, or all of them |
| FrameTimeSeries.FrameTimeSeries.Size | src/diagnostics/FrameTimeSeries.cpp:35-38 | the size is the number of samples of that tail of the log |
| FrameTimeSeries.FreshIsLongest | src/diagnostics/FrameTimeSeries.cpp:49-59 | the fresh count is the length of the only suffix that is all fresh and preceded by a stale sample |
| FrameTimeSeries.FrameTimeSeries.Recent | src/diagnostics/FrameTimeSeries.cpp:40-62 | writes, oldest first, the newest values of the longest fresh run, at most the requested number, and nothing else |
| FrameTimeSeries.FrameTimeSeries.Statistics | src/diagnostics/FrameTimeSeries.cpp:64-158 | gathering, sorting and the tail and deviation loops together compute the summary of the fresh window |
| FrameTimeSeries.FrameTimeSeries.Gather | src/diagnostics/FrameTimeSeries.cpp:74-96 | the scratch array receives the fresh window newest first, with its sum, minimum and maximum |
| FrameTimeSeries.TailAverageFps | src/diagnostics/FrameTimeSeries.cpp:121-135 | the loop averages the largest values and reports a rate only for a positive mean |
| FrameTimeSeries.Deviations | src/diagnostics/FrameTimeSeries.cpp:139-151 | the loop totals the absolute deviation and counts the values below half and above one and a half medians |
| OrderStatistics.SortedIsSorted | src/diagnostics/FrameTimeSeries.cpp:106-108 | sorting is an ascending rearrangement of the window |
| OrderStatistics.PercentilesAreOrdered | src/diagnostics/FrameTimeSeries.cpp:101-119 | minimum, median, 95th and 99th percentile and maximum are in order, for every window |
| OrderStatistics.PercentilesAreNearestRanks | src/diagnostics/FrameTimeSeries.cpp:101-119 | the median, 95th and 99th percentiles are values of the window with at least 50, 95 and 99 per cent of it at or below them, and fewer below |
| OrderStatistics.NearestRankIsUnique | src/diagnostics/FrameTimeSeries.cpp:101-119 | no other value has that rank |
| OrderStatistics.SummaryDescribesWindow | src/diagnostics/FrameTimeSeries.cpp:74-100 | the current value is the newest, the average times the count is the sum, and the extremes are values of the window that bound it |
| OrderStatistics.NothingIsReported | src/diagnostics/FrameTimeSeries.cpp:64-99 | an empty window reports zeros and its length |
| OrderStatistics.PacingDescribesWindow | src/diagnostics/FrameTimeSeries.cpp:139-157 | the deviation ratio times the median is the deviation, and the counts are the values under a half and over one and a half medians; all are zero without a positive median |
| OrderStatistics.IrregularIntervalsAreFew | src/diagnostics/FrameTimeSeries.cpp:139-151 | at most ceil(n/2) - 1 intervals are short and at most floor(n/2) are long |
| OrderStatistics.LongerTailIsLower | src/diagnostics/FrameTimeSeries.cpp:121-131 | a longer tail of the sorted values has a mean no larger |
| OrderStatistics.LowsAreRates | src/diagnostics/FrameTimeSeries.cpp:121-137 | each low times the time that the largest n/100 or n/1000 values take is a second for each of them, and zero without such time |
| OrderStatistics.LowsAreOrdered | src/diagnostics/FrameTimeSeries.cpp:121-137 | the 0.1% low is at most the 1% low, exactly when the shorter tail is empty or has no positive mean, or the longer tail has a positive one |
| OrderStatistics.LowsOutOfOrder | src/diagnostics/FrameTimeSeries.cpp:121-137 | one positive value above 999 negative ones: the 0.1% low is 1000 and the 1% low is 0 |
| OrderStatistics.LowIsBelowMedianRate | src/diagnostics/FrameTimeSeries.cpp:121-139 | with a positive median the 1% low is at most the rate of the median interval |
| OrderStatistics.MedianMinimises | src/diagnostics/FrameTimeSeries.cpp:110-117 | the nearest-rank median minimises the total absolute deviation |
| OrderStatistics.PacingDeviationIsMinimal | src/diagnostics/FrameTimeSeries.cpp:139-155 | the reported pacing deviation is the window's mean absolute deviation about the median, and no other centre has a smaller one |
| OrderStatistics.DeviationIsSum | src/diagnostics/FrameTimeSeries.cpp:139-147 | the total deviation is the sum of the distances from the median |
| CommandSlots.FreeSlotIsIdle | src/providers/XessUpscaler.cpp:404-416 | a slot that passes the fence test has no unfinished list |
| CommandSlots.RunKeepsInv | src/providers/FsrUpscaler.cpp:936-1081 | every interleaving of GPU progress with evaluations that fail anywhere, a failed signal included, keeps the slot invariant |
| CommandSlots.RecordedSlotIsIdle | src/providers/FsrUpscaler.cpp:420-432 | in every such run the slot being recorded holds no unfinished list, from its acquisition on |
| CommandSlots.FindSlotProbesOn | src/providers/XessUpscaler.cpp:404-416 | the slot found is the first free one in cyclic order from the last one used |
| CommandSlots.NoSlotMeansFourOutstanding | src/providers/FsrUpscaler.cpp:420-432 | acquisition fails exactly when four different fence values are outstanding |
| CommandSlots.CompletedNeverFalls | src/providers/FsrUpscaler.cpp:1073-1075 | signals reach the fence in increasing order, so its value never falls, even past failed signals |
| CommandSlots.LargestFenceCoversAll | src/providers/FsrUpscaler.cpp:331-339 | once the largest slot value is reached nothing is in flight |
| CommandSlots.IdleIsRecognised | src/providers/XessUpscaler.cpp:304-321 | with all work finished, in any run, the test for idleness says yes exactly when some signal reached the largest slot value, or no slot was used |
| CommandSlots.FailedSignalHidesIdle | src/providers/XessUpscaler.cpp:304-321 | after one submission whose signal failed nothing is in flight and the test says no |
| CommandSlots.State.AcquireSlot | src/providers/XessUpscaler.cpp:404-416 | the scan returns the first free slot after the last one used, and that slot is idle |
| CommandSlots.State.EvaluateIn | src/providers/XessUpscaler.cpp:977-1106 | from an acquired slot on, the recording is submitted exactly when the reset and the recording succeed, signalled exactly when the signal does, and reported synchronized exactly when the completion does too; the allocator is reset only while its slot is idle |
| CommandSlots.State.Evaluate | src/providers/XessUpscaler.cpp:972-1106 | which outcome occurs, the queue, the slot values, the fence counter and the next slot it leaves, for each result of the foreign calls; a slot free at entry is always found |
| CommandSlots.State.WaitForIdle | src/providers/XessUpscaler.cpp:304-328 | true exactly when the fence has passed every slot value at once, or the event could be armed and it does so before the wait ends; nothing is in flight then |
| CommandSlots.State.Shutdown | src/providers/XessUpscaler.cpp:290-302 | the context is destroyed exactly when that wait succeeds, with nothing in flight, and is retained otherwise |
| XessUpscaler.AspectError | src/providers/XessUpscaler.cpp:602-608 | the 64-bit computation never wraps and is the distance of the cross products |
| XessUpscaler.HonestScalingIsAccepted | src/providers/XessUpscaler.cpp:609-614 | an extent scaled by one factor and rounded to nearest, or truncated, on both sides passes the aspect test |
| XessUpscaler.AspectIsWithinOnePixel | src/providers/XessUpscaler.cpp:602-614 | the test accepts exactly the render extents whose shorter side is within one pixel of what the output's shape demands beside the longer one |
| XessUpscaler.RoundingModes | src/providers/XessUpscaler.cpp:609-614 | the two roundings that are accepted are flooring and flooring half a pixel higher |
| XessUpscaler.Upscaler.ConfigureFor | src/providers/XessUpscaler.cpp:633-871 | configuring keeps a matching state, and otherwise replaces it by a state that has validated nothing, or by none |
| XessUpscaler.ConfigureInstallsExactly | src/providers/XessUpscaler.cpp:633-871 | a foreign or matching state stays; otherwise the request is installed exactly when the mode, the extents, the runtime's range, the aspect and every foreign call pass, and no state is left when one fails |
| XessUpscaler.OtherOperations | src/providers/XessUpscaler.cpp:433-517 | a query changes only the availability; a shutdown, like the start, leaves no state |
| XessUpscaler.Upscaler.Admit | src/providers/XessUpscaler.cpp:873-973 | the part of an evaluation that compares, validates and remembers its resources is one step of the cached machine |
| XessUpscaler.StepKeepsCacheSound | src/providers/XessUpscaler.cpp:899-973 | what the cache would let through meets the whole resource contract, after every operation |
| XessUpscaler.CacheAgreesWithValidation | src/providers/XessUpscaler.cpp:653-663 | over every run of configure, query, evaluate and shutdown the cached upscaler answers exactly like one that always validates |
| XessUpscaler.ExecutedDispatchMeetsContract | src/providers/XessUpscaler.cpp:899-973 | every dispatch that executes meets extent, format, aliasing and device requirements, also when the check was skipped |
| XessUpscaler.ExecutesExactlyOnGoodTextures | src/providers/XessUpscaler.cpp:873-973 | after any run a dispatch executes exactly when the live state is available to its thread, extents and depth direction match, and the five textures are unaliased, single, large enough, of their formats and on the state's device |
| DepthContract.DepthDifference | src/render/DepthContract.hpp:169-184 | the difference of two depths, cleared of denominators, is the distance times the determinant |
| DepthContract.DepthOrder | src/render/DepthContract.hpp:169-184 | on one side of the pole depth moves against the sign of the determinant, across the pole with it |
| DepthContract.OrientationIsExact | src/render/DepthContract.hpp:186-217 | the answer from the entries and the planes: reversed or standard exactly when both depths can be sampled and the determinant makes the depth fall or rise by at least a ten-thousandth, and indeterminate otherwise |
| DepthContract.ProbeIsExact | src/render/DepthContract.hpp:196-200 | the second sample is the far plane when it is finite and beyond twice the near plane, and ten thousand near planes otherwise |
| DepthContract.TwoSamplesDecide | src/render/DepthContract.hpp:186-217 | a determinate orientation orders every pair of view depths in the sampled range, exactly when the denominator has one sign at both samples |
| DepthContract.PoleBetweenSamples | src/render/DepthContract.hpp:186-217 | a projection with its pole between the planes is classified as standard, and misorders some pair |
| DepthContract.InverseUndoesDepth | src/render/DepthContract.hpp:242-257 | the inverted block reads the view distance back from the depth, exactly when the finiteness tests let it |
| DepthContract.InvertingTwiceIsIdentity | src/render/DepthContract.hpp:242-257 | two successful inversions give back the block |
| DepthContract.InversionIsExact | src/render/DepthContract.hpp:242-257 | a block can be inverted exactly when its determinant is neither negligible nor out of range, and large enough beside every entry |
| DepthContract.InverseOfInverse | src/render/DepthContract.hpp:242-257 | an inverted block inverts back to its original exactly when that has finite entries and a determinant of at most 10^12, and is refused otherwise |
| DepthContract.NormalizationRecovers | src/render/DepthContract.hpp:292-313 | a captured inverse of a usable projection is turned back into it exactly when it does not pass for a forward projection itself and that projection's entries and determinant are in range; otherwise it is left unrecognised |
| DepthContract.ForwardIsExact | src/render/DepthContract.hpp:262-313 | a projection passes for a forward one exactly when both depths can be sampled, lie in the unit interval up to a thousandth and are far enough apart; unless an inverse was undone the projection is returned as it was |
| DepthContract.InvertedIsExact | src/render/DepthContract.hpp:292-313 | a projection is taken for an inverse exactly when it does not pass for a forward one and its inverse exists and does; the result is that inverse |
| DepthContract.RangeReadsTheLimit | src/render/DepthContract.hpp:315-339 | a determinate range classification compares the true limit of the depth map at infinity with the far endpoint |
| DepthContract.RangeIsExact | src/render/DepthContract.hpp:315-339 | infinite exactly when the orientation is known, the denominator has a slope and no offset, and its entries put the limit within half a millionth of the far endpoint; bounded exactly when they do not |
| CameraReprojection.CameraReprojectionMatrices.Build | src/render/CameraReprojection.hpp:120-188 | each failure occurs exactly under its condition on the inputs, so success does too, always without history; what was written by then, a non-finite inverse included; on success the transforms are finite, mutually inverse, and the identity without history |
| CameraReprojection.CameraReprojectionMatrices.SetWithoutHistory | src/render/CameraReprojection.hpp:104-118 | without history both transforms are the identity and the flag is raised |
| CameraReprojection.InvertCameraMatrix | src/render/CameraReprojection.hpp:77-93 | succeeds exactly with a finite determinant past the smallest normal `float` and a finite inverse; the output is overwritten whenever the determinant passes, and is then a two-sided inverse |
| CameraReprojection.UsableByBounds | src/render/CameraReprojection.hpp:86-90 | a determinant is usable when its magnitude is past 2^-126 and not past the largest `float` |
| CameraReprojection.FiniteByEntries | src/render/CameraReprojection.hpp:65-75 | a matrix is finite when each of its sixteen entries is |
| CameraReprojection.ZeroByEntries | src/render/CameraReprojection.hpp:53-63 | the zero matrix is the one with sixteen zero entries |
| CameraReprojection.ReprojectionFollowsWorldPoints | src/render/CameraReprojection.hpp:154-173 | a world point seen by the current camera lands where the previous camera saw it, with the origin shift applied |
| CameraReprojection.ReprojectionFollowsPositions | src/render/CameraReprojection.hpp:154-173 | what the current camera sees of a world position goes to what the previous camera saw of it, each relative to its own position adjustment |
| CameraReprojection.ReprojectionComposes | src/render/CameraReprojection.hpp:154-173 | with true inverses, one frame's transform times the next equals the transform over both, position adjustments adding up |
| CameraReprojection.StationaryCameraIsIdentity | src/render/CameraReprojection.hpp:154-173 | a camera that does not move reprojects every point onto itself |
| CameraReprojection.ForwardReprojectionIsTheInverse | src/render/CameraReprojection.hpp:181-187 | the stored inverse is the reprojection from the previous camera to the current one |
| RuntimePath.DescendantIsBelow | src/providers/RuntimePath.hpp:11-32 | for all paths containment holds exactly when neither is empty, no directory reads as a drive, and the candidate's walk climbs as far as the base's and goes down beyond it, or the pair is of one of two misjudged kinds |
| RuntimePath.NormalFollowsWalk | src/providers/RuntimePath.hpp:19-20 | a normal path spells the levels its walk climbs and the directories it goes down, with at most a trailing separator or a dot |
| RuntimePath.NormalIsExact | src/providers/RuntimePath.hpp:19-20 | the exact names of a normal path, with when it ends in a separator and when it is a dot |
| RuntimePath.DrivesByLetter | src/providers/RuntimePath.hpp:19-20 | a name reads as a drive when it starts with a Latin letter and a colon |
| RuntimePath.BelowFromEveryStart | src/providers/RuntimePath.hpp:11-32 | a relative candidate that lies below its base does so from every directory both are taken from |
| RuntimePath.MisjudgedEscapes | src/providers/RuntimePath.hpp:19-32 | a misjudged relative candidate is outside its base from some directory |
| RuntimePath.MisjudgedCandidates | src/providers/RuntimePath.hpp:19-32 | candidates of both misjudged kinds are accepted: `..\b` inside `..\..\a`, and `\b` inside `a` |
| RuntimePath.VerdictIsExact | src/providers/RuntimePath.hpp:108-126 | a verified physical root decides alone, the visible root only without one; the root that decides accepts exactly what passes for below it, and for an absolute runtime exactly what lies below it without a drive name |
| RuntimePath.VerdictDependsOnTheWalk | src/providers/RuntimePath.hpp:108-126 | two spellings of the same walk get the same verdict |
| AsciiText.TrimAscii | src/config/Settings.cpp:42-53 | the two loops remove exactly the white space at both ends |
| AsciiText.TrimIsExact | src/config/Settings.cpp:42-53 | only white space is removed, and none is left at either end |
| AsciiText.TrimIsStable | src/config/Settings.cpp:42-53 | trimming again, or from the back first, changes nothing |
| AsciiText.SpacesAreSix | src/config/Settings.cpp:42-53 | white space is the six characters of the C locale |
| AsciiText.TrimIgnoresAppended | src/config/Settings.cpp:42-53 | white space appended to a text does not change what is left of it |
| AsciiText.LikeUpToCase | src/config/Settings.cpp:55-68 | two characters compare equal when they are the same or the two cases of one letter |
| ProfileFile.ReadPhysicalProfileValues | src/config/Settings.cpp:93-168 | succeeds exactly on a readable file of at most a megabyte that names both keys, and returns the last values in the section |
| ProfileFile.ScanContents | src/config/Settings.cpp:132-161 | the position loop visits exactly the lines of the text |
| ProfileFile.ScanOne | src/config/Settings.cpp:136-155 | the body of the loop treats a line as a section, an entry or noise |
| ProfileFile.CarriageReturnIsIgnored | src/config/Settings.cpp:136-155 | a line reads alike with and without a carriage return at its end |
| ProfileFile.CommentsAreNoise | src/config/Settings.cpp:142-155 | a line that starts with a semicolon or a number sign is neither a section nor an entry |
| ProfileFile.EntryLineClassifies | src/config/Settings.cpp:142-155 | a written line is an entry of its key with the trimmed value |
| ProfileFile.ForeignSectionIsSkipped | src/config/Settings.cpp:138-155 | the entries under a section of another name are not read |
| ProfileFile.LinesOfText | src/config/Settings.cpp:134-161 | splitting the text of a file gives its lines back |
| ProfileFile.WriteThenLookup | src/config/Settings.cpp:1596-1611 | a written key reads back trimmed and the other key is untouched |
| ProfileFile.ReaderAgreesWithLookup | src/config/Settings.cpp:132-161 | with one section and each key once, the plugin's reader sees what the profile calls see |
| ProfileOverride.WriteThenScan | src/config/Settings.cpp:132-161 | on any file, the reader sees a written value unless a later entry of the key in an upscaling section overrides it, and then that entry's |
| ProfileOverride.WriteKeepsOther | src/config/Settings.cpp:1596-1611 | on any file, writing one key leaves what the reader sees of the other |
| ProfileOverride.WriteKeepsOverriding | src/config/Settings.cpp:1596-1611 | writing one key leaves what overrides the other |
| ProfileOverride.WriteKeepsLines | src/config/Settings.cpp:1596-1611 | a write adds its line, replaces an entry of its key, or appends a section; every other line stays |
| Settings.VerifyProfileCommit | src/config/Settings.cpp:170-209 | durable exactly when opening, flushing and reading succeed and the reader sees the pair up to letter case |
| Settings.Settings.Load | src/config/Settings.cpp:1067-1085 | the file location is kept even when there is no regular file to load |
| Settings.Settings.CommitUpscalingSelection | src/config/Settings.cpp:1536-1655 | true exactly when loading, both writes and the verification succeed, with memory and file holding the choice; false leaves the selection as it was or as it was loaded, and the file as it was or as the restore writes left it |
| Settings.CommittedSelectionIsRead | src/config/Settings.cpp:1596-1645 | a committed selection is what the profile calls read |
| Settings.RollbackRestoresReading | src/config/Settings.cpp:1574-1591 | if both restore writes succeed, each key reads as before the commit, exactly when its earlier value was plain |
| Settings.DoublyQuotedValueIsLost | src/config/Settings.cpp:1574-1591 | a doubly quoted `x` reads as a quoted one before the commit and as a bare one after the rollback |
| Settings.ShortValuesArePlain | src/config/Settings.cpp:1557-1572 | values under 64 characters that are not doubly quoted are read whole and are plain, and so are the defaults |
| Settings.ReadsExactly | src/config/Settings.cpp:1557-1572 | an absent key reads as its default, and any other as its value without one pair of outer quotes, cut to 63 characters |
| Settings.OrdinaryCommitIsSeen | src/config/Settings.cpp:1623-1625 | on a file with one section and each key once, the written selection passes its own verification |
| Settings.CommitIsSeen | src/config/Settings.cpp:1596-1625 | on any file, the written selection passes its own verification exactly when neither key was overridden by anything but the choice |
| Settings.SecondSectionBlocksCommit | src/config/Settings.cpp:1596-1625 | a second upscaling section that names a provider keeps every other provider from being committed |
| HookPreflight.ValidateCodeSignature | src/render/HookPreflight.hpp:61-80 | the masked scan accepts exactly the approved signatures that match at every position |
| HookPreflight.MatchIsByBits | src/render/HookPreflight.hpp:61-80 | a byte matches exactly when it agrees with the signature in every bit of the mask |
| HookPreflight.ValidExactlyWhenExpected | src/render/HookPreflight.hpp:82-160 | a result is valid exactly when call address plus five plus the signed displacement, over the integers, is the recorded target inside the module, and it carries that target |
| HookPreflight.EarlyFailuresAreExact | src/render/HookPreflight.hpp:93-133 | which failure is reported when the call leads to no address, without a target |
| HookPreflight.LateFailuresAreExact | src/render/HookPreflight.hpp:135-160 | which failure is reported, in order, once the integer target is known, and that target with it |
| HookPreflight.OverflowMeansNoAddress | src/render/HookPreflight.hpp:105-133 | the overflow guards reject exactly the calls whose integer target is no address |
| HookPreflight.DecodingUndoesEncoding | src/render/HookPreflight.hpp:109-133 | encoding any target within signed 32-bit reach and decoding it gives the target back |
| HookPreflight.EncodingUndoesDecoding | src/render/HookPreflight.hpp:109-133 | encoding the decoded target of any direct call gives its five bytes back |
| FramePacing.StableValueIsLatestRun | src/render/FramePacingRules.hpp:149-171 | the stable value belongs to the run of 30 equal observations that ends latest, and is zero without one |
| FramePacing.ThirtyDecide | src/render/FramePacingRules.hpp:149-171 | thirty equal observations make their value the stable one, and fewer do not |
| FramePacing.TrailingRunIsRun | src/render/FramePacingRules.hpp:157-164 | the streak counts exactly the equal observations the history ends with |
| FramePacing.ZerosAreDropped | src/render/FramePacingRules.hpp:152-156 | observations of zero are dropped and no others |
| FramePacing.ChangesAreCounted | src/render/FramePacingRules.hpp:165-171 | the transitions are the observations that changed the stable value |
| FramePacing.MultiplierTracker.Observe | src/render/FramePacingRules.hpp:152-171 | the tracker always holds the stable value and, modulo 2^32, the number of its changes over the whole history, and reports exactly the changes |
| FramePacing.MultiplierTracker.Reset | src/render/FramePacingRules.hpp:193-199 | a reset tracker stands for the empty history |
| ComputeDispatch.AxisIsExact | src/render/ComputeDispatchPlan.hpp:75-78 | the wrapped sum gives the true ceiling, or divides to zero when that ceiling is past the limit |
| ComputeDispatch.PlanIsExact | src/render/ComputeDispatchPlan.hpp:63-83 | the plan is the true ceiling on every axis, and empty for an illegal tile, a zero extent or a ceiling past 65535, for all inputs except a tile whose 64-bit product wraps to something small on an extent where every axis fits |
| ComputeDispatch.PlanIsTheOnlyCover | src/render/ComputeDispatchPlan.hpp:75-82 | the plan covers every axis with no idle group, and no other group counts do |
| ComputeDispatch.GroupSizeTestIsExact | src/render/ComputeDispatchPlan.hpp:38-50 | every legal tile passes; an illegal one passes only when its true product wraps to something small, so the test is exact on products that fit 64 bits |
| ComputeDispatch.WrappedTileIsAccepted | src/render/ComputeDispatchPlan.hpp:47-83 | a tile whose 2^64 threads wrap to zero is accepted, and a group of it is dispatched |
| ComputeDispatch.SlotsAreUsed | src/render/ComputeDispatchPlan.hpp:118-136 | the views occupy exactly the slots below the descriptor count |
| ComputeDispatch.SlotsAreDistinct | src/render/ComputeDispatchPlan.hpp:118-136 | no descriptor slot serves two views |
| ComputeDispatch.SlotsAreOrdered | src/render/ComputeDispatchPlan.hpp:118-136 | shader resources come first, then unordered access views, each in the order of their indices |
| ImageDifference.SizeGuardsAreExact | src/render/DynamicResolution.cpp:971-986 | the guards accept exactly the non-empty surfaces whose byte count is a size |
| ImageDifference.RowsOfLaidOut | src/render/DynamicResolution.cpp:1005-1010 | reading the rows of a mapped surface gives back the rows that were laid out in it, whatever the padding |
| ImageDifference.TightSurfaceHolds | src/render/DynamicResolution.cpp:1005-1010 | a surface without padding needs no more bytes than its pixels |
| ImageDifference.EqualPixelsAreEqualRows | src/render/DynamicResolution.cpp:1026-1036 | the pixels of two rows agree everywhere exactly when the rows are equal |
| ImageDifference.NothingDiffersExactly | src/render/DynamicResolution.cpp:1020-1048 | no pixel differs exactly when the images are the same |
| ImageDifference.FillBaseline | src/render/DynamicResolution.cpp:1005-1010 | the baseline receives the rows of the first capture without their padding |
| ImageDifference.CompareRow | src/render/DynamicResolution.cpp:1026-1036 | one pass of the inner loop extends the tally by the differing pixels of its row |
| ImageDifference.CompareSurface | src/render/DynamicResolution.cpp:961-1048 | the count is the number of differing pixels and the box is tight around them, all zero when there are none, for any row pitch |

## Left out

- Halton.PhaseCount: converting the rounded phase count to 32 bits is taken to be in range, as the source takes it.
- FrameLimiter.RateBound: speaks of runs whose counter queries succeed; a failed query resets the limiter, which the contract of Wait states.
- FrameLimiter.BaseFrameLimiter.Spin: requires that the counter fails or reaches the target some time; otherwise the source never returns (WaitEnds).
- FrameLimiter.BaseFrameLimiter.Wait: which of sleeping, yielding or pausing a turn uses is not modelled, since only the next reading depends on it.
- OrderStatistics.PercentileIndex: the fractions are exact reals; the source multiplies doubles, whose rounding can move a rank by one.
- FrameTimeSeries.Sort: `std::sort` appears as a method that leaves the sorted values behind, not as its algorithm.
- CommandSlots.Step: fence values are unbounded, so the wrap of a 64-bit counter is not modelled.
- CommandSlots.State.Evaluate: a state whose wait timed out is released by its caller, so later waits on its event are outside the model.
- XessUpscaler.Meets: resource descriptions do not change and pointers are not reused while an upscaler is alive.
- The FidelityFX resource cache: it keeps its entries when the render extent changes in place, so it has no counterpart of the XeSS property.
- CameraReprojection.CameraReprojectionMatrices.Build: the source never lowers the no-history flag on success, and the model follows the code.
- RuntimePath.VerdictIsExact: allows the misjudged relative runtimes, which the source accepts.
- Parsing of path strings, the extended-length prefixes and the NT device names.
- ProfileFile.Write: the Win32 profile calls are modelled on lines, with the reader's idea of sections and entries; caching inside Windows is not.
- Settings staged for a restart, which roll back to the pair in memory, and the other settings.
- ComputeDispatch.LayoutFits: the limits on root constants and samplers are left to the layout check of the source.
- HookPreflight.RawDisplacement: the four bytes are summed at their weights, which equals the source's shifts and ors.
- The virtual render extent clamps, the frame-episode trace, the UI target remap and the restoration of the TAA flag.
- Pacing and cadence decisions, copy plans, name tables and format maps: finite case distinctions.
- Floating-point rounding, infinities and NaN, other than as stated above.
- Everything that calls D3D, DXGI, SKSE, Streamline or a vendor SDK, and logging.
