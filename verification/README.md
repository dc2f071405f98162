# Verified model of the onnxruntime-qnn tooling

This project models, in Dafny, the self-contained algorithms of the ONNX Runtime QNN execution
provider repository and proves what they promise. `dafny verify dfyconfig.toml` checks all of it.

| file | models | main results |
|---|---|---|
| `TraceComparison.dfy`, on `StudentCdf.dfy`, `StudentT.dfy`, `RealAnalysis.dfy` | `compare_two_sessions.cc`: variance, t statistic, t distribution, verdict | the finite sum is the integral of the Student t density; different exactly below the printed level; significance in (0, 1] exactly when a sample varies; exchange and change of unit |
| `DependencyResolver.dfy` | the Abseil dependency resolver | reverse topological order of exactly the reachable libraries; raises exactly on a reachable cycle; reuse after a raise |
| `ReleasePublication.dfy` | publication of one version by any number of concurrent jobs | at every point of every interleaving with faults, the tag never moves and is that of the first push; a job fails exactly by a fatal turn of its own; progress; exactly the listed files that qualify are published, whatever the interleaving |
| `RegistrationValidator.dfy` | the opset version validator | accepted exactly when the registrations of every operator tile the opsets; independent of order |
| `RegistrationParser.dfy`, `RegistrationPrinting.dfy` | the kernel registration parser | no line lost or repeated; a file written with any of the six macros, in any layout, is read back |
| `MultiSocContext.dfy`, on `Sorting.dfy`, `Text.dfy` | the multi-SoC context editor | the natural order of numbered records; records and SoC entries stay aligned exactly when a record survives; a removal succeeds exactly when its names are distinct records; two removals are one |
| `AccuracyGate.dfy` | the accuracy-routing gate | skipped exactly when its own snapshots prove it; the filter selects exactly the cases that may not be skipped |
| `FileCache.dfy` | the package cache | outcome of every fetch within its attempts; every file of every run explained; fetched once; least recently used pruning |
| `ChunkedUpload.dfy` | the chunked artifact upload | whatever the order of arrival, the service has exactly the file |
| `CosineSimilarity.dfy` | the cosine similarity of two tensors | range, symmetry, scaling, 1 exactly for positive multiples |
| `InstrumentationLog.dfy` | the instrumentation log reader | line by line is block by block; the line patterns exactly; a written log is read back |
| `ProfilingCsv.dfy` | the profiling CSV enrichment | cells by column name, with the names that the trace gives; every statistic; width kept exactly for full rows; never twice |
| `OrtVersion.dfy` | the ORT version parser | exactly the 1.x versions are read, as their minor number |

`Wrappers.dfy` holds `Option`.

## How the model relates to the code

- Code that works by changing things (loops, objects with fields) is a method or a class here, and its
  `ensures` ties the result to a function; the properties are proved of that function. Pure code is a function.
- Arithmetic is exact: `double` is `real`, integers do not overflow. `sqrt` is a parameter of which only
  `IsSqrt` is known. A division of a number by zero, and of zero by zero, is `NotFinite`, and so is a probability
  computed from it; comparisons with it are false, as they are for the NaN that the code computes.
- Text is ASCII. White space is what `str.isspace` accepts there.
- Python's `sorted` is the stable sort of `Sorting.dfy`.
- Exceptions are the failing cases of a result datatype or a status.
- Network, disk, git, gh, the upload service and the DLC updater are inputs: the answer to each download attempt,
  the fault flag of each command, the status of each part. In `MultiSocContext.dfy` removing a record that is absent
  fails, a removal takes away that record only, and the reader lists records in a fixed order.
- In `ReleasePublication.dfy` every git or gh command is one atomic step of one job. A push creates the tag if it is
  absent and fails if it is present. Creating the release does likewise. A fetch does not replace a tag that the clone
  has. Every command of the function, from the first look at the tags to the upload of each file, may also fail for its
  own reasons. The clone, made before, and the listing of the directory do not fail.

## Where the code does not do what it promises

- The t comparison promises a significance level. With no variation in either trace the statistic is 0/0 or x/0 and
  there is none, so two constant traces are never reported as different, whatever their means
  (`TraceComparison.ConstantTraces`; exactly when both are constant: `TraceComparison.ComparisonSignificance`).
- The publication's check after a failed push looks at the local tag that the job has just made, so it says nothing
  about the remote. When no push goes through, the jobs still finish, with a release and no tag
  (`ReleasePublication.LostPushesGoUnnoticed`, `ReleasePublication.LostPushExists`). The remote is tagged exactly when it
  was before or some push went through (`ReleasePublication.TaggedByFirstPush`).
- The parser's exit for an unterminated registration is never taken: the line index runs out of range first
  (`RegistrationParser.MergeLines`, `RegistrationParser.LinesAreConserved`).
- Removing every record leaves one empty SoC entry for no record (`MultiSocContext.OnlyRecordRemoved`; exactly when
  no record is left unrequested: `MultiSocContext.AlignedExactlyWhenARecordSurvives`).
- A comment of the gate (accuracy_gate.py:300-303) says that either snapshot source passing is proof. The code demands
  that all of them passed, and the model follows the code.
- An operator whose own name holds a tier token is paired with another accuracy suite than its own
  (`AccuracyGate.TierInNameMispairs`; exactly then: `AccuracyGate.PairedExactlyWithoutTier`).
- A failed write leaves a partial file in the package cache, although partial downloads are meant to be avoided; the
  next fetch discards it unless it happens to validate (`FileCache.FetchOutcome`).
- Rows of a profiling CSV that are not as wide as the header get their new cells in wrong columns
  (`ProfilingCsv.ShortRowMisplaced`; exactly those, apart from padding where a column is filled:
  `ProfilingCsv.NewCellPlaced`).

## Model

| member | source | states |
|---|---|---|
| `StudentT.GapIsQuadratic` | onnxruntime/tool/etw/compare_two_sessions.cc:57-62 | the truncated series differs from its tangent by at most a constant times the square of the step, for every number of terms |
| `StudentT.ArcIntegral` | onnxruntime/tool/etw/compare_two_sessions.cc:57-63 | in the coordinate s = x / sqrt(v + x^2) the finite sum is the integral of (2m+1) b_m u^m: over every interval its rise lies between the two rectangles |
| `StudentCdf.CdfIsIntegralOfDensity` | onnxruntime/tool/etw/compare_two_sessions.cc:52-64 | for every even v the computed value is the integral of the Student t density: over every interval its rise lies between the rectangles under and over the density |
| `StudentCdf.CdfRange` | onnxruntime/tool/etw/compare_two_sessions.cc:54-64 | for every even v >= 2 and x >= 0 the value lies in [1/2, 1), is 1/2 exactly at 0, and the tail is bounded |
| `StudentCdf.CdfSymmetric` | onnxruntime/tool/etw/compare_two_sessions.cc:54-64 | F(-x) = 1 - F(x) |
| `StudentCdf.CdfStrictlyIncreasing` | onnxruntime/tool/etw/compare_two_sessions.cc:54-64 | the computed function is strictly increasing on the whole line |
| `TraceComparison.DeviationsExpand` | onnxruntime/tool/etw/compare_two_sessions.cc:43-49 | the sum of squared deviations from any c, in terms of the two running sums |
| `TraceComparison.VarianceZero` | onnxruntime/tool/etw/compare_two_sessions.cc:38-51 | the variance is never negative and is zero exactly for constant samples |
| `TraceComparison.CalcMeanAndStdSquare` | onnxruntime/tool/etw/compare_two_sessions.cc:38-51 | the one-pass loop computes the mean and the two-pass variance |
| `TraceComparison.CalcTValue` | onnxruntime/tool/etw/compare_two_sessions.cc:72-88 | means, standard deviations and T from the pooled squared deviations |
| `TraceComparison.FiniteExactlyWhenVarying` | onnxruntime/tool/etw/compare_two_sessions.cc:84-86 | T is a number exactly when one of the samples varies |
| `TraceComparison.TValueSwaps` | onnxruntime/tool/etw/compare_two_sessions.cc:72-88 | exchanging the samples negates T |
| `TraceComparison.TValueUnitFree` | onnxruntime/tool/etw/compare_two_sessions.cc:72-88 | another unit and origin of time leave T unchanged |
| `TraceComparison.TDistributionCDF` | onnxruntime/tool/etw/compare_two_sessions.cc:54-64 | the loop computes the closed form with its running coefficient, in [1/2, 1) for x >= 0 |
| `TraceComparison.TrimmedSizes` | onnxruntime/tool/etw/compare_two_sessions.cc:102-118 | both sizes stay >= 10 and in bounds, at most one extra sample is dropped, the freedom is even and >= 18, and trimming commutes with exchange |
| `TraceComparison.Kept` | onnxruntime/tool/etw/compare_two_sessions.cc:108-117 | of each trace the first run is dropped and the rest kept, except that one more is dropped at the end of the longer one if the total is odd |
| `TraceComparison.CompareTraces` | onnxruntime/tool/etw/compare_two_sessions.cc:102-133 | the report: too few samples, or T, freedom, p and verdict for the trimmed traces; different exactly when the printed significance is below 0.0001 |
| `TraceComparison.ComparisonExchanges` | onnxruntime/tool/etw/compare_two_sessions.cc:102-133 | exchanging the traces exchanges the means and negates T, and keeps p and verdict |
| `TraceComparison.ComparisonUnitFree` | onnxruntime/tool/etw/compare_two_sessions.cc:102-133 | another unit and origin of time keep T, freedom, p and verdict |
| `TraceComparison.SignificanceRange` | onnxruntime/tool/etw/compare_two_sessions.cc:117-132 | the printed significance lies in (0, 1] exactly when some sample varies; constant samples are never reported as different |
| `TraceComparison.ComparisonSignificance` | onnxruntime/tool/etw/compare_two_sessions.cc:102-132 | the same for whole traces and the samples kept of them |
| `TraceComparison.ConstantTraces` | onnxruntime/tool/etw/compare_two_sessions.cc:102-132 | a trace that is always x and one that is always y have these means and are not reported as different |
| `TraceComparison.ProbabilityOrder` | onnxruntime/tool/etw/compare_two_sessions.cc:119-127 | with equal freedom the probabilities are ordered exactly as the magnitudes of T |
| `TraceComparison.DifferentBelowLevel` | onnxruntime/tool/etw/compare_two_sessions.cc:117-132 | for every pair of traces, different exactly when p is a number and 2 (1 - p) is below 0.0001, the level that the message names; p is that of the printed T and freedom |
| `TraceComparison.LargerTKeepsVerdict` | onnxruntime/tool/etw/compare_two_sessions.cc:119-127 | with equal freedom a larger magnitude of T has the larger p and never loses the verdict |
| `DependencyResolver.AbslDependencyResolver.VisitLibrary` | tools/python/resolve_absl_deps_dynamic.py:35-58 | the recursive method changes the three fields as the search function says, raises included, and terminates on every graph |
| `DependencyResolver.AbslDependencyResolver.ResolveLibraries` | tools/python/resolve_absl_deps_dynamic.py:60-83 | the answer is that of a fresh resolver, whatever an earlier call, finished or raised, left behind |
| `DependencyResolver.VisitKeeps` | tools/python/resolve_absl_deps_dynamic.py:44-58 | a finished visit keeps the order free of repetitions, closed under dependencies and with dependencies first |
| `DependencyResolver.VisitReaches` | tools/python/resolve_absl_deps_dynamic.py:50-58 | whatever a visit adds is reachable from where it starts |
| `DependencyResolver.VisitRaises` | tools/python/resolve_absl_deps_dynamic.py:46-54 | a raise comes with a path that extends the open visits and closes on itself |
| `DependencyResolver.ResolvedIsTopologicalOrder` | tools/python/resolve_absl_deps_dynamic.py:60-83 | success lists exactly the reachable libraries, each once and before all its dependencies |
| `DependencyResolver.RaisesExactlyOnCycle` | tools/python/resolve_absl_deps_dynamic.py:46-48 | resolution raises exactly when a cycle is reachable, and names a library on one |
| `ReleasePublication.EveryRunIsSafe` | qcom/scripts/upleveling/qnn_ep_uplevel.py:1168-1255 | at every point of every interleaving, faults included, there is at most one release and finished jobs have their files attached; between any two points a tag on the remote has not moved and neither releases nor assets were taken away |
| `ReleasePublication.FailsExactlyByOwnTurn` | qcom/scripts/upleveling/qnn_ep_uplevel.py:1178-1254 | in every interleaving, with any faults of any job, a stopped job has failed exactly when one of its own turns was fatal: no files, stale notes, or a fault of its own command that the code does not tolerate |
| `ReleasePublication.FailsForItsReason` | qcom/scripts/upleveling/qnn_ep_uplevel.py:1178-1254 | the reason of a failed job is that of one of its own turns, at the command that the reason names |
| `ReleasePublication.NoJobFailsThroughAnother` | qcom/scripts/upleveling/qnn_ep_uplevel.py:1181-1251 | whatever the others do, a job with files and matching notes and no fault of its own does not fail, and finishes once it has had its turns |
| `ReleasePublication.JobsStop` | qcom/scripts/upleveling/qnn_ep_uplevel.py:1168-1255 | no job waits for another: it has stopped after a number of own turns that depends only on its files |
| `ReleasePublication.TaggedByFirstPush` | qcom/scripts/upleveling/qnn_ep_uplevel.py:1194-1212 | the remote is tagged exactly when it was before or some push went through, and the tag is the one it had or that of the first job whose push went through |
| `ReleasePublication.LostPushesGoUnnoticed` | qcom/scripts/upleveling/qnn_ep_uplevel.py:1195-1212 | in any interleaving of any jobs in which no push goes through, every job without a fatal turn still finishes, with a release and its files and no tag on the remote |
| `ReleasePublication.LostPushExists` | qcom/scripts/upleveling/qnn_ep_uplevel.py:1195-1212 | such a run: the push of a single job fails and the job goes on to the release |
| `ReleasePublication.FaultFreeTagged` | qcom/scripts/upleveling/qnn_ep_uplevel.py:1185-1212 | without faults every job past the tagging steps works on a tagged remote |
| `ReleasePublication.RunExact` | qcom/scripts/upleveling/qnn_ep_uplevel.py:1253-1255 | at every point of every interleaving the assets are the old ones overwritten by exactly the files uploaded so far |
| `ReleasePublication.FinishedHasPublished` | qcom/scripts/upleveling/qnn_ep_uplevel.py:1162-1177 | in every interleaving a finished job has attached every listed file with its suffix that ends in neither -pdb.zip nor win-arm64ec.zip, and with its content when no two published files share a name |
| `ReleasePublication.OnlyReleaseFilesPublished` | qcom/scripts/upleveling/qnn_ep_uplevel.py:1162-1177 | at every point of every interleaving an asset that was not there before ends in neither -pdb.zip nor win-arm64ec.zip and is a listed file of some job, with its suffix |
| `ReleasePublication.NoFilesExactly` | qcom/scripts/upleveling/qnn_ep_uplevel.py:1171-1179 | a stopped job failed for want of files exactly when its directory lists no such file |
| `ReleasePublication.NewReleaseHasMatchingNotes` | qcom/scripts/upleveling/qnn_ep_uplevel.py:1224-1251 | a new release was created by a job whose notes have no title or name its version, and only notes that name other versions make a job fail for its notes |
| `ReleasePublication.ExistingReleaseNeedsNoNotes` | qcom/scripts/upleveling/qnn_ep_uplevel.py:1218-1224 | with a release there already, a job that meets no fault of its own never looks at its notes, and does not fail |
| `ReleasePublication.ExistingTagIsUsed` | qcom/scripts/upleveling/qnn_ep_uplevel.py:1185-1193 | with the tag there already, a job that meets no fault of its own uses it and makes none |
| `ReleasePublication.CompleteRunsPublish` | qcom/scripts/upleveling/qnn_ep_uplevel.py:1168-1255 | without faults every complete interleaving ends with all jobs finished, the tag set, one release and exactly the assets of all jobs, among them every listed file with the job's suffix and neither excluded one, with its content |
| `ReleasePublication.PublicationIsScheduleIndependent` | qcom/scripts/upleveling/qnn_ep_uplevel.py:1168-1255 | any two complete interleavings publish the same assets |
| `ReleasePublication.ZipAndTgzDisjoint` | qcom/scripts/upleveling/qnn_ep_uplevel.py:1171-1177 | the selected files of the zip and the tgz job never share a name |
| `RegistrationValidator.Validator.ProcessRegistration` | tools/ci_build/op_registration_validator.py:57-70 | a registration is appended and the earlier ones are kept |
| `RegistrationValidator.ValidateGroup` | tools/ci_build/op_registration_validator.py:105-117 | the loop over one operator counts its invalid entries |
| `RegistrationValidator.CountSplits` | tools/ci_build/op_registration_validator.py:99-103 | counting group by group is counting over the whole sorted list |
| `RegistrationValidator.Validator.ValidateAll` | tools/ci_build/op_registration_validator.py:80-103 | sorting, grouping and counting give the number of invalid registrations |
| `RegistrationValidator.Validator.Ok` | tools/ci_build/op_registration_validator.py:72-78 | true exactly when the registrations of every operator tile the opsets |
| `RegistrationValidator.CountIgnoresOrder` | tools/ci_build/op_registration_validator.py:85-103 | the count does not depend on the order of the registrations |
| `RegistrationValidator.AcceptedExactlyWhenTiled` | tools/ci_build/op_registration_validator.py:80-189 | no entry is invalid exactly when, per operator, no interval is empty, none overlap, none are missing between the first and the last, and the last is open or exempt |
| `RegistrationValidator.AcceptedCoversOnce` | tools/ci_build/op_registration_validator.py:119-189 | in an accepted list every opset from a start to an end lies in exactly one distinct interval |
| `RegistrationValidator.MayEndExactly` | tools/ci_build/op_registration_validator.py:159-189 | the last registration may have an end exactly for Scatter at 10, Upsample and ThresholdedRelu at 9, LayerNormalization at 16, MeanVarianceNormalization at 8, and ArgMin and ArgMax at any, all of the ONNX domain |
| `RegistrationParser.MergeLines` | tools/ci_build/op_registration_utils.py:145-167 | the lines up to the first one with an end mark, and that mark; without one the index runs out of range and the exit is not reached |
| `RegistrationParser.Processor.ProcessRegistration` | tools/ci_build/op_registration_utils.py:177-177 | the callback is told the original lines and the registration |
| `RegistrationParser.Processor.ProcessOtherLine` | tools/ci_build/op_registration_utils.py:234-235 | the callback is told the line |
| `RegistrationParser.ProcessLines` | tools/ci_build/op_registration_utils.py:123-237 | one registration: events, status and next line as the function says |
| `RegistrationParser.ProcessKernelRegistrationFile` | tools/ci_build/op_registration_utils.py:252-267 | the loop over the file tells the processor exactly the events of the file |
| `RegistrationParser.LastLineIsFirst` | tools/ci_build/op_registration_utils.py:150-167 | the registration ends at the first line with an end mark |
| `RegistrationParser.LinesAreConserved` | tools/ci_build/op_registration_utils.py:123-267 | the lines handed to the callbacks are in order a first part of the file, and all of it when processing finishes; the exit is never taken |
| `RegistrationParser.OpensExactly` | tools/ci_build/op_registration_utils.py:252-267 | a line opens a registration exactly when what is left of it between white space starts with the marker |
| `RegistrationParser.EndsExactly` | tools/ci_build/op_registration_utils.py:143-164 | a line ends one exactly when what is left of it ends with one of the five marks |
| `RegistrationParser.UnterminatedRaises` | tools/ci_build/op_registration_utils.py:150-167 | a registration that no line ends raises IndexError, and the callbacks are told nothing of it |
| `RegistrationParser.OnlyDigitsAppend` | tools/ci_build/op_registration_utils.py:177-177 | the digits of a version are those of its groups, one group after the other |
| `RegistrationParser.IntegersExactly` | tools/ci_build/op_registration_utils.py:177-177 | amid white space and after an optional sign, a version is read exactly when it is groups of digits between single underscores, as the signed number of its digits |
| `RegistrationPrinting.MergedLine` | tools/ci_build/op_registration_utils.py:145-169 | merging a registration laid out on any lines gives its tokens with the white space between them |
| `RegistrationPrinting.FindIsFirst` | tools/ci_build/op_registration_utils.py:171-174 | the macro name is found where it first occurs |
| `RegistrationPrinting.OccursInMacro` | tools/ci_build/op_registration_utils.py:131-142 | a macro name occurs in another one only if it is the same, at its beginning |
| `RegistrationPrinting.RecognizesForm` | tools/ci_build/op_registration_utils.py:171-235 | of the six forms tried in order, the one that was written is taken |
| `RegistrationPrinting.SplitArgs` | tools/ci_build/op_registration_utils.py:175-175 | splitting at the commas and stripping gives the arguments back |
| `RegistrationPrinting.ParseDecimal` | tools/ci_build/op_registration_utils.py:177-177 | a version written in decimal is read as that number |
| `RegistrationPrinting.InterpretsArgs` | tools/ci_build/op_registration_utils.py:171-230 | the arguments of each form are taken as domain, operator, start, end and types |
| `RegistrationPrinting.LastArgumentsCount` | tools/ci_build/op_registration_utils.py:171-230 | only the last arguments of each form count, whatever stands before them, and with fewer there is no registration |
| `RegistrationPrinting.LayoutBounds` | tools/ci_build/op_registration_utils.py:150-167 | the first line of a layout opens a registration, and its last line and no earlier one ends it |
| `RegistrationPrinting.PlainIsArgument` | tools/ci_build/op_registration_utils.py:171-177 | every trimmed text without a comma, a closing angle bracket or a capital X can stand as an argument |
| `RegistrationPrinting.LayoutsExist` | tools/ci_build/op_registration_utils.py:145-169 | a registration may stand on a single line, or with each argument on a line of its own |
| `RegistrationPrinting.PrintedIsRecovered` | tools/ci_build/op_registration_utils.py:123-237 | a registration written anywhere in a file, in any of the six forms, with any end mark and any white space and line breaks, is reported with its domain, operator, start, end and types |
| `RegistrationPrinting.FileIsRecovered` | tools/ci_build/op_registration_utils.py:240-267 | a whole file made of such registrations and other lines is reported as exactly these, in order |
| `RegistrationPrinting.NotUnderstood` | tools/ci_build/op_registration_utils.py:171-237 | merged lines without a macro name are handed on one by one as other lines; with a macro whose last arguments cannot be read they raise ValueError |
| `MultiSocContext.KeysAlternate` | onnxruntime/python/multi_soc/deploy_multi_soc_ep_context.py:101-102 | text and numbers alternate in a sort key, so that comparing two keys never mixes them |
| `MultiSocContext.NaturalLeqIsPreorder` | onnxruntime/python/multi_soc/deploy_multi_soc_ep_context.py:98-104 | the natural order is total and transitive |
| `MultiSocContext.KeyAroundNumber` | onnxruntime/python/multi_soc/deploy_multi_soc_ep_context.py:101-102 | wherever a number is written in a name, it is a part of the key by its value, between the keys of what stands before and after it |
| `MultiSocContext.NumbersCompareByValue` | onnxruntime/python/multi_soc/deploy_multi_soc_ep_context.py:98-104 | numbers at the same place of two names compare by value, whatever their lengths, and what follows decides between equal ones; prefix and m comes before prefix and n exactly when m <= n |
| `MultiSocContext.DigitFreeByText` | onnxruntime/python/multi_soc/deploy_multi_soc_ep_context.py:101-102 | names without digits are ordered as strings |
| `MultiSocContext.SortedByNumber` | onnxruntime/python/multi_soc/deploy_multi_soc_ep_context.py:98-104 | among distinct records, of two numbered under one prefix the smaller number stands first, and only it |
| `MultiSocContext.ConsecutiveRecords` | onnxruntime/python/multi_soc/deploy_multi_soc_ep_context.py:98-104 | records with consecutive numbers, in whatever order the binary holds them, are sorted as they are counted |
| `MultiSocContext.KeptIndices` | onnxruntime/python/multi_soc/deploy_multi_soc_ep_context.py:210-219 | the indices kept are those in range that are not to be removed, in order |
| `MultiSocContext.EditMetadataValue` | onnxruntime/python/multi_soc/deploy_multi_soc_ep_context.py:185-223 | the edited value or the error, in the order in which the checks are made |
| `MultiSocContext.OnnxModel.ApplyMetadataRemoval` | onnxruntime/python/multi_soc/deploy_multi_soc_ep_context.py:171-223 | the first entry with the key is edited in place; an error leaves the model unchanged |
| `MultiSocContext.ResolveRemovedIndices` | onnxruntime/python/multi_soc/deploy_multi_soc_ep_context.py:257-276 | the requested names and their positions in the sorted list, or the first unknown name |
| `MultiSocContext.RequestedOne` | onnxruntime/python/multi_soc/deploy_multi_soc_ep_context.py:266-269 | white space around a requested name does not matter, and a blank piece requests nothing |
| `MultiSocContext.LastIndices` | onnxruntime/python/multi_soc/deploy_multi_soc_ep_context.py:261-276 | the indices are the positions of the requested names, the last one of a repeated record |
| `MultiSocContext.DropRecordsIs` | onnxruntime/python/multi_soc/deploy_multi_soc_ep_context.py:147-163 | the removals succeed exactly when the names are present and none is repeated, and leave the others in order |
| `MultiSocContext.KeptReadBack` | onnxruntime/python/multi_soc/deploy_multi_soc_ep_context.py:185-223 | the edited value reads back as the kept entries between the other fields as they were, and as one empty entry if none is kept |
| `MultiSocContext.AlignedExactlyWhenARecordSurvives` | onnxruntime/python/multi_soc/deploy_multi_soc_ep_context.py:171-229 | a successful run leaves records and entries aligned exactly when some record is not requested; then the lists hold the entries of the survivors and all else is unchanged |
| `MultiSocContext.OnlyRecordRemoved` | onnxruntime/python/multi_soc/deploy_multi_soc_ep_context.py:219-223 | an aligned model with a single record, whose removal succeeds and leaves it misaligned |
| `MultiSocContext.SurvivorsKeepTheirEntries` | onnxruntime/python/multi_soc/deploy_multi_soc_ep_context.py:257-276 | the record at each new sorted position has the entry it had before, in all three lists |
| `MultiSocContext.NumberedRecordLosesItsEntry` | onnxruntime/python/multi_soc/deploy_multi_soc_ep_context.py:98-223 | of records with consecutive numbers the removal of the k-th by number takes the k-th entry out of each of the three lists |
| `MultiSocContext.RemovalSucceedsExactly` | onnxruntime/python/multi_soc/deploy_multi_soc_ep_context.py:257-276 | on aligned artifacts a removal succeeds exactly when every requested name is a record and none is repeated |
| `MultiSocContext.RefusedFor` | onnxruntime/python/multi_soc/deploy_multi_soc_ep_context.py:147-276 | whatever the artifacts, each error has its cause: the first unknown name, a value without eight fields, of another version or with lists of unequal lengths, no entry for any requested record, or a name requested again |
| `MultiSocContext.OneRunSucceedsAsTwo` | onnxruntime/python/multi_soc/deploy_multi_soc_ep_context.py:349-360 | one run with both lists of names succeeds exactly when the two runs one after the other do |
| `MultiSocContext.WrittenIsAligned` | onnxruntime/python/multi_soc/deploy_multi_soc_ep_context.py:64-74 | a value written with one entry for each record in the three lists is aligned and reads back as these lists |
| `MultiSocContext.TwoRunsAreOne` | onnxruntime/python/multi_soc/deploy_multi_soc_ep_context.py:171-276 | two removals in two runs give the same records and metadata as both in one, if the first leaves some record unrequested |
| `Sorting.SortSorts` | onnxruntime/python/multi_soc/deploy_multi_soc_ep_context.py:104-104 | sorting gives an ordered permutation |
| `Sorting.FirstDifferenceDecides` | onnxruntime/python/multi_soc/deploy_multi_soc_ep_context.py:104-104 | strings are ordered by their first difference: the smaller character, or the end of one, comes first |
| `Sorting.SortFilter` | onnxruntime/python/multi_soc/deploy_multi_soc_ep_context.py:104-104 | sorting commutes with removing elements, ties included |
| `Sorting.SortIgnoresOrder` | tools/ci_build/op_registration_validator.py:97-97 | with no ties between different elements the sorted list does not depend on the order before |
| `Text.SplitUndoesJoin` | qcom/scripts/linux/accuracy_gate.py:381-381 | splitting undoes joining exactly for a non-empty list of parts without the separator |
| `AccuracyGate.TokenReplaced` | qcom/scripts/linux/accuracy_gate.py:52-52 | the first snapshot token of either kind becomes the accuracy token, and a name without one stays |
| `AccuracyGate.OtherSuitesByToken` | qcom/scripts/linux/accuracy_gate.py:182-196 | a suite name without the legacy prefix is paired by its first snapshot token |
| `AccuracyGate.PairedExactlyWithoutTier` | qcom/scripts/linux/accuracy_gate.py:182-194 | OpBuilder and Session suites are paired with the accuracy suite of their operator and variant exactly when the operator name holds no tier token |
| `AccuracyGate.TierInNameMispairs` | qcom/scripts/linux/accuracy_gate.py:191-193 | an operator whose name ends in a tier token, which is paired with another suite |
| `AccuracyGate.PassedIsProof` | qcom/scripts/linux/accuracy_gate.py:116-133 | a result counts as passed exactly when the test completed, ran and has no failures |
| `AccuracyGate.MergeResults` | qcom/scripts/linux/accuracy_gate.py:300-312 | in whatever order the results are visited, each accuracy case gets the worst status of those that derive to it |
| `AccuracyGate.ComputeRunSet` | qcom/scripts/linux/accuracy_gate.py:287-330 | run and skip sets part the cases in their order, each with exactly its reasons |
| `AccuracyGate.SkippedExactlyWhenProved` | qcom/scripts/linux/accuracy_gate.py:94-100 | no reason to run exactly when all versions are known and equal, some result derives to the case, and all that do completed without failures |
| `AccuracyGate.RunGate` | qcom/scripts/linux/accuracy_gate.py:353-358 | from end to end, the skipped cases are exactly those whose skipping is justified; at the suites, an accuracy case with results of its own OpBuilder and Session suites only is skipped exactly when the versions are known and equal and all of these, at least one, completed without failures |
| `AccuracyGate.SkippedByItsOwnSnapshots` | qcom/scripts/linux/accuracy_gate.py:300-328 | the decision at the suites for every operator without a tier token, from the results of the test of that name under its two snapshot suites |
| `AccuracyGate.ReasonsOfItsOwnSnapshots` | qcom/scripts/linux/accuracy_gate.py:312-325 | each of the four reasons is given exactly when it applies to these results and versions |
| `AccuracyGate.UnprovedSnapshotRuns` | qcom/scripts/linux/accuracy_gate.py:304-328 | a result with failures, not completed or not run, under either tier, puts the accuracy case of its name in the run set |
| `AccuracyGate.OtherNamesDoNotMatter` | qcom/scripts/linux/accuracy_gate.py:304-306 | a result for another test name changes nothing for a case |
| `AccuracyGate.FilterRoundTrip` | qcom/scripts/linux/accuracy_gate.py:378-381 | splitting the filter gives the names of the run set exactly when there are some and none has a colon |
| `AccuracyGate.FilterSelectsTheRunSet` | qcom/scripts/linux/accuracy_gate.py:340-381 | of the known cases the filter selects exactly those that may not be skipped, even when there are none |
| `FileCache.Validate` | qcom/scripts/all/package_manager.py:96-108 | no problem exactly when every expected digest agrees and an expected archive is one; otherwise the first problem |
| `FileCache.TrustedBySpec` | qcom/scripts/all/package_manager.py:145-158 | the specification built for a request accepts exactly the trusted bytes |
| `FileCache.SuffixExactly` | qcom/scripts/all/package_manager.py:157-157 | a name has the suffix from its last dot on, unless nothing stands before or after that dot |
| `FileCache.ArchiveExpectedExactly` | qcom/scripts/all/package_manager.py:156-157 | an archive is expected of every name with a suffix other than .exe, and of no other |
| `FileCache.HitExactly` | qcom/scripts/all/package_manager.py:145-172 | a cached file is used exactly when it has each digest that the request gives and, if its name demands one, is an archive |
| `FileCache.Cache.DownloadOnce` | qcom/scripts/all/package_manager.py:200-240 | a rejected body is purged, a failed or aborted write leaves what it wrote, a network error changes nothing; only the directory of the key is made |
| `FileCache.Cache.DownloadWithRetries` | qcom/scripts/all/package_manager.py:174-198 | attempts until one succeeds, one is aborted by another exception, or the allowed number is used up |
| `FileCache.Cache.FetchPath` | qcom/scripts/all/package_manager.py:130-172 | a valid hit is returned, anything else is discarded and downloaded |
| `FileCache.FetchOutcome` | qcom/scripts/all/package_manager.py:160-198 | a trusted file causes no download; else the attempts end with the first trusted body, which is cached and returned, with an abort, or after the allowed number, and then only what a failed write left is at the path |
| `FileCache.FetchSafe` | qcom/scripts/all/package_manager.py:130-198 | success exactly on a hit or a trusted body within the allowed attempts and before an abort; what is returned is trusted; no more attempts than allowed; no other file is touched |
| `FileCache.RunExplains` | qcom/scripts/all/package_manager.py:130-240 | after any run of fetches from any cache every file was there before, is trusted by a call for its path, or was left by a failed write |
| `FileCache.FetchedOnce` | qcom/scripts/all/package_manager.py:160-172 | once fetched, a file stays as it is and is never downloaded again as long as the same is asked for at its path |
| `FileCache.Cache.Prune` | qcom/scripts/all/package_manager.py:242-272 | the files of the cut are deleted, the rest's total is reported, and the directories left are those with files |
| `FileCache.Cache.RemoveEmptyDirectories` | qcom/scripts/all/package_manager.py:266-270 | exactly the directories with files stay |
| `FileCache.CutIsShortest` | qcom/scripts/all/package_manager.py:251-259 | the rest fits a non-negative limit, and with any shorter cut it would not |
| `FileCache.PruneKeepsTheRecent` | qcom/scripts/all/package_manager.py:242-264 | the deleted files are the shortest run of least recently used ones, and the others stay as they were |
| `ChunkedUpload.NextBatch` | qcom/scripts/all/qdc_runner.py:653-691 | the next at most four parts, and what is left of the file |
| `ChunkedUpload.AwaitBatch` | qcom/scripts/all/qdc_runner.py:693-700 | true exactly when every part of the batch got status 200 |
| `ChunkedUpload.Upload` | qcom/scripts/all/qdc_runner.py:639-700 | batches of one to four parts that are a first part of the parts of the file; normal return exactly if the parts 1 to n of the file all got status 200, and then all were submitted; otherwise the last batch is the first with a refused part |
| `ChunkedUpload.PartsConcatenate` | qcom/scripts/all/qdc_runner.py:656-691 | the parts concatenate to the file |
| `ChunkedUpload.PartAt` | qcom/scripts/all/qdc_runner.py:656-691 | part k has its number, its offset k times the chunk size, is not empty, and is short only at the end |
| `ChunkedUpload.PartsCount` | qcom/scripts/all/qdc_runner.py:656-691 | there are as many parts as chunks are needed for the file |
| `ChunkedUpload.UploadReassembles` | qcom/scripts/all/qdc_runner.py:653-691 | in whatever order the parts arrive, repeated or not, writing each at its offset gives exactly the file |
| `CosineSimilarity.CosineIs` | qcom/model_test/accuracy_metrics.py:29-40 | with non-zero norms the score is the dot product of the unit vectors |
| `CosineSimilarity.CosineIsQuotient` | qcom/model_test/accuracy_metrics.py:21-40 | normalising first does not change the quotient: the score times both norms is the dot product |
| `CosineSimilarity.NonFiniteCountsAsZero` | qcom/model_test/accuracy_metrics.py:18-19 | a NaN or an infinity counts as a zero, in either tensor |
| `CosineSimilarity.SimilarityRange` | qcom/model_test/accuracy_metrics.py:8-45 | defined exactly for equal sizes, symmetric, between -1 and 1 |
| `CosineSimilarity.CosineScaled` | qcom/model_test/accuracy_metrics.py:21-40 | a positive factor changes nothing, a negative one the sign |
| `CosineSimilarity.SimilarityScaled` | qcom/model_test/accuracy_metrics.py:8-45 | the same for every finite tensor |
| `CosineSimilarity.OneExactlyForMultiples` | qcom/model_test/accuracy_metrics.py:21-40 | the score is 1 exactly when one cleaned tensor is a positive multiple of the other and not zero |
| `InstrumentationLog.Parse` | qcom/scripts/all/instrumentation_to_junit_xml.py:86-146 | the loop over the lines keeps cases, fields and active key as the function says |
| `InstrumentationLog.ParsedByBlocks` | qcom/scripts/all/instrumentation_to_junit_xml.py:86-122 | reading line by line gives exactly the cases of the blocks between status-code lines |
| `InstrumentationLog.CasesAppend` | qcom/scripts/all/instrumentation_to_junit_xml.py:93-99 | what stands before a status-code line has no influence on what follows it |
| `InstrumentationLog.OneCasePerCode` | qcom/scripts/all/instrumentation_to_junit_xml.py:125-146 | one case for each status-code line other than a start |
| `InstrumentationLog.KvLineRead` | qcom/scripts/all/instrumentation_to_junit_xml.py:43-43 | a status line gives back its key and its value |
| `InstrumentationLog.CodeLineRead` | qcom/scripts/all/instrumentation_to_junit_xml.py:44-44 | a status-code line gives back its number, negative ones included |
| `InstrumentationLog.StatusLinesExactly` | qcom/scripts/all/instrumentation_to_junit_xml.py:43-43 | a line gives a key and a value exactly when it is the prefix, white space, the key, an equals sign and the value |
| `InstrumentationLog.CodeLinesExactly` | qcom/scripts/all/instrumentation_to_junit_xml.py:44-44 | a line gives a code exactly when it is the prefix and, amid white space, an optional minus sign and digits |
| `InstrumentationLog.LogReadsBack` | qcom/scripts/all/instrumentation_to_junit_xml.py:86-146 | a log with start and end records of any tests, stacks over several lines included, gives back these tests in order, whatever follows without a status code |
| `InstrumentationLog.UnknownCodeIsError` | qcom/scripts/all/instrumentation_to_junit_xml.py:141-145 | a block with any other code is an error, which names the code unless there is a stack |
| `InstrumentationLog.NamelessBlock` | qcom/scripts/all/instrumentation_to_junit_xml.py:128-134 | a block without class, test and stack, or with blank ones, is a test under the default names and without a stack |
| `InstrumentationLog.StackIsStripped` | qcom/scripts/all/instrumentation_to_junit_xml.py:131-133 | white space around a stack is not part of it, and a blank stack is none |
| `InstrumentationLog.SummaryEndsTheField` | qcom/scripts/all/instrumentation_to_junit_xml.py:101-105 | plain text after a line of the trailing summary belongs to no field |
| `InstrumentationLog.EmptyValueContinues` | qcom/scripts/all/instrumentation_to_junit_xml.py:114-120 | a value that starts on the line after its key has no line break before it |
| `InstrumentationLog.CountsAddUp` | qcom/scripts/all/instrumentation_to_junit_xml.py:149-153 | the cases are the passed, failed, errored and skipped ones |
| `ProfilingCsv.SuffixStripped` | qcom/tools/op_trace_matcher/enrich_profiling_csv.py:112-118 | the operator name is recovered from an identifier with any suffix, and from one without |
| `ProfilingCsv.CellLists` | qcom/tools/op_trace_matcher/enrich_profiling_csv.py:121-134 | a cell is empty exactly when no source is a named operator; when no name has a semicolon it splits into exactly the names of these, each as often and in the order of the sources |
| `ProfilingCsv.CellNames` | qcom/tools/op_trace_matcher/enrich_profiling_csv.py:121-160 | the cell of an operator lists the sources of the last mapping that gives some for it, and is empty without one |
| `ProfilingCsv.LookupIsLast` | qcom/tools/op_trace_matcher/enrich_profiling_csv.py:147-160 | each operator is looked up to the last non-empty chain given for it |
| `ProfilingCsv.BuildLookups` | qcom/tools/op_trace_matcher/enrich_profiling_csv.py:137-160 | the loop over the mappings builds both lookups |
| `ProfilingCsv.ScanSourceColumn` | qcom/tools/op_trace_matcher/enrich_profiling_csv.py:217-227 | whether a node row has content in the source column |
| `ProfilingCsv.WriteRow` | qcom/tools/op_trace_matcher/enrich_profiling_csv.py:270-307 | one output row and what it adds to the counts |
| `ProfilingCsv.WriteRows` | qcom/tools/op_trace_matcher/enrich_profiling_csv.py:266-309 | the output rows in order and the counts |
| `ProfilingCsv.Enrich` | qcom/tools/op_trace_matcher/enrich_profiling_csv.py:163-309 | refusal, copy or enriched table in the order of the checks, with all the statistics; the new and the filled cells of a row as wide as its header name what the last mapping of its operator gives |
| `ProfilingCsv.NewCellPlaced` | qcom/tools/op_trace_matcher/enrich_profiling_csv.py:290-307 | the new cell stands in its column, and the output row is as wide as the output header, exactly when the input row, padded where a column is filled, was as wide as its header |
| `ProfilingCsv.ShortRowMisplaced` | qcom/tools/op_trace_matcher/enrich_profiling_csv.py:299-301 | a row that is too short, whose sources end up under another column |
| `ProfilingCsv.RowByName` | qcom/tools/op_trace_matcher/enrich_profiling_csv.py:256-307 | by column name: old cells kept, an empty source column filled on node rows, the new columns with the cell of the operator, whose content CellNames states |
| `ProfilingCsv.EnrichedCellsName` | qcom/tools/op_trace_matcher/enrich_profiling_csv.py:256-307 | in the enriched table each new cell, under its column, lists what the last mapping of the row's operator gives; a row without an identifier names nothing |
| `ProfilingCsv.OutcomeExactly` | qcom/tools/op_trace_matcher/enrich_profiling_csv.py:191-254 | which table is refused, copied or enriched, and when the source column is added or filled, from the header and the rows |
| `ProfilingCsv.CountsAreRows` | qcom/tools/op_trace_matcher/enrich_profiling_csv.py:270-303 | each statistic is the number of the rows that it is said to count: with an identifier, with new original sources, with new sources, with an operator that no mapping resolves |
| `ProfilingCsv.EnrichmentKeeps` | qcom/tools/op_trace_matcher/enrich_profiling_csv.py:204-309 | rows keep number and order, no cell with content is lost or changed, only the source column changes at all, and a rectangular table stays rectangular |
| `ProfilingCsv.EnrichedOnlyOnce` | qcom/tools/op_trace_matcher/enrich_profiling_csv.py:229-254 | an enriched table is refused, a copied one is copied again |
| `OrtVersion.ReadsVersion` | onnxruntime/core/providers/qnn/ort_api_version_parser.h:17-36 | every version string with a major part that denotes 1 and a 32-bit minor part gives its minor number |
| `OrtVersion.OnlyVersionsCount` | onnxruntime/core/providers/qnn/ort_api_version_parser.h:17-36 | every other string gives 0 |
| `OrtVersion.VersionRoundTrip` | onnxruntime/core/providers/qnn/ort_api_version_parser.h:17-36 | "1." with any 32-bit number in decimal and any suffix that does not go on with a digit gives the number |

## Left out

- Floating-point rounding and integer overflow of the trace sums, because the model is over exact reals and integers.
- RegistrationPrinting.PrintedIsRecovered: an argument is trimmed, not empty, without comma or macro name, and does not end a line with a mark by itself, because the parser cannot read other arguments back.
- ReleasePublication.CompleteRunsPublish: is about schedules without faults, because a fault may stop a job; FailsExactlyByOwnTurn says which.
- RegistrationValidator.Validator.ProcessRegistration: does not keep the source lines of a registration, which only the error messages use.
- MultiSocContext.DropRecordsIs: assumes that the updater removes the named record only, not orphaned child records, because the updater's code is not part of this model.
- MultiSocContext.TwoRunsAreOne: needs a record that survives the first run, because without one the first run leaves an empty entry; which error a failing run reports may differ between one run and two.
- AccuracyGate.FilterSelectsTheRunSet: names without colons, suites without dots and no case named like the sentinel, because a filter cannot tell others apart; gtest wildcards are not modelled.
- InstrumentationLog.LogReadsBack: stack lines after the first do not look like instrumentation lines, because the reader takes those as such.
- Reading the JSON report, the manifest and the list of accuracy cases (accuracy_gate.py:136-277), and the summary text.
- The messages of errors and logs.
- Line breaks inside a suite name, which the patterns of the gate treat specially.
- Cache keys that are paths of several parts, and files that stand directly in the cache directory.
- Embedding of the FCB in the context model and its reference by file name (deploy_multi_soc_ep_context.py:232-430).
- The generation of the Abseil dependency graph from CMake files, and the warning for unknown libraries.
- The XML elements of the JUnit report and the failure message, and the byte-level encoding of CSV files.
- The rest of qnn_ep_uplevel.py, the build drivers, the samples and the ETW decoding, which are calls into foreign tools.
- The execution provider itself: its graph partitioner and op builders are not part of this model.
