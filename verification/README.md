# tally core, modelled in Dafny

This project models the core of tally, a C++ metrics library. Programs
expose named variables such as counters, gauges, histograms and latency
recorders under scopes. A background sampler keeps time series of them, and
reporters write them out, for example in the Prometheus text format. The
model covers these parts of the library:

- **AverageGauge** (`average_gauge.dfy`): the 64-bit per-thread slot of
  `IntRecorder`, which packs a 20-bit count and a 44-bit two's-complement
  sum. It covers how the slot is flushed into the global `Stat` before
  either field overflows, and the average read from a `Stat`.
- **Reducer** (`reducer.dfy`, `combiner.dfy`): a reducer's value is the
  identity folded with its operator over every thread's agent. The model
  includes `AddTo`, `MinusFrom`, `MaxTo` and `MinTo`, and `reset` and
  `expose` as seen from outside.
- **Sampler collector** (`sampler.dfy`): combining scheduled samplers, and
  one collection cycle that splices the pending list, deletes unused
  samplers and samples the rest. It also covers the busy counter.
- **Names and scopes** (`normalize_name.dfy`, `scope.dfy`): the
  `to_underscored_name` transformation, scope ids, sub-scopes and tag
  merging, `parse_tags`, the scope registry and `ScopeBuilder`.
- **Variables** (`variable_type.dfy`, `variable.dfy`): the `VariableType`
  bit set and attribute factories, and the sharded registry of exposed
  variables with `expose`, `hide`, listing and describing.
- **Reporters** (`reporter_registry.dfy`, `report_options.dfy`,
  `wildcard.dfy`, `prometheus.dfy`): the reporter registry, the
  `WildcardMatcher` white and black filters with `wild_cmp`, the report
  options, and the Prometheus serialiser for counters, gauges and
  histograms.
- **Histograms** (`buckets.dfy`, `histogram.dfy`): linear and exponential
  bucket bounds, their iterator, the bucket layout, and `record`.
- **Utilities**: `TaskTimer` (`task_timer.dfy`), the latency-percentile flag
  validators (`config.dfy`), `sigar_signum_get` (`signal.dfy`), and the
  naming, scaling, QPS and CDF logic of `LatencyRecorder`
  (`latency_recorder.dfy`). `numeric.dfy`, `strings.dfy`, `doubles.dfy` and
  `wrappers.dfy` hold the machine integers, string helpers, doubles and
  `Option`/`Result` types that the rest share.

Where the comments and the code disagree, the model follows the code:

- `sub_cope_impl` keeps the parent's tag on a key clash (tally/scope.cc:116-128),
  although the comments at tally/scope.cc:121 and tally/scope.h:33-35 say the
  new tags win.
- `empty_attr()` yields the gauge type (tally/variable.h:239-241).
- The `uint64_t` overloads of `run_after` and `run_every` take microseconds,
  despite their `_ms` names (tally/utility/task_timer.h:115-125).

Machine integers are unbounded Dafny integers. The 44-bit and 20-bit slot
fields, the signed-to-unsigned conversion and division of the latency
scaling, the `int` clamp of `AverageGauge`, and C++ division truncated toward
zero are written out; the 64-bit sums and counts that the source lets grow
unchecked are not (see "Left out"). Doubles
are reals, plus the NaN and infinity values where the source tells them
apart. Time is in microseconds.

## Model

| member | source | states |
|---|---|---|
| AverageGauge.MinusUndoesAdd | tally/gauge.h:382-398 | Stat subtraction undoes Stat addition and the other way round; both act componentwise on (sum, num) |
| AverageGauge.AddStatIsMonoid | tally/gauge.h:426-432 | AddStat with the empty Stat is associative, commutative and has the empty Stat as identity, which the combiner's fold needs |
| AverageGauge.GetAverageInt | tally/gauge.h:365-372 | 0 when num is 0; otherwise a quotient whose remainder is smaller than num in magnitude and is 0 or has the sign of sum, i.e. division truncated toward zero |
| AverageGauge.GetSum | tally/gauge.h:522-524 | the sum field is within the low 44 bits |
| AverageGauge.GetNum | tally/gauge.h:526-528 | the count field is at most 2^20 - 1 |
| AverageGauge.ExtendSignBit | tally/gauge.h:530-538 | the result is an int64_t, and a 44-bit field reads as a value in [-2^43, 2^43) |
| AverageGauge.ExtendSmall | tally/gauge.h:530-538 | a field below 2^43 reads as itself; from 2^43 on it reads as the field minus 2^44 |
| AverageGauge.GetComplement | tally/gauge.h:540-543 | the complement lies in the low 44 bits |
| AverageGauge.ComplementIsMod | tally/gauge.h:540-543 | the complement of a is a modulo 2^44 (two's complement masking) |
| AverageGauge.SignExtensionRoundTrip | tally/gauge.h:530-543 | every a in [-2^43, 2^43) survives complement then sign extension |
| AverageGauge.Compress | tally/gauge.h:545-551 | the packed slot is a uint64_t |
| AverageGauge.CompressRoundTrip | tally/gauge.h:545-551 | a count up to 2^20 - 1 and a sum below 2^44 are recovered by the count and sum getters |
| AverageGauge.CompressWraps | tally/gauge.h:545-551 | a sum wider than 44 bits is packed as its low 44 bits, the count unchanged |
| AverageGauge.WillOverflowExact | tally/gauge.h:553-570 | for a 44-bit signed lhs and an int rhs the test holds iff lhs + rhs leaves [-2^43, 2^43) |
| AverageGauge.AddComplement | tally/gauge.h:608-625 | adding the sample's complement to the sum field, modulo 2^44, adds the sample to the field's signed value when that stays in range |
| AverageGauge.Decode | tally/gauge.h:440-445 | a slot stands for a sum in [-2^43, 2^43) and a count up to 2^20 - 1 |
| AverageGauge.AddToStat | tally/gauge.h:440-445 | a slot raises the count by at most the 20-bit limit and moves the sum by less than 2^43 either way |
| AverageGauge.AddToStatPacked | tally/gauge.h:440-445 | a slot packed from a count and the complement of a 44-bit signed sum adds exactly that count and that sum to the Stat |
| AverageGauge.DecodeZero | tally/gauge.h:440-445 | a zero slot adds the empty Stat |
| AverageGauge.Clamp | tally/gauge.h:579-587 | samples inside int are kept; above it become INT_MAX, below it INT_MIN |
| AverageGauge.SlotStepAccounts | tally/gauge.h:606-625 | one step of the slot, with or without a flush, keeps committed Stat plus decoded slot equal to the old pair plus (sample, 1) |
| AverageGauge.AppendSlot | tally/gauge.h:611-625 | without a flush the new slot decodes to the old slot plus (sample, 1) |
| AverageGauge.RestartSlot | tally/gauge.h:614-625 | after a flush the slot decodes to exactly (sample, 1) |
| AverageGauge.Append | tally/gauge.h:578-627 | the slots stay 64-bit, the calling thread gains a slot if it had none, and every other thread's slot is unchanged |
| AverageGauge.AppendAccounts | tally/gauge.h:578-627 | one sample adds exactly (clamped sample, 1) to the recorder's value, whatever the flushes |
| AverageGauge.FeedAccounts | tally/gauge.h:578-627 | after any log of samples on any threads the value is the start plus (sum of clamped samples, number of samples) |
| AverageGauge.ConstantLog | tally/gauge.h:578-627 | k samples of v on one thread read back as (k times clamped v, k) |
| AverageGauge.ClampedHighAverage | tests/recorder_test.cc:45-52 | five INT64_MAX samples average to INT_MAX |
| AverageGauge.ClampedLowAverage | tests/recorder_test.cc:80-87 | five INT64_MIN samples average to INT_MIN |
| AverageGauge.PositiveAverage | tests/gauge_test.cc:105-115 | a hundred samples of 2 average to 2 |
| AverageGauge.NegativeAverage | tests/gauge_test.cc:149-156 | three samples of -2 average to -2 |
| Combiner.FoldRemove | tally/impl/reducer.h:34-39 | for an associative, commutative operator with identity, any one agent may be folded in last: the fold over all agents is the fold over the others combined with it |
| Combiner.FoldUpdate | tally/impl/reducer.h:34-39 | overwriting one agent changes the fold only in that agent's contribution |
| Combiner.FoldAbsent | tally/impl/reducer.h:34-39 | an agent that does not exist contributes nothing |
| Combiner.FoldOfIdentities | tally/impl/reducer.h:91-92 | when every agent holds the identity, the fold is the identity |
| Combiner.FoldSeqRemove | tally/impl/reducer.h:34-39 | any element of a sequence may be folded in last without changing the result |
| Combiner.FoldSeqPermutation | tally/impl/reducer.h:34-39 | folding a permutation of a sequence gives the same value |
| Reducer.MinusFromInvertsAddTo | tally/impl/reducer.h:210-220 | MinusFrom undoes AddTo and AddTo undoes MinusFrom |
| Reducer.MaxTo | tally/impl/reducer.h:226-235 | the result is at least both operands, is one of them, and differs from lhs only when lhs < rhs |
| Reducer.MinTo | tally/impl/reducer.h:245-253 | the result is at most both operands, is one of them, and differs from lhs only when rhs < lhs |
| Reducer.FunctorsAreMonoids | tally/impl/reducer.h:91-92 | AddTo with 0, MaxTo with INT_MIN and MinTo with INT_MAX are each associative and commutative with that identity |
| Reducer.Fresh | tally/impl/reducer.h:92-96 | a new reducer has no agents and no samplers |
| Reducer.FreshValue | tally/impl/reducer.h:92-96 | a reducer nobody has fed reads as its identity |
| Reducer.Push | tally/impl/reducer.h:190-201 | the value is folded into the calling thread's agent (created from the identity if absent), no other agent changes, and nothing else about the reducer changes |
| Reducer.PushFolds | tally/impl/reducer.h:118-124 | after one push the reduced value is the old value combined with the pushed one, whichever thread pushed it |
| Reducer.PushAllFolds | tally/impl/reducer.h:118-124 | after a log of pushes the value is the old value folded with the log's values in log order, whatever the threads |
| Reducer.IndependentOfThreadsAndOrder | tally/impl/reducer.h:34-39 | two logs holding the same multiset of values give the same reduced value, whatever the threads and the order |
| Reducer.Reset | tally/impl/reducer.h:130-132 | reset, which has no check and so is allowed on every reducer, returns the fold of the agents before the call, sets every agent back to the identity, keeps the agents and everything else, and the agents then fold to the identity |
| Reducer.ResetReturnsValue | tally/impl/reducer.h:118-132 | where `get_value` is allowed, reset returns what it would have read, and afterwards it reads the identity |
| Reducer.ExposeSeries | tally/impl/reducer.h:169-181 | a series sampler is created iff the expose succeeded, none exists yet, the inverse operator is not VoidOp, T is not std::string and series saving is on; nothing else changes |
| Reducer.SeriesSamplerCreatedOnce | tally/impl/reducer.h:172-178 | two exposes never both create a series sampler |
| Reducer.Counter | tally/counter.h:29-35 | a Counter's operator is a commutative monoid and its inverse operator undoes it |
| Reducer.MaxerGauge | tally/gauge.h:126-132 | MaxerGauge<int> has identity INT_MIN, which is below every value and neutral for MaxTo, and no inverse |
| Reducer.MinerGauge | tally/gauge.h:159-165 | MinerGauge<int> has identity INT_MAX, which is above every value and neutral for MinTo, and no inverse |
| Reducer.CounterExample | tests/reducer_test.cc:58-59 | a Counter<int> fed -9, 1, 0, 3 reads -5 |
| Reducer.MinerExample | tests/reducer_test.cc:148-159 | a MinerGauge<int> fed 10, 20, -5, INT_MAX, 0, INT_MIN reads INT_MIN |
| Reducer.MaxerExample | tests/reducer_test.cc:173-183 | a MaxerGauge<int> fed 20, 10, 30, 0, INT_MAX reads INT_MAX |
| Sampler.CombineSampler | tally/impl/sampler.cc:29-41 | a missing right list leaves the left one; a missing left list becomes the right one; otherwise the result is the left list followed by the right list, nothing added or lost |
| Sampler.CombineSamplerAssociative | tally/impl/sampler.cc:29-41 | splicing is associative and the empty list is its identity on both sides, as the collector's reducer needs of its operator |
| Sampler.CombineExample | tests/sampler_test.cc:24-48 | splicing n3, n4 after n1, n2 gives the list n1, n2, n3, n4 |
| Sampler.Schedule | tally/impl/sampler.cc:175-181 | with sampling disabled nothing changes; otherwise only the pending list changes, gaining the sampler at its end |
| Sampler.ScheduleValid | tally/impl/sampler.cc:175-181 | scheduling a live sampler that is not yet linked keeps every sampler linked at most once |
| Sampler.Destroy | tally/impl/sampler.cc:183-187 | only the sampler's used flag is cleared: it stays allocated and linked, its sample count and every other sampler are unchanged |
| Sampler.KeepUsed | tally/impl/sampler.cc:135-149 | the kept samplers are exactly the used ones of the list, and distinct when the list was |
| Sampler.NextBusy | tally/impl/sampler.cc:150-167 | the busy counter stays in {0, 1}: a cycle that slept resets it without warning; one that did not increments it and warns, resetting it, exactly when it reaches 2 |
| Sampler.VisitList | tally/impl/sampler.cc:135-149 | one walk keeps the used samplers in order, deletes exactly the unused ones of the list, samples each used one once, and leaves samplers off the list alone |
| Sampler.RunCycle | tally/impl/sampler.cc:124-168 | one wake-up drains the pending list after the existing list, keeps exactly the still-used samplers in their prior order, deletes the unused ones, samples each used one once, and updates the busy counter, keeping every sampler linked at most once |
| Sampler.DestroyThenCycle | tests/sampler_test.cc:84-88 | a sampler destroyed before a cycle is unlinked and deleted by it, and every other used sampler survives |
| Sampler.ScheduleThenCycle | tests/sampler_test.cc:71-82 | a new sampler scheduled before a cycle is linked and sampled exactly once by it |
| NormalizeName.StepSpec | tally/utility/normalize_name.cc:23-38 | one source character keeps the output as a prefix, appends only lower-case letters, digits and '_', creates no "__", appends a letter or digit lowered, and puts '_' before an upper-case letter exactly when it is not the first character, follows a character that is not upper case, and the output does not already end in '_' |
| NormalizeName.GoKeeps | tally/utility/normalize_name.cc:23-39 | the whole loop keeps the output as a prefix, appends only name characters and creates no "__" |
| NormalizeName.ToUnderscoredName | tally/utility/normalize_name.cc:21-40 | the earlier contents of the output are kept as a prefix, every appended character is a lower-case letter, a digit or '_', and no "__" appears that was not already there |
| NormalizeName.Idempotent | tally/utility/normalize_name.cc:23-38 | normalising an already normalised name into an empty output returns it unchanged |
| NormalizeName.ResultIsNormalized | tally/utility/normalize_name.cc:23-38 | the normalised form of any name is itself normalised, so normalising twice is normalising once |
| NormalizeName.GoIdentity | tally/utility/normalize_name.cc:23-38 | on an already normalised prefix of a normalised name, the loop reproduces the rest of the name |
| NormalizeName.Shift | tally/utility/normalize_name.cc:24-37 | past the first character the loop looks back only one source character, so dropping an earlier part of the source does not change the rest |
| NormalizeName.Compose | tally/utility/normalize_name.cc:23-38 | normalising a + b is normalising a and then continuing over b with the last character of a as context |
| NormalizeName.ExampleInlHeader | tally/utility/normalize_name.h:28 | foo-inl.h becomes foo_inl_h |
| NormalizeName.ExampleNamespaces | tally/utility/normalize_name.h:29 | foo::bar::Apple becomes foo_bar_apple |
| NormalizeName.ExampleUnderscore | tally/utility/normalize_name.h:30 | Car_Rot becomes car_rot |
| NormalizeName.ExampleCamelCase | tally/utility/normalize_name.h:31 | FooBar becomes foo_bar |
| NormalizeName.ExampleAcronym | tally/utility/normalize_name.h:32 | RPCTest becomes rpctest |
| NormalizeName.ExampleAllCaps | tally/utility/normalize_name.h:33 | HELLO becomes hello |
| Scope.SortedKeys | tally/scope.cc:47-53 | the tag keys in strictly ascending order, each exactly once |
| Scope.ScopeId | tally/scope.cc:44-74 | the prefix alone when there are no tags; otherwise the prefix followed by '+' and the pairs |
| Scope.ParseIdRoundTrip | tally/scope.cc:44-74 | when the prefix has no '+' and keys and values avoid '+', ',' and '=', the id can be read back into exactly the prefix and the tag map, so it does not depend on the map's iteration order |
| Scope.ScopeIdInjective | tally/scope.cc:44-74 | two scopes with such plain parts get the same id only when their prefixes and tags are equal |
| Scope.FullyQualifiedName | tally/scope.cc:31-42 | the name itself under an empty prefix; otherwise prefix, then separator, then the name |
| Scope.Merge | tally/scope.cc:116-128 | every key of parent or added tags; a parent key keeps the parent's value and only keys new to the parent take the added value |
| Scope.ParseTagsRoundTrip | tally/scope.cc:146-157 | text "k1:v1;k2:v2…" with non-empty keys and values free of ';' and ':' parses to the map of those pairs, a later duplicate key winning |
| Scope.IgnoresMalformedSegment | tally/scope.cc:150-153 | a segment that does not split into exactly two non-empty pieces changes nothing |
| Scope.EmptyTagText | tally/scope.cc:146-157 | empty tag text parses to no tags |
| Scope.NewBuilder | tally/scope_builder.cc:31-34 | a new builder has an empty prefix, no tags and the separator flag's value |
| Scope.WithTags | tally/scope_builder.cc:47-54 | the builder's tags become exactly the given map; prefix and separator stay |
| Scope.WithTag | tally/scope_builder.cc:56-59 | one key is set or overwritten and every other tag, the prefix and the separator stay |
| Scope.TagsReplaceEarlierTag | tally/scope_builder.cc:47-59 | setting a whole map after a single tag drops that tag when the map lacks its key |
| Scope.BuildOnly | tally/scope_builder.cc:80-90 | no scope iff the prefix is empty; otherwise a scope whose prefix is the normalised prefix, whose id is made from that and the tags, with the builder's tags and separator |
| Scope.GetScopeById | tally/scope.cc:195-209 | found iff the id is a default scope's id or registered; the root wins over a registered entry with its id; a found scope carries the id asked for |
| Scope.HasScope | tally/scope.cc:224-234 | true exactly when looking the id up finds a scope |
| Scope.AddScope | tally/scope.cc:258-266 | a known id keeps and returns the first scope registered under it; a new id registers and returns the given scope; the default scopes do not change |
| Scope.ListScopes | tally/scope.cc:159-175 | as many scopes as scope_size says, every registered scope among them, and the root, sys and flag scopes last unless excluded |
| Scope.Build | tally/scope_builder.cc:61-78 | no scope for an empty prefix; otherwise a scope already known under the id (default or registered) is returned with nothing changed, else the new scope is registered under its id and returned |
| Scope.BuildIdempotent | tally/scope_builder.cc:61-78 | building the same builder twice returns the same scope and changes nothing the second time |
| Scope.BuildThenGet | tally/scope.cc:177-193 | after a build, looking up the normalised prefix with the tags finds the built scope |
| Scope.BuildSize | tally/scope.cc:211-222 | a build adds one to scope_size exactly when its id was not known before |
| Scope.SubScopeImpl | tally/scope.cc:116-144 | the scope has the given prefix, normalised, and the merged tags; without add_to_instance nothing is registered |
| Scope.SubScopeTwice | tests/scope_test.cc:34-40 | asking twice for the same sub-scope returns the same scope and registers nothing more |
| Scope.TaggedTwice | tests/scope_test.cc:70-74 | asking twice for the same tagged scope returns the same scope |
| Scope.Init | tally/scope.cc:244-256 | the root scope comes from the root flags, and none of the three default scopes is registered |
| Scope.InitIds | tally/scope.cc:244-256 | with untagged flags and normalised names, the ids are the root name and the root name joined by the separator with the sys and the flag name |
| Scope.DefaultIds | tally/config.cc:46-56 | the default flags give the ids "km", "km_sys" and "km_flag" |
| Scope.FirstBuildListsFour | tests/scope_test.cc:27-33 | building scope "t" on a fresh instance lists four scopes, and one without the defaults |
| VariableType.ConstantValues | tally/variable.h:43-63 | the masks have the header's values: 1, 2, 4, 8, 7 for kMetric, 2^26 to 2^30, and 0 for kEmpty |
| VariableType.ValueIsUint32 | tally/variable.h:190 | every mask fits in 32 bits |
| VariableType.ValueOfSingle | tally/variable.h:43-61 | a mask with only bit b set is 1 << b |
| VariableType.ValueOfDisjointUnion | tally/variable.h:51 | OR of masks without common bits is their sum, as kMetric is built |
| VariableType.ValueZero | tally/variable.h:105-147 | a mask is zero exactly when no bit is set, so converting `type & mask` to bool tests for a common bit |
| VariableType.IsEmptyNever | tally/variable.h:63-107 | is_empty never holds, because kEmpty is 0 |
| VariableType.MetricIsAnyOfThree | tally/variable.h:51-127 | is_metric holds exactly when the counter, gauge or histogram bit is set |
| VariableType.KindsAreExclusive | tally/variable.h:109-147 | each is_X test on a single-kind type holds exactly for its own kind |
| VariableType.HasSingleton | tally/variable.h:109-147 | testing a one-bit mask is testing that bit |
| VariableType.OrAssign | tally/variable.h:177-180 | `|=` leaves exactly the bits of either operand |
| VariableType.AndAssign | tally/variable.h:158-161 | `&=` leaves exactly the bits of both operands |
| VariableType.OrAssignKinds | tally/variable.h:177-180 | after `t |= v` each kind test holds iff it held for t or for v |
| VariableType.AndAssignKinds | tally/variable.h:158-161 | after `t &= v` each kind test holds iff it held for both |
| VariableType.OrTest | tally/variable.h:173-175 | `operator|` returns a bool: true iff either mask is non-zero |
| VariableType.AndTest | tally/variable.h:150-152 | `operator&` returns a bool: true iff the masks share a bit |
| VariableType.FilterBits | tally/variable.h:194-198 | display filters are 1, 2 or 3, and 3 is exactly DISPLAY_ON_ALL |
| VariableType.MakeAttr | tally/variable.h:202-241 | every factory gives a one-bit type and the filter it is passed; empty_attr gives the gauge type, for which is_empty does not hold |
| VariableType.FactoriesDefaultToAll | tally/variable.h:202-241 | a factory called without a filter shows the variable everywhere (filter value 3) |
| Variable.SignedChar | tally/variable.cc:46-47 | a character enters the hash as the signed `char` it is: its low byte, sign-extended into [-128, 128) |
| Variable.HashAgrees | tally/variable.cc:45-49 | folding `h * 5 + c` in wrapping 64-bit arithmetic and then keeping five bits gives the same result as folding modulo 32 throughout |
| Variable.SubMapIndexIsHashMod32 | tally/variable.cc:41-50 | `sub_map_index` is the hash modulo 32, so only the low five bits of each step matter and the empty name falls in map 0 |
| Variable.SubMapIndex | tally/variable.cc:28-50 | the index always selects one of the 32 maps |
| Variable.FlatAt | tally/variable.cc:28-50 | a name is registered exactly when it is in the map its index selects, with the same variable |
| Variable.FindIsFlatLookup | tally/variable.cc:109-113 | looking a name up in its selected map is looking it up in the registry as a whole |
| Variable.InsertIsFlatInsert | tally/variable.cc:109-113 | inserting into the selected map inserts into the whole registry and keeps every name in its own map |
| Variable.EraseIsFlatErase | tally/variable.cc:62-66 | erasing from the selected map erases from the whole registry |
| Variable.SizeIsFlatSize | tally/variable.cc:192-208 | summing the sizes of the 32 maps counts the registry, since no name is in two maps |
| Variable.Reset | tally/variable.cc:89-97 | `reset` clears name, full name, help, scope and the exposed flag and keeps the attribute |
| Variable.Construct | tally/variable.h:339 | a new variable is registered nowhere and carries the attribute it was built with; the registry stays valid |
| Variable.Hide | tally/variable.cc:58-69 | an unexposed variable is left alone and `hide` answers false; an exposed one is reset; no other variable changes |
| Variable.HideSpec | tally/variable.cc:58-69 | on a valid registry `hide` removes exactly the variable's own entry, answers true exactly when it was exposed, and keeps the registry valid |
| Variable.Register | tally/variable.cc:106-129 | registering either succeeds with help, scope and exposed set, or fails with AlreadyExists, leaving the maps alone and the variable reset |
| Variable.RegisterSpec | tally/variable.cc:106-129 | registration succeeds exactly when the full name is free; success adds that one entry, failure leaves the registry as it was and the name with its owner |
| Variable.ExposeImpl | tally/variable.cc:99-130 | an empty name fails with InvalidArgument before anything changes; any other name ends in Ok or AlreadyExists and touches no other variable |
| Variable.ExposeSpec | tally/variable.cc:99-130 | on a valid registry exposing succeeds exactly when the full name is free once the variable's old entry is gone; success leaves the registry with that one new entry, failure leaves it without the old one |
| Variable.Expose | tally/variable.cc:139-144 | a missing scope means the default scope; the empty name still fails first |
| Variable.ReExposeMoves | tests/variable_test.cc:61-85 | exposing an exposed variable under a second name releases the first full name and takes the second |
| Variable.DuplicateLeavesRegistry | tally/variable.cc:113-125 | a second variable exposed under a taken name fails with AlreadyExists, leaves the registry unchanged and stays unexposed |
| Variable.ListExposedSpec | tally/variable.cc:178-208 | `list_exposed` names each registered variable the filter accepts exactly once, and nothing else; `count_exposed` is its length |
| Variable.CountExposedIsRegistrySize | tally/variable.cc:192-208 | without a filter `count_exposed` is the number of registered names |
| Variable.DescribeExposed | tally/variable.cc:210-221 | describing can only fail with NotFound |
| Variable.DescribeSpec | tally/variable.cc:210-230 | a registered name is described by its own variable; an unknown one gives NotFound, or the empty string from the string form |
| ReporterRegistry.Register | tally/reporter.cc:28-41 | a nameless reporter is refused with DataLoss and a taken name with AlreadyExists, the registry unchanged; otherwise exactly the new name is added and every earlier entry kept |
| ReporterRegistry.Has | tally/reporter.cc:43-51 | the empty name is never present; on a registry without it, `has_reporter` is membership |
| ReporterRegistry.Remove | tally/reporter.cc:53-64 | the name is gone afterwards, every other entry is kept and nothing is added; the empty name changes nothing |
| ReporterRegistry.Get | tally/reporter.cc:66-77 | a found reporter is the one registered under the name, and a registered name is always found |
| ReporterRegistry.Size | tally/reporter.cc:80-88 | the count is the registered reporters plus the two built-ins unless they are excluded |
| ReporterRegistry.ListNames | tally/reporter.cc:90-102 | the listing has `reporter_size` entries, contains every registered name, ends with "json" and "prometheus" unless built-ins are excluded, and is exactly the registered names when they are |
| ReporterRegistry.ListReporters | tally/reporter.cc:103-111 | the object listing holds exactly the registered reporters, one per name, whatever the flag says |
| ReporterRegistry.RegisterThenRemove | tally/reporter.cc:28-77 | after registering under a fresh name the reporter is present and found, the count grows by one, and removing it restores the registry |
| ReporterRegistry.SecondRegistrationRefused | tally/reporter.cc:34-37 | registering a second reporter under a taken name fails with AlreadyExists and the first stays registered |
| Wildcard.WildCmp | tally/utility/wildcard_matcher.h:72-105 | the backtracking scan answers exactly the recursive glob meaning: '*' matches any run, the question mark one character, anything else itself, and the whole text must be used |
| Wildcard.ScanToStar | tally/utility/wildcard_matcher.h:77-83 | the first loop either refutes the match on a mismatch or leaves an equivalent problem that starts at a star or at the end of the text |
| Wildcard.ScanStep | tally/utility/wildcard_matcher.h:85-99 | a turn of the main loop either settles a match at a final star or keeps the scan equivalent to the glob while the retry position, the text position or the pattern position advances |
| Wildcard.OnlyStarsLeft | tally/utility/wildcard_matcher.h:101-104 | once the text is used up, the rest of the pattern matches exactly when it is all stars |
| Wildcard.StarIsAnySuffix | tally/utility/wildcard_matcher.h:86-91 | a leading star matches exactly when the rest matches some suffix of the text |
| Wildcard.Subsumed | tally/utility/wildcard_matcher.h:95-98 | retrying after a mismatch loses no match: a later star's retries cover those of the earlier one |
| Wildcard.Classify | tally/utility/wildcard_matcher.h:38-49 | the tokens holding '*' or the question mark become the patterns, in order, and all other tokens the exact names |
| Wildcard.NewMatcher | tally/utility/wildcard_matcher.h:28-50 | an empty list leaves both sets empty; otherwise every piece between ',' and ';', empty ones included, is a pattern or an exact name according to its marks |
| Wildcard.Match | tally/utility/wildcard_matcher.h:52-66 | an exact hit matches; with no exact names and no patterns the answer is `on_both_empty`; otherwise the name matches when some pattern globs it |
| Wildcard.EmptyPieceIsExact | tally/utility/wildcard_matcher.h:32-47 | the empty piece in "a,,b" becomes the exact name "" |
| Wildcard.MixedList | tally/utility/wildcard_matcher.h:36-49 | both separators split the list, and "a*" and "c?" become patterns while "b" is exact |
| Wildcard.GlobExamples | tally/utility/wildcard_matcher.h:72-105 | "km_*" matches "km_var1", "f?ag" matches "flag" but not "flags", "*a*" matches "bab", and "km_*" does not match "sys" |
| ReportOptions.Default | tally/stats_reporter.h:36-110 | a default `ReportOptions` quotes strings, uses '?' as the question mark, an interval of 0, empty lists and no matchers |
| ReportOptions.NewReportState | tally/stats_reporter.h:116-123 | every counter of a new `ReportState` is 0 |
| ReportOptions.WithQuoteString | tally/stats_reporter.h:71-74 | the setter changes the quoting flag and no other option |
| ReportOptions.WithIntervalMs | tally/stats_reporter.h:76-79 | the setter changes the interval and no other option |
| ReportOptions.BuildFilter | tally/stats_reporter.h:81-92 | the question mark and both list texts are stored; a non-empty white list gets a matcher answering true with nothing configured, a non-empty black list one answering false; an empty list keeps the earlier matcher; quoting and interval are kept |
| ReportOptions.AllowReport | tally/stats_reporter.h:48-56 | a name is reported exactly when the white matcher, if any, matches it and the black matcher, if any, does not |
| ReportOptions.NonEmptyListIsNeverEmpty | tally/stats_reporter.h:85-90 | a matcher built from a non-empty list has at least one pattern or exact name |
| ReportOptions.ListMatcherIgnoresBothEmpty | tally/stats_reporter.h:85-90 | so through `build_filter` a list matcher admits exactly its exact names and the names one of its patterns fits |
| ReportOptions.DefaultAllowsAll | tally/stats_reporter.h:48-56 | with no lists every name is reported |
| ReportOptions.BlackExactRefuses | tally/stats_reporter.h:52-54 | an exact entry of the black list is never reported, whatever the white list |
| ReportOptions.WhiteExactAdmits | tally/stats_reporter.h:49-51 | with a white list only, an exact entry of it is reported |
| BucketBounds.CalculateZero | tally/impl/buckets_calculator.cc:27-33 | both growths start at `start`: `calculate(0)` is the first bound |
| BucketBounds.CalculateStep | tally/impl/buckets_calculator.cc:27-33 | each linear bound is the previous plus the width; each exponential bound is the previous times the factor |
| BucketBounds.BoundsOrder | tally/impl/buckets_calculator.cc:27-33 | linear bounds with a positive width increase; exponential bounds increase from a positive start, decrease from a negative one and stay 0 from a zero start, which the factories do not rule out |
| BucketBounds.NewBuckets | tally/buckets.cc:26-31 | construction fails with InvalidArgument exactly when there are no bounds, and otherwise keeps kind, calculator and count |
| BucketBounds.LinearValues | tally/buckets.cc:33-41 | the factory succeeds exactly for a positive width and at least one bound, giving a linear calculator over values from `start` |
| BucketBounds.ExponentialValues | tally/buckets.cc:43-51 | the factory succeeds exactly for a factor above one and at least one bound, whatever the start |
| BucketBounds.LinearDurations | tally/buckets.cc:53-62 | as for values, with the start and width in microseconds and the kind Durations |
| BucketBounds.ExponentialDurations | tally/buckets.cc:64-74 | an integer factor above one, the start in microseconds, the kind Durations |
| BucketBounds.Bounds | tally/buckets_iterator.cc:48 | the bounds are `calculate(0)` … `calculate(num - 1)`, one per index |
| BucketBounds.Begin | tally/buckets.cc:76-78 | `begin` reads the buckets' calculator at index 0 |
| BucketBounds.End | tally/buckets.cc:80-82 | `end` reads the same calculator at index `num` |
| BucketBounds.Size | tally/buckets.h:57 | `size` is the number of bounds iteration yields |
| BucketBounds.Increment | tally/buckets_iterator.cc:27-30 | prefix `++` moves to the next index over the same calculator |
| BucketBounds.PostIncrement | tally/buckets_iterator.cc:32-38 | postfix `++` advances the iterator and returns the one from before the call |
| BucketBounds.EqualIsIdentity | tally/buckets_iterator.cc:40-46 | `==` comparing calculators fieldwise and indices is equality of iterators, and `!=` is its negation |
| BucketBounds.Deref | tally/buckets_iterator.cc:48 | `*it` is the bound at the iterator's index |
| BucketBounds.Iterate | tests/buckets_test.cc:21-42 | walking from `begin` to `end` with `++` yields exactly the bounds, in order, `size` of them |
| BucketBounds.LinearExample | tests/buckets_test.cc:21-32 | `linear_values(4, 6, 3)` yields 4, 10, 16 |
| BucketBounds.ExponentialExample | tests/buckets_test.cc:44-55 | `exponential_values(4, 2, 3)` yields 4, 8, 16 |
| BucketBounds.SizeExample | tests/buckets_test.cc:67-73 | buckets built with 4 and 10 bounds have sizes 4 and 10 |
| Histogram.CreateBuckets | tally/histogram.cc:54-82 | zero bounds give one bucket covering everything; otherwise one bucket per bound, each from the previous bound (the smallest positive double first) up to its own, then a catch-all to the largest double; ids are positions and values start at 0 |
| Histogram.CreatedSorted | tally/histogram.cc:54-82 | laid out from bounds that do not decrease and stay below the largest double, the buckets' upper bounds are sorted, which the search of `record` needs |
| Histogram.LinearBucketsSorted | tally/histogram.cc:54-82 | linear bounds with a positive width lay out sorted buckets |
| Histogram.Empty | tally/histogram.cc:21-23 | a histogram without buckets has no samples |
| Histogram.New | tally/histogram.cc:24-28 | construction lays out the buckets and gives each a zero counter; nothing is recorded yet |
| Histogram.SetBuckets | tally/histogram.cc:45-52 | only a histogram without buckets takes new ones, with fresh zero counters; one with buckets is unchanged |
| Histogram.UpperBound | tally/histogram.cc:89-92 | the binary search returns the first bucket whose upper bound is above the value, and that bucket is unique |
| Histogram.FirstAboveUnique | tally/histogram.cc:88-92 | at most one bucket is the first whose upper bound is above a value |
| Histogram.Record | tally/histogram.cc:84-96 | without buckets nothing changes; otherwise the counter of the first bucket above the value goes up by one and no other, the sample count by one and the sum by the value; the counters keep adding up to the sample count |
| Histogram.BoundGoesToNextBucket | tally/histogram.cc:89-92 | a value equal to a bound is counted in the bucket after the one that bound closes |
| Histogram.GetValue | tally/histogram.cc:98-104 | `get_value` copies the buckets with each value set to its counter and nothing else changed |
| Histogram.ReportedValuesSum | tally/histogram.cc:98-104 | the values `get_value` reports add up to the number of samples |
| Histogram.UnitLayout | tests/histogram_test.cc:25-40 | ten unit bounds from 0 lay out sorted buckets, and 1.5 belongs to bucket 2 |
| Histogram.RecordExample | tests/histogram_test.cc:25-40 | recording 1.5 once counts one sample of sum 1.5 in bucket 2 and nowhere else |
| Prometheus.EscapeChar | tally/reporters/prometheus_stats_reporter.cc:38-54 | every character is written as at least one character and never as a raw newline |
| Prometheus.Escape | tally/reporters/prometheus_stats_reporter.cc:36-56 | an escaped label value holds no raw newline and is never shorter than the value |
| Prometheus.EscapeRoundTrip | tally/reporters/prometheus_stats_reporter.cc:36-56 | reading an escaped value back as a Prometheus parser does restores it exactly, so every label value survives the text format |
| Prometheus.WriteDouble | tally/reporters/prometheus_stats_reporter.cc:26-34 | NaN is written "Nan", the infinities "+Inf" and "-Inf", every finite value through the stream rendering |
| Prometheus.LabelsAreJoined | tally/reporters/prometheus_stats_reporter.cc:68-75 | threading the prefix "" then "," writes the tag pairs joined by commas |
| Prometheus.LabelsAfterComma | tally/reporters/prometheus_stats_reporter.cc:68-75 | after the first pair each further pair is preceded by a comma |
| Prometheus.WriteHead | tally/reporters/prometheus_stats_reporter.cc:59-84 | braces are written only for no tags or an extra label: an untagged plain head is "name{} ", a tagged plain head carries no labels, and with an extra label every tag comes first |
| Prometheus.HeadWithExtraLabel | tally/reporters/prometheus_stats_reporter.cc:66-82 | with an extra label the head is the name, the suffix and, in braces, the tag pairs and the extra pair joined by commas |
| Prometheus.WriteTail | tally/reporters/prometheus_stats_reporter.cc:87-93 | the tail always ends the line, and carries " <ms>" exactly when the timestamp is non-zero |
| Prometheus.ReportCounter | tally/reporters/prometheus_stats_reporter.cc:97-111 | one more counter and no other count changes; the block is the HELP line only for non-empty help, then the TYPE line naming "counter", then one sample line |
| Prometheus.ReportGauge | tally/reporters/prometheus_stats_reporter.cc:113-127 | as for a counter, with the gauge count and the type "gauge" |
| Prometheus.SampleLineLabels | tally/reporters/prometheus_stats_reporter.cc:65-83 | an untagged sample line reads "name{} value", a tagged one "name value" with its tags dropped |
| Prometheus.InfHead | tally/reporters/prometheus_stats_reporter.cc:153-155 | buckets ending at the largest double get no "+Inf" head; a histogram without buckets gets one |
| Prometheus.ReportHistogram | tally/reporters/prometheus_stats_reporter.cc:129-159 | a histogram report adds one to the histogram count and changes no other count |
| Prometheus.LaidOutHistogramHasNoInfLine | tally/reporters/prometheus_stats_reporter.cc:145-158 | for buckets laid out by `create_buckets` the report is HELP, TYPE, the `_sum` line, one `_bucket` line per bucket and the `_count` line, with no "+Inf" line |
| Prometheus.UntaggedCountLine | tally/reporters/prometheus_stats_reporter.cc:156-158 | an untagged `_count` line without timestamp reads "name_count{} count" |
| Prometheus.UntaggedInfHead | tally/reporters/prometheus_stats_reporter.cc:153-155 | an untagged "+Inf" head reads `name_bucket{le="+Inf"} ` |
| Prometheus.BucketlessHistogramGluesInfHead | tally/reporters/prometheus_stats_reporter.cc:145-158 | a histogram without buckets writes the "+Inf" head with no count or newline, so it runs into the `_count` line |
| Prometheus.ReportVariable | tally/reporters/prometheus_stats_reporter.cc:161-180 | `total` always goes up by one; a variable without a metric bit writes nothing and only bumps the no-metric count; otherwise the gauge report wins over the counter one and the histogram report is added on its own test; nothing is discarded |
| Prometheus.OneKindCountedOnce | tally/reporters/prometheus_stats_reporter.cc:161-180 | a variable of exactly one metric kind is counted once, under that kind |
| TaskTimer.QueuedNeverFree | tally/utility/task_timer.h:220-226 | an id is never both queued and free for reuse |
| TaskTimer.New | tally/utility/task_timer.h:77-81 | a new timer has no events, no queued entries and no free ids |
| TaskTimer.InsertPos | tally/utility/task_timer.h:166 | `multiset::insert` places an entry after every entry due no later and before the first due strictly later |
| TaskTimer.Insert | tally/utility/task_timer.h:166 | inserting adds exactly that entry, keeps the queue ordered by due time and, for an id not yet queued, keeps queued ids distinct |
| TaskTimer.InsertKeeps | tally/utility/task_timer.h:166 | an entry placed at its insertion position keeps order, and distinct ids when its id is new |
| TaskTimer.InsertAtContents | tally/utility/task_timer.h:166 | placing an entry adds exactly that entry to the queue |
| TaskTimer.AddFresh | tally/utility/task_timer.h:156-159 | with no free id the new event is appended under id `events.size()` and queued at its start time; the invariant holds |
| TaskTimer.AddReused | tally/utility/task_timer.h:160-165 | with a free id the most recently freed one is popped and its event overwritten; the invariant holds |
| TaskTimer.Add | tally/utility/task_timer.h:150-170 | `add_impl` returns the most recently freed id, or `events.size()` when none is free; that slot holds a valid event with the handler, start and period given; no other event changes; exactly one entry is queued |
| TaskTimer.FindRef | tally/utility/task_timer.h:137-138 | `find_if` returns the first queued entry for the id, or the end exactly when the id is not queued |
| TaskTimer.EraseAt | tally/utility/task_timer.h:141 | erasing one entry keeps the rest in order, keeps ids distinct and drops that id from the queue |
| TaskTimer.Remove | tally/utility/task_timer.h:130-146 | `remove` answers false and changes nothing exactly when the id is out of range; otherwise the event is invalidated and loses its handler, a queued entry for it is dropped and its id freed, no other event changes and nothing is queued |
| TaskTimer.Take | tally/utility/task_timer.h:181-185 | firing takes the earliest entry, which is due, off the queue and leaves its event in flight |
| TaskTimer.AddKeepsInFlight | tally/utility/task_timer.h:188-190 | a handler adding timers cannot hand out the id being handled |
| TaskTimer.RemoveKeepsInFlight | tally/utility/task_timer.h:188-190 | a handler removing timers, even its own, leaves the id being handled neither queued nor free |
| TaskTimer.Finish | tally/utility/task_timer.h:191-202 | after the handler a still valid periodic event is queued again one period after it was due; any other is invalidated, loses its handler and has its id freed; the invariant holds |
| TaskTimer.FiredOneShotIdReused | tally/utility/task_timer.h:196-202 | the id of a fired one-shot timer is the next one `add_impl` hands out |
| TaskTimer.RunAt | tally/utility/task_timer.h:103-105 | `run_at` adds a one-shot event due at the given time |
| TaskTimer.RunAfter | tally/utility/task_timer.h:119-122 | `run_after` adds a one-shot event due the duration after now |
| TaskTimer.RunEvery | tally/utility/task_timer.h:111-113 | `run_every` with durations adds an event first due after `first` and repeating every `d` |
| TaskTimer.RunAfterMs | tally/utility/task_timer.h:123-125 | the integer overload of `run_after` takes its argument, named in milliseconds, as microseconds |
| TaskTimer.RunEveryMs | tally/utility/task_timer.h:115-117 | the integer overload of `run_every` takes both arguments as microseconds |
| TaskTimer.IdReuseExample | tests/timer_test.cc:97-107 | when B (due first) removes itself in its handler, the next add gets B's id back and the one after gets a fresh id |
| Signal.NamesStartUpper | tally/sigar/sigar_signal.cc:74-214 | every name the switch knows starts with an upper-case letter |
| Signal.Stripped | tally/sigar/sigar_signal.cc:67-69 | a leading "SIG" in any case is removed once; any other name is kept whole |
| Signal.Candidates | tally/sigar/sigar_signal.cc:74-214 | a `case` of the switch tries only names starting with its letter |
| Signal.FirstMatch | tally/sigar/sigar_signal.cc:75-213 | the search fails exactly when no candidate equals the name ignoring case, and otherwise answers the number of one that does |
| Signal.SwitchCase | tally/sigar/sigar_signal.cc:74-219 | a non-empty remainder is found exactly when a name of its `case` equals it ignoring case, and otherwise is NotFound |
| Signal.SignumGet | tally/sigar/sigar_signal.cc:65-220 | an empty remainder after the prefix is InvalidArgument; a remainder starting with a lower-case or non-letter character is NotFound whatever follows; one starting with an upper-case letter gets the case-blind answer |
| Signal.SwitchSearchesAll | tally/sigar/sigar_signal.cc:74-214 | for an upper-case first letter, searching that `case` finds what searching every name finds |
| Signal.SignumGetIgnoringCase | tally/sigar/sigar_signal.cc:65-220 | the corrected lookup fails with InvalidArgument exactly for an empty remainder, and succeeds exactly when some known name equals the remainder ignoring case, with that name's number |
| Signal.CorrectedIgnoresCase | tally/sigar/sigar_signal.cc:65-220 | the corrected lookup gives the same answer for every spelling of a name |
| Signal.LowerCaseNameNotFound | tally/sigar/sigar_signal.cc:74 | "kill" and "Kill" are equal ignoring case, yet the lookup as written answers NotFound for the first and 9 for the second; the corrected lookup finds 9 |
| Signal.LowerCaseExamples | tally/sigar/sigar_signal.cc:74 | "kill" and "sigint" are not found |
| Signal.EmptyExamples | tally/sigar/sigar_signal.cc:67-72 | "", "SIG" and "sig" are invalid arguments |
| Signal.KillExamples | tally/sigar/sigar_signal.cc:67-135 | "Kill" and "sigKILL" are signal 9 |
| Signal.DoublePrefixNotFound | tally/sigar/sigar_signal.cc:67-69 | the prefix is removed once only, so "SIGSIGINT" is not found |
| LatencyRecorder.TrimPrefix | tally/latency_recorder.cc:225-232 | a trailing "latency" in any case is cut; the prefix fails with InvalidArgument exactly when nothing is left; any other prefix is kept whole |
| LatencyRecorder.TrimUndoesAppend | tally/latency_recorder.cc:225-232 | appending "latency", in any case, to a non-empty prefix and trimming gives the prefix back |
| LatencyRecorder.Suffixes | tally/latency_recorder.cc:238-286 | the eleven sub-variables are registered as `_latency`, `_max_latency`, `_count`, `_qps`, then `_latency_` followed by p1, p2, p3, "999", "9999", "percentiles" and "cdf" |
| LatencyRecorder.SubNames | tally/latency_recorder.cc:237-286 | each sub-variable's name is the trimmed prefix followed by its suffix |
| LatencyRecorder.SubNamesDistinct | tally/latency_recorder.cc:237-286 | for percentiles the validators accept, the eleven names are pairwise different, so the sub-variables never collide with each other |
| LatencyRecorder.ExposeInOrder | tally/latency_recorder.cc:238-289 | the chain stops at the first failure with AlreadyExists, and succeeds exactly when every variable was exposed |
| LatencyRecorder.ExposedPrefix | tally/latency_recorder.cc:238-289 | the variables the chain got through are exposed with the help text and scope |
| LatencyRecorder.UntouchedOutside | tally/latency_recorder.cc:238-289 | variables outside the chain never change |
| LatencyRecorder.FailurePosition | tally/latency_recorder.cc:238-289 | on a failure the variables before it are exposed, the failing one is left unregistered and the ones after it are untouched |
| LatencyRecorder.Expose | tally/latency_recorder.cc:223-296 | a prefix that is only "latency" fails with InvalidArgument and changes nothing; otherwise all eleven sub-variables are exposed in order, or the first collision stops the chain; the percentile vector is named exactly on success |
| LatencyRecorder.LabelIsJoin | tally/latency_recorder.cc:290-293 | the vector's label is "p1%", "p2%", "p3%" and "99.9%" joined by commas |
| LatencyRecorder.LabelSplits | tally/latency_recorder.cc:290-294 | splitting the label at its commas gives the four entry names back, and for accepted percentiles the first three read back as p1, p2 and p3 |
| LatencyRecorder.ScaleAsWritten | tally/latency_recorder.cc:313 | the division as written converts the latency to `uint64_t`, divides and converts back, which stays a 64-bit value |
| LatencyRecorder.ScaleCorrected | tally/latency_recorder.cc:313 | the intended scaling is signed division truncated toward zero: the remainder is smaller than the factor and has the latency's sign |
| LatencyRecorder.ScalingAgreesOnNonNegative | tally/latency_recorder.cc:313 | on a non-negative latency the written and the intended scalings agree |
| LatencyRecorder.NegativeLatencyScaling | tally/latency_recorder.cc:313 | scaling -10 by 2 as written gives 2^63 - 5 instead of -5 |
| LatencyRecorder.ScalingDiffersOnNegative | tally/latency_recorder.cc:313 | for every negative latency and factor of at least 2 the written scaling is non-negative while the intended one is not positive; up to a factor of 2^63 the written one is positive; with factor 1 both give the latency back |
| LatencyRecorder.NewRecorder | tally/latency_recorder.cc:157-158 | nothing is recorded at first, and the maximum starts at 0, the value `_max_latency(0)` gives its gauge |
| LatencyRecorder.Record | tally/latency_recorder.cc:312-318 | one latency is scaled once as written; the average gains it clamped to `int` with count 1, the percentile samples gain it unclamped, and the maximum becomes the larger of the old maximum and it |
| LatencyRecorder.RecordIntoEmpty | tally/latency_recorder.cc:312-318 | the first record into a recorder that reads as new leaves the clamped scaled latency as the average's only sample, the scaled latency as the only percentile sample, and a maximum of the scaled latency or 0, whichever is larger |
| LatencyRecorder.NegativeLatencyKeepsMaxAtZero | tally/latency_recorder.cc:157-158 | with factor 1, a negative latency that fits an `int` is recorded unchanged by the average and the samples, while the maximum stays at 0 |
| LatencyRecorder.NegativeLatencyRecordedHuge | tally/latency_recorder.cc:312-318 | with factor 2, the latency -10 reaches the samples and the maximum as 2^63 - 5 and the average as the largest `int` |
| LatencyRecorder.ScaledAllCons | tally/latency_recorder.cc:313 | the scaled log is the first latency scaled followed by the rest of the log scaled |
| LatencyRecorder.RecordAllAverage | tally/latency_recorder.cc:312-318 | after recording a log the average has gained the sum of the clamped scaled latencies and the length of the log |
| LatencyRecorder.RecordAllSamples | tally/latency_recorder.cc:312-318 | after recording a log the percentile samples have gained the scaled latencies in order |
| LatencyRecorder.RecordAllMax | tally/latency_recorder.cc:312-318 | after recording a log the maximum bounds the old maximum and every scaled latency, and is one of them |
| LatencyRecorder.RecordAllAccounts | tally/latency_recorder.cc:312-318 | after recording a log, whichever threads recorded it, the average, the samples and the maximum hold all three of the above at once |
| LatencyRecorder.Trunc | tally/latency_recorder.cc:69 | `static_cast<int64_t>` truncates toward zero: the result is the floor for non-negative values and the ceiling for negative ones |
| LatencyRecorder.DoubleToRandomInt | tally/latency_recorder.cc:67-74 | the result is the truncation, plus one exactly when the value exceeds it by more than the draw, so it lies within one of the value |
| LatencyRecorder.IntegralIsExact | tally/latency_recorder.cc:67-74 | an integral value comes out unchanged whatever the draw |
| LatencyRecorder.Qps | tally/latency_recorder.cc:213-221 | no positive span length gives 0; otherwise the answer is within one of num·10^6 / time_us |
| LatencyRecorder.QpsExample | tally/latency_recorder.cc:213-221 | 1000 samples over one second give exactly 1000 |
| LatencyRecorder.CdfLabelsMeanRatios | tally/latency_recorder.cc:91-100 | the 20 CDF labels increase strictly; up to 99 a label is its ratio in percent, and 100 and 101 stand for 99.9% and 99.99% |
| LatencyRecorder.CdfPoints | tally/latency_recorder.cc:91-101 | `describe` collects 20 points: tenths 10 to 90, hundredths 91 to 99, then 99.9% and 99.99%, each with the number the percentile engine gives at its ratio |
| LatencyRecorder.LatencyPercentiles | tally/latency_recorder.cc:143-155 | `latency_percentiles` holds the numbers at p1, p2 and p3 percent and at 99.9% |
| Config.ValidateP1 | tally/config.cc:85-102 | p1 is accepted exactly when it parses, lies in (0, 100) and is below p2; an unparsable text is refused as such; an out-of-range value gets the range message |
| Config.ValidateP2 | tally/config.cc:62-84 | p2 is accepted exactly when it parses, lies in (0, 100) and is strictly between p1 and p3, with the range message for an out-of-range value |
| Config.ValidateP2Corrected | tally/config.cc:78-81 | the corrected p2 validator accepts the same values, and a p2 not above p1 is refused with a message naming p1 |
| Config.ValidateP3 | tally/config.cc:103-120 | p3 is accepted exactly when it parses, lies in (0, 100) and is above p2 |
| Config.AcceptedMeansOrdered | tally/config.cc:62-120 | three values each accepted against the other two are exactly the strictly increasing percentiles in (0, 100) |
| Config.DefaultsAccepted | tally/config.cc:62-103 | the defaults 80, 90 and 99 pass all three validators |
| Config.P2MessageNamesWrongFlag | tally/config.cc:78-81 | p2 = 70 with p1 = 80 and p3 = 99 is refused with the message about p3, which it does not violate; the corrected validator names p1 |
| Config.P2CorrectedAgrees | tally/config.cc:62-84 | the written and corrected p2 validators refuse the same values and differ only in the message for the check against p1 |
| Numeric.TruncDiv | tally/latency_recorder.cc:313 | C++ division truncates toward zero: the remainder is smaller than the divisor and has the dividend's sign |
| Numeric.SignedUnsignedRoundTrip | tally/latency_recorder.cc:313 | converting an `int64_t` to `uint64_t` and back gives the value back |
| Numeric.DecimalRoundTrip | tally/latency_recorder.cc:256-293 | `%d` of a natural number loses nothing: reading the digits back gives the number |
| Strings.SplitJoin | tally/utility/wildcard_matcher.h:36 | splitting at a separator and joining with it again gives the original text |
| Strings.JoinSplit | tally/latency_recorder.cc:290-293 | joining separator-free pieces and splitting again gives back the pieces |
| Strings.SkipEmpty | tally/scope.cc:146-157 | the pieces kept are exactly the non-empty ones, in order |
| Strings.LessTransitive | tally/scope.cc:47-53 | `std::string` ordering is transitive, as sorting the tag keys needs |
| Strings.LessTotal | tally/scope.cc:47-53 | any two different strings are ordered one way or the other |
| Doubles.LimitsOrder | tally/histogram.cc:61-78 | the smallest positive double is in (0, 1) and the largest is above any bound used here |

## Left out

- The lock-free engine is not part of this model: the thread-local agents and `impl/combiner.h`, `Window`/`PerSecond`, the percentile engine (`impl/percentile.h`) and `Series`. Agents are a map from thread to element, and the percentile lookup is a function parameter.
- Concurrency is not modelled: CAS loops, mutexes, the sampler and dumper threads, sleeping and fork handling. Every operation is a single-threaded step.
- The JSON and dump reporters, flag registration and reflection, logging, and the text of `describe` and of series output all rely on libraries outside the core.
- The operating-system metrics collector is out of scope. Only `sigar_signum_get` is modelled.
- Floating-point rounding is not modelled. A finite double is an exact real, NaN equality is not modelled, and the stream rendering of a finite double is the parameter `show`.
- Prometheus.ReportVariable: requires the sample to hold the alternative each report reads, which the source assumes when it calls `std::get`.
- Prometheus help text is written as given, as the source does. The model does not escape it.
- Wildcard.WildCmp: requires a name without NUL characters and a non-NUL question mark, because the source reads a NUL past the end of a `std::string` and the model has no such character.
- Histogram.Record: requires sorted bounds and a value below the last upper bound, because otherwise the source's `upper_bound` returns the end and the behaviour is undefined.
- Variable listing returns names in ascending order. This stands in for the unspecified iteration order of the source's hash maps.
- Variable.SignedChar: names are byte strings, so every character stands for one byte below 256; a character above 127 is a single byte, not part of a UTF-8 sequence, and it is hashed as its sign-extended value, as `char` arithmetic does on the target.
- TaskTimer does not run the handlers. It tracks which events fire and when, with time given as integer microseconds.
- Signal: the EMT and INFO branches are compiled out on Linux and are not modelled. Numbers are the Linux x86-64 values.
- Config: parsing a flag's text is the input `Option<int>`, where `None` means the text did not parse.
- LatencyRecorder: a scale-factor flag of 0 is a division by zero in the source, so the model requires a positive factor.
- AverageGauge.AddStat: the global Stat's `int64_t` sum and count are unbounded integers. The source adds to them without any check, and they would wrap only after about 2^63 recorded units.
- Reducer.AddTo: `Counter<int>` adds unbounded integers. In the source an overflowing signed addition is undefined behaviour, so no wrap-around is modelled.
- LatencyRecorder.Record: the percentile samples are the sequence of recorded values; the percentile engine's sampling and merging are not part of this model. `Window` and `PerSecond` over the three recorders are left out with the rest of the lock-free engine.
- LatencyRecorder: `hide` is not modelled, and neither is the JSON text of the CDF. The CDF points and labels are modelled.
- AverageGauge.SlotStep: its contract states only the range of the new slot. The accounting of the slot step is stated by AverageGauge.SlotStepAccounts.
- NormalizeName.Go: its contract states only that a non-empty name gives a non-empty result. What the loop keeps is stated by NormalizeName.GoKeeps, and one step is stated by NormalizeName.StepSpec.
- Prometheus.ReportHistogram: its contract states only the state update. Its text is stated by Prometheus.LaidOutHistogramHasNoInfLine and Prometheus.BucketlessHistogramGluesInfHead.
- LatencyRecorder.ExposeInOrder: its contract states the count and status of the exposes. Which names end up registered is stated by the separate lemmas about it.

## Findings

| source | as written | input that shows it | evidently intended | confidence | as-written member | corrected member |
|---|---|---|---|---|---|---|
| tally/sigar/sigar_signal.cc:74 | the branch is chosen by the first character of the name, case-sensitively and for upper case only, although names are then compared without case | "kill" gives NotFound while "Kill" gives 9 | any case resolves, like the "SIG" prefix does | not executed | Signal.LowerCaseNameNotFound | Signal.SignumGetIgnoringCase |
| tally/config.cc:78-81 | the p2 validator refuses a p2 not above p1 with the message about p3 | p2 = 70 with p1 = 80 and p3 = 99 is refused as "must be less than var_latency_p3" | the message says p2 must be larger than p1 | not executed | Config.P2MessageNamesWrongFlag | Config.ValidateP2Corrected |
| tally/latency_recorder.cc:313 | `int64_t` latency divided by the `uint64_t` scale flag converts the latency to unsigned | latency -10 with factor 2 gives 2^63 - 5 instead of -5 | division truncated toward zero on signed values | not executed | LatencyRecorder.NegativeLatencyScaling | LatencyRecorder.ScaleCorrected |

LatencyRecorder.Record uses the scaling as written, so the recorder holds
what the code records. LatencyRecorder.ScalingDiffersOnNegative relates the
written and the intended scaling for every negative latency.
