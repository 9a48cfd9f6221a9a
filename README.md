# Folding validator reward bookkeeping, in Dafny

This project models the validator side of the `folding` subnet package at the level of its
bookkeeping. It does not model the physics.

- `get_rewards` pairs each uid with a worker response, the way `zip` does. For each pair it:
  - builds a size summary of the worker's output files;
  - stages the files under the validator directory, in a sub-directory named after the first
    eight characters of the worker's hotkey;
  - stores `None` for the uid when the status code is not 200, and otherwise the dataset the
    log extractor returns.
- `reward_data` is a dict, so it keeps its keys in the order each uid was first stored. A
  repeated uid keeps its first place and takes its last value.
- After the loop, `get_rewards` runs the reward pipeline (the energy model, then the RMSD
  model) over that dict. It then aggregates the events into one mean reward per position and one
  flat diagnostics dict. Finally it merges in the size summary of the last response.
- The package version `"0.0.2"` is packed into `__spec_version__` as
  `10000 * major + 100 * minor + patch`.

Files:

- `wrappers.dfy`: `Option` and `Result`.
- `version.dfy`, module `Version`: `str.split(".")`, `int()` on a string, and
  `__spec_version__`. This part is pure.
- `utf8.dfy`, module `Utf8`: `str.encode("utf-8")` and its length, with a decoder that shows
  nothing is lost.
- `paths.dfy`, module `Paths`: `os.path.join` for one directory and one name (POSIX rules).
- `reward.dfy`, module `Reward`: the entities and the three operations. `ApplyRewardPipeline`,
  `AggregateRewards` and `GetRewards` are methods with loops, as in the source.
  - `AggregateRewards` is proved against the specification function `Aggregate`.
  - `GetRewards` is proved against `Rewards` (its outcome) and `Calls` (the calls it makes).
  - `ApplyRewardPipeline` has no specification function: its contract names the two model
    calls directly.
- `reward_properties.dfy`, module `RewardProperties`: what those specification functions
  guarantee.

The extractor and the two reward models are parameters (`Parser`, `RewardModel`). They are
treated as deterministic functions. `GetRewards` also returns one log of the `save_files` and
extractor calls it made, in the order it made them.

Quirks of the code that the model keeps:

- Failed workers are staged too, because `save_files` runs before the status check.
- Only the last response's size summary reaches the returned dict.
- An empty model list is not an error: the pipeline is a fixed pair of models.
- Reward rows of different lengths raise torch's `ValueError` (`RaggedRewards`). There is no
  dedicated error for this.
- With no (uid, response) pair at all, `md_output_summary` is never bound, so `get_rewards`
  raises `UnboundLocalError` (`SummaryUnbound`). That check happens after aggregation, in the
  order the source evaluates.
- The aggregated vector is aligned by position, not by uid. `AggregateRewards` never looks at
  the uids the events report.

## Model

| member | source | states |
|---|---|---|
| `Version.Split` | folding/__init__.py:5 | `split(".")` yields at least one piece and no piece contains a dot |
| `Version.JoinSplit` | folding/__init__.py:5 | joining the pieces of a split with `.` gives back the original string |
| `Version.SplitJoin` | folding/__init__.py:5 | splitting a join of dot-free pieces gives back exactly those pieces |
| `Version.SplitAtDot` | folding/__init__.py:5 | the pieces of `a + "." + b` are the pieces of `a` followed by those of `b` |
| `Version.ParseDigits` | folding/__init__.py:7-9 | `int()` of well-formed digits, bare or after a minus sign, is the number they spell when there are at most 4300 digits, and a `ValueError` past that |
| `Version.ParseShowRoundTrip` | folding/__init__.py:7-9 | `int(str(n)) == n` for every integer of at most 4300 digits, a `ValueError` for a longer one, and `str(n)` has no dot |
| `Version.NonNumericRejected` | folding/__init__.py:7-9 | a character that belongs in no integer literal makes `int()` fail |
| `Version.FormatRoundTrip` | folding/__init__.py:6-10 | the spec version of `"a.b.c"` (printed integers) is `10000*a + 100*b + c` when each component has at most 4300 digits, and a `ValueError` otherwise |
| `Version.CurrentSpecVersion` | folding/__init__.py:4-10 | for `__version__ == "0.0.2"` the spec version is 2 |
| `Version.SpecVersionOk` | folding/__init__.py:5-10 | the evaluation succeeds iff there are at least three pieces and the first three convert; the value is then their packing |
| `Version.ExtraComponentsIgnored` | folding/__init__.py:5-9 | appending further `.`-separated components never changes the result |
| `Version.TooFewComponents` | folding/__init__.py:5-9 | fewer than three components is an error, an `IndexError` when the components present all convert |
| `Version.NonNumericComponent` | folding/__init__.py:7-9 | a first, second or third component that `int()` rejects makes the evaluation fail |
| `Version.EncodeOrder` | folding/__init__.py:6-10 | with minor and patch in 0..99 the packing is injective and preserves lexicographic (major, minor, patch) order |
| `Version.EncodeCollision` | folding/__init__.py:6-10 | outside that range distinct versions collide: `"0.100.0"` and `"1.0.0"` both give 10000 |
| `Utf8.EncodeAppend` | folding/validators/reward.py:66 | the encoding of a concatenation is the concatenation of the encodings |
| `Utf8.LengthBounds` | folding/validators/reward.py:66 | a string of n characters encodes to between n and 4n bytes, exactly n iff it is ASCII |
| `Utf8.EncodeCharInverse` | folding/validators/reward.py:66 | the lead byte announces the sequence's width and the bytes spell the character back |
| `Utf8.DecodeEncode` | folding/validators/reward.py:66 | decoding the encoding of any string gives the string back |
| `Paths.JoinInjective` | folding/validators/reward.py:72-74 | under one directory, two relative names give the same path iff they are equal |
| `Reward.HotkeyPrefix` | folding/validators/reward.py:73 | `hotkey[:8]` is the first `min(8, len)` characters of the hotkey |
| `Reward.ApplyRewardPipeline` | folding/validators/reward.py:30-38 | exactly one event per model, in pipeline order (energy, then RMSD), each computed from the same `data` |
| `Reward.AggregateRewards` | folding/validators/reward.py:41-51 | the row-collecting, dict-updating loop returns the column means of the reward rows and the left-to-right merge of the event dicts, or the ragged-rows error |
| `Reward.GetRewards` | folding/validators/reward.py:54-101 | the outcome is `Rewards(...)`, and the calls made are `Calls(...)`: per paired response, in order, a `save_files` into the worker's directory, then the extractor on that directory for status 200 only |
| `RewardProperties.AggregateShape` | folding/validators/reward.py:44-51 | aggregation succeeds iff every event reports as many rewards as the first; the vector then has that length, and no event at all gives NaN |
| `RewardProperties.AggregateBounds` | folding/validators/reward.py:51 | each mean lies between the lowest and highest reward the events gave that position |
| `RewardProperties.AggregateUnanimous` | folding/validators/reward.py:51 | a position every model scores x is aggregated to x |
| `RewardProperties.AggregateDominance` | folding/validators/reward.py:51 | a position every model scores no higher than another is aggregated no higher |
| `RewardProperties.ColumnSumPermutation` | folding/validators/reward.py:47-51 | any rearrangement of the events keeps every column sum |
| `RewardProperties.AggregatePermutation` | folding/validators/reward.py:44-51 | any rearrangement of the events (same multiset) aggregates without error exactly when the original does, to the same reward vector |
| `RewardProperties.MergeKeys` | folding/validators/reward.py:45-49 | the merged dict holds exactly the keys of all events |
| `RewardProperties.MergeLastWins` | folding/validators/reward.py:45-49 | on colliding keys the value from the last event that has the key wins |
| `RewardProperties.ZipUnzip` | folding/validators/reward.py:63 | unzipping what `zip` yields gives back the first `min(len(uids), len(responses))` uids and responses |
| `RewardProperties.UnzipZip` | folding/validators/reward.py:63 | zipping the two halves of a list of pairs gives the list back |
| `RewardProperties.RewardDataKeys` | folding/validators/reward.py:62-94 | `reward_data`'s keys are exactly the uids among the first `min(len(uids), len(responses))`, and its key order lists exactly those keys |
| `RewardProperties.RewardDataEntry` | folding/validators/reward.py:82-94 | a uid's entry comes from its last occurrence: `None` for a status other than 200, else the extractor's output for that worker's directory |
| `RewardProperties.PutOrdered` | folding/validators/reward.py:86-94 | storing into a dict keeps every key listed once in its order, sets the stored key's value and leaves other keys' values alone |
| `RewardProperties.CollectOrdered` | folding/validators/reward.py:62-94 | `reward_data`'s order lists each of its keys exactly once |
| `RewardProperties.CollectOrderOfPairs` | folding/validators/reward.py:63-94 | of two uids, the one whose first pair comes earlier comes earlier in `reward_data`'s order |
| `RewardProperties.RewardDataOrder` | folding/validators/reward.py:62-96 | the dict handed to the reward models lists each paired uid once, in the order of first occurrence in `uids` |
| `RewardProperties.InsertionOrderExample` | folding/validators/reward.py:62-94 | uids `[1, 2, 1]` give the order `[1, 2]` with uid 1's entry from the third response; the roster `[2, 1]` gives the order `[2, 1]` |
| `RewardProperties.CallsLength` | folding/validators/reward.py:63-93 | one `save_files` call per pair plus one extractor call per status-200 pair |
| `RewardProperties.CallsAppend` | folding/validators/reward.py:63-93 | walking two runs of pairs one after the other makes the first run's calls, then the second's |
| `RewardProperties.CallsSplit` | folding/validators/reward.py:63-93 | pair `i`'s calls come after those of the pairs before it and before those of the pairs after it |
| `RewardProperties.CallsStart` | folding/validators/reward.py:77-80 | walking at least one pair starts with a `save_files` call |
| `RewardProperties.CallsAt` | folding/validators/reward.py:72-93 | pair `i`'s calls start at `i` plus the number of earlier successes: `save_files` into its directory, then for status 200 the extractor on that directory, else the next pair's save |
| `RewardProperties.ParseFollowsSave` | folding/validators/reward.py:77-93 | every extractor call comes right after the `save_files` call into the same directory and is given the validator directory |
| `RewardProperties.ParseCallsOfPairs` | folding/validators/reward.py:82-93 | an extractor call on `(d, v)` is made iff `v` is the validator directory and some pair is a status-200 response whose directory is `d` |
| `RewardProperties.ParsedExactlySuccesses` | folding/validators/reward.py:82-93 | the extractor is called, with the validator directory, on the directory of every paired 200 response and on no other directory |
| `RewardProperties.NothingParsedOnFailure` | folding/validators/reward.py:77-87 | when every request failed, the calls are exactly one `save_files` per pair, in order, and no extractor call |
| `RewardProperties.SharedWorkerDirectory` | folding/validators/reward.py:72-74 | two workers share a staging directory iff their hotkeys share the first eight characters |
| `RewardProperties.SizeSummaryBounds` | folding/validators/reward.py:65-67 | the size summary has one entry per output file, between 1 and 4 bytes per character, exactly one per character iff the file is ASCII |
| `RewardProperties.RewardsOutcome` | folding/validators/reward.py:96-101 | `get_rewards` succeeds iff some pair was walked and both models report equally many rewards; the vector then has that many entries; a length mismatch is the ragged-rows error; equal lengths with no pair is the unbound-summary error |
| `RewardProperties.OnlyLastSummaryMerged` | folding/validators/reward.py:99 | the returned dict maps each file of the last paired response to its byte count, overriding model fields; every other key is the models' merged diagnostics |

## Left out

- `DataExtractor` and the body of `parsing_reward_data`: extracting energy, temperature,
  pressure and density series from simulation logs. The extractor is a `Parser` parameter,
  called with the worker directory and the validator directory.
- Parser: the dataset is a function of the two directory names only. It does not depend on
  the files `save_files` has just written, so the model does not connect a worker's output to
  its dataset; the order of the calls in the log is what records that the files are staged
  first. An exception raised by the extractor (a missing or unreadable log) is not modelled:
  it would abort `get_rewards`.
- RewardModel: a model receives `reward_data` with its key order, but what it does with that
  order is not modelled. So the model cannot promise that each model's rewards follow the
  roster's order, or that the two models' rows line up uid by uid; the aggregation averages by
  position as the source does.
- Merge: the key order of the returned diagnostics dict (the models' keys, then the file names
  of the last response) is not kept; the dict is a map.
- `EnergyRewardModel` and `RMSDRewardModel` scoring: each is a `RewardModel` parameter, a
  deterministic function from `reward_data` to an event. That the pipeline does not change
  `data` follows from value semantics and from assuming the models are pure. A model that
  mutated the dict in Python is not captured.
- `RewardEvent.asdict()`: its contents are an abstract `fields` map of the event.
- torch floating point: means are Dafny `real`s. The NaN that `mean(dim=0)` gives for an empty
  tensor is the tag `NotANumber`. Rounding, overflow and NaN propagation are not modelled.
- `protein.save_files` and the filesystem: only the call and its arguments are recorded.
- `os.path.join`: only the two-argument POSIX case is modelled.
- `bt.logging` calls: not modelled. `FoldingSynapse`, the dendrite and the axon: only the status
  code, the hotkey and `md_output` are read.
- `int()`: leading and trailing whitespace is limited to ASCII whitespace, and digits are
  limited to ASCII digits. Python also accepts other Unicode spaces and decimal digits.
- `int()`'s digit limit: it is fixed at CPython's default of 4300 digits (`MaxStrDigits`).
  The limit that `sys.set_int_max_str_digits` or `PYTHONINTMAXSTRDIGITS` can set is not
  modelled, nor the absence of any limit before Python 3.11.
- `str.encode("utf-8")` on strings holding lone surrogates: Python raises, but a Dafny `char`
  cannot hold such a value.
