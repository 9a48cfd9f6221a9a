/** The validator's reward bookkeeping (folding/validators/reward.py).

    `get_rewards` walks the (uid, response) pairs in order, stages every worker's output files
    under a directory named after the first eight characters of its hotkey, records `None` for
    a worker whose request did not return status 200 and the extracted dataset otherwise, runs
    the fixed reward pipeline (energy model, then RMSD model) over that map, and aggregates the
    resulting events into one mean reward per position and one flat diagnostics dict, into which
    the file-size summary of the last response is merged.

    The log extractor and the two reward models are not part of this model: they are passed in
    as functions. Staging files on disk and calling the extractor are recorded, in order, as
    one log of calls. */
module Reward {
  import opened Wrappers
  import Utf8
  import Paths

  type Uid = int
  type Path = string

  /** What the log extractor returns for one worker: samples per physical quantity. */
  type Dataset = map<string, seq<real>>

  /** `reward_data`: the worker's dataset for each uid, `None` when its request failed. It is a
      Python dict, so it also keeps its keys in the order each was first stored: `uids`. */
  datatype RewardData = RewardData(uids: seq<Uid>, entries: map<Uid, Option<Dataset>>)

  /** The empty dict `{}`. */
  const NoData := RewardData([], map[])

  /** `data[uid] = value`: a new key goes to the end of the order, a key already present keeps
      its place and takes the new value. */
  function Put(data: RewardData, uid: Uid, value: Option<Dataset>): (r: RewardData) {
    RewardData(if uid in data.entries then data.uids else data.uids + [uid],
               data.entries[uid := value])
  }

  /** A value of the flat diagnostics dict: the file sizes are counts, the rest is whatever the
      reward models report. */
  datatype Field = Count(n: nat) | Number(x: real) | Text(s: string) | Numbers(xs: seq<real>)

  /** One reward model's output: its per-uid rewards in the model's own order, and the dict its
      `asdict()` returns. */
  datatype RewardEvent = RewardEvent(rewards: seq<(Uid, real)>, fields: map<string, Field>)

  /** A reward model's `apply`, taken to be deterministic and to leave `data` alone. */
  type RewardModel = RewardData -> RewardEvent

  /** The log extractor, called with the worker directory and the validator directory. */
  type Parser = (Path, Path) -> Dataset

  /** What is read of one worker's reply: the transport status code, the hotkey of the worker
      and the output files, by name. */
  datatype Response = Response(statusCode: int, hotkey: string, mdOutput: map<string, string>)

  /** What is read of the task: the validator's working directory. */
  datatype Protein = Protein(validatorDirectory: Path)

  /** An outside call `get_rewards` makes: `protein.save_files(files, output_directory)`, or
      the extractor on a worker directory and the validator directory. */
  datatype Call =
    | Save(files: map<string, string>, outputDirectory: Path)
    | Parse(minerDirectory: Path, validatorDirectory: Path)

  /** `torch.FloatTensor(rows).mean(dim=0)`: one mean per column, or NaN for no rows at all. */
  datatype MeanTensor = Vector(values: seq<real>) | NotANumber

  /** The exceptions that escape `get_rewards`: torch's `ValueError` for rows of different
      lengths, and the `UnboundLocalError` raised when `md_output_summary` was never bound
      because there was no pair to walk. */
  datatype Failure = RaggedRewards | SummaryUnbound

  type Outcome = Result<(MeanTensor, map<string, Field>), Failure>

  // ---------------------------------------------------------------------------------------
  // apply_reward_pipeline
  // ---------------------------------------------------------------------------------------

  /** Runs the pipeline `[EnergyRewardModel(), RMSDRewardModel()]` over `data`: one event per
      model, in pipeline order, each computed from the same `data`. */
  method ApplyRewardPipeline(data: RewardData, energy: RewardModel, rmsd: RewardModel)
    returns (rewardEvents: seq<RewardEvent>)
    ensures |rewardEvents| == 2
    ensures rewardEvents[0] == energy(data) && rewardEvents[1] == rmsd(data)
  {
    rewardEvents := [];
    var rewardPipeline := [energy, rmsd];
    for k := 0 to |rewardPipeline|
      invariant |rewardEvents| == k
      invariant forall j :: 0 <= j < k ==> rewardEvents[j] == rewardPipeline[j](data)
    {
      var event := rewardPipeline[k](data);
      rewardEvents := rewardEvents + [event];
    }
  }

  // ---------------------------------------------------------------------------------------
  // aggregate_rewards
  // ---------------------------------------------------------------------------------------

  /** `list(event.rewards.values())`. */
  function Values(rewards: seq<(Uid, real)>): (values: seq<real>) {
    seq(|rewards|, i requires 0 <= i < |rewards| => rewards[i].1)
  }

  /** The matrix handed to torch: one row per event. */
  function Rows(events: seq<RewardEvent>): (rows: seq<seq<real>>) {
    seq(|events|, i requires 0 <= i < |events| => Values(events[i].rewards))
  }

  /** Every row as long as the first: what torch needs to build a tensor. */
  predicate Rectangular(rows: seq<seq<real>>) {
    forall i :: 0 <= i < |rows| ==> |rows[i]| == |rows[0]|
  }

  /** Every row has a column `j`. */
  predicate HasColumn(rows: seq<seq<real>>, j: nat) {
    forall i :: 0 <= i < |rows| ==> j < |rows[i]|
  }

  /** Sum of column `j`. */
  function ColumnSum(rows: seq<seq<real>>, j: nat): (sum: real)
    requires HasColumn(rows, j)
  {
    if |rows| == 0 then 0.0 else rows[0][j] + ColumnSum(rows[1..], j)
  }

  /** The column-wise arithmetic mean, `mean(dim=0)`. */
  function ColumnMeans(rows: seq<seq<real>>): (means: MeanTensor)
    requires Rectangular(rows)
  {
    if |rows| == 0 then NotANumber
    else Vector(seq(|rows[0]|, j requires 0 <= j < |rows[0]| => ColumnSum(rows, j) / (|rows| as real)))
  }

  /** `events.update(event.asdict())` for each event in turn: later keys overwrite earlier ones. */
  function Merge(events: seq<RewardEvent>): (merged: map<string, Field>) {
    if |events| == 0 then map[]
    else Merge(events[..|events| - 1]) + events[|events| - 1].fields
  }

  /** What `aggregate_rewards` returns, or the error torch raises on ragged rows. */
  function Aggregate(events: seq<RewardEvent>): (r: Outcome) {
    var rows := Rows(events);
    if Rectangular(rows) then Ok((ColumnMeans(rows), Merge(events))) else Err(RaggedRewards)
  }

  /** Collects the rows and merges the dicts event by event, then takes the mean. */
  method AggregateRewards(rewardEvents: seq<RewardEvent>)
    returns (r: Outcome)
    ensures r == Aggregate(rewardEvents)
  {
    var rewards: seq<seq<real>> := [];
    var events: map<string, Field> := map[];
    for i := 0 to |rewardEvents|
      invariant rewards == Rows(rewardEvents[..i])
      invariant events == Merge(rewardEvents[..i])
    {
      assert rewardEvents[..i + 1][..i] == rewardEvents[..i];
      rewards := rewards + [Values(rewardEvents[i].rewards)];
      events := events + rewardEvents[i].fields;
    }
    assert rewardEvents[..|rewardEvents|] == rewardEvents;
    if Rectangular(rewards) {
      r := Ok((ColumnMeans(rewards), events));
    } else {
      r := Err(RaggedRewards);
    }
  }

  // ---------------------------------------------------------------------------------------
  // get_rewards
  // ---------------------------------------------------------------------------------------

  /** `hotkey[:8]`: the first eight characters, or all of a shorter hotkey. */
  function HotkeyPrefix(hotkey: string): (p: string)
    ensures |p| == if |hotkey| < 8 then |hotkey| else 8
    ensures p == hotkey[..|p|]
  {
    if |hotkey| <= 8 then hotkey else hotkey[..8]
  }

  /** `os.path.join(protein.validator_directory, hotkey[:8])`. */
  function WorkerDirectory(protein: Protein, hotkey: string): (dir: Path) {
    Paths.Join(protein.validatorDirectory, HotkeyPrefix(hotkey))
  }

  /** `md_output_summary`: the UTF-8 size of each output file, by name. */
  function SizeSummary(resp: Response): (summary: map<string, nat>) {
    map name | name in resp.mdOutput :: Utf8.Length(resp.mdOutput[name])
  }

  /** The summary as entries of the diagnostics dict. */
  function SizeFields(summary: map<string, nat>): (fields: map<string, Field>) {
    map name | name in summary :: Count(summary[name])
  }

  /** The number of pairs `zip` yields: the length of the shorter list. */
  function PairCount(uids: seq<Uid>, responses: seq<Response>): (n: nat) {
    if |uids| < |responses| then |uids| else |responses|
  }

  /** `zip(uids, responses)`: pairs up to the shorter of the two. */
  function Zip(uids: seq<Uid>, responses: seq<Response>): (pairs: seq<(Uid, Response)>) {
    var n := PairCount(uids, responses);
    seq(n, i requires 0 <= i < n => (uids[i], responses[i]))
  }

  /** The value `get_rewards` stores for one response. */
  function Entry(protein: Protein, parse: Parser, resp: Response): (entry: Option<Dataset>) {
    if resp.statusCode != 200 then None
    else Some(parse(WorkerDirectory(protein, resp.hotkey), protein.validatorDirectory))
  }

  /** `reward_data` after the given pairs, stored one after the other. */
  function Collect(protein: Protein, parse: Parser, pairs: seq<(Uid, Response)>): (data: RewardData) {
    if |pairs| == 0 then NoData
    else
      var last := pairs[|pairs| - 1];
      Put(Collect(protein, parse, pairs[..|pairs| - 1]), last.0, Entry(protein, parse, last.1))
  }

  /** The outside calls one response leads to: its files are saved first, whatever its
      status, and the extractor runs on the same directory only for status 200. */
  function CallsFor(protein: Protein, resp: Response): (calls: seq<Call>) {
    var dir := WorkerDirectory(protein, resp.hotkey);
    [Save(resp.mdOutput, dir)]
      + (if resp.statusCode == 200 then [Parse(dir, protein.validatorDirectory)] else [])
  }

  /** The outside calls made while walking the given pairs, in order. */
  function Calls(protein: Protein, pairs: seq<(Uid, Response)>): (calls: seq<Call>) {
    if |pairs| == 0 then []
    else Calls(protein, pairs[..|pairs| - 1]) + CallsFor(protein, pairs[|pairs| - 1].1)
  }

  /** What `get_rewards` returns, or the exception it raises. */
  function Rewards(protein: Protein, responses: seq<Response>, uids: seq<Uid>,
                   parse: Parser, energy: RewardModel, rmsd: RewardModel): (r: Outcome)
  {
    var pairs := Zip(uids, responses);
    var data := Collect(protein, parse, pairs);
    match Aggregate([energy(data), rmsd(data)])
    case Err(e) => Err(e)
    case Ok((means, events)) =>
      if |pairs| == 0 then Err(SummaryUnbound)
      else Ok((means, events + SizeFields(SizeSummary(pairs[|pairs| - 1].1))))
  }

  /** `get_rewards`. Besides its outcome it returns the log of the `save_files` and extractor
      calls it made. */
  method GetRewards(protein: Protein, responses: seq<Response>, uids: seq<Uid>,
                    parse: Parser, energy: RewardModel, rmsd: RewardModel)
    returns (outcome: Outcome, calls: seq<Call>)
    ensures outcome == Rewards(protein, responses, uids, parse, energy, rmsd)
    ensures calls == Calls(protein, Zip(uids, responses))
  {
    var pairs := Zip(uids, responses);
    var rewardData := NoData;
    var mdOutputSummary: Option<map<string, nat>> := None;
    calls := [];
    for i := 0 to |pairs|
      invariant rewardData == Collect(protein, parse, pairs[..i])
      invariant calls == Calls(protein, pairs[..i])
      invariant mdOutputSummary == if i == 0 then None else Some(SizeSummary(pairs[i - 1].1))
    {
      assert pairs[..i + 1][..i] == pairs[..i];
      var uid, resp := pairs[i].0, pairs[i].1;
      assert Collect(protein, parse, pairs[..i + 1]) == Put(rewardData, uid, Entry(protein, parse, resp));
      mdOutputSummary := Some(SizeSummary(resp));
      var minerDataDirectory := WorkerDirectory(protein, resp.hotkey);
      calls := calls + [Save(resp.mdOutput, minerDataDirectory)];
      if resp.statusCode != 200 {
        rewardData := Put(rewardData, uid, None);
        continue;
      }
      var outputData := parse(minerDataDirectory, protein.validatorDirectory);
      calls := calls + [Parse(minerDataDirectory, protein.validatorDirectory)];
      rewardData := Put(rewardData, uid, Some(outputData));
    }
    assert pairs[..|pairs|] == pairs;

    var rewardEvents := ApplyRewardPipeline(rewardData, energy, rmsd);
    assert rewardEvents == [energy(rewardData), rmsd(rewardData)];
    var aggregated := AggregateRewards(rewardEvents);
    match aggregated
    case Err(e) =>
      outcome := Err(e);
    case Ok((rewards, events)) =>
      match mdOutputSummary
      case None =>
        outcome := Err(SummaryUnbound);
      case Some(summary) =>
        outcome := Ok((rewards, events + SizeFields(summary)));
  }
}
