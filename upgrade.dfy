/**
 * src/processors/upgrade.js: finding the chain's next software upgrade. The
 * latest block gives the current height and time, a block 2000 heights
 * back gives the average block time, governance proposals (or, failing
 * those, the current-plan endpoint) give the candidate plan, and
 * `active_upgrade` is cleared or gets the candidate with its estimated time.
 * Every HTTP answer is a parameter: a function from the URL to what the
 * server answers.
 */
module Upgrade {
  import opened Base
  import opened Store

  /** What one GET brings back. */
  datatype Response<T> = Ok(value: T) | HttpError(status: int) | NoResponse

  /** What `fetchSmart` ends with: the first answer, a rethrown error, or `undefined`. */
  datatype Fetched<T> = Got(path: string, value: T) | Thrown | NoneFound

  /** 404 and 501 mean "this API version is not served here": try the next path. */
  predicate Skippable<T>(r: Response<T>)
  {
    r.HttpError? && (r.status == 404 || r.status == 501)
  }

  /**
   * An endpoint `fetchSmart` goes past: it failed and did not rethrow, either
   * because the failure was a 404/501 or because the path is not the last
   * one (compared by value, as the code compares it).
   */
  predicate PassedOver<T>(baseUrl: string, endpoints: seq<string>, respond: string -> Response<T>, i: nat)
    requires i < |endpoints|
  {
    !respond(baseUrl + endpoints[i]).Ok? &&
    (Skippable(respond(baseUrl + endpoints[i])) || endpoints[i] != endpoints[|endpoints| - 1])
  }

  /** `fetchSmart` from the i-th endpoint on. */
  function FetchSmartFrom<T>(baseUrl: string, endpoints: seq<string>, respond: string -> Response<T>, i: nat): Fetched<T>
    decreases |endpoints| - i
  {
    if i >= |endpoints| then NoneFound
    else
      var r := respond(baseUrl + endpoints[i]);
      if r.Ok? then Got(endpoints[i], r.value)
      else if PassedOver(baseUrl, endpoints, respond, i) then FetchSmartFrom(baseUrl, endpoints, respond, i + 1)
      else Thrown
  }

  /** `fetchSmart`: the endpoints in order, the first answer wins. */
  method FetchSmart<T>(baseUrl: string, endpoints: seq<string>, respond: string -> Response<T>) returns (r: Fetched<T>)
    ensures r == FetchSmartFrom(baseUrl, endpoints, respond, 0)
  {
    for i := 0 to |endpoints|
      invariant FetchSmartFrom(baseUrl, endpoints, respond, i) == FetchSmartFrom(baseUrl, endpoints, respond, 0)
    {
      var res := respond(baseUrl + endpoints[i]);
      if res.Ok? {
        return Got(endpoints[i], res.value);
      }
      if Skippable(res) {
        continue;
      }
      if endpoints[i] == endpoints[|endpoints| - 1] {
        return Thrown;
      }
    }
    return NoneFound;
  }

  /**
   * The outcome is decided by the first endpoint that is not passed over:
   * its answer if it answered, a rethrow if it failed; and `undefined`
   * exactly when every endpoint is passed over.
   */
  lemma {:induction false} FetchSmartDecidedBy<T>(baseUrl: string, endpoints: seq<string>, respond: string -> Response<T>, i: nat, j: nat)
    requires i <= j < |endpoints| && !PassedOver(baseUrl, endpoints, respond, j)
    requires forall k :: i <= k < j ==> PassedOver(baseUrl, endpoints, respond, k)
    ensures FetchSmartFrom(baseUrl, endpoints, respond, i) ==
              if respond(baseUrl + endpoints[j]).Ok? then Got(endpoints[j], respond(baseUrl + endpoints[j]).value) else Thrown
    decreases j - i
  {
    if i < j {
      FetchSmartDecidedBy(baseUrl, endpoints, respond, i + 1, j);
    }
  }

  lemma {:induction false} FetchSmartNothing<T>(baseUrl: string, endpoints: seq<string>, respond: string -> Response<T>, i: nat)
    ensures FetchSmartFrom(baseUrl, endpoints, respond, i) == NoneFound <==>
              forall k :: i <= k < |endpoints| ==> PassedOver(baseUrl, endpoints, respond, k)
    decreases |endpoints| - i
  {
    if i < |endpoints| {
      FetchSmartNothing(baseUrl, endpoints, respond, i + 1);
    }
  }

  const BlockPaths: seq<string> := ["/cosmos/base/tendermint/v1beta1/blocks/latest", "/cosmos/base/tendermint/v1/blocks/latest"]
  const PlanPaths: seq<string> := ["/cosmos/upgrade/v1beta1/current_plan", "/cosmos/upgrade/v1/current_plan"]
  const ProposalPaths: seq<string> := [
    "/cosmos/gov/v1/proposals?pagination.limit=50&pagination.reverse=true",
    "/cosmos/gov/v1beta1/proposals?pagination.limit=50&pagination.reverse=true"
  ]

  /** A block header: its height and its time in milliseconds. */
  datatype Block = Block(height: int, time: int)

  /** An upgrade plan, its height already parsed. */
  datatype Plan = Plan(name: string, height: int)

  /** A legacy proposal content; `title` is None when the field is absent. */
  datatype Content = Content(title: Option<string>, plan: Option<Plan>)

  /** A message of a gov v1 proposal. */
  datatype ProposalMsg = ProposalMsg(atType: string, typeUrl: string, plan: Option<Plan>, content: Option<Content>)

  /**
   * A proposal as listed; an absent field is None (`id`, `proposal_id` and
   * `title` included), `votingStartTime` is in milliseconds.
   */
  datatype Proposal = Proposal(
    id: Option<string>,
    proposalId: Option<string>,
    title: Option<string>,
    messages: Option<seq<ProposalMsg>>,
    content: Option<Content>,
    votingStartTime: Option<int>)

  /** A message proposing an upgrade, by `@type` or else `typeUrl`. */
  predicate IsUpgradeMsg(m: ProposalMsg)
  {
    var t := if m.atType != "" then m.atType else m.typeUrl;
    Contains(t, "MsgSoftwareUpgrade") || Contains(t, "SoftwareUpgradeProposal")
  }

  /** `messages.find(...)`, from index i on. */
  function FindUpgradeMsg(ms: seq<ProposalMsg>, i: nat): (r: Option<nat>)
    ensures r.Some? ==> i <= r.value < |ms| && IsUpgradeMsg(ms[r.value])
    ensures r.Some? ==> forall j :: i <= j < r.value ==> !IsUpgradeMsg(ms[j])
    ensures r.None? ==> forall j :: i <= j < |ms| ==> !IsUpgradeMsg(ms[j])
    decreases |ms| - i
  {
    if i >= |ms| then None
    else if IsUpgradeMsg(ms[i]) then Some(i)
    else FindUpgradeMsg(ms, i + 1)
  }

  /**
   * The plan a proposal carries: from the first upgrade message (its `plan`,
   * else its content's) when the proposal has a `messages` field, and from
   * the proposal's own content only when it has none.
   */
  function PlanOf(p: Proposal): Option<Plan>
  {
    if p.messages.Some? then
      match FindUpgradeMsg(p.messages.value, 0)
      case None => None
      case Some(i) =>
        var m := p.messages.value[i];
        if m.plan.Some? then m.plan else if m.content.Some? then m.content.value.plan else None
    else if p.content.Some? then p.content.value.plan
    else None
  }

  /** The entry the `map` builds for a proposal with a plan; `id` and `title` may still be missing. */
  datatype UpgradeProposal = UpgradeProposal(id: Option<string>, title: Option<string>, votingStart: int, plan: Plan)

  function UpgradeProposalOf(p: Proposal): Option<UpgradeProposal>
  {
    match PlanOf(p)
    case None => None
    case Some(plan) =>
      Some(UpgradeProposal(
        if Truthy(p.id) then p.id else p.proposalId,
        if Truthy(p.title) then p.title else if p.content.Some? then p.content.value.title else Some(plan.name),
        if p.votingStartTime.Some? then p.votingStartTime.value else 0,
        plan))
  }

  /** The plan-bearing proposals, in the order listed (`map` then `filter(Boolean)`). */
  function UpgradeProposals(ps: seq<Proposal>): seq<UpgradeProposal>
  {
    Collect(ps, UpgradeProposalOf)
  }

  /**
   * The head of the stable sort by descending voting start: no proposal
   * started later, and none listed before it started at the same time.
   */
  function LatestIndex(ups: seq<UpgradeProposal>): (i: nat)
    requires ups != []
    ensures i < |ups|
    ensures forall j :: 0 <= j < |ups| ==> ups[j].votingStart <= ups[i].votingStart
    ensures forall j :: 0 <= j < i ==> ups[j].votingStart < ups[i].votingStart
  {
    if |ups| == 1 then 0
    else
      var k := LatestIndex(ups[..|ups| - 1]);
      assert forall j :: 0 <= j < |ups| - 1 ==> ups[..|ups| - 1][j] == ups[j];
      if ups[|ups| - 1].votingStart > ups[k].votingStart then |ups| - 1 else k
  }

  /** What goes into `active_upgrade`, before the estimate. */
  datatype Candidate = Candidate(name: string, height: int, startTime: int, info: string)

  function ProposalCandidate(up: UpgradeProposal): Candidate
  {
    Candidate(up.plan.name, up.plan.height, up.votingStart, Render(up.id) + ". " + Render(up.title))
  }

  /** The current-plan endpoint's plan starts "now": at the latest block's time. */
  function PlanCandidate(plan: Plan, currentTime: int): Candidate
  {
    Candidate(plan.name, plan.height, currentTime, "Scheduled Upgrade: " + plan.name)
  }

  /** The block the average is sampled at: 2000 below the current one, but at least 1. */
  function SampleHeight(currentHeight: int): (r: nat)
    ensures r >= 1 && r >= currentHeight - 2000
    ensures r == 1 || r == currentHeight - 2000
  {
    if currentHeight - 2000 > 1 then currentHeight - 2000 else 1
  }

  /** The URL of the sample block: the path that answered for the latest block, with 'latest' replaced by the height. */
  function SampleUrl(baseUrl: string, latestPath: string, currentHeight: int): string
  {
    baseUrl + ReplaceFirst(latestPath, "latest", DecimalString(SampleHeight(currentHeight)))
  }

  /** Seconds per block over the sampled span; None when the sample is missing or the span is empty. */
  function AvgBlockTime(currentHeight: int, currentTime: int, sampleTime: Option<int>): Option<real>
  {
    var blockDiff := currentHeight - SampleHeight(currentHeight);
    if sampleTime.Some? && blockDiff > 0 then
      Some(((currentTime - sampleTime.value) as real / blockDiff as real) / 1000.0)
    else None
  }

  /** The average is defined exactly when the sample answered and the chain is past height 1; the span is then at most 2000 blocks. */
  lemma AvgBlockTimeDefined(currentHeight: int, currentTime: int, sampleTime: Option<int>)
    ensures AvgBlockTime(currentHeight, currentTime, sampleTime).Some? <==> sampleTime.Some? && currentHeight > 1
    ensures currentHeight > 1 ==> 0 < currentHeight - SampleHeight(currentHeight) <= 2000
  {
  }

  /** The estimated time in milliseconds: the remaining blocks (none if the target is passed) at the average, or at one second each. */
  function Eta(currentHeight: int, currentTime: int, target: int, avg: Option<real>): real
  {
    var remaining := if target - currentHeight > 0 then target - currentHeight else 0;
    if avg.Some? then currentTime as real + remaining as real * avg.value * 1000.0
    else currentTime as real + (remaining * 1000) as real
  }

  /**
   * A target at or below the current height is due now; without an average
   * each remaining block counts one second; with a non-negative average the
   * estimate never lies before the current time and grows with the target.
   */
  lemma EtaSpec(currentHeight: int, currentTime: int, target: int, target': int, avg: Option<real>)
    ensures target <= currentHeight ==> Eta(currentHeight, currentTime, target, avg) == currentTime as real
    ensures avg.None? && target > currentHeight ==>
              Eta(currentHeight, currentTime, target, avg) == (currentTime + (target - currentHeight) * 1000) as real
    ensures (avg.None? || avg.value >= 0.0) ==> Eta(currentHeight, currentTime, target, avg) >= currentTime as real
    ensures (avg.None? || avg.value >= 0.0) && target <= target' ==>
              Eta(currentHeight, currentTime, target, avg) <= Eta(currentHeight, currentTime, target', avg)
  {
    if avg.Some? && avg.value >= 0.0 && target <= target' {
      var r := if target - currentHeight > 0 then target - currentHeight else 0;
      var r' := if target' - currentHeight > 0 then target' - currentHeight else 0;
      assert r as real <= r' as real;
      MulMonotone(r as real, r' as real, avg.value * 1000.0);
      assert r as real * avg.value * 1000.0 == r as real * (avg.value * 1000.0);
      assert r' as real * avg.value * 1000.0 == r' as real * (avg.value * 1000.0);
    }
  }

  lemma MulMonotone(a: real, b: real, c: real)
    requires a <= b && c >= 0.0
    ensures a * c <= b * c
  {
  }

  /** What the run does to `active_upgrade`. */
  datatype UpgradeAction =
    | Unchanged                                   // the latest block could not be read: the outer catch
    | Cleared                                     // no candidate: DELETE FROM active_upgrade
    | Upserted(name: string, row: ActiveUpgradeRow) // INSERT OR REPLACE of the candidate

  function ApplyAction(table: map<string, ActiveUpgradeRow>, action: UpgradeAction): map<string, ActiveUpgradeRow>
  {
    match action
    case Unchanged => table
    case Cleared => map[]
    case Upserted(name, row) => table[name := row]
  }

  /** An upsert replaces the row of its plan name only; the rows of other plans stay. */
  lemma ApplyActionSpec(table: map<string, ActiveUpgradeRow>, action: UpgradeAction, k: string)
    ensures action.Cleared? ==> ApplyAction(table, action) == map[]
    ensures action.Upserted? ==> action.name in ApplyAction(table, action) && ApplyAction(table, action)[action.name] == action.row
    ensures action.Upserted? && k != action.name ==>
              (k in ApplyAction(table, action) <==> k in table) &&
              (k in table ==> ApplyAction(table, action)[k] == table[k])
  {
  }

  /** The candidate, given the latest block: the latest-starting upgrade proposal, else the current plan. */
  function ChooseCandidate(baseUrl: string, currentTime: int,
                           proposals: string -> Response<seq<Proposal>>, plans: string -> Response<Option<Plan>>): Option<Candidate>
  {
    var props := FetchSmartFrom(baseUrl, ProposalPaths, proposals, 0);
    if props.Got? && UpgradeProposals(props.value) != [] then
      var ups := UpgradeProposals(props.value);
      Some(ProposalCandidate(ups[LatestIndex(ups)]))
    else
      var planRes := FetchSmartFrom(baseUrl, PlanPaths, plans, 0);
      if planRes.Got? && planRes.value.Some? then Some(PlanCandidate(planRes.value.value, currentTime)) else None
  }

  /** The action of a whole run of `syncUpgradePlan`. */
  function Decide(baseUrl: string, blocks: string -> Response<Block>, sampleTimes: string -> Option<int>,
                  proposals: string -> Response<seq<Proposal>>, plans: string -> Response<Option<Plan>>): UpgradeAction
  {
    var latest := FetchSmartFrom(baseUrl, BlockPaths, blocks, 0);
    if !latest.Got? then Unchanged
    else
      var block := latest.value;
      var avg := AvgBlockTime(block.height, block.time, sampleTimes(SampleUrl(baseUrl, latest.path, block.height)));
      match ChooseCandidate(baseUrl, block.time, proposals, plans)
      case None => Cleared
      case Some(c) => Upserted(c.name, ActiveUpgradeRow(c.height, c.startTime, Eta(block.height, block.time, c.height, avg), c.info))
  }

  /** Step 2 of `syncUpgradePlan`: the average stays null when the sample is missing or the span is empty. */
  method SampleAverage(currentHeight: int, currentTime: int, sampleTime: Option<int>) returns (avgBlockTime: Option<real>)
    ensures avgBlockTime == AvgBlockTime(currentHeight, currentTime, sampleTime)
  {
    avgBlockTime := None;
    if sampleTime.Some? {
      var sampleHeight := SampleHeight(currentHeight);
      var blockDiff := currentHeight - sampleHeight;
      var timeDiff := currentTime - sampleTime.value;
      if blockDiff > 0 {
        avgBlockTime := Some((timeDiff as real / blockDiff as real) / 1000.0);
      }
    }
  }

  /** Steps 3 and 4 of `syncUpgradePlan`: the governance proposals, then the current-plan endpoint. */
  method FindCandidate(baseUrl: string, currentTime: int,
                       proposals: string -> Response<seq<Proposal>>, plans: string -> Response<Option<Plan>>)
    returns (found: Option<Candidate>)
    ensures found == ChooseCandidate(baseUrl, currentTime, proposals, plans)
  {
    found := None;
    var resProps := FetchSmart(baseUrl, ProposalPaths, proposals);
    if resProps.Got? {
      var upgradeProposals := UpgradeProposals(resProps.value);
      if |upgradeProposals| > 0 {
        found := Some(ProposalCandidate(upgradeProposals[LatestIndex(upgradeProposals)]));
      }
    }

    if found.None? {
      var resPlan := FetchSmart(baseUrl, PlanPaths, plans);
      if resPlan.Got? && resPlan.value.Some? {
        found := Some(PlanCandidate(resPlan.value.value, currentTime));
      }
    }
  }

  /**
   * `syncUpgradePlan`. `blocks`, `proposals` and `plans` give what each URL
   * answers, `sampleTimes` the time of the block at a URL (None when that
   * request fails).
   */
  method SyncUpgradePlan(db: Database, apiUrl: string, blocks: string -> Response<Block>, sampleTimes: string -> Option<int>,
                         proposals: string -> Response<seq<Proposal>>, plans: string -> Response<Option<Plan>>)
    returns (action: UpgradeAction)
    modifies db`activeUpgrade
    ensures action == Decide(StripTrailingSlash(apiUrl), blocks, sampleTimes, proposals, plans)
    ensures db.activeUpgrade == ApplyAction(old(db.activeUpgrade), action)
  {
    var baseUrl := StripTrailingSlash(apiUrl);

    var resLatest := FetchSmart(baseUrl, BlockPaths, blocks);
    if !resLatest.Got? {
      // a rethrow, or `resLatest.data` of undefined: the outer catch
      return Unchanged;
    }
    var currentHeight := resLatest.value.height;
    var currentTime := resLatest.value.time;

    var sampleTime := sampleTimes(SampleUrl(baseUrl, resLatest.path, currentHeight));
    var avgBlockTime := SampleAverage(currentHeight, currentTime, sampleTime);
    var found := FindCandidate(baseUrl, currentTime, proposals, plans);
    if found.None? {
      db.activeUpgrade := map[];
      return Cleared;
    }

    var c := found.value;
    var estimatedTime := Eta(currentHeight, currentTime, c.height, avgBlockTime);
    action := Upserted(c.name, ActiveUpgradeRow(c.height, c.startTime, estimatedTime, c.info));
    db.activeUpgrade := db.activeUpgrade[c.name := ActiveUpgradeRow(c.height, c.startTime, estimatedTime, c.info)];
  }

  /** A proposal's own `content.plan` counts only when the proposal has no `messages` field. */
  lemma ContentPlanOnlyWithoutMessages(p: Proposal, c: Option<Content>)
    ensures p.messages.Some? ==> PlanOf(p.(content := c)) == PlanOf(p)
    ensures p.messages.None? ==> PlanOf(p) == (if p.content.Some? then p.content.value.plan else None)
  {
  }

  /** A `messages` field without an upgrade message yields no plan, even when the proposal's content holds one. */
  lemma NoUpgradeMessageNoPlan(p: Proposal)
    requires p.messages.Some? && forall j :: 0 <= j < |p.messages.value| ==> !IsUpgradeMsg(p.messages.value[j])
    ensures PlanOf(p) == None && UpgradeProposalOf(p) == None
  {
  }

  /**
   * The info line of a proposal's candidate is "<id>. <title>": the id falls
   * back from `id` to `proposal_id`, the title from `title` to the content's
   * title (or the plan's name when there is no content), and a value still
   * missing is written "undefined".
   */
  lemma ProposalInfo(p: Proposal, plan: Plan)
    requires PlanOf(p) == Some(plan)
    ensures UpgradeProposalOf(p).Some?
    ensures var info := ProposalCandidate(UpgradeProposalOf(p).value).info;
            var id := if Truthy(p.id) then p.id.value else Render(p.proposalId);
            && (Truthy(p.title) ==> info == id + ". " + p.title.value)
            && (!Truthy(p.title) && p.content.None? ==> info == id + ". " + plan.name)
            && (!Truthy(p.title) && p.content.Some? ==> info == id + ". " + Render(p.content.value.title))
            && (!Truthy(p.id) && p.proposalId.None? ==> info[..11] == "undefined. ")
  {
  }

  /** When the latest block cannot be read, `active_upgrade` is left as it is. */
  lemma UnchangedWithoutLatest(baseUrl: string, blocks: string -> Response<Block>, sampleTimes: string -> Option<int>,
                               proposals: string -> Response<seq<Proposal>>, plans: string -> Response<Option<Plan>>)
    requires !FetchSmartFrom(baseUrl, BlockPaths, blocks, 0).Got?
    ensures Decide(baseUrl, blocks, sampleTimes, proposals, plans) == Unchanged
  {
  }

  /**
   * A proposal with a plan settles the candidate: the current-plan endpoint
   * is not consulted, and the candidate is the latest-starting proposal,
   * dated by its voting start.
   */
  lemma ProposalsComeFirst(baseUrl: string, currentTime: int, proposals: string -> Response<seq<Proposal>>,
                           plans: string -> Response<Option<Plan>>, plans': string -> Response<Option<Plan>>)
    requires FetchSmartFrom(baseUrl, ProposalPaths, proposals, 0).Got?
    requires UpgradeProposals(FetchSmartFrom(baseUrl, ProposalPaths, proposals, 0).value) != []
    ensures ChooseCandidate(baseUrl, currentTime, proposals, plans) == ChooseCandidate(baseUrl, currentTime, proposals, plans')
    ensures var ups := UpgradeProposals(FetchSmartFrom(baseUrl, ProposalPaths, proposals, 0).value);
            var c := ChooseCandidate(baseUrl, currentTime, proposals, plans);
            && c.Some? && c.value.startTime == ups[LatestIndex(ups)].votingStart
            && forall j :: 0 <= j < |ups| ==> ups[j].votingStart <= c.value.startTime
  {
  }

  /** Without a proposal plan, the current plan is the candidate, started at the latest block's time; with neither, there is none. */
  lemma CurrentPlanFallback(baseUrl: string, currentTime: int, proposals: string -> Response<seq<Proposal>>,
                            plans: string -> Response<Option<Plan>>)
    requires var props := FetchSmartFrom(baseUrl, ProposalPaths, proposals, 0);
             !props.Got? || UpgradeProposals(props.value) == []
    ensures var planRes := FetchSmartFrom(baseUrl, PlanPaths, plans, 0);
            var c := ChooseCandidate(baseUrl, currentTime, proposals, plans);
            && (c.Some? <==> planRes.Got? && planRes.value.Some?)
            && (c.Some? ==> c.value.startTime == currentTime && c.value.name == planRes.value.value.name &&
                            c.value.info == "Scheduled Upgrade: " + c.value.name)
  {
  }

  /**
   * With the latest block read: no candidate clears the table, and a
   * candidate is stored under its plan name even when its height is already
   * reached, in which case it is estimated for the current time.
   */
  lemma DecideWithLatest(baseUrl: string, blocks: string -> Response<Block>, sampleTimes: string -> Option<int>,
                         proposals: string -> Response<seq<Proposal>>, plans: string -> Response<Option<Plan>>)
    requires FetchSmartFrom(baseUrl, BlockPaths, blocks, 0).Got?
    ensures var block := FetchSmartFrom(baseUrl, BlockPaths, blocks, 0).value;
            var c := ChooseCandidate(baseUrl, block.time, proposals, plans);
            var action := Decide(baseUrl, blocks, sampleTimes, proposals, plans);
            && (action == Cleared <==> c.None?)
            && (c.Some? ==> action.Upserted? && action.name == c.value.name && action.row.targetHeight == c.value.height)
            && (c.Some? && c.value.height <= block.height ==> action.row.estimatedTime == block.time as real)
  {
    var block := FetchSmartFrom(baseUrl, BlockPaths, blocks, 0).value;
    var c := ChooseCandidate(baseUrl, block.time, proposals, plans);
    if c.Some? {
      var latest := FetchSmartFrom(baseUrl, BlockPaths, blocks, 0);
      var avg := AvgBlockTime(block.height, block.time, sampleTimes(SampleUrl(baseUrl, latest.path, block.height)));
      EtaSpec(block.height, block.time, c.value.height, c.value.height, avg);
    }
  }
}
