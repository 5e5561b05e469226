/**
 * server.js, the read side: the chain-name sanitiser that picks a database
 * file, the vote tally of one proposal, and the choice of the upgrade to
 * report. Express routing, SQL text and JSON rendering are not modelled.
 */
module Server {
  import opened Base
  import opened Store

  /** The characters the sanitiser keeps: [A-Za-z0-9_-]. */
  predicate Kept(c: char)
  {
    ('a' <= c <= 'z') || ('A' <= c <= 'Z') || ('0' <= c <= '9') || c == '_' || c == '-'
  }

  predicate AllKept(s: string)
  {
    forall i :: 0 <= i < |s| ==> Kept(s[i])
  }

  /** `chainName.replace(/[^a-zA-Z0-9_-]/g, '')`. */
  function Sanitize(s: string): (r: string)
    ensures AllKept(r) && |r| <= |s|
  {
    if s == [] then []
    else Sanitize(s[..|s| - 1]) + (if Kept(s[|s| - 1]) then [s[|s| - 1]] else [])
  }

  /** Sanitising works piece by piece, so it keeps the kept characters in their order. */
  lemma {:induction false} SanitizeAppend(s: string, t: string)
    ensures Sanitize(s + t) == Sanitize(s) + Sanitize(t)
    decreases |t|
  {
    if t == [] {
      assert s + t == s;
    } else {
      var t' := t[..|t| - 1];
      assert (s + t)[..|s + t| - 1] == s + t';
      SanitizeAppend(s, t');
    }
  }

  /** A name made of kept characters comes through unchanged. */
  lemma {:induction false} SanitizeKeepsClean(s: string)
    requires AllKept(s)
    ensures Sanitize(s) == s
  {
    if s != [] {
      var init := s[..|s| - 1];
      assert AllKept(init) by {
        forall i | 0 <= i < |init|
          ensures Kept(init[i])
        {
          assert init[i] == s[i];
        }
      }
      SanitizeKeepsClean(init);
      assert Kept(s[|s| - 1]);
      assert init + [s[|s| - 1]] == s;
    }
  }

  /** Sanitising twice is sanitising once. */
  lemma SanitizeIdempotent(s: string)
    ensures Sanitize(Sanitize(s)) == Sanitize(s)
  {
    SanitizeKeepsClean(Sanitize(s));
  }

  /** Every kept character of the name, and only those, in the name's order: the multiset of the result is that of the kept characters. */
  lemma {:induction false} SanitizeCounts(s: string, c: char)
    ensures multiset(Sanitize(s))[c] == if Kept(c) then multiset(s)[c] else 0
  {
    if s != [] {
      var init := s[..|s| - 1];
      SanitizeCounts(init, c);
      assert s == init + [s[|s| - 1]];
    }
  }

  /** The database file a request opens; the sanitised name holds neither '/' nor '.', so the path stays inside ./data. */
  function DbPath(chainName: string): (p: string)
    ensures p == "./data/" + Sanitize(chainName) + ".db"
    ensures forall i :: 0 <= i < |Sanitize(chainName)| ==> Sanitize(chainName)[i] != '/' && Sanitize(chainName)[i] != '.'
  {
    "./data/" + Sanitize(chainName) + ".db"
  }

  /** The tally's six counters. */
  const TallyKeys: set<string> := {"YES", "NO", "NO_WITH_VETO", "ABSTAIN", "UNKNOWN", "TOTAL"}

  const EmptyTally: map<string, nat> := map["YES" := 0, "NO" := 0, "NO_WITH_VETO" := 0, "ABSTAIN" := 0, "UNKNOWN" := 0, "TOTAL" := 0]

  /** `v.vote_option || 'UNKNOWN'`. */
  function OptionOf(v: Option<string>): string
  {
    if v.Some? && v.value != "" then v.value else "UNKNOWN"
  }

  /** The body of the `forEach`: the option's own counter if the tally has one, else UNKNOWN; then TOTAL. */
  function TallyStep(t: map<string, nat>, v: Option<string>): map<string, nat>
    requires t.Keys == TallyKeys
  {
    var opt := OptionOf(v);
    var t := if opt in t then t[opt := t[opt] + 1] else t["UNKNOWN" := t["UNKNOWN"] + 1];
    t["TOTAL" := t["TOTAL"] + 1]
  }

  /** One vote on the counters: its own counter, or UNKNOWN, goes up by one, and TOTAL too. */
  lemma TallyStepEntries(t: map<string, nat>, v: Option<string>)
    requires t.Keys == TallyKeys
    ensures TallyStep(t, v).Keys == TallyKeys
    ensures TallyStep(t, v)["TOTAL"] == t["TOTAL"] + (if OptionOf(v) == "TOTAL" then 2 else 1)
    ensures forall k :: k in TallyKeys && k != "TOTAL" ==>
              TallyStep(t, v)[k] == t[k] + (if OptionOf(v) == k || (k == "UNKNOWN" && OptionOf(v) !in TallyKeys) then 1 else 0)
  {
  }

  /** The tally of the vote options, in order. */
  function TallyOf(votes: seq<Option<string>>): (t: map<string, nat>)
    ensures t.Keys == TallyKeys
  {
    if votes == [] then EmptyTally else TallyStep(TallyOf(votes[..|votes| - 1]), votes[|votes| - 1])
  }

  /** The votes' tally, counted as the route counts it. */
  method Tally(votes: seq<Option<string>>) returns (tally: map<string, nat>)
    ensures tally == TallyOf(votes)
  {
    tally := EmptyTally;
    for i := 0 to |votes|
      invariant tally == TallyOf(votes[..i])
    {
      assert votes[..i + 1][..i] == votes[..i];
      assert TallyOf(votes[..i + 1]) == TallyStep(tally, votes[i]);
      var opt := OptionOf(votes[i]);
      if opt in tally {
        tally := tally[opt := tally[opt] + 1];
      } else {
        tally := tally["UNKNOWN" := tally["UNKNOWN"] + 1];
      }
      tally := tally["TOTAL" := tally["TOTAL"] + 1];
    }
    assert votes[..|votes|] == votes;
  }

  /** How many of the votes carry a given option. */
  function CountOption(votes: seq<Option<string>>, opt: string): (n: nat)
    ensures n <= |votes|
  {
    if votes == [] then 0
    else CountOption(votes[..|votes| - 1], opt) + (if OptionOf(votes[|votes| - 1]) == opt then 1 else 0)
  }

  function FiveSum(t: map<string, nat>): nat
    requires t.Keys == TallyKeys
  {
    t["YES"] + t["NO"] + t["NO_WITH_VETO"] + t["ABSTAIN"] + t["UNKNOWN"]
  }

  /**
   * Every vote adds one to TOTAL and one to exactly one of the five option
   * counters, except a vote whose option is literally 'TOTAL': it adds two
   * to TOTAL and nothing to the five.
   */
  lemma {:induction false} TallySums(votes: seq<Option<string>>)
    ensures TallyOf(votes)["TOTAL"] == |votes| + CountOption(votes, "TOTAL")
    ensures FiveSum(TallyOf(votes)) + CountOption(votes, "TOTAL") == |votes|
  {
    if votes != [] {
      var init := votes[..|votes| - 1];
      TallySums(init);
      TallyStepEntries(TallyOf(init), votes[|votes| - 1]);
    }
  }

  /** Each of the four named options counts exactly the votes that carry it. */
  lemma {:induction false} TallyCounts(votes: seq<Option<string>>, opt: string)
    requires opt in {"YES", "NO", "NO_WITH_VETO", "ABSTAIN"}
    ensures TallyOf(votes)[opt] == CountOption(votes, opt)
  {
    if votes != [] {
      var init := votes[..|votes| - 1];
      TallyCounts(init, opt);
      TallyStepEntries(TallyOf(init), votes[|votes| - 1]);
    }
  }

  /** UNKNOWN counts every vote whose option has no counter of its own: missing, empty, UNSPECIFIED or anything else. */
  lemma {:induction false} TallyUnknown(votes: seq<Option<string>>)
    ensures TallyOf(votes)["UNKNOWN"] == |votes| - CountOutside(votes)
  {
    if votes != [] {
      var init := votes[..|votes| - 1];
      TallyUnknown(init);
      TallyStepEntries(TallyOf(init), votes[|votes| - 1]);
    }
  }

  /** How many votes carry an option that has a counter of its own other than UNKNOWN. */
  function CountOutside(votes: seq<Option<string>>): (n: nat)
    ensures n <= |votes|
  {
    if votes == [] then 0
    else CountOutside(votes[..|votes| - 1]) +
         (if OptionOf(votes[|votes| - 1]) in TallyKeys - {"UNKNOWN"} then 1 else 0)
  }

  /** A vote with option 'TOTAL' is counted twice in TOTAL and in no option. */
  lemma TotalOptionCountedTwice()
    ensures TallyOf([Some("TOTAL")])["TOTAL"] == 2 && FiveSum(TallyOf([Some("TOTAL")])) == 0
  {
    assert [Some("TOTAL")][..0] == [];
  }

  /** What `/:chain/upgrade` reports: nothing active, or a row with the current height (None for NULL). */
  datatype UpgradeReport =
    | Inactive
    | Active(planName: string, row: ActiveUpgradeRow, currentHeight: Option<nat>)

  /** `ORDER BY target_height DESC LIMIT 1`: a row of greatest target height. */
  method TopUpgrade(active: map<string, ActiveUpgradeRow>) returns (top: Option<string>)
    ensures top.None? <==> active == map[]
    ensures top.Some? ==> top.value in active &&
                          forall k :: k in active ==> active[k].targetHeight <= active[top.value].targetHeight
  {
    top := None;
    var rest := active.Keys;
    while rest != {}
      invariant rest <= active.Keys
      invariant top.None? <==> rest == active.Keys
      invariant top.Some? ==> top.value in active &&
                              forall k :: k in active && k !in rest ==> active[k].targetHeight <= active[top.value].targetHeight
      decreases rest
    {
      var k :| k in rest;
      if top.None? || active[k].targetHeight > active[top.value].targetHeight {
        top := Some(k);
      }
      rest := rest - {k};
    }
    assert top.None? ==> active.Keys == {};
  }

  /** The `/:chain/upgrade` route on an open database. */
  method UpgradeStatus(db: Database) returns (report: UpgradeReport)
    ensures report.Inactive? <==> db.activeUpgrade == map[]
    ensures report.Active? ==>
              && report.planName in db.activeUpgrade
              && report.row == db.activeUpgrade[report.planName]
              && (forall k :: k in db.activeUpgrade ==> db.activeUpgrade[k].targetHeight <= report.row.targetHeight)
              && (report.currentHeight.None? <==> db.syncStatus == map[])
              && (report.currentHeight.Some? ==>
                    && (exists k :: k in db.syncStatus && db.syncStatus[k] == report.currentHeight.value)
                    && (forall k :: k in db.syncStatus ==> db.syncStatus[k] <= report.currentHeight.value))
  {
    var top := TopUpgrade(db.activeUpgrade);
    var currentHeight := MaxLastHeight(db.syncStatus);
    if top.None? {
      return Inactive;
    }
    return Active(top.value, db.activeUpgrade[top.value], currentHeight);
  }
}
