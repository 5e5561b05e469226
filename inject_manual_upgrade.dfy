/**
 * injectManualUpgrade.js: a one-shot script that writes upgrades listed by
 * hand, per chain, into `history_upgrades` and, for those still ahead, into
 * `active_upgrade`, then archives the list once anything was injected. The
 * clock is the parameter `now`; whether a database file exists is whether
 * the chain comes with a `Database`.
 */
module InjectManualUpgrade {
  import opened Base
  import opened Store

  /**
   * Where an entry's `try` block throws, if it does: at the history insert,
   * at the `active_upgrade` insert, or at the log line that formats the
   * estimate (`toISOString` of a NaN). The last two are only reached for an
   * upgrade still ahead, and leave the earlier writes in place.
   */
  datatype ThrowPoint = NoThrow | AtHistoryWrite | AtActiveWrite | AtEtaLog

  /** One entry of the list; `throws` says where its catch block takes over. */
  datatype ManualUpgrade = ManualUpgrade(
    planName: string,
    targetHeight: int,
    votingStartTime: Option<int>,
    proposalId: Option<string>,
    proposalTitle: Option<string>,
    status: string,
    avgBlockTime: Option<real>,
    throws: ThrowPoint)

  /** `value || fallback` for a string that may be missing. */
  function OrElse(s: Option<string>, fallback: string): string
  {
    if s.Some? && s.value != "" then s.value else fallback
  }

  /** The voting start: the given time, or now. */
  function VotingStart(u: ManualUpgrade, now: int): int
  {
    if u.votingStartTime.Some? then u.votingStartTime.value else now
  }

  /** The `history_upgrades` row: not yet upgraded, with 'MANUAL', the plan name and 'scheduled' standing in for what is missing. */
  function HistoryRow(u: ManualUpgrade, now: int): UpgradeHistoryRow
  {
    UpgradeHistoryRow(u.targetHeight, None, VotingStart(u, now), OrElse(u.proposalId, "MANUAL"),
                      OrElse(u.proposalTitle, u.planName), if u.status != "" then u.status else "scheduled")
  }

  /** Seconds per block: the entry's, or 6 when it gives none (or 0). */
  function BlockSeconds(u: ManualUpgrade): real
  {
    if u.avgBlockTime.Some? && u.avgBlockTime.value != 0.0 then u.avgBlockTime.value else 6.0
  }

  /** The `active_upgrade` row of an upgrade still ahead of `currentHeight`. */
  function ActiveRow(u: ManualUpgrade, currentHeight: int, now: int): ActiveUpgradeRow
  {
    ActiveUpgradeRow(u.targetHeight, VotingStart(u, now),
                     now as real + (u.targetHeight - currentHeight) as real * BlockSeconds(u) * 1000.0,
                     Render(u.proposalId) + ": " + Render(u.proposalTitle))
  }

  /** The estimate lies after now by the remaining blocks at the entry's pace (6 s by default). */
  lemma ActiveRowEta(u: ManualUpgrade, currentHeight: int, now: int)
    requires u.targetHeight > currentHeight
    ensures ActiveRow(u, currentHeight, now).estimatedTime - now as real ==
              (u.targetHeight - currentHeight) as real * BlockSeconds(u) * 1000.0
    ensures u.avgBlockTime.None? ==> ActiveRow(u, currentHeight, now).estimatedTime == (now + (u.targetHeight - currentHeight) * 6000) as real
    ensures BlockSeconds(u) > 0.0 ==> ActiveRow(u, currentHeight, now).estimatedTime > now as real
  {
    var blocks := (u.targetHeight - currentHeight) as real;
    if BlockSeconds(u) > 0.0 {
      assert blocks * BlockSeconds(u) > 0.0;
    }
  }

  /** The history insert of the entry runs to completion. */
  predicate HistoryWritten(u: ManualUpgrade)
  {
    u.throws != AtHistoryWrite
  }

  /** The entry is still ahead and its `active_upgrade` insert runs to completion. */
  predicate ActiveWritten(u: ManualUpgrade, currentHeight: int)
  {
    u.targetHeight > currentHeight && u.throws != AtHistoryWrite && u.throws != AtActiveWrite
  }

  /** The entry reaches `totalInjected++`: it does not throw, or throws only where a passed upgrade never goes. */
  predicate Counted(u: ManualUpgrade, currentHeight: int)
  {
    u.throws == NoThrow || (u.throws != AtHistoryWrite && u.targetHeight <= currentHeight)
  }

  /** `history_upgrades` after the entries, in order: INSERT OR REPLACE for each whose insert completes. */
  function HistoryAfter(hist: map<string, UpgradeHistoryRow>, ups: seq<ManualUpgrade>, now: int): map<string, UpgradeHistoryRow>
  {
    if ups == [] then hist
    else
      var h := HistoryAfter(hist, ups[..|ups| - 1], now);
      var u := ups[|ups| - 1];
      if !HistoryWritten(u) then h else h[u.planName := HistoryRow(u, now)]
  }

  /** `active_upgrade` after the entries: INSERT OR REPLACE for each still ahead whose insert completes. */
  function ActiveAfter(active: map<string, ActiveUpgradeRow>, ups: seq<ManualUpgrade>, currentHeight: int, now: int): map<string, ActiveUpgradeRow>
  {
    if ups == [] then active
    else
      var a := ActiveAfter(active, ups[..|ups| - 1], currentHeight, now);
      var u := ups[|ups| - 1];
      if !ActiveWritten(u, currentHeight) then a else a[u.planName := ActiveRow(u, currentHeight, now)]
  }

  /** `totalInjected`'s share of the entries: those that reach the increment. */
  function Injected(ups: seq<ManualUpgrade>, currentHeight: int): (n: nat)
    ensures n <= |ups|
  {
    if ups == [] then 0
    else Injected(ups[..|ups| - 1], currentHeight) + (if Counted(ups[|ups| - 1], currentHeight) then 1 else 0)
  }

  /** Nothing is injected exactly when no entry reaches the increment. */
  lemma {:induction false} InjectedNone(ups: seq<ManualUpgrade>, currentHeight: int)
    ensures Injected(ups, currentHeight) == 0 <==> forall i :: 0 <= i < |ups| ==> !Counted(ups[i], currentHeight)
  {
    if ups != [] {
      var init := ups[..|ups| - 1];
      InjectedNone(init, currentHeight);
      assert forall i :: 0 <= i < |init| ==> ups[i] == init[i];
    }
  }

  /** A plan's history row is that of its last entry whose insert completed: a later entry replaces an earlier one. */
  lemma {:induction false} HistoryLastWins(hist: map<string, UpgradeHistoryRow>, ups: seq<ManualUpgrade>, now: int, i: nat)
    requires i < |ups| && HistoryWritten(ups[i])
    requires forall j :: i < j < |ups| ==> !HistoryWritten(ups[j]) || ups[j].planName != ups[i].planName
    ensures ups[i].planName in HistoryAfter(hist, ups, now)
    ensures HistoryAfter(hist, ups, now)[ups[i].planName] == HistoryRow(ups[i], now)
  {
    var init := ups[..|ups| - 1];
    if i < |ups| - 1 {
      assert forall j :: i < j < |init| ==> init[j] == ups[j];
      HistoryLastWins(hist, init, now, i);
    }
  }

  /** A plan none of whose entries is both written and still ahead keeps its `active_upgrade` row, or its absence. */
  lemma {:induction false} ActiveOnlyAhead(active: map<string, ActiveUpgradeRow>, ups: seq<ManualUpgrade>, currentHeight: int, now: int, k: string)
    requires forall j :: 0 <= j < |ups| && ups[j].planName == k ==> !ActiveWritten(ups[j], currentHeight)
    ensures k in ActiveAfter(active, ups, currentHeight, now) <==> k in active
    ensures k in active ==> ActiveAfter(active, ups, currentHeight, now)[k] == active[k]
  {
    if ups != [] {
      var init := ups[..|ups| - 1];
      assert forall j :: 0 <= j < |init| ==> init[j] == ups[j];
      ActiveOnlyAhead(active, init, currentHeight, now, k);
    }
  }

  /** An entry still ahead that is written, and not replaced by a later one, is the plan's active upgrade. */
  lemma {:induction false} ActiveLastWins(active: map<string, ActiveUpgradeRow>, ups: seq<ManualUpgrade>, currentHeight: int, now: int, i: nat)
    requires i < |ups| && ActiveWritten(ups[i], currentHeight)
    requires forall j :: i < j < |ups| ==> !ActiveWritten(ups[j], currentHeight) || ups[j].planName != ups[i].planName
    ensures ups[i].planName in ActiveAfter(active, ups, currentHeight, now)
    ensures ActiveAfter(active, ups, currentHeight, now)[ups[i].planName] == ActiveRow(ups[i], currentHeight, now)
  {
    var init := ups[..|ups| - 1];
    if i < |ups| - 1 {
      assert forall j :: i < j < |init| ==> init[j] == ups[j];
      ActiveLastWins(active, init, currentHeight, now, i);
    }
  }

  /**
   * An entry still ahead whose estimate cannot be formatted is written to
   * both tables and yet not counted, so `totalInjected` can understate what
   * was written.
   */
  lemma WrittenNotCounted(hist: map<string, UpgradeHistoryRow>, active: map<string, ActiveUpgradeRow>, u: ManualUpgrade, currentHeight: int, now: int)
    requires u.targetHeight > currentHeight && u.throws == AtEtaLog
    ensures HistoryAfter(hist, [u], now) == hist[u.planName := HistoryRow(u, now)]
    ensures ActiveAfter(active, [u], currentHeight, now) == active[u.planName := ActiveRow(u, currentHeight, now)]
    ensures Injected([u], currentHeight) == 0
  {
    assert [u][..0] == [];
  }

  /** How many entries complete their history insert. */
  function HistoryWrites(ups: seq<ManualUpgrade>): (n: nat)
    ensures n <= |ups|
  {
    if ups == [] then 0
    else HistoryWrites(ups[..|ups| - 1]) + (if HistoryWritten(ups[|ups| - 1]) then 1 else 0)
  }

  /** Every counted entry was written to `history_upgrades`, so the count never exceeds the history writes. */
  lemma {:induction false} CountedWritten(ups: seq<ManualUpgrade>, currentHeight: int)
    ensures Injected(ups, currentHeight) <= HistoryWrites(ups)
  {
    if ups != [] {
      CountedWritten(ups[..|ups| - 1], currentHeight);
    }
  }

  /** The per-chain loop over its upgrades; the table `history_upgrades` exists. */
  method InjectChain(db: Database, upgrades: seq<ManualUpgrade>, currentHeight: int, now: int) returns (injected: nat)
    requires db.upgradeHistory.Some?
    modifies db`upgradeHistory, db`activeUpgrade
    ensures db.upgradeHistory == Some(HistoryAfter(old(db.upgradeHistory.value), upgrades, now))
    ensures db.activeUpgrade == ActiveAfter(old(db.activeUpgrade), upgrades, currentHeight, now)
    ensures injected == Injected(upgrades, currentHeight)
  {
    ghost var hist0, active0 := db.upgradeHistory.value, db.activeUpgrade;
    injected := 0;
    for i := 0 to |upgrades|
      invariant db.upgradeHistory == Some(HistoryAfter(hist0, upgrades[..i], now))
      invariant db.activeUpgrade == ActiveAfter(active0, upgrades[..i], currentHeight, now)
      invariant injected == Injected(upgrades[..i], currentHeight)
    {
      var upgrade := upgrades[i];
      assert upgrades[..i + 1][..i] == upgrades[..i];
      if upgrade.throws == AtHistoryWrite {
        // the catch block: nothing written, nothing counted
        continue;
      }
      db.upgradeHistory := Some(db.upgradeHistory.value[upgrade.planName := HistoryRow(upgrade, now)]);
      if upgrade.targetHeight > currentHeight {
        if upgrade.throws == AtActiveWrite {
          // the history row stays written, but the entry is not counted
          continue;
        }
        db.activeUpgrade := db.activeUpgrade[upgrade.planName := ActiveRow(upgrade, currentHeight, now)];
        if upgrade.throws == AtEtaLog {
          // both rows stay written, but the entry is not counted
          continue;
        }
      }
      injected := injected + 1;
    }
    assert upgrades[..|upgrades|] == upgrades;
  }

  /** The largest of a set of heights, 0 for none. */
  ghost function MaxOf(hs: set<nat>): (m: nat)
    ensures hs == {} ==> m == 0
    ensures hs != {} ==> m in hs && forall h :: h in hs ==> h <= m
    decreases hs
  {
    if hs == {} then 0
    else
      var h :| h in hs;
      var rest := MaxOf(hs - {h});
      assert forall x :: x in hs ==> x == h || x in hs - {h};
      if rest <= h then h else rest
  }

  /** The chain's current height: `MAX(last_height)`, whose NULL on an empty table compares and subtracts as 0. */
  ghost function CurrentHeight(syncStatus: map<string, nat>): nat
  {
    MaxOf(syncStatus.Values)
  }

  /** The current height is 0 for an empty `sync_status`, and otherwise a stored height at least every other. */
  lemma CurrentHeightSpec(syncStatus: map<string, nat>)
    ensures syncStatus == map[] ==> CurrentHeight(syncStatus) == 0
    ensures syncStatus != map[] ==>
              (exists k :: k in syncStatus && syncStatus[k] == CurrentHeight(syncStatus)) &&
              forall k :: k in syncStatus ==> syncStatus[k] <= CurrentHeight(syncStatus)
  {
    var m := CurrentHeight(syncStatus);
    if syncStatus != map[] {
      var k0 :| k0 in syncStatus;
      assert syncStatus[k0] in syncStatus.Values;
      assert m in syncStatus.Values;
      forall k | k in syncStatus
        ensures syncStatus[k] <= m
      {
        assert syncStatus[k] in syncStatus.Values;
      }
    }
  }

  /** A stored height at least every other is the current height: the query's answer is determined. */
  lemma CurrentHeightUnique(syncStatus: map<string, nat>, h: nat)
    requires exists k :: k in syncStatus && syncStatus[k] == h
    requires forall k :: k in syncStatus ==> syncStatus[k] <= h
    ensures h == CurrentHeight(syncStatus)
  {
    CurrentHeightSpec(syncStatus);
    var k :| k in syncStatus && syncStatus[k] == h;
    var k' :| k' in syncStatus && syncStatus[k'] == CurrentHeight(syncStatus);
  }

  /** A chain of the config: its name and its database, if the file exists. */
  datatype ChainDb = ChainDb(name: string, db: Option<Database>)

  function Dbs(chains: seq<ChainDb>): set<Database>
  {
    set i | 0 <= i < |chains| && chains[i].db.Some? :: chains[i].db.value
  }

  /** How the script ends: with the total and whether the list was archived, or killed by an uncaught exception. */
  datatype InjectOutcome = Finished(totalInjected: nat, archived: bool) | Crashed

  /** Whether a chain is worked on: its database exists and the list has upgrades for it. */
  predicate HasWork(c: ChainDb, manual: map<string, seq<ManualUpgrade>>)
  {
    c.db.Some? && c.name in manual && manual[c.name] != []
  }

  /**
   * The outcome of the chains from the i-th on. Preparing the insert into a
   * missing `history_upgrades` throws outside any catch and ends the script.
   */
  ghost function RunFrom(chains: seq<ChainDb>, manual: map<string, seq<ManualUpgrade>>, i: nat, total: nat): InjectOutcome
    reads Dbs(chains)
    decreases |chains| - i
  {
    if i >= |chains| then Finished(total, total > 0)
    else if !HasWork(chains[i], manual) then RunFrom(chains, manual, i + 1, total)
    else if chains[i].db.value.upgradeHistory.None? then Crashed
    else RunFrom(chains, manual, i + 1, total + Injected(manual[chains[i].name], CurrentHeight(chains[i].db.value.syncStatus)))
  }

  /** The list is archived exactly when the script gets through every chain and injected something. */
  lemma {:induction false} ArchiveIffInjected(chains: seq<ChainDb>, manual: map<string, seq<ManualUpgrade>>, i: nat, total: nat)
    ensures RunFrom(chains, manual, i, total).Finished? ==>
              RunFrom(chains, manual, i, total).totalInjected >= total &&
              (RunFrom(chains, manual, i, total).archived <==> RunFrom(chains, manual, i, total).totalInjected > 0)
    decreases |chains| - i
  {
    if i < |chains| {
      ArchiveIffInjected(chains, manual, i + 1, total);
      if HasWork(chains[i], manual) {
        ArchiveIffInjected(chains, manual, i + 1, total + Injected(manual[chains[i].name], CurrentHeight(chains[i].db.value.syncStatus)));
      }
    }
  }

  /** Every chain of the config has its own database file. */
  predicate DistinctDbs(chains: seq<ChainDb>)
  {
    forall a, b :: 0 <= a < b < |chains| && chains[a].db.Some? && chains[b].db.Some? ==>
      chains[a].db.value != chains[b].db.value
  }

  /** No chain before the j-th makes the script crash. */
  ghost predicate Reached(chains: seq<ChainDb>, manual: map<string, seq<ManualUpgrade>>, j: nat)
    reads Dbs(chains)
  {
    forall i :: 0 <= i < j && i < |chains| && HasWork(chains[i], manual) ==> chains[i].db.value.upgradeHistory.Some?
  }

  /** Whether the script writes the j-th chain's database: it is reached, has work and its `history_upgrades` exists. */
  ghost predicate Processed(chains: seq<ChainDb>, manual: map<string, seq<ManualUpgrade>>, j: nat)
    reads Dbs(chains)
  {
    j < |chains| && Reached(chains, manual, j) && HasWork(chains[j], manual) && chains[j].db.value.upgradeHistory.Some?
  }

  /**
   * The loop over the config's chains, and the archive decision. A chain the
   * script works on gets its list written into both tables, at the height
   * `MAX(last_height)` its `sync_status` gave; every other database, and
   * every other table, is left as it was.
   */
  method InjectManualUpgrades(chains: seq<ChainDb>, manual: map<string, seq<ManualUpgrade>>, now: int) returns (outcome: InjectOutcome)
    requires DistinctDbs(chains)
    modifies Dbs(chains)`upgradeHistory, Dbs(chains)`activeUpgrade
    ensures outcome == old(RunFrom(chains, manual, 0, 0))
    ensures forall j :: 0 <= j < |chains| && old(Processed(chains, manual, j)) ==>
              var db := chains[j].db.value;
              && db.upgradeHistory == Some(HistoryAfter(old(db.upgradeHistory.value), manual[chains[j].name], now))
              && db.activeUpgrade == ActiveAfter(old(db.activeUpgrade), manual[chains[j].name], CurrentHeight(old(db.syncStatus)), now)
    ensures forall j :: 0 <= j < |chains| && chains[j].db.Some? && !old(Processed(chains, manual, j)) ==>
              var db := chains[j].db.value;
              db.upgradeHistory == old(db.upgradeHistory) && db.activeUpgrade == old(db.activeUpgrade)
  {
    var totalInjected := 0;
    for i := 0 to |chains|
      invariant old(RunFrom(chains, manual, i, totalInjected)) == old(RunFrom(chains, manual, 0, 0))
      invariant old(Reached(chains, manual, i))
      invariant forall j :: 0 <= j < i && old(Processed(chains, manual, j)) ==>
                  var db := chains[j].db.value;
                  && db.upgradeHistory == Some(HistoryAfter(old(db.upgradeHistory.value), manual[chains[j].name], now))
                  && db.activeUpgrade == ActiveAfter(old(db.activeUpgrade), manual[chains[j].name], CurrentHeight(old(db.syncStatus)), now)
      invariant forall j :: 0 <= j < |chains| && chains[j].db.Some? && (i <= j || !old(Processed(chains, manual, j))) ==>
                  var db := chains[j].db.value;
                  db.upgradeHistory == old(db.upgradeHistory) && db.activeUpgrade == old(db.activeUpgrade)
    {
      var chain := chains[i];
      if chain.db.None? {
        continue;
      }
      if chain.name !in manual || manual[chain.name] == [] {
        continue;
      }
      var db := chain.db.value;
      assert db in Dbs(chains);
      if db.upgradeHistory.None? {
        // `db.prepare` of the insert throws: the script dies here
        NotReachedAfter(chains, manual, i);
        return Crashed;
      }
      var maxHeight := MaxLastHeight(db.syncStatus);
      // NULL from an empty table compares as 0
      var currentHeight := if maxHeight.Some? then maxHeight.value else 0;
      if maxHeight.Some? {
        CurrentHeightUnique(db.syncStatus, currentHeight);
      } else {
        CurrentHeightSpec(db.syncStatus);
      }
      var injected := InjectChain(db, manual[chain.name], currentHeight, now);
      totalInjected := totalInjected + injected;
    }
    // archive and delete the list only when something was injected
    return Finished(totalInjected, totalInjected > 0);
  }

  /** Past a chain that crashes the script no chain is reached. */
  lemma NotReachedAfter(chains: seq<ChainDb>, manual: map<string, seq<ManualUpgrade>>, i: nat)
    requires i < |chains| && HasWork(chains[i], manual) && chains[i].db.value.upgradeHistory.None?
    ensures forall j :: i < j ==> !Reached(chains, manual, j)
  {
  }
}
