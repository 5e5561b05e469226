/**
 * src/processors/genesis.js: a one-time import of the validators a chain
 * starts with. Every validator of the genesis file (its gentxs first, then
 * the staking module's validator list) gets one history row at height 0
 * and, unless it already has one, a profile; an address seen before is
 * skipped. All writes happen in one database transaction.
 */
module Genesis {
  import opened Base
  import opened Ledger
  import opened Store

  /** An entry of `app_state.staking.validators`; the address may be missing. */
  datatype StateValidator = StateValidator(operatorAddress: Option<string>, description: Description, commissionRate: string)

  /** The parts of a genesis document the import reads; a gentx is its list of messages. */
  datatype GenesisDoc = GenesisDoc(genesisTime: string, genTxs: seq<seq<Msg>>, stateValidators: seq<StateValidator>)

  /** A parsed genesis file: either the document itself or an RPC response holding it as `result.genesis`. */
  datatype GenesisFile = GenesisFile(resultGenesis: Option<GenesisDoc>, doc: GenesisDoc)

  /** `new Date(0).toISOString()`. */
  const Epoch: string := "1970-01-01T00:00:00.000Z"

  /** The RPC wrapper is removed when present. */
  function Unwrap(file: GenesisFile): GenesisDoc
  {
    if file.resultGenesis.Some? then file.resultGenesis.value else file.doc
  }

  function GenesisTime(doc: GenesisDoc): string
  {
    if doc.genesisTime != "" then doc.genesisTime else Epoch
  }

  /** The arguments of one `saveValidator` call, with the genesis time it stamps. */
  datatype Entry = Entry(address: Option<string>, moniker: string, details: Details, commissionRate: string, time: string)

  predicate IsCreateValidatorType(typeUrl: string)
  {
    Contains(typeUrl, "MsgCreateValidator")
  }

  function DetailsOf(d: Description): Details
  {
    Details(d.website, d.identity, d.details, d.securityContact)
  }

  /** A gentx contributes the validator of its first MsgCreateValidator, if it has one. */
  function GentxEntry(time: string, msgs: seq<Msg>): Option<Entry>
  {
    match FindMsg(msgs, IsCreateValidatorType)
    case None => None
    case Some(m) => Some(Entry(Some(m.validatorAddress), m.description.moniker, DetailsOf(m.description), m.commissionRate, time))
  }

  function GentxEntries(time: string, gentxs: seq<seq<Msg>>): seq<Entry>
  {
    if gentxs == [] then []
    else
      var init := GentxEntries(time, gentxs[..|gentxs| - 1]);
      match GentxEntry(time, gentxs[|gentxs| - 1])
      case None => init
      case Some(e) => init + [e]
  }

  /**
   * The gentx entries are exactly those of the gentxs holding a
   * MsgCreateValidator: every entry comes from some gentx, and every such
   * gentx gives an entry.
   */
  lemma {:induction false} GentxEntriesSpec(time: string, gentxs: seq<seq<Msg>>)
    ensures |GentxEntries(time, gentxs)| <= |gentxs|
    ensures forall e :: e in GentxEntries(time, gentxs) <==>
              exists j :: 0 <= j < |gentxs| && GentxEntry(time, gentxs[j]) == Some(e)
  {
    if gentxs != [] {
      var init := gentxs[..|gentxs| - 1];
      GentxEntriesSpec(time, init);
      forall e
        ensures e in GentxEntries(time, gentxs) <==>
                exists j :: 0 <= j < |gentxs| && GentxEntry(time, gentxs[j]) == Some(e)
      {
        if exists j :: 0 <= j < |gentxs| && GentxEntry(time, gentxs[j]) == Some(e) {
          var j :| 0 <= j < |gentxs| && GentxEntry(time, gentxs[j]) == Some(e);
          if j < |init| {
            assert init[j] == gentxs[j];
          }
        }
        if e in GentxEntries(time, init) {
          var j :| 0 <= j < |init| && GentxEntry(time, init[j]) == Some(e);
          assert gentxs[j] == init[j];
        }
      }
    }
  }

  /** The gentxs keep their order: the entries of a prefix of the gentxs are a prefix of the entries. */
  lemma {:induction false} GentxEntriesPrefix(time: string, gentxs: seq<seq<Msg>>, k: nat)
    requires k <= |gentxs|
    ensures GentxEntries(time, gentxs[..k]) <= GentxEntries(time, gentxs)
    decreases |gentxs|
  {
    if k < |gentxs| {
      var init := gentxs[..|gentxs| - 1];
      assert init[..k] == gentxs[..k];
      GentxEntriesPrefix(time, init, k);
    } else {
      assert gentxs[..k] == gentxs;
    }
  }

  /** Each state validator gives one entry, in order, carrying its address, description and rate. */
  function StateEntries(time: string, vs: seq<StateValidator>): (r: seq<Entry>)
    ensures |r| == |vs|
    ensures forall i :: 0 <= i < |vs| ==>
              r[i] == Entry(vs[i].operatorAddress, vs[i].description.moniker, DetailsOf(vs[i].description), vs[i].commissionRate, time)
  {
    if vs == [] then []
    else
      var v := vs[|vs| - 1];
      StateEntries(time, vs[..|vs| - 1]) +
        [Entry(v.operatorAddress, v.description.moniker, DetailsOf(v.description), v.commissionRate, time)]
  }

  /** Every `saveValidator` call, in order: the gentxs' validators, then the state validators. */
  function Entries(doc: GenesisDoc): seq<Entry>
  {
    var time := GenesisTime(doc);
    GentxEntries(time, doc.genTxs) + StateEntries(time, doc.stateValidators)
  }

  /** The address an entry is keyed by, once it is known to have one. */
  function AddrOf(e: Entry): string
  {
    if e.address.Some? then e.address.value else ""
  }

  predicate AllAddressed(es: seq<Entry>)
  {
    forall i :: 0 <= i < |es| ==> es[i].address.Some?
  }

  function Addrs(es: seq<Entry>): set<string>
  {
    set i | 0 <= i < |es| :: AddrOf(es[i])
  }

  /** The initial diff: commission from '0' and the description fields from 'N/A', each only when present. */
  function GenesisDiff(e: Entry): Diff
  {
    var d := AddIfPresent(map[], "commission_rate", "0", e.commissionRate);
    var d := AddIfPresent(d, "moniker", "N/A", e.moniker);
    var d := AddIfPresent(d, "website", "N/A", e.details.website);
    var d := AddIfPresent(d, "identity", "N/A", e.details.identity);
    var d := AddIfPresent(d, "details", "N/A", e.details.details);
    AddIfPresent(d, "security_contact", "N/A", e.details.securityContact)
  }

  /** The value an entry carries for a history field; the genesis import records no min_self_delegation. */
  function GenesisValue(e: Entry, f: string): string
  {
    if f == "commission_rate" then e.commissionRate
    else if f == "moniker" then e.moniker
    else if f == "website" then e.details.website
    else if f == "identity" then e.details.identity
    else if f == "details" then e.details.details
    else if f == "security_contact" then e.details.securityContact
    else ""
  }

  /** A field is in the genesis diff exactly when the entry carries it, and it changes from '0' or 'N/A' to that value. */
  lemma GenesisDiffEntry(e: Entry, f: string)
    ensures f in GenesisDiff(e) <==> f in HistoryFields - {"min_self_delegation"} && GenesisValue(e, f) != ""
    ensures f in GenesisDiff(e) ==>
              GenesisDiff(e)[f] == Change(if f == "commission_rate" then "0" else "N/A", GenesisValue(e, f))
  {
    var d1 := AddIfPresent(map[], "commission_rate", "0", e.commissionRate);
    var d2 := AddIfPresent(d1, "moniker", "N/A", e.moniker);
    var d3 := AddIfPresent(d2, "website", "N/A", e.details.website);
    var d4 := AddIfPresent(d3, "identity", "N/A", e.details.identity);
    var d5 := AddIfPresent(d4, "details", "N/A", e.details.details);
    AddIfPresentEntry(map[], "commission_rate", "0", e.commissionRate, f);
    AddIfPresentEntry(d1, "moniker", "N/A", e.moniker, f);
    AddIfPresentEntry(d2, "website", "N/A", e.details.website, f);
    AddIfPresentEntry(d3, "identity", "N/A", e.details.identity, f);
    AddIfPresentEntry(d4, "details", "N/A", e.details.details, f);
    AddIfPresentEntry(d5, "security_contact", "N/A", e.details.securityContact, f);
  }

  /** The height-0 row of a validator, keyed by a synthetic hash built from the address's last 8 characters. */
  function GenesisRow(e: Entry): (r: EditRow)
    ensures KeyOf(r) == ("GENESIS_" + SliceLast(AddrOf(e), 8), AddrOf(e)) && r.height == 0
  {
    EditRow("GENESIS_" + SliceLast(AddrOf(e), 8), AddrOf(e), GenesisDiff(e), 0, e.time)
  }

  /** The profile a validator starts with: 'Unknown' and '0' stand in for a missing moniker and commission. */
  function GenesisProfile(e: Entry): Profile
  {
    Profile(if e.moniker != "" then e.moniker else "Unknown", e.details,
            if e.commissionRate != "" then e.commissionRate else "0", e.time)
  }

  /** What the import transaction has built so far: the two tables, `processedAddr` and `count`. */
  datatype ImportState = ImportState(edits: seq<EditRow>, validators: map<string, Profile>, processed: set<string>, count: nat)

  /**
   * One `saveValidator` call: None when the entry has no address (the
   * transaction throws); unchanged when the address was seen; otherwise the
   * height-0 row is written over any row with its key, the profile is added
   * unless the address already has one, and the address is counted.
   */
  function SaveValidator(s: ImportState, e: Entry): Option<ImportState>
  {
    if e.address.None? then None
    else if e.address.value in s.processed then Some(s)
    else
      var a := e.address.value;
      Some(ImportState(ReplaceEdit(s.edits, GenesisRow(e)),
                       if a in s.validators then s.validators else s.validators[a := GenesisProfile(e)],
                       s.processed + {a}, s.count + 1))
  }

  /** The transaction body: `saveValidator` over the entries in order, stopping at the first throw. */
  function Run(s: ImportState, es: seq<Entry>): Option<ImportState>
  {
    if es == [] then Some(s)
    else
      match Run(s, es[..|es| - 1])
      case None => None
      case Some(s') => SaveValidator(s', es[|es| - 1])
  }

  function Start(edits: seq<EditRow>, validators: map<string, Profile>): ImportState
  {
    ImportState(edits, validators, {}, 0)
  }

  /** The import guard's query: some history row sits at height 0. */
  predicate HasGenesisRows(t: seq<EditRow>)
  {
    exists i :: 0 <= i < |t| && t[i].height == 0
  }

  datatype GenesisOutcome =
    | Skipped              // nothing configured or readable, or already imported
    | Imported(count: nat) // the transaction committed
    | RolledBack           // a validator without an address made the transaction throw

  /** `processGenesisFile`; `file` is None when no genesis file is configured, or it is missing or unparsable. */
  method ProcessGenesisFile(db: Database, file: Option<GenesisFile>) returns (outcome: GenesisOutcome)
    requires db.Valid()
    modifies db`edits, db`validators
    ensures db.Valid()
    ensures file.None? || HasGenesisRows(old(db.edits)) ==>
              outcome == Skipped && db.edits == old(db.edits) && db.validators == old(db.validators)
    ensures file.Some? && !HasGenesisRows(old(db.edits)) ==>
              match Run(Start(old(db.edits), old(db.validators)), Entries(Unwrap(file.value)))
              case None => outcome == RolledBack && db.edits == old(db.edits) && db.validators == old(db.validators)
              case Some(s) => outcome == Imported(s.count) && db.edits == s.edits && db.validators == s.validators
  {
    if file.None? {
      return Skipped;
    }
    if exists i :: 0 <= i < |db.edits| && db.edits[i].height == 0 {
      return Skipped;
    }
    var genesis := Unwrap(file.value);
    var entries := Entries(genesis);

    // db.transaction: keep what to roll back to
    var editsBefore, validatorsBefore := db.edits, db.validators;
    var committed, count := ImportEntries(db, entries);
    if !committed {
      db.edits, db.validators := editsBefore, validatorsBefore;
      return RolledBack;
    }
    return Imported(count);
  }

  /** The body of the transaction: `saveValidator` for each entry; `committed` is false when one of them threw. */
  method ImportEntries(db: Database, entries: seq<Entry>) returns (committed: bool, count: nat)
    requires UniqueKeys(db.edits)
    modifies db`edits, db`validators
    ensures UniqueKeys(db.edits)
    ensures committed <==> Run(Start(old(db.edits), old(db.validators)), entries).Some?
    ensures committed ==>
              var s := Run(Start(old(db.edits), old(db.validators)), entries).value;
              db.edits == s.edits && db.validators == s.validators && count == s.count
  {
    count := 0;
    var processedAddr: set<string> := {};
    ghost var s0 := Start(db.edits, db.validators);
    ghost var st := s0;
    for i := 0 to |entries|
      invariant Run(s0, entries[..i]) == Some(st)
      invariant db.edits == st.edits && db.validators == st.validators
      invariant processedAddr == st.processed && count == st.count
      invariant UniqueKeys(db.edits)
    {
      var e := entries[i];
      RunSnoc(s0, entries[..i + 1]);
      assert entries[..i + 1][..i] == entries[..i];
      if e.address.None? {
        // `valAddr.slice` throws
        RunStaysFailed(s0, entries, i + 1);
        return false, count;
      }
      processedAddr, count := SaveOne(db, processedAddr, count, e);
      st := SaveValidator(st, e).value;
    }
    assert entries[..|entries|] == entries;
    return true, count;
  }

  /** The body of `saveValidator` for an entry with an address. */
  method SaveOne(db: Database, processedAddr: set<string>, count: nat, e: Entry) returns (processed': set<string>, count': nat)
    requires e.address.Some? && UniqueKeys(db.edits)
    modifies db`edits, db`validators
    ensures UniqueKeys(db.edits)
    ensures var s := SaveValidator(ImportState(old(db.edits), old(db.validators), processedAddr, count), e);
            && s.Some?
            && db.edits == s.value.edits && db.validators == s.value.validators
            && processed' == s.value.processed && count' == s.value.count
  {
    var valAddr := e.address.value;
    if valAddr in processedAddr {
      return processedAddr, count;
    }
    db.edits := ReplaceEdit(db.edits, GenesisRow(e));
    if valAddr !in db.validators {
      db.validators := db.validators[valAddr := GenesisProfile(e)];
    }
    processed', count' := processedAddr + {valAddr}, count + 1;
  }

  /** Once a `saveValidator` call has thrown, the transaction as a whole fails. */
  lemma {:induction false} RunStaysFailed(s: ImportState, es: seq<Entry>, i: nat)
    requires i <= |es| && Run(s, es[..i]) == None
    ensures Run(s, es) == None
    decreases |es| - i
  {
    if i < |es| {
      assert es[..i + 1][..i] == es[..i];
      RunStaysFailed(s, es, i + 1);
    } else {
      assert es[..i] == es;
    }
  }

  lemma AddrsSnoc(es: seq<Entry>)
    requires es != []
    ensures Addrs(es) == Addrs(es[..|es| - 1]) + {AddrOf(es[|es| - 1])}
  {
    var init := es[..|es| - 1];
    assert forall i :: 0 <= i < |init| ==> init[i] == es[i];
  }

  lemma RunSnoc(s: ImportState, es: seq<Entry>)
    requires es != []
    ensures Run(s, es) == match Run(s, es[..|es| - 1])
                         case None => None
                         case Some(s') => SaveValidator(s', es[|es| - 1])
  {
  }

  /** One `saveValidator` call on the bookkeeping: it throws without an address, and otherwise counts a new address once. */
  lemma SaveCount(s: ImportState, e: Entry)
    ensures SaveValidator(s, e).None? <==> e.address.None?
    ensures SaveValidator(s, e).Some? ==>
              && SaveValidator(s, e).value.processed == s.processed + {AddrOf(e)}
              && SaveValidator(s, e).value.count == s.count + (if AddrOf(e) in s.processed then 0 else 1)
  {
  }

  lemma AllAddressedSnoc(es: seq<Entry>)
    requires es != []
    ensures AllAddressed(es) <==> AllAddressed(es[..|es| - 1]) && es[|es| - 1].address.Some?
  {
    var init := es[..|es| - 1];
    if AllAddressed(init) && es[|es| - 1].address.Some? {
      forall i | 0 <= i < |es|
        ensures es[i].address.Some?
      {
        if i < |init| {
          assert es[i] == init[i];
        }
      }
    }
  }

  /** The transaction throws exactly when some validator has no address. */
  lemma {:induction false} RunFails(s: ImportState, es: seq<Entry>)
    ensures Run(s, es).None? <==> !AllAddressed(es)
  {
    if es != [] {
      var init := es[..|es| - 1];
      RunFails(s, init);
      RunSnoc(s, es);
      AllAddressedSnoc(es);
      if Run(s, init).Some? {
        SaveCount(Run(s, init).value, es[|es| - 1]);
      }
    }
  }

  /** `processedAddr` ends up holding every address, and `count` counts each address once. */
  lemma {:induction false} RunCount(s: ImportState, es: seq<Entry>)
    ensures Run(s, es).Some? ==> Run(s, es).value.processed == s.processed + Addrs(es)
    ensures Run(s, es).Some? && s.count == |s.processed| ==> Run(s, es).value.count == |Run(s, es).value.processed|
  {
    if es != [] {
      var init, e := es[..|es| - 1], es[|es| - 1];
      RunCount(s, init);
      AddrsSnoc(es);
      RunSnoc(s, es);
      if Run(s, init).Some? {
        SaveCount(Run(s, init).value, e);
      }
    }
  }

  /** One `saveValidator` call on profiles: the address gains one if it had none, nothing else changes. */
  lemma SaveProfiles(s: ImportState, e: Entry)
    requires s.processed <= s.validators.Keys && SaveValidator(s, e).Some?
    ensures var r := SaveValidator(s, e).value;
            && r.processed <= r.validators.Keys
            && r.validators.Keys == s.validators.Keys + {AddrOf(e)}
            && (forall k :: k in s.validators ==> r.validators[k] == s.validators[k])
            && (AddrOf(e) !in s.validators ==> r.validators[AddrOf(e)] == GenesisProfile(e))
  {
  }

  /** Profiles that existed are kept (INSERT OR IGNORE); every imported address has one afterwards. */
  lemma {:induction false} RunProfiles(s: ImportState, es: seq<Entry>)
    requires s.processed <= s.validators.Keys
    ensures Run(s, es).Some? ==>
              var r := Run(s, es).value;
              && r.processed <= r.validators.Keys
              && r.validators.Keys == s.validators.Keys + Addrs(es)
              && forall k :: k in s.validators ==> r.validators[k] == s.validators[k]
  {
    if es != [] && Run(s, es).Some? {
      var init, e := es[..|es| - 1], es[|es| - 1];
      RunProfiles(s, init);
      AddrsSnoc(es);
      RunSnoc(s, es);
      SaveProfiles(Run(s, init).value, e);
    }
  }

  /** A history row whose key no entry's genesis row shares survives the import. */
  lemma {:induction false} RunKeepsRows(s: ImportState, es: seq<Entry>, x: EditRow)
    requires x in s.edits
    requires forall j :: 0 <= j < |es| ==> KeyOf(GenesisRow(es[j])) != KeyOf(x)
    ensures Run(s, es).Some? ==> x in Run(s, es).value.edits
  {
    if es != [] {
      var init := es[..|es| - 1];
      RunKeepsRows(s, init, x);
      assert KeyOf(GenesisRow(es[|es| - 1])) != KeyOf(x);
      if Run(s, init).Some? {
        ReplaceEditRows(Run(s, init).value.edits, GenesisRow(es[|es| - 1]));
      }
    }
  }

  /** A later entry's row never displaces an earlier validator's row: the keys differ in the address. */
  lemma {:induction false} RunRowStays(s: ImportState, es: seq<Entry>, a: string, row: EditRow)
    requires row in s.edits && row.operator == a && a in s.processed
    ensures Run(s, es).Some? ==> row in Run(s, es).value.edits && a in Run(s, es).value.processed
  {
    if es != [] {
      var init := es[..|es| - 1];
      RunRowStays(s, init, a, row);
      if Run(s, init).Some? {
        ReplaceEditRows(Run(s, init).value.edits, GenesisRow(es[|es| - 1]));
      }
    }
  }

  /**
   * The first entry with a given address decides that validator: its
   * height-0 row is in history_edits and, unless the validator had a
   * profile already, its profile is the one stored. Gentxs come before the
   * state validators, so a gentx wins over the staking list.
   */
  lemma {:induction false} RunFirstWins(s: ImportState, es: seq<Entry>, i: nat)
    requires i < |es| && es[i].address.Some? && AddrOf(es[i]) !in s.processed
    requires forall j :: 0 <= j < i ==> AddrOf(es[j]) != AddrOf(es[i])
    requires s.processed <= s.validators.Keys
    ensures Run(s, es).Some? ==>
              && GenesisRow(es[i]) in Run(s, es).value.edits
              && AddrOf(es[i]) in Run(s, es).value.validators
              && (AddrOf(es[i]) !in s.validators ==> Run(s, es).value.validators[AddrOf(es[i])] == GenesisProfile(es[i]))
  {
    var a := AddrOf(es[i]);
    if Run(s, es).Some? {
      RunStaysFailedContra(s, es, i + 1);
      RunStaysFailedContra(s, es, i);
      var mid := Run(s, es[..i]).value;
      assert es[..i + 1][..i] == es[..i] && es[..i + 1][i] == es[i];
      RunPrefixNotSeen(s, es[..i], a);
      var after := Run(s, es[..i + 1]).value;
      assert GenesisRow(es[i]) in after.edits && a in after.processed;
      RunProfiles(s, es[..i]);
      assert a !in s.validators ==> a !in mid.validators by {
        assert a !in Addrs(es[..i]);
      }
      RunSuffix(s, es, i + 1);
      var rest := es[i + 1..];
      RunRowStays(after, rest, a, GenesisRow(es[i]));
      RunProfiles(mid, [es[i]]);
      RunProfiles(after, rest);
    }
  }

  /** None of the first i entries carries the address, so it is not yet in `processedAddr` or the profiles they add. */
  lemma RunPrefixNotSeen(s: ImportState, es: seq<Entry>, a: string)
    requires forall j :: 0 <= j < |es| ==> AddrOf(es[j]) != a
    ensures a !in Addrs(es)
    ensures a !in s.processed && Run(s, es).Some? ==> a !in Run(s, es).value.processed
  {
    RunCount(s, es);
  }

  /** A prefix of a transaction that completes also completes. */
  lemma {:induction false} RunStaysFailedContra(s: ImportState, es: seq<Entry>, i: nat)
    requires i <= |es| && Run(s, es).Some?
    ensures Run(s, es[..i]).Some?
  {
    if Run(s, es[..i]).None? {
      RunStaysFailed(s, es, i);
    }
  }

  /** Running the entries in two parts is running them in one. */
  lemma {:induction false} RunSuffix(s: ImportState, es: seq<Entry>, i: nat)
    requires i <= |es| && Run(s, es[..i]).Some?
    ensures Run(s, es) == Run(Run(s, es[..i]).value, es[i..])
    decreases |es| - i
  {
    if i == |es| {
      assert es[..i] == es;
      assert es[i..] == [];
    } else {
      var m := Run(s, es[..i]).value;
      assert es[..i + 1][..i] == es[..i];
      if Run(s, es[..i + 1]).None? {
        RunStaysFailed(s, es, i + 1);
        RunFails(s, es);
        RunFails(m, es[i..]);
        assert !AllAddressed(es[i..]) by {
          assert es[i..][0] == es[i];
        }
      } else {
        RunSuffix(s, es, i + 1);
        RunPrefixSplit(m, es[i..]);
        assert es[i..][1..] == es[i + 1..];
      }
    }
  }

  /** Running a non-empty list is running its first entry, then the rest. */
  lemma {:induction false} RunPrefixSplit(s: ImportState, es: seq<Entry>)
    requires es != [] && SaveValidator(s, es[0]).Some?
    ensures Run(s, es) == Run(SaveValidator(s, es[0]).value, es[1..])
  {
    var s1 := SaveValidator(s, es[0]).value;
    RunSnoc(s, es);
    if |es| > 1 {
      var init, tail := es[..|es| - 1], es[1..];
      assert init[0] == es[0];
      RunPrefixSplit(s, init);
      assert tail[..|tail| - 1] == init[1..];
      assert tail[|tail| - 1] == es[|es| - 1];
      RunSnoc(s1, tail);
    } else {
      assert es[..0] == [];
      assert es[1..] == [];
    }
  }

  /**
   * What a committed import leaves behind, starting from the tables as they
   * were: it commits exactly when every validator has an address; the count
   * is the number of distinct addresses; every address has a profile, and
   * the profiles that existed are untouched.
   */
  lemma ImportEffect(t: seq<EditRow>, m: map<string, Profile>, es: seq<Entry>)
    ensures Run(Start(t, m), es).Some? <==> AllAddressed(es)
    ensures Run(Start(t, m), es).Some? ==>
              var r := Run(Start(t, m), es).value;
              && r.count == |Addrs(es)|
              && r.validators.Keys == m.Keys + Addrs(es)
              && forall k :: k in m ==> r.validators[k] == m[k]
  {
    RunFails(Start(t, m), es);
    RunCount(Start(t, m), es);
    RunProfiles(Start(t, m), es);
  }

  /** The first index holding an address that occurs in the entries. */
  lemma FirstIndex(es: seq<Entry>, a: string) returns (i: nat)
    requires a in Addrs(es)
    ensures i < |es| && AddrOf(es[i]) == a && forall j :: 0 <= j < i ==> AddrOf(es[j]) != a
  {
    var k :| 0 <= k < |es| && AddrOf(es[k]) == a;
    i := 0;
    while AddrOf(es[i]) != a
      invariant i <= k && forall j :: 0 <= j < i ==> AddrOf(es[j]) != a
      decreases k - i
    {
      i := i + 1;
    }
  }

  /** Every imported address has the genesis row of its first entry in history_edits. */
  lemma ImportRows(t: seq<EditRow>, m: map<string, Profile>, es: seq<Entry>, a: string)
    requires AllAddressed(es) && a in Addrs(es)
    ensures Run(Start(t, m), es).Some?
    ensures exists i :: 0 <= i < |es| && AddrOf(es[i]) == a && GenesisRow(es[i]) in Run(Start(t, m), es).value.edits
  {
    RunFails(Start(t, m), es);
    var i := FirstIndex(es, a);
    RunFirstWins(Start(t, m), es, i);
  }

  /**
   * The import happens once: after one that committed at least one
   * validator, history_edits holds a height-0 row, so the guard of
   * `ProcessGenesisFile` skips every later call.
   */
  lemma ImportOnce(t: seq<EditRow>, m: map<string, Profile>, es: seq<Entry>)
    requires Run(Start(t, m), es).Some? && es != []
    ensures HasGenesisRows(Run(Start(t, m), es).value.edits)
  {
    var edits := Run(Start(t, m), es).value.edits;
    RunFails(Start(t, m), es);
    RunFirstWins(Start(t, m), es, 0);
    var k :| 0 <= k < |edits| && edits[k] == GenesisRow(es[0]);
    assert edits[k].height == 0;
  }

  /**
   * Gentxs are read before the staking module's list: the first gentx
   * naming a validator supplies its row and (if it had none) its profile,
   * whatever the list says about the same address.
   */
  lemma GentxWins(t: seq<EditRow>, m: map<string, Profile>, gentxs: seq<Entry>, states: seq<Entry>, i: nat)
    requires AllAddressed(gentxs + states)
    requires i < |gentxs| && forall j :: 0 <= j < i ==> AddrOf(gentxs[j]) != AddrOf(gentxs[i])
    ensures var r := Run(Start(t, m), gentxs + states);
            && r.Some? && GenesisRow(gentxs[i]) in r.value.edits && AddrOf(gentxs[i]) in r.value.validators
            && (AddrOf(gentxs[i]) !in m ==> r.value.validators[AddrOf(gentxs[i])] == GenesisProfile(gentxs[i]))
  {
    var es := gentxs + states;
    assert forall j :: 0 <= j <= i ==> es[j] == gentxs[j];
    RunFails(Start(t, m), es);
    RunFirstWins(Start(t, m), es, i);
  }
}
