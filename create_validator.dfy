/**
 * src/processors/createValidator.js: a MsgCreateValidator records the
 * validator's initial values as one `history_edits` row (inserted with
 * `INSERT OR IGNORE`, only when some value is present) and writes its
 * profile with `INSERT OR REPLACE`, all inside one database transaction.
 */
module CreateValidator {
  import opened Base
  import opened Ledger
  import opened Store

  /** The incoming value of history field `f` in a MsgCreateValidator. */
  function CreateValue(msg: Msg, f: string): string
  {
    if f == "commission_rate" then msg.commissionRate
    else if f == "min_self_delegation" then msg.minSelfDelegation
    else DescriptionField(msg.description, f)
  }

  /** The `from` side a creation records: "0" for the two amounts, "N/A" for the description fields. */
  function InitialValue(f: string): string
  {
    if f == "commission_rate" || f == "min_self_delegation" then "0" else "N/A"
  }

  /** The initial diff, built field by field as the processor builds it. */
  function CreateDiff(msg: Msg): Diff
  {
    var desc := msg.description;
    var d := AddIfPresent(map[], "commission_rate", "0", msg.commissionRate);
    var d := AddIfPresent(d, "min_self_delegation", "0", msg.minSelfDelegation);
    var d := AddIfPresent(d, "moniker", "N/A", desc.moniker);
    var d := AddIfPresent(d, "website", "N/A", desc.website);
    var d := AddIfPresent(d, "identity", "N/A", desc.identity);
    var d := AddIfPresent(d, "details", "N/A", desc.details);
    AddIfPresent(d, "security_contact", "N/A", desc.securityContact)
  }

  /**
   * The initial diff has an entry for exactly the history fields the
   * message carries a non-empty value for, each from the field's initial
   * value to the message's value.
   */
  lemma CreateDiffEntry(msg: Msg, f: string)
    ensures f in CreateDiff(msg) <==> f in HistoryFields && CreateValue(msg, f) != ""
    ensures f in CreateDiff(msg) ==> CreateDiff(msg)[f] == Change(InitialValue(f), CreateValue(msg, f))
  {
    var desc := msg.description;
    var d1 := AddIfPresent(map[], "commission_rate", "0", msg.commissionRate);
    var d2 := AddIfPresent(d1, "min_self_delegation", "0", msg.minSelfDelegation);
    var d3 := AddIfPresent(d2, "moniker", "N/A", desc.moniker);
    var d4 := AddIfPresent(d3, "website", "N/A", desc.website);
    var d5 := AddIfPresent(d4, "identity", "N/A", desc.identity);
    var d6 := AddIfPresent(d5, "details", "N/A", desc.details);
    AddIfPresentEntry(map[], "commission_rate", "0", msg.commissionRate, f);
    AddIfPresentEntry(d1, "min_self_delegation", "0", msg.minSelfDelegation, f);
    AddIfPresentEntry(d2, "moniker", "N/A", desc.moniker, f);
    AddIfPresentEntry(d3, "website", "N/A", desc.website, f);
    AddIfPresentEntry(d4, "identity", "N/A", desc.identity, f);
    AddIfPresentEntry(d5, "details", "N/A", desc.details, f);
    AddIfPresentEntry(d6, "security_contact", "N/A", desc.securityContact, f);
  }

  /** The profile a creation writes: the message's values, with 'Unknown', '' and '0' standing in for missing ones. */
  function CreateProfile(msg: Msg, timestamp: string): Profile
  {
    var desc := msg.description;
    Profile(
      if desc.moniker != "" then desc.moniker else "Unknown",
      Details(desc.website, desc.identity, desc.details, desc.securityContact),
      if msg.commissionRate != "" then msg.commissionRate else "0",
      timestamp)
  }

  /** The history row a transaction asks to insert: only for a creation with a non-empty diff. */
  function CreateRowOf(tx: Tx): Option<EditRow>
  {
    match MsgOfKind(tx, "MsgCreateValidator")
    case None => None
    case Some(msg) =>
      var d := CreateDiff(msg);
      if d != map[] then Some(EditRow(tx.txhash, msg.validatorAddress, d, HeightOf(tx), tx.timestamp)) else None
  }

  /** The profile write a transaction makes: every creation makes one. */
  function CreateWriteOf(tx: Tx): Option<(string, Profile)>
  {
    match MsgOfKind(tx, "MsgCreateValidator")
    case None => None
    case Some(msg) => Some((msg.validatorAddress, CreateProfile(msg, tx.timestamp)))
  }

  /** The body of the loop for one transaction: at most one history insert, then the profile upsert. */
  method CreateOne(db: Database, tx: Tx) returns (changes: nat)
    modifies db`edits, db`validators
    ensures db.edits == IgnoreEditOpt(old(db.edits), CreateRowOf(tx)).0
    ensures changes == IgnoreEditOpt(old(db.edits), CreateRowOf(tx)).1
    ensures db.validators ==
            if CreateWriteOf(tx).Some? then old(db.validators)[CreateWriteOf(tx).value.0 := CreateWriteOf(tx).value.1]
            else old(db.validators)
  {
    changes := 0;
    var msg := MsgOfKind(tx, "MsgCreateValidator");
    if msg.None? {
      return;
    }
    var validatorAddr := msg.value.validatorAddress;
    var height := HeightOf(tx);
    var changesDiff := CreateDiff(msg.value);

    if changesDiff != map[] {
      var result := IgnoreEdit(db.edits, EditRow(tx.txhash, validatorAddr, changesDiff, height, tx.timestamp));
      db.edits := result.0;
      changes := result.1;
    }

    db.validators := db.validators[validatorAddr := CreateProfile(msg.value, tx.timestamp)];
  }

  /** `processCreateValidator`: one pass over the page; returns the number of history rows inserted. */
  method ProcessCreateValidator(db: Database, txs: seq<Tx>) returns (inserted: nat)
    requires db.Valid()
    modifies db`edits, db`validators
    ensures db.Valid()
    ensures (db.edits, inserted) == IgnoreEdits(old(db.edits), Collect(txs, CreateRowOf))
    ensures db.validators == WriteAll(old(db.validators), Collect(txs, CreateWriteOf))
  {
    inserted := 0;
    for i := 0 to |txs|
      invariant UniqueKeys(db.edits)
      invariant db.edits == IgnoreEdits(old(db.edits), Collect(txs[..i], CreateRowOf)).0
      invariant inserted == IgnoreEdits(old(db.edits), Collect(txs[..i], CreateRowOf)).1
      invariant db.validators == WriteAll(old(db.validators), Collect(txs[..i], CreateWriteOf))
    {
      IgnoreEditsPageStep(old(db.edits), txs, CreateRowOf, i);
      WritePageStep(old(db.validators), txs, CreateWriteOf, i);
      var changes := CreateOne(db, txs[i]);
      inserted := inserted + changes;
    }
    assert txs[..|txs|] == txs;
  }

  /**
   * What a page does to `history_edits`: the existing rows stay as they were
   * (a creation never overwrites a row), new rows are only appended, and the
   * count returned is the number of rows appended.
   */
  lemma CreateEditsEffect(edits: seq<EditRow>, txs: seq<Tx>)
    ensures var r := IgnoreEdits(edits, Collect(txs, CreateRowOf));
            edits <= r.0 && r.1 == |r.0| - |edits|
  {
    IgnoreEditsGrow(edits, Collect(txs, CreateRowOf));
  }

  /** Replaying a page leaves both tables as the first run left them and reports 0 new rows. */
  lemma CreateReplay(edits: seq<EditRow>, validators: map<string, Profile>, txs: seq<Tx>)
    ensures var e1 := IgnoreEdits(edits, Collect(txs, CreateRowOf)).0;
            IgnoreEdits(e1, Collect(txs, CreateRowOf)) == (e1, 0)
    ensures var v1 := WriteAll(validators, Collect(txs, CreateWriteOf));
            WriteAll(v1, Collect(txs, CreateWriteOf)) == v1
  {
    IgnoreEditsReplay(edits, Collect(txs, CreateRowOf));
    WriteAllReplay(validators, Collect(txs, CreateWriteOf));
  }

  /**
   * The profile of a validator created in the page is the one its last
   * creation wrote: the message's moniker or 'Unknown', its description
   * fields, its commission rate or '0', and the transaction's timestamp.
   */
  lemma CreateProfileWritten(validators: map<string, Profile>, txs: seq<Tx>, i: nat)
    requires i < |txs| && MsgOfKind(txs[i], "MsgCreateValidator").Some?
    requires forall j :: i < j < |txs| && MsgOfKind(txs[j], "MsgCreateValidator").Some? ==>
               MsgOfKind(txs[j], "MsgCreateValidator").value.validatorAddress !=
               MsgOfKind(txs[i], "MsgCreateValidator").value.validatorAddress
    ensures var msg := MsgOfKind(txs[i], "MsgCreateValidator").value;
            var v := WriteAll(validators, Collect(txs, CreateWriteOf));
            && msg.validatorAddress in v
            && v[msg.validatorAddress].moniker == (if msg.description.moniker == "" then "Unknown" else msg.description.moniker)
            && v[msg.validatorAddress].details == Details(msg.description.website, msg.description.identity, msg.description.details, msg.description.securityContact)
            && v[msg.validatorAddress].commissionRate == (if msg.commissionRate == "" then "0" else msg.commissionRate)
            && v[msg.validatorAddress].lastUpdated == txs[i].timestamp
  {
    WritePageLast(validators, txs, CreateWriteOf, i);
  }

  /** A creation with no value at all writes its profile but no history row. */
  lemma CreateWithoutValues(tx: Tx)
    requires MsgOfKind(tx, "MsgCreateValidator").Some?
    requires forall f :: f in HistoryFields ==> CreateValue(MsgOfKind(tx, "MsgCreateValidator").value, f) == ""
    ensures CreateRowOf(tx).None? && CreateWriteOf(tx).Some?
  {
    var msg := MsgOfKind(tx, "MsgCreateValidator").value;
    var d := CreateDiff(msg);
    if d != map[] {
      var f :| f in d;
      CreateDiffEntry(msg, f);
    }
  }
}
