/**
 * src/processors/editValidator.js: a MsgEditValidator is recorded as the
 * diff between the values it sends and the values in force just before its
 * height, which are read back from `history_edits` itself. The diff row is
 * written with `INSERT OR REPLACE` when some field changed, and the
 * validator's profile is rewritten for every edit, all inside one database
 * transaction.
 */
module EditValidator {
  import opened Base
  import opened Ledger
  import opened Store

  /** The sentinel a MsgEditValidator carries for a field it leaves alone. */
  const DoNotModify: string := "[do-not-modify]"

  // ---------------------------------------------------------------------
  // The prior-value lookup (`stmtFindLastFieldChange` and `getPrevValue`)
  // ---------------------------------------------------------------------

  /** A row the lookup may return: same validator, strictly lower height, and a diff that mentions the field. */
  predicate Qualifies(x: EditRow, op: string, h: nat, f: string)
  {
    x.operator == op && x.height < h && f in x.diff
  }

  /**
   * Row `i` of the table is the one the lookup returns: it qualifies, no
   * qualifying row is higher, and no qualifying row after it is as high.
   * `ORDER BY block_height DESC LIMIT 1` leaves ties to SQLite; the model
   * settles them in favour of the row stored last.
   */
  predicate IsLatestMention(t: seq<EditRow>, op: string, h: nat, f: string, i: nat)
  {
    && i < |t|
    && Qualifies(t[i], op, h, f)
    && (forall j :: 0 <= j < |t| && Qualifies(t[j], op, h, f) ==> t[j].height <= t[i].height)
    && (forall j :: i < j < |t| && Qualifies(t[j], op, h, f) ==> t[j].height < t[i].height)
  }

  /** The row the lookup returns, if any: scanning in table order, a qualifying row at least as high as the best so far replaces it. */
  function LatestMention(t: seq<EditRow>, op: string, h: nat, f: string): (r: Option<EditRow>)
    ensures r.Some? ==> r.value in t && Qualifies(r.value, op, h, f)
  {
    if t == [] then None
    else
      var rest := LatestMention(t[..|t| - 1], op, h, f);
      var x := t[|t| - 1];
      if Qualifies(x, op, h, f) && (rest.None? || rest.value.height <= x.height) then Some(x) else rest
  }

  /**
   * The lookup returns nothing exactly when no row qualifies, and otherwise
   * a row that is the latest mention in the sense above.
   */
  lemma {:induction false} LatestMentionSpec(t: seq<EditRow>, op: string, h: nat, f: string)
    ensures LatestMention(t, op, h, f).None? <==> forall j :: 0 <= j < |t| ==> !Qualifies(t[j], op, h, f)
    ensures LatestMention(t, op, h, f).Some? ==>
              exists i: nat :: IsLatestMention(t, op, h, f, i) && t[i] == LatestMention(t, op, h, f).value
  {
    if t != [] {
      var init := t[..|t| - 1];
      LatestMentionSpec(init, op, h, f);
      var rest := LatestMention(init, op, h, f);
      var x := t[|t| - 1];
      if Qualifies(x, op, h, f) && (rest.None? || rest.value.height <= x.height) {
        if rest.Some? {
          var k: nat :| IsLatestMention(init, op, h, f, k) && init[k] == rest.value;
          LatestTopsPrefix(t, op, h, f, k);
        }
        LatestIsLast(t, op, h, f);
      } else if rest.Some? {
        var k: nat :| IsLatestMention(init, op, h, f, k) && init[k] == rest.value;
        LatestStays(t, op, h, f, k);
      } else {
        forall j | 0 <= j < |t| ensures !Qualifies(t[j], op, h, f) {
          if j < |t| - 1 { assert t[j] == init[j]; }
        }
      }
    }
  }

  /** Every qualifying row before the last is at most as high as the prefix's latest mention. */
  lemma LatestTopsPrefix(t: seq<EditRow>, op: string, h: nat, f: string, k: nat)
    requires t != [] && IsLatestMention(t[..|t| - 1], op, h, f, k)
    ensures forall j :: 0 <= j < |t| - 1 && Qualifies(t[j], op, h, f) ==> t[j].height <= t[k].height
  {
    var init := t[..|t| - 1];
    forall j | 0 <= j < |t| - 1 && Qualifies(t[j], op, h, f) ensures t[j].height <= t[k].height {
      assert t[j] == init[j];
    }
  }

  /** A qualifying last row as high as every earlier qualifying row is the latest mention. */
  lemma LatestIsLast(t: seq<EditRow>, op: string, h: nat, f: string)
    requires t != [] && Qualifies(t[|t| - 1], op, h, f)
    requires forall j :: 0 <= j < |t| - 1 && Qualifies(t[j], op, h, f) ==> t[j].height <= t[|t| - 1].height
    ensures IsLatestMention(t, op, h, f, |t| - 1)
  {
  }

  /** A last row that is not as high as the prefix's latest mention leaves that mention in place. */
  lemma LatestStays(t: seq<EditRow>, op: string, h: nat, f: string, k: nat)
    requires t != [] && IsLatestMention(t[..|t| - 1], op, h, f, k)
    requires !(Qualifies(t[|t| - 1], op, h, f) && t[k].height <= t[|t| - 1].height)
    ensures IsLatestMention(t, op, h, f, k)
  {
    var init := t[..|t| - 1];
    assert t[k] == init[k];
    forall j | 0 <= j < |t| && Qualifies(t[j], op, h, f) ensures t[j].height <= t[k].height {
      if j < |t| - 1 { assert t[j] == init[j]; }
    }
    forall j | k < j < |t| && Qualifies(t[j], op, h, f) ensures t[j].height < t[k].height {
      if j < |t| - 1 { assert t[j] == init[j]; }
    }
  }

  /** The characterisation pins the returned row down: whatever row satisfies it is the one returned. */
  lemma LatestMentionUnique(t: seq<EditRow>, op: string, h: nat, f: string, i: nat)
    requires IsLatestMention(t, op, h, f, i)
    ensures LatestMention(t, op, h, f) == Some(t[i])
  {
    LatestMentionSpec(t, op, h, f);
    var r := LatestMention(t, op, h, f);
    var k: nat :| IsLatestMention(t, op, h, f, k) && t[k] == r.value;
    if k != i {
      assert false;
    }
  }

  /**
   * `getPrevValue`: the `to` of the field in the row the lookup returns,
   * 'N/A' when there is no such row (an empty `to` counts as missing too).
   */
  function PriorValue(t: seq<EditRow>, op: string, h: nat, f: string): (r: string)
    ensures r != ""
  {
    match LatestMention(t, op, h, f)
    case None => "N/A"
    case Some(x) => if x.diff[f].to != "" then x.diff[f].to else "N/A"
  }

  /** The rows below height `h`, in table order: all the lookup at height `h` can see. */
  function Below(t: seq<EditRow>, h: nat): seq<EditRow>
  {
    if t == [] then [] else Below(t[..|t| - 1], h) + (if t[|t| - 1].height < h then [t[|t| - 1]] else [])
  }

  /** The lookup at height `h` depends only on the rows below `h`. */
  lemma {:induction false} LatestMentionBelow(t: seq<EditRow>, op: string, h: nat, f: string)
    ensures LatestMention(t, op, h, f) == LatestMention(Below(t, h), op, h, f)
  {
    if t != [] {
      var init := t[..|t| - 1];
      LatestMentionBelow(init, op, h, f);
      var x := t[|t| - 1];
      if x.height < h {
        var b := Below(t, h);
        assert b == Below(init, h) + [x];
        assert b[..|b| - 1] == Below(init, h);
        assert b[|b| - 1] == x;
      } else {
        assert Below(t, h) == Below(init, h);
      }
    }
  }

  /** Tables that agree below `h` give the same prior values at `h`. */
  lemma PriorValueBelow(t: seq<EditRow>, u: seq<EditRow>, op: string, h: nat, f: string)
    requires Below(t, h) == Below(u, h)
    ensures PriorValue(t, op, h, f) == PriorValue(u, op, h, f)
  {
    LatestMentionBelow(t, op, h, f);
    LatestMentionBelow(u, op, h, f);
  }

  /** Overwriting a row at or above `h` with another row at or above `h` leaves the view below `h` alone. */
  lemma {:induction false} BelowUpdate(t: seq<EditRow>, i: nat, row: EditRow, h: nat)
    requires i < |t| && t[i].height >= h && row.height >= h
    ensures Below(t[i := row], h) == Below(t, h)
  {
    var u := t[i := row];
    if i == |t| - 1 {
      assert u[..|u| - 1] == t[..|t| - 1];
    } else {
      assert u[..|u| - 1] == t[..|t| - 1][i := row];
      BelowUpdate(t[..|t| - 1], i, row, h);
    }
  }

  /**
   * A row written at or above `h`, whose key is held (if at all) by a row at
   * or above `h`, is invisible to every lookup at `h`; in particular the
   * strict `<` keeps an edit's own row out of its own lookup.
   */
  lemma ReplaceAboveInvisible(t: seq<EditRow>, row: EditRow, h: nat, op: string, f: string)
    requires row.height >= h
    requires forall x :: x in t && KeyOf(x) == KeyOf(row) ==> x.height >= h
    ensures Below(ReplaceEdit(t, row), h) == Below(t, h)
    ensures PriorValue(ReplaceEdit(t, row), op, h, f) == PriorValue(t, op, h, f)
  {
    var r := ReplaceEdit(t, row);
    var found := FindRow(t, KeyOf(row));
    if found.Some? {
      var i := found.value;
      assert r == t[i := row];
      assert t[i] in t;
      BelowUpdate(t, i, row, h);
    } else {
      assert r == t + [row];
      assert r[..|r| - 1] == t;
      assert Below(r, h) == Below(t, h) + [];
    }
    PriorValueBelow(r, t, op, h, f);
  }

  /** A row under another key survives a write, if there is one. */
  lemma WriteKeepsOthers(t: seq<EditRow>, row: Option<EditRow>, x: EditRow)
    requires x in t && (row.Some? ==> KeyOf(x) != KeyOf(row.value))
    ensures x in (if row.Some? then ReplaceEdit(t, row.value) else t)
  {
  }

  /** Writing a row that is already in a table with unique keys changes nothing. */
  lemma ReplaceExisting(t: seq<EditRow>, row: EditRow)
    requires UniqueKeys(t) && row in t
    ensures ReplaceEdit(t, row) == t
  {
    var j :| 0 <= j < |t| && t[j] == row;
    var i := FindRow(t, KeyOf(row)).value;
    assert i == j;
  }

  // ---------------------------------------------------------------------
  // One edit: the diff and the profile
  // ---------------------------------------------------------------------

  /** An incoming value takes effect when it is present, not the sentinel, and different from the prior value. */
  predicate Applies(value: string, prev: string)
  {
    value != "" && value != DoNotModify && value != prev
  }

  /** The value in force after the edit (`processField`'s result). */
  function Resolved(value: string, prev: string): string
  {
    if Applies(value, prev) then value else prev
  }

  /** `safeVal`: the profile stores 'N/A' as the empty string. */
  function SafeVal(v: string): string
  {
    if v == "N/A" then "" else v
  }

  /** The commission's prior value: as any other, but '0' instead of 'N/A'. */
  function CommissionPrior(t: seq<EditRow>, op: string, h: nat): string
  {
    var p := PriorValue(t, op, h, "commission_rate");
    if p == "N/A" then "0" else p
  }

  /** The prior value the edit compares field `f` with. */
  function Prior(t: seq<EditRow>, op: string, h: nat, f: string): string
  {
    if f == "commission_rate" then CommissionPrior(t, op, h) else PriorValue(t, op, h, f)
  }

  /** The incoming value of history field `f` in a MsgEditValidator. */
  function EditValue(msg: Msg, f: string): string
  {
    if f == "commission_rate" then msg.editCommissionRate
    else if f == "min_self_delegation" then msg.minSelfDelegation
    else DescriptionField(msg.description, f)
  }

  /** `changesDiff[f] = {from: prev, to: value}` when the value takes effect. */
  function AddIfApplies(d: Diff, f: string, prev: string, value: string): Diff
  {
    if Applies(value, prev) then d[f := Change(prev, value)] else d
  }

  lemma AddIfAppliesEntry(d: Diff, g: string, prev: string, value: string, f: string)
    ensures f in AddIfApplies(d, g, prev, value) <==> f in d || (f == g && Applies(value, prev))
    ensures f in AddIfApplies(d, g, prev, value) ==>
              AddIfApplies(d, g, prev, value)[f] == if f == g && Applies(value, prev) then Change(prev, value) else d[f]
  {
  }

  /** The diff an edit of validator `op` at height `h` records against table `t`. */
  function EditDiff(t: seq<EditRow>, op: string, h: nat, msg: Msg): Diff
  {
    var desc := msg.description;
    var d := AddIfApplies(map[], "commission_rate", CommissionPrior(t, op, h), msg.editCommissionRate);
    var d := AddIfApplies(d, "min_self_delegation", PriorValue(t, op, h, "min_self_delegation"), msg.minSelfDelegation);
    var d := AddIfApplies(d, "moniker", PriorValue(t, op, h, "moniker"), desc.moniker);
    var d := AddIfApplies(d, "website", PriorValue(t, op, h, "website"), desc.website);
    var d := AddIfApplies(d, "identity", PriorValue(t, op, h, "identity"), desc.identity);
    var d := AddIfApplies(d, "details", PriorValue(t, op, h, "details"), desc.details);
    AddIfApplies(d, "security_contact", PriorValue(t, op, h, "security_contact"), desc.securityContact)
  }

  /** The profile an edit writes: every field as resolved, 'N/A' stored as ''. */
  function EditProfile(t: seq<EditRow>, op: string, h: nat, msg: Msg, timestamp: string): Profile
  {
    var desc := msg.description;
    Profile(
      SafeVal(Resolved(desc.moniker, PriorValue(t, op, h, "moniker"))),
      Details(
        SafeVal(Resolved(desc.website, PriorValue(t, op, h, "website"))),
        SafeVal(Resolved(desc.identity, PriorValue(t, op, h, "identity"))),
        SafeVal(Resolved(desc.details, PriorValue(t, op, h, "details"))),
        SafeVal(Resolved(desc.securityContact, PriorValue(t, op, h, "security_contact")))),
      Resolved(msg.editCommissionRate, CommissionPrior(t, op, h)),
      timestamp)
  }

  /**
   * The diff has an entry for exactly the history fields whose incoming
   * value takes effect, each from the prior value to the incoming one; a
   * missing value, the sentinel and a repeat of the prior value leave the
   * field out.
   */
  lemma EditDiffEntry(t: seq<EditRow>, op: string, h: nat, msg: Msg, f: string)
    ensures f in EditDiff(t, op, h, msg) <==> f in HistoryFields && Applies(EditValue(msg, f), Prior(t, op, h, f))
    ensures f in EditDiff(t, op, h, msg) ==> EditDiff(t, op, h, msg)[f] == Change(Prior(t, op, h, f), EditValue(msg, f))
  {
    var desc := msg.description;
    var d0: Diff := map[];
    var d1 := AddIfApplies(d0, "commission_rate", CommissionPrior(t, op, h), msg.editCommissionRate);
    var d2 := AddIfApplies(d1, "min_self_delegation", PriorValue(t, op, h, "min_self_delegation"), msg.minSelfDelegation);
    var d3 := AddIfApplies(d2, "moniker", PriorValue(t, op, h, "moniker"), desc.moniker);
    var d4 := AddIfApplies(d3, "website", PriorValue(t, op, h, "website"), desc.website);
    var d5 := AddIfApplies(d4, "identity", PriorValue(t, op, h, "identity"), desc.identity);
    var d6 := AddIfApplies(d5, "details", PriorValue(t, op, h, "details"), desc.details);
    var d7 := AddIfApplies(d6, "security_contact", PriorValue(t, op, h, "security_contact"), desc.securityContact);
    assert d7 == EditDiff(t, op, h, msg);
    AddIfAppliesEntry(d0, "commission_rate", CommissionPrior(t, op, h), msg.editCommissionRate, f);
    AddIfAppliesEntry(d1, "min_self_delegation", PriorValue(t, op, h, "min_self_delegation"), msg.minSelfDelegation, f);
    AddIfAppliesEntry(d2, "moniker", PriorValue(t, op, h, "moniker"), desc.moniker, f);
    AddIfAppliesEntry(d3, "website", PriorValue(t, op, h, "website"), desc.website, f);
    AddIfAppliesEntry(d4, "identity", PriorValue(t, op, h, "identity"), desc.identity, f);
    AddIfAppliesEntry(d5, "details", PriorValue(t, op, h, "details"), desc.details, f);
    AddIfAppliesEntry(d6, "security_contact", PriorValue(t, op, h, "security_contact"), desc.securityContact, f);
  }

  /** Some field of the edit takes effect. */
  predicate AnyChange(t: seq<EditRow>, op: string, h: nat, msg: Msg)
  {
    exists f :: f in HistoryFields && Applies(EditValue(msg, f), Prior(t, op, h, f))
  }

  /** `Object.keys(changesDiff).length > 0` holds exactly when some field takes effect. */
  lemma EditDiffNonEmpty(t: seq<EditRow>, op: string, h: nat, msg: Msg)
    ensures EditDiff(t, op, h, msg) != map[] <==> AnyChange(t, op, h, msg)
  {
    var d := EditDiff(t, op, h, msg);
    if d != map[] {
      var f :| f in d;
      EditDiffEntry(t, op, h, msg, f);
    }
    if AnyChange(t, op, h, msg) {
      var f :| f in HistoryFields && Applies(EditValue(msg, f), Prior(t, op, h, f));
      EditDiffEntry(t, op, h, msg, f);
    }
  }

  /**
   * An edit between two recorded edits is diffed against the lower one: with
   * moniker edits A to B at height 10 and B to C at height 30, an edit at
   * height 20 to D records B to D, and its profile shows D.
   */
  lemma EditBetweenEdits(msg: Msg)
    requires msg.description == Description("D", "", "", "", "")
    requires msg.editCommissionRate == "" && msg.minSelfDelegation == ""
    ensures var t := [EditRow("tx10", "val", map["moniker" := Change("A", "B")], 10, "t10"),
                      EditRow("tx30", "val", map["moniker" := Change("B", "C")], 30, "t30")];
            && EditDiff(t, "val", 20, msg) == map["moniker" := Change("B", "D")]
            && EditProfile(t, "val", 20, msg, "t20").moniker == "D"
  {
    var t := [EditRow("tx10", "val", map["moniker" := Change("A", "B")], 10, "t10"),
              EditRow("tx30", "val", map["moniker" := Change("B", "C")], 30, "t30")];
    assert IsLatestMention(t, "val", 20, "moniker", 0);
    LatestMentionUnique(t, "val", 20, "moniker", 0);
    assert PriorValue(t, "val", 20, "moniker") == "B";
  }

  /** The description field of a profile that a diff entry of name `f` corresponds to. */
  function ProfileField(p: Profile, f: string): string
  {
    if f == "moniker" then p.moniker
    else if f == "website" then p.details.website
    else if f == "identity" then p.details.identity
    else if f == "details" then p.details.details
    else if f == "security_contact" then p.details.securityContact
    else ""
  }

  /**
   * The profile agrees with the diff: a description field or the commission
   * that changed holds the diff's `to`; one that did not keeps its prior
   * value. A description value 'N/A' is stored as '' either way; the
   * commission is stored as is.
   */
  lemma EditProfileMatchesDiff(t: seq<EditRow>, op: string, h: nat, msg: Msg, timestamp: string, f: string)
    requires f in {"moniker", "website", "identity", "details", "security_contact"}
    ensures var d := EditDiff(t, op, h, msg);
            ProfileField(EditProfile(t, op, h, msg, timestamp), f) ==
            SafeVal(if f in d then d[f].to else PriorValue(t, op, h, f))
    ensures var d := EditDiff(t, op, h, msg);
            EditProfile(t, op, h, msg, timestamp).commissionRate ==
            if "commission_rate" in d then d["commission_rate"].to else CommissionPrior(t, op, h)
  {
    EditDiffEntry(t, op, h, msg, f);
    EditDiffEntry(t, op, h, msg, "commission_rate");
    assert f != "commission_rate" && f != "min_self_delegation" && f in HistoryFields;
    var p := EditProfile(t, op, h, msg, timestamp);
    var v := DescriptionField(msg.description, f);
    assert EditValue(msg, f) == v && Prior(t, op, h, f) == PriorValue(t, op, h, f);
    assert ProfileField(p, f) == SafeVal(Resolved(v, PriorValue(t, op, h, f))) by {
      if f == "moniker" {
      } else if f == "website" {
      } else if f == "identity" {
      } else if f == "details" {
      } else {
        assert f == "security_contact";
      }
    }
  }

  /** `min_self_delegation` may enter the diff but never the profile. */
  lemma MinSelfDelegationNotInProfile(t: seq<EditRow>, op: string, h: nat, msg: Msg, timestamp: string, v: string)
    ensures EditProfile(t, op, h, msg.(minSelfDelegation := v), timestamp) == EditProfile(t, op, h, msg, timestamp)
    ensures Applies(v, PriorValue(t, op, h, "min_self_delegation")) ==>
              "min_self_delegation" in EditDiff(t, op, h, msg.(minSelfDelegation := v))
  {
    EditDiffEntry(t, op, h, msg.(minSelfDelegation := v), "min_self_delegation");
  }

  /** Tables that agree below the edit's height give the same diff and profile. */
  lemma EditSameBelow(t: seq<EditRow>, u: seq<EditRow>, op: string, h: nat, msg: Msg, timestamp: string)
    requires Below(t, h) == Below(u, h)
    ensures EditDiff(t, op, h, msg) == EditDiff(u, op, h, msg)
    ensures EditProfile(t, op, h, msg, timestamp) == EditProfile(u, op, h, msg, timestamp)
  {
    PriorValueBelow(t, u, op, h, "commission_rate");
    PriorValueBelow(t, u, op, h, "min_self_delegation");
    PriorValueBelow(t, u, op, h, "moniker");
    PriorValueBelow(t, u, op, h, "website");
    PriorValueBelow(t, u, op, h, "identity");
    PriorValueBelow(t, u, op, h, "details");
    PriorValueBelow(t, u, op, h, "security_contact");
  }

  // ---------------------------------------------------------------------
  // A page of edits
  // ---------------------------------------------------------------------

  /** A transaction together with its MsgEditValidator. */
  type EditItem = (Tx, Msg)

  function ItemKey(item: EditItem): (string, string)
  {
    (item.0.txhash, item.1.validatorAddress)
  }

  function ItemHeight(item: EditItem): nat
  {
    HeightOf(item.0)
  }

  function EditItemOf(tx: Tx): Option<EditItem>
  {
    match MsgOfKind(tx, "MsgEditValidator")
    case None => None
    case Some(msg) => Some((tx, msg))
  }

  /** The `map`/`filter` at the head of the processor: the page's edits, in page order. */
  function EditTxs(txs: seq<Tx>): seq<EditItem>
  {
    Collect(txs, EditItemOf)
  }

  /** The page's edits are its transactions that carry a MsgEditValidator, each with that message. */
  lemma EditTxsMember(txs: seq<Tx>, item: EditItem)
    requires item in EditTxs(txs)
    ensures exists j :: 0 <= j < |txs| && txs[j] == item.0 && MsgOfKind(txs[j], "MsgEditValidator") == Some(item.1)
  {
    CollectFrom(txs, EditItemOf, item);
  }

  /** A page without any MsgEditValidator has no edits, so the processor returns 0 and touches no table. */
  lemma {:induction false} EditTxsNone(t: seq<EditRow>, txs: seq<Tx>)
    requires forall i :: 0 <= i < |txs| ==> MsgOfKind(txs[i], "MsgEditValidator").None?
    ensures EditTxs(txs) == []
    ensures EditPage(t, EditTxs(txs)) == PageResult(t, [], 0)
  {
    if txs != [] {
      var init := txs[..|txs| - 1];
      EditTxsNone(t, init);
      assert EditItemOf(txs[|txs| - 1]).None?;
    }
  }

  /** The history row an edit writes against table `t`: only when its diff is not empty. */
  function EditRowOf(t: seq<EditRow>, item: EditItem): (r: Option<EditRow>)
    ensures r.Some? ==> KeyOf(r.value) == ItemKey(item) && r.value.height == ItemHeight(item)
  {
    var (tx, msg) := item;
    var d := EditDiff(t, msg.validatorAddress, HeightOf(tx), msg);
    if d != map[] then Some(EditRow(tx.txhash, msg.validatorAddress, d, HeightOf(tx), tx.timestamp)) else None
  }

  /** The profile write an edit makes against table `t`: every edit makes one. */
  function EditWriteOf(t: seq<EditRow>, item: EditItem): (string, Profile)
  {
    var (tx, msg) := item;
    (msg.validatorAddress, EditProfile(t, msg.validatorAddress, HeightOf(tx), msg, tx.timestamp))
  }

  /** The state a run of the loop leaves: the history table, the profile writes in order, and the total count. */
  datatype PageResult = PageResult(edits: seq<EditRow>, writes: seq<(string, Profile)>, count: nat)

  /**
   * A loop that, item by item, computes an optional history row and a
   * profile write from the table the earlier items left, stores the row
   * with `INSERT OR REPLACE` (one change each) and collects the writes.
   */
  function ReplacePage(t: seq<EditRow>, items: seq<EditItem>,
                       rowOf: (seq<EditRow>, EditItem) -> Option<EditRow>,
                       writeOf: (seq<EditRow>, EditItem) -> (string, Profile)): (r: PageResult)
    ensures UniqueKeys(t) ==> UniqueKeys(r.edits)
    ensures |r.writes| == |items| && r.count <= |items|
  {
    if items == [] then PageResult(t, [], 0)
    else
      var prev := ReplacePage(t, items[..|items| - 1], rowOf, writeOf);
      var item := items[|items| - 1];
      var w := writeOf(prev.edits, item);
      match rowOf(prev.edits, item)
      case None => PageResult(prev.edits, prev.writes + [w], prev.count)
      case Some(row) => PageResult(ReplaceEdit(prev.edits, row), prev.writes + [w], prev.count + 1)
  }

  /** What the processor's loop leaves after the edits `items`. */
  function EditPage(t: seq<EditRow>, items: seq<EditItem>): PageResult
  {
    ReplacePage(t, items, EditRowOf, EditWriteOf)
  }

  /** One more edit of the page: its row, if it has one, replaces into the table the earlier edits left, and its write is appended. */
  lemma EditPageStep(t: seq<EditRow>, items: seq<EditItem>, i: nat)
    requires i < |items|
    ensures var prev := EditPage(t, items[..i]);
            var row := EditRowOf(prev.edits, items[i]);
            var next := EditPage(t, items[..i + 1]);
            && next.edits == (if row.Some? then ReplaceEdit(prev.edits, row.value) else prev.edits)
            && next.count == prev.count + (if row.Some? then 1 else 0)
            && next.writes == prev.writes + [EditWriteOf(prev.edits, items[i])]
  {
    assert items[..i + 1][..i] == items[..i];
  }

  /** `processField`: record a change of `fieldName` in the diff when it takes effect, and return the value in force. */
  method ProcessField(changesDiff: Diff, t: seq<EditRow>, op: string, h: nat, fieldName: string, txValue: string)
    returns (d: Diff, final: string)
    ensures d == AddIfApplies(changesDiff, fieldName, PriorValue(t, op, h, fieldName), txValue)
    ensures final == Resolved(txValue, PriorValue(t, op, h, fieldName))
  {
    var prevVal := PriorValue(t, op, h, fieldName);
    if txValue != "" && txValue != DoNotModify && txValue != prevVal {
      d := changesDiff[fieldName := Change(prevVal, txValue)];
      final := txValue;
    } else {
      d := changesDiff;
      final := prevVal;
    }
  }

  /** Steps 1 to 3 of the loop body: the prior lookups, the diff, and the values the profile will hold. */
  method ComputeEdit(t: seq<EditRow>, tx: Tx, msg: Msg) returns (changesDiff: Diff, profile: Profile)
    ensures changesDiff == EditDiff(t, msg.validatorAddress, HeightOf(tx), msg)
    ensures profile == EditProfile(t, msg.validatorAddress, HeightOf(tx), msg, tx.timestamp)
  {
    var validatorAddr := msg.validatorAddress;
    var height := HeightOf(tx);
    changesDiff := map[];

    var prevComm := PriorValue(t, validatorAddr, height, "commission_rate");
    if prevComm == "N/A" {
      prevComm := "0";
    }
    var txComm := msg.editCommissionRate;
    var finalCommission := prevComm;
    if txComm != "" && txComm != DoNotModify && txComm != prevComm {
      changesDiff := changesDiff["commission_rate" := Change(prevComm, txComm)];
      finalCommission := txComm;
    }
    assert prevComm == CommissionPrior(t, validatorAddr, height);
    assert changesDiff == AddIfApplies(map[], "commission_rate", prevComm, txComm);
    assert finalCommission == Resolved(txComm, prevComm);

    var prevMinSelf := PriorValue(t, validatorAddr, height, "min_self_delegation");
    ghost var d1 := changesDiff;
    if msg.minSelfDelegation != "" && msg.minSelfDelegation != DoNotModify && msg.minSelfDelegation != prevMinSelf {
      changesDiff := changesDiff["min_self_delegation" := Change(prevMinSelf, msg.minSelfDelegation)];
    }
    assert changesDiff == AddIfApplies(d1, "min_self_delegation", prevMinSelf, msg.minSelfDelegation);

    var msgDesc := msg.description;
    var finalMoniker, finalWebsite, finalIdentity, finalDetails, finalSecurity;
    changesDiff, finalMoniker := ProcessField(changesDiff, t, validatorAddr, height, "moniker", msgDesc.moniker);
    changesDiff, finalWebsite := ProcessField(changesDiff, t, validatorAddr, height, "website", msgDesc.website);
    changesDiff, finalIdentity := ProcessField(changesDiff, t, validatorAddr, height, "identity", msgDesc.identity);
    changesDiff, finalDetails := ProcessField(changesDiff, t, validatorAddr, height, "details", msgDesc.details);
    changesDiff, finalSecurity := ProcessField(changesDiff, t, validatorAddr, height, "security_contact", msgDesc.securityContact);

    profile := Profile(
      SafeVal(finalMoniker),
      Details(SafeVal(finalWebsite), SafeVal(finalIdentity), SafeVal(finalDetails), SafeVal(finalSecurity)),
      finalCommission,
      tx.timestamp);
  }

  /** The body of the loop for one edit: compute the diff and profile, then steps 4 and 5, the history write and the profile upsert. */
  method EditOne(db: Database, tx: Tx, msg: Msg) returns (changes: nat)
    modifies db`edits, db`validators
    ensures EditRowOf(old(db.edits), (tx, msg)).None? ==> db.edits == old(db.edits) && changes == 0
    ensures EditRowOf(old(db.edits), (tx, msg)).Some? ==>
              db.edits == ReplaceEdit(old(db.edits), EditRowOf(old(db.edits), (tx, msg)).value) && changes == 1
    ensures var w := EditWriteOf(old(db.edits), (tx, msg)); db.validators == old(db.validators)[w.0 := w.1]
  {
    var changesDiff, profile := ComputeEdit(db.edits, tx, msg);
    changes := 0;
    if changesDiff != map[] {
      db.edits := ReplaceEdit(db.edits, EditRow(tx.txhash, msg.validatorAddress, changesDiff, HeightOf(tx), tx.timestamp));
      changes := 1;
    }
    db.validators := db.validators[msg.validatorAddress := profile];
  }

  /**
   * `processEditValidator`: the page's edits, one after another, each
   * reading the history the earlier ones left; returns the number of
   * history rows written.
   */
  method ProcessEditValidator(db: Database, txs: seq<Tx>) returns (inserted: nat)
    requires db.Valid()
    modifies db`edits, db`validators
    ensures db.Valid()
    ensures db.edits == EditPage(old(db.edits), EditTxs(txs)).edits
    ensures inserted == EditPage(old(db.edits), EditTxs(txs)).count
    ensures db.validators == WriteAll(old(db.validators), EditPage(old(db.edits), EditTxs(txs)).writes)
  {
    var editTxs := EditTxs(txs);
    if |editTxs| == 0 {
      return 0;
    }
    inserted := 0;
    ghost var st := EditPage(old(db.edits), []);
    for i := 0 to |editTxs|
      invariant st == EditPage(old(db.edits), editTxs[..i])
      invariant UniqueKeys(db.edits)
      invariant db.edits == st.edits && inserted == st.count
      invariant db.validators == WriteAll(old(db.validators), st.writes)
    {
      var (tx, msg) := editTxs[i];
      EditPageStep(old(db.edits), editTxs, i);
      var changes := EditOne(db, tx, msg);
      inserted := inserted + changes;
      ghost var w := EditWriteOf(st.edits, (tx, msg));
      assert (st.writes + [w])[..|st.writes|] == st.writes;
      st := EditPage(old(db.edits), editTxs[..i + 1]);
    }
    assert editTxs[..|editTxs|] == editTxs;
  }

  // ---------------------------------------------------------------------
  // Reprocessing a page
  // ---------------------------------------------------------------------

  /** The API returns a page in ascending height order. */
  predicate Ascending(items: seq<EditItem>)
  {
    forall a, b :: 0 <= a < b < |items| ==> ItemHeight(items[a]) <= ItemHeight(items[b])
  }

  /** No two edits of the page share a history key. */
  predicate DistinctItemKeys(items: seq<EditItem>)
  {
    forall a, b :: 0 <= a < b < |items| ==> ItemKey(items[a]) != ItemKey(items[b])
  }

  /** A row holding the key of one of the page's edits sits at that edit's height (a transaction has one height). */
  predicate HeightsAgree(t: seq<EditRow>, items: seq<EditItem>)
  {
    forall x, a :: x in t && 0 <= a < |items| && KeyOf(x) == ItemKey(items[a]) ==> x.height == ItemHeight(items[a])
  }

  /** An item's row carries the item's key and height. */
  ghost predicate RowsFitItems(rowOf: (seq<EditRow>, EditItem) -> Option<EditRow>)
  {
    forall t, a :: rowOf(t, a).Some? ==> KeyOf(rowOf(t, a).value) == ItemKey(a) && rowOf(t, a).value.height == ItemHeight(a)
  }

  /** What an item computes depends only on the rows below its height. */
  ghost predicate LooksBelow(rowOf: (seq<EditRow>, EditItem) -> Option<EditRow>,
                             writeOf: (seq<EditRow>, EditItem) -> (string, Profile))
  {
    forall t, u, a {:trigger rowOf(t, a), rowOf(u, a)} {:trigger writeOf(t, a), writeOf(u, a)} ::
      Below(t, ItemHeight(a)) == Below(u, ItemHeight(a)) ==> rowOf(t, a) == rowOf(u, a) && writeOf(t, a) == writeOf(u, a)
  }

  /** The page up to `j` is the page up to `j - 1` and one more item. */
  lemma PageSnoc(t: seq<EditRow>, items: seq<EditItem>, rowOf: (seq<EditRow>, EditItem) -> Option<EditRow>,
                 writeOf: (seq<EditRow>, EditItem) -> (string, Profile), j: nat)
    requires 0 < j <= |items|
    ensures var prev := ReplacePage(t, items[..j - 1], rowOf, writeOf).edits;
            ReplacePage(t, items[..j], rowOf, writeOf).edits ==
            if rowOf(prev, items[j - 1]).Some? then ReplaceEdit(prev, rowOf(prev, items[j - 1]).value) else prev
  {
    assert items[..j][..j - 1] == items[..j - 1];
    assert items[..j][j - 1] == items[j - 1];
  }

  /** Running the page keeps rows at their transactions' heights. */
  lemma {:induction false} HeightsAgreeKept(t: seq<EditRow>, items: seq<EditItem>,
                                            rowOf: (seq<EditRow>, EditItem) -> Option<EditRow>,
                                            writeOf: (seq<EditRow>, EditItem) -> (string, Profile), j: nat)
    requires j <= |items| && HeightsAgree(t, items) && DistinctItemKeys(items) && RowsFitItems(rowOf)
    ensures HeightsAgree(ReplacePage(t, items[..j], rowOf, writeOf).edits, items)
  {
    if j > 0 {
      HeightsAgreeKept(t, items, rowOf, writeOf, j - 1);
      PageSnoc(t, items, rowOf, writeOf, j);
      var prev := ReplacePage(t, items[..j - 1], rowOf, writeOf).edits;
      var item := items[j - 1];
      if rowOf(prev, item).Some? {
        HeightsAgreeReplace(prev, items, rowOf(prev, item).value, item);
      }
    }
  }

  /** Storing a row that fits one of the page's edits keeps rows at their transactions' heights. */
  lemma HeightsAgreeReplace(prev: seq<EditRow>, items: seq<EditItem>, row: EditRow, item: EditItem)
    requires HeightsAgree(prev, items) && DistinctItemKeys(items) && item in items
    requires KeyOf(row) == ItemKey(item) && row.height == ItemHeight(item)
    ensures HeightsAgree(ReplaceEdit(prev, row), items)
  {
    var r := ReplaceEdit(prev, row);
    ReplaceEditRows(prev, row);
    forall x, a | x in r && 0 <= a < |items| && KeyOf(x) == ItemKey(items[a])
      ensures x.height == ItemHeight(items[a])
    {
      if x !in prev {
        assert x == row;
        var b :| 0 <= b < |items| && items[b] == item;
      }
    }
  }

  /** Items from position `k` on never change what item `k` sees. */
  lemma {:induction false} BelowKept(t: seq<EditRow>, items: seq<EditItem>,
                                     rowOf: (seq<EditRow>, EditItem) -> Option<EditRow>,
                                     writeOf: (seq<EditRow>, EditItem) -> (string, Profile), k: nat, j: nat)
    requires k < |items| && k <= j <= |items|
    requires Ascending(items) && DistinctItemKeys(items) && HeightsAgree(t, items) && RowsFitItems(rowOf)
    ensures Below(ReplacePage(t, items[..j], rowOf, writeOf).edits, ItemHeight(items[k])) ==
            Below(ReplacePage(t, items[..k], rowOf, writeOf).edits, ItemHeight(items[k]))
  {
    if j > k {
      BelowKept(t, items, rowOf, writeOf, k, j - 1);
      HeightsAgreeKept(t, items, rowOf, writeOf, j - 1);
      BelowStep(t, items, rowOf, writeOf, k, j);
    }
  }

  /** Item `j - 1`, at or above item `k`'s height, leaves the rows below item `k` alone. */
  lemma BelowStep(t: seq<EditRow>, items: seq<EditItem>,
                  rowOf: (seq<EditRow>, EditItem) -> Option<EditRow>,
                  writeOf: (seq<EditRow>, EditItem) -> (string, Profile), k: nat, j: nat)
    requires k < j <= |items| && Ascending(items) && RowsFitItems(rowOf)
    requires HeightsAgree(ReplacePage(t, items[..j - 1], rowOf, writeOf).edits, items)
    ensures Below(ReplacePage(t, items[..j], rowOf, writeOf).edits, ItemHeight(items[k])) ==
            Below(ReplacePage(t, items[..j - 1], rowOf, writeOf).edits, ItemHeight(items[k]))
  {
    PageSnoc(t, items, rowOf, writeOf, j);
    var prev := ReplacePage(t, items[..j - 1], rowOf, writeOf).edits;
    var item := items[j - 1];
    var h := ItemHeight(items[k]);
    assert h <= ItemHeight(item);
    if rowOf(prev, item).Some? {
      var row := rowOf(prev, item).value;
      assert KeyOf(row) == ItemKey(item) && row.height == ItemHeight(item);
      forall x | x in prev && KeyOf(x) == KeyOf(row)
        ensures x.height >= h
      {
        assert x.height == ItemHeight(items[j - 1]);
      }
      ReplaceAboveInvisible(prev, row, h, "", "");
    }
  }

  /** The row item `k` writes is in the table right after it. */
  lemma RowWritten(t: seq<EditRow>, items: seq<EditItem>,
                   rowOf: (seq<EditRow>, EditItem) -> Option<EditRow>,
                   writeOf: (seq<EditRow>, EditItem) -> (string, Profile), k: nat, row: EditRow)
    requires k < |items|
    requires rowOf(ReplacePage(t, items[..k], rowOf, writeOf).edits, items[k]) == Some(row)
    ensures row in ReplacePage(t, items[..k + 1], rowOf, writeOf).edits
  {
    PageSnoc(t, items, rowOf, writeOf, k + 1);
  }

  /** A row under another key than item `j - 1`'s survives that item. */
  lemma RowStays(t: seq<EditRow>, items: seq<EditItem>,
                 rowOf: (seq<EditRow>, EditItem) -> Option<EditRow>,
                 writeOf: (seq<EditRow>, EditItem) -> (string, Profile), j: nat, row: EditRow)
    requires 0 < j <= |items| && RowsFitItems(rowOf)
    requires row in ReplacePage(t, items[..j - 1], rowOf, writeOf).edits && KeyOf(row) != ItemKey(items[j - 1])
    ensures row in ReplacePage(t, items[..j], rowOf, writeOf).edits
  {
    PageSnoc(t, items, rowOf, writeOf, j);
    var prev := ReplacePage(t, items[..j - 1], rowOf, writeOf).edits;
    var next := rowOf(prev, items[j - 1]);
    if next.Some? {
      assert KeyOf(next.value) == ItemKey(items[j - 1]);
    }
    WriteKeepsOthers(prev, next, row);
  }

  /** The row item `k` wrote is still in the table after any later items. */
  lemma {:induction false} RowKept(t: seq<EditRow>, items: seq<EditItem>,
                                   rowOf: (seq<EditRow>, EditItem) -> Option<EditRow>,
                                   writeOf: (seq<EditRow>, EditItem) -> (string, Profile), k: nat, j: nat, row: EditRow)
    requires k < j <= |items| && DistinctItemKeys(items) && RowsFitItems(rowOf)
    requires rowOf(ReplacePage(t, items[..k], rowOf, writeOf).edits, items[k]) == Some(row)
    ensures row in ReplacePage(t, items[..j], rowOf, writeOf).edits
  {
    if j == k + 1 {
      RowWritten(t, items, rowOf, writeOf, k, row);
    } else {
      RowKept(t, items, rowOf, writeOf, k, j - 1, row);
      assert KeyOf(row) != ItemKey(items[j - 1]) by {
        assert KeyOf(row) == ItemKey(items[k]);
        assert ItemKey(items[k]) != ItemKey(items[j - 1]);
      }
      RowStays(t, items, rowOf, writeOf, j, row);
    }
  }

  /** Replaying the first `k` items on the table the whole page produced changes nothing and repeats the writes and the count. */
  lemma {:induction false} ReplayPrefix(t: seq<EditRow>, items: seq<EditItem>,
                                        rowOf: (seq<EditRow>, EditItem) -> Option<EditRow>,
                                        writeOf: (seq<EditRow>, EditItem) -> (string, Profile), k: nat)
    requires k <= |items| && UniqueKeys(t)
    requires Ascending(items) && DistinctItemKeys(items) && HeightsAgree(t, items)
    requires RowsFitItems(rowOf) && LooksBelow(rowOf, writeOf)
    ensures var once := ReplacePage(t, items, rowOf, writeOf).edits;
            var pk := ReplacePage(t, items[..k], rowOf, writeOf);
            ReplacePage(once, items[..k], rowOf, writeOf) == PageResult(once, pk.writes, pk.count)
  {
    var once := ReplacePage(t, items, rowOf, writeOf).edits;
    if k > 0 {
      var m := k - 1;
      ReplayPrefix(t, items, rowOf, writeOf, m);
      assert items[..k][..m] == items[..m];
      assert items[..k][m] == items[m];
      var item := items[m];
      var pm := ReplacePage(t, items[..m], rowOf, writeOf).edits;
      assert items[..|items|] == items;
      BelowKept(t, items, rowOf, writeOf, m, |items|);
      assert rowOf(once, item) == rowOf(pm, item) && writeOf(once, item) == writeOf(pm, item);
      if rowOf(pm, item).Some? {
        var row := rowOf(pm, item).value;
        RowKept(t, items, rowOf, writeOf, m, |items|, row);
        ReplaceExisting(once, row);
      }
    }
  }

  /** The edit processor's row and write satisfy what the replay argument needs. */
  lemma EditStepsLookBelow()
    ensures RowsFitItems(EditRowOf)
    ensures LooksBelow(EditRowOf, EditWriteOf)
  {
    forall t, u, a | Below(t, ItemHeight(a)) == Below(u, ItemHeight(a))
      ensures EditRowOf(t, a) == EditRowOf(u, a) && EditWriteOf(t, a) == EditWriteOf(u, a)
    {
      EditSameBelow(t, u, a.1.validatorAddress, ItemHeight(a), a.1, a.0.timestamp);
    }
  }

  /**
   * Reprocessing a page whose edits come in ascending height order with
   * distinct keys, on the tables the first run left, leaves both tables as
   * they were. The count is not 0 on the second run: `INSERT OR REPLACE`
   * reports a change for every diff row it writes, so it repeats the first
   * run's count.
   */
  lemma EditReplay(t: seq<EditRow>, validators: map<string, Profile>, items: seq<EditItem>)
    requires UniqueKeys(t)
    requires Ascending(items) && DistinctItemKeys(items) && HeightsAgree(t, items)
    ensures var once := EditPage(t, items);
            var twice := EditPage(once.edits, items);
            twice.edits == once.edits && twice.count == once.count
    ensures var once := EditPage(t, items);
            var twice := EditPage(once.edits, items);
            WriteAll(WriteAll(validators, once.writes), twice.writes) == WriteAll(validators, once.writes)
  {
    EditStepsLookBelow();
    ReplayPrefix(t, items, EditRowOf, EditWriteOf, |items|);
    assert items[..|items|] == items;
    WriteAllReplay(validators, EditPage(t, items).writes);
  }
}
