/**
 * The indexer's SQLite database: one table per entity, each a finite map
 * from the table's primary key to the rest of the row, except
 * `history_edits`, which is a sequence in row order because the prior-value
 * lookup of the edit processor has to break ties between rows of equal
 * height. The two conflict clauses the processors use are modelled once
 * here: `INSERT OR IGNORE` keeps the existing row and reports 0 changes,
 * `INSERT OR REPLACE` overwrites it and reports 1 change.
 */
module Store {
  import opened Base

  /** The JSON object stored in `validators.details`. */
  datatype Details = Details(website: string, identity: string, details: string, securityContact: string)

  /** A row of `validators`, keyed by operator address. */
  datatype Profile = Profile(moniker: string, details: Details, commissionRate: string, lastUpdated: string)

  /** One entry `{from, to}` of a diff map. */
  datatype Change = Change(from: string, to: string)

  /** The JSON object stored in `history_edits.field_changed`: field name to change. */
  type Diff = map<string, Change>

  /** A row of `history_edits`; its primary key is (txHash, operator). */
  datatype EditRow = EditRow(txHash: string, operator: string, diff: Diff, height: nat, timestamp: string)

  /** A row of `history_unjail`, keyed by (tx hash, operator address). */
  datatype UnjailRow = UnjailRow(height: nat, timestamp: string)

  /** A row of `history_votes`, keyed by (proposal id, operator address). */
  datatype VoteRow = VoteRow(txHash: string, option: string, timestamp: string)

  /** A row of `active_upgrade`, keyed by plan name. */
  datatype ActiveUpgradeRow = ActiveUpgradeRow(targetHeight: int, startTime: int, estimatedTime: real, info: string)

  /** A row of `history_upgrades`, keyed by plan name. */
  datatype UpgradeHistoryRow = UpgradeHistoryRow(
    targetHeight: int,
    actualUpgradeTime: Option<int>,
    votingStartTime: int,
    proposalId: string,
    title: string,
    status: string)

  // ---------------------------------------------------------------------
  // INSERT OR IGNORE over a keyed table, one statement after another.
  // ---------------------------------------------------------------------

  /** The keys of a sequence of rows to insert. */
  function KeysOf<K, V>(es: seq<(K, V)>): set<K>
  {
    set i | 0 <= i < |es| :: es[i].0
  }

  /**
   * Running `INSERT OR IGNORE` once per entry of `es`, in order: the new
   * table and the sum of the statements' change counts.
   */
  function IgnoreAll<K, V>(m: map<K, V>, es: seq<(K, V)>): (r: (map<K, V>, nat))
  {
    if es == [] then (m, 0)
    else
      var prev := IgnoreAll(m, es[..|es| - 1]);
      var e := es[|es| - 1];
      if e.0 in prev.0 then prev else (prev.0[e.0 := e.1], prev.1 + 1)
  }

  /** One more statement, run on the table the earlier ones left. */
  lemma IgnoreAllSnoc<K, V>(m: map<K, V>, es: seq<(K, V)>, e: (K, V))
    ensures IgnoreAll(m, es + [e]) ==
            var prev := IgnoreAll(m, es);
            if e.0 in prev.0 then prev else (prev.0[e.0 := e.1], prev.1 + 1)
  {
    assert (es + [e])[..|es|] == es;
  }

  lemma KeysOfSnoc<K, V>(es: seq<(K, V)>)
    requires es != []
    ensures KeysOf(es) == KeysOf(es[..|es| - 1]) + {es[|es| - 1].0}
  {
    var init := es[..|es| - 1];
    assert forall i :: 0 <= i < |init| ==> init[i] == es[i];
  }

  /** The statements leave the table with exactly its old keys plus the keys of `es`. */
  lemma {:induction false} IgnoreAllKeys<K, V>(m: map<K, V>, es: seq<(K, V)>)
    ensures IgnoreAll(m, es).0.Keys == m.Keys + KeysOf(es)
  {
    if es != [] {
      IgnoreAllKeys(m, es[..|es| - 1]);
      KeysOfSnoc(es);
    }
  }

  /** An existing row is never overwritten. */
  lemma {:induction false} IgnoreAllKeepsRows<K, V>(m: map<K, V>, es: seq<(K, V)>)
    ensures forall k :: k in m ==> k in IgnoreAll(m, es).0 && IgnoreAll(m, es).0[k] == m[k]
  {
    if es != [] {
      IgnoreAllKeepsRows(m, es[..|es| - 1]);
    }
  }

  /** The change count is the number of keys that were not in the table before. */
  lemma {:induction false} IgnoreAllCount<K, V>(m: map<K, V>, es: seq<(K, V)>)
    ensures IgnoreAll(m, es).1 == |IgnoreAll(m, es).0.Keys - m.Keys|
  {
    if es != [] {
      var init, e := es[..|es| - 1], es[|es| - 1];
      var prev := IgnoreAll(m, init);
      IgnoreAllCount(m, init);
      if e.0 in prev.0 {
        assert IgnoreAll(m, es) == prev;
      } else {
        assert IgnoreAll(m, es) == (prev.0[e.0 := e.1], prev.1 + 1);
        IgnoreAllKeepsRows(m, init);
        NewKeyCount(prev.0.Keys, m.Keys, e.0);
        assert prev.0[e.0 := e.1].Keys == prev.0.Keys + {e.0};
      }
    }
  }

  lemma NewKeyCount<K>(keys: set<K>, before: set<K>, k: K)
    requires k !in keys && before <= keys
    ensures |(keys + {k}) - before| == |keys - before| + 1
  {
    assert (keys + {k}) - before == (keys - before) + {k};
  }

  /**
   * First seen wins: for a key that was not in the table, the stored value is
   * the one of the first entry with that key.
   */
  lemma {:induction false} IgnoreAllFirstWins<K, V>(m: map<K, V>, es: seq<(K, V)>, i: nat)
    requires i < |es| && es[i].0 !in m
    requires forall j :: 0 <= j < i ==> es[j].0 != es[i].0
    ensures es[i].0 in IgnoreAll(m, es).0 && IgnoreAll(m, es).0[es[i].0] == es[i].1
  {
    var init := es[..|es| - 1];
    var prev := IgnoreAll(m, init);
    if i == |es| - 1 {
      IgnoreAllKeys(m, init);
      assert es[i].0 !in KeysOf(init);
    } else {
      IgnoreAllFirstWins(m, init, i);
    }
  }

  /** Inserting rows whose keys are all present already changes nothing and reports 0. */
  lemma {:induction false} IgnoreAllPresent<K, V>(m: map<K, V>, es: seq<(K, V)>)
    requires forall i :: 0 <= i < |es| ==> es[i].0 in m
    ensures IgnoreAll(m, es) == (m, 0)
  {
    if es != [] {
      IgnoreAllPresent(m, es[..|es| - 1]);
    }
  }

  /** Replaying the same statements on the table they produced is a no-op reporting 0 changes. */
  lemma IgnoreAllReplay<K, V>(m: map<K, V>, es: seq<(K, V)>)
    ensures IgnoreAll(IgnoreAll(m, es).0, es) == (IgnoreAll(m, es).0, 0)
  {
    IgnoreAllKeys(m, es);
    IgnoreAllPresent(IgnoreAll(m, es).0, es);
  }

  // ---------------------------------------------------------------------
  // The rows a page of items gives rise to.
  // ---------------------------------------------------------------------

  /** `f` applied to each item in order, keeping the results of the items that give one. */
  function Collect<A, T>(xs: seq<A>, f: A -> Option<T>): seq<T>
  {
    if xs == [] then []
    else Collect(xs[..|xs| - 1], f) + (if f(xs[|xs| - 1]).Some? then [f(xs[|xs| - 1]).value] else [])
  }

  /** One more item: its row, if any, comes last. */
  lemma CollectSnoc<A, T>(xs: seq<A>, f: A -> Option<T>, i: nat)
    requires i < |xs|
    ensures Collect(xs[..i + 1], f) == Collect(xs[..i], f) + (if f(xs[i]).Some? then [f(xs[i]).value] else [])
  {
    assert xs[..i + 1][..i] == xs[..i];
  }

  lemma {:induction false} CollectAppend<A, T>(xs: seq<A>, ys: seq<A>, f: A -> Option<T>)
    ensures Collect(xs + ys, f) == Collect(xs, f) + Collect(ys, f)
  {
    if ys != [] {
      var zs := xs + ys;
      assert zs[..|zs| - 1] == xs + ys[..|ys| - 1];
      CollectAppend(xs, ys[..|ys| - 1], f);
    } else {
      assert xs + ys == xs;
    }
  }

  /** Every collected row comes from some item. */
  lemma {:induction false} CollectFrom<A, T>(xs: seq<A>, f: A -> Option<T>, e: T)
    requires e in Collect(xs, f)
    ensures exists j :: 0 <= j < |xs| && f(xs[j]) == Some(e)
  {
    var init := xs[..|xs| - 1];
    if e in Collect(init, f) {
      CollectFrom(init, f, e);
      var j :| 0 <= j < |init| && f(init[j]) == Some(e);
      assert xs[j] == init[j];
    } else {
      assert f(xs[|xs| - 1]) == Some(e);
    }
  }

  /**
   * First seen wins within a page: a key that was not in the table ends up
   * holding the row of the first item that produced that key.
   */
  lemma IgnorePageFirstWins<A, K, V>(m: map<K, V>, xs: seq<A>, f: A -> Option<(K, V)>, i: nat)
    requires i < |xs| && f(xs[i]).Some? && f(xs[i]).value.0 !in m
    requires forall j :: 0 <= j < i && f(xs[j]).Some? ==> f(xs[j]).value.0 != f(xs[i]).value.0
    ensures f(xs[i]).value.0 in IgnoreAll(m, Collect(xs, f)).0
    ensures IgnoreAll(m, Collect(xs, f)).0[f(xs[i]).value.0] == f(xs[i]).value.1
  {
    var e := f(xs[i]).value;
    var before, after := xs[..i], xs[i + 1..];
    assert xs == before + [xs[i]] + after;
    CollectAppend(before + [xs[i]], after, f);
    CollectAppend(before, [xs[i]], f);
    assert Collect([xs[i]], f) == [e] by {
      assert [xs[i]][..0] == [];
    }
    var es := Collect(xs, f);
    var p := |Collect(before, f)|;
    assert es == Collect(before, f) + [e] + Collect(after, f);
    assert es[p] == e;
    forall q | 0 <= q < p
      ensures es[q].0 != e.0
    {
      assert es[q] == Collect(before, f)[q];
      CollectFrom(before, f, es[q]);
      var j :| 0 <= j < |before| && f(before[j]) == Some(es[q]);
      assert xs[j] == before[j];
    }
    IgnoreAllFirstWins(m, es, p);
  }

  // ---------------------------------------------------------------------
  // INSERT OR REPLACE over a keyed table, one statement after another.
  // ---------------------------------------------------------------------

  /** Running `INSERT OR REPLACE` once per entry of `ws`, in order. */
  function WriteAll<K, V>(m: map<K, V>, ws: seq<(K, V)>): map<K, V>
  {
    if ws == [] then m else WriteAll(m, ws[..|ws| - 1])[ws[|ws| - 1].0 := ws[|ws| - 1].1]
  }

  /** The writes land on top of the old table: the last write per key wins, other rows stay. */
  lemma {:induction false} WriteAllOverlay<K, V>(m: map<K, V>, ws: seq<(K, V)>)
    ensures WriteAll(m, ws) == m + WriteAll(map[], ws)
  {
    if ws != [] {
      WriteAllOverlay(m, ws[..|ws| - 1]);
    }
  }

  /** Replaying the same writes leaves the table as the first run left it. */
  lemma WriteAllReplay<K, V>(m: map<K, V>, ws: seq<(K, V)>)
    ensures WriteAll(WriteAll(m, ws), ws) == WriteAll(m, ws)
  {
    WriteAllOverlay(m, ws);
    WriteAllOverlay(WriteAll(m, ws), ws);
    var w := WriteAll(map[], ws);
    assert (m + w) + w == m + w;
  }

  /** The last write to a key decides what the key holds. */
  lemma {:induction false} WriteAllLast<K, V>(m: map<K, V>, ws: seq<(K, V)>, i: nat)
    requires i < |ws|
    requires forall j :: i < j < |ws| ==> ws[j].0 != ws[i].0
    ensures ws[i].0 in WriteAll(m, ws) && WriteAll(m, ws)[ws[i].0] == ws[i].1
  {
    if i < |ws| - 1 {
      WriteAllLast(m, ws[..|ws| - 1], i);
    }
  }

  /** A key no write mentions keeps its old row. */
  lemma {:induction false} WriteAllElsewhere<K, V>(m: map<K, V>, ws: seq<(K, V)>, k: K)
    requires forall j :: 0 <= j < |ws| ==> ws[j].0 != k
    ensures k in WriteAll(m, ws) <==> k in m
    ensures k in m ==> WriteAll(m, ws)[k] == m[k]
  {
    if ws != [] {
      WriteAllElsewhere(m, ws[..|ws| - 1], k);
    }
  }

  /** One more item of a page: its write, if it makes one, lands on the table the earlier items left. */
  lemma WritePageStep<A, K, V>(m: map<K, V>, xs: seq<A>, f: A -> Option<(K, V)>, i: nat)
    requires i < |xs|
    ensures WriteAll(m, Collect(xs[..i + 1], f)) ==
            var prev := WriteAll(m, Collect(xs[..i], f));
            if f(xs[i]).Some? then prev[f(xs[i]).value.0 := f(xs[i]).value.1] else prev
  {
    CollectSnoc(xs, f, i);
    var ws := Collect(xs[..i], f);
    if f(xs[i]).Some? {
      var w := f(xs[i]).value;
      assert Collect(xs[..i + 1], f) == ws + [w];
      assert (ws + [w])[..|ws|] == ws;
      assert WriteAll(m, ws + [w]) == WriteAll(m, ws)[w.0 := w.1];
    } else {
      assert Collect(xs[..i + 1], f) == ws;
    }
  }

  /** Within a page, the last item that writes a key decides what the key holds. */
  lemma WritePageLast<A, K, V>(m: map<K, V>, xs: seq<A>, f: A -> Option<(K, V)>, i: nat)
    requires i < |xs| && f(xs[i]).Some?
    requires forall j :: i < j < |xs| && f(xs[j]).Some? ==> f(xs[j]).value.0 != f(xs[i]).value.0
    ensures f(xs[i]).value.0 in WriteAll(m, Collect(xs, f))
    ensures WriteAll(m, Collect(xs, f))[f(xs[i]).value.0] == f(xs[i]).value.1
  {
    var e := f(xs[i]).value;
    var before, after := xs[..i], xs[i + 1..];
    assert xs == before + [xs[i]] + after;
    CollectAppend(before + [xs[i]], after, f);
    CollectAppend(before, [xs[i]], f);
    assert Collect([xs[i]], f) == [e] by {
      assert [xs[i]][..0] == [];
    }
    var ws := Collect(xs, f);
    var p := |Collect(before, f)|;
    assert ws == Collect(before, f) + [e] + Collect(after, f);
    assert ws[p] == e;
    forall q | p < q < |ws|
      ensures ws[q].0 != e.0
    {
      assert ws[q] == Collect(after, f)[q - p - 1];
      CollectFrom(after, f, ws[q]);
      var j :| 0 <= j < |after| && f(after[j]) == Some(ws[q]);
      assert xs[i + 1 + j] == after[j];
    }
    WriteAllLast(m, ws, p);
  }

  // ---------------------------------------------------------------------
  // history_edits: rows in table order, primary key (txHash, operator).
  // ---------------------------------------------------------------------

  function KeyOf(r: EditRow): (string, string)
  {
    (r.txHash, r.operator)
  }

  /** The fields whose changes `history_edits` records, by their diff names. */
  const HistoryFields: set<string> :=
    {"commission_rate", "min_self_delegation", "moniker", "website", "identity", "details", "security_contact"}

  /** `changesDiff[f] = {from, to}` when `to` is present (non-empty). */
  function AddIfPresent(d: Diff, f: string, from: string, to: string): Diff
  {
    if to != "" then d[f := Change(from, to)] else d
  }

  /** A field is in the diff after the step when the step added it or it was there before. */
  lemma AddIfPresentEntry(d: Diff, g: string, from: string, to: string, f: string)
    ensures f in AddIfPresent(d, g, from, to) <==> (f == g && to != "") || f in d
    ensures f in AddIfPresent(d, g, from, to) ==>
              AddIfPresent(d, g, from, to)[f] == if f == g && to != "" then Change(from, to) else d[f]
  {
  }

  /** The primary-key constraint of `history_edits`. */
  predicate UniqueKeys(t: seq<EditRow>)
  {
    forall i, j :: 0 <= i < j < |t| ==> KeyOf(t[i]) != KeyOf(t[j])
  }

  /** The position of the row with key `k`, if any. */
  function FindRow(t: seq<EditRow>, k: (string, string)): (r: Option<nat>)
    ensures r.Some? ==> r.value < |t| && KeyOf(t[r.value]) == k
    ensures r.None? <==> forall i :: 0 <= i < |t| ==> KeyOf(t[i]) != k
  {
    if t == [] then None
    else if KeyOf(t[|t| - 1]) == k then Some(|t| - 1)
    else FindRow(t[..|t| - 1], k)
  }

  /**
   * `INSERT OR REPLACE INTO history_edits`: the row with the same key, if
   * any, is overwritten where it stands; otherwise the row is appended. SQL
   * gives rows no order; the position only serves the tie-break of the
   * prior-value lookup, which SQLite leaves unspecified.
   */
  function ReplaceEdit(t: seq<EditRow>, row: EditRow): (r: seq<EditRow>)
    ensures row in r
    ensures UniqueKeys(t) ==> UniqueKeys(r)
  {
    match FindRow(t, KeyOf(row))
    case Some(i) =>
      assert t[i := row][i] == row;
      t[i := row]
    case None => t + [row]
  }

  /** The rows after `INSERT OR REPLACE`: the new row and old ones, and every old row with another key is still there. */
  lemma ReplaceEditRows(t: seq<EditRow>, row: EditRow)
    ensures forall x :: x in ReplaceEdit(t, row) ==> x == row || x in t
    ensures forall x :: x in t && KeyOf(x) != KeyOf(row) ==> x in ReplaceEdit(t, row)
  {
    var r := ReplaceEdit(t, row);
    match FindRow(t, KeyOf(row))
    case Some(i) =>
      forall x | x in r ensures x == row || x in t {
        var j :| 0 <= j < |r| && r[j] == x;
        if j != i { assert x == t[j]; }
      }
      forall x | x in t && KeyOf(x) != KeyOf(row) ensures x in r {
        var j :| 0 <= j < |t| && t[j] == x;
        assert r[j] == x;
      }
    case None =>
  }

  /** `INSERT OR IGNORE INTO history_edits`: the new table and the change count. */
  function IgnoreEdit(t: seq<EditRow>, row: EditRow): (r: (seq<EditRow>, nat))
    ensures FindRow(t, KeyOf(row)).Some? ==> r == (t, 0)
    ensures FindRow(t, KeyOf(row)).None? ==> r == (t + [row], 1)
    ensures UniqueKeys(t) ==> UniqueKeys(r.0)
  {
    if FindRow(t, KeyOf(row)).Some? then (t, 0) else (t + [row], 1)
  }

  /** Running `INSERT OR IGNORE INTO history_edits` once per row, in order: the table and the total change count. */
  function IgnoreEdits(t: seq<EditRow>, rows: seq<EditRow>): (r: (seq<EditRow>, nat))
  {
    if rows == [] then (t, 0)
    else
      var prev := IgnoreEdits(t, rows[..|rows| - 1]);
      var last := IgnoreEdit(prev.0, rows[|rows| - 1]);
      (last.0, prev.1 + last.1)
  }

  /** A key present in a table is present in any table that extends it. */
  lemma FindRowInExtension(t: seq<EditRow>, u: seq<EditRow>, k: (string, string))
    requires t <= u && FindRow(t, k).Some?
    ensures FindRow(u, k).Some?
  {
    var i := FindRow(t, k).value;
    assert u[i] == t[i];
  }

  /**
   * What the statements do: the old rows stay as they were, in place; new
   * rows are only appended; every row's key is in the result; and the
   * change count is the number of rows appended.
   */
  lemma {:induction false} IgnoreEditsGrow(t: seq<EditRow>, rows: seq<EditRow>)
    ensures t <= IgnoreEdits(t, rows).0
    ensures IgnoreEdits(t, rows).1 == |IgnoreEdits(t, rows).0| - |t|
    ensures forall i :: 0 <= i < |rows| ==> FindRow(IgnoreEdits(t, rows).0, KeyOf(rows[i])).Some?
  {
    if rows != [] {
      var init := rows[..|rows| - 1];
      IgnoreEditsGrow(t, init);
      var prev := IgnoreEdits(t, init);
      var r := IgnoreEdits(t, rows).0;
      assert prev.0 <= r;
      forall i | 0 <= i < |rows|
        ensures FindRow(r, KeyOf(rows[i])).Some?
      {
        if i < |rows| - 1 {
          assert rows[i] == init[i];
          FindRowInExtension(prev.0, r, KeyOf(rows[i]));
        } else if FindRow(prev.0, KeyOf(rows[i])).None? {
          assert r[|r| - 1] == rows[i];
        }
      }
    }
  }

  /** Rows whose keys are all present already change nothing and report 0. */
  lemma {:induction false} IgnoreEditsPresent(t: seq<EditRow>, rows: seq<EditRow>)
    requires forall i :: 0 <= i < |rows| ==> FindRow(t, KeyOf(rows[i])).Some?
    ensures IgnoreEdits(t, rows) == (t, 0)
  {
    if rows != [] {
      IgnoreEditsPresent(t, rows[..|rows| - 1]);
    }
  }

  /** Replaying the same inserts on the table they produced changes nothing and reports 0. */
  lemma IgnoreEditsReplay(t: seq<EditRow>, rows: seq<EditRow>)
    ensures IgnoreEdits(IgnoreEdits(t, rows).0, rows) == (IgnoreEdits(t, rows).0, 0)
  {
    IgnoreEditsGrow(t, rows);
    IgnoreEditsPresent(IgnoreEdits(t, rows).0, rows);
  }

  /** The key constraint survives the inserts. */
  lemma {:induction false} IgnoreEditsUnique(t: seq<EditRow>, rows: seq<EditRow>)
    requires UniqueKeys(t)
    ensures UniqueKeys(IgnoreEdits(t, rows).0)
  {
    if rows != [] {
      IgnoreEditsUnique(t, rows[..|rows| - 1]);
    }
  }

  /** `INSERT OR IGNORE` for an item that may or may not carry a row: the table and its change count. */
  function IgnoreOpt<K, V>(m: map<K, V>, e: Option<(K, V)>): (map<K, V>, nat)
  {
    if e.None? || e.value.0 in m then (m, 0) else (m[e.value.0 := e.value.1], 1)
  }

  /** One more item of a page: its row, if it has one, is inserted into the table the earlier items left. */
  lemma IgnorePageStep<A, K, V>(m: map<K, V>, xs: seq<A>, f: A -> Option<(K, V)>, i: nat)
    requires i < |xs|
    ensures IgnoreAll(m, Collect(xs[..i + 1], f)) ==
            var prev := IgnoreAll(m, Collect(xs[..i], f));
            var step := IgnoreOpt(prev.0, f(xs[i]));
            (step.0, prev.1 + step.1)
  {
    CollectSnoc(xs, f, i);
    var es := Collect(xs[..i], f);
    if f(xs[i]).Some? {
      assert Collect(xs[..i + 1], f) == es + [f(xs[i]).value];
      IgnoreAllSnoc(m, es, f(xs[i]).value);
    } else {
      assert Collect(xs[..i + 1], f) == es;
    }
  }

  /** One statement for an item that may or may not carry a row: the table and its change count. */
  function IgnoreEditOpt(t: seq<EditRow>, row: Option<EditRow>): (r: (seq<EditRow>, nat))
    ensures UniqueKeys(t) ==> UniqueKeys(r.0)
  {
    if row.Some? then IgnoreEdit(t, row.value) else (t, 0)
  }

  /** One more item of a page: its row, if it has one, is inserted into the table the earlier items left. */
  lemma IgnoreEditsPageStep<A>(t: seq<EditRow>, xs: seq<A>, f: A -> Option<EditRow>, i: nat)
    requires i < |xs|
    ensures IgnoreEdits(t, Collect(xs[..i + 1], f)).0 == IgnoreEditOpt(IgnoreEdits(t, Collect(xs[..i], f)).0, f(xs[i])).0
    ensures IgnoreEdits(t, Collect(xs[..i + 1], f)).1 ==
            IgnoreEdits(t, Collect(xs[..i], f)).1 + IgnoreEditOpt(IgnoreEdits(t, Collect(xs[..i], f)).0, f(xs[i])).1
  {
    CollectSnoc(xs, f, i);
    var rows := Collect(xs[..i], f);
    if f(xs[i]).Some? {
      var row := f(xs[i]).value;
      assert Collect(xs[..i + 1], f) == rows + [row];
      assert (rows + [row])[..|rows|] == rows;
    } else {
      assert Collect(xs[..i + 1], f) == rows;
    }
  }

  /**
   * `SELECT MAX(last_height) FROM sync_status`: the greatest checkpoint of
   * any action type, NULL (None) when the table is empty.
   */
  method MaxLastHeight(syncStatus: map<string, nat>) returns (h: Option<nat>)
    ensures h.None? <==> syncStatus == map[]
    ensures h.Some? ==> (exists k :: k in syncStatus && syncStatus[k] == h.value) &&
                        forall k :: k in syncStatus ==> syncStatus[k] <= h.value
  {
    h := None;
    var rest := syncStatus.Keys;
    while rest != {}
      invariant rest <= syncStatus.Keys
      invariant h.None? <==> rest == syncStatus.Keys
      invariant h.Some? ==> (exists k :: k in syncStatus && syncStatus[k] == h.value) &&
                            forall k :: k in syncStatus && k !in rest ==> syncStatus[k] <= h.value
      decreases rest
    {
      var k :| k in rest;
      if h.None? || syncStatus[k] >= h.value {
        h := Some(syncStatus[k]);
      }
      rest := rest - {k};
    }
    assert h.None? ==> syncStatus.Keys == {};
  }

  /**
   * One chain's database file. The fields are the tables; the processors
   * update them in place. `upgradeHistory` is None while the file has no
   * `history_upgrades` table: the schema set-up of the indexer does not
   * create one.
   */
  class Database {
    var validators: map<string, Profile>
    var edits: seq<EditRow>
    var unjails: map<(string, string), UnjailRow>
    var votes: map<(string, string), VoteRow>
    var syncStatus: map<string, nat>
    var activeUpgrade: map<string, ActiveUpgradeRow>
    var upgradeHistory: Option<map<string, UpgradeHistoryRow>>

    /** The primary-key constraint of the one table kept in row order. */
    ghost predicate Valid()
      reads this
    {
      UniqueKeys(edits)
    }

    /** A freshly initialised database: every table the schema creates is empty. */
    constructor ()
      ensures Valid()
      ensures validators == map[] && edits == [] && unjails == map[] && votes == map[]
      ensures syncStatus == map[] && activeUpgrade == map[] && upgradeHistory == None
    {
      validators := map[];
      edits := [];
      unjails := map[];
      votes := map[];
      syncStatus := map[];
      activeUpgrade := map[];
      upgradeHistory := None;
    }
  }
}
