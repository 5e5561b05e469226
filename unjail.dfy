/**
 * src/processors/unjail.js: every transaction of a page that carries a
 * MsgUnjail becomes one `history_unjail` row, inserted with
 * `INSERT OR IGNORE`, all inside one database transaction.
 */
module Unjail {
  import opened Base
  import opened Ledger
  import opened Store

  /** The row a transaction asks to insert: keyed by its hash and the message's `validator_addr`. */
  function UnjailEntry(tx: Tx): Option<((string, string), UnjailRow)>
  {
    match MsgOfKind(tx, "MsgUnjail")
    case None => None
    case Some(msg) => Some(((tx.txhash, msg.validatorAddr), UnjailRow(HeightOf(tx), tx.timestamp)))
  }

  /** `processUnjail`: the statements of the page, run in order; returns the sum of their change counts. */
  method ProcessUnjail(db: Database, txs: seq<Tx>) returns (inserted: nat)
    modifies db`unjails
    ensures (db.unjails, inserted) == IgnoreAll(old(db.unjails), Collect(txs, UnjailEntry))
  {
    inserted := 0;
    for i := 0 to |txs|
      invariant db.unjails == IgnoreAll(old(db.unjails), Collect(txs[..i], UnjailEntry)).0
      invariant inserted == IgnoreAll(old(db.unjails), Collect(txs[..i], UnjailEntry)).1
    {
      IgnorePageStep(old(db.unjails), txs, UnjailEntry, i);
      var changes := UnjailOne(db, txs[i]);
      inserted := inserted + changes;
    }
    assert txs[..|txs|] == txs;
  }

  /** The loop body for one transaction. */
  method UnjailOne(db: Database, tx: Tx) returns (changes: nat)
    modifies db`unjails
    ensures (db.unjails, changes) == IgnoreOpt(old(db.unjails), UnjailEntry(tx))
  {
    var msg := MsgOfKind(tx, "MsgUnjail");
    if msg.None? {
      return 0;
    }
    var key := (tx.txhash, msg.value.validatorAddr);
    changes := if key in db.unjails then 0 else 1;
    if changes == 1 {
      db.unjails := db.unjails[key := UnjailRow(HeightOf(tx), tx.timestamp)];
    }
  }

  /**
   * What a page does to `history_unjail`: it gains exactly the keys of the
   * page's unjail messages, no existing row changes, and the returned count
   * is the number of keys that were new.
   */
  lemma UnjailPageEffect(t: map<(string, string), UnjailRow>, txs: seq<Tx>)
    ensures IgnoreAll(t, Collect(txs, UnjailEntry)).0.Keys == t.Keys + KeysOf(Collect(txs, UnjailEntry))
    ensures forall k :: k in t ==> IgnoreAll(t, Collect(txs, UnjailEntry)).0[k] == t[k]
    ensures IgnoreAll(t, Collect(txs, UnjailEntry)).1 == |IgnoreAll(t, Collect(txs, UnjailEntry)).0.Keys - t.Keys|
  {
    var es := Collect(txs, UnjailEntry);
    IgnoreAllKeys(t, es);
    IgnoreAllKeepsRows(t, es);
    IgnoreAllCount(t, es);
  }

  /** Replaying a page on the table it produced changes nothing and returns 0. */
  lemma UnjailReplay(t: map<(string, string), UnjailRow>, txs: seq<Tx>)
    ensures var once := IgnoreAll(t, Collect(txs, UnjailEntry)).0;
            IgnoreAll(once, Collect(txs, UnjailEntry)) == (once, 0)
  {
    IgnoreAllReplay(t, Collect(txs, UnjailEntry));
  }

  /** A page without any MsgUnjail leaves the table alone and returns 0. */
  lemma {:induction false} UnjailIgnoresOtherTxs(t: map<(string, string), UnjailRow>, txs: seq<Tx>)
    requires forall i :: 0 <= i < |txs| ==> MsgOfKind(txs[i], "MsgUnjail").None?
    ensures IgnoreAll(t, Collect(txs, UnjailEntry)) == (t, 0)
  {
    if txs != [] {
      var init := txs[..|txs| - 1];
      UnjailIgnoresOtherTxs(t, init);
      assert UnjailEntry(txs[|txs| - 1]).None?;
      assert Collect(txs, UnjailEntry) == Collect(init, UnjailEntry);
    }
  }

  /**
   * The stored row of a new key is the one of the first transaction with
   * that key, and a transaction without a height is stored at height 0.
   */
  lemma UnjailFirstWins(t: map<(string, string), UnjailRow>, txs: seq<Tx>, i: nat)
    requires i < |txs| && MsgOfKind(txs[i], "MsgUnjail").Some?
    requires (txs[i].txhash, MsgOfKind(txs[i], "MsgUnjail").value.validatorAddr) !in t
    requires forall j :: 0 <= j < i && MsgOfKind(txs[j], "MsgUnjail").Some? ==>
               (txs[j].txhash, MsgOfKind(txs[j], "MsgUnjail").value.validatorAddr) !=
               (txs[i].txhash, MsgOfKind(txs[i], "MsgUnjail").value.validatorAddr)
    ensures var k := (txs[i].txhash, MsgOfKind(txs[i], "MsgUnjail").value.validatorAddr);
            var stored := IgnoreAll(t, Collect(txs, UnjailEntry)).0;
            k in stored && stored[k].timestamp == txs[i].timestamp &&
            stored[k].height == (if txs[i].height.Some? then txs[i].height.value else 0)
  {
    IgnorePageFirstWins(t, txs, UnjailEntry, i);
  }
}
