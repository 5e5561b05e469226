/**
 * src/processors/vote.js: each vote transaction of a page is attributed to
 * the validator whose operator address shares the voter's key, and recorded
 * with `INSERT OR IGNORE` under (proposal id, operator address) when that
 * validator is already known. `validators` is only read.
 */
module Vote {
  import opened Base
  import opened Ledger
  import opened Store
  import opened Utils

  /** `@type` includes MsgVote or MsgVoteWeighted. */
  predicate IsVoteType(t: string)
  {
    Contains(t, "MsgVote") || Contains(t, "MsgVoteWeighted")
  }

  /** The row a transaction asks to insert, if it is a vote by a known validator. */
  function VoteEntry(validators: map<string, Profile>, valPrefix: string, codec: Bech32, tx: Tx)
    : (r: Option<((string, string), VoteRow)>)
    ensures r.Some? ==> r.value.0.1 in validators
  {
    if tx.messages.None? then None
    else match FindMsg(tx.messages.value, IsVoteType)
      case None => None
      case Some(msg) =>
        match ConvertToValoper(msg.voter, valPrefix, codec)
        case None => None
        case Some(valoper) =>
          if valoper !in validators then None
          else Some(((msg.proposalId, valoper), VoteRow(tx.txhash, NormalizeVoteOption(msg.option), tx.timestamp)))
  }

  /** `VoteEntry` for a fixed validator set, prefix and codec. */
  function VoteEntryOf(validators: map<string, Profile>, valPrefix: string, codec: Bech32)
    : Tx -> Option<((string, string), VoteRow)>
  {
    (tx: Tx) => VoteEntry(validators, valPrefix, codec, tx)
  }

  /** The rows a page asks to insert. */
  function VoteEntries(validators: map<string, Profile>, valPrefix: string, codec: Bech32, txs: seq<Tx>)
    : seq<((string, string), VoteRow)>
  {
    Collect(txs, VoteEntryOf(validators, valPrefix, codec))
  }

  /** `processVote`: the statements of the page, run in order; returns the sum of their change counts. */
  method ProcessVote(db: Database, txs: seq<Tx>, valPrefix: string, codec: Bech32) returns (inserted: nat)
    modifies db`votes
    ensures (db.votes, inserted) == IgnoreAll(old(db.votes), VoteEntries(db.validators, valPrefix, codec, txs))
  {
    ghost var entry := VoteEntryOf(db.validators, valPrefix, codec);
    inserted := 0;
    for i := 0 to |txs|
      invariant entry == VoteEntryOf(db.validators, valPrefix, codec)
      invariant db.votes == IgnoreAll(old(db.votes), Collect(txs[..i], entry)).0
      invariant inserted == IgnoreAll(old(db.votes), Collect(txs[..i], entry)).1
    {
      IgnorePageStep(old(db.votes), txs, entry, i);
      var changes := VoteOne(db, txs[i], valPrefix, codec);
      inserted := inserted + changes;
    }
    assert txs[..|txs|] == txs;
  }

  /** The loop body for one transaction, with its early `continue`s. */
  method VoteOne(db: Database, tx: Tx, valPrefix: string, codec: Bech32) returns (changes: nat)
    modifies db`votes
    ensures (db.votes, changes) == IgnoreOpt(old(db.votes), VoteEntry(db.validators, valPrefix, codec, tx))
  {
    if tx.messages.None? {
      return 0;
    }
    var msg := FindMsg(tx.messages.value, IsVoteType);
    if msg.None? {
      return 0;
    }
    var valoper := ConvertToValoper(msg.value.voter, valPrefix, codec);
    if valoper.None? || valoper.value !in db.validators {
      return 0;
    }
    var option := NormalizeVoteOption(msg.value.option);
    var key := (msg.value.proposalId, valoper.value);
    changes := if key in db.votes then 0 else 1;
    if changes == 1 {
      db.votes := db.votes[key := VoteRow(tx.txhash, option, tx.timestamp)];
    }
  }

  /**
   * What a page does to `history_votes`: existing rows never change, every
   * new row belongs to a validator already in `validators`, and the count
   * returned is the number of new rows.
   */
  lemma VotePageEffect(votes: map<(string, string), VoteRow>, validators: map<string, Profile>,
                       valPrefix: string, codec: Bech32, txs: seq<Tx>)
    ensures var r := IgnoreAll(votes, VoteEntries(validators, valPrefix, codec, txs));
            && (forall k :: k in votes ==> k in r.0 && r.0[k] == votes[k])
            && (forall k :: k in r.0 && k !in votes ==> k.1 in validators)
            && r.1 == |r.0.Keys - votes.Keys|
  {
    var es := VoteEntries(validators, valPrefix, codec, txs);
    IgnoreAllKeys(votes, es);
    IgnoreAllKeepsRows(votes, es);
    IgnoreAllCount(votes, es);
    forall k: (string, string) | k in KeysOf(es)
      ensures k.1 in validators
    {
      var i :| 0 <= i < |es| && es[i].0 == k;
      CollectFrom(txs, VoteEntryOf(validators, valPrefix, codec), es[i]);
    }
  }

  /** Replaying a page changes nothing and returns 0: votes are never overwritten. */
  lemma VoteReplay(votes: map<(string, string), VoteRow>, validators: map<string, Profile>,
                   valPrefix: string, codec: Bech32, txs: seq<Tx>)
    ensures var once := IgnoreAll(votes, VoteEntries(validators, valPrefix, codec, txs)).0;
            IgnoreAll(once, VoteEntries(validators, valPrefix, codec, txs)) == (once, 0)
  {
    IgnoreAllReplay(votes, VoteEntries(validators, valPrefix, codec, txs));
  }

  /**
   * The first vote wins: of several votes of one validator on one proposal,
   * the row kept is the first one's, whatever the later ones say.
   */
  lemma VoteFirstWins(votes: map<(string, string), VoteRow>, validators: map<string, Profile>,
                      valPrefix: string, codec: Bech32, txs: seq<Tx>, i: nat)
    requires i < |txs| && VoteEntry(validators, valPrefix, codec, txs[i]).Some?
    requires VoteEntry(validators, valPrefix, codec, txs[i]).value.0 !in votes
    requires forall j :: 0 <= j < i && VoteEntry(validators, valPrefix, codec, txs[j]).Some? ==>
               VoteEntry(validators, valPrefix, codec, txs[j]).value.0 != VoteEntry(validators, valPrefix, codec, txs[i]).value.0
    ensures var e := VoteEntry(validators, valPrefix, codec, txs[i]).value;
            var stored := IgnoreAll(votes, VoteEntries(validators, valPrefix, codec, txs)).0;
            e.0 in stored && stored[e.0] == e.1 && stored[e.0].txHash == txs[i].txhash
  {
    IgnorePageFirstWins(votes, txs, VoteEntryOf(validators, valPrefix, codec), i);
  }

  /** A vote whose voter address cannot be converted, or whose validator is unknown, records nothing. */
  lemma VoteDropped(validators: map<string, Profile>, valPrefix: string, codec: Bech32, tx: Tx)
    requires tx.messages.Some? && FindMsg(tx.messages.value, IsVoteType).Some?
    requires var msg := FindMsg(tx.messages.value, IsVoteType).value;
             var v := ConvertToValoper(msg.voter, valPrefix, codec);
             v.None? || v.value !in validators
    ensures VoteEntry(validators, valPrefix, codec, tx).None?
  {
  }

  /** A vote message without an `option` field is recorded as UNKNOWN. */
  lemma VoteWithoutOption(validators: map<string, Profile>, valPrefix: string, codec: Bech32, tx: Tx)
    requires VoteEntry(validators, valPrefix, codec, tx).Some?
    requires FindMsg(tx.messages.value, IsVoteType).value.option == NoOption
    ensures VoteEntry(validators, valPrefix, codec, tx).value.1.option == "UNKNOWN"
  {
  }
}
