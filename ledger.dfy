/**
 * The shape of the transactions the ledger API returns, as far as the
 * record processors read them. JSON objects become records, and a string
 * field that is absent is the empty string. Where a processor tests a field
 * with JavaScript truthiness (`if (x)`, `x || default`) the two are alike.
 * Key fields (`txhash`, `validator_addr`, `validator_address`,
 * `proposal_id`) are bound into SQL as they are, so an absent one would be
 * NULL there; the model does not distinguish that case. A message is
 * assumed to carry its `@type`.
 */
module Ledger {
  import opened Base

  /** A validator's `description` object; a missing description has every field empty. */
  datatype Description = Description(
    moniker: string,
    website: string,
    identity: string,
    details: string,
    securityContact: string)

  /** The description field a diff entry of name `f` refers to ("" for other names). */
  function DescriptionField(d: Description, f: string): string
  {
    if f == "moniker" then d.moniker
    else if f == "website" then d.website
    else if f == "identity" then d.identity
    else if f == "details" then d.details
    else if f == "security_contact" then d.securityContact
    else ""
  }

  /** The raw `option` field of a vote message. */
  datatype RawOption =
    | NumberOption(n: int)     // a JSON number (integral; below 10^21 it prints without an exponent)
    | StringOption(s: string)  // a JSON string
    | NoOption                 // absent or null (e.g. a weighted vote, which carries `options`)

  /**
   * One message of a transaction body. The processors look a message up by
   * its `@type` and then read whichever of these fields they need.
   */
  datatype Msg = Msg(
    typeUrl: string,             // `@type`
    validatorAddress: string,    // `validator_address` (create, edit)
    description: Description,    // `description` (create, edit)
    commissionRate: string,      // `commission.rate` (create)
    editCommissionRate: string,  // `commission_rate` (edit)
    minSelfDelegation: string,   // `min_self_delegation` (create, edit)
    voter: string,               // `voter` (vote)
    option: RawOption,           // `option` (vote)
    proposalId: string,          // `proposal_id` (vote)
    validatorAddr: string)       // `validator_addr` (unjail)

  /** One transaction response; `messages` is None when the body or its message list is missing. */
  datatype Tx = Tx(
    txhash: string,
    height: Option<nat>,
    timestamp: string,
    messages: Option<seq<Msg>>)

  /** `parseInt(tx.height || 0)`: a missing height counts as 0. */
  function HeightOf(tx: Tx): nat
  {
    if tx.height.Some? then tx.height.value else 0
  }

  /** The position of the first message from `k` on whose type matches. */
  function FirstMatch(msgs: seq<Msg>, matches: string -> bool, k: nat): (r: Option<nat>)
    requires k <= |msgs|
    ensures r.Some? ==> k <= r.value < |msgs| && matches(msgs[r.value].typeUrl) &&
                        forall j :: k <= j < r.value ==> !matches(msgs[j].typeUrl)
    ensures r.None? ==> forall j :: k <= j < |msgs| ==> !matches(msgs[j].typeUrl)
    decreases |msgs| - k
  {
    if k == |msgs| then None
    else if matches(msgs[k].typeUrl) then Some(k)
    else FirstMatch(msgs, matches, k + 1)
  }

  /** `messages.find(m => matches(m['@type']))`: the first message whose type matches. */
  function FindMsg(msgs: seq<Msg>, matches: string -> bool): (r: Option<Msg>)
    ensures r.Some? ==> r.value in msgs && matches(r.value.typeUrl)
    ensures r.Some? ==> exists i :: 0 <= i < |msgs| && msgs[i] == r.value &&
                          forall j :: 0 <= j < i ==> !matches(msgs[j].typeUrl)
    ensures r.None? <==> forall m :: m in msgs ==> !matches(m.typeUrl)
  {
    match FirstMatch(msgs, matches, 0)
    case None => None
    case Some(i) => Some(msgs[i])
  }

  /** The message of kind `kind` in a transaction, if the transaction has a body with messages and one matches. */
  function MsgOfKind(tx: Tx, kind: string): (r: Option<Msg>)
    ensures r.Some? ==> tx.messages.Some? && r.value in tx.messages.value && Contains(r.value.typeUrl, kind)
    ensures tx.messages.None? ==> r.None?
  {
    if tx.messages.None? then None
    else FindMsg(tx.messages.value, t => Contains(t, kind))
  }
}
