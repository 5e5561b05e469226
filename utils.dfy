/**
 * src/utils.js: the vote-option normaliser and the account-to-operator
 * address conversion. bech32 (BIP 173) itself is an external library and
 * is passed in as a pair of functions.
 */
module Utils {
  import opened Base
  import opened Ledger

  /** The six labels a numeric option can normalise to. */
  const NumericLabels: set<string> := {"UNSPECIFIED", "YES", "ABSTAIN", "NO", "NO_WITH_VETO", "UNKNOWN"}

  /** `VOTE_MAP[n] || 'UNKNOWN'`. */
  function VoteMapLabel(n: int): string
  {
    if n == 0 then "UNSPECIFIED"
    else if n == 1 then "YES"
    else if n == 2 then "ABSTAIN"
    else if n == 3 then "NO"
    else if n == 4 then "NO_WITH_VETO"
    else "UNKNOWN"
  }

  /**
   * `normalizeVoteOption`: numbers and all-digit strings go through the
   * enum table; any other string loses its first `VOTE_OPTION_`; anything
   * else is UNKNOWN.
   */
  function NormalizeVoteOption(raw: RawOption): (r: string)
    ensures raw.NumberOption? ==> r in NumericLabels
    ensures raw.StringOption? && AllDigits(raw.s) ==> r in NumericLabels
    ensures raw.NoOption? ==> r == "UNKNOWN"
    ensures raw.StringOption? && !AllDigits(raw.s) && !Contains(raw.s, "VOTE_OPTION_") ==> r == raw.s
  {
    match raw
    case NumberOption(n) => VoteMapLabel(n)
    case StringOption(s) =>
      if AllDigits(s) then VoteMapLabel(DecimalValue(s)) else ReplaceFirst(s, "VOTE_OPTION_", "")
    case NoOption => "UNKNOWN"
  }

  /**
   * JavaScript writes a number from 10^21 up in exponent form ("1e+21"), and
   * `parseInt` of that reads only its leading digit; the model's numeric
   * claims stop below this bound.
   */
  const ExponentFormBound: nat := 1000000000000000000000

  /** The enum table: 0..4 name the five options, every other number below 10^21 is UNKNOWN. */
  lemma NumericOptions(n: int)
    ensures NormalizeVoteOption(NumberOption(0)) == "UNSPECIFIED"
    ensures NormalizeVoteOption(NumberOption(1)) == "YES"
    ensures NormalizeVoteOption(NumberOption(2)) == "ABSTAIN"
    ensures NormalizeVoteOption(NumberOption(3)) == "NO"
    ensures NormalizeVoteOption(NumberOption(4)) == "NO_WITH_VETO"
    ensures !(0 <= n <= 4) && n < ExponentFormBound ==> NormalizeVoteOption(NumberOption(n)) == "UNKNOWN"
  {
  }

  /** Below 10^21, an option sent as the decimal string of a number normalises like the number itself. */
  lemma DigitStringLikeNumber(n: nat)
    requires n < ExponentFormBound
    ensures NormalizeVoteOption(StringOption(DecimalString(n))) == NormalizeVoteOption(NumberOption(n))
  {
    DecimalRoundTrip(n);
  }

  /**
   * The symbolic form loses its prefix: `VOTE_OPTION_YES` becomes `YES`.
   * The stripped name is not normalised again, so `VOTE_OPTION_1` gives "1".
   */
  lemma SymbolicOption(name: string)
    ensures NormalizeVoteOption(StringOption("VOTE_OPTION_" + name)) == name
  {
    var s := "VOTE_OPTION_" + name;
    assert !IsDigit(s[0]);
    ReplaceFirstOfPrefix(s, "VOTE_OPTION_");
    assert s[|"VOTE_OPTION_"|..] == name;
  }

  /** A concrete instance: the proto-JSON enum name of a yes vote. */
  lemma YesVote()
    ensures NormalizeVoteOption(StringOption("VOTE_OPTION_YES")) == "YES"
  {
    assert "VOTE_OPTION_" + "YES" == "VOTE_OPTION_YES";
    SymbolicOption("YES");
  }

  /** A concrete instance: a yes vote sent as the string "1". */
  lemma YesVoteDigit()
    ensures NormalizeVoteOption(StringOption("1")) == "YES"
  {
    DigitStringLikeNumber(1);
  }

  /** The bech32 library: decoding yields the data words, encoding puts them under a new prefix; either may fail. */
  datatype Bech32 = Bech32(decode: string -> Option<seq<int>>, encode: (string, seq<int>) -> Option<string>)

  /**
   * `convertToValoper`: the same data words under the validator prefix, or
   * None (JavaScript null) for a missing address or when the library throws.
   */
  function ConvertToValoper(accAddress: string, valPrefix: string, codec: Bech32): (r: Option<string>)
    ensures accAddress == "" ==> r.None?
    ensures r.Some? ==> codec.decode(accAddress).Some? &&
                        codec.encode(valPrefix, codec.decode(accAddress).value) == r
    ensures (accAddress != "" && codec.decode(accAddress).Some? &&
             codec.encode(valPrefix, codec.decode(accAddress).value).Some?) ==> r.Some?
  {
    if accAddress == "" then None
    else match codec.decode(accAddress)
      case None => None
      case Some(words) => codec.encode(valPrefix, words)
  }
}
