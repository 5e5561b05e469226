/**
 * Small helpers shared by the whole model: an Option type, and the few
 * JavaScript string operations the indexer relies on (`includes`, the
 * first-occurrence `replace`, `slice(-n)`, `/^\d+$/` with `parseInt`, and
 * the decimal rendering of an integer inside a template string).
 */
module Base {

  datatype Option<+T> = None | Some(value: T)

  /** How a template literal shows a string that may be missing: an absent one as "undefined". */
  function Render(s: Option<string>): string
  {
    if s.Some? then s.value else "undefined"
  }

  /** JavaScript truthiness of a string that may be missing: present and non-empty. */
  predicate Truthy(s: Option<string>)
  {
    s.Some? && s.value != ""
  }

  /** `sub` occurs in `t` starting at position `i`. */
  predicate OccursAt(t: string, sub: string, i: nat)
  {
    i + |sub| <= |t| && t[i..i + |sub|] == sub
  }

  /** JavaScript's `t.includes(sub)`. */
  predicate Contains(t: string, sub: string)
  {
    exists i: nat | i <= |t| :: OccursAt(t, sub, i)
  }

  /** The first position at or after `from` where `sub` occurs in `t`. */
  function FirstOccurrenceFrom(t: string, sub: string, from: nat): (r: Option<nat>)
    decreases |t| - from
    ensures r.Some? ==> from <= r.value && OccursAt(t, sub, r.value)
    ensures r.Some? ==> forall j: nat :: from <= j < r.value ==> !OccursAt(t, sub, j)
    ensures r.None? ==> forall j: nat :: from <= j ==> !OccursAt(t, sub, j)
  {
    if from + |sub| > |t| then None
    else if t[from..from + |sub|] == sub then Some(from)
    else FirstOccurrenceFrom(t, sub, from + 1)
  }

  /** `i` is where `sub` first occurs in `t`. */
  predicate IsFirstOccurrence(t: string, sub: string, i: nat)
  {
    OccursAt(t, sub, i) && forall j: nat :: j < i ==> !OccursAt(t, sub, j)
  }

  /** The first position where `sub` occurs in `t` (JavaScript's `indexOf`, with None for -1). */
  function FirstOccurrence(t: string, sub: string): (r: Option<nat>)
    ensures r.Some? ==> IsFirstOccurrence(t, sub, r.value)
    ensures r.None? <==> !Contains(t, sub)
  {
    FirstOccurrenceFrom(t, sub, 0)
  }

  /** There is only one first occurrence. */
  lemma FirstOccurrenceUnique(t: string, sub: string, i: nat, k: nat)
    requires IsFirstOccurrence(t, sub, i) && IsFirstOccurrence(t, sub, k)
    ensures i == k
  {
  }

  /** JavaScript's `t.replace(pat, rep)` with a string pattern: only the first occurrence is replaced. */
  function ReplaceFirst(t: string, pat: string, rep: string): (r: string)
    ensures !Contains(t, pat) ==> r == t
    ensures forall i: nat {:trigger IsFirstOccurrence(t, pat, i)} ::
              IsFirstOccurrence(t, pat, i) ==> r == t[..i] + rep + t[i + |pat|..]
  {
    match FirstOccurrence(t, pat)
    case None => t
    case Some(i) =>
      assert forall k: nat {:trigger IsFirstOccurrence(t, pat, k)} :: IsFirstOccurrence(t, pat, k) ==> k == i by {
        forall k: nat | IsFirstOccurrence(t, pat, k) ensures k == i {
          FirstOccurrenceUnique(t, pat, i, k);
        }
      }
      t[..i] + rep + t[i + |pat|..]
  }

  /** `p` is a prefix of `t`, so the first occurrence of `p` is at 0 and `ReplaceFirst` drops it. */
  lemma ReplaceFirstOfPrefix(t: string, p: string)
    requires |p| <= |t| && t[..|p|] == p
    ensures ReplaceFirst(t, p, "") == t[|p|..]
  {
    assert IsFirstOccurrence(t, p, 0);
    assert t[..0] + "" + t[|p|..] == t[|p|..];
  }

  /** JavaScript's `s.slice(-n)` for n > 0: the last `n` characters, or all of `s` when it is shorter. */
  function SliceLast(s: string, n: nat): (r: string)
    ensures |r| == if |s| < n then |s| else n
    ensures r == s[|s| - |r|..]
  {
    if |s| <= n then s else s[|s| - n..]
  }

  /** The pattern `/\/$/` removed by `replace`: one trailing slash, if there is one. */
  function StripTrailingSlash(s: string): (r: string)
    ensures |s| > 0 && s[|s| - 1] == '/' ==> s == r + "/"
    ensures !(|s| > 0 && s[|s| - 1] == '/') ==> r == s
  {
    if |s| > 0 && s[|s| - 1] == '/' then s[..|s| - 1] else s
  }

  predicate IsDigit(c: char)
  {
    '0' <= c <= '9'
  }

  /** The regular expression `/^\d+$/`: one or more ASCII digits and nothing else. */
  predicate AllDigits(s: string)
  {
    |s| > 0 && forall i :: 0 <= i < |s| ==> IsDigit(s[i])
  }

  function DigitValue(c: char): (d: nat)
    requires IsDigit(c)
    ensures d < 10
  {
    (c as int - '0' as int) as nat
  }

  function DigitChar(d: nat): (c: char)
    requires d < 10
    ensures IsDigit(c) && DigitValue(c) == d
  {
    ('0' as int + d) as char
  }

  /** `parseInt` of a string of digits: its value in base ten (leading zeros allowed). */
  function DecimalValue(s: string): nat
    requires forall i :: 0 <= i < |s| ==> IsDigit(s[i])
  {
    if s == [] then 0 else DecimalValue(s[..|s| - 1]) * 10 + DigitValue(s[|s| - 1])
  }

  /** A number rendered in a JavaScript template string: its decimal digits, without leading zeros. */
  function DecimalString(n: nat): (s: string)
    ensures AllDigits(s)
    ensures |s| > 1 ==> s[0] != '0'
  {
    if n < 10 then [DigitChar(n)] else DecimalString(n / 10) + [DigitChar(n % 10)]
  }

  /** Rendering a number and parsing it back gives the number. */
  lemma {:induction false} DecimalRoundTrip(n: nat)
    ensures DecimalValue(DecimalString(n)) == n
  {
    var s := DecimalString(n);
    if n >= 10 {
      DecimalRoundTrip(n / 10);
      assert s[..|s| - 1] == DecimalString(n / 10);
    }
  }

  /** Distinct numbers render to distinct strings. */
  lemma DecimalStringInjective(m: nat, n: nat)
    requires DecimalString(m) == DecimalString(n)
    ensures m == n
  {
    DecimalRoundTrip(m);
    DecimalRoundTrip(n);
  }
}
