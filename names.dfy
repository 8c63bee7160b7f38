/**
 * The names given to the non-player participants (`_generate_ia_names` in
 * game_master.py): the provider's list or the fixed fallback list, padded
 * with "IA_<k>" names and cut to the number asked for.
 */
module Naming {
  import opened Wrappers

  const IA_NAMES_FALLBACK: seq<string> :=
    ["Alice", "Bob", "Chloe", "David", "Emma", "Franck", "Gina", "Hugo", "Irina"]

  /** The name list the padding starts from: the provider's answer, or the fallback when the call failed. */
  function NameSource(provided: Option<seq<string>>): seq<string>
  {
    match provided
    case Some(names) => names
    case None => IA_NAMES_FALLBACK
  }

  function DigitChar(d: nat): char
    requires d < 10
  {
    "0123456789"[d]
  }

  /** `str(n)`: the decimal digits of `n`, without leading zeros. */
  function DecimalString(n: nat): (s: string)
    ensures s != [] && forall i :: 0 <= i < |s| ==> '0' <= s[i] <= '9'
  {
    if n < 10 then [DigitChar(n)] else DecimalString(n / 10) + [DigitChar(n % 10)]
  }

  /** The number a string of decimal digits denotes. */
  function DecimalValue(s: string): nat
    requires forall i :: 0 <= i < |s| ==> '0' <= s[i] <= '9'
  {
    if s == [] then 0 else 10 * DecimalValue(s[..|s| - 1]) + (s[|s| - 1] as int - '0' as int)
  }

  /** Reading back the digits of `n` gives `n`. */
  lemma {:induction false} DecimalRoundTrip(n: nat)
    ensures DecimalValue(DecimalString(n)) == n
  {
    var s := DecimalString(n);
    if n >= 10 {
      DecimalRoundTrip(n / 10);
      assert s[..|s| - 1] == DecimalString(n / 10);
    }
  }

  /** The padding name of position `k` (counted from 0) of the name list. */
  function PaddingName(k: nat): string
  {
    "IA_" + DecimalString(k + 1)
  }

  /** Different positions get different padding names. */
  lemma {:induction false} PaddingNamesDistinct(j: nat, k: nat)
    requires j != k
    ensures PaddingName(j) != PaddingName(k)
  {
    DecimalInjective(j + 1, k + 1);
    assert PaddingName(j)[3..] == DecimalString(j + 1);
    assert PaddingName(k)[3..] == DecimalString(k + 1);
  }

  /** Different numbers have different decimal strings. */
  lemma {:induction false} DecimalInjective(m: nat, n: nat)
    requires m != n
    ensures DecimalString(m) != DecimalString(n)
  {
    DecimalRoundTrip(m);
    DecimalRoundTrip(n);
  }

  /** The name at position `k` once `src` is padded. */
  function IaName(src: seq<string>, k: nat): string
  {
    if k < |src| then src[k] else PaddingName(k)
  }
}
