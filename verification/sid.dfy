/**
 * The relative identifier (RID) of a group: the chained-filter resolver
 * matches its SID string against the regular expression `.*-(\d+)` and
 * keeps the captured digits. String form of a SID as in section 2.4.2.1
 * of [MS-DTYP]: "S-1-", the identifier authority, then "-" and each
 * sub-authority, in decimal; an authority of 2^32 or more is written in
 * hexadecimal instead and is not modelled.
 */
module Sid {
  import opened Collections
  import opened Text

  /** `p` is a '-' directly followed by a digit: a place where `-(\d+)` can match. */
  predicate DashDigitAt(s: string, p: int) {
    0 <= p && p + 1 < |s| && s[p] == '-' && IsDigit(s[p + 1])
  }

  /**
   * The last place at or before `p` where `-(\d+)` can match: the greedy
   * `.*` gives back characters from the end until the rest matches.
   */
  function LastDashDigit(s: string, p: int): (r: Option<nat>)
    requires p < |s|
    decreases p + 1
    ensures r.Some? ==> r.value <= p && DashDigitAt(s, r.value)
    ensures r.Some? ==> forall q :: r.value < q <= p ==> !DashDigitAt(s, q)
    ensures r.None? ==> forall q :: q <= p ==> !DashDigitAt(s, q)
  {
    if p < 0 then None
    else if DashDigitAt(s, p) then Some(p)
    else LastDashDigit(s, p - 1)
  }

  /** The longest run of digits at the start of `s` (the greedy `\d+`). */
  function DigitRun(s: string): (r: string)
    ensures r <= s && IsDigits(r)
    ensures |r| < |s| ==> !IsDigit(s[|r|])
  {
    if s == [] || !IsDigit(s[0]) then [] else [s[0]] + DigitRun(s[1..])
  }

  /**
   * `Groups[1].Value` of the match: the digits after the last '-' that is
   * followed by a digit, or "" when the expression does not match.
   */
  function Rid(sid: string): (r: string)
    ensures IsDigits(r)
    ensures r == "" <==> forall q :: !DashDigitAt(sid, q)
  {
    match LastDashDigit(sid, |sid| - 1)
    case None => ""
    case Some(p) => DigitRun(sid[p + 1..])
  }

  /** Whatever precedes it, a trailing "-" and digits is the RID. */
  lemma RidOfTrailingDigits(prefix: string, digits: string)
    requires digits != "" && IsDigits(digits)
    ensures Rid(prefix + "-" + digits) == digits
  {
    var s := prefix + "-" + digits;
    assert DashDigitAt(s, |prefix|);
    var p := LastDashDigit(s, |s| - 1).value;
    assert s[p + 1..] == digits;
  }

  function DigitChar(d: nat): (c: char)
    requires d < 10
    ensures IsDigit(c)
  {
    ('0' as int + d) as char
  }

  /** `n` in decimal, without leading zeros. */
  function Decimal(n: nat): (r: string)
    ensures r != "" && IsDigits(r)
  {
    if n < 10 then [DigitChar(n)] else Decimal(n / 10) + [DigitChar(n % 10)]
  }

  /** The number a string of decimal digits denotes. */
  function DigitsValue(s: string): nat
    requires IsDigits(s)
  {
    if s == [] then 0 else DigitsValue(s[..|s| - 1]) * 10 + (s[|s| - 1] as int - '0' as int)
  }

  lemma {:induction false} DecimalRoundTrip(n: nat)
    ensures DigitsValue(Decimal(n)) == n
  {
    if n >= 10 {
      DecimalRoundTrip(n / 10);
      var s := Decimal(n);
      assert s[..|s| - 1] == Decimal(n / 10);
    }
  }

  /** Components below 2^32: sub-authorities always are, and such an authority is written in decimal. */
  predicate DecimalComponents(authority: nat, subAuthorities: seq<nat>) {
    authority < 0x1_0000_0000 && forall i :: 0 <= i < |subAuthorities| ==> subAuthorities[i] < 0x1_0000_0000
  }

  /** The string form of a SID with revision 1. */
  function SidString(authority: nat, subAuthorities: seq<nat>): string
    requires DecimalComponents(authority, subAuthorities)
    decreases |subAuthorities|
  {
    if subAuthorities == [] then "S-1-" + Decimal(authority)
    else
      SidString(authority, subAuthorities[..|subAuthorities| - 1]) + "-" + Decimal(subAuthorities[|subAuthorities| - 1])
  }

  /**
   * The RID of a well-formed SID string is its last component: the last
   * sub-authority, or the authority when there is none.
   */
  lemma RidOfSidString(authority: nat, subAuthorities: seq<nat>)
    requires DecimalComponents(authority, subAuthorities)
    ensures var last := if subAuthorities == [] then authority else subAuthorities[|subAuthorities| - 1];
      Rid(SidString(authority, subAuthorities)) == Decimal(last) && DigitsValue(Rid(SidString(authority, subAuthorities))) == last
  {
    if subAuthorities == [] {
      assert "S-1-" + Decimal(authority) == "S-1" + "-" + Decimal(authority);
      RidOfTrailingDigits("S-1", Decimal(authority));
      DecimalRoundTrip(authority);
    } else {
      var last := subAuthorities[|subAuthorities| - 1];
      RidOfTrailingDigits(SidString(authority, subAuthorities[..|subAuthorities| - 1]), Decimal(last));
      DecimalRoundTrip(last);
    }
  }
}
