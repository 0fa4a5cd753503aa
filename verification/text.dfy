/**
 * Account names are compared after `ToUpperInvariant`. This model upper-cases
 * the ASCII letters only; other characters are left unchanged.
 */
module Text {

  predicate IsDigit(c: char) {
    '0' <= c <= '9'
  }

  predicate IsDigits(s: string) {
    forall i :: 0 <= i < |s| ==> IsDigit(s[i])
  }

  predicate IsLower(c: char) {
    'a' <= c <= 'z'
  }

  /** Upper-case one character: a lower-case ASCII letter becomes its capital. */
  function UpperChar(c: char): (u: char)
    ensures !IsLower(u)
    ensures !IsLower(c) ==> u == c
    ensures IsLower(c) ==> 'A' <= u <= 'Z' && u as int + 32 == c as int
  {
    if IsLower(c) then (c as int - 32) as char else c
  }

  /** The key under which an account name is remembered (`ToUpperInvariant`). */
  function Upper(s: string): (r: string)
    ensures |r| == |s|
  {
    seq(|s|, i requires 0 <= i < |s| => UpperChar(s[i]))
  }

  /**
   * Two characters are equal ignoring case when they are equal or are the
   * lower- and upper-case forms of one ASCII letter.
   */
  predicate CharEqualsIgnoreCase(a: char, b: char) {
    a == b
    || (IsLower(a) && b as int + 32 == a as int)
    || (IsLower(b) && a as int + 32 == b as int)
  }

  predicate EqualsIgnoreCase(s: string, t: string) {
    |s| == |t| && forall i :: 0 <= i < |s| ==> CharEqualsIgnoreCase(s[i], t[i])
  }

  /** Two names get the same key exactly when they are equal ignoring case. */
  lemma UpperEqualIffEqualsIgnoreCase(s: string, t: string)
    ensures Upper(s) == Upper(t) <==> EqualsIgnoreCase(s, t)
  {
    if Upper(s) == Upper(t) {
      forall i | 0 <= i < |s| ensures CharEqualsIgnoreCase(s[i], t[i]) {
        assert Upper(s)[i] == Upper(t)[i];
      }
    }
    if EqualsIgnoreCase(s, t) {
      forall i | 0 <= i < |s| ensures Upper(s)[i] == Upper(t)[i] {
        assert CharEqualsIgnoreCase(s[i], t[i]);
      }
    }
  }

  /** "Alice" and "ALICE" are remembered under one key. */
  lemma AliceKey()
    ensures Upper("Alice") == Upper("ALICE") == "ALICE"
  {
    assert EqualsIgnoreCase("Alice", "ALICE");
    UpperEqualIffEqualsIgnoreCase("Alice", "ALICE");
    assert Upper("ALICE") == "ALICE" by {
      assert forall i :: 0 <= i < 5 ==> Upper("ALICE")[i] == "ALICE"[i];
    }
  }
}
