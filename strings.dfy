/**
 * The string operations the routes rely on, on Dafny's `string` (a sequence
 * of characters): JavaScript's `includes`, ASCII lower-casing (the `i` option
 * of a MongoDB regular expression) and the decimal spelling of a counter,
 * which the store uses to mint record ids.
 */
module Strings {

  /** `p` occurs in `s` starting at index `i`. */
  ghost predicate OccursAt(s: string, p: string, i: int) {
    0 <= i && i + |p| <= |s| && s[i..i + |p|] == p
  }

  /** `p` occurs somewhere in `s`: the reference meaning of a substring test. */
  ghost predicate Occurs(s: string, p: string) {
    exists i :: OccursAt(s, p, i)
  }

  /** Compares `p[j..]` with `s` from index `i + j` onwards, one character at a time. */
  function MatchFrom(s: string, p: string, i: nat, j: nat): bool
    decreases |p| - j
  {
    j >= |p| || (i + j < |s| && s[i + j] == p[j] && MatchFrom(s, p, i, j + 1))
  }

  /** Scans `s` for `p` from index `i` onwards. */
  function ContainsFrom(s: string, p: string, i: nat): bool
    decreases |s| - i
  {
    if i + |p| > |s| then false else MatchFrom(s, p, i, 0) || ContainsFrom(s, p, i + 1)
  }

  /** JavaScript's `s.includes(p)` (true for the empty `p`). */
  function Contains(s: string, p: string): bool {
    ContainsFrom(s, p, 0)
  }

  lemma {:induction false} MatchFromIff(s: string, p: string, i: nat, j: nat)
    requires j <= |p| && i + |p| <= |s|
    ensures MatchFrom(s, p, i, j) <==> forall k | j <= k < |p| :: s[i + k] == p[k]
    decreases |p| - j
  {
    if j < |p| {
      MatchFromIff(s, p, i, j + 1);
    }
  }

  lemma {:induction false} ContainsFromIff(s: string, p: string, i: nat)
    ensures ContainsFrom(s, p, i) <==> exists k :: i <= k && OccursAt(s, p, k)
    decreases |s| - i
  {
    if i + |p| <= |s| {
      ContainsFromIff(s, p, i + 1);
      MatchFromIff(s, p, i, 0);
      if MatchFrom(s, p, i, 0) {
        assert s[i..i + |p|] == p;
        assert OccursAt(s, p, i);
      } else {
        forall k | i <= k && OccursAt(s, p, k) ensures i + 1 <= k {
        }
      }
    }
  }

  /** The scan finds `p` exactly when `p` occurs in `s`. */
  lemma ContainsIff(s: string, p: string)
    ensures Contains(s, p) <==> Occurs(s, p)
  {
    ContainsFromIff(s, p, 0);
  }

  /** A string contains whatever is spliced into its middle. */
  lemma ContainsMiddle(a: string, w: string, b: string)
    ensures Contains(a + w + b, w)
  {
    assert OccursAt(a + w + b, w, |a|);
    ContainsIff(a + w + b, w);
  }

  /** A character of `p` that never appears in `s` rules `p` out. */
  lemma AbsentChar(s: string, p: string, c: char)
    requires c in p && c !in s
    ensures !Contains(s, p)
  {
    ContainsIff(s, p);
  }

  /**
   * When the character `p[j]` appears in `s == a + [c] + b` only between `a`
   * and `b`, the one place `p` could start is `|a| - j`; a mismatch at offset
   * `k` from there rules `p` out.
   */
  lemma UniqueCharMismatch(a: string, c: char, b: string, p: string, j: nat, k: nat)
    requires j < |p| && p[j] == c && c !in a && c !in b
    requires k < |p|
    requires j <= |a| && |a| - j + |p| <= |a| + 1 + |b| ==> (a + [c] + b)[|a| - j + k] != p[k]
    ensures !Contains(a + [c] + b, p)
  {
    ContainsIff(a + [c] + b, p);
  }

  /** `p` is not a prefix of `s` when they differ at index `k`. */
  lemma NotPrefix(s: string, p: string, k: nat)
    requires k < |p| && k < |s| && s[k] != p[k]
    ensures !(p <= s)
  {
  }

  predicate IsUpper(c: char) {
    'A' <= c <= 'Z'
  }

  function LowerChar(c: char): char {
    if IsUpper(c) then (c as int + 32) as char else c
  }

  /** ASCII lower-casing, character by character. */
  function Lower(s: string): string {
    seq(|s|, i requires 0 <= i < |s| => LowerChar(s[i]))
  }

  /**
   * A case-insensitive search for an all-lower-case word finds every
   * occurrence a case-sensitive search finds.
   */
  lemma ContainsLower(s: string, w: string)
    requires Contains(s, w) && Lower(w) == w
    ensures Contains(Lower(s), w)
  {
    ContainsIff(s, w);
    var i :| OccursAt(s, w, i);
    forall j | 0 <= j < |w| ensures Lower(s)[i + j] == w[j] {
      assert s[i + j] == s[i..i + |w|][j] == w[j];
      assert Lower(w)[j] == LowerChar(w[j]);
    }
    assert Lower(s)[i..i + |w|] == w;
    assert OccursAt(Lower(s), w, i);
    ContainsIff(Lower(s), w);
  }

  /** A word with no upper-case letter is its own lower-case form. */
  lemma LowerOfLowerCase(w: string)
    requires forall i | 0 <= i < |w| :: !IsUpper(w[i])
    ensures Lower(w) == w
  {
  }

  function DigitChar(d: nat): char
    requires d < 10
  {
    ('0' as int + d) as char
  }

  /** The decimal spelling of `n`, most significant digit first. */
  function NatToString(n: nat): string
    decreases n
  {
    if n < 10 then [DigitChar(n)] else NatToString(n / 10) + [DigitChar(n % 10)]
  }

  lemma {:induction false} NatToStringLength(n: nat)
    ensures |NatToString(n)| >= 1
    ensures n >= 10 ==> |NatToString(n)| >= 2
    decreases n
  {
    if n >= 10 {
      NatToStringLength(n / 10);
    }
  }

  /** Distinct numbers are spelled differently. */
  lemma {:induction false} NatToStringInjective(a: nat, b: nat)
    requires NatToString(a) == NatToString(b)
    ensures a == b
    decreases a
  {
    NatToStringLength(a);
    NatToStringLength(b);
    var sa, sb := NatToString(a), NatToString(b);
    if a < 10 && b < 10 {
      assert sa[0] == DigitChar(a) && sb[0] == DigitChar(b);
    } else if a >= 10 && b >= 10 {
      assert sa[|sa| - 1] == DigitChar(a % 10);
      assert sb[|sb| - 1] == DigitChar(b % 10);
      assert NatToString(a / 10) == sa[..|sa| - 1] == sb[..|sb| - 1] == NatToString(b / 10);
      NatToStringInjective(a / 10, b / 10);
    }
  }
}
