/**
  The three string operations of the JavaScript runtime that the node map relies on:
  `String.prototype.trim`, `toLowerCase` and `includes`.
 */
module Text {

  /** The code points that `trim` strips: ECMAScript's WhiteSpace and LineTerminator. */
  predicate IsSpace(c: char) {
    || c == '\t' || c == '\n' || c == '\U{000B}' || c == '\U{000C}' || c == '\r' || c == ' '
    || c == '\U{00A0}' || c == '\U{1680}' || ('\U{2000}' <= c <= '\U{200A}')
    || c == '\U{2028}' || c == '\U{2029}' || c == '\U{202F}' || c == '\U{205F}'
    || c == '\U{3000}' || c == '\U{FEFF}'
  }

  /** The index of the first character at or after `i` that is not white space (or `|s|`). */
  function StartOf(s: string, i: nat): (r: nat)
    requires i <= |s|
    ensures i <= r <= |s|
    decreases |s| - i
  {
    if i < |s| && IsSpace(s[i]) then StartOf(s, i + 1) else i
  }

  /** The end of `s[lo..j]` once its trailing white space is dropped. */
  function EndOf(s: string, lo: nat, j: nat): (r: nat)
    requires lo <= j <= |s|
    ensures lo <= r <= j
    decreases j
  {
    if lo < j && IsSpace(s[j - 1]) then EndOf(s, lo, j - 1) else j
  }

  /** `StartOf` skips only white space and stops at a character that is not. */
  lemma {:induction false} StartOfSpec(s: string, i: nat)
    requires i <= |s|
    ensures forall k :: i <= k < StartOf(s, i) ==> IsSpace(s[k])
    ensures StartOf(s, i) < |s| ==> !IsSpace(s[StartOf(s, i)])
    decreases |s| - i
  {
    if i < |s| && IsSpace(s[i]) {
      StartOfSpec(s, i + 1);
    }
  }

  /** `EndOf` drops only white space and stops after a character that is not. */
  lemma {:induction false} EndOfSpec(s: string, lo: nat, j: nat)
    requires lo <= j <= |s|
    ensures forall k :: EndOf(s, lo, j) <= k < j ==> IsSpace(s[k])
    ensures lo < EndOf(s, lo, j) ==> !IsSpace(s[EndOf(s, lo, j) - 1])
    decreases j
  {
    if lo < j && IsSpace(s[j - 1]) {
      EndOfSpec(s, lo, j - 1);
    }
  }

  /** Where the trimmed text starts inside `s`. */
  function TrimOffset(s: string): nat
    ensures TrimOffset(s) <= |s|
  {
    StartOf(s, 0)
  }

  /** Where the trimmed text ends inside `s`. */
  function TrimLimit(s: string): nat
    ensures TrimOffset(s) <= TrimLimit(s) <= |s|
  {
    EndOf(s, TrimOffset(s), |s|)
  }

  /** `s.trim()`: the part of `s` between its leading and its trailing white space. */
  function Trim(s: string): (r: string)
    ensures |r| == TrimLimit(s) - TrimOffset(s)
  {
    seq(TrimLimit(s) - TrimOffset(s), i requires 0 <= i < TrimLimit(s) - TrimOffset(s) => s[TrimOffset(s) + i])
  }

  /**
    What `trim` returns: a slice of `s` with only white space around it. It is empty
    exactly when `s` is all white space, and otherwise starts and ends with a character
    that is not a space.
   */
  lemma TrimSpec(s: string)
    ensures var r := Trim(s);
      && TrimOffset(s) + |r| <= |s| && r == s[TrimOffset(s)..TrimOffset(s) + |r|]
      && (forall i :: 0 <= i < TrimOffset(s) || TrimOffset(s) + |r| <= i < |s| ==> IsSpace(s[i]))
      && (r != [] ==> !IsSpace(r[0]) && !IsSpace(r[|r| - 1]))
      && (r == [] <==> forall i :: 0 <= i < |s| ==> IsSpace(s[i]))
  {
    StartOfSpec(s, 0);
    EndOfSpec(s, TrimOffset(s), |s|);
    assert Trim(s) == s[TrimOffset(s)..TrimLimit(s)];
  }

  /** Trimming twice trims nothing more. */
  lemma TrimIdempotent(s: string)
    ensures Trim(Trim(s)) == Trim(s)
  {
    var r := Trim(s);
    TrimSpec(s);
    if r != [] {
      assert StartOf(r, 0) == 0;
      assert EndOf(r, 0, |r|) == |r|;
      assert Trim(r) == r;
    }
  }

  /** `c.toLowerCase()` on the ASCII letters; every other character is left as it is. */
  function LowerChar(c: char): char {
    if 'A' <= c <= 'Z' then (c as int - 'A' as int + 'a' as int) as char else c
  }

  /** `s.toLowerCase()`: the same length, each character lower-cased on its own. */
  function Lower(s: string): (r: string)
    ensures |r| == |s|
  {
    seq(|s|, i requires 0 <= i < |s| => LowerChar(s[i]))
  }

  /** `sub` occurs in `s` starting at offset `i`. */
  predicate OccursAt(s: string, sub: string, i: int) {
    0 <= i <= |s| - |sub| && forall k :: 0 <= k < |sub| ==> s[i + k] == sub[k]
  }

  /** `s.includes(sub)`: the scan from offset `i` on finds `sub`. */
  predicate ContainsFrom(s: string, sub: string, i: nat)
    requires i <= |s|
    decreases |s| - i
  {
    OccursAt(s, sub, i) || (i < |s| && ContainsFrom(s, sub, i + 1))
  }

  /** `s.includes(sub)`, scanning `s` from the left. */
  predicate Contains(s: string, sub: string) {
    ContainsFrom(s, sub, 0)
  }

  /** The scan from offset `i` finds `sub` exactly when `sub` occurs at some offset from `i` on. */
  lemma {:induction false} ContainsFromIffOccurs(s: string, sub: string, i: nat)
    requires i <= |s|
    ensures ContainsFrom(s, sub, i) <==> exists j :: i <= j && OccursAt(s, sub, j)
    decreases |s| - i
  {
    if i < |s| {
      ContainsFromIffOccurs(s, sub, i + 1);
      if j :| i <= j && OccursAt(s, sub, j) {
        if j > i {
          assert i + 1 <= j;
        }
      }
    } else {
      if j :| i <= j && OccursAt(s, sub, j) {
        assert j == i;
      }
    }
  }

  /** `s.includes(sub)` holds exactly when `sub` occurs in `s` at some offset. */
  lemma ContainsIffOccurs(s: string, sub: string)
    ensures Contains(s, sub) <==> exists i :: OccursAt(s, sub, i)
  {
    ContainsFromIffOccurs(s, sub, 0);
  }
}
