/** The two string operations the allocator uses: lower-casing the requested
    species name (`toLowerCase`) and substring search (`includes`). */
module Text {

  predicate IsUpper(c: char) {
    'A' <= c <= 'Z'
  }

  /** Lower-cases an ASCII capital letter and leaves every other character alone. */
  function LowerChar(c: char): (d: char)
    ensures !IsUpper(d)
    ensures IsUpper(c) ==> d as int == c as int + 32
    ensures !IsUpper(c) ==> d == c
  {
    if IsUpper(c) then (c as int + 32) as char else c
  }

  /** `toLowerCase`, restricted to ASCII letters: the name keeps its length,
      each character is lowered on its own, and no capital is left. */
  function Lower(s: string): (r: string)
    ensures |r| == |s|
    ensures forall i :: 0 <= i < |s| ==> r[i] == LowerChar(s[i])
    ensures forall i :: 0 <= i < |r| ==> !IsUpper(r[i])
  {
    seq(|s|, i requires 0 <= i < |s| => LowerChar(s[i]))
  }

  /** A name with no capital letter is its own lower-case form. */
  lemma LowerKeepsLowercase(s: string)
    requires forall i :: 0 <= i < |s| ==> !IsUpper(s[i])
    ensures Lower(s) == s
  {
  }

  /** Lower-casing twice is lower-casing once, so a request is analysed the
      same whether or not its name was already lower case. */
  lemma LowerIdempotent(s: string)
    ensures Lower(Lower(s)) == Lower(s)
  {
  }

  /** `t` occurs in `s` as a contiguous piece starting at position `k`. */
  ghost predicate OccursAt(t: string, s: string, k: int) {
    0 <= k <= |s| - |t| && s[k..k + |t|] == t
  }

  /** `t` occurs in `s` as a contiguous piece starting at some position. */
  ghost predicate Occurs(t: string, s: string) {
    exists k :: OccursAt(t, s, k)
  }

  /** Removing the first character of `s` keeps every occurrence of `t`
      except one at position 0. */
  lemma OccursShift(t: string, s: string)
    requires |t| <= |s| && s[..|t|] != t
    ensures Occurs(t, s) <==> Occurs(t, s[1..])
  {
    if Occurs(t, s) {
      var k :| OccursAt(t, s, k);
      assert k != 0;
      assert s[1..][k - 1..k - 1 + |t|] == t;
      assert OccursAt(t, s[1..], k - 1);
    }
    if Occurs(t, s[1..]) {
      var k :| OccursAt(t, s[1..], k);
      assert s[k + 1..k + 1 + |t|] == t;
      assert OccursAt(t, s, k + 1);
    }
  }

  /** `t` is absent from `s` when no position where it could start matches
      its first two characters. */
  lemma NotOccurs(t: string, s: string)
    requires |t| >= 2
    requires forall k :: 0 <= k <= |s| - |t| ==> s[k] != t[0] || s[k + 1] != t[1]
    ensures !Occurs(t, s)
  {
    forall k | 0 <= k <= |s| - |t|
      ensures !OccursAt(t, s, k)
    {
      assert s[k..k + |t|][0] == s[k] && s[k..k + |t|][1] == s[k + 1];
    }
  }

  /** `s.includes(t)`: a left-to-right scan for `t` inside `s`. */
  function Includes(s: string, t: string): (r: bool)
    ensures r <==> Occurs(t, s)
    decreases |s|
  {
    if |t| > |s| then false
    else if s[..|t|] == t then (assert OccursAt(t, s, 0); true)
    else OccursShift(t, s); Includes(s[1..], t)
  }
}
