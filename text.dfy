/** The string comparisons the catalogue queries use: `String.toLowerCase`,
    `String.equalsIgnoreCase` and `String.contains`, over ASCII letters. */
module Text {

  predicate IsUpper(c: char)
  {
    'A' <= c <= 'Z'
  }

  /** `Character.toLowerCase` on the ASCII range: upper-case letters move 32
      code points down the table, every other character is kept. */
  function LowerChar(c: char): (l: char)
    ensures !IsUpper(l)
    ensures IsUpper(c) ==> l as int == c as int + ('a' as int - 'A' as int)
    ensures !IsUpper(c) ==> l == c
  {
    if IsUpper(c) then (c as int + 32) as char else c
  }

  /** `String.toLowerCase`. */
  function Lower(s: string): (r: string)
    ensures |r| == |s|
    ensures forall i :: 0 <= i < |s| ==> r[i] == LowerChar(s[i])
  {
    if s == [] then [] else [LowerChar(s[0])] + Lower(s[1..])
  }

  /** `String.equalsIgnoreCase`: the same length, and each pair of characters
      equal once both are lower-cased. It holds exactly when the two
      lower-cased copies are equal. */
  function EqualsIgnoreCase(a: string, b: string): (r: bool)
    ensures r <==> Lower(a) == Lower(b)
  {
    |a| == |b| && forall i :: 0 <= i < |a| ==> LowerChar(a[i]) == LowerChar(b[i])
  }

  /** `t` occurs in `s` starting at index `i`. */
  predicate OccursAt(s: string, t: string, i: int)
  {
    0 <= i && i + |t| <= |s| && s[i..i + |t|] == t
  }

  /** `t` occurs at the start of `s` exactly when it is a prefix of `s`. */
  lemma OccursAtStart(s: string, t: string)
    ensures OccursAt(s, t, 0) <==> t <= s
  {
  }

  /** When `t` is not a prefix of `s`, its occurrences in `s` are those in
      `s[1..]`, one index further on. */
  lemma ShiftOccurs(s: string, t: string)
    requires |s| > 0 && !(t <= s)
    ensures (exists i :: OccursAt(s, t, i)) <==> (exists j :: OccursAt(s[1..], t, j))
  {
    OccursAtStart(s, t);
    forall i | OccursAt(s, t, i)
      ensures OccursAt(s[1..], t, i - 1)
    {
      assert s[1..][i - 1..i - 1 + |t|] == s[i..i + |t|];
    }
    forall j | OccursAt(s[1..], t, j)
      ensures OccursAt(s, t, j + 1)
    {
      assert s[1..][j..j + |t|] == s[j + 1..j + 1 + |t|];
    }
  }

  /** `String.contains`, as `indexOf` computes it: `t` is a prefix of `s`, or of
      `s` with its first character dropped, and so on. It holds exactly when
      `t` occurs in `s` at some index. */
  function Contains(s: string, t: string): (r: bool)
    ensures r <==> exists i :: OccursAt(s, t, i)
    decreases |s|
  {
    OccursAtStart(s, t);
    if t <= s then true
    else if |s| == 0 then false
    else ShiftOccurs(s, t); Contains(s[1..], t)
  }

  /** The empty string is contained in every string. */
  lemma ContainsEmpty(s: string)
    ensures Contains(s, "")
  {
  }

  /** Lower-casing twice is lower-casing once. */
  lemma LowerIdempotent(s: string)
    ensures Lower(Lower(s)) == Lower(s)
  {
  }
}
