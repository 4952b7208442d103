/** The string operations the store relies on: lower-casing, substring search and the
    string order used by the alphabetical sort. */
module Text {

  /** Lower-cases one character; only the ASCII capitals change. */
  function LowerChar(c: char): char {
    if 'A' <= c <= 'Z' then (c as int + 32) as char else c
  }

  /** `String.prototype.toLowerCase`, character by character. */
  function Lower(s: string): (r: string)
    ensures |r| == |s|
    ensures forall i :: 0 <= i < |s| ==> r[i] == LowerChar(s[i])
  {
    if s == [] then [] else [LowerChar(s[0])] + Lower(s[1..])
  }

  /** Lower-casing twice is lower-casing once. */
  lemma LowerIdempotent(s: string)
    ensures Lower(Lower(s)) == Lower(s)
  {
  }

  /** `n` occurs in `h` starting at index `i`. */
  predicate OccursAt(h: string, n: string, i: nat) {
    i + |n| <= |h| && h[i..i + |n|] == n
  }

  /** `String.prototype.includes`: `n` occurs in `h` as a contiguous block. */
  function Includes(h: string, n: string): (r: bool)
    ensures r <==> exists i: nat :: OccursAt(h, n, i)
  {
    if |n| > |h| then false
    else if h[..|n|] == n then
      assert OccursAt(h, n, 0);
      true
    else
      assert forall i: nat :: OccursAt(h, n, i) ==> i > 0 && OccursAt(h[1..], n, i - 1) by {
        forall i: nat | OccursAt(h, n, i) ensures i > 0 && OccursAt(h[1..], n, i - 1) {
          if i > 0 {
            OccursShift(h, n, i - 1);
          }
        }
      }
      assert forall i: nat :: OccursAt(h[1..], n, i) ==> OccursAt(h, n, i + 1) by {
        forall i: nat | OccursAt(h[1..], n, i) ensures OccursAt(h, n, i + 1) {
          OccursShift(h, n, i);
        }
      }
      Includes(h[1..], n)
  }

  /** `n` occurs somewhere in `h`. */
  ghost predicate Occurs(h: string, n: string) {
    exists i: nat :: OccursAt(h, n, i)
  }

  /** `includes` is exactly "occurs somewhere". */
  lemma IncludesMeaning(h: string, n: string)
    ensures Includes(h, n) <==> Occurs(h, n)
  {
  }

  /** An occurrence one place further into `h` is an occurrence in its tail. */
  lemma OccursShift(h: string, n: string, i: nat)
    requires h != []
    ensures OccursAt(h, n, i + 1) <==> OccursAt(h[1..], n, i)
  {
    if i + 1 + |n| <= |h| {
      assert h[i + 1..i + 1 + |n|] == h[1..][i..i + |n|];
    }
  }

  /** The empty string occurs in every string, so an empty search term keeps everything. */
  lemma IncludesEmpty(h: string)
    ensures Includes(h, "")
  {
    assert OccursAt(h, "", 0);
  }

  /** The string order of the alphabetical sort: lexicographic by character code, giving
      -1, 0 or 1 as `localeCompare` gives a negative, zero or positive number. */
  function Compare(a: string, b: string): (r: int)
    ensures -1 <= r <= 1
    ensures r == 0 <==> a == b
  {
    if a == [] then (if b == [] then 0 else -1)
    else if b == [] then 1
    else if a[0] < b[0] then -1
    else if a[0] > b[0] then 1
    else
      assert a == [a[0]] + a[1..] && b == [b[0]] + b[1..];
      Compare(a[1..], b[1..])
  }

  /** Swapping the operands flips the sign. */
  lemma {:induction false} CompareAntisymmetric(a: string, b: string)
    ensures Compare(a, b) == -Compare(b, a)
  {
    if a != [] && b != [] && a[0] == b[0] {
      CompareAntisymmetric(a[1..], b[1..]);
    }
  }

  /** "Not after" is transitive. */
  lemma {:induction false} CompareTransitive(a: string, b: string, c: string)
    requires Compare(a, b) <= 0 && Compare(b, c) <= 0
    ensures Compare(a, c) <= 0
  {
    if a != [] && b != [] && c != [] && a[0] == b[0] == c[0] {
      CompareTransitive(a[1..], b[1..], c[1..]);
    }
  }
}
