/**
 * The two string operations the camera selection relies on: ordinal substring
 * search and lower-casing, both over plain character sequences.
 */
module Text {

  predicate IsUpper(c: char) {
    'A' <= c <= 'Z'
  }

  /** Lower-cases one letter of the Latin alphabet and leaves every other character alone. */
  function ToLowerChar(c: char): (r: char)
    ensures !IsUpper(r)
    ensures IsUpper(c) ==> r as int == c as int + 32
    ensures !IsUpper(c) ==> r == c
  {
    if IsUpper(c) then (c as int + 32) as char else c
  }

  /** Lower-cases a whole string, character by character. */
  function ToLower(s: string): (r: string)
    ensures |r| == |s|
    ensures forall i :: 0 <= i < |s| ==> r[i] == ToLowerChar(s[i])
  {
    seq(|s|, i requires 0 <= i < |s| => ToLowerChar(s[i]))
  }

  /** A lower-cased string holds no capital letter, so lower-casing it again changes nothing. */
  lemma ToLowerIdempotent(s: string)
    ensures ToLower(ToLower(s)) == ToLower(s)
  {
    var once := ToLower(s);
    forall i | 0 <= i < |s|
      ensures ToLower(once)[i] == once[i]
    {
      assert !IsUpper(once[i]);
    }
  }

  /** Lower-casing a slice is slicing the lower-cased string. */
  lemma ToLowerSlice(s: string, i: int, j: int)
    requires 0 <= i <= j <= |s|
    ensures ToLower(s[i..j]) == ToLower(s)[i..j]
  {
  }

  /** `p` occurs in `s` starting at the first character. */
  predicate IsPrefix(p: string, s: string) {
    |p| <= |s| && s[..|p|] == p
  }

  /** `p` occurs in `s` starting at position `i`. */
  predicate OccursAt(s: string, p: string, i: int) {
    0 <= i <= |s| - |p| && s[i..i + |p|] == p
  }

  /** `p` occurs in `s` at some start position. */
  ghost predicate Occurs(s: string, p: string) {
    exists i :: OccursAt(s, p, i)
  }

  /** Ordinal substring search, as a left-to-right scan of the start positions. */
  function Contains(s: string, p: string): bool
    decreases |s|
  {
    if IsPrefix(p, s) then true
    else if |s| == 0 then false
    else Contains(s[1..], p)
  }

  /** An occurrence in the tail is an occurrence one position later in the whole string. */
  lemma OccursShift(s: string, p: string, i: int)
    requires |s| > 0 && 0 <= i
    ensures OccursAt(s[1..], p, i) <==> OccursAt(s, p, i + 1)
  {
    if 0 <= i <= |s| - 1 - |p| {
      assert s[1..][i..i + |p|] == s[i + 1..i + 1 + |p|];
    }
  }

  /** The scan answers yes exactly when the pattern occurs somewhere in the string. */
  lemma {:induction false} ContainsIffOccurs(s: string, p: string)
    ensures Contains(s, p) <==> Occurs(s, p)
    decreases |s|
  {
    if IsPrefix(p, s) {
      assert OccursAt(s, p, 0);
    } else if |s| > 0 {
      ContainsIffOccurs(s[1..], p);
      if Contains(s[1..], p) {
        var i :| OccursAt(s[1..], p, i);
        OccursShift(s, p, i);
      } else {
        forall i
          ensures !OccursAt(s, p, i)
        {
          if i > 0 {
            OccursShift(s, p, i - 1);
          }
        }
      }
    } else {
      forall i
        ensures !OccursAt(s, p, i)
      {
      }
    }
  }

  /** A match survives lower-casing both sides: lower-cased search finds every exact occurrence. */
  lemma ContainsLowered(s: string, p: string)
    requires Contains(s, p)
    ensures Contains(ToLower(s), ToLower(p))
  {
    ContainsIffOccurs(s, p);
    ContainsIffOccurs(ToLower(s), ToLower(p));
    var i :| OccursAt(s, p, i);
    ToLowerSlice(s, i, i + |p|);
    assert OccursAt(ToLower(s), ToLower(p), i);
  }

  /** A pattern that holds a capital letter never occurs in a lower-cased string. */
  lemma LoweredMissesCapitals(s: string, p: string, k: int)
    requires 0 <= k < |p| && IsUpper(p[k])
    ensures !Contains(ToLower(s), p)
  {
    var low := ToLower(s);
    ContainsIffOccurs(low, p);
    forall i
      ensures !OccursAt(low, p, i)
    {
      if 0 <= i <= |low| - |p| {
        assert low[i..i + |p|][k] == low[i + k];
      }
    }
  }
}
