/** Character and string helpers used by the registry: ASCII case folding,
    case-insensitive equality and substring containment. */
module Text {

  /** Lower-case an ASCII letter; every other character is left as it is. */
  function ToLower(c: char): char
  {
    if 'A' <= c <= 'Z' then (c as int + 32) as char else c
  }

  /** The string with every character lower-cased. */
  function Lower(s: string): string
  {
    seq(|s|, i requires 0 <= i < |s| => ToLower(s[i]))
  }

  /** Two strings are equal ignoring case when their lower-cased forms agree. */
  predicate EqualsIgnoreCase(a: string, b: string)
  {
    Lower(a) == Lower(b)
  }

  /** Comparing character by character, as a case-insensitive comparison does,
      gives the same answer as comparing the lower-cased strings. */
  lemma EqualsIgnoreCaseCharwise(a: string, b: string)
    ensures EqualsIgnoreCase(a, b) <==>
              |a| == |b| && forall i :: 0 <= i < |a| ==> ToLower(a[i]) == ToLower(b[i])
  {
    if |a| == |b| && forall i :: 0 <= i < |a| ==> ToLower(a[i]) == ToLower(b[i]) {
      assert forall i :: 0 <= i < |a| ==> Lower(a)[i] == Lower(b)[i];
    }
    if EqualsIgnoreCase(a, b) {
      assert |Lower(a)| == |a| && |Lower(b)| == |b|;
      forall i | 0 <= i < |a| ensures ToLower(a[i]) == ToLower(b[i]) {
        assert Lower(a)[i] == ToLower(a[i]) && Lower(b)[i] == ToLower(b[i]);
      }
    }
  }

  /** Lower-casing twice is the same as lower-casing once. */
  lemma LowerIdempotent(s: string)
    ensures Lower(Lower(s)) == Lower(s)
  {
    assert |Lower(Lower(s))| == |Lower(s)|;
    forall i | 0 <= i < |s| ensures Lower(Lower(s))[i] == Lower(s)[i] {
      var c := s[i];
      assert Lower(s)[i] == ToLower(c);
      assert ToLower(ToLower(c)) == ToLower(c);
    }
  }

  /** t occurs in s starting at position k. */
  ghost predicate OccursAt(s: string, t: string, k: int)
  {
    0 <= k && k + |t| <= |s| && s[k..k + |t|] == t
  }

  /** Whether t is a substring of s, checked position by position from the left. */
  function Contains(s: string, t: string): bool
    decreases |s|
  {
    if |t| <= |s| && s[..|t|] == t then true
    else if |s| == 0 then false
    else Contains(s[1..], t)
  }

  /** Contains agrees with the definition of a substring: some position where t occurs. */
  lemma {:induction false} ContainsIffOccurs(s: string, t: string)
    ensures Contains(s, t) <==> exists k :: OccursAt(s, t, k)
    decreases |s|
  {
    if |t| <= |s| && s[..|t|] == t {
      assert OccursAt(s, t, 0);
    } else if |s| == 0 {
    } else {
      ContainsIffOccurs(s[1..], t);
      if exists k :: OccursAt(s[1..], t, k) {
        var k :| OccursAt(s[1..], t, k);
        assert s[1..][k..k + |t|] == s[k + 1..k + 1 + |t|];
        assert OccursAt(s, t, k + 1);
      }
      if exists k :: OccursAt(s, t, k) {
        var k :| OccursAt(s, t, k);
        assert k != 0;
        assert s[1..][k - 1..k - 1 + |t|] == s[k..k + |t|];
        assert OccursAt(s[1..], t, k - 1);
      }
    }
  }

  /** The empty string is contained in every string. */
  lemma EmptyIsContained(s: string)
    ensures Contains(s, "")
  {
  }
}
