/** The two string tests the scripts use: `s.startswith(p)` and `t in s`. */
module Text {

  /** `s.startswith(p)`. */
  predicate StartsWith(s: string, p: string) {
    |p| <= |s| && s[..|p|] == p
  }

  lemma StartsWithFirst(s: string, p: string)
    requires |p| > 0 && StartsWith(s, p)
    ensures s[0] == p[0]
  {
    assert s[..|p|][0] == s[0];
  }

  /** `t in s` for strings: a left-to-right scan for a prefix match. */
  predicate Contains(s: string, t: string)
    decreases |s|
  {
    StartsWith(s, t) || (|s| > 0 && Contains(s[1..], t))
  }

  /** `t` occurs in `s` starting at index `i`. */
  ghost predicate OccursAt(s: string, t: string, i: int) {
    0 <= i && i + |t| <= |s| && s[i..i + |t|] == t
  }

  /** An occurrence found by the scan is a real occurrence. */
  lemma {:induction false} ContainsHasOccurrence(s: string, t: string)
    requires Contains(s, t)
    ensures exists i :: OccursAt(s, t, i)
    decreases |s|
  {
    if StartsWith(s, t) {
      assert OccursAt(s, t, 0);
    } else {
      ContainsHasOccurrence(s[1..], t);
      var i :| OccursAt(s[1..], t, i);
      assert s[1..][i..i + |t|] == s[i + 1..i + 1 + |t|];
      assert OccursAt(s, t, i + 1);
    }
  }

  /** Every occurrence is found by the scan. */
  lemma {:induction false} OccurrenceIsContained(s: string, t: string, i: int)
    requires OccursAt(s, t, i)
    ensures Contains(s, t)
    decreases i
  {
    if i == 0 {
      assert s[..|t|] == s[0..|t|];
    } else {
      assert s[1..][i - 1..i - 1 + |t|] == s[i..i + |t|];
      OccurrenceIsContained(s[1..], t, i - 1);
    }
  }

  /** The scan finds `t` exactly when `t` occurs somewhere in `s`. */
  lemma ContainsIffOccurs(s: string, t: string)
    ensures Contains(s, t) <==> exists i :: OccursAt(s, t, i)
  {
    if Contains(s, t) {
      ContainsHasOccurrence(s, t);
    }
    forall i | OccursAt(s, t, i)
      ensures Contains(s, t)
    {
      OccurrenceIsContained(s, t, i);
    }
  }

  /** An occurrence of `t` in `a + b`, where `b` starts with `c`, lies in `a`,
      lies in `b`, or covers that `c`. */
  lemma ContainsAcrossSeparator(a: string, b: string, t: string, c: char)
    requires |b| > 0 && b[0] == c
    ensures Contains(a + b, t) ==> Contains(a, t) || Contains(b, t) || c in t
  {
    var s := a + b;
    if !Contains(s, t) {
      return;
    }
    ContainsHasOccurrence(s, t);
    var i :| OccursAt(s, t, i);
    if i + |t| <= |a| {
      assert s[i..i + |t|] == a[i..i + |t|];
      OccurrenceIsContained(a, t, i);
    } else if i >= |a| {
      assert s[i..i + |t|] == b[i - |a|..i - |a| + |t|];
      OccurrenceIsContained(b, t, i - |a|);
    } else {
      assert t[|a| - i] == s[|a|] == c;
    }
  }

  /** A pattern with a character that never appears in `s` is not contained in `s`. */
  lemma {:induction false} CharAbsent(s: string, t: string, m: nat)
    requires m < |t|
    requires forall k :: 0 <= k < |s| ==> s[k] != t[m]
    ensures !Contains(s, t)
    decreases |s|
  {
    if |s| > 0 {
      if |t| <= |s| {
        assert s[..|t|][m] != t[m];
      }
      CharAbsent(s[1..], t, m);
    }
  }
}
