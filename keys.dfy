/**
  Keys are C strings compared with `strcmp`. The model takes a key as a
  sequence of characters and `strcmp`'s sign as the lexicographic order on
  those sequences: the first differing character decides, and a proper
  prefix comes first.
*/
module Keys {
  type Key = string

  /** `strcmp(a, b) < 0`. */
  predicate Less(a: Key, b: Key)
    decreases |a|
  {
    if a == [] then b != []
    else if b == [] then false
    else if a[0] == b[0] then Less(a[1..], b[1..])
    else a[0] < b[0]
  }

  /** `strcmp(a, b) <= 0`. */
  predicate LessEq(a: Key, b: Key) {
    !Less(b, a)
  }

  lemma {:induction false} LessIrreflexive(a: Key)
    ensures !Less(a, a)
  {
    if a != [] {
      LessIrreflexive(a[1..]);
    }
  }

  /** Exactly one of `strcmp(a, b) < 0`, `== 0`, `> 0` holds. */
  lemma {:induction false} LessTrichotomy(a: Key, b: Key)
    ensures Less(a, b) || a == b || Less(b, a)
    ensures !(Less(a, b) && Less(b, a))
    ensures a == b ==> !Less(a, b)
  {
    if a != [] && b != [] && a[0] == b[0] {
      LessTrichotomy(a[1..], b[1..]);
      if a[1..] == b[1..] {
        assert a == [a[0]] + a[1..] && b == [b[0]] + b[1..];
      }
    }
    if a == b {
      LessIrreflexive(a);
    }
  }

  lemma {:induction false} LessTransitive(a: Key, b: Key, c: Key)
    requires Less(a, b) && Less(b, c)
    ensures Less(a, c)
  {
    if a != [] && a[0] == b[0] && b[0] == c[0] {
      LessTransitive(a[1..], b[1..], c[1..]);
    }
  }

  lemma LessEqTransitive(a: Key, b: Key, c: Key)
    requires LessEq(a, b) && LessEq(b, c)
    ensures LessEq(a, c)
  {
    LessTrichotomy(a, b);
    LessTrichotomy(b, c);
    LessTrichotomy(a, c);
    if Less(c, a) {
      if Less(b, a) {
      } else if a == b {
      } else {
        LessTransitive(c, a, b);
      }
    }
  }

  /** Mixed transitivity: `a <= b < c` gives `a < c`. */
  lemma LessEqLessTransitive(a: Key, b: Key, c: Key)
    requires LessEq(a, b) && Less(b, c)
    ensures Less(a, c)
  {
    LessTrichotomy(a, b);
    if a != b {
      LessTransitive(a, b, c);
    }
  }

  /** Mixed transitivity: `a < b <= c` gives `a < c`. */
  lemma LessLessEqTransitive(a: Key, b: Key, c: Key)
    requires Less(a, b) && LessEq(b, c)
    ensures Less(a, c)
  {
    LessTrichotomy(b, c);
    if b != c {
      LessTransitive(a, b, c);
    }
  }

  /** Keys in non-decreasing order; duplicates are allowed because `insert` does not reject them. */
  ghost predicate Sorted(s: seq<Key>) {
    forall i, j :: 0 <= i < j < |s| ==> LessEq(s[i], s[j])
  }

  /** Keys in increasing order, with no duplicates. */
  ghost predicate StrictlySorted(s: seq<Key>) {
    forall i, j :: 0 <= i < j < |s| ==> Less(s[i], s[j])
  }
}
