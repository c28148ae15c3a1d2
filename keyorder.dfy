/**
 The order the dictionary sorts its keys by: JavaScript's `<` on strings,
 which is lexicographic, a proper prefix sorting before every extension.
 `StartsWith` is `String.prototype.startsWith`.
 */
module KeyOrder {

  /** JavaScript `a < b` on two strings; a proper prefix sorts first. */
  predicate Less(a: string, b: string)
    ensures StartsWith(b, a) && a != b ==> Less(a, b)
    decreases |a|
  {
    if |a| == 0 then |b| > 0
    else if |b| == 0 then false
    else if a[0] != b[0] then a[0] < b[0]
    else
      assert StartsWith(b, a) ==> b[1..][..|a| - 1] == a[1..];
      Less(a[1..], b[1..])
  }

  /** `s.startsWith(p)`: `s` is `p` followed by the rest of `s`. */
  predicate StartsWith(s: string, p: string)
    ensures StartsWith(s, p) ==> |p| <= |s| && s == p + s[|p|..]
    ensures |p| == 0 ==> StartsWith(s, p)
  {
    |p| <= |s| && s[..|p|] == p
  }

  lemma {:induction false} LessIrreflexive(a: string)
    ensures !Less(a, a)
    decreases |a|
  {
    if |a| > 0 {
      LessIrreflexive(a[1..]);
    }
  }

  lemma {:induction false} LessAsymmetric(a: string, b: string)
    requires Less(a, b)
    ensures !Less(b, a)
    decreases |a|
  {
    if |a| > 0 && |b| > 0 && a[0] == b[0] {
      LessAsymmetric(a[1..], b[1..]);
    }
  }

  lemma {:induction false} LessTransitive(a: string, b: string, c: string)
    requires Less(a, b) && Less(b, c)
    ensures Less(a, c)
    decreases |a|
  {
    if |a| > 0 && a[0] == b[0] && b[0] == c[0] {
      LessTransitive(a[1..], b[1..], c[1..]);
    }
  }

  /** Two different strings are always ordered one way or the other. */
  lemma {:induction false} LessTotal(a: string, b: string)
    requires a != b
    ensures Less(a, b) || Less(b, a)
    decreases |a|
  {
    if |a| > 0 && |b| > 0 && a[0] == b[0] {
      assert a == [a[0]] + a[1..] && b == [b[0]] + b[1..];
      LessTotal(a[1..], b[1..]);
    }
  }

  /** Neither `a < b` nor `b < a`: the JavaScript `else` branch, reached on equal keys. */
  lemma NeitherLessIsEqual(a: string, b: string)
    requires !Less(a, b) && !Less(b, a)
    ensures a == b
  {
    if a != b {
      LessTotal(a, b);
    }
  }

  /** A string never sorts before one of its prefixes, i.e. `p <= s` holds. */
  lemma {:induction false} PrefixNotAfter(s: string, p: string)
    requires StartsWith(s, p)
    ensures !Less(s, p)
    decreases |p|
  {
    if |p| > 0 {
      assert s[1..][..|p| - 1] == p[1..];
      PrefixNotAfter(s[1..], p[1..]);
    }
  }
}
