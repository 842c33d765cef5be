/**
 The order JavaScript's `<` and `>` put on strings: compare character by
 character, the first differing character decides, and a proper prefix comes
 first. Names are sequences of `char`.
 */
module StringOrder {

  /**
   `a < b` on strings: either `a` is a proper prefix of `b`, or at the first
   position where they differ `a` has the smaller character.
   */
  predicate Less(a: string, b: string)
    ensures Less(a, b) ==> a != b
    ensures |a| < |b| && a == b[..|a|] ==> Less(a, b)
    decreases |a|
  {
    if |a| == 0 then |b| > 0
    else if |b| == 0 then false
    else if a[0] != b[0] then a[0] < b[0]
    else Less(a[1..], b[1..])
  }

  /** `a < b` holds exactly when `a` is a proper prefix of `b` or has the smaller character where they first differ. */
  lemma {:induction false} LessIsFirstDifference(a: string, b: string)
    ensures Less(a, b) <==>
      (|a| < |b| && a == b[..|a|]) ||
      (exists i :: 0 <= i < |a| && i < |b| && a[..i] == b[..i] && a[i] < b[i])
    decreases |a|
  {
    if |a| > 0 && |b| > 0 {
      if a[0] != b[0] {
        assert a[..0] == b[..0];
      } else {
        var a', b' := a[1..], b[1..];
        LessIsFirstDifference(a', b');
        if |a'| < |b'| && a' == b'[..|a'|] {
          var p := b[..|a|];
          assert p[1..] == b'[..|a'|];
          assert p == [p[0]] + p[1..];
          assert a == [a[0]] + a';
        }
        if |a| < |b| && a == b[..|a|] {
          assert a' == b'[..|a'|];
        }
        if i :| 0 <= i < |a'| && i < |b'| && a'[..i] == b'[..i] && a'[i] < b'[i] {
          assert a[..i + 1] == [a[0]] + a'[..i] && b[..i + 1] == [b[0]] + b'[..i];
          assert a[i + 1] == a'[i] && b[i + 1] == b'[i];
        }
        forall i | 0 <= i < |a| && i < |b| && a[..i] == b[..i] && a[i] < b[i]
          ensures 0 <= i - 1 < |a'| && i - 1 < |b'| && a'[..i - 1] == b'[..i - 1] && a'[i - 1] < b'[i - 1]
        {
          assert i != 0;
          assert a'[..i - 1] == a[..i][1..] && b'[..i - 1] == b[..i][1..];
        }
      }
    }
  }

  /** `a <= b`, that is `!(b < a)`: what a comparator result of at most 0 says. */
  predicate LessEq(a: string, b: string)
  {
    !Less(b, a)
  }

  lemma {:induction false} Irreflexive(a: string)
    ensures !Less(a, a)
    decreases |a|
  {
    if |a| > 0 {
      Irreflexive(a[1..]);
    }
  }

  lemma {:induction false} Asymmetric(a: string, b: string)
    ensures Less(a, b) ==> !Less(b, a)
    decreases |a|
  {
    if |a| > 0 && |b| > 0 && a[0] == b[0] {
      Asymmetric(a[1..], b[1..]);
    }
  }

  lemma {:induction false} Transitive(a: string, b: string, c: string)
    requires Less(a, b) && Less(b, c)
    ensures Less(a, c)
    decreases |a|
  {
    if |a| > 0 && a[0] == b[0] && b[0] == c[0] {
      Transitive(a[1..], b[1..], c[1..]);
    }
  }

  /** Any two strings compare: less, equal or greater. */
  lemma {:induction false} Trichotomy(a: string, b: string)
    ensures Less(a, b) || a == b || Less(b, a)
    decreases |a|
  {
    if |a| > 0 && |b| > 0 && a[0] == b[0] {
      Trichotomy(a[1..], b[1..]);
      if a[1..] == b[1..] {
        assert a == [a[0]] + a[1..] && b == [b[0]] + b[1..];
      }
    }
  }

  lemma LessEqAntisymmetric(a: string, b: string)
    requires LessEq(a, b) && LessEq(b, a)
    ensures a == b
  {
    Trichotomy(a, b);
  }

  lemma LessEqTransitive(a: string, b: string, c: string)
    requires LessEq(a, b) && LessEq(b, c)
    ensures LessEq(a, c)
  {
    Trichotomy(a, b);
    if Less(c, a) && Less(a, b) {
      Transitive(c, a, b);
    }
  }
}
