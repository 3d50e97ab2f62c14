/**
 * Python's ordering of `str` values, which is what the poll handler's
 * `start_date > end_date` test evaluates on the raw JSON strings.
 *
 * Python compares two strings code point by code point; at the first
 * position where they differ the string with the smaller code point is the
 * smaller one, and when one string is a prefix of the other the shorter one
 * is the smaller. (Dafny's built-in `<` on sequences means "proper prefix",
 * which is only one half of that.)
 */
module StringOrder {

  /** Python's `a < b` on strings; no string is smaller than itself. */
  predicate LexLess(a: string, b: string)
    ensures LexLess(a, b) ==> a != b
    decreases |a|
  {
    if |a| == 0 then |b| > 0
    else if |b| == 0 then false
    else if a[0] != b[0] then a[0] < b[0]
    else
      assert LexLess(a[1..], b[1..]) ==> a != b by {
        assert a == [a[0]] + a[1..] && b == [b[0]] + b[1..];
      }
      LexLess(a[1..], b[1..])
  }

  /**
   * An independent, non-recursive description of the same order: either `a`
   * is a proper prefix of `b`, or the two agree up to some position `k` at
   * which `a` has the smaller character.
   */
  ghost predicate LexLessByFirstDifference(a: string, b: string) {
    || a < b
    || exists k :: 0 <= k < |a| && k < |b| && a[..k] == b[..k] && a[k] < b[k]
  }

  lemma LexLessMatchesFirstDifference(a: string, b: string)
    ensures LexLess(a, b) <==> LexLessByFirstDifference(a, b)
  {
    if LexLess(a, b) {
      LexLessHasFirstDifference(a, b);
    }
    if LexLessByFirstDifference(a, b) {
      FirstDifferenceGivesLexLess(a, b);
    }
  }

  lemma {:induction false} LexLessHasFirstDifference(a: string, b: string)
    requires LexLess(a, b)
    ensures LexLessByFirstDifference(a, b)
    decreases |a|
  {
    if |a| == 0 {
      assert a < b;
    } else if a[0] != b[0] {
      assert a[..0] == b[..0];
    } else {
      var a', b' := a[1..], b[1..];
      LexLessHasFirstDifference(a', b');
      if a' < b' {
        assert a == [a[0]] + a' && b == [b[0]] + b';
      } else {
        var k :| 0 <= k < |a'| && k < |b'| && a'[..k] == b'[..k] && a'[k] < b'[k];
        assert a[..k + 1] == [a[0]] + a'[..k];
        assert b[..k + 1] == [b[0]] + b'[..k];
        assert a[k + 1] == a'[k] && b[k + 1] == b'[k];
      }
    }
  }

  lemma {:induction false} FirstDifferenceGivesLexLess(a: string, b: string)
    requires LexLessByFirstDifference(a, b)
    ensures LexLess(a, b)
    decreases |a|
  {
    if a < b {
      if |a| > 0 {
        assert a[0] == b[0];
        assert a[1..] < b[1..] by { assert a[1..] == b[1..|a|]; }
        FirstDifferenceGivesLexLess(a[1..], b[1..]);
      }
    } else {
      var k :| 0 <= k < |a| && k < |b| && a[..k] == b[..k] && a[k] < b[k];
      if k > 0 {
        assert a[0] == a[..k][0] == b[..k][0] == b[0];
        var a', b' := a[1..], b[1..];
        assert a'[..k - 1] == a[1..k] == b[1..k] == b'[..k - 1];
        assert a'[k - 1] == a[k] && b'[k - 1] == b[k];
        FirstDifferenceGivesLexLess(a', b');
      }
    }
  }

  /** `a < b` and `b < a` never hold together. */
  lemma {:induction false} LexLessAsymmetric(a: string, b: string)
    ensures !(LexLess(a, b) && LexLess(b, a))
    decreases |a|
  {
    if |a| > 0 && |b| > 0 && a[0] == b[0] {
      LexLessAsymmetric(a[1..], b[1..]);
    }
  }

  lemma {:induction false} LexLessTransitive(a: string, b: string, c: string)
    requires LexLess(a, b) && LexLess(b, c)
    ensures LexLess(a, c)
    decreases |a|
  {
    if |a| > 0 && a[0] == b[0] && b[0] == c[0] {
      LexLessTransitive(a[1..], b[1..], c[1..]);
    }
  }

  /** Two different strings are always ordered one way or the other. */
  lemma {:induction false} LexLessConnected(a: string, b: string)
    requires a != b
    ensures LexLess(a, b) || LexLess(b, a)
    decreases |a|
  {
    if |a| > 0 && |b| > 0 && a[0] == b[0] {
      assert a == [a[0]] + a[1..] && b == [b[0]] + b[1..];
      LexLessConnected(a[1..], b[1..]);
    }
  }

  /**
   * Trichotomy as the handler relies on it: when `a` is neither greater than
   * nor equal to `b`, it is smaller.
   */
  lemma NotGreaterNotEqualIsLess(a: string, b: string)
    ensures (!LexLess(b, a) && a != b) <==> LexLess(a, b)
  {
    if a != b {
      LexLessConnected(a, b);
    }
    LexLessAsymmetric(a, b);
  }
}
