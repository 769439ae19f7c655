/** Python's ordering of `str` values: lexicographic by code point, a proper
    prefix coming first. `sorted(...)` on the category column uses it. */
module Lexicographic {

  /** `a` is a proper prefix of `b`. */
  predicate ProperPrefix(a: string, b: string) {
    |a| < |b| && a == b[..|a|]
  }

  /** `a` and `b` agree before position `k` and `a` is smaller at `k`. */
  predicate SmallerAt(a: string, b: string, k: int) {
    0 <= k < |a| && k < |b| && a[..k] == b[..k] && a[k] < b[k]
  }

  /** `a < b` on Python strings: either `a` is a proper prefix of `b`, or
      at the first position where they differ `a` has the smaller code point. */
  predicate Less(a: string, b: string): (r: bool)
    ensures r <==> ProperPrefix(a, b) || exists k :: SmallerAt(a, b, k)
    decreases |a|
  {
    if |a| == 0 then |b| > 0
    else if |b| == 0 then false
    else if a[0] < b[0] then
      assert SmallerAt(a, b, 0);
      true
    else if a[0] > b[0] then
      assert !ProperPrefix(a, b);
      assert forall k :: !SmallerAt(a, b, k) by {
        forall k ensures !SmallerAt(a, b, k) {
          if 0 < k < |a| && k < |b| {
            assert a[..k][0] == a[0] && b[..k][0] == b[0];
          }
        }
      }
      false
    else
      var r := Less(a[1..], b[1..]);
      ShiftPrefix(a, b);
      assert (exists k :: SmallerAt(a, b, k)) <==> (exists k :: SmallerAt(a[1..], b[1..], k)) by {
        forall k | SmallerAt(a, b, k) ensures SmallerAt(a[1..], b[1..], k - 1) {
          ShiftSmaller(a, b, k - 1);
        }
        forall k | SmallerAt(a[1..], b[1..], k) ensures SmallerAt(a, b, k + 1) {
          ShiftSmaller(a, b, k);
        }
      }
      r
  }

  /** With equal first characters, prefix-ness carries over to the tails. */
  lemma ShiftPrefix(a: string, b: string)
    requires |a| > 0 && |b| > 0 && a[0] == b[0]
    ensures ProperPrefix(a, b) <==> ProperPrefix(a[1..], b[1..])
  {
    assert a == [a[0]] + a[1..];
    if ProperPrefix(a[1..], b[1..]) {
      assert b[..|a|] == [b[0]] + b[1..][..|a| - 1];
    }
  }

  /** With equal first characters, the first difference of the tails is one
      position earlier. */
  lemma ShiftSmaller(a: string, b: string, k: int)
    requires |a| > 0 && |b| > 0 && a[0] == b[0]
    ensures k >= -1 ==> (SmallerAt(a, b, k + 1) <==> SmallerAt(a[1..], b[1..], k))
  {
    if 0 <= k < |a| - 1 && k < |b| - 1 {
      assert a[..k + 1] == [a[0]] + a[1..][..k];
      assert b[..k + 1] == [b[0]] + b[1..][..k];
    }
  }

  lemma {:induction false} LessIrreflexive(a: string)
    ensures !Less(a, a)
    decreases |a|
  {
    if |a| > 0 {
      LessIrreflexive(a[1..]);
    }
  }

  lemma {:induction false} LessTransitive(a: string, b: string, c: string)
    requires Less(a, b) && Less(b, c)
    ensures Less(a, c)
    decreases |a|
  {
    if |a| > 0 && a[0] == b[0] && b[0] == c[0] {
      LessTransitive(a[1..], b[1..], c[1..]);
    }
  }

  /** Any two different strings are ordered one way or the other. */
  lemma {:induction false} LessTotal(a: string, b: string)
    requires a != b
    ensures Less(a, b) || Less(b, a)
    decreases |a|
  {
    if |a| > 0 && |b| > 0 && a[0] == b[0] {
      assert a == [a[0]] + a[1..] && b == [b[0]] + b[1..];
      LessTotal(a[1..], b[1..]);
    }
  }

  lemma LessAsymmetric(a: string, b: string)
    requires Less(a, b)
    ensures !Less(b, a)
  {
    if Less(b, a) {
      LessTransitive(a, b, a);
      LessIrreflexive(a);
    }
  }

  /** Ascending with no repeats: the shape of `sorted(set)`. */
  predicate StrictlyAscending(s: seq<string>) {
    forall i, j :: 0 <= i < j < |s| ==> Less(s[i], s[j])
  }

  /** Adds one string to a strictly ascending list, keeping it strictly
      ascending; a string already present is not added again. */
  function InsertUnique(x: string, s: seq<string>): (r: seq<string>)
    requires StrictlyAscending(s)
    ensures StrictlyAscending(r)
    ensures forall y :: y in r <==> y in s || y == x
    ensures |r| <= |s| + 1
  {
    if |s| == 0 then [x]
    else if x == s[0] then s
    else if Less(x, s[0]) then
      assert forall j :: 0 < j < |s| ==> Less(x, s[j]) by {
        forall j | 0 < j < |s| ensures Less(x, s[j]) {
          LessTransitive(x, s[0], s[j]);
        }
      }
      [x] + s
    else
      var tail := InsertUnique(x, s[1..]);
      assert Less(s[0], x) by {
        LessTotal(x, s[0]);
      }
      assert forall y :: y in tail ==> Less(s[0], y);
      [s[0]] + tail
  }

  /** `sorted(unique(xs))`: the distinct strings of `xs` in ascending order. */
  function SortedUnique(xs: seq<string>): (r: seq<string>)
    ensures StrictlyAscending(r)
    ensures forall y :: y in r <==> y in xs
    ensures |r| <= |xs|
  {
    if |xs| == 0 then []
    else
      var prefix := xs[..|xs| - 1];
      assert xs == prefix + [xs[|xs| - 1]];
      InsertUnique(xs[|xs| - 1], SortedUnique(prefix))
  }

  /** A strictly ascending list is determined by the strings it holds: it is
      the one ascending enumeration of its set of elements. */
  lemma {:induction false} AscendingUnique(a: seq<string>, b: seq<string>)
    requires StrictlyAscending(a) && StrictlyAscending(b)
    requires forall y :: y in a <==> y in b
    ensures a == b
    decreases |a|
  {
    assert |a| > 0 ==> a[0] in b;
    assert |b| > 0 ==> b[0] in a;
    if |a| > 0 {
      if a[0] != b[0] {
        var i :| 0 <= i < |a| && a[i] == b[0];
        var j :| 0 <= j < |b| && b[j] == a[0];
        assert Less(a[0], b[0]) by { assert i > 0; }
        assert Less(b[0], a[0]) by { assert j > 0; }
        LessAsymmetric(a[0], b[0]);
      } else {
        forall y
          ensures y in a[1..] <==> y in b[1..]
        {
          AscendingTailMembers(a, y);
          AscendingTailMembers(b, y);
        }
        AscendingUnique(a[1..], b[1..]);
        assert a == [a[0]] + a[1..] && b == [b[0]] + b[1..];
      }
    }
  }

  /** The tail of a strictly ascending list holds every element but the head. */
  lemma AscendingTailMembers(s: seq<string>, y: string)
    requires StrictlyAscending(s) && |s| > 0
    ensures y in s[1..] <==> y in s && y != s[0]
  {
    if y in s[1..] {
      var k :| 0 <= k < |s[1..]| && s[1..][k] == y;
      assert Less(s[0], s[k + 1]);
      LessIrreflexive(y);
    }
    if y in s && y != s[0] {
      var k :| 0 <= k < |s| && s[k] == y;
      assert s[1..][k - 1] == y;
    }
  }

  /** Every string of a strictly ascending list occurs in it exactly once. */
  lemma AscendingOnce(s: seq<string>, y: string)
    requires StrictlyAscending(s) && y in s
    ensures multiset(s)[y] == 1
    decreases |s|
  {
    assert s == [s[0]] + s[1..];
    AscendingTailMembers(s, y);
    if y == s[0] {
      assert multiset(s[1..])[y] == 0;
    } else {
      AscendingOnce(s[1..], y);
    }
  }
}
