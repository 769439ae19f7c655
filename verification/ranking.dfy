/** The "places near you" section: every filtered row gets its distance to
    the user, then the rows are sorted by that distance, nearest first. */
module Ranking {
  import opened Places

  /** Non-decreasing in `dist_km`. */
  predicate Ascending(s: seq<RankedPlace>) {
    forall i, j :: 0 <= i < j < |s| ==> s[i].distKm <= s[j].distKm
  }

  /** Puts one ranked row into an ascending list, keeping it ascending and
      losing nothing. */
  function Insert(x: RankedPlace, s: seq<RankedPlace>): (r: seq<RankedPlace>)
    requires Ascending(s)
    ensures Ascending(r)
    ensures multiset(r) == multiset(s) + multiset{x}
    ensures |r| == |s| + 1
    ensures r[0] == x || (|s| > 0 && r[0] == s[0])
  {
    if |s| == 0 || x.distKm <= s[0].distKm then [x] + s
    else
      var tail := Insert(x, s[1..]);
      assert s == [s[0]] + s[1..];
      var r := [s[0]] + tail;
      assert r[1..] == tail;
      r
  }

  /** `filtrados_df.sort_values("dist_km")` after the `dist_km` column is
      filled in: a reordering of the annotated rows, nearest first. */
  method Rank(rows: seq<Place>, latUser: real, lonUser: real, haversine: DistanceFn)
    returns (ranked: seq<RankedPlace>)
    ensures Ascending(ranked)
    ensures multiset(ranked) == multiset(Annotate(rows, latUser, lonUser, haversine))
    ensures |ranked| == |rows|
  {
    ghost var annotated := Annotate(rows, latUser, lonUser, haversine);
    ranked := [];
    for i := 0 to |rows|
      invariant Ascending(ranked)
      invariant multiset(ranked) == multiset(annotated[..i])
      invariant |ranked| == i
    {
      var row := RankedPlace(rows[i], haversine(latUser, lonUser, rows[i].lat, rows[i].lon));
      assert annotated[..i + 1] == annotated[..i] + [row];
      ranked := Insert(row, ranked);
    }
    assert annotated[..|rows|] == annotated;
  }

  /** Every ranked row carries its own row's distance to the user. */
  lemma RankKeepsDistances(rows: seq<Place>, latUser: real, lonUser: real, haversine: DistanceFn,
                           ranked: seq<RankedPlace>)
    requires multiset(ranked) == multiset(Annotate(rows, latUser, lonUser, haversine))
    ensures forall k :: 0 <= k < |ranked| ==>
      ranked[k].place in rows &&
      ranked[k].distKm == haversine(latUser, lonUser, ranked[k].place.lat, ranked[k].place.lon)
  {
    var annotated := Annotate(rows, latUser, lonUser, haversine);
    forall k | 0 <= k < |ranked|
      ensures ranked[k].place in rows
      ensures ranked[k].distKm == haversine(latUser, lonUser, ranked[k].place.lat, ranked[k].place.lon)
    {
      assert ranked[k] in multiset(annotated);
    }
  }

  /** Taking the head of `a` out of `a`, and the same row out of `b`, leaves
      two reorderings of each other. */
  lemma RemoveSame(a: seq<RankedPlace>, b: seq<RankedPlace>, j: nat)
    requires multiset(a) == multiset(b)
    requires |a| > 0 && j < |b| && b[j] == a[0]
    ensures multiset(a[1..]) == multiset(b[..j] + b[j + 1..])
  {
    assert a == [a[0]] + a[1..];
    assert b == b[..j] + [b[j]] + b[j + 1..];
    assert multiset(a[1..]) == multiset(a) - multiset{a[0]};
    assert multiset(b[..j] + b[j + 1..]) == multiset(b) - multiset{b[j]};
  }

  /** Removing one row keeps a list ascending. */
  lemma AscendingRemove(b: seq<RankedPlace>, j: nat)
    requires Ascending(b) && j < |b|
    ensures Ascending(b[..j] + b[j + 1..])
  {
    var rest := b[..j] + b[j + 1..];
    forall p, q | 0 <= p < q < |rest|
      ensures rest[p].distKm <= rest[q].distKm
    {
      var p' := if p < j then p else p + 1;
      var q' := if q < j then q else q + 1;
      assert rest[p] == b[p'] && rest[q] == b[q'];
    }
  }

  /** Two ascending reorderings of the same rows list the same distances in
      the same order; only rows at equal distance can trade places, which is
      all the unstable sort leaves open. */
  lemma {:induction false} AscendingDistancesDetermined(a: seq<RankedPlace>, b: seq<RankedPlace>, k: nat)
    requires Ascending(a) && Ascending(b)
    requires multiset(a) == multiset(b)
    requires k < |a|
    ensures k < |b| && a[k].distKm == b[k].distKm
    decreases |a|
  {
    assert |b| == |a| by {
      assert |multiset(a)| == |a| && |multiset(b)| == |b|;
    }
    assert a[0] in multiset(b) && b[0] in multiset(a);
    var i :| 0 <= i < |a| && a[i] == b[0];
    var j :| 0 <= j < |b| && b[j] == a[0];
    assert a[0].distKm == b[0].distKm by {
      assert a[0].distKm <= a[i].distKm;
      assert b[0].distKm <= b[j].distKm;
    }
    if k > 0 {
      var rest := b[..j] + b[j + 1..];
      RemoveSame(a, b, j);
      AscendingRemove(b, j);
      assert Ascending(a[1..]);
      AscendingDistancesDetermined(a[1..], rest, k - 1);
      assert a[k] == a[1..][k - 1];
      if k - 1 < j {
        // Every row of b up to position j is as near as b[0] and b[j].
        assert rest[k - 1] == b[k - 1];
        assert b[0].distKm <= b[k - 1].distKm <= b[k].distKm <= b[j].distKm;
      } else {
        assert rest[k - 1] == b[k];
      }
    }
  }
}
