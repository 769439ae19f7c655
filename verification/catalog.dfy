/** The listings the page derives from the table: the featured places, the
    category options of the radio button and the category filter. */
module Catalog {
  import opened Places
  import Lexicographic

  /** The radio option that selects every category. */
  const All := "Todas"

  /** How many rows `head(3)` features. */
  const FeaturedCount := 3

  /** `head(3)`: the featured places. */
  function Featured(rows: seq<Place>): (r: seq<Place>)
    ensures |r| == if |rows| < FeaturedCount then |rows| else FeaturedCount
    ensures r <= rows
  {
    if |rows| < FeaturedCount then rows else rows[..FeaturedCount]
  }

  /** Only the first three rows decide the featured list: rows added after
      them change nothing, and featuring the featured list again is a no-op. */
  lemma FeaturedOnlyHead(rows: seq<Place>, more: seq<Place>)
    ensures |rows| >= FeaturedCount ==> Featured(rows + more) == Featured(rows)
    ensures Featured(Featured(rows)) == Featured(rows)
    ensures Featured(rows) + rows[|Featured(rows)|..] == rows
  {
  }

  /** The `categoria` column. */
  function Categories(rows: seq<Place>): (r: seq<string>)
    ensures |r| == |rows|
    ensures forall k :: 0 <= k < |rows| ==> r[k] == rows[k].category
  {
    seq(|rows|, k requires 0 <= k < |rows| => rows[k].category)
  }

  /** Some row of the table has category `c`. */
  predicate HasCategory(rows: seq<Place>, c: string) {
    exists k :: 0 <= k < |rows| && rows[k].category == c
  }

  /** `["Todas"] + sorted(unique(categoria))`: the radio options. "Todas"
      comes first, then every category of the table, ascending and each
      once, and nothing else. */
  function CategoryOptions(rows: seq<Place>): (r: seq<string>)
    ensures |r| >= 1 && r[0] == All
    ensures Lexicographic.StrictlyAscending(r[1..])
    ensures forall c :: c in r[1..] <==> HasCategory(rows, c)
  {
    var cats := Categories(rows);
    var sorted := Lexicographic.SortedUnique(cats);
    assert forall c :: c in cats <==> HasCategory(rows, c) by {
      forall c ensures c in cats <==> HasCategory(rows, c) {
        if c in cats {
          var k :| 0 <= k < |cats| && cats[k] == c;
        }
        if HasCategory(rows, c) {
          var k :| 0 <= k < |rows| && rows[k].category == c;
          assert cats[k] == c;
        }
      }
    }
    assert ([All] + sorted)[1..] == sorted;
    [All] + sorted
  }

  /** Each category of the table is offered exactly once after "Todas". */
  lemma CategoryOptionsOnce(rows: seq<Place>, c: string)
    requires HasCategory(rows, c)
    ensures multiset(CategoryOptions(rows)[1..])[c] == 1
  {
    Lexicographic.AscendingOnce(CategoryOptions(rows)[1..], c);
  }

  /** The options depend only on which categories occur: the list after
      "Todas" is the one ascending list of them, whatever the row order. */
  lemma CategoryOptionsCanonical(rows: seq<Place>, other: seq<Place>)
    requires forall c :: HasCategory(rows, c) <==> HasCategory(other, c)
    ensures CategoryOptions(rows) == CategoryOptions(other)
  {
    var a := CategoryOptions(rows);
    var b := CategoryOptions(other);
    Lexicographic.AscendingUnique(a[1..], b[1..]);
    assert a == [a[0]] + a[1..] && b == [b[0]] + b[1..];
  }

  /** `lugares_df[lugares_df["categoria"] == c]`: the rows of category `c`,
      in table order, each as often as it occurs. */
  function Matching(rows: seq<Place>, c: string): (r: seq<Place>)
    ensures forall k :: 0 <= k < |r| ==> r[k].category == c
    ensures |r| <= |rows|
  {
    if |rows| == 0 then []
    else
      var tail := Matching(rows[1..], c);
      if rows[0].category == c then [rows[0]] + tail else tail
  }

  /** Every row of category `c` is kept, as often as the table holds it, and
      no other row is. */
  lemma {:induction false} MatchingCounts(rows: seq<Place>, c: string)
    ensures forall p :: multiset(Matching(rows, c))[p] == if p.category == c then multiset(rows)[p] else 0
    decreases |rows|
  {
    if |rows| > 0 {
      MatchingCounts(rows[1..], c);
      assert rows == [rows[0]] + rows[1..];
    }
  }

  /** `s` is obtained from `t` by deleting elements, keeping the order. */
  predicate Subsequence(s: seq<Place>, t: seq<Place>)
    decreases |t|
  {
    |s| == 0 ||
    (|t| > 0 && ((s[0] == t[0] && Subsequence(s[1..], t[1..])) || Subsequence(s, t[1..])))
  }

  /** Every list is a subsequence of itself. */
  lemma {:induction false} SubsequenceReflexive(s: seq<Place>)
    ensures Subsequence(s, s)
    decreases |s|
  {
    if |s| > 0 {
      SubsequenceReflexive(s[1..]);
    }
  }

  /** The matching rows keep the table's order: they form a subsequence. */
  lemma {:induction false} MatchingIsSubsequence(rows: seq<Place>, c: string)
    ensures Subsequence(Matching(rows, c), rows)
    decreases |rows|
  {
    if |rows| > 0 {
      var tail := Matching(rows[1..], c);
      MatchingIsSubsequence(rows[1..], c);
      if rows[0].category == c {
        assert ([rows[0]] + tail)[1..] == tail;
      }
    }
  }

  /** Of all subsequences of the table whose rows have category `c`, the
      matching rows are the longest, and the only one of that length. */
  lemma {:induction false} MatchingIsLongest(rows: seq<Place>, c: string, s: seq<Place>)
    requires Subsequence(s, rows)
    requires forall k :: 0 <= k < |s| ==> s[k].category == c
    ensures |s| <= |Matching(rows, c)|
    ensures |s| == |Matching(rows, c)| ==> s == Matching(rows, c)
    decreases |rows|
  {
    if |rows| > 0 && |s| > 0 {
      if s[0] == rows[0] && Subsequence(s[1..], rows[1..]) {
        MatchingIsLongest(rows[1..], c, s[1..]);
        assert s == [s[0]] + s[1..];
      } else {
        MatchingIsLongest(rows[1..], c, s);
      }
    }
  }

  /** The category filter of the exploration section. */
  function FilterByCategory(rows: seq<Place>, option: string): (r: seq<Place>)
    ensures option == All ==> r == rows
    ensures option != All ==> forall k :: 0 <= k < |r| ==> r[k].category == option
    ensures option != All ==>
      forall p :: multiset(r)[p] == if p.category == option then multiset(rows)[p] else 0
    ensures option != All && !HasCategory(rows, option) ==> r == []
    ensures Subsequence(r, rows)
    ensures |r| <= |rows|
  {
    if option == All then
      SubsequenceReflexive(rows);
      rows
    else
      var r := Matching(rows, option);
      MatchingCounts(rows, option);
      MatchingIsSubsequence(rows, option);
      assert !HasCategory(rows, option) ==> r == [] by {
        if |r| > 0 {
          assert r[0] in multiset(rows);
        }
      }
      r
  }

  /** Every category the radio button offers shows at least one place, a
      row category spelled "Todas" included. */
  lemma OfferedCategoryNotEmpty(rows: seq<Place>, option: string)
    requires option in CategoryOptions(rows)[1..]
    ensures |FilterByCategory(rows, option)| > 0
  {
    var k :| 0 <= k < |rows| && rows[k].category == option;
    if option != All {
      assert rows[k] in multiset(rows);
      assert rows[k] in multiset(FilterByCategory(rows, option));
    }
  }
}
