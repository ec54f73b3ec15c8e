/** One superhero record as a value, and the specifications the store's
    operations are proved against: which records a search selects, how a
    record is rendered, what "sorted by name" and "stable" mean, and what a
    rank-ordered view is. */
module Heroes {
  import opened AsciiText

  /** The six columns of one slot: name, superpower, weakness, year
      introduced, comic universe (the two columns of `extraData`) and rank. */
  datatype Hero = Hero(name: string, power: string, weakness: string,
                       year: string, universe: string, rank: int)

  /** Which text column a search looks at. */
  datatype Field = Name | Power

  /** The three ways one attempt to add a hero can end. */
  datatype AddOutcome = Added | Full | DuplicateRank

  function FieldOf(h: Hero, f: Field): string
  {
    match f
    case Name => h.name
    case Power => h.power
  }

  // ---------------------------------------------------------------- search

  /** The per-record test of both searches: the lower-cased query is a
      substring of the lower-cased field. */
  predicate Matches(field: string, query: string)
    ensures Matches(field, query) <==> Occurs(ToLowercase(field), ToLowercase(query))
  {
    Contains(ToLowercase(field), ToLowercase(query))
  }

  /** Neither the case of the field nor the case of the query matters. */
  lemma MatchesIgnoresCase(field: string, query: string)
    ensures Matches(ToUppercase(field), query) == Matches(field, query)
    ensures Matches(ToLowercase(field), query) == Matches(field, query)
    ensures Matches(field, ToUppercase(query)) == Matches(field, query)
    ensures Matches(field, ToLowercase(query)) == Matches(field, query)
  {
    LowercaseAbsorbs(field);
    LowercaseAbsorbs(query);
  }

  /** 0, 1, ..., n - 1. */
  function Indices(n: nat): (r: seq<nat>)
    ensures |r| == n
    ensures forall k :: 0 <= k < n ==> r[k] == k
  {
    if n == 0 then [] else Indices(n - 1) + [n - 1]
  }

  /** The indices of the records of `s` whose field `f` matches `query`,
      in store order. */
  function Hits(s: seq<Hero>, f: Field, query: string): (r: seq<nat>)
    ensures forall k :: 0 <= k < |r| ==> r[k] < |s|
    ensures forall k, l :: 0 <= k < l < |r| ==> r[k] < r[l]
  {
    if s == [] then []
    else
      var n := |s| - 1;
      Hits(s[..n], f, query) + (if Matches(FieldOf(s[n], f), query) then [n] else [])
  }

  /** Scanning one more record appends its index exactly when it matches. */
  lemma HitsStep(s: seq<Hero>, f: Field, query: string, i: nat)
    requires i < |s|
    ensures Hits(s[..i + 1], f, query) ==
            Hits(s[..i], f, query) + (if Matches(FieldOf(s[i], f), query) then [i] else [])
  {
    assert s[..i + 1][..i] == s[..i];
  }

  /** An index is selected exactly when it is a live record that matches. */
  lemma {:induction false} HitsMembership(s: seq<Hero>, f: Field, query: string, i: int)
    ensures i in Hits(s, f, query) <==> 0 <= i < |s| && Matches(FieldOf(s[i], f), query)
  {
    if s != [] {
      var n := |s| - 1;
      HitsMembership(s[..n], f, query, i);
    }
  }

  /** "Not found" is reported exactly when no live record matches. */
  lemma HitsNotFound(s: seq<Hero>, f: Field, query: string)
    ensures Hits(s, f, query) == [] <==>
            forall i :: 0 <= i < |s| ==> !Matches(FieldOf(s[i], f), query)
  {
    var r := Hits(s, f, query);
    if r != [] {
      HitsMembership(s, f, query, r[0]);
    } else {
      forall i | 0 <= i < |s|
        ensures !Matches(FieldOf(s[i], f), query)
      {
        HitsMembership(s, f, query, i);
      }
    }
  }

  /** The empty query selects every record. */
  lemma {:induction false} HitsEmptyQuery(s: seq<Hero>, f: Field)
    ensures Hits(s, f, "") == Indices(|s|)
  {
    if s != [] {
      var n := |s| - 1;
      HitsEmptyQuery(s[..n], f);
      assert OccursAt(ToLowercase(FieldOf(s[n], f)), ToLowercase(""), 0);
    }
  }

  /** Upper- or lower-casing the query never changes the selection. */
  lemma {:induction false} HitsIgnoreQueryCase(s: seq<Hero>, f: Field, query: string)
    ensures Hits(s, f, ToUppercase(query)) == Hits(s, f, query)
    ensures Hits(s, f, ToLowercase(query)) == Hits(s, f, query)
  {
    if s != [] {
      var n := |s| - 1;
      HitsIgnoreQueryCase(s[..n], f, query);
      MatchesIgnoresCase(FieldOf(s[n], f), query);
    }
  }

  // ---------------------------------------------------------------- display

  /** `displayHero`: name, power and weakness in one case; year, universe
      and rank exactly as stored. */
  function Render(h: Hero, toUpper: bool): (v: Hero)
    ensures v.year == h.year && v.universe == h.universe && v.rank == h.rank
    ensures ToLowercase(v.name) == ToLowercase(h.name)
    ensures ToLowercase(v.power) == ToLowercase(h.power)
    ensures ToLowercase(v.weakness) == ToLowercase(h.weakness)
    ensures toUpper ==> NoLower(v.name) && NoLower(v.power) && NoLower(v.weakness)
    ensures !toUpper ==> NoUpper(v.name) && NoUpper(v.power) && NoUpper(v.weakness)
  {
    LowercaseAbsorbs(h.name);
    LowercaseAbsorbs(h.power);
    LowercaseAbsorbs(h.weakness);
    if toUpper then
      h.(name := ToUppercase(h.name), power := ToUppercase(h.power),
         weakness := ToUppercase(h.weakness))
    else
      h.(name := ToLowercase(h.name), power := ToLowercase(h.power),
         weakness := ToLowercase(h.weakness))
  }

  /** Render's contract determines its result: any record with those six
      properties is the rendering. */
  lemma RenderDetermined(h: Hero, toUpper: bool, v: Hero)
    requires v.year == h.year && v.universe == h.universe && v.rank == h.rank
    requires ToLowercase(v.name) == ToLowercase(h.name)
    requires ToLowercase(v.power) == ToLowercase(h.power)
    requires ToLowercase(v.weakness) == ToLowercase(h.weakness)
    requires toUpper ==> NoLower(v.name) && NoLower(v.power) && NoLower(v.weakness)
    requires !toUpper ==> NoUpper(v.name) && NoUpper(v.power) && NoUpper(v.weakness)
    ensures v == Render(h, toUpper)
  {
    CaseFoldUnique(v.name, h.name);
    CaseFoldUnique(v.power, h.power);
    CaseFoldUnique(v.weakness, h.weakness);
  }

  /** Rendering twice in the same case is rendering once. */
  lemma RenderIdempotent(h: Hero, toUpper: bool)
    ensures Render(Render(h, toUpper), toUpper) == Render(h, toUpper)
  {
    UppercaseAbsorbs(h.name);
    UppercaseAbsorbs(h.power);
    UppercaseAbsorbs(h.weakness);
    LowercaseAbsorbs(h.name);
    LowercaseAbsorbs(h.power);
    LowercaseAbsorbs(h.weakness);
  }

  // ---------------------------------------------------------------- sorting

  /** The sort key: the lower-cased name. */
  function Key(h: Hero): string
  {
    ToLowercase(h.name)
  }

  /** `a` may stand before `b`: `toLowercase(a.name) > toLowercase(b.name)`
      does not hold. */
  predicate NameLeq(a: Hero, b: Hero)
  {
    !LexLess(Key(b), Key(a))
  }

  lemma NameLeqTransitive(a: Hero, b: Hero, c: Hero)
    requires NameLeq(a, b) && NameLeq(b, c)
    ensures NameLeq(a, c)
  {
    if LexLess(Key(c), Key(a)) {
      LexLessTotal(Key(c), Key(b));
      if LexLess(Key(b), Key(c)) {
        LexLessTransitive(Key(b), Key(c), Key(a));
      }
    }
  }

  ghost predicate SortedByName(s: seq<Hero>)
  {
    forall p, q :: 0 <= p < q < |s| ==> NameLeq(s[p], s[q])
  }

  /** The records of `s` whose lower-cased name is `k`, in the order `s`
      holds them. A stable sort keeps every such subsequence as it was. */
  function WithKey(s: seq<Hero>, k: string): seq<Hero>
  {
    if s == [] then [] else (if Key(s[0]) == k then [s[0]] else []) + WithKey(s[1..], k)
  }

  lemma {:induction false} WithKeyAppend(a: seq<Hero>, b: seq<Hero>, k: string)
    ensures WithKey(a + b, k) == WithKey(a, k) + WithKey(b, k)
  {
    if a == [] {
      assert a + b == b;
    } else {
      assert (a + b)[1..] == a[1..] + b;
      WithKeyAppend(a[1..], b, k);
    }
  }

  lemma {:induction false} WithKeyMember(s: seq<Hero>, k: string, h: Hero)
    requires h in WithKey(s, k)
    ensures Key(h) == k && h in s
  {
    if s != [] && !(h == s[0] && Key(s[0]) == k) {
      WithKeyMember(s[1..], k, h);
    }
  }

  /** The first record of a non-empty sequence heads its own key class and
      is absent from every other one. */
  lemma WithKeyHead(s: seq<Hero>)
    ensures s != [] ==> WithKey(s, Key(s[0])) == [s[0]] + WithKey(s[1..], Key(s[0]))
    ensures s != [] ==> forall k :: k != Key(s[0]) ==> WithKey(s, k) == WithKey(s[1..], k)
  {
  }

  /** In a sequence sorted by name no record's key is below the first
      one's. */
  lemma HeadKeyLeast(s: seq<Hero>, i: int)
    requires SortedByName(s) && 0 <= i < |s|
    ensures !LexLess(Key(s[i]), Key(s[0]))
  {
    assert i == 0 || NameLeq(s[0], s[i]);
  }

  /** Two non-empty sequences sorted by name with the same equal-name
      subsequences start with the same record. */
  lemma SortedHeadsAgree(a: seq<Hero>, b: seq<Hero>)
    requires a != [] && b != [] && SortedByName(a) && SortedByName(b)
    requires forall k :: WithKey(a, k) == WithKey(b, k)
    ensures a[0] == b[0]
  {
    var ka, kb := Key(a[0]), Key(b[0]);
    WithKeyHead(a);
    WithKeyHead(b);
    assert WithKey(b, ka) == [a[0]] + WithKey(a[1..], ka);
    assert WithKey(a, kb) == [b[0]] + WithKey(b[1..], kb);
    WithKeyMember(b, ka, a[0]);
    WithKeyMember(a, kb, b[0]);
    var i :| 0 <= i < |b| && b[i] == a[0];
    var j :| 0 <= j < |a| && a[j] == b[0];
    HeadKeyLeast(b, i);
    HeadKeyLeast(a, j);
    assert ka == kb by {
      LexLessTotal(ka, kb);
    }
    calc {
      a[0];
      ([a[0]] + WithKey(a[1..], ka))[0];
      WithKey(b, ka)[0];
      WithKey(a, kb)[0];
      ([b[0]] + WithKey(b[1..], kb))[0];
      b[0];
    }
  }

  /** A stable sort by name has exactly one possible result: two sequences
      sorted by name with the same equal-name subsequences are equal. So the
      sort's contract fixes the order of the store completely. */
  lemma {:induction false} StableSortUnique(a: seq<Hero>, b: seq<Hero>)
    requires SortedByName(a) && SortedByName(b)
    requires forall k :: WithKey(a, k) == WithKey(b, k)
    ensures a == b
    decreases |a|
  {
    WithKeyHead(a);
    WithKeyHead(b);
    if a != [] && b != [] {
      SortedHeadsAgree(a, b);
      forall k
        ensures WithKey(a[1..], k) == WithKey(b[1..], k)
      {
        assert WithKey(a, k) == WithKey(b, k);
        if k == Key(a[0]) {
          assert ([a[0]] + WithKey(a[1..], k))[1..] == WithKey(a[1..], k);
          assert ([b[0]] + WithKey(b[1..], k))[1..] == WithKey(b[1..], k);
        }
      }
      StableSortUnique(a[1..], b[1..]);
      assert a == [a[0]] + a[1..] && b == [b[0]] + b[1..];
    }
  }

  /** `s` with the neighbours at `j` and `j + 1` exchanged. */
  function Swapped(s: seq<Hero>, j: nat): seq<Hero>
    requires j + 1 < |s|
  {
    s[j := s[j + 1]][j + 1 := s[j]]
  }

  /** Two records with different keys may trade places without disturbing
      any equal-name subsequence. */
  lemma PairKeyClasses(a: Hero, b: Hero, k: string)
    requires Key(a) != Key(b)
    ensures WithKey([a, b], k) == WithKey([b, a], k)
  {
    assert [a, b][1..] == [b] && [b, a][1..] == [a];
    assert [b][1..] == [] && [a][1..] == [];
  }

  /** Exchanging neighbours with different keys keeps every equal-name
      subsequence. */
  lemma SwapKeepsKeyClasses(s: seq<Hero>, j: nat, k: string)
    requires j + 1 < |s| && Key(s[j]) != Key(s[j + 1])
    ensures WithKey(Swapped(s, j), k) == WithKey(s, k)
  {
    var front, back := s[..j], s[j + 2..];
    assert s == (front + [s[j], s[j + 1]]) + back;
    assert Swapped(s, j) == (front + [s[j + 1], s[j]]) + back;
    WithKeyAppend(front + [s[j], s[j + 1]], back, k);
    WithKeyAppend(front, [s[j], s[j + 1]], k);
    WithKeyAppend(front + [s[j + 1], s[j]], back, k);
    WithKeyAppend(front, [s[j + 1], s[j]], k);
    PairKeyClasses(s[j], s[j + 1], k);
  }

  /** One exchange of the bubble sort: it happens only when the left name is
      strictly greater, so it permutes the records, keeps every equal-name
      subsequence in order, and leaves the pair in order. */
  lemma SwapStep(s: seq<Hero>, j: nat)
    requires j + 1 < |s| && LexLess(Key(s[j + 1]), Key(s[j]))
    ensures multiset(Swapped(s, j)) == multiset(s)
    ensures forall k :: WithKey(Swapped(s, j), k) == WithKey(s, k)
    ensures NameLeq(Swapped(s, j)[j], Swapped(s, j)[j + 1])
    ensures DistinctRanks(s) ==> DistinctRanks(Swapped(s, j))
  {
    LexLessAsymmetric(Key(s[j + 1]), Key(s[j]));
    forall k
      ensures WithKey(Swapped(s, j), k) == WithKey(s, k)
    {
      SwapKeepsKeyClasses(s, j, k);
    }
    SwapPermutes(s, j);
  }

  /** An exchange of neighbours only reorders the records: the same multiset,
      and ranks that were distinct stay distinct. */
  lemma SwapPermutes(s: seq<Hero>, j: nat)
    requires j + 1 < |s|
    ensures multiset(Swapped(s, j)) == multiset(s)
    ensures DistinctRanks(s) ==> DistinctRanks(Swapped(s, j))
  {
    var t := Swapped(s, j);
    assert s == s[..j] + [s[j], s[j + 1]] + s[j + 2..];
    assert t == s[..j] + [s[j + 1], s[j]] + s[j + 2..];
    if DistinctRanks(s) {
      forall p, q | 0 <= p < q < |t|
        ensures t[p].rank != t[q].rank
      {
        var p' := if p == j then j + 1 else if p == j + 1 then j else p;
        var q' := if q == j then j + 1 else if q == j + 1 then j else q;
        assert t[p] == s[p'] && t[q] == s[q'] && p' != q';
      }
    }
  }

  /** After a bubble-sort pass the slots from `m` on hold the greatest names
      in order: sorted among themselves and no smaller than any before `m`. */
  ghost predicate SuffixSorted(s: seq<Hero>, m: int)
  {
    && (forall p, q :: 0 <= p && m <= p < q < |s| ==> NameLeq(s[p], s[q]))
    && (forall p, q :: 0 <= p < m <= q < |s| ==> NameLeq(s[p], s[q]))
  }

  /** Within a pass: slot `j` holds the greatest name of slots [0, j]. */
  ghost predicate GreatestAt(s: seq<Hero>, j: int)
    requires 0 <= j < |s|
  {
    forall p :: 0 <= p < j ==> NameLeq(s[p], s[j])
  }

  /** The inner step of the bubble sort, in both of its branches. */
  lemma BubbleStep(s: seq<Hero>, j: nat, m: nat)
    requires j + 1 < m <= |s| && SuffixSorted(s, m) && GreatestAt(s, j)
    ensures LexLess(Key(s[j + 1]), Key(s[j])) ==>
              SuffixSorted(Swapped(s, j), m) && GreatestAt(Swapped(s, j), j + 1)
    ensures !LexLess(Key(s[j + 1]), Key(s[j])) ==> GreatestAt(s, j + 1)
  {
    if LexLess(Key(s[j + 1]), Key(s[j])) {
      SwapStep(s, j);
    } else {
      forall p | 0 <= p < j
        ensures NameLeq(s[p], s[j + 1])
      {
        NameLeqTransitive(s[p], s[j], s[j + 1]);
      }
    }
  }

  /** The end of a pass: the greatest name of [0, m) sits at m - 1, so the
      sorted suffix grows by one. */
  lemma PassDone(s: seq<Hero>, m: nat)
    requires 0 < m <= |s| && SuffixSorted(s, m) && GreatestAt(s, m - 1)
    ensures SuffixSorted(s, m - 1)
  {
  }

  // ---------------------------------------------------------------- ranks

  ghost predicate DistinctRanks(s: seq<Hero>)
  {
    forall p, q :: 0 <= p < q < |s| ==> s[p].rank != s[q].rank
  }

  /** Some live record already has rank `r`. */
  predicate RankInUse(s: seq<Hero>, r: int)
  {
    exists i :: 0 <= i < |s| && s[i].rank == r
  }

  /** Appending a record whose rank is not in use keeps ranks distinct. */
  lemma AppendKeepsRanksDistinct(s: seq<Hero>, h: Hero)
    requires DistinctRanks(s) && !RankInUse(s, h.rank)
    ensures DistinctRanks(s + [h])
  {
    forall p, q | 0 <= p < q < |s| + 1
      ensures (s + [h])[p].rank != (s + [h])[q].rank
    {
      if q == |s| {
        assert (s + [h])[p] == s[p];
      }
    }
  }

  /** `o` lists every index of `s` exactly once, by non-decreasing rank. */
  ghost predicate IsRankOrder(s: seq<Hero>, o: seq<nat>)
  {
    && |o| == |s|
    && (forall p :: 0 <= p < |o| ==> o[p] < |s|)
    && (forall i :: 0 <= i < |s| ==> i in o)
    && (forall p, q :: 0 <= p < q < |o| ==> o[p] != o[q])
    && (forall p, q :: 0 <= p < q < |o| ==> s[o[p]].rank <= s[o[q]].rank)
  }

  /** Two rank orders of the same records agree on every position before `p`. */
  lemma {:induction false} RankOrderPrefix(s: seq<Hero>, o1: seq<nat>, o2: seq<nat>, p: nat)
    requires DistinctRanks(s) && IsRankOrder(s, o1) && IsRankOrder(s, o2) && p <= |o1|
    ensures forall k :: 0 <= k < p ==> o1[k] == o2[k]
  {
    if p > 0 {
      var k := p - 1;
      RankOrderPrefix(s, o1, o2, k);
      var x, y := o1[k], o2[k];
      assert x in o2 && y in o1;
      var qx :| 0 <= qx < |o2| && o2[qx] == x;
      var qy :| 0 <= qy < |o1| && o1[qy] == y;
      // before k the orders agree, and each order holds x (or y) only once
      assert k <= qx && k <= qy;
      assert s[y].rank <= s[x].rank && s[x].rank <= s[y].rank;
    }
  }

  /** A record ranked behind every other one comes last in any rank order,
      whatever its slot. */
  lemma RankOrderLast(s: seq<Hero>, o: seq<nat>, x: nat)
    requires IsRankOrder(s, o) && x < |s|
    requires forall i :: 0 <= i < |s| && i != x ==> s[i].rank < s[x].rank
    ensures o[|o| - 1] == x
  {
    assert x in o;
  }

  /** With distinct ranks there is only one rank order, so the view does not
      depend on how the sort breaks ties. */
  lemma RankOrderUnique(s: seq<Hero>, o1: seq<nat>, o2: seq<nat>)
    requires DistinctRanks(s) && IsRankOrder(s, o1) && IsRankOrder(s, o2)
    ensures o1 == o2
  {
    RankOrderPrefix(s, o1, o2, |o1|);
  }
}
