/** The superhero store: parallel fixed-size arrays for the columns and a
    counter of live slots, with the operations the menu calls. */
module Database {
  import opened AsciiText
  import opened Heroes

  /** Capacity of every column. */
  const MAX_HEROES := 50

  /** The ten records the store starts with, slot by slot. */
  const SEED: seq<Hero> := [
    Hero("ForgetMeNot", "People forget he exists unless looking at him",
         "Isolation due to his power", "2014", "Marvel", 7),
    Hero("Hindsight Lad", "Can analyze battles after they happen",
         "Only useful after the fact", "1993", "Marvel", 5),
    Hero("Skin", "Has six extra feet of stretchable skin",
         "Gray pallor, hygiene issues", "1994", "Marvel", 6),
    Hero("Bailey Hoskins", "Can create a massive explosion",
         "The explosion kills him", "2016", "Marvel", 8),
    Hero("Apalla", "Manifestation of Earth's sun, heat blasts",
         "Lost power and memory", "1977", "Marvel", 4),
    Hero("Alpha", "Hyperkinetic energy manipulation",
         "Reckless use of power", "2012", "Marvel", 9),
    Hero("Lionheart", "Super strength, sword combat",
         "Cannot reunite with her children", "2004", "Marvel", 3),
    Hero("Krypto", "Super strength, flight",
         "Still has a dog's intelligence", "1955", "DC", 10),
    Hero("Plastic Man", "Extreme elasticity, shape-shifting",
         "Vulnerable to extreme cold", "1941", "DC", 2),
    Hero("Mr. Immortal", "Cannot die, resurrects instantly",
         "No other powers, reckless", "1989", "Marvel", 1)
  ]

  /** What an unused slot holds: empty strings and rank 0. */
  const EMPTY_SLOT := Hero("", "", "", "", "", 0)

  /** The seed ranks, slot by slot. */
  lemma SeedRanks()
    ensures |SEED| == 10
    ensures SEED[0].rank == 7 && SEED[1].rank == 5 && SEED[2].rank == 6 && SEED[3].rank == 8
    ensures SEED[4].rank == 4 && SEED[5].rank == 9 && SEED[6].rank == 3 && SEED[7].rank == 10
    ensures SEED[8].rank == 2 && SEED[9].rank == 1
  {
  }

  /** Every seed rank is at most 10. */
  lemma SeedRanksBelow()
    ensures |SEED| == 10
    ensures forall i :: 0 <= i < |SEED| ==> SEED[i].rank <= 10
  {
    SeedRanks();
  }

  lemma SeedRanksDistinct()
    ensures DistinctRanks(SEED)
  {
    SeedRanks();
  }

  /** `o` holds distinct indices below `n`, ordered by non-decreasing
      `ranks`. */
  ghost predicate IndexOrder(o: seq<nat>, ranks: seq<int>, n: int)
  {
    && n <= |ranks|
    && (forall p :: 0 <= p < |o| ==> o[p] < n)
    && (forall p, q :: 0 <= p < q < |o| ==> o[p] != o[q])
    && (forall p, q :: 0 <= p < q < |o| ==> ranks[o[p]] <= ranks[o[q]])
  }

  /** `o` with `x` inserted at position `pos`. */
  function InsertAt(o: seq<nat>, pos: nat, x: nat): (r: seq<nat>)
    requires pos <= |o|
    ensures |r| == |o| + 1
    ensures forall p :: 0 <= p < pos ==> r[p] == o[p]
    ensures r[pos] == x
    ensures forall p :: pos < p < |r| ==> r[p] == o[p - 1]
  {
    o[..pos] + [x] + o[pos..]
  }

  /** Insertion adds `x` and keeps everything else. */
  lemma InsertAtMembers(o: seq<nat>, pos: nat, x: nat)
    requires pos <= |o|
    ensures forall y :: y in InsertAt(o, pos, x) <==> y in o || y == x
  {
    var r := InsertAt(o, pos, x);
    forall y
      ensures y in r <==> y in o || y == x
    {
      if y in o {
        var p :| 0 <= p < |o| && o[p] == y;
        assert r[if p < pos then p else p + 1] == y;
      }
      if y in r {
        var p :| 0 <= p < |r| && r[p] == y;
        assert p < pos ==> o[p] == y;
        assert p > pos ==> o[p - 1] == y;
      }
    }
  }

  /** Inserting a new index before the first one of greater rank keeps an
      index order. */
  lemma InsertByRank(o: seq<nat>, pos: nat, x: nat, ranks: seq<int>, n: int)
    requires IndexOrder(o, ranks, n) && x < n && x !in o && pos <= |o|
    requires forall p :: 0 <= p < pos ==> ranks[o[p]] <= ranks[x]
    requires pos < |o| ==> ranks[x] < ranks[o[pos]]
    ensures IndexOrder(InsertAt(o, pos, x), ranks, n)
  {
    var r := InsertAt(o, pos, x);
    forall p, q | 0 <= p < q < |r|
      ensures r[p] != r[q] && ranks[r[p]] <= ranks[r[q]]
    {
      if q == pos {
        assert r[p] == o[p];
      } else if p == pos {
        assert r[q] == o[q - 1];
        assert ranks[o[pos]] <= ranks[o[q - 1]] || q - 1 == pos;
      } else if q < pos {
        assert r[p] == o[p] && r[q] == o[q];
      } else if p < pos {
        assert r[p] == o[p] && r[q] == o[q - 1];
      } else {
        assert r[p] == o[p - 1] && r[q] == o[q - 1];
      }
    }
  }

  class HeroDatabase {
    const names: array<string>
    const powers: array<string>
    const weaknesses: array<string>
    /** Column 0: year introduced; column 1: comic universe. */
    const extraData: array2<string>
    const ranking: array<int>
    /** `superheroCount`: slots [0, count) are live. */
    var count: int

    /** Every column has MAX_HEROES slots, and the three string columns are
        three different arrays. */
    ghost predicate Shaped()
    {
      && names.Length == MAX_HEROES && powers.Length == MAX_HEROES
      && weaknesses.Length == MAX_HEROES && ranking.Length == MAX_HEROES
      && extraData.Length0 == MAX_HEROES && extraData.Length1 == 2
      && names != powers && names != weaknesses && powers != weaknesses
    }

    /** The record held across the columns at slot `i`. */
    ghost function Slot(i: int): Hero
      reads names, powers, weaknesses, extraData, ranking
      requires Shaped() && 0 <= i < MAX_HEROES
    {
      Hero(names[i], powers[i], weaknesses[i], extraData[i, 0], extraData[i, 1], ranking[i])
    }

    /** All MAX_HEROES slots, live or not, as records. */
    ghost function Slots(): (s: seq<Hero>)
      reads names, powers, weaknesses, extraData, ranking
      requires Shaped()
      ensures |s| == MAX_HEROES
      ensures forall i :: 0 <= i < MAX_HEROES ==> s[i] == Slot(i)
    {
      seq(MAX_HEROES, i reads names, powers, weaknesses, extraData, ranking
                        requires Shaped() && 0 <= i < MAX_HEROES => Slot(i))
    }

    /** The columns are in shape and the count is within capacity. */
    ghost predicate Live()
      reads this
    {
      Shaped() && 0 <= count <= MAX_HEROES
    }

    /** The live records, in slot order. */
    ghost function Records(): (s: seq<Hero>)
      reads this, names, powers, weaknesses, extraData, ranking
      requires Live()
      ensures |s| == count
      ensures forall i :: 0 <= i < count ==> s[i] == Slot(i)
    {
      Slots()[..count]
    }

    /** The store invariant: the count is within capacity and the live
        records have pairwise distinct ranks. */
    ghost predicate Valid()
      reads this, names, powers, weaknesses, extraData, ranking
      ensures Valid() ==> 0 <= count <= MAX_HEROES == ranking.Length
      ensures Valid() ==> forall p, q :: 0 <= p < q < count ==> ranking[p] != ranking[q]
    {
      Live() &&
      var live := Records();
      // the rank of live record p is ranking[p]
      assert forall p :: 0 <= p < count ==> live[p].rank == ranking[p];
      DistinctRanks(live)
    }

    /** The store as the program starts it: the ten seed records, every
        other slot empty. */
    constructor ()
      ensures Valid() && fresh(names) && fresh(powers) && fresh(weaknesses)
      ensures fresh(extraData) && fresh(ranking)
      ensures Records() == SEED
      ensures forall i :: count <= i < MAX_HEROES ==> Slot(i) == EMPTY_SLOT
    {
      names := new string[MAX_HEROES](_ => "");
      powers := new string[MAX_HEROES](_ => "");
      weaknesses := new string[MAX_HEROES](_ => "");
      extraData := new string[MAX_HEROES, 2]((_, _) => "");
      ranking := new int[MAX_HEROES](_ => 0);
      count := |SEED|;
      new;
      for i := 0 to |SEED|
        invariant Shaped() && count == |SEED|
        invariant forall p :: 0 <= p < MAX_HEROES ==> Slots()[p] == if p < i then SEED[p] else EMPTY_SLOT
      {
        WriteSlot(i, SEED[i]);
      }
      assert Slots()[..count] == SEED;
      SeedRanksDistinct();
    }

    /** `displayHero(index, toUpper)`: the rendering of the six columns of
        one slot. */
    function DisplayHero(index: int, toUpper: bool): (v: Hero)
      reads names, powers, weaknesses, extraData, ranking
      requires Shaped() && 0 <= index < MAX_HEROES
      ensures v == Render(Slot(index), toUpper)
    {
      Render(Hero(names[index], powers[index], weaknesses[index],
                  extraData[index, 0], extraData[index, 1], ranking[index]), toUpper)
    }

    /** `displayAllHeroes(toUpper)`: every live record rendered, in slot order. */
    method DisplayAllHeroes(toUpper: bool) returns (views: seq<Hero>)
      requires Live()
      ensures |views| == count
      ensures forall i :: 0 <= i < count ==> views[i] == Render(Records()[i], toUpper)
    {
      views := [];
      for i := 0 to count
        invariant |views| == i
        invariant forall p :: 0 <= p < i ==> views[p] == Render(Records()[p], toUpper)
      {
        views := views + [DisplayHero(i, toUpper)];
      }
    }

    /** `searchByName`: the live slots whose name contains the query, case
        ignored, in slot order; `found` is false exactly when there are none. */
    method SearchByName(query: string) returns (hits: seq<nat>, found: bool)
      requires Live()
      ensures hits == Hits(Records(), Name, query)
      ensures found <==> hits != []
    {
      var sName := ToLowercase(query);
      hits, found := [], false;
      ghost var live := Records();
      for i := 0 to count
        invariant hits == Hits(live[..i], Name, query)
        invariant found <==> hits != []
      {
        HitsStep(live, Name, query, i);
        var isHit := Contains(ToLowercase(names[i]), sName);
        assert isHit == Matches(FieldOf(live[i], Name), query) by {
          assert live[i].name == names[i];
        }
        if isHit {
          hits := hits + [i];
          found := true;
        }
      }
      assert live[..count] == live;
    }

    /** `searchByPower`: as SearchByName, over the superpower column. */
    method SearchByPower(key: string) returns (hits: seq<nat>, found: bool)
      requires Live()
      ensures hits == Hits(Records(), Power, key)
      ensures found <==> hits != []
    {
      var sKey := ToLowercase(key);
      hits, found := [], false;
      ghost var live := Records();
      for i := 0 to count
        invariant hits == Hits(live[..i], Power, key)
        invariant found <==> hits != []
      {
        HitsStep(live, Power, key, i);
        var isHit := Contains(ToLowercase(powers[i]), sKey);
        assert isHit == Matches(FieldOf(live[i], Power), key) by {
          assert live[i].power == powers[i];
        }
        if isHit {
          hits := hits + [i];
          found := true;
        }
      }
      assert live[..count] == live;
    }

    /** The six `swap` calls of the bubble sort: slots `j` and `j + 1`
        exchange whole records. */
    method SwapHeroes(j: int)
      requires Live() && 0 <= j && j + 1 < count
      modifies names, powers, weaknesses, extraData, ranking
      ensures Slots() == Swapped(old(Slots()), j)
      ensures Records() == Swapped(old(Records()), j)
      ensures Slots()[count..] == old(Slots())[count..]
    {
      ghost var before := Slots();
      names[j], names[j + 1] := names[j + 1], names[j];
      powers[j], powers[j + 1] := powers[j + 1], powers[j];
      weaknesses[j], weaknesses[j + 1] := weaknesses[j + 1], weaknesses[j];
      extraData[j, 0], extraData[j + 1, 0] := extraData[j + 1, 0], extraData[j, 0];
      extraData[j, 1], extraData[j + 1, 1] := extraData[j + 1, 1], extraData[j, 1];
      ranking[j], ranking[j + 1] := ranking[j + 1], ranking[j];
      assert Slot(j) == before[j + 1] && Slot(j + 1) == before[j];
      forall i | 0 <= i < MAX_HEROES && i != j && i != j + 1
        ensures Slot(i) == before[i]
      {
        assert names[i] == old(names[i]) && powers[i] == old(powers[i]);
        assert weaknesses[i] == old(weaknesses[i]) && ranking[i] == old(ranking[i]);
        assert extraData[i, 0] == old(extraData[i, 0]) && extraData[i, 1] == old(extraData[i, 1]);
      }
      assert Slots() == Swapped(before, j);
      assert Records() == Swapped(before[..count], j);
    }

    /** Writes the six columns of slot `i` from one record. */
    method WriteSlot(i: int, h: Hero)
      requires Shaped() && 0 <= i < MAX_HEROES
      modifies names, powers, weaknesses, extraData, ranking
      ensures Slots() == old(Slots())[i := h]
    {
      ghost var before := Slots();
      names[i] := h.name;
      powers[i] := h.power;
      weaknesses[i] := h.weakness;
      extraData[i, 0] := h.year;
      extraData[i, 1] := h.universe;
      ranking[i] := h.rank;
      forall k | 0 <= k < MAX_HEROES
        ensures Slot(k) == before[i := h][k]
      {
      }
    }

    /** `sortHeroesAlphabetically`: bubble sort of the live slots by
        lower-cased name, moving whole records. */
    method SortHeroesAlphabetically()
      requires Valid()
      modifies names, powers, weaknesses, extraData, ranking
      ensures Valid()
      ensures SortedByName(Records())
      ensures multiset(Records()) == multiset(old(Records()))
      ensures forall k :: WithKey(Records(), k) == WithKey(old(Records()), k)
      ensures Slots()[count..] == old(Slots())[count..]
    {
      var n := count;
      var i := 0;
      while i < n - 1
        invariant 0 <= i <= n && (n > 0 ==> i < n)
        invariant count == n && Valid()
        invariant multiset(Records()) == multiset(old(Records()))
        invariant forall k :: WithKey(Records(), k) == WithKey(old(Records()), k)
        invariant Slots()[n..] == old(Slots())[n..]
        invariant SuffixSorted(Records(), n - i)
      {
        BubblePass(n - i);
        i := i + 1;
      }
    }

    /** One pass of the outer loop of the bubble sort: the inner loop walks
        j over [0, m - 1) and exchanges slots j and j + 1 whenever the
        lower-cased name at j is strictly greater, which carries the
        greatest name of [0, m) to slot m - 1. */
    method BubblePass(m: int)
      requires Valid() && 2 <= m <= count && SuffixSorted(Records(), m)
      modifies names, powers, weaknesses, extraData, ranking
      ensures Valid() && SuffixSorted(Records(), m - 1)
      ensures multiset(Records()) == multiset(old(Records()))
      ensures forall k :: WithKey(Records(), k) == WithKey(old(Records()), k)
      ensures Slots()[count..] == old(Slots())[count..]
    {
      ghost var start, rest := Records(), Slots()[count..];
      for j := 0 to m - 1
        invariant Valid() && SuffixSorted(Records(), m) && GreatestAt(Records(), j)
        invariant multiset(Records()) == multiset(start)
        invariant forall k :: WithKey(Records(), k) == WithKey(start, k)
        invariant Slots()[count..] == rest
      {
        ghost var before := Records();
        BubbleStep(before, j, m);
        var greater := LexLess(ToLowercase(names[j + 1]), ToLowercase(names[j]));
        assert greater == LexLess(Key(before[j + 1]), Key(before[j]));
        if greater {
          SwapHeroes(j);
          SwapStep(before, j);
        }
      }
      PassDone(Records(), m);
    }

    /** The duplicate check of `addHero`: is `rank` held by a live slot? */
    method RankTaken(rank: int) returns (taken: bool)
      requires Live()
      ensures taken <==> RankInUse(Records(), rank)
    {
      taken := false;
      var i := 0;
      while i < count
        invariant 0 <= i <= count
        invariant forall p :: 0 <= p < i ==> ranking[p] != rank
      {
        if ranking[i] == rank {
          taken := true;
          break;
        }
        i := i + 1;
      }
      assert taken ==> Records()[i].rank == rank;
    }

    /** One attempt of `addHero` with the record the user typed in: refused
        when the store is full or the rank is taken, otherwise written to
        slot `count`, which then becomes live. */
    method AddHero(candidate: Hero) returns (outcome: AddOutcome)
      requires Valid()
      modifies this, names, powers, weaknesses, extraData, ranking
      ensures Valid()
      ensures outcome == Full <==> old(count) >= MAX_HEROES
      ensures outcome == DuplicateRank <==>
              old(count) < MAX_HEROES && RankInUse(old(Records()), candidate.rank)
      ensures outcome != Added ==> count == old(count) && Slots() == old(Slots())
      ensures outcome == Added ==> count == old(count) + 1
      ensures outcome == Added ==> Slots() == old(Slots())[old(count) := candidate]
      ensures outcome == Added ==> Records() == old(Records()) + [candidate]
    {
      if count >= MAX_HEROES {
        return Full;
      }
      var taken := RankTaken(candidate.rank);
      if taken {
        return DuplicateRank;
      }
      ghost var before := Records();
      ghost var slotsBefore := Slots();
      WriteSlot(count, candidate);
      count := count + 1;
      outcome := Added;
      assert Slots()[..count] == before + [candidate];
      AppendKeepsRanksDistinct(before, candidate);
    }

    /** Where the insertion sort puts index `x`: after every listed index of
        rank no greater than its own, before the first one of greater rank. */
    method InsertionPoint(order: seq<nat>, x: nat) returns (pos: nat)
      requires Shaped() && x < MAX_HEROES
      requires forall p :: 0 <= p < |order| ==> order[p] < MAX_HEROES
      ensures pos <= |order|
      ensures forall p :: 0 <= p < pos ==> ranking[order[p]] <= ranking[x]
      ensures pos < |order| ==> ranking[order[pos]] > ranking[x]
    {
      pos := 0;
      while pos < |order| && ranking[order[pos]] <= ranking[x]
        invariant pos <= |order|
        invariant forall p :: 0 <= p < pos ==> ranking[order[p]] <= ranking[x]
      {
        pos := pos + 1;
      }
    }

    /** `displayHeroesByRanking`: the live slot indices ordered by rank. The
        index vector is filled in slot order and then sorted by rank; the
        columns are only read. */
    method RankOrder() returns (order: seq<nat>)
      requires Live()
      ensures IsRankOrder(Records(), order)
    {
      var indices: seq<nat> := [];
      for i := 0 to count
        invariant indices == Indices(i)
      {
        indices := indices + [i];
      }
      // stands in for std::sort with the comparator ranking[a] < ranking[b]
      order := [];
      for k := 0 to |indices|
        invariant |order| == k
        invariant forall x :: x in order <==> 0 <= x < k
        invariant IndexOrder(order, ranking[..], count)
      {
        var x := indices[k];
        assert x == k && x !in order;
        var pos := InsertionPoint(order, x);
        InsertByRank(order, pos, x, ranking[..], count);
        InsertAtMembers(order, pos, x);
        order := InsertAt(order, pos, x);
      }
      assert forall p :: 0 <= p < |order| ==> Records()[order[p]].rank == ranking[order[p]];
    }
  }

  /** From the seed store, a new hero proposing Krypto's rank 10 is refused
      and the store keeps its ten records. */
  method DuplicateRankScenario()
  {
    var db := new HeroDatabase();
    SeedRanks();
    assert db.Records()[7].rank == 10;
    var outcome := db.AddHero(Hero("Squirrel Girl", "Talks to squirrels", "Underestimated", "1992", "Marvel", 10));
    assert outcome == DuplicateRank && db.Records() == SEED;
  }

  /** From the seed store, a new hero with rank 11 is stored as slot 10, and
      the rank view lists that slot last. */
  method RankViewScenario()
  {
    var db := new HeroDatabase();
    var hero := Hero("Squirrel Girl", "Talks to squirrels", "Underestimated", "1992", "Marvel", 11);
    SeedRanksBelow();
    var outcome := db.AddHero(hero);
    assert outcome == Added;
    var order := db.RankOrder();
    RankOrderLast(db.Records(), order, 10);
    assert order[10] == 10;
  }
}
