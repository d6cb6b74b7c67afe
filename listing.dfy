/** The store side of every listing: the records a filter selects, ordered by
    `fechaCreacion` descending (`sort({ fechaCreacion: -1 })`), and the page
    slicing of the Media listing. A selection is handed over as a map from the
    selected ids to their creation stamps. */
module Listing {
  import opened Models

  predicate Distinct(s: seq<Id>)
  {
    forall i, j :: 0 <= i < j < |s| ==> s[i] != s[j]
  }

  predicate Covered(stamps: map<Id, Stamp>, s: seq<Id>)
  {
    forall i :: 0 <= i < |s| ==> s[i] in stamps
  }

  /** Most recently created first. */
  predicate Descending(stamps: map<Id, Stamp>, s: seq<Id>)
    requires Covered(stamps, s)
  {
    forall i, j :: 0 <= i < j < |s| ==> stamps[s[i]] >= stamps[s[j]]
  }

  /** The selected ids below `n`, in ascending order. */
  function KeysBelow(stamps: map<Id, Stamp>, n: nat): (r: seq<Id>)
    ensures forall k :: k in r <==> k in stamps && k < n
    ensures forall i, j :: 0 <= i < j < |r| ==> r[i] < r[j]
    decreases n
  {
    if n == 0 then []
    else
      var prefix := KeysBelow(stamps, n - 1);
      if n - 1 in stamps then
        assert forall i :: 0 <= i < |prefix| ==> prefix[i] in prefix;
        prefix + [n - 1]
      else prefix
  }

  lemma {:induction false} DistinctCard(s: seq<Id>)
    requires Distinct(s)
    ensures |set x: Id | x in s| == |s|
  {
    if s != [] {
      var init := s[..|s| - 1];
      assert Distinct(init);
      DistinctCard(init);
      var last := s[|s| - 1];
      assert s == init + [last];
      assert last !in init;
      var before := set x: Id | x in init;
      assert (set x: Id | x in s) == before + {last};
      assert last !in before;
      assert |before| == |init|;
      assert |before + {last}| == |before| + 1;
      assert |s| == |init| + 1;
    }
  }

  /** Places `k` before the first element created no later than it. */
  function InsertByStamp(stamps: map<Id, Stamp>, k: Id, s: seq<Id>): (r: seq<Id>)
    requires k in stamps && Covered(stamps, s) && Descending(stamps, s)
    ensures Covered(stamps, r) && Descending(stamps, r)
    ensures multiset(r) == multiset(s) + multiset{k}
    ensures |r| == |s| + 1
  {
    if s == [] then [k]
    else if stamps[s[0]] <= stamps[k] then
      ConsDescending(stamps, k, s);
      [k] + s
    else
      var rest := InsertByStamp(stamps, k, s[1..]);
      var others := s[1..] + [k];
      assert multiset(others) == multiset(s[1..]) + multiset{k};
      assert multiset(others) == multiset(rest);
      assert forall i :: 0 <= i < |others| ==> stamps[others[i]] <= stamps[s[0]] by {
        forall i | 0 <= i < |others| ensures stamps[others[i]] <= stamps[s[0]] {
          if i < |s| - 1 {
            assert others[i] == s[i + 1];
          }
        }
      }
      BoundByMultiset(stamps, stamps[s[0]], others, rest);
      ConsDescending(stamps, s[0], rest);
      assert s == [s[0]] + s[1..];
      assert multiset(s) == multiset{s[0]} + multiset(s[1..]);
      assert multiset([s[0]] + rest) == multiset{s[0]} + multiset(rest);
      [s[0]] + rest
  }

  /** An id created no earlier than every entry of a newest-first list can be
      put in front of it. */
  lemma ConsDescending(stamps: map<Id, Stamp>, x: Id, t: seq<Id>)
    requires x in stamps && Covered(stamps, t) && Descending(stamps, t)
    requires t != [] ==> stamps[t[0]] <= stamps[x]
    ensures Covered(stamps, [x] + t) && Descending(stamps, [x] + t)
  {
    var r := [x] + t;
    forall i, j | 0 <= i < j < |r| ensures stamps[r[i]] >= stamps[r[j]] {
      assert r[j] == t[j - 1];
      if i == 0 {
        assert stamps[t[0]] >= stamps[t[j - 1]] || j - 1 == 0;
      } else {
        assert r[i] == t[i - 1];
      }
    }
  }

  /** A bound on the stamps of a list holds for any list with the same ids. */
  lemma {:induction false} BoundByMultiset(stamps: map<Id, Stamp>, b: Stamp, s: seq<Id>, t: seq<Id>)
    requires Covered(stamps, s) && Covered(stamps, t) && multiset(t) == multiset(s)
    requires forall i :: 0 <= i < |s| ==> stamps[s[i]] <= b
    ensures forall j :: 0 <= j < |t| ==> stamps[t[j]] <= b
  {
    forall j | 0 <= j < |t| ensures stamps[t[j]] <= b {
      assert t[j] in multiset(t);
      assert t[j] in multiset(s);
      var m :| 0 <= m < |s| && s[m] == t[j];
    }
  }

  /** Insertion sort by creation stamp, most recent first. */
  function SortByCreation(stamps: map<Id, Stamp>, s: seq<Id>): (r: seq<Id>)
    requires Covered(stamps, s)
    ensures Covered(stamps, r) && Descending(stamps, r)
    ensures multiset(r) == multiset(s)
    ensures |r| == |s|
  {
    if s == [] then []
    else
      assert s == [s[0]] + s[1..];
      InsertByStamp(stamps, s[0], SortByCreation(stamps, s[1..]))
  }

  lemma {:induction false} DistinctByMultiset(s: seq<Id>, t: seq<Id>)
    requires multiset(s) == multiset(t) && Distinct(t)
    ensures Distinct(s)
  {
    forall i, j | 0 <= i < j < |s| ensures s[i] != s[j] {
      if s[i] == s[j] {
        var x := s[i];
        assert s == s[..j] + [s[j]] + s[j+1..];
        assert x in s[..j];
        assert multiset(s)[x] >= 2;
        MultiplicityAtMostOne(t, x);
        assert false;
      }
    }
  }

  lemma {:induction false} MultiplicityAtMostOne(t: seq<Id>, x: Id)
    requires Distinct(t)
    ensures multiset(t)[x] <= 1
  {
    if t != [] {
      var last := t[|t| - 1];
      assert t == t[..|t| - 1] + [last];
      assert Distinct(t[..|t| - 1]);
      MultiplicityAtMostOne(t[..|t| - 1], x);
      if x == last {
        assert x !in t[..|t| - 1];
      }
    }
  }

  /** Every selected record, each exactly once, most recently created first:
      what `find(filtro).sort({ fechaCreacion: -1 })` returns when every id
      is below `n`. Records created at the same instant come out in an order
      this function fixes. */
  function Ordered(stamps: map<Id, Stamp>, n: nat): (r: seq<Id>)
    requires forall k :: k in stamps ==> k < n
    ensures forall k :: k in r <==> k in stamps
    ensures Distinct(r)
    ensures |r| == |stamps|
    ensures Covered(stamps, r) && Descending(stamps, r)
  {
    var keys := KeysBelow(stamps, n);
    var r := SortByCreation(stamps, keys);
    DistinctByMultiset(r, keys);
    assert forall k :: k in r <==> k in multiset(keys);
    assert (set x: Id | x in r) == stamps.Keys;
    DistinctCard(r);
    r
  }

  /** The first ordinal of page `page` (1-based) of `limit` entries. */
  function Skip(page: nat, limit: nat): nat
    requires page >= 1
  {
    (page - 1) * limit
  }

  /** The page-th slice `[(page-1)*limit, page*limit)` of `s`, cut to `s`. */
  function Page<T>(s: seq<T>, page: nat, limit: nat): (r: seq<T>)
    requires page >= 1 && limit >= 1
    ensures |r| <= limit
    ensures |r| == if Skip(page, limit) >= |s| then 0
                   else if |s| - Skip(page, limit) < limit then |s| - Skip(page, limit)
                   else limit
    ensures forall i :: 0 <= i < |r| ==> Skip(page, limit) + i < |s| && r[i] == s[Skip(page, limit) + i]
  {
    var lo := Skip(page, limit);
    if lo >= |s| then []
    else if |s| - lo < limit then s[lo..]
    else s[lo..lo + limit]
  }

  /** A page of a listing keeps the listing's order and holds no id twice. */
  lemma PageKeepsOrder(stamps: map<Id, Stamp>, s: seq<Id>, page: nat, limit: nat)
    requires page >= 1 && limit >= 1
    requires Covered(stamps, s) && Distinct(s) && Descending(stamps, s)
    ensures var r := Page(s, page, limit);
      Covered(stamps, r) && Distinct(r) && Descending(stamps, r)
  {
    var r := Page(s, page, limit);
    var lo := Skip(page, limit);
    forall i, j | 0 <= i < j < |r|
      ensures r[i] in stamps && r[i] != r[j] && stamps[r[i]] >= stamps[r[j]]
    {
      assert r[i] == s[lo + i] && r[j] == s[lo + j];
    }
  }

  /** `ceil(total / limit)`: the number of pages of `limit` entries that
      hold `total` entries. */
  function PageCount(total: nat, limit: nat): (r: nat)
    requires limit >= 1
    ensures r * limit >= total
    ensures r == 0 || (r - 1) * limit < total
  {
    (total + limit - 1) / limit
  }

  /** Every entry of the whole listing is on exactly the page its position
      says, and that page is within the page count. */
  lemma EntryOnItsPage<T>(s: seq<T>, limit: nat, i: nat)
    requires limit >= 1 && i < |s|
    ensures var page := i / limit + 1;
      && 1 <= page <= PageCount(|s|, limit)
      && Skip(page, limit) <= i
      && i - Skip(page, limit) < |Page(s, page, limit)|
      && Page(s, page, limit)[i - Skip(page, limit)] == s[i]
  {
    var page := i / limit + 1;
    assert Skip(page, limit) == (i / limit) * limit;
    assert (i / limit) * limit <= i < (i / limit) * limit + limit;
  }

  /** 25 entries in pages of 10: three pages, the first full, the last
      holding the remaining five, nothing beyond. */
  lemma PagesOfTenExample<T>(s: seq<T>)
    requires |s| == 25
    ensures PageCount(|s|, 10) == 3
    ensures |Page(s, 1, 10)| == 10 && Page(s, 1, 10) == s[..10]
    ensures |Page(s, 3, 10)| == 5 && Page(s, 3, 10) == s[20..]
    ensures Page(s, 4, 10) == []
  {
  }
}
