/** The insertion-ordered `defaultdict(list)` the generator builds for
    work and plan entries: a sequence of (key, details) pairs with
    distinct keys, in order of each key's first appearance.  Appending
    a detail under a key either extends that key's list or adds a new
    key at the end.
 */
module Groups {

  type Grouping = seq<(string, seq<string>)>
  type Pair = (string, string)

  function Keys(g: Grouping): (ks: seq<string>)
    ensures |ks| == |g|
    ensures forall i :: 0 <= i < |g| ==> ks[i] == g[i].0
  {
    seq(|g|, i requires 0 <= i < |g| => g[i].0)
  }

  predicate Distinct(xs: seq<string>) {
    forall i, j :: 0 <= i < j < |xs| ==> xs[i] != xs[j]
  }

  /** Every key owns at least one detail. */
  predicate NoEmptyGroup(g: Grouping) {
    forall i :: 0 <= i < |g| ==> |g[i].1| > 0
  }

  /** `g[k]` of a `defaultdict(list)`: the details of key `k`, or the
      empty list when `k` has none. */
  function Lookup(g: Grouping, k: string): seq<string>
  {
    if |g| == 0 then []
    else if g[0].0 == k then g[0].1
    else Lookup(g[1..], k)
  }

  /** All details, group after group. */
  function AllDetails(g: Grouping): seq<string>
  {
    if |g| == 0 then [] else g[0].1 + AllDetails(g[1..])
  }

  /** `d[k].append(v)` on a `defaultdict(list)`. */
  function Append(g: Grouping, k: string, v: string): Grouping
  {
    if |g| == 0 then [(k, [v])]
    else if g[0].0 == k then [(k, g[0].1 + [v])] + g[1..]
    else [g[0]] + Append(g[1..], k, v)
  }

  /** A new key goes to the end; a known key keeps its place. */
  lemma {:induction false} AppendKeys(g: Grouping, k: string, v: string)
    ensures Keys(Append(g, k, v)) == if k in Keys(g) then Keys(g) else Keys(g) + [k]
  {
    var r := Append(g, k, v);
    if |g| == 0 {
    } else if g[0].0 == k {
      assert Keys(r) == Keys(g);
    } else {
      AppendKeys(g[1..], k, v);
      assert Keys(g) == [g[0].0] + Keys(g[1..]);
      assert Keys(r) == [g[0].0] + Keys(Append(g[1..], k, v));
    }
  }

  /** The detail lands at the end of its key's list and nowhere else. */
  lemma {:induction false} AppendLookup(g: Grouping, k: string, v: string, k': string)
    ensures Lookup(Append(g, k, v), k') == if k' == k then Lookup(g, k') + [v] else Lookup(g, k')
  {
    if |g| > 0 && g[0].0 != k {
      AppendLookup(g[1..], k, v, k');
      assert Append(g, k, v)[1..] == Append(g[1..], k, v);
    } else if |g| > 0 {
      assert Append(g, k, v)[1..] == g[1..];
    }
  }

  /** The strings of `xs` in order of first appearance, each once. */
  function FirstSeen(xs: seq<string>): (r: seq<string>)
    ensures Distinct(r)
    ensures forall x :: x in r <==> x in xs
  {
    if |xs| == 0 then []
    else
      var prefix := FirstSeen(xs[..|xs| - 1]);
      assert forall x :: x in xs <==> x in xs[..|xs| - 1] || x == xs[|xs| - 1] by {
        assert xs == xs[..|xs| - 1] + [xs[|xs| - 1]];
      }
      if xs[|xs| - 1] in prefix then prefix else prefix + [xs[|xs| - 1]]
  }

  function PairKeys(pairs: seq<Pair>): seq<string>
  {
    if |pairs| == 0 then [] else PairKeys(pairs[..|pairs| - 1]) + [pairs[|pairs| - 1].0]
  }

  function PairValues(pairs: seq<Pair>): seq<string>
  {
    if |pairs| == 0 then [] else PairValues(pairs[..|pairs| - 1]) + [pairs[|pairs| - 1].1]
  }

  /** The values of the pairs whose key is `k`, in input order. */
  function DetailsOf(pairs: seq<Pair>, k: string): seq<string>
  {
    if |pairs| == 0 then []
    else
      DetailsOf(pairs[..|pairs| - 1], k)
      + (if pairs[|pairs| - 1].0 == k then [pairs[|pairs| - 1].1] else [])
  }

  /** Appending every pair in order to an empty `defaultdict(list)`. */
  function GroupPairs(pairs: seq<Pair>): Grouping
  {
    if |pairs| == 0 then []
    else
      var n := |pairs| - 1;
      Append(GroupPairs(pairs[..n]), pairs[n].0, pairs[n].1)
  }

  /** Keys come in order of first appearance, each once. */
  lemma {:induction false} GroupPairsKeys(pairs: seq<Pair>)
    ensures Keys(GroupPairs(pairs)) == FirstSeen(PairKeys(pairs))
    ensures Distinct(Keys(GroupPairs(pairs)))
  {
    if |pairs| > 0 {
      var n := |pairs| - 1;
      GroupPairsKeys(pairs[..n]);
      AppendKeys(GroupPairs(pairs[..n]), pairs[n].0, pairs[n].1);
    }
  }

  /** Each key's details are the values of its pairs, in input order; a
      key with no pair has none. */
  lemma {:induction false} GroupPairsLookup(pairs: seq<Pair>, k: string)
    ensures Lookup(GroupPairs(pairs), k) == DetailsOf(pairs, k)
  {
    if |pairs| > 0 {
      var n := |pairs| - 1;
      GroupPairsLookup(pairs[..n], k);
      AppendLookup(GroupPairs(pairs[..n]), pairs[n].0, pairs[n].1, k);
    }
  }

  lemma {:induction false} AppendKeepsGroupsNonEmpty(g: Grouping, k: string, v: string)
    requires NoEmptyGroup(g)
    ensures NoEmptyGroup(Append(g, k, v))
  {
    if |g| > 0 && g[0].0 != k {
      AppendKeepsGroupsNonEmpty(g[1..], k, v);
    }
  }

  lemma {:induction false} AppendAddsOneDetail(g: Grouping, k: string, v: string)
    ensures multiset(AllDetails(Append(g, k, v))) == multiset(AllDetails(g)) + multiset{v}
  {
    if |g| == 0 {
      assert AllDetails([(k, [v])]) == [v] + AllDetails([]);
    } else if g[0].0 == k {
      var r := Append(g, k, v);
      assert r[1..] == g[1..];
      assert AllDetails(r) == g[0].1 + [v] + AllDetails(g[1..]);
    } else {
      var r := Append(g, k, v);
      AppendAddsOneDetail(g[1..], k, v);
      assert r[1..] == Append(g[1..], k, v);
      assert AllDetails(r) == g[0].1 + AllDetails(Append(g[1..], k, v));
    }
  }

  /** Every group `GroupPairs` creates holds at least one detail. */
  lemma {:induction false} GroupsNeverEmpty(pairs: seq<Pair>)
    ensures NoEmptyGroup(GroupPairs(pairs))
  {
    if |pairs| > 0 {
      var n := |pairs| - 1;
      GroupsNeverEmpty(pairs[..n]);
      AppendKeepsGroupsNonEmpty(GroupPairs(pairs[..n]), pairs[n].0, pairs[n].1);
    }
  }

  /** Grouping neither drops nor duplicates a detail: the details of all
      groups together are the pairs' values, as a multiset. */
  lemma {:induction false} GroupingKeepsEveryDetail(pairs: seq<Pair>)
    ensures multiset(AllDetails(GroupPairs(pairs))) == multiset(PairValues(pairs))
  {
    if |pairs| > 0 {
      var n := |pairs| - 1;
      var prior := GroupPairs(pairs[..n]);
      assert GroupPairs(pairs) == Append(prior, pairs[n].0, pairs[n].1);
      GroupingKeepsEveryDetail(pairs[..n]);
      AppendAddsOneDetail(prior, pairs[n].0, pairs[n].1);
      assert PairValues(pairs) == PairValues(pairs[..n]) + [pairs[n].1];
      assert multiset(PairValues(pairs)) == multiset(PairValues(pairs[..n])) + multiset{pairs[n].1};
    }
  }

  /** When no key repeats, looking up the key of group `i` gives the
      details of group `i`. */
  lemma {:induction false} LookupFindsGroup(g: Grouping, i: int)
    requires Distinct(Keys(g)) && 0 <= i < |g|
    ensures Lookup(g, g[i].0) == g[i].1
  {
    if i > 0 {
      assert Keys(g[1..]) == Keys(g)[1..];
      assert g[0].0 == Keys(g)[0] != Keys(g)[i] == g[i].0;
      LookupFindsGroup(g[1..], i - 1);
    }
  }
}
