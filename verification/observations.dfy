/** The counting loop of `main`: how many origins led to each distinct character node. */
module Observations {
  import opened Outcomes

  /** The character node `find_character_node` reaches from each origin, in request order. */
  function Located(origins: seq<Address>, locate: Address -> Address): (located: seq<Address>)
    ensures |located| == |origins|
    ensures forall i :: 0 <= i < |origins| ==> located[i] == locate(origins[i])
  {
    seq(|origins|, i requires 0 <= i < |origins| => locate(origins[i]))
  }

  predicate Distinct(s: seq<Address>)
  {
    forall i, j :: 0 <= i < j < |s| ==> s[i] != s[j]
  }

  /** The position at which `a` first occurs in `s`, or `|s|` when it does not occur. */
  function FirstIndex(s: seq<Address>, a: Address): (i: nat)
    ensures i <= |s|
    ensures i < |s| <==> a in s
    ensures i < |s| ==> s[i] == a
  {
    if |s| == 0 then 0
    else if s[0] == a then 0
    else 1 + FirstIndex(s[1..], a)
  }

  /** No position before `FirstIndex(s, a)` holds `a`: it is the first occurrence. */
  lemma {:induction false} FirstIndexIsFirst(s: seq<Address>, a: Address)
    ensures forall j :: 0 <= j < FirstIndex(s, a) ==> s[j] != a
  {
    if |s| > 0 && s[0] != a {
      FirstIndexIsFirst(s[1..], a);
      assert forall j :: 1 <= j < |s| ==> s[j] == s[1..][j - 1];
    }
  }

  /** Appending to `s` leaves the first position of anything already in `s` where it was,
      and puts a new element's first position at the end. */
  lemma FirstIndexAppend(s: seq<Address>, x: Address, a: Address)
    ensures a in s ==> FirstIndex(s + [x], a) == FirstIndex(s, a)
    ensures a !in s && a == x ==> FirstIndex(s + [x], a) == |s|
  {
    var i, k := FirstIndex(s + [x], a), FirstIndex(s, a);
    FirstIndexIsFirst(s + [x], a);
    FirstIndexIsFirst(s, a);
    if a in s {
      assert (s + [x])[k] == a;
    } else if a == x {
      assert (s + [x])[|s|] == a;
    }
  }

  /** `order` lists nodes by where they were first located: the dictionary's insertion order. */
  ghost predicate InFirstLocatedOrder(located: seq<Address>, order: seq<Address>)
  {
    forall i, j :: 0 <= i < j < |order| ==> FirstIndex(located, order[i]) < FirstIndex(located, order[j])
  }

  /** Each node of `located` once, at the place it first occurs: the keys of a dictionary
      filled from `located`, in insertion order. */
  function FirstOccurrences(located: seq<Address>): (firsts: seq<Address>)
    ensures Distinct(firsts)
    ensures forall a :: a in firsts <==> a in located
  {
    if |located| == 0 then []
    else
      var firsts := FirstOccurrences(located[..|located| - 1]);
      if located[|located| - 1] in firsts then firsts else firsts + [located[|located| - 1]]
  }

  /** Extending `located` by a node already seen leaves the first occurrences alone; a new
      node is added at the end. */
  lemma FirstOccurrencesAppend(located: seq<Address>, a: Address)
    ensures a in located ==> FirstOccurrences(located + [a]) == FirstOccurrences(located)
    ensures a !in located ==> FirstOccurrences(located + [a]) == FirstOccurrences(located) + [a]
  {
    assert (located + [a])[..|located|] == located;
  }

  /** The first occurrences are listed in the order the nodes were first located. */
  lemma {:induction false} FirstOccurrencesInFirstLocatedOrder(located: seq<Address>)
    ensures InFirstLocatedOrder(located, FirstOccurrences(located))
  {
    if |located| > 0 {
      var init, last := located[..|located| - 1], located[|located| - 1];
      assert init + [last] == located;
      FirstOccurrencesInFirstLocatedOrder(init);
      FirstOccurrencesAppend(init, last);
      if last in init {
        SeenAgainFirstIndex(init, FirstOccurrences(init), last);
      } else {
        FirstSeenFirstIndex(init, FirstOccurrences(init), last);
      }
    }
  }

  /** The counts of `keys` added up in order: `sum(counts.values())` when `keys` is the
      dictionary's insertion order. */
  function SumOver(keys: seq<Address>, counts: map<Address, int>): int
    requires forall a :: a in keys ==> a in counts
  {
    if |keys| == 0 then 0
    else SumOver(keys[..|keys| - 1], counts) + counts[keys[|keys| - 1]]
  }

  /** The same sum taken from the front. */
  lemma {:induction false} SumOverFront(keys: seq<Address>, counts: map<Address, int>)
    requires |keys| > 0
    requires forall a :: a in keys ==> a in counts
    ensures SumOver(keys, counts) == counts[keys[0]] + SumOver(keys[1..], counts)
  {
    if |keys| > 1 {
      var init := keys[..|keys| - 1];
      assert init[1..] == keys[1..][..|keys[1..]| - 1];
      SumOverFront(init, counts);
    }
  }

  /** Changing the count of a key the sequence does not hold leaves the sum alone. */
  lemma {:induction false} SumOverOther(keys: seq<Address>, counts: map<Address, int>, a: Address, v: int)
    requires forall b :: b in keys ==> b in counts
    requires a !in keys
    ensures SumOver(keys, counts[a := v]) == SumOver(keys, counts)
  {
    if |keys| > 0 {
      SumOverOther(keys[..|keys| - 1], counts, a, v);
    }
  }

  /** Adding one to the count of a key listed once adds one to the sum. */
  lemma {:induction false} SumOverIncrement(keys: seq<Address>, counts: map<Address, int>, a: Address)
    requires forall b :: b in keys ==> b in counts
    requires Distinct(keys) && a in keys
    ensures SumOver(keys, counts[a := counts[a] + 1]) == SumOver(keys, counts) + 1
  {
    var init := keys[..|keys| - 1];
    var last := keys[|keys| - 1];
    if last == a {
      assert a !in init;
      SumOverOther(init, counts, a, counts[a] + 1);
    } else {
      SumOverIncrement(init, counts, a);
    }
  }

  /** `counts` has one key per distinct located node, counted as often as it was located. */
  ghost predicate CountsLocated(located: seq<Address>, counts: map<Address, int>)
  {
    && counts.Keys == (set a | a in located)
    && forall a :: a in counts ==> counts[a] == multiset(located)[a] && counts[a] >= 1
  }

  /** `order` lists every key of `counts` exactly once. */
  ghost predicate ListsKeysOnce(order: seq<Address>, counts: map<Address, int>)
  {
    && Distinct(order)
    && (forall a :: a in order <==> a in counts)
    && |order| == |counts|
  }

  /** `counts` and `order` describe the nodes located so far: one key per distinct node,
      each counted as often as it was located, listed once in `order` at the place the
      node was first located. */
  ghost predicate Tallies(located: seq<Address>, counts: map<Address, int>, order: seq<Address>)
  {
    && CountsLocated(located, counts)
    && ListsKeysOnce(order, counts)
    && SumOver(order, counts) == |located|
    && order == FirstOccurrences(located)
  }

  lemma SeenAgainCounts(located: seq<Address>, counts: map<Address, int>, a: Address)
    requires CountsLocated(located, counts) && a in counts
    ensures CountsLocated(located + [a], counts[a := counts[a] + 1])
  {
    assert multiset(located + [a]) == multiset(located) + multiset{a};
    assert (set b | b in located + [a]) == (set b | b in located);
  }

  lemma SeenAgainFirstIndex(located: seq<Address>, order: seq<Address>, a: Address)
    requires InFirstLocatedOrder(located, order)
    requires forall b :: b in order ==> b in located
    ensures InFirstLocatedOrder(located + [a], order)
  {
    forall b | b in order ensures FirstIndex(located + [a], b) == FirstIndex(located, b) {
      FirstIndexAppend(located, a, b);
    }
  }

  /** Locating a node already counted adds one to its count. */
  lemma TalliesSeenAgain(located: seq<Address>, counts: map<Address, int>, order: seq<Address>, a: Address)
    requires Tallies(located, counts, order) && a in counts
    ensures Tallies(located + [a], counts[a := counts[a] + 1], order)
  {
    assert order == FirstOccurrences(located + [a]) by {
      FirstOccurrencesAppend(located, a);
    }
    assert CountsLocated(located + [a], counts[a := counts[a] + 1]) by {
      SeenAgainCounts(located, counts, a);
    }
    assert counts[a := counts[a] + 1].Keys == counts.Keys;
    SumOverIncrement(order, counts, a);
  }

  lemma FirstSeenCounts(located: seq<Address>, counts: map<Address, int>, a: Address)
    requires CountsLocated(located, counts) && a !in counts
    ensures a !in located
    ensures CountsLocated(located + [a], counts[a := 1])
  {
    assert a !in located;
    assert multiset(located + [a]) == multiset(located) + multiset{a};
    assert (set b | b in located + [a]) == (set b | b in located) + {a};
  }

  lemma FirstSeenOrder(order: seq<Address>, counts: map<Address, int>, a: Address)
    requires ListsKeysOnce(order, counts) && a !in counts
    ensures a !in order
    ensures ListsKeysOnce(order + [a], counts[a := 1])
  {
  }

  lemma FirstSeenFirstIndex(located: seq<Address>, order: seq<Address>, a: Address)
    requires InFirstLocatedOrder(located, order)
    requires forall b :: b in order ==> b in located
    requires a !in located
    ensures InFirstLocatedOrder(located + [a], order + [a])
  {
    var order' := order + [a];
    forall b | b in order ensures FirstIndex(located + [a], b) == FirstIndex(located, b) < |located| {
      FirstIndexAppend(located, a, b);
    }
    FirstIndexAppend(located, a, a);
    forall i, j | 0 <= i < j < |order'|
      ensures FirstIndex(located + [a], order'[i]) < FirstIndex(located + [a], order'[j])
    {
      assert order'[i] == order[i] && order'[i] in order;
      if j < |order| {
        assert order'[j] == order[j] && order'[j] in order;
      }
    }
  }

  lemma FirstSeenSum(order: seq<Address>, counts: map<Address, int>, a: Address)
    requires forall b :: b in order ==> b in counts
    requires a !in order
    ensures forall b :: b in order + [a] ==> b in counts[a := 1]
    ensures SumOver(order + [a], counts[a := 1]) == SumOver(order, counts) + 1
  {
    assert (order + [a])[..|order|] == order;
    SumOverOther(order, counts, a, 1);
  }

  /** Locating a new node gives it a count of one at the end of the order. */
  lemma TalliesFirstSeen(located: seq<Address>, counts: map<Address, int>, order: seq<Address>, a: Address)
    requires Tallies(located, counts, order) && a !in counts
    ensures Tallies(located + [a], counts[a := 1], order + [a])
  {
    assert order + [a] == FirstOccurrences(located + [a]) by {
      FirstOccurrencesAppend(located, a);
    }
    assert CountsLocated(located + [a], counts[a := 1]) by {
      FirstSeenCounts(located, counts, a);
    }
    assert ListsKeysOnce(order + [a], counts[a := 1]) by {
      FirstSeenOrder(order, counts, a);
    }
    FirstSeenSum(order, counts, a);
  }

  /** One pass of the loop body of `main` (lines 225-229): `character_objects.get(address)`
      is truthy when the node is present with a non-zero count, and then the count goes up
      by one; otherwise the node is entered with count 1 at the end of the order. */
  function Observe(counts: map<Address, int>, order: seq<Address>, a: Address): (map<Address, int>, seq<Address>)
  {
    if a in counts && counts[a] != 0 then (counts[a := counts[a] + 1], order)
    else (counts[a := 1], order + [a])
  }

  /** Each pass keeps the dictionary a correct tally of the nodes located so far. */
  lemma TalliesObserve(located: seq<Address>, counts: map<Address, int>, order: seq<Address>, a: Address)
    requires Tallies(located, counts, order)
    ensures Tallies(located + [a], Observe(counts, order, a).0, Observe(counts, order, a).1)
  {
    if a in counts && counts[a] != 0 {
      TalliesSeenAgain(located, counts, order, a);
    } else {
      TalliesFirstSeen(located, counts, order, a);
    }
  }

  /** The dictionary and insertion order after the loop has seen `located`. */
  function Tally(located: seq<Address>): (map<Address, int>, seq<Address>)
  {
    if |located| == 0 then (map[], [])
    else
      var t := Tally(located[..|located| - 1]);
      Observe(t.0, t.1, located[|located| - 1])
  }

  /** Whatever the located nodes, the loop leaves a correct tally of them. */
  lemma {:induction false} TallyTallies(located: seq<Address>)
    ensures Tallies(located, Tally(located).0, Tally(located).1)
  {
    if |located| == 0 {
      assert (set a | a in located) == {};
    } else {
      var init, last := located[..|located| - 1], located[|located| - 1];
      assert init + [last] == located;
      var t := Tally(init);
      TallyTallies(init);
      TalliesObserve(init, t.0, t.1, last);
    }
  }

  /** Lines 214-229 of main: a dictionary from each distinct located character node to
      the number of origins that led to it (`r.0`), with its insertion order (`r.1`), the
      order in which the nodes were first located. */
  function CountCharacterObjects(origins: seq<Address>, locate: Address -> Address): (r: (map<Address, int>, seq<Address>))
    ensures CountsLocated(Located(origins, locate), r.0)
    ensures ListsKeysOnce(r.1, r.0)
    ensures SumOver(r.1, r.0) == |origins|
    ensures r.1 == FirstOccurrences(Located(origins, locate))
  {
    TallyTallies(Located(origins, locate));
    Tally(Located(origins, locate))
  }
}
