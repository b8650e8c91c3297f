/**
 * The insertion-ordered `defaultdict(list)` both converters fill: a sequence
 * of groups, one per key, in the order the keys were first used, each holding
 * the values appended under its key in append order.
 */
module Grouping {

  /** One entry of the dictionary: a key and the list stored under it. */
  datatype Group = Group(key: string, values: seq<string>)

  /** A value to be appended under a key. */
  type Pair = (string, string)

  /** `d.keys()`, in order. */
  function Keys(groups: seq<Group>): (ks: seq<string>)
    ensures |ks| == |groups|
    ensures forall i :: 0 <= i < |groups| ==> ks[i] == groups[i].key
  {
    seq(|groups|, i requires 0 <= i < |groups| => groups[i].key)
  }

  /** No string occurs twice. */
  predicate Distinct(ks: seq<string>) {
    forall i, j :: 0 <= i < j < |ks| ==> ks[i] != ks[j]
  }

  /** The position of the group with key `key`, or `|groups|` when there is none. */
  function Find(groups: seq<Group>, key: string): (i: nat)
    ensures i <= |groups|
    ensures i < |groups| ==> groups[i].key == key
    ensures forall j :: 0 <= j < i ==> groups[j].key != key
  {
    if groups == [] then 0
    else if groups[0].key == key then 0
    else 1 + Find(groups[1..], key)
  }

  /** `d[key].append(value)` on a `defaultdict(list)`: a missing key starts a new group at the end. */
  function Append(groups: seq<Group>, key: string, value: string): seq<Group> {
    var i := Find(groups, key);
    if i == |groups| then groups + [Group(key, [value])]
    else groups[i := Group(key, groups[i].values + [value])]
  }

  /** The dictionary after appending every pair, in order, to an empty one. */
  function GroupBy(pairs: seq<Pair>): seq<Group> {
    if pairs == [] then []
    else
      var p := pairs[|pairs| - 1];
      Append(GroupBy(pairs[..|pairs| - 1]), p.0, p.1)
  }

  /** The keys of the pairs, in order, repeats included. */
  function PairKeys(pairs: seq<Pair>): seq<string> {
    seq(|pairs|, i requires 0 <= i < |pairs| => pairs[i].0)
  }

  /** The values of the pairs whose key is `key`, in order. */
  function Select(pairs: seq<Pair>, key: string): seq<string> {
    if pairs == [] then []
    else
      var p := pairs[|pairs| - 1];
      Select(pairs[..|pairs| - 1], key) + if p.0 == key then [p.1] else []
  }

  /** `ks` with every repeat dropped: each string once, at the place it first occurs. */
  function FirstSeen(ks: seq<string>): seq<string> {
    if ks == [] then []
    else
      var init, k := ks[..|ks| - 1], ks[|ks| - 1];
      if k in init then FirstSeen(init) else FirstSeen(init) + [k]
  }

  /** The number of values over all groups. */
  function TotalValues(groups: seq<Group>): nat {
    if groups == [] then 0
    else TotalValues(groups[..|groups| - 1]) + |groups[|groups| - 1].values|
  }

  /** First-seen order keeps each string of `ks` exactly once and adds nothing. */
  lemma {:induction false} FirstSeenSpec(ks: seq<string>)
    ensures Distinct(FirstSeen(ks))
    ensures forall k :: k in FirstSeen(ks) <==> k in ks
  {
    if ks != [] {
      var init := ks[..|ks| - 1];
      FirstSeenSpec(init);
      assert ks == init + [ks[|ks| - 1]];
    }
  }

  /** Two appends under different keys make two one-value groups, in append order. */
  lemma GroupByTwo(p: Pair, q: Pair)
    requires p.0 != q.0
    ensures GroupBy([p, q]) == [Group(p.0, [p.1]), Group(q.0, [q.1])]
  {
    assert [p, q][..1] == [p];
    assert [p][..0] == [];
    assert GroupBy([p]) == [Group(p.0, [p.1])];
  }

  lemma PairKeysInit(pairs: seq<Pair>)
    requires pairs != []
    ensures PairKeys(pairs) == PairKeys(pairs[..|pairs| - 1]) + [pairs[|pairs| - 1].0]
  {
  }

  /**
   * The keys of the dictionary are the keys of the pairs in order of first
   * use, each once.
   */
  lemma {:induction false} GroupByKeys(pairs: seq<Pair>)
    ensures Keys(GroupBy(pairs)) == FirstSeen(PairKeys(pairs))
    ensures Distinct(Keys(GroupBy(pairs)))
  {
    if pairs != [] {
      var init := pairs[..|pairs| - 1];
      var p := pairs[|pairs| - 1];
      GroupByKeys(init);
      FirstSeenSpec(PairKeys(init));
      PairKeysInit(pairs);
      var g := GroupBy(init);
      var i := Find(g, p.0);
      assert p.0 in PairKeys(init) <==> i < |g|;
      assert PairKeys(pairs)[..|pairs| - 1] == PairKeys(init);
      if i < |g| {
        assert Keys(GroupBy(pairs)) == Keys(g);
      } else {
        assert Keys(GroupBy(pairs)) == Keys(g) + [p.0];
      }
      FirstSeenSpec(PairKeys(pairs));
    }
  }

  /**
   * The list stored under each key holds exactly the values of the pairs with
   * that key, in the order they were appended.
   */
  lemma {:induction false} GroupByValues(pairs: seq<Pair>)
    ensures forall i :: 0 <= i < |GroupBy(pairs)| ==>
              GroupBy(pairs)[i].values == Select(pairs, GroupBy(pairs)[i].key)
  {
    if pairs != [] {
      var init := pairs[..|pairs| - 1];
      var p := pairs[|pairs| - 1];
      GroupByValues(init);
      GroupByKeys(init);
      var g := GroupBy(init);
      var i := Find(g, p.0);
      forall n | 0 <= n < |GroupBy(pairs)|
        ensures GroupBy(pairs)[n].values == Select(pairs, GroupBy(pairs)[n].key)
      {
        if n < |g| && n != i {
          assert GroupBy(pairs)[n] == g[n];
          assert g[n].key != p.0 by {
            if n > i { assert Keys(g)[i] == p.0; }
          }
        } else if n == i && i < |g| {
          assert GroupBy(pairs)[n] == Group(p.0, g[i].values + [p.1]);
        } else {
          assert n == |g| && i == |g|;
          assert GroupBy(pairs)[n] == Group(p.0, [p.1]);
          SelectAbsent(init, p.0);
        }
      }
    }
  }

  /** A key that no pair carries selects nothing. */
  lemma {:induction false} SelectAbsent(pairs: seq<Pair>, key: string)
    requires key !in Keys(GroupBy(pairs))
    ensures Select(pairs, key) == []
  {
    if pairs != [] {
      var init := pairs[..|pairs| - 1];
      var p := pairs[|pairs| - 1];
      var g := GroupBy(init);
      var i := Find(g, p.0);
      assert p.0 in Keys(GroupBy(pairs)) by {
        if i < |g| {
          assert Keys(GroupBy(pairs))[i] == p.0;
        } else {
          assert Keys(GroupBy(pairs))[|g|] == p.0;
        }
      }
      assert forall n :: 0 <= n < |g| ==> Keys(GroupBy(pairs))[n] == Keys(g)[n];
      assert key !in Keys(g);
      SelectAbsent(init, key);
    }
  }

  lemma {:induction false} TotalValuesUpdate(groups: seq<Group>, i: nat, g: Group)
    requires i < |groups|
    ensures TotalValues(groups[i := g]) + |groups[i].values| == TotalValues(groups) + |g.values|
  {
    var last := |groups| - 1;
    assert groups[i := g][..last] == if i == last then groups[..last] else groups[..last][i := g];
    if i < last {
      TotalValuesUpdate(groups[..last], i, g);
    }
  }

  /** Every appended value is stored exactly once: the lists hold as many values as there were pairs. */
  lemma {:induction false} GroupByTotal(pairs: seq<Pair>)
    ensures TotalValues(GroupBy(pairs)) == |pairs|
  {
    if pairs != [] {
      var init := pairs[..|pairs| - 1];
      var p := pairs[|pairs| - 1];
      GroupByTotal(init);
      var g := GroupBy(init);
      var i := Find(g, p.0);
      if i < |g| {
        TotalValuesUpdate(g, i, Group(p.0, g[i].values + [p.1]));
      } else {
        assert (g + [Group(p.0, [p.1])])[..|g|] == g;
      }
    }
  }
}
