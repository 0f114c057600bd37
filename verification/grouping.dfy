/**
 * A `defaultdict(list)` filled by `d[key].append(value)` over a sequence,
 * with Python's insertion-ordered iteration over its values.
 */
module Grouping {
  import opened Seqs

  /** One dict entry: a key and the values appended under it, in order. */
  datatype Group<K, V> = Group(key: K, members: seq<V>)

  function KeysOf<K, V>(gs: seq<Group<K, V>>): (ks: seq<K>)
    ensures |ks| == |gs| && forall i | 0 <= i < |gs| :: ks[i] == gs[i].key
  {
    seq(|gs|, i requires 0 <= i < |gs| => gs[i].key)
  }

  /** The values of `xs` whose key (the parallel entry of `ks`) is `k`, in order. */
  function Select<K(==), V>(xs: seq<V>, ks: seq<K>, k: K): seq<V>
    requires |xs| == |ks|
  {
    if xs == [] then []
    else Select(xs[..|xs| - 1], ks[..|ks| - 1], k) + (if ks[|ks| - 1] == k then [xs[|xs| - 1]] else [])
  }

  /** A key that never occurs selects nothing; one that occurs selects something. */
  lemma {:induction false} SelectEmptyIff<K, V>(xs: seq<V>, ks: seq<K>, k: K)
    requires |xs| == |ks|
    ensures Select(xs, ks, k) == [] <==> k !in ks
  {
    if xs != [] {
      SelectEmptyIff(xs[..|xs| - 1], ks[..|ks| - 1], k);
      assert ks == ks[..|ks| - 1] + [ks[|ks| - 1]];
    }
  }

  /** Every selected value sits at a position of `xs` whose key is `k`. */
  lemma {:induction false} SelectMembers<K, V>(xs: seq<V>, ks: seq<K>, k: K, j: nat)
    requires |xs| == |ks| && j < |Select(xs, ks, k)|
    ensures exists i | 0 <= i < |xs| :: xs[i] == Select(xs, ks, k)[j] && ks[i] == k
  {
    var n := |xs| - 1;
    var pre := Select(xs[..n], ks[..n], k);
    if j < |pre| {
      SelectMembers(xs[..n], ks[..n], k, j);
      var i :| 0 <= i < n && xs[..n][i] == pre[j] && ks[..n][i] == k;
      assert xs[i] == Select(xs, ks, k)[j];
    } else {
      assert xs[n] == Select(xs, ks, k)[j] && ks[n] == k;
    }
  }

  /** `d[k].append(v)`: appends to the entry of `k`, or adds a new last entry. */
  function Append<K(==), V>(gs: seq<Group<K, V>>, k: K, v: V): (r: seq<Group<K, V>>)
    requires Distinct(KeysOf(gs))
    ensures |r| == if k in KeysOf(gs) then |gs| else |gs| + 1
    ensures forall i | 0 <= i < |gs| :: r[i] == Group(gs[i].key, gs[i].members + (if gs[i].key == k then [v] else []))
    ensures k !in KeysOf(gs) ==> r[|gs|] == Group(k, [v])
  {
    if gs == [] then [Group(k, [v])]
    else
      KeysOfTail(gs);
      if gs[0].key == k then
        assert forall i | 1 <= i < |gs| :: KeysOf(gs)[i] != KeysOf(gs)[0];
        [Group(k, gs[0].members + [v])] + gs[1..]
      else
        [gs[0]] + Append(gs[1..], k, v)
  }

  lemma KeysOfTail<K, V>(gs: seq<Group<K, V>>)
    requires gs != []
    ensures KeysOf(gs) == [gs[0].key] + KeysOf(gs[1..])
    ensures Distinct(KeysOf(gs)) ==> Distinct(KeysOf(gs[1..]))
  {
    assert KeysOf(gs[1..]) == KeysOf(gs)[1..];
  }

  /** The keys after `d[k].append(v)`: unchanged, or `k` added last. */
  lemma AppendKeys<K, V>(gs: seq<Group<K, V>>, k: K, v: V)
    requires Distinct(KeysOf(gs))
    ensures KeysOf(Append(gs, k, v)) == if k in KeysOf(gs) then KeysOf(gs) else KeysOf(gs) + [k]
  {
    var r := Append(gs, k, v);
    var ks := KeysOf(gs);
    if k in ks {
      assert |KeysOf(r)| == |ks|;
      forall i | 0 <= i < |ks|
        ensures KeysOf(r)[i] == ks[i]
      {
        assert r[i].key == gs[i].key;
      }
    } else {
      var want := ks + [k];
      assert |KeysOf(r)| == |want|;
      forall i | 0 <= i < |want|
        ensures KeysOf(r)[i] == want[i]
      {
        if i < |gs| {
          assert r[i].key == gs[i].key;
        }
      }
    }
  }

  /** The loop `for x, k in zip(xs, ks): d[k].append(x)` from an empty dict:
      one entry per distinct key, in order of first appearance, holding the
      values under that key in their original order. */
  function GroupBy<K(==), V>(xs: seq<V>, ks: seq<K>): (gs: seq<Group<K, V>>)
    requires |xs| == |ks|
    ensures KeysOf(gs) == Dedup(ks)
    ensures forall i | 0 <= i < |gs| :: gs[i].members == Select(xs, ks, gs[i].key)
  {
    if xs == [] then []
    else
      var pre := GroupBy(xs[..|xs| - 1], ks[..|ks| - 1]);
      GroupByKeysStep(ks, pre, xs[|xs| - 1]);
      GroupByMembersStep(xs, ks, pre);
      Append(pre, ks[|ks| - 1], xs[|xs| - 1])
  }

  /** The keys after one more append are the distinct keys of the longer
      sequence. */
  lemma GroupByKeysStep<K, V>(ks: seq<K>, pre: seq<Group<K, V>>, v: V)
    requires ks != [] && KeysOf(pre) == Dedup(ks[..|ks| - 1])
    ensures KeysOf(Append(pre, ks[|ks| - 1], v)) == Dedup(ks)
  {
    AppendKeys(pre, ks[|ks| - 1], v);
  }

  /** Appending the last value to the grouping of all the others gives each
      entry the values of the whole sequence under its key. */
  lemma GroupByMembersStep<K, V>(xs: seq<V>, ks: seq<K>, pre: seq<Group<K, V>>)
    requires |xs| == |ks| && xs != []
    requires KeysOf(pre) == Dedup(ks[..|ks| - 1])
    requires forall i | 0 <= i < |pre| :: pre[i].members == Select(xs[..|xs| - 1], ks[..|ks| - 1], pre[i].key)
    ensures var r := Append(pre, ks[|ks| - 1], xs[|xs| - 1]);
      forall i | 0 <= i < |r| :: r[i].members == Select(xs, ks, r[i].key)
  {
    var r := Append(pre, ks[|ks| - 1], xs[|xs| - 1]);
    forall i | 0 <= i < |r|
      ensures r[i].members == Select(xs, ks, r[i].key)
    {
      MembersStepAt(xs, ks, pre, i);
    }
  }

  lemma MembersStepAt<K, V>(xs: seq<V>, ks: seq<K>, pre: seq<Group<K, V>>, i: nat)
    requires |xs| == |ks| && xs != []
    requires KeysOf(pre) == Dedup(ks[..|ks| - 1])
    requires forall i | 0 <= i < |pre| :: pre[i].members == Select(xs[..|xs| - 1], ks[..|ks| - 1], pre[i].key)
    requires i < |Append(pre, ks[|ks| - 1], xs[|xs| - 1])|
    ensures var r := Append(pre, ks[|ks| - 1], xs[|xs| - 1]);
      r[i].members == Select(xs, ks, r[i].key)
  {
    var n := |xs| - 1;
    var k := ks[n];
    var r := Append(pre, k, xs[n]);
    SelectLast(xs, ks, r[i].key);
    if i < |pre| {
      assert r[i].key == pre[i].key;
    } else {
      SelectEmptyIff(xs[..n], ks[..n], k);
      assert k !in ks[..n];
    }
  }

  /** `Select` on a non-empty sequence: the selection from all but the last
      value, then the last value if its key matches. */
  lemma SelectLast<K, V>(xs: seq<V>, ks: seq<K>, k: K)
    requires |xs| == |ks| && xs != []
    ensures Select(xs, ks, k) ==
      Select(xs[..|xs| - 1], ks[..|ks| - 1], k) + (if ks[|ks| - 1] == k then [xs[|xs| - 1]] else [])
  {
  }

  /** Every entry holds at least one value, and every value lands in the entry
      of its key. */
  lemma GroupByCovers<K, V>(xs: seq<V>, ks: seq<K>)
    requires |xs| == |ks|
    ensures forall i | 0 <= i < |GroupBy(xs, ks)| :: |GroupBy(xs, ks)[i].members| > 0
    ensures forall i | 0 <= i < |xs| :: exists g | 0 <= g < |GroupBy(xs, ks)| ::
      GroupBy(xs, ks)[g].key == ks[i]
  {
    var gs := GroupBy(xs, ks);
    forall i | 0 <= i < |gs|
      ensures |gs[i].members| > 0
    {
      assert gs[i].key in KeysOf(gs);
      SelectEmptyIff(xs, ks, gs[i].key);
    }
    forall i | 0 <= i < |xs|
      ensures exists g | 0 <= g < |gs| :: gs[g].key == ks[i]
    {
      assert ks[i] in Dedup(ks);
      var g :| 0 <= g < |gs| && KeysOf(gs)[g] == ks[i];
    }
  }

  /** Every value in an entry sits at a position of `xs` under that entry's key. */
  lemma MemberHasKey<K, V>(xs: seq<V>, ks: seq<K>, i: nat, v: V)
    requires |xs| == |ks| && i < |GroupBy(xs, ks)| && v in GroupBy(xs, ks)[i].members
    ensures exists t | 0 <= t < |xs| :: xs[t] == v && ks[t] == GroupBy(xs, ks)[i].key
  {
    var ms := GroupBy(xs, ks)[i].members;
    var j :| 0 <= j < |ms| && ms[j] == v;
    SelectMembers(xs, ks, GroupBy(xs, ks)[i].key, j);
  }

  /** Selecting from a sequence without repetitions gives one without repetitions. */
  lemma {:induction false} SelectDistinct<K, V>(xs: seq<V>, ks: seq<K>, k: K)
    requires |xs| == |ks| && Distinct(xs)
    ensures Distinct(Select(xs, ks, k))
  {
    if xs != [] {
      var n := |xs| - 1;
      var pre := Select(xs[..n], ks[..n], k);
      SelectDistinct(xs[..n], ks[..n], k);
      if ks[n] == k {
        forall j | 0 <= j < |pre|
          ensures pre[j] != xs[n]
        {
          SelectMembers(xs[..n], ks[..n], k, j);
        }
      }
    }
  }

  /** The entry the value at position t lands in. */
  lemma GroupOf<K, V>(xs: seq<V>, ks: seq<K>, t: nat) returns (i: nat)
    requires |xs| == |ks| && t < |xs|
    ensures i < |GroupBy(xs, ks)| && xs[t] in GroupBy(xs, ks)[i].members
  {
    var groups := GroupBy(xs, ks);
    GroupByCovers(xs, ks);
    i :| 0 <= i < |groups| && groups[i].key == ks[t];
    InOwnGroup(xs, ks, t, i);
  }

  /** The value at position t lands in the entry of its key. */
  lemma InOwnGroup<K, V>(xs: seq<V>, ks: seq<K>, t: nat, i: nat)
    requires |xs| == |ks| && t < |xs| && i < |GroupBy(xs, ks)| && GroupBy(xs, ks)[i].key == ks[t]
    ensures xs[t] in GroupBy(xs, ks)[i].members
  {
    SelectContains(xs, ks, t);
  }

  lemma {:induction false} SelectContains<K, V>(xs: seq<V>, ks: seq<K>, t: nat)
    requires |xs| == |ks| && t < |xs|
    ensures xs[t] in Select(xs, ks, ks[t])
  {
    var n := |xs| - 1;
    if t < n {
      SelectContains(xs[..n], ks[..n], t);
    }
  }
}
