/** The best-connection bookkeeping of the minimum-cost-path search
    (`MakeLineMCP.create_connection`) and the consistency diagnostic that
    checks every endpoint took part in exactly one connection. */
module Connections {
  import opened Seqs
  import opened Grids

  /** A connection key: the two endpoint indices, smaller first. */
  datatype Key = Key(lo: int, hi: int)

  /** One `create_connection(id1, id2, pos1, pos2, cost1, cost2)` call made by
      the search when the fronts grown from endpoints `id1` and `id2` meet at
      the neighbouring pixels `pos1` and `pos2`. */
  datatype Offer = Offer(id1: int, id2: int, pos1: Pos, pos2: Pos, cost1: real, cost2: real)

  /** The stored connection: the meeting pixels and the total cost. */
  datatype Connection = Connection(pos1: Pos, pos2: Pos, score: real)

  /** The two dictionaries `connections` and `scores`, merged: a key missing
      from `conns` has the default score of positive infinity. `order` is the
      insertion order of `connections`, which is the order in which the
      polylines are later produced. */
  datatype Book = Book(order: seq<Key>, conns: map<Key, Connection>)
  {
    predicate Valid()
    {
      && Distinct(order)
      && (forall k | k in conns :: k in order)
      && (forall i | 0 <= i < |order| :: order[i] in conns)
    }
  }

  const EmptyBook: Book := Book([], map[])

  /** `(min(id1, id2), max(id1, id2))`. */
  function KeyOf(id1: int, id2: int): (k: Key)
    ensures k.lo <= k.hi
    ensures (k.lo == id1 && k.hi == id2) || (k.lo == id2 && k.hi == id1)
  {
    if id1 <= id2 then Key(id1, id2) else Key(id2, id1)
  }

  function OfferKey(o: Offer): Key
  {
    KeyOf(o.id1, o.id2)
  }

  function Score(o: Offer): real
  {
    o.cost1 + o.cost2
  }

  /** The value `(pos1, pos2, cost1 + cost2)` an offer stores. */
  function Stored(o: Offer): Connection
  {
    Connection(o.pos1, o.pos2, Score(o))
  }

  /** An offer replaces the stored connection only when it is strictly
      cheaper; a key seen for the first time is always stored, since the
      default score is infinite. */
  function CreateConnection(b: Book, o: Offer): (b': Book)
    requires b.Valid()
    ensures b'.Valid()
    ensures OfferKey(o) in b'.conns
    ensures b'.conns[OfferKey(o)].score <= Score(o)
    ensures OfferKey(o) in b.conns ==> b'.conns[OfferKey(o)].score <= b.conns[OfferKey(o)].score
    ensures b'.conns[OfferKey(o)] == Stored(o)
         || (OfferKey(o) in b.conns && b'.conns[OfferKey(o)] == b.conns[OfferKey(o)])
    ensures OfferKey(o) in b.conns && b.conns[OfferKey(o)].score <= Score(o) ==> b' == b
    ensures forall k | k != OfferKey(o) :: (k in b'.conns <==> k in b.conns)
    ensures forall k | k != OfferKey(o) && k in b.conns :: b'.conns[k] == b.conns[k]
    ensures b'.order == if OfferKey(o) in b.conns then b.order else b.order + [OfferKey(o)]
  {
    var k := OfferKey(o);
    var s := Score(o);
    if k in b.conns && b.conns[k].score <= s then b
    else
      var order := if k in b.conns then b.order else b.order + [k];
      Book(order, b.conns[k := Stored(o)])
  }

  /** The bookkeeping after a whole sequence of `create_connection` calls. */
  function Replay(offers: seq<Offer>): (b: Book)
    ensures b.Valid()
  {
    if offers == [] then EmptyBook
    else CreateConnection(Replay(offers[..|offers| - 1]), offers[|offers| - 1])
  }

  /** Offer `i` is the first among those for key `k` with the least total
      cost. */
  predicate FirstMinimum(offers: seq<Offer>, k: Key, i: int)
  {
    && 0 <= i < |offers| && OfferKey(offers[i]) == k
    && (forall j | 0 <= j < |offers| && OfferKey(offers[j]) == k :: Score(offers[i]) <= Score(offers[j]))
    && (forall j | 0 <= j < i && OfferKey(offers[j]) == k :: Score(offers[i]) < Score(offers[j]))
  }

  /** Appending an offer that is not cheaper than the first minimum, or
      that names another key, keeps that minimum. */
  lemma FirstMinimumKept(init: seq<Offer>, o: Offer, k: Key, i: int)
    requires FirstMinimum(init, k, i)
    requires OfferKey(o) != k || Score(init[i]) <= Score(o)
    ensures FirstMinimum(init + [o], k, i)
  {
  }

  /** Appending an offer strictly cheaper than every earlier one for its key
      makes it the first minimum. */
  lemma FirstMinimumNew(init: seq<Offer>, o: Offer)
    requires forall j | 0 <= j < |init| && OfferKey(init[j]) == OfferKey(o) :: Score(o) < Score(init[j])
    ensures FirstMinimum(init + [o], OfferKey(o), |init|)
  {
  }

  /** After any sequence of calls a key is stored iff some call named it. */
  lemma {:induction false} ReplayHasKey(offers: seq<Offer>, k: Key)
    ensures k in Replay(offers).conns <==> exists i | 0 <= i < |offers| :: OfferKey(offers[i]) == k
  {
    if offers != [] {
      var init := offers[..|offers| - 1];
      assert offers == init + [offers[|offers| - 1]];
      ReplayHasKey(init, k);
    }
  }

  /** After any sequence of calls a stored key holds the first of the
      cheapest offers made for it. */
  lemma {:induction false} ReplayKeepsFirstMinimum(offers: seq<Offer>, k: Key)
    ensures k in Replay(offers).conns ==>
      exists i | FirstMinimum(offers, k, i) :: Replay(offers).conns[k] == Stored(offers[i])
  {
    if offers != [] {
      var init := offers[..|offers| - 1];
      var o := offers[|offers| - 1];
      assert offers == init + [o];
      ReplayKeepsFirstMinimum(init, k);
      var b := Replay(init);
      if k in b.conns {
        var i :| FirstMinimum(init, k, i) && b.conns[k] == Stored(init[i]);
        if OfferKey(o) != k || b.conns[k].score <= Score(o) {
          FirstMinimumKept(init, o, k, i);
        } else {
          FirstMinimumNew(init, o);
        }
      } else if OfferKey(o) == k {
        ReplayHasKey(init, k);
        FirstMinimumNew(init, o);
      }
    }
  }

  /** The key named by each call, in call order. */
  function OfferKeys(offers: seq<Offer>): (ks: seq<Key>)
    ensures |ks| == |offers| && forall i | 0 <= i < |offers| :: ks[i] == OfferKey(offers[i])
  {
    if offers == [] then [] else OfferKeys(offers[..|offers| - 1]) + [OfferKey(offers[|offers| - 1])]
  }

  /** Keys are stored in order of the first call that named them. */
  lemma {:induction false} ReplayOrder(offers: seq<Offer>)
    ensures Replay(offers).order == Dedup(OfferKeys(offers))
  {
    if offers != [] {
      var init := offers[..|offers| - 1];
      ReplayOrder(init);
      var ks := OfferKeys(offers);
      assert ks[..|ks| - 1] == OfferKeys(init);
      ReplayHasKey(init, OfferKey(offers[|offers| - 1]));
    }
  }

  // ---------------------------------------------------------------------
  // The consistency diagnostic: the `sorted(...) == arange(N)` check

  /** The endpoint indices of all stored keys, in key order, each key
      contributing its two indices. */
  function Indices(order: seq<Key>): (r: seq<int>)
    ensures |r| == 2 * |order|
    ensures forall i | 0 <= i < |order| :: r[2 * i] == order[i].lo && r[2 * i + 1] == order[i].hi
  {
    if order == [] then [] else [order[0].lo, order[0].hi] + Indices(order[1..])
  }

  /** Every index below `n` occurs exactly once in `s`, and no other does. */
  ghost predicate EachIndexOnce(s: seq<int>, n: nat)
  {
    forall x :: multiset(s)[x] == if 0 <= x < n then 1 else 0
  }

  lemma EachIndexOnceIffRange(s: seq<int>, n: nat)
    ensures EachIndexOnce(s, n) <==> multiset(s) == multiset(Range(n))
  {
    if EachIndexOnce(s, n) {
      forall x ensures multiset(Range(n))[x] == multiset(s)[x] {
        RangeCounts(n, x);
      }
    }
    if multiset(s) == multiset(Range(n)) {
      forall x ensures multiset(s)[x] == if 0 <= x < n then 1 else 0 {
        RangeCounts(n, x);
      }
    }
  }

  /** The consistency warning: the sorted indices differ from `arange(n)`. */
  predicate DiagnosticFires(order: seq<Key>, n: nat)
  {
    Sort(Indices(order)) != Range(n)
  }

  /** The warning stays silent iff every endpoint index below `n` occurs in
      exactly one key position and no other index occurs. */
  lemma DiagnosticIff(order: seq<Key>, n: nat)
    ensures !DiagnosticFires(order, n) <==> EachIndexOnce(Indices(order), n)
  {
    var s := Sort(Indices(order));
    EachIndexOnceIffRange(Indices(order), n);
    if multiset(s) == multiset(Range(n)) {
      SortedUnique(s, Range(n));
    }
  }
}
