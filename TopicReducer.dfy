/**
 * The per-topic reducer of the dashboard's bubble chart: the `add`,
 * `remove` and `initial` callbacks handed to the multidimensional index.
 * The index calls `add` when a post enters the active filter set and
 * `remove` when it leaves; the accumulator keeps a post count, the running
 * sums of up-votes and of words, and two averages recomputed from the sums.
 */
module TopicReducer {

  /** The two fields of a post the reducer reads, already coerced to numbers. */
  datatype Post = Post(ups: int, numWords: int)

  /** A JavaScript number as far as the averages need one: the quotient of
      two integers is finite, or NaN for 0/0, or an infinity. */
  datatype Number = Finite(value: real) | NaN | Infinity | NegInfinity

  /** JavaScript's `a / b` on two integer-valued numbers. */
  function Divide(a: int, b: int): (q: Number)
    ensures q.Finite? <==> b != 0
    ensures q.Finite? ==> q.value * (b as real) == a as real
    ensures q == NaN <==> a == 0 && b == 0
    ensures q == Infinity <==> a > 0 && b == 0
    ensures q == NegInfinity <==> a < 0 && b == 0
  {
    if b != 0 then Finite(a as real / b as real)
    else if a == 0 then NaN
    else if a > 0 then Infinity
    else NegInfinity
  }

  datatype Field = Ups | NumWords

  function Get(p: Post, f: Field): int
  {
    match f
    case Ups => p.ups
    case NumWords => p.numWords
  }

  /** The sum of field `f` over a run of posts: nothing for no posts, the
      post's own field for one. */
  function Sum(s: seq<Post>, f: Field): (total: int)
    ensures s == [] ==> total == 0
    ensures |s| == 1 ==> total == Get(s[0], f)
  {
    if s == [] then 0 else Sum(s[..|s| - 1], f) + Get(s[|s| - 1], f)
  }

  /** A field that is never negative, as word counts are not, has a sum
      that is not negative either. */
  lemma {:induction false} SumNonNegative(s: seq<Post>, f: Field)
    requires forall k :: 0 <= k < |s| ==> Get(s[k], f) >= 0
    ensures Sum(s, f) >= 0
    decreases |s|
  {
    if s != [] {
      var init := s[..|s| - 1];
      assert forall k :: 0 <= k < |init| ==> init[k] == s[k];
      SumNonNegative(init, f);
    }
  }

  /** The sum over two runs one after the other. */
  lemma {:induction false} SumAppend(a: seq<Post>, b: seq<Post>, f: Field)
    ensures Sum(a + b, f) == Sum(a, f) + Sum(b, f)
    decreases |b|
  {
    if b == [] {
      assert a + b == a;
    } else {
      var b', y := b[..|b| - 1], b[|b| - 1];
      assert (a + b)[..|a + b| - 1] == a + b';
      SumAppend(a, b', f);
    }
  }

  /** Taking the post at position `i` out of a run takes its field out of
      the sum and the post out of the multiset. */
  lemma RemoveAt(t: seq<Post>, i: int, f: Field)
    requires 0 <= i < |t|
    ensures Sum(t, f) == Sum(t[..i] + t[i + 1..], f) + Get(t[i], f)
    ensures multiset(t[..i] + t[i + 1..]) == multiset(t) - multiset{t[i]}
  {
    var before, after := t[..i], t[i + 1..];
    assert t == before + [t[i]] + after;
    SumAppend(before, after, f);
    SumAppend(before + [t[i]], after, f);
    SumAppend(before, [t[i]], f);
  }

  /** The sum does not depend on the order of the posts. */
  lemma {:induction false} SumPermutation(s: seq<Post>, t: seq<Post>, f: Field)
    requires multiset(s) == multiset(t)
    ensures Sum(s, f) == Sum(t, f)
    decreases |s|
  {
    if s != [] {
      var init, x := s[..|s| - 1], s[|s| - 1];
      RemoveAt(s, |s| - 1, f);
      assert s[..|s| - 1] + s[|s|..] == init;
      assert x in multiset(t);
      var i :| 0 <= i < |t| && t[i] == x;
      RemoveAt(t, i, f);
      SumPermutation(init, t[..i] + t[i + 1..], f);
    }
  }

  /** The reducer's accumulator `p`. The ghost runs record, in call order,
      every post handed to `add` and to `remove` so far. */
  class Accumulator {
    var count: int
    var sumUps: int
    var sumNumWords: int
    var avgUps: Number
    var avgNumWords: Number

    ghost var added: seq<Post>
    ghost var removed: seq<Post>

    /** The counters always equal their sums over what was added minus
        their sums over what was removed. */
    ghost predicate Valid()
      reads this
    {
      count == |added| - |removed| &&
      sumUps == Sum(added, Ups) - Sum(removed, Ups) &&
      sumNumWords == Sum(added, NumWords) - Sum(removed, NumWords)
    }

    /** The averages are derived from the sums, as both callbacks leave them. */
    ghost predicate AveragesDerived()
      reads this
    {
      avgUps == Divide(sumUps, count) && avgNumWords == Divide(sumNumWords, count)
    }

    /** The posts currently in the group. */
    ghost function Active(): multiset<Post>
      reads this
    {
      multiset(added) - multiset(removed)
    }

    /** `initial()`: everything zero, averages included. */
    constructor Initial()
      ensures Valid() && added == [] && removed == []
      ensures count == 0 && sumUps == 0 && sumNumWords == 0
      ensures avgUps == Finite(0.0) && avgNumWords == Finite(0.0)
    {
      count, sumUps, sumNumWords := 0, 0, 0;
      avgUps, avgNumWords := Finite(0.0), Finite(0.0);
      added, removed := [], [];
    }

    /** `add(p, v)`: one more post, its up-votes and words added to the sums,
        the averages recomputed. */
    method Add(v: Post)
      requires Valid()
      modifies this
      ensures Valid() && AveragesDerived()
      ensures added == old(added) + [v] && removed == old(removed)
      ensures count == old(count) + 1
      ensures sumUps == old(sumUps) + v.ups
      ensures sumNumWords == old(sumNumWords) + v.numWords
    {
      count := count + 1;
      sumUps := sumUps + v.ups;
      sumNumWords := sumNumWords + v.numWords;
      avgUps := Divide(sumUps, count);
      avgNumWords := Divide(sumNumWords, count);
      ghost var before := added;
      added := added + [v];
      assert added[..|added| - 1] == before;
    }

    /** `remove(p, v)`: one post fewer, its up-votes and words subtracted,
        the averages recomputed. */
    method Remove(v: Post)
      requires Valid()
      modifies this
      ensures Valid() && AveragesDerived()
      ensures removed == old(removed) + [v] && added == old(added)
      ensures count == old(count) - 1
      ensures sumUps == old(sumUps) - v.ups
      ensures sumNumWords == old(sumNumWords) - v.numWords
    {
      count := count - 1;
      sumUps := sumUps - v.ups;
      sumNumWords := sumNumWords - v.numWords;
      avgUps := Divide(sumUps, count);
      avgNumWords := Divide(sumNumWords, count);
      ghost var before := removed;
      removed := removed + [v];
      assert removed[..|removed| - 1] == before;
    }
  }

  /** What the index guarantees (only posts that are in get removed) makes
      the accumulator the exact count and sums over the active posts, listed
      in any order, whatever the order of the calls was. */
  lemma ActiveTotals(acc: Accumulator, active: seq<Post>)
    requires acc.Valid() && multiset(acc.removed) <= multiset(acc.added)
    requires multiset(active) == acc.Active()
    ensures acc.count == |active|
    ensures acc.sumUps == Sum(active, Ups)
    ensures acc.sumNumWords == Sum(active, NumWords)
  {
    assert multiset(active + acc.removed) == multiset(acc.added);
    assert |multiset(active + acc.removed)| == |multiset(acc.added)|;
    SumPermutation(active + acc.removed, acc.added, Ups);
    SumPermutation(active + acc.removed, acc.added, NumWords);
    SumAppend(active, acc.removed, Ups);
    SumAppend(active, acc.removed, NumWords);
  }

  /** A group that the filters have emptied holds NaN averages (0/0), not
      a defined value such as zero. */
  lemma EmptiedGroupIsNaN(acc: Accumulator)
    requires acc.Valid() && acc.AveragesDerived() && multiset(acc.removed) <= multiset(acc.added)
    requires acc.count == 0
    ensures acc.Active() == multiset{}
    ensures acc.avgUps == NaN && acc.avgNumWords == NaN
  {
    var d := multiset(acc.added) - multiset(acc.removed);
    assert multiset(acc.added) == d + multiset(acc.removed);
    assert |multiset(acc.added)| == |d| + |multiset(acc.removed)|;
    assert d == multiset{};
    ActiveTotals(acc, []);
  }

  /** A post entering or leaving the active filter set. */
  datatype Event = Enter(post: Post) | Leave(post: Post)

  /** The posts that entered, in event order. */
  function Entered(events: seq<Event>): seq<Post>
  {
    if events == [] then []
    else
      var last := events[|events| - 1];
      Entered(events[..|events| - 1]) + if last.Enter? then [last.post] else []
  }

  /** The posts that left, in event order. */
  function Left(events: seq<Event>): seq<Post>
  {
    if events == [] then []
    else
      var last := events[|events| - 1];
      Left(events[..|events| - 1]) + if last.Leave? then [last.post] else []
  }

  /** One more event adds its post to the entered or to the left posts. */
  lemma EventStep(events: seq<Event>, k: int)
    requires 0 <= k < |events|
    ensures Entered(events[..k + 1]) == Entered(events[..k]) + if events[k].Enter? then [events[k].post] else []
    ensures Left(events[..k + 1]) == Left(events[..k]) + if events[k].Leave? then [events[k].post] else []
  {
    assert events[..k + 1][..k] == events[..k];
  }

  /** How often a post entered is how often its `Enter` event occurs, and
      likewise for leaving: neither depends on the order of the events. */
  lemma {:induction false} EventMultiplicity(events: seq<Event>, p: Post)
    ensures multiset(Entered(events))[p] == multiset(events)[Enter(p)]
    ensures multiset(Left(events))[p] == multiset(events)[Leave(p)]
    decreases |events|
  {
    if events != [] {
      var init, e := events[..|events| - 1], events[|events| - 1];
      assert events == init + [e];
      EventMultiplicity(init, p);
    }
  }

  /** Any reordering of the same events enters and removes the same posts,
      with the same sums. */
  lemma ReorderedEvents(e1: seq<Event>, e2: seq<Event>, f: Field)
    requires multiset(e1) == multiset(e2)
    ensures multiset(Entered(e1)) == multiset(Entered(e2))
    ensures multiset(Left(e1)) == multiset(Left(e2))
    ensures Sum(Entered(e1), f) == Sum(Entered(e2), f)
    ensures Sum(Left(e1), f) == Sum(Left(e2), f)
  {
    forall p: Post
      ensures multiset(Entered(e1))[p] == multiset(Entered(e2))[p]
      ensures multiset(Left(e1))[p] == multiset(Left(e2))[p]
    {
      EventMultiplicity(e1, p);
      EventMultiplicity(e2, p);
    }
    SumPermutation(Entered(e1), Entered(e2), f);
    SumPermutation(Left(e1), Left(e2), f);
  }

  /** The index driving the reducer through a run of events, one callback
      per event. The counters move by the sums over the posts that entered
      and left; by `ReorderedEvents` these do not depend on the order. */
  method Replay(acc: Accumulator, events: seq<Event>)
    requires acc.Valid()
    modifies acc
    ensures acc.Valid()
    ensures acc.added == old(acc.added) + Entered(events)
    ensures acc.removed == old(acc.removed) + Left(events)
    ensures acc.count == old(acc.count) + |Entered(events)| - |Left(events)|
    ensures acc.sumUps == old(acc.sumUps) + Sum(Entered(events), Ups) - Sum(Left(events), Ups)
    ensures acc.sumNumWords == old(acc.sumNumWords) + Sum(Entered(events), NumWords) - Sum(Left(events), NumWords)
    ensures |events| > 0 ==> acc.AveragesDerived()
    ensures |events| == 0 ==> acc.avgUps == old(acc.avgUps) && acc.avgNumWords == old(acc.avgNumWords)
  {
    for k := 0 to |events|
      invariant acc.Valid()
      invariant k > 0 ==> acc.AveragesDerived()
      invariant k == 0 ==> acc.avgUps == old(acc.avgUps) && acc.avgNumWords == old(acc.avgNumWords)
      invariant acc.added == old(acc.added) + Entered(events[..k])
      invariant acc.removed == old(acc.removed) + Left(events[..k])
    {
      EventStep(events, k);
      match events[k]
      case Enter(p) =>
        assert old(acc.added) + Entered(events[..k]) + [p] == old(acc.added) + Entered(events[..k + 1]);
        acc.Add(p);
      case Leave(p) =>
        assert old(acc.removed) + Left(events[..k]) + [p] == old(acc.removed) + Left(events[..k + 1]);
        acc.Remove(p);
    }
    assert events[..|events|] == events;
    SumAppend(old(acc.added), Entered(events), Ups);
    SumAppend(old(acc.added), Entered(events), NumWords);
    SumAppend(old(acc.removed), Left(events), Ups);
    SumAppend(old(acc.removed), Left(events), NumWords);
  }

  /** `remove` undoes `add`: the counters and the active posts are back to
      what they were. */
  method AddThenRemove(acc: Accumulator, v: Post)
    requires acc.Valid()
    modifies acc
    ensures acc.Valid() && acc.AveragesDerived()
    ensures acc.count == old(acc.count)
    ensures acc.sumUps == old(acc.sumUps) && acc.sumNumWords == old(acc.sumNumWords)
    ensures acc.Active() == old(acc.Active())
  {
    acc.Add(v);
    acc.Remove(v);
    assert multiset(acc.added) == multiset(old(acc.added)) + multiset{v};
    assert multiset(acc.removed) == multiset(old(acc.removed)) + multiset{v};
  }

  /** Three posts in topics A and B, then a date filter that drops the one
      in B: A keeps its average up-votes, B's becomes NaN rather than a
      defined value. */
  method TopicScenario() returns (keptAvg: Number, emptiedAvg: Number)
    ensures keptAvg == Finite(15.0) && emptiedAvg == NaN
  {
    var a := new Accumulator.Initial();
    var b := new Accumulator.Initial();
    a.Add(Post(10, 100));
    a.Add(Post(20, 200));
    b.Add(Post(15, 300));
    assert a.sumUps == 30 && a.count == 2;
    keptAvg := a.avgUps;
    b.Remove(Post(15, 300));
    assert b.sumUps == 0 && b.count == 0;
    emptiedAvg := b.avgUps;
  }
}
