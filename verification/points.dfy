/** Selecting points by time. */
module Points {
  import opened Wire
  import opened Codec

  /** The points of the half-open interval [lo, hi), in order. */
  function Between(ps: seq<Point>, lo: int, hi: int): seq<Point> {
    if ps == [] then []
    else
      Between(ps[..|ps| - 1], lo, hi)
      + if lo <= ps[|ps| - 1].timestamp < hi then [ps[|ps| - 1]] else []
  }

  lemma BetweenPush(ps: seq<Point>, p: Point, lo: int, hi: int)
    ensures Between(ps + [p], lo, hi) == Between(ps, lo, hi) + if lo <= p.timestamp < hi then [p] else []
  {
    assert (ps + [p])[..|ps|] == ps;
  }

  lemma {:induction false} BetweenConcat(a: seq<Point>, b: seq<Point>, lo: int, hi: int)
    ensures Between(a + b, lo, hi) == Between(a, lo, hi) + Between(b, lo, hi)
  {
    if b == [] {
      assert a + b == a;
    } else {
      var init, last := b[..|b| - 1], b[|b| - 1];
      assert (a + b)[..|a + b| - 1] == a + init && (a + b)[|a + b| - 1] == last;
      BetweenConcat(a, init, lo, hi);
    }
  }

  lemma {:induction false} BetweenNone(ps: seq<Point>, lo: int, hi: int)
    requires forall p :: p in ps ==> !(lo <= p.timestamp < hi)
    ensures Between(ps, lo, hi) == []
  {
    if ps != [] {
      assert ps[|ps| - 1] in ps;
      BetweenNone(ps[..|ps| - 1], lo, hi);
    }
  }

  lemma {:induction false} BetweenAll(ps: seq<Point>, lo: int, hi: int)
    requires forall p :: p in ps ==> lo <= p.timestamp < hi
    ensures Between(ps, lo, hi) == ps
  {
    if ps != [] {
      assert ps[|ps| - 1] in ps;
      BetweenAll(ps[..|ps| - 1], lo, hi);
    }
  }

  lemma {:induction false} BetweenSplit(ps: seq<Point>, lo: int, mid: int, hi: int)
    requires lo <= mid <= hi
    ensures |Between(ps, lo, hi)| == |Between(ps, lo, mid)| + |Between(ps, mid, hi)|
  {
    if ps != [] {
      BetweenSplit(ps[..|ps| - 1], lo, mid, hi);
    }
  }

  /** The first point of a list goes first. */
  lemma BetweenFirst(ps: seq<Point>, i: nat, lo: int, hi: int)
    requires i < |ps|
    ensures Between(ps[i..], lo, hi)
            == (if lo <= ps[i].timestamp < hi then [ps[i]] else []) + Between(ps[i + 1..], lo, hi)
  {
    assert ps[i..] == [ps[i]] + ps[i + 1..];
    BetweenConcat([ps[i]], ps[i + 1..], lo, hi);
    assert [ps[i]] == [] + [ps[i]];
    BetweenPush([], ps[i], lo, hi);
  }

  lemma {:induction false} BetweenCounts(ps: seq<Point>, lo: int, hi: int, p: Point)
    ensures multiset(Between(ps, lo, hi))[p] == if lo <= p.timestamp < hi then multiset(ps)[p] else 0
  {
    if ps != [] {
      var init, last := ps[..|ps| - 1], ps[|ps| - 1];
      BetweenCounts(init, lo, hi, p);
      assert ps == init + [last];
      BetweenPush(init, last, lo, hi);
      hide Between;
    }
  }

  lemma {:induction false} BetweenThins(ps: seq<Point>, lo: int, hi: int)
    ensures Thinned(ps, Between(ps, lo, hi), TWO63)
  {
    if ps != [] {
      var init, last := ps[..|ps| - 1], ps[|ps| - 1];
      BetweenThins(init, lo, hi);
      var rest := Between(init, lo, hi);
      assert (rest + [last])[..|rest|] == rest && rest + [] == rest;
    }
  }

  /**
   * What such a selection is: a point inside the interval is in it as often as in the list, a point outside is not in
   * it, and the order is that of the list.
   */
  lemma BetweenSelects(ps: seq<Point>, lo: int, hi: int)
    ensures forall p: Point ::
              multiset(Between(ps, lo, hi))[p] == if lo <= p.timestamp < hi then multiset(ps)[p] else 0
    ensures forall p: Point :: p in Between(ps, lo, hi) <==> p in ps && lo <= p.timestamp < hi
    ensures Thinned(ps, Between(ps, lo, hi), TWO63)
  {
    hide Between, Thinned;
    BetweenThins(ps, lo, hi);
    forall p: Point
      ensures multiset(Between(ps, lo, hi))[p] == if lo <= p.timestamp < hi then multiset(ps)[p] else 0
      ensures p in Between(ps, lo, hi) <==> p in ps && lo <= p.timestamp < hi
    {
      BetweenCounts(ps, lo, hi, p);
      assert p in Between(ps, lo, hi) <==> multiset(Between(ps, lo, hi))[p] > 0;
      assert p in ps <==> multiset(ps)[p] > 0;
    }
  }

  // ---------------------------------------------------------------- points removed from a list

  /** `after` is `before` with some points left out, all of them older than `limit`; nothing is new or out of order. */
  predicate Thinned(before: seq<Point>, after: seq<Point>, limit: int)
    decreases |before|
  {
    if before == [] then after == []
    else
      var init, last := before[..|before| - 1], before[|before| - 1];
      || (after != [] && after[|after| - 1] == last && Thinned(init, after[..|after| - 1], limit))
      || (last.timestamp < limit && Thinned(init, after, limit))
  }

  lemma {:induction false} ThinnedSame(ps: seq<Point>, limit: int)
    ensures Thinned(ps, ps, limit)
  {
    if ps != [] {
      ThinnedSame(ps[..|ps| - 1], limit);
    }
  }

  lemma {:induction false} ThinnedAway(ps: seq<Point>, limit: int)
    requires forall p :: p in ps ==> p.timestamp < limit
    ensures Thinned(ps, [], limit)
  {
    if ps != [] {
      assert ps[|ps| - 1] in ps;
      ThinnedAway(ps[..|ps| - 1], limit);
    }
  }

  lemma {:induction false} ThinnedConcat(a: seq<Point>, a': seq<Point>, b: seq<Point>, b': seq<Point>, limit: int)
    requires Thinned(a, a', limit) && Thinned(b, b', limit)
    ensures Thinned(a + b, a' + b', limit)
    decreases |b|
  {
    if b == [] {
      assert a + b == a && a' + b' == a';
    } else {
      var init, last := b[..|b| - 1], b[|b| - 1];
      assert (a + b)[..|a + b| - 1] == a + init && (a + b)[|a + b| - 1] == last;
      if last.timestamp < limit && Thinned(init, b', limit) {
        ThinnedConcat(a, a', init, b', limit);
      } else {
        ThinnedConcat(a, a', init, b'[..|b'| - 1], limit);
        assert (a' + b')[..|a' + b'| - 1] == a' + b'[..|b'| - 1];
      }
    }
  }

  lemma {:induction false} ThinnedTransitive(a: seq<Point>, b: seq<Point>, c: seq<Point>, limit: int)
    requires Thinned(a, b, limit) && Thinned(b, c, limit)
    ensures Thinned(a, c, limit)
    decreases |a|
  {
    if a != [] {
      var init, last := a[..|a| - 1], a[|a| - 1];
      if last.timestamp < limit && Thinned(init, b, limit) {
        ThinnedTransitive(init, b, c, limit);
      } else {
        var init' := b[..|b| - 1];
        if last.timestamp < limit && Thinned(init', c, limit) {
          ThinnedTransitive(init, init', c, limit);
        } else {
          ThinnedTransitive(init, init', c[..|c| - 1], limit);
        }
      }
    }
  }

  /** What is not older than the limit is all still there. */
  lemma {:induction false} ThinnedKeeps(before: seq<Point>, after: seq<Point>, limit: int, hi: int)
    requires Thinned(before, after, limit)
    ensures Between(after, limit, hi) == Between(before, limit, hi)
    decreases |before|
  {
    if before != [] {
      var init, last := before[..|before| - 1], before[|before| - 1];
      if after != [] && after[|after| - 1] == last && Thinned(init, after[..|after| - 1], limit) {
        ThinnedKeeps(init, after[..|after| - 1], limit, hi);
      } else {
        ThinnedKeeps(init, after, limit, hi);
      }
    }
  }
}
