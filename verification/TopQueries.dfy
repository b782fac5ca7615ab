/** The queries worth showing: bounded sorted sets, with a threshold that rejects most queries
without looking at the set. */
module TopQueries {
  import opened Lexicographic

  const LIMIT: nat := 10

  datatype TopQuery = TopQuery(weight: nat, rowsWritten: nat, rowsRead: nat, query: seq<nat>)

  datatype SlowestQuery = SlowestQuery(elapsed: nat, query: seq<nat>, rowsWritten: nat, rowsRead: nat)

  /** An entry of a sorted set: the score the threshold looks at, then the other fields. */
  datatype Entry = Entry(score: nat, rest: seq<nat>)

  predicate Before(a: Entry, b: Entry) {
    a.score < b.score || (a.score == b.score && Less(a.rest, b.rest))
  }

  lemma BeforeIsStrict(a: Entry, b: Entry)
    ensures !(Before(a, b) && Before(b, a)) && !Before(a, a) && (a != b ==> Before(a, b) || Before(b, a))
  {
    LessIsStrict(a.rest, b.rest);
    LessIsStrict(a.rest, a.rest);
  }

  lemma BeforeIsTransitive(a: Entry, b: Entry, c: Entry)
    requires Before(a, b) && Before(b, c)
    ensures Before(a, c)
  {
    if a.score == b.score == c.score {
      LessIsTransitive(a.rest, b.rest, c.rest);
    }
  }

  // ----- The two kinds of entries -----

  function Top(q: TopQuery): Entry { Entry(q.weight, [q.rowsWritten, q.rowsRead] + q.query) }

  /** A string in the middle ends with a code below all others. */
  function Ended(query: seq<nat>, w: nat, r: nat): seq<nat> {
    if query == [] then [0, w, r] else [query[0] + 1] + Ended(query[1..], w, r)
  }

  function Slow(q: SlowestQuery): Entry { Entry(q.elapsed, Ended(q.query, q.rowsWritten, q.rowsRead)) }

  /** Field by field, in the order of declaration. */
  predicate TopBefore(a: TopQuery, b: TopQuery) {
    a.weight < b.weight || (a.weight == b.weight &&
    (a.rowsWritten < b.rowsWritten || (a.rowsWritten == b.rowsWritten &&
    (a.rowsRead < b.rowsRead || (a.rowsRead == b.rowsRead && Less(a.query, b.query))))))
  }

  predicate SlowBefore(a: SlowestQuery, b: SlowestQuery) {
    a.elapsed < b.elapsed || (a.elapsed == b.elapsed &&
    (Less(a.query, b.query) || (a.query == b.query &&
    (a.rowsWritten < b.rowsWritten || (a.rowsWritten == b.rowsWritten && a.rowsRead < b.rowsRead)))))
  }

  lemma FirstDecides(x: nat, a: seq<nat>, y: nat, b: seq<nat>)
    ensures Less([x] + a, [y] + b) <==> x < y || (x == y && Less(a, b))
  {
    assert ([x] + a)[1..] == a && ([y] + b)[1..] == b;
  }

  lemma TopOrder(a: TopQuery, b: TopQuery)
    ensures TopBefore(a, b) <==> Before(Top(a), Top(b))
    ensures Top(a) == Top(b) ==> a == b
  {
    var x, y := [a.rowsRead] + a.query, [b.rowsRead] + b.query;
    assert Top(a).rest == [a.rowsWritten] + x && Top(b).rest == [b.rowsWritten] + y;
    FirstDecides(a.rowsWritten, x, b.rowsWritten, y);
    FirstDecides(a.rowsRead, a.query, b.rowsRead, b.query);
    hide Less;
    assert x[1..] == a.query && y[1..] == b.query;
    assert ([a.rowsWritten] + x)[1..] == x && ([b.rowsWritten] + y)[1..] == y;
  }

  lemma {:induction false} EndedOrder(a: seq<nat>, w: nat, r: nat, b: seq<nat>, x: nat, s: nat)
    ensures Less(Ended(a, w, r), Ended(b, x, s)) <==>
            Less(a, b) || (a == b && (w < x || (w == x && r < s)))
    ensures Ended(a, w, r) == Ended(b, x, s) ==> a == b && w == x && r == s
  {
    var p, q := Ended(a, w, r), Ended(b, x, s);
    if a == [] && b == [] {
      assert p == [0] + ([w] + [r]) && q == [0] + ([x] + [s]);
      FirstDecides(0, [w] + [r], 0, [x] + [s]);
      FirstDecides(w, [r], x, [s]);
      assert p[1] == w && p[2] == r && q[1] == x && q[2] == s;
    } else if a != [] && b != [] {
      assert p[1..] == Ended(a[1..], w, r) && q[1..] == Ended(b[1..], x, s);
      EndedOrder(a[1..], w, r, b[1..], x, s);
      assert a == [a[0]] + a[1..] && b == [b[0]] + b[1..];
    } else {
      assert p[0] != q[0];
    }
  }

  lemma SlowOrder(a: SlowestQuery, b: SlowestQuery)
    ensures SlowBefore(a, b) <==> Before(Slow(a), Slow(b))
    ensures Slow(a) == Slow(b) ==> a == b
  {
    EndedOrder(a.query, a.rowsWritten, a.rowsRead, b.query, b.rowsWritten, b.rowsRead);
  }

  // ----- The bounded set -----

  /** The least entry, which a sorted set gives up first. */
  function First(s: set<Entry>): (m: Entry)
    requires s != {}
    ensures m in s && forall x | x in s :: x == m || Before(m, x)
  {
    LeastExists(s);
    var m :| m in s && forall x | x in s :: x == m || Before(m, x);
    assert forall n | n in s && (forall x | x in s :: x == n || Before(n, x)) :: n == m by {
      forall n | n in s && (forall x | x in s :: x == n || Before(n, x)) ensures n == m {
        BeforeIsStrict(m, n);
      }
    }
    m
  }

  lemma {:induction false} LeastExists(s: set<Entry>)
    requires s != {}
    ensures exists m :: m in s && forall x | x in s :: x == m || Before(m, x)
  {
    var e :| e in s;
    var rest := s - {e};
    var least := e;
    if rest != {} {
      LeastExists(rest);
      var m :| m in rest && forall x | x in rest :: x == m || Before(m, x);
      if Before(e, m) {
        forall x | x in rest ensures Before(e, x) {
          if x != m {
            BeforeIsTransitive(e, m, x);
          }
        }
      } else {
        BeforeIsStrict(e, m);
        least := m;
      }
    }
    forall x | x in s ensures x == least || Before(least, x) {
      assert x == e || x in rest;
    }
  }

  datatype Board = Board(entries: set<Entry>, threshold: nat)

  function Insert(b: Board, e: Entry): Board {
    var s := b.entries + {e};
    if |s| > LIMIT then
      var t := s - {First(s)};
      assert t != {} by { assert |t| == |s| - 1; }
      Board(t, First(t).score)
    else Board(s, b.threshold)
  }

  /** Entries below the threshold are not looked at. */
  function Offer(b: Board, e: Entry): Board {
    if e.score >= b.threshold then Insert(b, e) else b
  }

  /** The ten greatest entries of those seen, or all of them: none left out is greater. */
  ghost predicate Greatest(s: set<Entry>, seen: set<Entry>) {
    && s <= seen && |s| == (if |seen| < 10 then |seen| else 10)
    && forall x, y | x in s && y in seen && y !in s :: Before(y, x)
  }

  ghost predicate Inv(b: Board, seen: set<Entry>) {
    && Greatest(b.entries, seen)
    && b.threshold == if |seen| <= 10 then 0 else First(b.entries).score
  }

  lemma {:induction false} Sizes(a: set<Entry>, b: set<Entry>)
    requires a <= b
    ensures |a| <= |b| && (|a| == |b| ==> a == b)
  {
    if x :| x in b && x !in a {
      Sizes(a, b - {x});
      assert |b - {x}| == |b| - 1;
    } else {
      assert a == b;
    }
  }

  /** A rejected entry would not have been kept. */
  lemma RejectKeeps(b: Board, seen: set<Entry>, e: Entry)
    requires Inv(b, seen) && e.score < b.threshold
    ensures Inv(b, seen + {e})
  {
    Sizes(b.entries, seen);
    Sizes(seen, seen + {e});
  }

  /** While there is room everything is kept. */
  lemma RoomKeeps(b: Board, seen: set<Entry>, e: Entry)
    requires Inv(b, seen) && |b.entries + {e}| <= LIMIT
    ensures Inv(Insert(b, e), seen + {e})
  {
    var s := b.entries + {e};
    Sizes(b.entries, seen);
    Sizes(b.entries, s);
    Sizes(s, seen + {e});
    if |seen| < LIMIT {
      assert b.entries == seen;
    } else {
      assert |b.entries| == LIMIT && b.entries == s;
      Sizes(seen, seen + {e});
      assert e in b.entries;
      assert seen + {e} == seen;
    }
  }

  /** A full set gives up its least entry. */
  lemma FullKeeps(b: Board, seen: set<Entry>, e: Entry)
    requires Inv(b, seen) && |b.entries + {e}| > LIMIT
    ensures Inv(Insert(b, e), seen + {e})
  {
    var s := b.entries + {e};
    var m := First(s);
    var t := s - {m};
    assert |s| == LIMIT + 1 && |t| == LIMIT;
    Sizes(s, seen + {e});
    forall x, y | x in t && y in seen + {e} && y !in t ensures Before(y, x) {
      if y != m {
        EvictedBefore(b, seen, e, m, x, y);
      }
    }
    forall x | x in t ensures First(t).score <= x.score {}
  }

  lemma EvictedBefore(b: Board, seen: set<Entry>, e: Entry, m: Entry, x: Entry, y: Entry)
    requires Inv(b, seen) && m in b.entries + {e} && (forall z | z in b.entries + {e} :: z == m || Before(m, z))
    requires x in b.entries + {e} && x != m && y in seen && y !in b.entries + {e}
    ensures Before(y, x)
  {
    if x !in b.entries {
      assert m in b.entries;
      BeforeIsTransitive(y, m, x);
    }
  }

  lemma OfferKeeps(b: Board, seen: set<Entry>, e: Entry)
    requires Inv(b, seen)
    ensures Inv(Offer(b, e), seen + {e})
  {
    hide Inv;
    hide Insert;
    if e.score < b.threshold {
      RejectKeeps(b, seen, e);
    } else if |b.entries + {e}| <= LIMIT {
      RoomKeeps(b, seen, e);
    } else {
      FullKeeps(b, seen, e);
    }
  }

  /** There is only one such set. */
  lemma OneGreatest(a: set<Entry>, b: set<Entry>, seen: set<Entry>)
    requires Greatest(a, seen) && Greatest(b, seen)
    ensures a == b
  {
    if a != b {
      if a <= b {
        Sizes(a, b);
      } else if b <= a {
        Sizes(b, a);
      } else {
        var x :| x in a && x !in b;
        var y :| y in b && y !in a;
        BeforeIsStrict(x, y);
        assert false;
      }
    }
  }

  // ----- Runs -----

  datatype Event = Seen(e: Entry) | Reset

  function Do(b: Board, ev: Event): Board {
    match ev
    case Seen(e) => Offer(b, e)
    case Reset => Board({}, 0)
  }

  function After(events: seq<Event>): Board {
    if events == [] then Board({}, 0) else Do(After(events[..|events| - 1]), events[|events| - 1])
  }

  function SeenSince(events: seq<Event>): set<Entry> {
    if events == [] || events[|events| - 1].Reset? then {}
    else SeenSince(events[..|events| - 1]) + {events[|events| - 1].e}
  }

  /** After any updates and resets the set holds the ten greatest distinct entries seen since the
      last reset: the threshold never changes the answer. */
  lemma {:induction false} ShowsTheGreatest(events: seq<Event>)
    ensures Inv(After(events), SeenSince(events)) && Greatest(After(events).entries, SeenSince(events))
  {
    if events != [] && events[|events| - 1].Seen? {
      ShowsTheGreatest(events[..|events| - 1]);
      hide Offer;
      OfferKeeps(After(events[..|events| - 1]), SeenSince(events[..|events| - 1]), events[|events| - 1].e);
    }
  }

  // ----- The statistics of a namespace -----

  class Stats {
    var topQueries: set<Entry>
    var topThreshold: nat
    var slowestQueries: set<Entry>
    var slowestThreshold: nat

    constructor ()
      ensures TopBoard() == Board({}, 0) && SlowestBoard() == Board({}, 0)
    {
      topQueries, topThreshold, slowestQueries, slowestThreshold := {}, 0, {}, 0;
    }

    ghost function TopBoard(): Board
      reads this
    {
      Board(topQueries, topThreshold)
    }

    ghost function SlowestBoard(): Board
      reads this
    {
      Board(slowestQueries, slowestThreshold)
    }

    method AddTopQuery(q: TopQuery)
      modifies this`topQueries, this`topThreshold
      ensures TopBoard() == Insert(old(TopBoard()), Top(q))
    {
      topQueries := topQueries + {Top(q)};
      if |topQueries| > LIMIT {
        ghost var s := topQueries;
        topQueries := topQueries - {First(topQueries)};
        assert |topQueries| == |s| - 1;
        topThreshold := First(topQueries).score;
      }
    }

    method AddSlowestQuery(q: SlowestQuery)
      modifies this`slowestQueries, this`slowestThreshold
      ensures SlowestBoard() == Insert(old(SlowestBoard()), Slow(q))
    {
      slowestQueries := slowestQueries + {Slow(q)};
      if |slowestQueries| > LIMIT {
        ghost var s := slowestQueries;
        slowestQueries := slowestQueries - {First(slowestQueries)};
        assert |slowestQueries| == |s| - 1;
        slowestThreshold := First(slowestQueries).score;
      }
    }

    /** A statement that touched no row counts as one row read. */
    method Update(sql: seq<nat>, rowsRead: nat, rowsWritten: nat, elapsed: nat)
      modifies this
      ensures var read := if rowsRead == 0 && rowsWritten == 0 then 1 else rowsRead;
        && TopBoard() == Offer(old(TopBoard()), Top(TopQuery(read + rowsWritten, rowsWritten, read, sql)))
        && SlowestBoard() == Offer(old(SlowestBoard()), Slow(SlowestQuery(elapsed, sql, rowsWritten, read)))
    {
      var read := if rowsRead == 0 && rowsWritten == 0 then 1 else rowsRead;
      var weight := read + rowsWritten;
      if weight >= topThreshold {
        AddTopQuery(TopQuery(weight, rowsWritten, read, sql));
      }
      if elapsed >= slowestThreshold {
        AddSlowestQuery(SlowestQuery(elapsed, sql, rowsWritten, read));
      }
    }

    method ResetTopQueries()
      modifies this`topQueries, this`topThreshold
      ensures TopBoard() == Board({}, 0)
    {
      topQueries, topThreshold := {}, 0;
    }

    method ResetSlowestQueries()
      modifies this`slowestQueries, this`slowestThreshold
      ensures SlowestBoard() == Board({}, 0)
    {
      slowestQueries, slowestThreshold := {}, 0;
    }
  }
}
