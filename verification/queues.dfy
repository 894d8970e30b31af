/**
 * The per-show episode queues both scripts build before selecting: which
 * shows get a queue, how a queue loses its leading specials (season 0), and
 * how one episode is taken from the front of a queue.
 */
module Queues {
  import opened Media

  /** A show gets a queue when it is not blacklisted and is unwatched or watched shows are included. */
  predicate Eligible(s: Show, includeWatched: bool)
  {
    !(s.isWatched && !includeWatched) && s.title !in BLACKLIST
  }

  /** The episodes of `es` that are not specials, in order. */
  function NonSpecials(es: seq<Episode>): (r: seq<Episode>)
    ensures forall k :: 0 <= k < |r| ==> r[k].season != 0
    ensures multiset(r) <= multiset(es)
  {
    if es == [] then []
    else
      var rest := NonSpecials(es[..|es| - 1]);
      assert es == es[..|es| - 1] + [es[|es| - 1]];
      if es[|es| - 1].season == 0 then rest else rest + [es[|es| - 1]]
  }

  /** Nothing but the specials is dropped: every other episode keeps its multiplicity. */
  lemma {:induction false} NonSpecialsKeepsTheRest(es: seq<Episode>, e: Episode)
    ensures multiset(NonSpecials(es))[e] == if e.season == 0 then 0 else multiset(es)[e]
  {
    if es != [] {
      var init, last := es[..|es| - 1], es[|es| - 1];
      NonSpecialsKeepsTheRest(init, e);
      assert es == init + [last];
    }
  }

  /**
   * The episode list a show's queue starts from. Without `--include-watched`
   * it is the unwatched episodes; with it, every episode, except that the newer
   * script asks the server for seasons above 0 only (`parentIndex__gt=0`).
   */
  function Fetch(s: Show, includeWatched: bool, seasonsAboveZero: bool): seq<Episode>
  {
    if !includeWatched then s.unwatched
    else if seasonsAboveZero then NonSpecials(s.episodes)
    else s.episodes
  }

  /**
   * What is fetched: the unwatched list, or, with watched episodes included,
   * episodes of the show's full list, all of them unless specials are dropped,
   * and then every one outside season 0.
   */
  lemma FetchDrawsFromShow(s: Show, includeWatched: bool, seasonsAboveZero: bool)
    ensures !includeWatched ==> Fetch(s, includeWatched, seasonsAboveZero) == s.unwatched
    ensures includeWatched ==> multiset(Fetch(s, includeWatched, seasonsAboveZero)) <= multiset(s.episodes)
    ensures includeWatched && !seasonsAboveZero ==> Fetch(s, includeWatched, seasonsAboveZero) == s.episodes
    ensures includeWatched && seasonsAboveZero ==>
      forall e :: multiset(Fetch(s, includeWatched, seasonsAboveZero))[e] == if e.season == 0 then 0 else multiset(s.episodes)[e]
  {
    if includeWatched && seasonsAboveZero {
      forall e
        ensures multiset(Fetch(s, includeWatched, seasonsAboveZero))[e] == if e.season == 0 then 0 else multiset(s.episodes)[e]
      {
        NonSpecialsKeepsTheRest(s.episodes, e);
      }
    }
  }

  /** Every episode of `es` is a special (true of the empty list). */
  predicate AllSpecials(es: seq<Episode>)
  {
    forall k :: 0 <= k < |es| ==> es[k].season == 0
  }

  /**
   * `q` is `es` without its maximal leading run of specials, and is not empty:
   * a suffix of `es` that starts with a regular episode and is preceded only by
   * specials.
   */
  predicate IsTrimOf(q: seq<Episode>, es: seq<Episode>)
  {
    0 < |q| <= |es| && q == es[|es| - |q|..] && q[0].season != 0
    && AllSpecials(es[..|es| - |q|])
  }

  /**
   * The specials loop: pops the front episode while it is a special. Reading
   * the front of an empty queue is an IndexError in the source, so a queue
   * made only of specials, or empty, is an error.
   */
  method TrimSpecials(title: string, es: seq<Episode>) returns (r: Result<seq<Episode>>)
    ensures r.Err? <==> AllSpecials(es)
    ensures r.Err? ==> r.error == SpecialsOnly(title)
    ensures r.Ok? ==> IsTrimOf(r.value, es)
  {
    var queue := es;
    while |queue| > 0 && queue[0].season == 0
      invariant |queue| <= |es| && queue == es[|es| - |queue|..]
      invariant AllSpecials(es[..|es| - |queue|])
    {
      assert es[..|es| - |queue| + 1] == es[..|es| - |queue|] + [queue[0]];
      queue := queue[1..];
    }
    if |queue| == 0 {
      assert es[..|es|] == es;
      return Err(SpecialsOnly(title));
    }
    assert es[|es| - |queue|] == queue[0];
    return Ok(queue);
  }

  /** The trim is determined by the list: there is only one. */
  lemma TrimIsUnique(q1: seq<Episode>, q2: seq<Episode>, es: seq<Episode>)
    requires IsTrimOf(q1, es) && IsTrimOf(q2, es)
    ensures q1 == q2
  {
  }

  /** Trimming a trimmed queue leaves it as it is. */
  lemma TrimIsIdempotent(q: seq<Episode>, es: seq<Episode>)
    requires IsTrimOf(q, es)
    ensures IsTrimOf(q, q)
  {
    assert q[|q| - |q|..] == q;
  }

  /**
   * The keys of the dictionary built from the first `n` shows, in insertion
   * order: the titles of the eligible shows among them, each once, in the
   * order of their first occurrence.
   */
  function KeysBefore(shows: seq<Show>, n: nat, includeWatched: bool): (ks: seq<string>)
    requires n <= |shows|
    ensures Distinct(ks)
    ensures forall t :: t in ks <==> exists i :: 0 <= i < n && Eligible(shows[i], includeWatched) && shows[i].title == t
  {
    if n == 0 then []
    else
      var ks := KeysBefore(shows, n - 1, includeWatched);
      if Eligible(shows[n - 1], includeWatched) && shows[n - 1].title !in ks then ks + [shows[n - 1].title] else ks
  }

  /** The keys of the show dictionary in insertion order. */
  function Keys(shows: seq<Show>, includeWatched: bool): (ks: seq<string>)
    ensures Distinct(ks)
    ensures forall t :: t in ks <==>
      exists i :: 0 <= i < |shows| && Eligible(shows[i], includeWatched) && shows[i].title == t
  {
    KeysBefore(shows, |shows|, includeWatched)
  }

  /**
   * The show dictionary: `titles` is its key list in insertion order and
   * `queues` maps each title to the episodes still to be taken.
   */
  datatype ShowTable = ShowTable(titles: seq<string>, queues: map<string, seq<Episode>>)
  {
    ghost predicate Valid()
    {
      Distinct(titles) && forall t :: t in queues <==> t in titles
    }
  }

  /** All episodes still queued, over the shows `titles`. */
  function Pool(titles: seq<string>, queues: map<string, seq<Episode>>): multiset<Episode>
    requires forall t :: t in titles ==> t in queues
  {
    if titles == [] then multiset{} else multiset(queues[titles[0]]) + Pool(titles[1..], queues)
  }

  /** The episodes still queued in a show table. */
  function Queued(table: ShowTable): multiset<Episode>
    requires table.Valid()
  {
    Pool(table.titles, table.queues)
  }

  /** Changing the queue of a show outside `titles` leaves their pool alone. */
  lemma {:induction false} PoolFrame(titles: seq<string>, queues: map<string, seq<Episode>>, t: string, q: seq<Episode>)
    requires forall u :: u in titles ==> u in queues
    requires t !in titles
    ensures Pool(titles, queues[t := q]) == Pool(titles, queues)
  {
    if titles != [] {
      PoolFrame(titles[1..], queues, t, q);
    }
  }

  /** Replacing one show's queue swaps its episodes in the pool for the new ones. */
  lemma {:induction false} PoolUpdate(titles: seq<string>, queues: map<string, seq<Episode>>, t: string, q: seq<Episode>)
    requires forall u :: u in titles ==> u in queues
    requires Distinct(titles) && t in titles
    ensures Pool(titles, queues[t := q]) + multiset(queues[t]) == Pool(titles, queues) + multiset(q)
  {
    if titles[0] == t {
      assert t !in titles[1..];
      PoolFrame(titles[1..], queues, t, q);
    } else {
      var head, rest := titles[0], titles[1..];
      assert Distinct(rest) && t in rest;
      PoolUpdate(rest, queues, t, q);
      calc {
        Pool(titles, queues[t := q]) + multiset(queues[t]);
        multiset(queues[head]) + Pool(rest, queues[t := q]) + multiset(queues[t]);
        multiset(queues[head]) + (Pool(rest, queues) + multiset(q));
        Pool(titles, queues) + multiset(q);
      }
    }
  }

  lemma CancelRight<T>(a: multiset<T>, b: multiset<T>, c: multiset<T>)
    requires a + c == b + c
    ensures a == b
  {
    forall x
      ensures a[x] == b[x]
    {
      assert (a + c)[x] == (b + c)[x];
    }
  }

  /**
   * A `random.shuffle` source: the caller's choice of how each queue is
   * permuted, given the queue and a key drawn for the step.
   */
  type Shuffler = (seq<Episode>, nat) -> seq<Episode>

  /** Every shuffle is a permutation of its queue. */
  ghost predicate Permutes(shuffle: Shuffler)
  {
    forall q, key :: multiset(shuffle(q, key)) == multiset(q)
  }

  /**
   * `show_episodes[t].pop(0)`, after `random.shuffle(show_episodes[t])` when
   * `randomize` is set: the front of the (permuted) queue is taken out, the
   * rest of it stays queued and no other show's queue changes.
   */
  method PopFront(table: ShowTable, t: string, randomize: bool, key: nat, shuffle: Shuffler)
    returns (table': ShowTable, e: Episode)
    requires table.Valid() && t in table.queues && table.queues[t] != [] && Permutes(shuffle)
    ensures table'.Valid() && table'.titles == table.titles
    ensures var q := if randomize then shuffle(table.queues[t], key) else table.queues[t];
      |q| > 0 && e == q[0] && table'.queues == table.queues[t := q[1..]]
    ensures e in table.queues[t]
    ensures forall u :: u in table.queues && u != t ==> table'.queues[u] == table.queues[u]
    ensures Queued(table') + multiset{e} == Queued(table)
  {
    var q := table.queues[t];
    if randomize {
      q := shuffle(q, key);
    }
    assert multiset(q) == multiset(table.queues[t]);
    assert |q| > 0 by {
      assert |multiset(q)| == |q|;
    }
    e := q[0];
    assert q == [e] + q[1..];
    table' := ShowTable(table.titles, table.queues[t := q[1..]]);
    PoolUpdate(table.titles, table.queues, t, q[1..]);
    assert multiset(table.queues[t]) == multiset{e} + multiset(q[1..]);
    calc {
      Queued(table') + multiset{e} + multiset(q[1..]);
      Queued(table') + multiset(table.queues[t]);
      Queued(table) + multiset(q[1..]);
    }
    CancelRight(Queued(table') + multiset{e}, Queued(table), multiset(q[1..]));
    assert e in multiset(table.queues[t]);
  }

  /**
   * `shows[i]` is the show whose queue is stored under its title: it is
   * eligible, `q` is its fetched list without the leading specials, and no
   * later eligible show among the first `n` has the same title.
   */
  ghost predicate StoredFrom(shows: seq<Show>, n: nat, i: nat, q: seq<Episode>, includeWatched: bool, seasonsAboveZero: bool)
    requires n <= |shows|
  {
    i < n && Eligible(shows[i], includeWatched)
    && IsTrimOf(q, Fetch(shows[i], includeWatched, seasonsAboveZero))
    && forall j :: i < j < n && Eligible(shows[j], includeWatched) ==> shows[j].title != shows[i].title
  }

  /**
   * Every queue of the dictionary built from the first `n` shows is stored
   * from the show `origin` names for its title.
   */
  ghost predicate StoredAll(shows: seq<Show>, n: nat, queues: map<string, seq<Episode>>, origin: map<string, nat>,
                            includeWatched: bool, seasonsAboveZero: bool)
    requires n <= |shows|
  {
    origin.Keys == queues.Keys
    && forall t :: t in queues ==>
      (origin[t] < n && shows[origin[t]].title == t
       && StoredFrom(shows, n, origin[t], queues[t], includeWatched, seasonsAboveZero))
  }

  /** A show that gets no queue leaves every stored queue's origin valid. */
  lemma StoredAllSkip(shows: seq<Show>, n: nat, queues: map<string, seq<Episode>>, origin: map<string, nat>,
                      includeWatched: bool, seasonsAboveZero: bool)
    requires n < |shows| && !Eligible(shows[n], includeWatched)
    requires StoredAll(shows, n, queues, origin, includeWatched, seasonsAboveZero)
    ensures StoredAll(shows, n + 1, queues, origin, includeWatched, seasonsAboveZero)
  {
  }

  /** Storing show `n`'s trimmed queue under its title keeps every queue's origin valid. */
  lemma {:induction false} StoredAllPut(shows: seq<Show>, n: nat, queues: map<string, seq<Episode>>,
                                        origin: map<string, nat>, q: seq<Episode>,
                                        includeWatched: bool, seasonsAboveZero: bool)
    requires n < |shows| && Eligible(shows[n], includeWatched)
    requires IsTrimOf(q, Fetch(shows[n], includeWatched, seasonsAboveZero))
    requires StoredAll(shows, n, queues, origin, includeWatched, seasonsAboveZero)
    ensures StoredAll(shows, n + 1, queues[shows[n].title := q], origin[shows[n].title := n],
                      includeWatched, seasonsAboveZero)
  {
    var title := shows[n].title;
    var queues', origin' := queues[title := q], origin[title := n];
    forall t | t in queues'
      ensures origin'[t] < n + 1 && shows[origin'[t]].title == t
      ensures StoredFrom(shows, n + 1, origin'[t], queues'[t], includeWatched, seasonsAboveZero)
    {
      if t != title {
        assert StoredFrom(shows, n, origin[t], queues[t], includeWatched, seasonsAboveZero);
      }
    }
  }

  /** Some eligible show among the first `n` has only specials. */
  predicate SpecialsOnlyBefore(shows: seq<Show>, n: nat, includeWatched: bool, seasonsAboveZero: bool)
    requires n <= |shows|
  {
    n > 0 && (SpecialsOnlyBefore(shows, n - 1, includeWatched, seasonsAboveZero)
              || (Eligible(shows[n - 1], includeWatched) && AllSpecials(Fetch(shows[n - 1], includeWatched, seasonsAboveZero))))
  }

  /** The recursive form says what its name says: some eligible show among the first `n` has only specials. */
  lemma {:induction false} SpecialsOnlyBeforeMeans(shows: seq<Show>, n: nat, includeWatched: bool, seasonsAboveZero: bool)
    requires n <= |shows|
    ensures SpecialsOnlyBefore(shows, n, includeWatched, seasonsAboveZero) <==>
      exists i :: 0 <= i < n && Eligible(shows[i], includeWatched) && AllSpecials(Fetch(shows[i], includeWatched, seasonsAboveZero))
  {
    if n > 0 {
      SpecialsOnlyBeforeMeans(shows, n - 1, includeWatched, seasonsAboveZero);
    }
  }

  /** Once every show has been seen, each stored queue comes from some show with its title. */
  lemma StoredAllOrigins(shows: seq<Show>, queues: map<string, seq<Episode>>, origin: map<string, nat>,
                         includeWatched: bool, seasonsAboveZero: bool)
    requires StoredAll(shows, |shows|, queues, origin, includeWatched, seasonsAboveZero)
    ensures forall t :: t in queues ==>
      exists i :: 0 <= i < |shows| && shows[i].title == t
        && StoredFrom(shows, |shows|, i, queues[t], includeWatched, seasonsAboveZero)
  {
    forall t | t in queues
      ensures exists i :: (0 <= i < |shows| && shows[i].title == t
        && StoredFrom(shows, |shows|, i, queues[t], includeWatched, seasonsAboveZero))
    {
      assert shows[origin[t]].title == t;
    }
  }

  /**
   * `table` is the show dictionary built from `shows`: its keys in insertion
   * order are the eligible titles, and each title's queue is the trimmed
   * fetched list of the last eligible show with that title.
   */
  ghost predicate BuiltFrom(shows: seq<Show>, table: ShowTable, includeWatched: bool, seasonsAboveZero: bool)
  {
    table.Valid() && table.titles == Keys(shows, includeWatched)
    && forall t :: t in table.queues ==>
      exists i :: 0 <= i < |shows| && shows[i].title == t
        && StoredFrom(shows, |shows|, i, table.queues[t], includeWatched, seasonsAboveZero)
  }

  /** `e` is in the fetched episode list of some eligible show. */
  ghost predicate FetchedFrom(shows: seq<Show>, e: Episode, includeWatched: bool, seasonsAboveZero: bool)
  {
    exists i :: 0 <= i < |shows| && Eligible(shows[i], includeWatched)
      && e in Fetch(shows[i], includeWatched, seasonsAboveZero)
  }

  /** An episode in the pool is in the queue of one of the shows. */
  lemma {:induction false} PoolMember(titles: seq<string>, queues: map<string, seq<Episode>>, e: Episode)
    requires forall t :: t in titles ==> t in queues
    requires e in Pool(titles, queues)
    ensures exists t :: t in titles && e in queues[t]
  {
    if e !in queues[titles[0]] {
      PoolMember(titles[1..], queues, e);
      var t :| t in titles[1..] && e in queues[t];
      assert t in titles;
    }
  }

  /** Every episode still queued in a built table was fetched for an eligible show. */
  lemma QueuedIsFetched(shows: seq<Show>, table: ShowTable, e: Episode, includeWatched: bool, seasonsAboveZero: bool)
    requires BuiltFrom(shows, table, includeWatched, seasonsAboveZero) && e in Queued(table)
    ensures FetchedFrom(shows, e, includeWatched, seasonsAboveZero)
  {
    PoolMember(table.titles, table.queues, e);
    var t :| t in table.titles && e in table.queues[t];
    var i :| 0 <= i < |shows| && shows[i].title == t
      && StoredFrom(shows, |shows|, i, table.queues[t], includeWatched, seasonsAboveZero);
    TrimMember(table.queues[t], Fetch(shows[i], includeWatched, seasonsAboveZero), e);
  }

  /** Trimming the leading specials keeps only episodes of the list. */
  lemma TrimMember(q: seq<Episode>, es: seq<Episode>, e: Episode)
    requires IsTrimOf(q, es) && e in q
    ensures e in es
  {
    var k :| 0 <= k < |q| && q[k] == e;
    assert es[|es| - |q| + k] == e;
  }

  /**
   * Builds the show dictionary: each eligible show's fetched episodes without
   * their leading specials, a later show with the same title replacing an
   * earlier one. Fails as soon as an eligible show has only specials.
   */
  method BuildQueues(shows: seq<Show>, includeWatched: bool, seasonsAboveZero: bool)
    returns (r: Result<ShowTable>)
    ensures r.Err? <==>
      exists i :: 0 <= i < |shows| && Eligible(shows[i], includeWatched)
        && AllSpecials(Fetch(shows[i], includeWatched, seasonsAboveZero))
    ensures r.Err? ==> r.error.SpecialsOnly?
    ensures r.Ok? ==> BuiltFrom(shows, r.value, includeWatched, seasonsAboveZero)
  {
    var titles: seq<string> := [];
    var queues: map<string, seq<Episode>> := map[];
    ghost var origin: map<string, nat> := map[];
    for n := 0 to |shows|
      invariant titles == KeysBefore(shows, n, includeWatched)
      invariant forall t :: t in queues <==> t in titles
      invariant !SpecialsOnlyBefore(shows, n, includeWatched, seasonsAboveZero)
      invariant StoredAll(shows, n, queues, origin, includeWatched, seasonsAboveZero)
    {
      var show := shows[n];
      if Eligible(show, includeWatched) {
        var trimmed := TrimSpecials(show.title, Fetch(show, includeWatched, seasonsAboveZero));
        if trimmed.Err? {
          return Err(trimmed.error);
        }
        if show.title !in queues {
          titles := titles + [show.title];
        }
        StoredAllPut(shows, n, queues, origin, trimmed.value, includeWatched, seasonsAboveZero);
        queues := queues[show.title := trimmed.value];
        origin := origin[show.title := n];
      } else {
        StoredAllSkip(shows, n, queues, origin, includeWatched, seasonsAboveZero);
      }
    }
    SpecialsOnlyBeforeMeans(shows, |shows|, includeWatched, seasonsAboveZero);
    StoredAllOrigins(shows, queues, origin, includeWatched, seasonsAboveZero);
    return Ok(ShowTable(titles, queues));
  }
}
