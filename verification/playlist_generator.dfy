/**
 * The older script's `get_random_episodes`: build one queue per eligible
 * show, then repeatedly pick a show at random and take the front of its
 * queue, unless the queue is empty or its front episode has a missing
 * predecessor, until the playlist holds `n` episodes.
 *
 * The source loop has no bound: when fewer than `n` episodes are queued it
 * never ends. The model draws its random choices from a finite list supplied
 * by the caller and reports `OutOfDraws` when that list is used up, so a run
 * that never fills stands for the source's endless loop.
 */
module PlaylistGenerator {
  import opened Media
  import opened Queues
  import opened Continuity

  /** One iteration's random choices: the index into the show titles and the shuffle key. */
  datatype Draw = Draw(show: nat, shuffleKey: nat)

  /**
   * One iteration of the selection loop for the picked show `t`. An empty
   * queue, or a front episode whose predecessor is missing (when the check is
   * on), leaves everything as it was; otherwise the queue is shuffled when
   * `randomize` is set and its front is moved to the playlist.
   */
  method Step(table: ShowTable, playlist: seq<Episode>, cat: Catalog, flags: Flags, d: Draw, shuffle: Shuffler)
    returns (table': ShowTable, playlist': seq<Episode>)
    requires table.Valid() && d.show < |table.titles| && Permutes(shuffle)
    ensures table'.Valid() && table'.titles == table.titles
    ensures var t := table.titles[d.show];
      var q := table.queues[t];
      if q == [] || (!flags.ignoreSkipped && SkippedMissing(cat, t, q[0])) then
        table' == table && playlist' == playlist
      else
        var q' := if flags.randomize then shuffle(q, d.shuffleKey) else q;
        |q'| > 0 && playlist' == playlist + [q'[0]] && table'.queues == table.queues[t := q'[1..]]
    ensures multiset(playlist') + Queued(table') == multiset(playlist) + Queued(table)
  {
    var t := table.titles[d.show];
    table', playlist' := table, playlist;
    if |table.queues[t]| > 0 {
      if !flags.ignoreSkipped && SkippedMissing(cat, t, table.queues[t][0]) {
        return;
      }
      var e;
      table', e := PopFront(table, t, flags.randomize, d.shuffleKey, shuffle);
      playlist' := playlist + [e];
    }
  }

  /**
   * The selection loop `while len(next_n) < n`. Every draw's show index must
   * be a valid index into the show titles (`random.choice` over the keys);
   * with no show at all `random.choice` raises.
   */
  method SelectEpisodes(table0: ShowTable, cat: Catalog, flags: Flags, n: int, draws: seq<Draw>, shuffle: Shuffler)
    returns (r: Outcome<Episode>, ghost rest: ShowTable)
    requires table0.Valid() && Permutes(shuffle)
    requires forall d :: d in draws ==> d.show < |table0.titles|
    ensures r.Failed? <==> n > 0 && table0.titles == []
    ensures r.Failed? ==> r.error == EmptyChoice
    ensures r.Filled? ==> |r.playlist| == if n < 0 then 0 else n
    ensures r.OutOfDraws? ==> |r.playlist| < n
    ensures !r.Failed? ==>
      rest.Valid() && rest.titles == table0.titles && multiset(r.playlist) + Queued(rest) == Queued(table0)
    ensures r.Filled? ==> n <= |Queued(table0)|
  {
    var playlist: seq<Episode> := [];
    var table := table0;
    var i := 0;
    rest := table0;
    while |playlist| < n
      invariant 0 <= i <= |draws|
      invariant table.Valid() && table.titles == table0.titles
      invariant multiset(playlist) + Queued(table) == Queued(table0)
      invariant n <= 0 ==> playlist == []
      invariant n > 0 ==> |playlist| <= n
      decreases |draws| - i
    {
      if |table.titles| == 0 {
        return Failed(EmptyChoice), rest;
      }
      if i == |draws| {
        return OutOfDraws(playlist), table;
      }
      assert draws[i] in draws;
      table, playlist := Step(table, playlist, cat, flags, draws[i], shuffle);
      i := i + 1;
    }
    assert |multiset(playlist)| == |playlist|;
    return Filled(playlist), table;
  }

  /**
   * `get_random_episodes`: adjusts the flags, builds the show queues (the
   * older script fetches every episode, specials included, when watched
   * episodes are included) and runs the selection loop. `table` is the show
   * dictionary the loop started from.
   */
  method GetRandomEpisodes(shows: seq<Show>, flags0: Flags, cat: Catalog, n: int, draws: seq<Draw>, shuffle: Shuffler)
    returns (r: Outcome<Episode>, ghost table: ShowTable)
    requires Permutes(shuffle)
    requires forall d :: d in draws ==> d.show < |Keys(shows, flags0.includeWatched)|
    ensures r.Failed? <==>
      (exists i :: 0 <= i < |shows| && Eligible(shows[i], flags0.includeWatched)
         && AllSpecials(Fetch(shows[i], flags0.includeWatched, false)))
      || (n > 0 && Keys(shows, flags0.includeWatched) == [])
    ensures r == Failed(EmptyChoice) <==>
      !(exists i :: 0 <= i < |shows| && Eligible(shows[i], flags0.includeWatched)
          && AllSpecials(Fetch(shows[i], flags0.includeWatched, false)))
      && n > 0 && Keys(shows, flags0.includeWatched) == []
    ensures r.Filled? ==> |r.playlist| == if n < 0 then 0 else n
    ensures r.OutOfDraws? ==> |r.playlist| < n
    ensures !r.Failed? ==>
      BuiltFrom(shows, table, flags0.includeWatched, false) && multiset(r.playlist) <= Queued(table)
    ensures !r.Failed? ==> forall e :: e in r.playlist ==> FetchedFrom(shows, e, flags0.includeWatched, false)
  {
    var flags := ForceFlags(flags0, |shows|);
    var built := BuildQueues(shows, flags.includeWatched, false);
    if built.Err? {
      return Failed(built.error), ShowTable([], map[]);
    }
    table := built.value;
    ghost var rest;
    r, rest := SelectEpisodes(built.value, cat, flags, n, draws, shuffle);
    if !r.Failed? {
      forall e | e in r.playlist
        ensures FetchedFrom(shows, e, flags0.includeWatched, false)
      {
        assert e in multiset(r.playlist);
        QueuedIsFetched(shows, table, e, flags0.includeWatched, false);
      }
    }
  }
}
