/**
 * The newer script's `get_random_episodes_or_movies`: gather the shows and
 * movies of the provided library sections, build one queue per eligible
 * show, clamp the requested size to the number of top-level items in those
 * sections, then fill the playlist with episodes and movies.
 *
 * Every iteration picks a media kind among those whose source list is not
 * empty. A show pick takes the front of that show's queue (after an in-place
 * shuffle with `--randomize`) or does nothing when the queue is empty. A movie
 * pick first runs the blacklist scan, whose counters are never used, and then
 * appends a movie drawn from the whole pool, with replacement.
 *
 * `--ignore-skipped` is a `store_true` flag whose default is already true, so
 * the continuity check in this loop can never run; it is not modelled here.
 * Random choices come from a finite list of draws, as in PlaylistGenerator.
 */
module PlexSelection {
  import opened Media
  import opened Queues

  datatype MediaKind = ShowKind | MovieKind

  /** A playlist entry: an episode of a show or a movie. */
  datatype Item = EpisodeItem(episode: Episode) | MovieItem(movie: Movie)

  /**
   * One iteration's random choices: the media kind (used only when both kinds
   * are available), the index into the show titles, the shuffle key and the
   * index into the movie pool.
   */
  datatype MediaDraw = MediaDraw(coin: MediaKind, show: nat, shuffleKey: nat, movie: nat)

  /** What the loop over the provided sections collects. */
  datatype Gathered = Gathered(total: nat, shows: seq<Show>, movies: seq<Movie>)

  /** The number of top-level items of one section: `len(section.all())`. */
  function SectionSize(l: Library): nat
  {
    match l
    case ShowLibrary(_, shows) => |shows|
    case MovieLibrary(_, movies) => |movies|
    case MusicLibrary(_, size) => size
    case PhotoLibrary(_, size) => size
    case UnknownLibrary(_, size) => size
  }

  /**
   * The number of top-level items (shows, movies, other items) of the
   * sections, summed: every section's items count towards it.
   */
  function TopLevelCount(libs: seq<Library>): (c: nat)
    ensures forall k :: 0 <= k < |libs| ==> SectionSize(libs[k]) <= c
  {
    if libs == [] then 0
    else TopLevelCount(libs[..|libs| - 1]) + SectionSize(libs[|libs| - 1])
  }

  /** The shows of the show sections, section after section. */
  function ShowsOf(libs: seq<Library>): seq<Show>
  {
    if libs == [] then []
    else
      var last := libs[|libs| - 1];
      ShowsOf(libs[..|libs| - 1]) + if last.ShowLibrary? then last.shows else []
  }

  /** The unwatched movies of `movies`, in order: `section.all(unwatched=True)`. */
  function Unwatched(movies: seq<Movie>): (r: seq<Movie>)
    ensures |r| <= |movies|
    ensures forall m :: m in r <==> m in movies && !m.watched
  {
    if movies == [] then []
    else
      var last := movies[|movies| - 1];
      var init := movies[..|movies| - 1];
      assert movies == init + [last];
      Unwatched(init) + if last.watched then [] else [last]
  }

  /** The unwatched movies of the movie sections, section after section. */
  function MoviesOf(libs: seq<Library>): seq<Movie>
  {
    if libs == [] then []
    else
      var last := libs[|libs| - 1];
      MoviesOf(libs[..|libs| - 1]) + if last.MovieLibrary? then Unwatched(last.movies) else []
  }

  predicate HasMovieLibrary(libs: seq<Library>)
  {
    exists i :: 0 <= i < |libs| && libs[i].MovieLibrary?
  }

  /**
   * The shows and movies the selection can draw from are among the top-level
   * items the target is clamped to, so they never outnumber them.
   */
  lemma {:induction false} CandidatesWithinCount(libs: seq<Library>)
    ensures |ShowsOf(libs)| + |MoviesOf(libs)| <= TopLevelCount(libs)
  {
    if libs != [] {
      CandidatesWithinCount(libs[..|libs| - 1]);
    }
  }

  /**
   * The loop over the provided sections: it counts every top-level item,
   * concatenates the shows of show sections and the unwatched movies of movie
   * sections. With `--include-watched` a movie section is stored as the
   * section object itself rather than a list, which the model reports as an
   * error.
   */
  method GatherSections(libs: seq<Library>, includeWatched: bool) returns (r: Result<Gathered>)
    ensures r.Err? <==> includeWatched && HasMovieLibrary(libs)
    ensures r.Err? ==> r.error == WatchedMovieSection
    ensures r.Ok? ==>
      r.value.total == TopLevelCount(libs) && r.value.shows == ShowsOf(libs) && r.value.movies == MoviesOf(libs)
  {
    var total := 0;
    var shows: seq<Show> := [];
    var movies: seq<Movie> := [];
    for i := 0 to |libs|
      invariant total == TopLevelCount(libs[..i])
      invariant shows == ShowsOf(libs[..i]) && movies == MoviesOf(libs[..i])
      invariant includeWatched ==> forall k :: 0 <= k < i ==> !libs[k].MovieLibrary?
    {
      var lib := libs[i];
      assert libs[..i + 1][..i] == libs[..i] && libs[..i + 1][i] == lib;
      match lib {
        case ShowLibrary(_, s) =>
          total := total + |s|;
          shows := shows + s;
        case MovieLibrary(_, m) =>
          if includeWatched {
            assert libs[i].MovieLibrary?;
            return Err(WatchedMovieSection);
          }
          total := total + |m|;
          movies := movies + Unwatched(m);
        case MusicLibrary(_, size) =>
          total := total + size;
        case PhotoLibrary(_, size) =>
          total := total + size;
        case UnknownLibrary(_, size) =>
          total := total + size;
      }
    }
    assert libs[..|libs|] == libs;
    return Ok(Gathered(total, shows, movies));
  }

  /**
   * `requested_playlist_items` after the clamp: the requested size, lowered
   * to the number of top-level items when that is smaller.
   */
  function Target(requested: int, total: nat): (target: int)
    ensures target <= requested && target <= total
    ensures target == requested || target == total
  {
    if total < requested then total else requested
  }

  /**
   * The media kind of an iteration: the coin decides when shows and movies
   * are both available, the only available kind is taken otherwise, and
   * `None` is the `exit(1)` when neither is.
   */
  function ChooseKind(showsAvailable: bool, moviesAvailable: bool, coin: MediaKind): (k: Option<MediaKind>)
    ensures k == None <==> !showsAvailable && !moviesAvailable
    ensures k == Some(ShowKind) ==> showsAvailable
    ensures k == Some(MovieKind) ==> moviesAvailable
    ensures showsAvailable && moviesAvailable ==> k == Some(coin)
  {
    if showsAvailable && moviesAvailable then Some(coin)
    else if moviesAvailable then Some(MovieKind)
    else if showsAvailable then Some(ShowKind)
    else None
  }

  predicate Blacklisted(m: Movie)
  {
    m.title in BLACKLIST
  }

  /** Movies `j`, `j + 1` and `j + 2` of the pool are all blacklisted. */
  predicate TripleAt(movies: seq<Movie>, j: int)
  {
    0 <= j && j + 2 < |movies| && Blacklisted(movies[j]) && Blacklisted(movies[j + 1]) && Blacklisted(movies[j + 2])
  }

  /** The number of blacklisted movies in `movies`. */
  function BlacklistedCount(movies: seq<Movie>): (c: nat)
    ensures c <= |movies|
  {
    if movies == [] then 0
    else BlacklistedCount(movies[..|movies| - 1]) + if Blacklisted(movies[|movies| - 1]) then 1 else 0
  }

  /** Scanning one more movie adds one to the count exactly when it is blacklisted. */
  lemma CountStep(movies: seq<Movie>, n: nat)
    requires n < |movies|
    ensures BlacklistedCount(movies[..n + 1]) == BlacklistedCount(movies[..n]) + if Blacklisted(movies[n]) then 1 else 0
  {
    assert movies[..n + 1][..n] == movies[..n];
  }

  /** The number of blacklisted movies in a row that end just before position `n`. */
  function RunAt(movies: seq<Movie>, n: nat): (r: nat)
    requires n <= |movies|
    ensures r <= n
  {
    if n == 0 || !Blacklisted(movies[n - 1]) then 0 else RunAt(movies, n - 1) + 1
  }

  /** Three blacklisted movies end just before `n` exactly when a run of at least three does. */
  lemma TripleEndsRun(movies: seq<Movie>, n: nat)
    requires 3 <= n <= |movies|
    ensures TripleAt(movies, n - 3) <==> RunAt(movies, n) >= 3
  {
    if Blacklisted(movies[n - 1]) && Blacklisted(movies[n - 2]) {
      assert RunAt(movies, n) == RunAt(movies, n - 2) + 2;
    }
  }

  /**
   * The blacklist scan of a movie step. It walks the pool counting blacklisted
   * titles and tracking consecutive hits with a counter and three flags, and
   * stops at the third blacklisted movie in a row: both of its `break`s fire
   * exactly there. Its counters are never read afterwards, so it has no effect
   * on the movie that is appended; the method returns them so that what the
   * scan computes can be stated.
   */
  method BlacklistScan(movies: seq<Movie>) returns (scanned: nat, hits: nat, gaveUp: bool)
    ensures scanned <= |movies| && hits == BlacklistedCount(movies[..scanned])
    ensures gaveUp <==> exists j :: TripleAt(movies, j)
    ensures gaveUp ==> (scanned >= 3 && TripleAt(movies, scanned - 3)
                        && forall j :: 0 <= j < scanned - 3 ==> !TripleAt(movies, j))
    ensures !gaveUp ==> scanned == |movies|
  {
    var totalBlacklisted := |BLACKLIST|;
    var tries := 3;
    var consecutive := 1;
    var one, two, three := false, false, false;
    hits, scanned, gaveUp := 0, 0, false;
    ghost var run := 0;
    while scanned < |movies| && !gaveUp
      invariant scanned <= |movies| && hits == BlacklistedCount(movies[..scanned])
      invariant !gaveUp ==> run == RunAt(movies, scanned) && run < 3
      invariant !gaveUp ==> forall j :: 0 <= j < scanned - 2 ==> !TripleAt(movies, j)
      invariant !gaveUp ==> one == (run >= 1) && two == (run >= 2) && !three
      invariant !gaveUp ==> consecutive == run + if run == scanned then 1 else 0
      invariant gaveUp ==> (scanned >= 3 && TripleAt(movies, scanned - 3)
                            && forall j :: 0 <= j < scanned - 3 ==> !TripleAt(movies, j))
    {
      var movie := movies[scanned];
      CountStep(movies, scanned);
      if scanned >= 2 {
        TripleEndsRun(movies, scanned + 1);
      }
      scanned := scanned + 1;
      if movie.title in BLACKLIST {
        hits := hits + 1;
        run := run + 1;
        if consecutive >= tries && hits > totalBlacklisted {
          gaveUp := true;
        } else if !one {
          one := true;
          consecutive := consecutive + 1;
        } else if !two {
          two := true;
          consecutive := consecutive + 1;
        } else if !three {
          three := true;
          consecutive := consecutive + 1;
          gaveUp := true;
        }
      } else {
        run := 0;
        consecutive := 0;
        one, two, three := false, false, false;
      }
    }
    if !gaveUp {
      assert forall j :: 0 <= j < |movies| - 2 ==> !TripleAt(movies, j);
    }
  }

  /** The episodes among the playlist's items. */
  function EpisodesIn(items: seq<Item>): (es: multiset<Episode>)
    ensures |es| <= |items|
  {
    if items == [] then multiset{}
    else
      var last := items[|items| - 1];
      EpisodesIn(items[..|items| - 1]) + if last.EpisodeItem? then multiset{last.episode} else multiset{}
  }

  /** Every movie in the playlist comes from the pool `movies`. */
  predicate MoviesFrom(items: seq<Item>, movies: seq<Movie>)
  {
    forall k :: 0 <= k < |items| && items[k].MovieItem? ==> items[k].movie in movies
  }

  predicate OnlyMovies(items: seq<Item>)
  {
    forall k :: 0 <= k < |items| ==> items[k].MovieItem?
  }

  /**
   * One iteration after the kind is chosen. A show pick whose queue is empty
   * changes nothing; otherwise it moves the front of the (shuffled, with
   * `randomize`) queue to the playlist. A movie pick runs the blacklist scan
   * and appends the drawn movie, whatever the scan found.
   */
  method MediaStep(table: ShowTable, playlist: seq<Item>, kind: MediaKind, d: MediaDraw,
                   movies: seq<Movie>, randomize: bool, shuffle: Shuffler)
    returns (table': ShowTable, playlist': seq<Item>)
    requires table.Valid() && Permutes(shuffle)
    requires kind == ShowKind ==> d.show < |table.titles|
    requires kind == MovieKind ==> d.movie < |movies|
    ensures table'.Valid() && table'.titles == table.titles
    ensures kind == MovieKind ==> table' == table && playlist' == playlist + [MovieItem(movies[d.movie])]
    ensures kind == ShowKind ==>
      var t := table.titles[d.show];
      var q := table.queues[t];
      if q == [] then table' == table && playlist' == playlist
      else
        var q' := if randomize then shuffle(q, d.shuffleKey) else q;
        |q'| > 0 && playlist' == playlist + [EpisodeItem(q'[0])] && table'.queues == table.queues[t := q'[1..]]
    ensures EpisodesIn(playlist') + Queued(table') == EpisodesIn(playlist) + Queued(table)
    ensures MoviesFrom(playlist, movies) ==> MoviesFrom(playlist', movies)
    ensures kind == MovieKind && OnlyMovies(playlist) ==> OnlyMovies(playlist')
    ensures kind == ShowKind ==> |EpisodesIn(playlist')| - |EpisodesIn(playlist)| == |playlist'| - |playlist|
  {
    table', playlist' := table, playlist;
    if kind == ShowKind {
      var t := table.titles[d.show];
      if |table.queues[t]| > 0 {
        var e;
        table', e := PopFront(table, t, randomize, d.shuffleKey, shuffle);
        playlist' := playlist + [EpisodeItem(e)];
        assert playlist'[..|playlist|] == playlist;
      }
    } else {
      var scanned, hits, gaveUp := BlacklistScan(movies);
      playlist' := playlist + [MovieItem(movies[d.movie])];
      assert playlist'[..|playlist|] == playlist;
    }
  }

  /**
   * The loop `while len(playlist) < requested_playlist_items`. `showsListed`
   * is whether the gathered show list is non-empty: it decides whether shows
   * are available, and with it `random.choice` over the show titles runs at
   * the top of every iteration and raises when no show got a queue.
   */
  method SelectMedia(table0: ShowTable, showsListed: bool, movies: seq<Movie>, randomize: bool, target: int,
                     draws: seq<MediaDraw>, shuffle: Shuffler)
    returns (r: Outcome<Item>, ghost rest: ShowTable)
    requires table0.Valid() && Permutes(shuffle)
    requires forall d :: d in draws ==>
      (table0.titles != [] ==> d.show < |table0.titles|) && (movies != [] ==> d.movie < |movies|)
    ensures r.Failed? <==> target > 0 && ((showsListed && table0.titles == []) || (!showsListed && movies == []))
    ensures r.Failed? ==> r.error == if showsListed then EmptyChoice else NoMedia
    ensures r.Filled? ==> |r.playlist| == if target < 0 then 0 else target
    ensures r.OutOfDraws? ==> |r.playlist| < target
    ensures !r.Failed? ==>
      rest.Valid() && rest.titles == table0.titles && EpisodesIn(r.playlist) + Queued(rest) == Queued(table0)
    ensures !r.Failed? ==> MoviesFrom(r.playlist, movies)
    ensures !r.Failed? && !showsListed ==> OnlyMovies(r.playlist)
    ensures movies == [] && |Queued(table0)| < target ==> !r.Filled?
    ensures !showsListed && movies != [] && |draws| >= target ==> r.Filled?
  {
    var playlist: seq<Item> := [];
    var table := table0;
    var i := 0;
    rest := table0;
    while |playlist| < target
      invariant 0 <= i <= |draws|
      invariant table.Valid() && table.titles == table0.titles
      invariant EpisodesIn(playlist) + Queued(table) == Queued(table0)
      invariant target <= 0 ==> playlist == []
      invariant target > 0 ==> |playlist| <= target
      invariant MoviesFrom(playlist, movies)
      invariant !showsListed ==> OnlyMovies(playlist)
      invariant movies == [] ==> |EpisodesIn(playlist)| == |playlist|
      invariant !showsListed && movies != [] ==> |playlist| == i
      invariant (showsListed && table0.titles == []) || (!showsListed && movies == []) ==> playlist == []
      decreases |draws| - i
    {
      if showsListed && |table.titles| == 0 {
        return Failed(EmptyChoice), rest;
      }
      if !showsListed && |movies| == 0 {
        return Failed(NoMedia), rest;
      }
      if i == |draws| {
        return OutOfDraws(playlist), table;
      }
      var d := draws[i];
      assert d in draws;
      var kind := ChooseKind(showsListed, |movies| > 0, d.coin);
      table, playlist := MediaStep(table, playlist, kind.value, d, movies, randomize, shuffle);
      i := i + 1;
    }
    assert |EpisodesIn(playlist)| == |Queued(table0)| - |Queued(table)|;
    return Filled(playlist), table;
  }

  /** The clamped target when it is not negative, and 0 otherwise: the size of a filled playlist. */
  function FilledSize(requested: int, total: nat): nat
  {
    var target := Target(requested, total);
    if target < 0 then 0 else target
  }

  /** The episode of an episode item is among the playlist's episodes. */
  lemma {:induction false} EpisodeItemIn(items: seq<Item>, k: nat)
    requires k < |items| && items[k].EpisodeItem?
    ensures items[k].episode in EpisodesIn(items)
  {
    if k < |items| - 1 {
      EpisodeItemIn(items[..|items| - 1], k);
    }
  }

  /**
   * `get_random_episodes_or_movies` over the provided sections: gathers them,
   * adjusts the flags, builds the show queues when there are shows (the newer
   * script fetches only seasons above 0 when watched episodes are included),
   * clamps the requested size and runs the selection loop. `table` is the show
   * dictionary the loop started from (empty when no section holds a show).
   */
  method GetRandomEpisodesOrMovies(libs: seq<Library>, flags0: Flags, requested: int,
                                   draws: seq<MediaDraw>, shuffle: Shuffler)
    returns (r: Outcome<Item>, ghost table: ShowTable)
    requires Permutes(shuffle)
    requires forall d :: d in draws ==>
      (Keys(ShowsOf(libs), flags0.includeWatched) != [] ==> d.show < |Keys(ShowsOf(libs), flags0.includeWatched)|)
      && (MoviesOf(libs) != [] ==> d.movie < |MoviesOf(libs)|)
    ensures r.Filled? ==> |r.playlist| == FilledSize(requested, TopLevelCount(libs))
    ensures !r.Failed? ==> |r.playlist| <= FilledSize(requested, TopLevelCount(libs))
    ensures r == Failed(NoMedia) <==>
      !(flags0.includeWatched && HasMovieLibrary(libs)) && Target(requested, TopLevelCount(libs)) > 0
      && ShowsOf(libs) == [] && MoviesOf(libs) == []
    ensures r == Failed(WatchedMovieSection) <==> flags0.includeWatched && HasMovieLibrary(libs)
    ensures r.Failed? && r.error.SpecialsOnly? <==>
      !(flags0.includeWatched && HasMovieLibrary(libs))
      && exists i :: 0 <= i < |ShowsOf(libs)| && Eligible(ShowsOf(libs)[i], flags0.includeWatched)
                     && AllSpecials(Fetch(ShowsOf(libs)[i], flags0.includeWatched, true))
    ensures r == Failed(EmptyChoice) <==>
      !(flags0.includeWatched && HasMovieLibrary(libs))
      && !(exists i :: 0 <= i < |ShowsOf(libs)| && Eligible(ShowsOf(libs)[i], flags0.includeWatched)
                       && AllSpecials(Fetch(ShowsOf(libs)[i], flags0.includeWatched, true)))
      && Target(requested, TopLevelCount(libs)) > 0
      && ShowsOf(libs) != [] && Keys(ShowsOf(libs), flags0.includeWatched) == []
    ensures !r.Failed? ==>
      BuiltFrom(ShowsOf(libs), table, flags0.includeWatched, true) && EpisodesIn(r.playlist) <= Queued(table)
    ensures !r.Failed? ==> forall k :: 0 <= k < |r.playlist| && r.playlist[k].EpisodeItem? ==>
      FetchedFrom(ShowsOf(libs), r.playlist[k].episode, flags0.includeWatched, true)
    ensures !r.Failed? ==> MoviesFrom(r.playlist, MoviesOf(libs))
  {
    table := ShowTable([], map[]);
    var gathered := GatherSections(libs, flags0.includeWatched);
    if gathered.Err? {
      return Failed(gathered.error), table;
    }
    var Gathered(total, shows, movies) := gathered.value;
    var flags := ForceFlags(flags0, |shows|);
    var queues := ShowTable([], map[]);
    if |shows| > 0 {
      var built := BuildQueues(shows, flags.includeWatched, true);
      if built.Err? {
        return Failed(built.error), table;
      }
      queues := built.value;
    }
    table := queues;
    var target := Target(requested, total);
    ghost var rest;
    r, rest := SelectMedia(queues, |shows| > 0, movies, flags.randomize, target, draws, shuffle);
    if !r.Failed? {
      forall k | 0 <= k < |r.playlist| && r.playlist[k].EpisodeItem?
        ensures FetchedFrom(ShowsOf(libs), r.playlist[k].episode, flags0.includeWatched, true)
      {
        EpisodeItemIn(r.playlist, k);
        QueuedIsFetched(ShowsOf(libs), table, r.playlist[k].episode, flags0.includeWatched, true);
      }
    }
  }
}
