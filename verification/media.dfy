/**
 * Shared vocabulary of both playlist scripts: episodes, shows, movies,
 * library sections, the command-line flags that steer selection, the fixed
 * show/movie blacklist and the error outcomes that end a run.
 */
module Media {

  /** An episode as the selection logic sees it: its season and its index in the season. */
  datatype Episode = Episode(season: nat, index: nat)

  /**
   * A TV show fetched from a library section: `episodes` is every episode in
   * library order, `unwatched` the unwatched ones in library order.
   */
  datatype Show = Show(title: string, isWatched: bool, episodes: seq<Episode>, unwatched: seq<Episode>)

  datatype Movie = Movie(title: string, watched: bool)

  /**
   * A library section of the media server. Music, photo and sections of an
   * unrecognised type only contribute their title and their item count.
   */
  datatype Library =
    | ShowLibrary(title: string, shows: seq<Show>)
    | MovieLibrary(title: string, movies: seq<Movie>)
    | MusicLibrary(title: string, size: nat)
    | PhotoLibrary(title: string, size: nat)
    | UnknownLibrary(title: string, size: nat)

  /** The selection flags `--randomize`, `--include-watched` and `--ignore-skipped`. */
  datatype Flags = Flags(randomize: bool, includeWatched: bool, ignoreSkipped: bool)

  /** Titles of series (and, in the newer script, movies) never to include. */
  const BLACKLIST: seq<string> := ["Downton Abbey", "Poldark (2015)"]

  /** Why a run stops without a playlist. */
  datatype Error =
    | SpecialsOnly(title: string)   // IndexError: the specials loop emptied a show's queue
    | EmptyChoice                   // IndexError: random.choice over an empty list of show titles
    | NoMedia                       // exit(1): neither shows nor movies to choose from
    | WatchedMovieSection           // --include-watched stores a movie section object, not a list
    | AllSectionsExcluded           // exit(1): every library section is excluded
    | SelectionExcluded             // exit(1): the selected sections equal the excluded ones

  /**
   * How a selection run ends. The selection loops draw their random choices
   * from a finite list; `OutOfDraws` is a run whose loop would go on.
   */
  datatype Outcome<T> =
    | Filled(playlist: seq<T>)      // the loop condition became false
    | OutOfDraws(playlist: seq<T>)  // the random choices ran out before the playlist was full
    | Failed(error: Error)          // the source raises or exits

  datatype Option<T> = None | Some(value: T)

  datatype Result<T> = Ok(value: T) | Err(error: Error)

  /** The set of elements of a list, as Python's `set(list)`. */
  function Elems<T>(s: seq<T>): set<T>
  {
    set x | x in s
  }

  predicate Distinct<T(==)>(s: seq<T>)
  {
    forall i, j :: 0 <= i < j < |s| ==> s[i] != s[j]
  }

  /**
   * The flags after the adjustment both scripts make while walking the shows:
   * with `--include-watched`, `--randomize` and `--ignore-skipped` are switched
   * on. The adjustment sits inside the loop over the shows, so it happens only
   * when there is at least one show.
   */
  function ForceFlags(f: Flags, showCount: nat): (g: Flags)
    ensures g.includeWatched == f.includeWatched
    ensures f.includeWatched && showCount > 0 ==> g.randomize && g.ignoreSkipped
    ensures !f.includeWatched || showCount == 0 ==> g == f
    ensures (f.randomize ==> g.randomize) && (f.ignoreSkipped ==> g.ignoreSkipped)
  {
    if f.includeWatched && showCount > 0 then
      Flags(true, f.includeWatched, true)
    else
      f
  }

  /** The index of the first `c` in `s`: `s.index(c)`. */
  function FirstIndex<T(==)>(s: seq<T>, c: T): (i: nat)
    requires c in s
    ensures i < |s| && s[i] == c && c !in s[..i]
  {
    if s[0] == c then 0
    else
      assert s == [s[0]] + s[1..];
      1 + FirstIndex(s[1..], c)
  }

  /**
   * The first occurrence of `c` removed, if there is one: `s.replace(c, '', 1)`
   * on a string, and `s.remove(c)` on a list that holds `c`.
   */
  function RemoveFirst<T(==)>(s: seq<T>, c: T): (r: seq<T>)
    ensures c !in s ==> r == s
    ensures c in s ==> |r| == |s| - 1 && multiset(r) + multiset{c} == multiset(s)
    ensures forall x :: x in r ==> x in s
  {
    if c in s then
      var i := FirstIndex(s, c);
      assert s == s[..i] + [c] + s[i + 1..];
      s[..i] + s[i + 1..]
    else
      s
  }
}
