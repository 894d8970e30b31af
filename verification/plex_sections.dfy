/**
 * The library-section filter of the newer script's `create_playlist`: from
 * the server's sections, the exclude list and the mode (`--select-library`,
 * `--allshows`, `--allmovies`) it computes the sections the playlist is drawn
 * from and the list of excluded sections.
 *
 * Sections are matched by title. The source matches with the regular
 * expression `'^' + re.escape(title) + '$'`, which the model takes as equality.
 */
module PlexSections {
  import opened Media

  // ---------------------------------------------------------------------------
  // Section kinds and the filter's criteria
  // ---------------------------------------------------------------------------

  /**
   * Whether the mode admits the section: `--allshows` alone admits show
   * sections, `--allmovies` alone movie sections, both or neither every section.
   */
  predicate ModeAdmits(l: Library, allShows: bool, allMovies: bool)
    ensures ModeAdmits(l, allShows, allMovies) <==>
      allShows == allMovies || (allShows && l.ShowLibrary?) || (allMovies && l.MovieLibrary?)
  {
    if allShows && !allMovies then l.ShowLibrary?
    else if !allShows && allMovies then l.MovieLibrary?
    else true
  }

  /** The ways the filter picks sections out of the server's list. */
  datatype Criterion =
    | Shows | Movies | Music | Photos
    | Candidates                                                    // show and movie sections
    | Wanted(exclude: seq<string>, allShows: bool, allMovies: bool)  // candidates not excluded and admitted by the mode
    | Refused(exclude: seq<string>, allShows: bool, allMovies: bool) // candidates not excluded but refused by the mode
    | Selected(selection: seq<string>)                              // sections named in the selection, whatever their kind
    | Unselected(selection: seq<string>)

  /**
   * Whether criterion `c` picks section `l`. The mode splits the show and movie
   * sections that are not excluded into wanted and refused ones; a selection
   * splits all sections into selected and unselected ones.
   */
  predicate Accepts(c: Criterion, l: Library)
    ensures (c.Wanted? || c.Refused?) ==>
      (Accepts(c, l) <==> (l.ShowLibrary? || l.MovieLibrary?) && l.title !in c.exclude
                          && ModeAdmits(l, c.allShows, c.allMovies) == c.Wanted?)
    ensures (c.Selected? || c.Unselected?) ==> (Accepts(c, l) <==> (l.title in c.selection) == c.Selected?)
  {
    match c
    case Shows => l.ShowLibrary?
    case Movies => l.MovieLibrary?
    case Music => l.MusicLibrary?
    case Photos => l.PhotoLibrary?
    case Candidates => l.ShowLibrary? || l.MovieLibrary?
    case Wanted(exclude, allShows, allMovies) =>
      (l.ShowLibrary? || l.MovieLibrary?) && l.title !in exclude && ModeAdmits(l, allShows, allMovies)
    case Refused(exclude, allShows, allMovies) =>
      (l.ShowLibrary? || l.MovieLibrary?) && l.title !in exclude && !ModeAdmits(l, allShows, allMovies)
    case Selected(selection) => l.title in selection
    case Unselected(selection) => l.title !in selection
  }

  /** What the filter hands on: the sections to draw from and the excluded sections. */
  datatype Filtered = Filtered(sections: seq<string>, excluded: seq<string>)

  // ---------------------------------------------------------------------------
  // Titles of sections
  // ---------------------------------------------------------------------------

  /** The titles of the sections in server order: `allSections_List`. */
  function Titles(libs: seq<Library>): (ts: seq<string>)
    ensures |ts| == |libs|
  {
    seq(|libs|, k requires 0 <= k < |libs| => libs[k].title)
  }

  /** No two sections share a title. */
  predicate DistinctTitles(libs: seq<Library>)
  {
    forall j, k :: 0 <= j < k < |libs| ==> libs[j].title != libs[k].title
  }

  /** The titles of the sections before `i` that `keep` accepts, in server order. */
  function TitlesBefore(libs: seq<Library>, i: nat, keep: Criterion): seq<string>
    requires i <= |libs|
  {
    if i == 0 then []
    else TitlesBefore(libs, i - 1, keep) + (if Accepts(keep, libs[i - 1]) then [libs[i - 1].title] else [])
  }

  /** The titles of the sections from `i` on that `keep` accepts, in server order. */
  function TitlesFrom(libs: seq<Library>, i: nat, keep: Criterion): seq<string>
    requires i <= |libs|
    decreases |libs| - i
  {
    if i == |libs| then []
    else (if Accepts(keep, libs[i]) then [libs[i].title] else []) + TitlesFrom(libs, i + 1, keep)
  }

  /** The titles of all the sections that `keep` accepts, in server order. */
  function TitlesWhere(libs: seq<Library>, keep: Criterion): seq<string>
  {
    TitlesBefore(libs, |libs|, keep)
  }

  /** The titles before `i` followed by the titles from `i` on are all the titles. */
  lemma {:induction false} TitlesBeforeFrom(libs: seq<Library>, i: nat, keep: Criterion)
    requires i <= |libs|
    ensures TitlesBefore(libs, i, keep) + TitlesFrom(libs, i, keep) == TitlesWhere(libs, keep)
    decreases |libs| - i
  {
    if i < |libs| {
      TitlesBeforeFrom(libs, i + 1, keep);
      var x := if Accepts(keep, libs[i]) then [libs[i].title] else [];
      assert TitlesBefore(libs, i, keep) + (x + TitlesFrom(libs, i + 1, keep))
          == (TitlesBefore(libs, i, keep) + x) + TitlesFrom(libs, i + 1, keep);
    }
  }

  /** A title is listed exactly when some accepted section before `i` carries it. */
  lemma {:induction false} TitlesBeforeMember(libs: seq<Library>, i: nat, keep: Criterion, t: string)
    requires i <= |libs|
    ensures t in TitlesBefore(libs, i, keep) <==> exists k :: 0 <= k < i && libs[k].title == t && Accepts(keep, libs[k])
    decreases i
  {
    if i > 0 {
      TitlesBeforeMember(libs, i - 1, keep, t);
    }
  }

  /** With distinct titles, section `k`'s title is not among the titles of the first `n <= k` sections. */
  lemma {:induction false} TitleAbsentBefore(libs: seq<Library>, keep: Criterion, k: nat, n: nat)
    requires DistinctTitles(libs) && n <= k < |libs|
    ensures libs[k].title !in TitlesBefore(libs, n, keep)
    decreases n
  {
    if n > 0 {
      TitleAbsentBefore(libs, keep, k, n - 1);
      assert libs[n - 1].title != libs[k].title;
    }
  }

  /** With distinct titles, section `k`'s title is not among the titles of the sections from `n > k` on. */
  lemma {:induction false} TitleAbsentFrom(libs: seq<Library>, keep: Criterion, k: nat, n: nat)
    requires DistinctTitles(libs) && k < n <= |libs|
    ensures libs[k].title !in TitlesFrom(libs, n, keep)
    decreases |libs| - n
  {
    if n < |libs| {
      TitleAbsentFrom(libs, keep, k, n + 1);
      assert libs[k].title != libs[n].title;
    }
  }

  /** With distinct titles, section `k`'s title is listed exactly when `keep` accepts section `k`. */
  lemma TitleOfDistinct(libs: seq<Library>, keep: Criterion, k: nat)
    requires DistinctTitles(libs) && k < |libs|
    ensures libs[k].title in TitlesWhere(libs, keep) <==> Accepts(keep, libs[k])
  {
    TitlesBeforeMember(libs, |libs|, keep, libs[k].title);
  }

  /** A title is on the list of titles exactly when some section carries it. */
  lemma TitlesMember(libs: seq<Library>, t: string)
    ensures t in Titles(libs) <==> exists k :: 0 <= k < |libs| && libs[k].title == t
  {
    if t in Titles(libs) {
      var k :| 0 <= k < |libs| && Titles(libs)[k] == t;
    }
    if exists k :: 0 <= k < |libs| && libs[k].title == t {
      var k :| 0 <= k < |libs| && libs[k].title == t;
      assert Titles(libs)[k] == t;
    }
  }

  // ---------------------------------------------------------------------------
  // The first loop: sections by kind
  // ---------------------------------------------------------------------------

  /**
   * The loop over the server's sections that collects the titles of the show,
   * movie, music and photo sections, and, without `--select-library`, the
   * show and movie sections in server order as the starting list of sections
   * to use. A section of another kind only draws a warning.
   */
  method SectionLists(libs: seq<Library>, selecting: bool)
    returns (shows: seq<string>, movies: seq<string>, music: seq<string>, photos: seq<string>, start: seq<string>)
    ensures shows == TitlesWhere(libs, Shows) && movies == TitlesWhere(libs, Movies)
    ensures music == TitlesWhere(libs, Music) && photos == TitlesWhere(libs, Photos)
    ensures start == if selecting then [] else TitlesWhere(libs, Candidates)
  {
    shows, movies, music, photos, start := [], [], [], [], [];
    for i := 0 to |libs|
      invariant shows == TitlesBefore(libs, i, Shows) && movies == TitlesBefore(libs, i, Movies)
      invariant music == TitlesBefore(libs, i, Music) && photos == TitlesBefore(libs, i, Photos)
      invariant start == if selecting then [] else TitlesBefore(libs, i, Candidates)
    {
      match libs[i] {
        case ShowLibrary(title, _) =>
          shows := shows + [title];
          if !selecting {
            start := start + [title];
          }
        case MovieLibrary(title, _) =>
          movies := movies + [title];
          if !selecting {
            start := start + [title];
          }
        case MusicLibrary(title, _) =>
          music := music + [title];
        case PhotoLibrary(title, _) =>
          photos := photos + [title];
        case UnknownLibrary(_, _) =>
      }
    }
  }

  // ---------------------------------------------------------------------------
  // One iteration of the second loop, in each mode
  // ---------------------------------------------------------------------------

  /**
   * With `--select-library`: a selected section is added to the sections to
   * use, even when it is also excluded; any other section is added to the
   * excluded list.
   */
  method SelectStep(library: string, selection: seq<string>, exclude: seq<string>, sections: seq<string>, excluded: seq<string>)
    returns (sections': seq<string>, excluded': seq<string>)
    ensures library in selection ==> sections' == sections + [library] && excluded' == excluded
    ensures library !in selection ==> sections' == sections && excluded' == excluded + [library]
  {
    var inExclude := library in exclude;
    var inSelection := library in selection;
    sections', excluded' := sections, excluded;
    if !inExclude && !inSelection {
      excluded' := excluded + [library];
    } else if inSelection {
      sections' := sections + [library];
    } else {
      excluded' := excluded + [library];
    }
  }

  /**
   * Without `--select-library` the section leaves the list of sections to use
   * when it is on that list and is excluded, is a music or photo section, or is
   * refused by the mode.
   */
  predicate Removes(library: string, excluded: seq<string>, sections: seq<string>,
                    shows: seq<string>, movies: seq<string>, music: seq<string>, photos: seq<string>,
                    allShows: bool, allMovies: bool)
    ensures Removes(library, excluded, sections, shows, movies, music, photos, allShows, allMovies) ==> library in sections
    ensures library in sections && (library in excluded || library in music || library in photos) ==>
      Removes(library, excluded, sections, shows, movies, music, photos, allShows, allMovies)
    ensures allShows == allMovies && library !in excluded && library !in music && library !in photos ==>
      !Removes(library, excluded, sections, shows, movies, music, photos, allShows, allMovies)
  {
    library in sections
    && (library in excluded || library in music || library in photos
        || (allShows && !allMovies && library !in shows)
        || (!allShows && allMovies && library !in movies))
  }

  /**
   * Without `--select-library`, where the exclude list and the list of
   * excluded sections are one list: a removed section that was not excluded
   * already is added to it.
   */
  method ExcludeStep(library: string, sections: seq<string>, excluded: seq<string>,
                     shows: seq<string>, movies: seq<string>, music: seq<string>, photos: seq<string>,
                     allShows: bool, allMovies: bool)
    returns (sections': seq<string>, excluded': seq<string>)
    ensures var removes := Removes(library, excluded, sections, shows, movies, music, photos, allShows, allMovies);
      sections' == (if removes then RemoveFirst(sections, library) else sections)
      && excluded' == (if removes && library !in excluded then excluded + [library] else excluded)
  {
    var inExclude := library in excluded;
    var inSections := library in sections;
    var inShows, inMovies := library in shows, library in movies;
    var inMusicOrPhotos := library in music || library in photos;
    sections', excluded' := sections, excluded;
    if inExclude && inSections {
      sections' := RemoveFirst(sections, library);
    } else if inMusicOrPhotos && inSections {
      sections' := RemoveFirst(sections, library);
      excluded' := excluded + [library];
    } else if allShows && !allMovies {
      if !inShows && inSections {
        sections' := RemoveFirst(sections, library);
        excluded' := excluded + [library];
      }
    } else if !allShows && allMovies {
      if !inMovies && inSections {
        sections' := RemoveFirst(sections, library);
        excluded' := excluded + [library];
      }
    } else {
      if inMusicOrPhotos && inSections {
        sections' := RemoveFirst(sections, library);
        excluded' := excluded + [library];
      }
    }
  }

  // ---------------------------------------------------------------------------
  // The second loop
  // ---------------------------------------------------------------------------

  /**
   * Without `--select-library`, the excluded list when the loop reaches
   * section `i`: the given exclude list followed by the sections before `i`
   * that the mode refused.
   */
  function ExcludedBefore(libs: seq<Library>, exclude: seq<string>, allShows: bool, allMovies: bool, i: nat): seq<string>
    requires i <= |libs|
  {
    exclude + TitlesBefore(libs, i, Refused(exclude, allShows, allMovies))
  }

  /** Without `--select-library`, whether the "all sections excluded" check stops the loop at section `i`. */
  predicate StopsAt(libs: seq<Library>, exclude: seq<string>, allShows: bool, allMovies: bool, i: nat)
    requires i <= |libs|
  {
    Elems(Titles(libs)) == Elems(ExcludedBefore(libs, exclude, allShows, allMovies, i))
  }

  /** Without `--select-library`, the check has not stopped the loop at any section before `i`. */
  predicate NeverStoppedBefore(libs: seq<Library>, exclude: seq<string>, allShows: bool, allMovies: bool, i: nat)
    requires i <= |libs|
  {
    forall j :: 0 <= j < i ==> !StopsAt(libs, exclude, allShows, allMovies, j)
  }

  /** A section where the check does not stop extends the run of sections where it did not. */
  lemma NeverStoppedExtend(libs: seq<Library>, exclude: seq<string>, allShows: bool, allMovies: bool, i: nat)
    requires i < |libs| && NeverStoppedBefore(libs, exclude, allShows, allMovies, i)
    requires !StopsAt(libs, exclude, allShows, allMovies, i)
    ensures NeverStoppedBefore(libs, exclude, allShows, allMovies, i + 1)
  {
  }

  /** Without `--select-library`, the two lists when the loop reaches section `i` (titles distinct). */
  predicate ExcludeLoopState(libs: seq<Library>, exclude: seq<string>, allShows: bool, allMovies: bool, i: nat,
                             sections: seq<string>, excluded: seq<string>)
    requires i <= |libs|
  {
    sections == TitlesBefore(libs, i, Wanted(exclude, allShows, allMovies)) + TitlesFrom(libs, i, Candidates)
    && excluded == ExcludedBefore(libs, exclude, allShows, allMovies, i)
  }

  /** Removing the first occurrence of `t` from `a + [t] + b` where `a` lacks `t` leaves `a + b`. */
  lemma RemoveFirstAfter(a: seq<string>, t: string, b: seq<string>)
    requires t !in a
    ensures RemoveFirst(a + [t] + b, t) == a + b
  {
    var s := a + [t] + b;
    var i := FirstIndex(s, t);
    assert s[|a|] == t;
    assert s[..i] == a;
    assert s[i + 1..] == b;
  }

  /** With distinct titles, what the kind lists say about section `i`. */
  lemma KindFacts(libs: seq<Library>, i: nat)
    requires DistinctTitles(libs) && i < |libs|
    ensures var l, t := libs[i], libs[i].title;
      && (t in TitlesWhere(libs, Shows) <==> l.ShowLibrary?)
      && (t in TitlesWhere(libs, Movies) <==> l.MovieLibrary?)
      && (t in TitlesWhere(libs, Music) <==> l.MusicLibrary?)
      && (t in TitlesWhere(libs, Photos) <==> l.PhotoLibrary?)
  {
    TitleOfDistinct(libs, Shows, i);
    TitleOfDistinct(libs, Movies, i);
    TitleOfDistinct(libs, Music, i);
    TitleOfDistinct(libs, Photos, i);
  }

  /** What the loop without `--select-library` knows about its two lists when it reaches section `i` (titles distinct). */
  lemma ExcludeStepFacts(libs: seq<Library>, exclude: seq<string>, allShows: bool, allMovies: bool, i: nat,
                         sections: seq<string>, excluded: seq<string>)
    requires DistinctTitles(libs) && i < |libs|
    requires ExcludeLoopState(libs, exclude, allShows, allMovies, i, sections, excluded)
    ensures var l, t := libs[i], libs[i].title;
      && (t in excluded <==> t in exclude)
      && t !in TitlesBefore(libs, i, Wanted(exclude, allShows, allMovies))
      && sections == TitlesBefore(libs, i, Wanted(exclude, allShows, allMovies))
                     + (if Accepts(Candidates, l) then [t] else []) + TitlesFrom(libs, i + 1, Candidates)
      && (t in sections <==> Accepts(Candidates, l))
  {
    var l, t := libs[i], libs[i].title;
    var want, refuse := Wanted(exclude, allShows, allMovies), Refused(exclude, allShows, allMovies);
    TitleAbsentBefore(libs, want, i, i);
    TitleAbsentBefore(libs, refuse, i, i);
    TitleAbsentFrom(libs, Candidates, i, i + 1);
    var a, x, rest := TitlesBefore(libs, i, want), (if Accepts(Candidates, l) then [t] else []), TitlesFrom(libs, i + 1, Candidates);
    assert TitlesFrom(libs, i, Candidates) == x + rest;
    AppendMembership(exclude, TitlesBefore(libs, i, refuse), t);
    MiddleMembership(a, x, rest, t, Accepts(Candidates, l));
  }

  /** A title missing from `b` is in `a + b` exactly when it is in `a`. */
  lemma AppendMembership(a: seq<string>, b: seq<string>, t: string)
    requires t !in b
    ensures t in a + b <==> t in a
  {
  }

  /** A title missing from `a` and `rest` is in `a + x + rest`, where `x` holds it or nothing, exactly when `x` holds it. */
  lemma MiddleMembership(a: seq<string>, x: seq<string>, rest: seq<string>, t: string, holds: bool)
    requires t !in a && t !in rest && x == (if holds then [t] else [])
    ensures a + (x + rest) == a + x + rest
    ensures t in a + x + rest <==> holds
  {
  }

  /**
   * Which sections one iteration without `--select-library` removes: the
   * candidates it does not want; and which it adds to the excluded list: the
   * ones the mode refuses.
   */
  lemma StepDecision(l: Library, exclude: seq<string>, excluded: seq<string>, sections: seq<string>,
                     shows: seq<string>, movies: seq<string>, music: seq<string>, photos: seq<string>,
                     allShows: bool, allMovies: bool)
    requires (l.title in excluded <==> l.title in exclude) && (l.title in sections <==> Accepts(Candidates, l))
    requires (l.title in shows <==> l.ShowLibrary?) && (l.title in movies <==> l.MovieLibrary?)
    requires (l.title in music <==> l.MusicLibrary?) && (l.title in photos <==> l.PhotoLibrary?)
    ensures var removes := Removes(l.title, excluded, sections, shows, movies, music, photos, allShows, allMovies);
      && (Accepts(Wanted(exclude, allShows, allMovies), l) ==> Accepts(Candidates, l))
      && (Accepts(Candidates, l) ==> (removes <==> !Accepts(Wanted(exclude, allShows, allMovies), l)))
      && (!Accepts(Candidates, l) ==> !removes)
      && (Accepts(Refused(exclude, allShows, allMovies), l) <==> removes && l.title !in exclude)
  {
  }

  /** How one iteration changes the list of sections to use, in terms of whether the section is a candidate, wanted and removed. */
  lemma SectionsAfterStep(a: seq<string>, t: string, rest: seq<string>, sections: seq<string>, candidate: bool, wanted: bool, removes: bool)
    requires t !in a && sections == a + (if candidate then [t] else []) + rest
    requires candidate ==> (removes <==> !wanted)
    requires !candidate ==> !wanted && !removes
    ensures (if removes then RemoveFirst(sections, t) else sections) == a + (if wanted then [t] else []) + rest
  {
    if removes {
      RemoveFirstAfter(a, t, rest);
    }
  }

  /** How one iteration changes the excluded list, in terms of whether the section is refused and removed. */
  lemma ExcludedAfterStep(exclude: seq<string>, refusedBefore: seq<string>, t: string, excluded: seq<string>, refused: bool, removes: bool)
    requires excluded == exclude + refusedBefore && (t in excluded <==> t in exclude)
    requires refused <==> removes && t !in exclude
    ensures (if removes && t !in excluded then excluded + [t] else excluded)
         == exclude + (refusedBefore + if refused then [t] else [])
  {
  }

  /** One iteration of the loop without `--select-library` keeps `ExcludeLoopState` (titles distinct). */
  lemma ExcludeStepKeepsState(libs: seq<Library>, exclude: seq<string>, allShows: bool, allMovies: bool, i: nat,
                              sections: seq<string>, excluded: seq<string>, sections': seq<string>, excluded': seq<string>)
    requires DistinctTitles(libs) && i < |libs|
    requires ExcludeLoopState(libs, exclude, allShows, allMovies, i, sections, excluded)
    requires var t := libs[i].title;
      var removes := Removes(t, excluded, sections, TitlesWhere(libs, Shows), TitlesWhere(libs, Movies),
                             TitlesWhere(libs, Music), TitlesWhere(libs, Photos), allShows, allMovies);
      sections' == (if removes then RemoveFirst(sections, t) else sections)
      && excluded' == (if removes && t !in excluded then excluded + [t] else excluded)
    ensures ExcludeLoopState(libs, exclude, allShows, allMovies, i + 1, sections', excluded')
  {
    var l, t := libs[i], libs[i].title;
    var want, refuse := Wanted(exclude, allShows, allMovies), Refused(exclude, allShows, allMovies);
    ExcludeStepFacts(libs, exclude, allShows, allMovies, i, sections, excluded);
    KindFacts(libs, i);
    var removes := Removes(t, excluded, sections, TitlesWhere(libs, Shows), TitlesWhere(libs, Movies),
                           TitlesWhere(libs, Music), TitlesWhere(libs, Photos), allShows, allMovies);
    StepDecision(l, exclude, excluded, sections, TitlesWhere(libs, Shows), TitlesWhere(libs, Movies),
                 TitlesWhere(libs, Music), TitlesWhere(libs, Photos), allShows, allMovies);
    SectionsAfterStep(TitlesBefore(libs, i, want), t, TitlesFrom(libs, i + 1, Candidates), sections,
                      Accepts(Candidates, l), Accepts(want, l), removes);
    ExcludedAfterStep(exclude, TitlesBefore(libs, i, refuse), t, excluded, Accepts(refuse, l), removes);
  }

  /**
   * The section filter (the loop over the server's sections in
   * `create_playlist`). Before each section it stops with an error when every
   * section is excluded or, with `--select-library`, when the selection equals
   * the exclude list, as sets.
   */
  method FilterSections(libs: seq<Library>, exclude: seq<string>, selection: Option<seq<string>>, allShows: bool, allMovies: bool)
    returns (r: Result<Filtered>)
    // With --select-library: the selected sections, and every other section as excluded.
    ensures selection.Some? ==>
      (r.Err? <==> |libs| > 0 && (Elems(Titles(libs)) == Elems(exclude) || Elems(selection.value) == Elems(exclude)))
    ensures selection.Some? && r.Err? ==>
      r.error == if Elems(Titles(libs)) == Elems(exclude) then AllSectionsExcluded else SelectionExcluded
    ensures selection.Some? && r.Ok? ==>
      r.value.sections == TitlesWhere(libs, Selected(selection.value))
      && r.value.excluded == TitlesWhere(libs, Unselected(selection.value))
    // Without it: the wanted sections; the exclude list grows by the refused ones.
    ensures selection.None? && r.Err? ==> r.error == AllSectionsExcluded
    ensures selection.None? && |libs| > 0 && Elems(Titles(libs)) == Elems(exclude) ==> r.Err?
    ensures selection.None? && DistinctTitles(libs) ==>
      (r.Err? <==> exists i :: 0 <= i < |libs| && StopsAt(libs, exclude, allShows, allMovies, i))
    ensures selection.None? && DistinctTitles(libs) && r.Ok? ==>
      r.value.sections == TitlesWhere(libs, Wanted(exclude, allShows, allMovies))
      && r.value.excluded == ExcludedBefore(libs, exclude, allShows, allMovies, |libs|)
  {
    var shows, movies, music, photos, sections := SectionLists(libs, selection.Some?);
    if selection.Some? {
      r := FilterSelected(libs, exclude, selection.value);
    } else {
      r := FilterExcluding(libs, exclude, allShows, allMovies, shows, movies, music, photos, sections);
    }
  }

  /**
   * The second loop with `--select-library`. The mode does not change while
   * the loop runs, so its two branches are two loops here. The excluded list
   * starts empty and the checks compare against the exclude list.
   */
  method FilterSelected(libs: seq<Library>, exclude: seq<string>, selection: seq<string>) returns (r: Result<Filtered>)
    ensures r.Err? <==> |libs| > 0 && (Elems(Titles(libs)) == Elems(exclude) || Elems(selection) == Elems(exclude))
    ensures r.Err? ==>
      r.error == if Elems(Titles(libs)) == Elems(exclude) then AllSectionsExcluded else SelectionExcluded
    ensures r.Ok? ==>
      r.value.sections == TitlesWhere(libs, Selected(selection))
      && r.value.excluded == TitlesWhere(libs, Unselected(selection))
  {
    var titles := Titles(libs);
    var sections: seq<string> := [];
    var excluded: seq<string> := [];
    for i := 0 to |libs|
      invariant sections == TitlesBefore(libs, i, Selected(selection))
      invariant excluded == TitlesBefore(libs, i, Unselected(selection))
      invariant i > 0 ==> Elems(titles) != Elems(exclude) && Elems(selection) != Elems(exclude)
    {
      if Elems(titles) == Elems(exclude) {
        return Err(AllSectionsExcluded);
      } else if Elems(selection) == Elems(exclude) {
        return Err(SelectionExcluded);
      }
      sections, excluded := SelectStep(titles[i], selection, exclude, sections, excluded);
    }
    return Ok(Filtered(sections, excluded));
  }

  /**
   * The second loop without `--select-library`: the excluded list is the
   * exclude list itself, so the check compares against a list that grows as
   * the loop goes, and `sections` starts as every show and movie section.
   */
  method FilterExcluding(libs: seq<Library>, exclude: seq<string>, allShows: bool, allMovies: bool,
                         shows: seq<string>, movies: seq<string>, music: seq<string>, photos: seq<string>,
                         start: seq<string>)
    returns (r: Result<Filtered>)
    requires shows == TitlesWhere(libs, Shows) && movies == TitlesWhere(libs, Movies)
    requires music == TitlesWhere(libs, Music) && photos == TitlesWhere(libs, Photos)
    requires start == TitlesWhere(libs, Candidates)
    ensures r.Err? ==> r.error == AllSectionsExcluded
    ensures |libs| > 0 && Elems(Titles(libs)) == Elems(exclude) ==> r.Err?
    ensures DistinctTitles(libs) ==>
      (r.Err? <==> exists i :: 0 <= i < |libs| && StopsAt(libs, exclude, allShows, allMovies, i))
    ensures DistinctTitles(libs) && r.Ok? ==>
      r.value.sections == TitlesWhere(libs, Wanted(exclude, allShows, allMovies))
      && r.value.excluded == ExcludedBefore(libs, exclude, allShows, allMovies, |libs|)
  {
    var titles := Titles(libs);
    var sections := start;
    var excluded := exclude;
    TitlesBeforeFrom(libs, 0, Candidates);
    for i := 0 to |libs|
      invariant i > 0 ==> Elems(titles) != Elems(exclude)
      invariant i == 0 ==> excluded == exclude
      invariant DistinctTitles(libs) ==>
        ExcludeLoopState(libs, exclude, allShows, allMovies, i, sections, excluded)
        && NeverStoppedBefore(libs, exclude, allShows, allMovies, i)
    {
      if Elems(titles) == Elems(excluded) {
        assert DistinctTitles(libs) ==> StopsAt(libs, exclude, allShows, allMovies, i);
        return Err(AllSectionsExcluded);
      }
      assert titles[i] == libs[i].title;
      var sections', excluded' := ExcludeStep(titles[i], sections, excluded, shows, movies, music, photos, allShows, allMovies);
      if DistinctTitles(libs) {
        ExcludeStepKeepsState(libs, exclude, allShows, allMovies, i, sections, excluded, sections', excluded');
        NeverStoppedExtend(libs, exclude, allShows, allMovies, i);
      }
      sections, excluded := sections', excluded';
    }
    assert TitlesFrom(libs, |libs|, Candidates) == [];
    return Ok(Filtered(sections, excluded));
  }

  // ---------------------------------------------------------------------------
  // What the filter's result means
  // ---------------------------------------------------------------------------

  /**
   * Without `--select-library`, the sections to use are shows and movies in
   * server order, none of them excluded; `--allshows` alone leaves only show
   * sections, `--allmovies` alone only movie sections.
   */
  lemma WantedSections(libs: seq<Library>, exclude: seq<string>, allShows: bool, allMovies: bool, t: string)
    requires t in TitlesWhere(libs, Wanted(exclude, allShows, allMovies))
    ensures t !in exclude
    ensures exists k :: 0 <= k < |libs| && libs[k].title == t && Accepts(Candidates, libs[k])
              && (allShows && !allMovies ==> libs[k].ShowLibrary?)
              && (!allShows && allMovies ==> libs[k].MovieLibrary?)
  {
    TitlesBeforeMember(libs, |libs|, Wanted(exclude, allShows, allMovies), t);
  }

  /** Conversely, every show or movie section that is not excluded and admitted by the mode is used. */
  lemma WantedSectionsComplete(libs: seq<Library>, exclude: seq<string>, allShows: bool, allMovies: bool, k: nat)
    requires k < |libs| && Accepts(Candidates, libs[k]) && libs[k].title !in exclude && ModeAdmits(libs[k], allShows, allMovies)
    ensures libs[k].title in TitlesWhere(libs, Wanted(exclude, allShows, allMovies))
  {
    TitlesBeforeMember(libs, |libs|, Wanted(exclude, allShows, allMovies), libs[k].title);
  }

  /**
   * With `--select-library`, a title is used exactly when it is a section's
   * title and is named in the selection, and it is excluded exactly when it is
   * a section's title not named there.
   */
  lemma SelectedSections(libs: seq<Library>, selection: seq<string>, t: string)
    ensures t in TitlesWhere(libs, Selected(selection)) <==> t in Titles(libs) && t in selection
    ensures t in TitlesWhere(libs, Unselected(selection)) <==> t in Titles(libs) && t !in selection
  {
    TitlesBeforeMember(libs, |libs|, Selected(selection), t);
    TitlesBeforeMember(libs, |libs|, Unselected(selection), t);
    TitlesMember(libs, t);
  }

  /**
   * The selected and the unselected sections before `i` together are the
   * first `i` of the titles `ts` (the titles of the sections, in server order).
   */
  lemma {:induction false} SelectionPartitionsBefore(libs: seq<Library>, ts: seq<string>, selection: seq<string>, i: nat)
    requires i <= |libs| == |ts| && forall k :: 0 <= k < |ts| ==> ts[k] == libs[k].title
    ensures multiset(TitlesBefore(libs, i, Selected(selection))) + multiset(TitlesBefore(libs, i, Unselected(selection)))
         == multiset(ts[..i])
    decreases i
  {
    if i > 0 {
      SelectionPartitionsBefore(libs, ts, selection, i - 1);
      var t := libs[i - 1].title;
      PrefixStep(ts, i, t);
      var yes, no := TitlesBefore(libs, i - 1, Selected(selection)), TitlesBefore(libs, i - 1, Unselected(selection));
      assert TitlesBefore(libs, i, Selected(selection)) == yes + (if t in selection then [t] else []);
      assert TitlesBefore(libs, i, Unselected(selection)) == no + (if t in selection then [] else [t]);
      PartitionStep(TitlesBefore(libs, i - 1, Selected(selection)), TitlesBefore(libs, i - 1, Unselected(selection)),
        ts[..i - 1], t, t in selection,
        TitlesBefore(libs, i, Selected(selection)), TitlesBefore(libs, i, Unselected(selection)), ts[..i]);
    }
  }

  /** The first `i` elements are the first `i - 1` followed by element `i - 1`. */
  lemma PrefixStep(ts: seq<string>, i: nat, t: string)
    requires 0 < i <= |ts| && ts[i - 1] == t
    ensures ts[..i] == ts[..i - 1] + [t]
  {
  }

  /** Sending one more title to one of two lists that partition a list partitions the longer list. */
  lemma PartitionStep(yes: seq<string>, no: seq<string>, all: seq<string>, t: string, taken: bool,
                      yes': seq<string>, no': seq<string>, all': seq<string>)
    requires multiset(yes) + multiset(no) == multiset(all) && all' == all + [t]
    requires yes' == yes + (if taken then [t] else []) && no' == no + (if taken then [] else [t])
    ensures multiset(yes') + multiset(no') == multiset(all')
  {
  }

  /** With `--select-library`, every section lands on exactly one of the two lists. */
  lemma SelectionPartitions(libs: seq<Library>, selection: seq<string>)
    ensures multiset(TitlesWhere(libs, Selected(selection))) + multiset(TitlesWhere(libs, Unselected(selection)))
         == multiset(Titles(libs))
  {
    var ts := Titles(libs);
    SelectionPartitionsBefore(libs, ts, selection, |libs|);
    assert ts[..|libs|] == ts;
  }

  /** With distinct titles, a wanted section is never on the excluded list, wherever the loop is. */
  lemma WantedNeverExcluded(libs: seq<Library>, exclude: seq<string>, allShows: bool, allMovies: bool, i: nat, k: nat)
    requires DistinctTitles(libs) && i <= |libs| && k < |libs| && Accepts(Wanted(exclude, allShows, allMovies), libs[k])
    ensures libs[k].title !in ExcludedBefore(libs, exclude, allShows, allMovies, i)
  {
    TitlesBeforeMember(libs, i, Refused(exclude, allShows, allMovies), libs[k].title);
  }

  /**
   * Without `--select-library` and with distinct titles, the "all sections
   * excluded" check stops the loop only when no section would be used anyway.
   */
  lemma StopsOnlyWhenNothingWanted(libs: seq<Library>, exclude: seq<string>, allShows: bool, allMovies: bool, i: nat)
    requires DistinctTitles(libs) && i < |libs|
    ensures StopsAt(libs, exclude, allShows, allMovies, i) ==> TitlesWhere(libs, Wanted(exclude, allShows, allMovies)) == []
  {
    var want := Wanted(exclude, allShows, allMovies);
    if TitlesWhere(libs, want) != [] {
      var t := TitlesWhere(libs, want)[0];
      TitlesBeforeMember(libs, |libs|, want, t);
      var k :| 0 <= k < |libs| && libs[k].title == t && Accepts(want, libs[k]);
      WantedNeverExcluded(libs, exclude, allShows, allMovies, i, k);
      assert Titles(libs)[k] == t;
      assert t in Elems(Titles(libs)) && t !in Elems(ExcludedBefore(libs, exclude, allShows, allMovies, i));
    }
  }
}
