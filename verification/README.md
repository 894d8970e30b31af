# Plex playlist generator: a verified model of its selection logic

Two Python scripts build a media-server playlist: the older `playlist_generator.py`
(TV episodes only) and the newer `plex_playlist_generator.py` (episodes and movies,
section filtering, per-user playlists). This project models the in-memory logic
they share and proves properties of it.

What the model covers:

- **Show queues** (`Queues`). A queue is built for each eligible show: one that is
  not blacklisted and is unwatched, unless watched shows are included. Its leading
  specials (season 0) are popped from the queue. A queue made only of specials is
  the source's `IndexError`. A later show with the same title replaces the earlier
  one's queue.
- **Older selection loop** (`PlaylistGenerator`). It draws a show at random. It
  skips the draw when the show's queue is empty or when the continuity check
  reports a missing predecessor. Otherwise it optionally shuffles the queue in
  place and moves the queue's front to the playlist.
- **Continuity check** (`Continuity`). This is `skipped_missing`. It is identical
  in both scripts.
- **Newer selection loop** (`PlexSelection`). It gathers the provided sections and
  clamps the target to their top-level item count. Each iteration chooses a media
  kind; a movie pick runs a blacklist scan whose counters are never used and draws
  from the whole pool, with replacement.
- **String helpers** (`PlexText`). `get_isolate_and_format_plex_element` and the
  comma-list normaliser `re.sub(r'(^\s+|\s*,\s*|\s+$)', ',', s).split(',')`.
- **Section filter of `create_playlist`** (`PlexSections`). It turns the server's
  sections, the exclude list and the mode flags into the sections to draw from and
  the list of excluded sections.

The media server and TV database are inputs. Their data becomes values: shows,
episodes, movies and library sections. Their two lookups ("does episode (s, e)
exist", "how long is season s") become a `Catalog`.

Randomness is modelled without a distribution:

- `random.choice` becomes a caller-supplied index that must be in range.
- `random.shuffle` becomes a caller-supplied function required to permute its
  argument.
- The loops draw their choices from a finite list. A run that uses up the list
  ends as `OutOfDraws`; this stands for the source's unbounded loop.

`exit(1)` and the exceptions the code raises become `Err`/`Failed` results.

Some behaviour follows the code rather than what its comments and help texts
suggest:

- In the newer script, `--ignore-skipped` is a `store_true` flag whose default is
  already true. So the continuity check in its loop never runs, and the newer loop
  has no continuity step.
- With `--select-library`, a section that is both selected and excluded is kept:
  the "selected" branch wins over the exclude list (plex_playlist_generator.py:746-762).
- Without `--select-library`, the list of excluded sections and the exclude list
  are one Python list. Sections refused by `--allshows`/`--allmovies` are appended
  to it as the loop runs, and the "all sections excluded" check compares against
  the grown list. So that check can stop the loop part-way through.
  `StopsOnlyWhenNothingWanted` shows this happens only when no section would have
  been used anyway (titles distinct).
- Specials are trimmed exactly as the code does. A queue of only specials is an
  error, whatever a reader of the comments might expect.

## Model

| member | source | states |
|---|---|---|
| Media.ForceFlags | playlist_generator.py:53-60 | with `--include-watched` and at least one show, `--randomize` and `--ignore-skipped` are on afterwards; otherwise the flags are unchanged; flags that were on stay on |
| Media.RemoveFirst | plex_playlist_generator.py:770-803 | `list.remove(x)`: when `x` is present, the result is one element shorter and its multiset is the original minus one `x`; otherwise the list is unchanged |
| Continuity.SkippedMissing | playlist_generator.py:111-135 | a skip is reported only for an episode with index above 1 or season above 1; an unknown previous-season length (the `None` case) reports no skip |
| Continuity.SkipMeansEarlierEpisodeMissing | playlist_generator.py:116-129 | a reported skip implies some episode before the given one is missing on the media server |
| Continuity.NoGapNoSkip | playlist_generator.py:111-135 | if every earlier episode with index ≥ 1 is present and known seasons are non-empty, no skip is reported (the first episode of the first season is never a skip) |
| Continuity.MoreEpisodesFewerSkips | playlist_generator.py:116-129 | with the same season lengths, a catalog holding more episodes reports a subset of the skips |
| Queues.NonSpecials | plex_playlist_generator.py:174-177 | the episodes fetched with `parentIndex__gt=0` contain no season-0 episode and are a sub-multiset of the show's episodes |
| Queues.NonSpecialsKeepsTheRest | plex_playlist_generator.py:174-177 | every episode outside season 0 is fetched as often as the show has it, so only the specials are dropped |
| Queues.Eligible | playlist_generator.py:62-66 | the filter on shows: not blacklisted, and not watched unless watched shows are included; `BuildQueues` states which shows get a queue in terms of it, and `QueuedIsFetched` that nothing else is queued |
| Queues.Fetch | plex_playlist_generator.py:174-179 | the episodes a queue starts from: the unwatched ones, or with `--include-watched` the show's full list, minus season 0 when specials are dropped (the older script, playlist_generator.py:67-70, has no season filter); what it draws from is `FetchDrawsFromShow` |
| Queues.FetchDrawsFromShow | plex_playlist_generator.py:174-179 | without `--include-watched` the queue starts from exactly the unwatched episodes; with it, from the show's episodes, never more often than the show has them, all of them without the season filter and with it every episode outside season 0 as often as the show has it |
| Queues.TrimSpecials | playlist_generator.py:71-77 | fails with `SpecialsOnly` exactly when every episode is a special (or there is none); otherwise returns the suffix that starts at the first regular episode, with only specials before it |
| Queues.TrimIsUnique | playlist_generator.py:71-77 | the trimmed queue is determined by the fetched list |
| Queues.TrimIsIdempotent | playlist_generator.py:71-77 | trimming a trimmed queue changes nothing |
| Queues.Keys | playlist_generator.py:52-70 | the dictionary's keys, in insertion order, are distinct, and are exactly the titles of the eligible shows |
| Queues.PoolUpdate | playlist_generator.py:85-87 | replacing one show's queue swaps its episodes in the pool of all queued episodes for the new queue's |
| Queues.PopFront | playlist_generator.py:85-87 | shuffle (with `--randomize`) then `pop(0)`: the episode taken is the front of the permuted queue, the rest stays queued, no other queue changes, and pool plus episode equals the old pool |
| Queues.BuildQueues | playlist_generator.py:52-77 | fails exactly when some eligible show has only specials; otherwise the table is `BuiltFrom` the shows: the keys are `Keys` and every queue is the trimmed fetch of an eligible show with that title and no later eligible show with the same title |
| Queues.QueuedIsFetched | playlist_generator.py:66-76 | every episode queued in a built table is in the fetched episode list of an eligible show |
| PlaylistGenerator.Step | playlist_generator.py:80-90 | an empty queue, or a reported skip with the check on, changes nothing; otherwise the front of the (shuffled) queue moves to the playlist; playlist plus queues is conserved as a multiset |
| PlaylistGenerator.SelectEpisodes | playlist_generator.py:78-91 | fails (`random.choice` on no keys) exactly when `n > 0` and no show has a queue; a filled playlist has exactly `n` episodes, which needs at least `n` queued; playlist plus remaining queues is a permutation of the initial queues |
| PlaylistGenerator.GetRandomEpisodes | playlist_generator.py:51-91 | fails exactly when an eligible show has only specials or `n > 0` with no eligible show, and raises the empty-choice error exactly in the second case alone; a filled playlist has `n` episodes, an unfinished one fewer; the playlist is a sub-multiset of the queues built from the shows, so every episode was fetched for an eligible show and none appears more often than it was queued |
| PlexSelection.Unwatched | plex_playlist_generator.py:132 | `all(unwatched=True)`: exactly the unwatched movies, no more of them than movies |
| PlexSelection.CandidatesWithinCount | plex_playlist_generator.py:118-155 | the shows plus the unwatched movies gathered never exceed the top-level item count the target is clamped to |
| PlexSelection.TopLevelCount | plex_playlist_generator.py:118-155 | the count the target is clamped to sums `len(section.all())` over the provided sections, so every section's item count is within it |
| PlexSelection.GatherSections | plex_playlist_generator.py:118-155 | fails exactly when `--include-watched` meets a movie section; otherwise returns the summed top-level count, the shows of show sections and the unwatched movies of movie sections, in section order |
| PlexSelection.Target | plex_playlist_generator.py:201-202 | the target is the requested size or the item count, whichever is smaller |
| PlexSelection.ChooseKind | plex_playlist_generator.py:207-227 | no kind (the `exit(1)`) exactly when neither shows nor movies are available; a chosen kind is always available; with both, the coin decides |
| PlexSelection.BlacklistScan | plex_playlist_generator.py:250-299 | the scan counts the blacklisted movies it passes; it gives up exactly when three consecutive blacklisted movies exist, and then stops at the first such triple; otherwise it scans the whole pool |
| PlexSelection.MediaStep | plex_playlist_generator.py:229-311 | a movie pick appends the drawn movie and changes no queue; a show pick with an empty queue changes nothing, otherwise moves the front of the (shuffled) queue; episodes in the playlist plus queues are conserved; movies come from the pool |
| PlexSelection.SelectMedia | plex_playlist_generator.py:204-312 | fails exactly when the target is positive and the listed kind has nothing to draw from; a filled playlist has exactly the target's size; episodes are conserved; every movie comes from the pool; with no movies and too few episodes it never fills |
| PlexSelection.GetRandomEpisodesOrMovies | plex_playlist_generator.py:101-312 | a filled playlist has the clamped size; no playlist exceeds it; `NoMedia`, `WatchedMovieSection`, `SpecialsOnly` and `EmptyChoice` each occur exactly under their conditions (`EmptyChoice` whenever shows are listed but none got a queue, even with movies available); the episodes are a sub-multiset of the queues built from the listed shows, each fetched for an eligible show, and every movie is an unwatched movie of a movie section |
| PlexText.Dehyphen | plex_playlist_generator.py:843 | `replace('-', ' ')`: same length, no hyphen, every other character kept |
| PlexText.AfterLastColon | plex_playlist_generator.py:846 | `split(':')[-1]` holds no colon and is no longer than its input |
| PlexText.AfterLastColonIsSuffix | plex_playlist_generator.py:846 | `split(':')[-1]` is the suffix after the last colon, or the whole string |
| PlexText.AfterLastColonOfJoin | plex_playlist_generator.py:846 | the text after the last colon of `x + ":" + y` is `y` when `y` has no colon |
| PlexText.DropLast | plex_playlist_generator.py:849 | `s[:-1]` is a prefix one character shorter (the empty string stays empty) |
| PlexText.StripOpenAsWritten | plex_playlist_generator.py:851-853 | the opening-bracket step with the test `s[1:] == '<'` as written; what it does is `StripOpenAsWrittenFires` and `StripOpenAsWrittenOtherwise` |
| PlexText.StripOpenAsWrittenFires | plex_playlist_generator.py:851-853 | as written, the test fires on a two-character name ending in `<` and then leaves just the first character |
| PlexText.StripOpenAsWrittenOtherwise | plex_playlist_generator.py:851-853 | as written, every other name passes unchanged |
| PlexText.StripOpen | plex_playlist_generator.py:851-853 | the intended test `s[:1] == '<'`; what it does is `StripOpenOfBracketed` and `StripOpenOtherwise` |
| PlexText.StripOpenOtherwise | plex_playlist_generator.py:851-853 | with the intended test, a name not starting with `<` is unchanged |
| PlexText.StripOpenOfBracketed | plex_playlist_generator.py:851-853 | with the intended test, the `<` of `<name` is removed |
| PlexText.StripOpenWithoutBracket | plex_playlist_generator.py:851-853 | with the intended test, a name without `<` is unchanged |
| PlexText.StripClose | plex_playlist_generator.py:855-857 | the closing-bracket step: a final `>` triggers `replace('>', '', 1)`; what it does is `StripCloseOfTrailing` and `StripCloseOtherwise` |
| PlexText.StripCloseOfTrailing | plex_playlist_generator.py:855-857 | with a final `>`, exactly one `>` goes, and it is the last character when no other `>` precedes it |
| PlexText.StripCloseOtherwise | plex_playlist_generator.py:855-857 | without a final `>`, the name is unchanged |
| PlexText.Isolate | plex_playlist_generator.py:843-849 | after the first three steps, there is no hyphen and no colon, and the text is shorter than a non-empty input |
| PlexText.FormatElement | plex_playlist_generator.py:842-859 | the formatted element holds no hyphen and no colon and is shorter than a non-empty input |
| PlexText.FormatElementOfPrinted | plex_playlist_generator.py:834-859 | `...:name>` formats to the name with hyphens as spaces |
| PlexText.DocumentedExample | plex_playlist_generator.py:836 | `<MyPlexUser:123456789:Plex-User>` becomes `Plex User` |
| PlexText.IsolateBracketed | plex_playlist_generator.py:843-849 | `<name>` without a colon is isolated to `<name` |
| PlexText.FormatElementKeepsOpeningBracket | plex_playlist_generator.py:851-853 | as written, `<name>` formats to `<name`: the opening bracket stays |
| PlexText.StripOpenAsWrittenWithoutBracket | plex_playlist_generator.py:851-853 | the source's opening-bracket step leaves a name without `<` alone |
| PlexText.StripOpenAsWrittenOfBracketed | plex_playlist_generator.py:851-853 | the source's opening-bracket step does not remove the `<` of `<name` |
| PlexText.StripCloseWithoutBracket | plex_playlist_generator.py:855-857 | the closing-bracket step leaves a name without `>` alone |
| PlexText.FormatElementCorrected | plex_playlist_generator.py:851-853 | with the first-character test the formatter keeps the same guarantees: no hyphen, no colon, shorter |
| PlexText.FormatElementCorrectedStripsBrackets | plex_playlist_generator.py:851-853 | with the first-character test, `<name>` formats to the name |
| PlexText.FormatElementCorrectedOfPrinted | plex_playlist_generator.py:834-859 | the corrected formatter agrees with the source on every `...:name>` form |
| PlexText.FormatElements | plex_playlist_generator.py:861-880 | the list case has the input's length and formats element `i` exactly as the string case does |
| PlexText.IsSpace | plex_playlist_generator.py:624 | the pattern's `\s`, as the characters for which `str.isspace()` holds; a comma is not one of them by `CommaIsNotSpace`, and runs of it are maximal by `SpaceRunIsMaximal` |
| PlexText.CommaIsNotSpace | plex_playlist_generator.py:624 | the comma the pattern matches around is not whitespace |
| PlexText.Substitute | plex_playlist_generator.py:624-625 | `re.sub` with the space-remover pattern; its length is `SubstituteShortens`, what the result looks like `SubstituteIsGood`, and what it keeps `SubFromContent` |
| PlexText.SubstituteShortens | plex_playlist_generator.py:624-625 | the substitution never lengthens the entry, since every match is replaced by one comma; the empty entry stays empty |
| PlexText.Normalise | plex_playlist_generator.py:624-627 | the exclude list has at least one name, and joining the names with commas gives back the substituted entry (their shape is `NormalisedNamesAreTrimmed`) |
| PlexText.Join | plex_playlist_generator.py:627 | `','.join`: starts with the first piece, followed by a comma when there is a further piece; the inverse of `Split` by `JoinSplit` |
| PlexText.SpaceRunIsMaximal | plex_playlist_generator.py:624 | the whitespace run a `\s*` matches is all whitespace and is followed by a non-space or the end |
| PlexText.Split | plex_playlist_generator.py:627 | `split(',')` yields at least one piece, and no piece holds a comma |
| PlexText.JoinSplit | plex_playlist_generator.py:627 | joining the pieces with commas gives the string back |
| PlexText.SubFromInner | plex_playlist_generator.py:624-625 | from any position, the substitution's output has whitespace only between two non-comma characters |
| PlexText.SubstituteIsGood | plex_playlist_generator.py:624-625 | after `re.sub`, no whitespace is at either end or beside a comma |
| PlexText.SplitGoodIsTrimmed | plex_playlist_generator.py:627 | splitting such a string yields pieces with no whitespace at either end |
| PlexText.NormalisedNamesAreTrimmed | plex_playlist_generator.py:624-627 | every normalised name has no comma and no leading or trailing whitespace |
| PlexText.SubFromWithoutSpace | plex_playlist_generator.py:624-625 | without whitespace the substitution leaves the input unchanged |
| PlexText.NormaliseWithoutSpace | plex_playlist_generator.py:624-627 | an entry without whitespace splits exactly at its commas, and joining the names gives it back |
| PlexText.SubFromContent | plex_playlist_generator.py:624-625 | from any position, the substitution keeps the non-space, non-comma characters, in order |
| PlexText.NormalisePreservesContent | plex_playlist_generator.py:624-627 | the names hold, in order, exactly the characters of the entry that are neither whitespace nor commas |
| PlexSections.Titles | plex_playlist_generator.py:611-615 | one title per section, in server order |
| PlexSections.TitlesBeforeFrom | plex_playlist_generator.py:674-699 | the accepted titles before `i` and from `i` on concatenate to all accepted titles |
| PlexSections.TitlesBeforeMember | plex_playlist_generator.py:674-699 | a title is listed exactly when an accepted section before `i` carries it |
| PlexSections.TitlesMember | plex_playlist_generator.py:611-615 | a title is listed exactly when a section carries it |
| PlexSections.ModeAdmits | plex_playlist_generator.py:781-803 | the mode admits a section exactly when both or neither of `--allshows`/`--allmovies` is given, or the section is of the kind whose flag alone is given |
| PlexSections.Accepts | plex_playlist_generator.py:674-803 | the mode splits the show and movie sections that are not excluded into wanted and refused ones; a selection splits all sections into selected and unselected ones |
| PlexSections.Removes | plex_playlist_generator.py:770-803 | only a section still in use is removed; an excluded, music or photo section in use always is; with both or neither mode flag nothing else is |
| PlexSections.SectionLists | plex_playlist_generator.py:673-699 | the show, movie, music and photo lists are the titles of the sections of that kind, in server order; without `--select-library`, the starting list is every show and movie section, otherwise empty |
| PlexSections.SelectStep | plex_playlist_generator.py:741-762 | a selected section goes to the sections to use, even when it is excluded; any other goes to the excluded list |
| PlexSections.ExcludeStep | plex_playlist_generator.py:764-803 | the section is removed when it is in use and excluded, music or photo, or refused by the mode; a removed section that was not yet excluded is appended to the excluded list |
| PlexSections.ExcludeStepKeepsState | plex_playlist_generator.py:764-803 | one such step keeps "sections = wanted before `i` + candidates from `i`" and "excluded = exclude list + refused before `i`" (titles distinct) |
| PlexSections.FilterSections | plex_playlist_generator.py:717-803 | with `--select-library`: fails exactly when, with some section, every section or the selection equals the exclude list as sets, and otherwise returns the selected and unselected sections in server order; without it: fails only with `AllSectionsExcluded`, fails when every section is excluded, and (titles distinct) fails exactly when the check stops and otherwise returns the wanted sections and the exclude list extended by the refused ones |
| PlexSections.FilterSelected | plex_playlist_generator.py:730-762 | the `--select-library` loop: both error conditions exactly, and otherwise the selected and the unselected sections |
| PlexSections.FilterExcluding | plex_playlist_generator.py:718-803 | the loop without `--select-library`, lines 764-803 included: errors, stopping condition and result as for FilterSections |
| PlexSections.WantedSections | plex_playlist_generator.py:674-803 | a used section (no `--select-library`) is a show or movie section, is not excluded, is a show section under `--allshows` alone and a movie section under `--allmovies` alone |
| PlexSections.WantedSectionsComplete | plex_playlist_generator.py:674-803 | every show or movie section that is not excluded and is admitted by the mode is used |
| PlexSections.SelectedSections | plex_playlist_generator.py:741-762 | with `--select-library`, a title is used exactly when a section has it and it is selected, and it is excluded exactly when a section has it and it is not selected |
| PlexSections.SelectionPartitions | plex_playlist_generator.py:741-762 | with `--select-library`, the used and excluded lists together are a permutation of all section titles |
| PlexSections.WantedNeverExcluded | plex_playlist_generator.py:764-803 | with distinct titles, a wanted section is never on the excluded list at any point of the loop |
| PlexSections.StopsOnlyWhenNothingWanted | plex_playlist_generator.py:730-733 | with distinct titles, the mid-loop "all sections excluded" stop happens only when no section would be used |

## Left out

- Media-server, plex.tv and TV-database I/O is not modelled. This includes fetching sections and shows, `Playlist.create`, playlist deletion with its `sleep`, the user-token and user-id requests and the per-user generation. Their results are inputs.
- `tvdb_season_count` (the GUID regex and the API-key `RuntimeError`) becomes the catalog's season-length map. Exceptions other than `NotFound` are not modelled.
- Randomness as a distribution is not modelled; every random choice is an input.
- Printing, logging, `get_args`, the argument and connection checks in `main`, and `build_playlist` are not modelled. `build_playlist` is called the same way in every mode (plex_playlist_generator.py:811-829); the model ends with the section lists it receives.
- `tv_shows_and_Movies_section_formatter` is not modelled: its results (plex_playlist_generator.py:708-709) are never read.
- PlexSelection.GatherSections: with `--include-watched`, a movie section object is stored instead of a list (plex_playlist_generator.py:128, 146). The model reports this as the `WatchedMovieSection` error and does not model what Python would then do with the object.
- The continuity step of the newer loop (plex_playlist_generator.py:234-236) is not modelled. It is unreachable because `--ignore-skipped` defaults to true, and it names an undefined `all_shows`.
- PlaylistGenerator.SelectEpisodes and PlexSelection.SelectMedia take their random choices from a finite list. A run that exhausts the list is `OutOfDraws`, so non-termination of the older loop is shown only as "never fills", not as divergence.
- PlexSections.FilterSections: the exact-match regex `'^' + re.escape(t) + '$'` is modelled as string equality. Python's `$` also matches before a trailing newline, and a title ending in a newline is not modelled.
- PlexSections.FilterSections: without `--select-library`, the section lists and the stopping point are characterised only for servers whose section titles are distinct. For other servers the contract says only the error kind and that a fully excluded server fails.
- PlexSections.FilterSections: the second loop's two modes are modelled as two loops (`FilterSelected`, `FilterExcluding`). The mode never changes while the loop runs, so the order of list updates is the same.
- The show dictionary and its in-place `pop(0)`/`shuffle` are modelled as a value (`ShowTable`) that each step returns updated; the dictionary never escapes the function, so no aliasing is lost.

## Findings

| source | as written | input that shows it | evidently intended | confidence | as-written member | corrected member |
|---|---|---|---|---|---|---|
| plex_playlist_generator.py:851-853 (and 872-874) | `if s[1:] == '<'` tests whether everything after the first character is `<` | the element `<Show>` (no colon): after `[:-1]` it is `<Show`, and `Show` is not `<`, so the result is `<Show` | the comment says "if the first character is `<`, remove it", i.e. `s[:1] == '<'`, giving `Show` | high (not executed) | PlexText.FormatElementKeepsOpeningBracket | PlexText.FormatElementCorrectedStripsBrackets |
