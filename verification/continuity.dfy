/**
 * The continuity check `skipped_missing`: before an episode is taken, the
 * episode that should precede it is looked up, and a missing predecessor
 * makes the selection skip the show for this draw. The two lookups it relies
 * on, the media server's "does episode (s, e) of this show exist" and the
 * TV database's "how many episodes has season s", are given as a catalog.
 */
module Continuity {
  import opened Media

  /**
   * The answers of the two external lookups: `present` holds the
   * (show, season, index) triples the media server finds, `seasonLength` the
   * season lengths the TV database knows; a (show, season) pair missing from
   * it is a lookup that failed with "season not found".
   */
  datatype Catalog = Catalog(present: set<(string, nat, nat)>, seasonLength: map<(string, nat), nat>)

  /** True when episode `e` of show `title` has a missing predecessor. */
  predicate SkippedMissing(cat: Catalog, title: string, e: Episode)
    ensures SkippedMissing(cat, title, e) ==> e.index > 1 || e.season > 1
    ensures e.index <= 1 && e.season > 1 && (title, e.season - 1) !in cat.seasonLength
            ==> !SkippedMissing(cat, title, e)
  {
    if e.index > 1 then
      (title, e.season, e.index - 1) !in cat.present
    else if e.season > 1 then
      var previous := (title, e.season - 1);
      if previous !in cat.seasonLength then false
      else (title, e.season - 1, cat.seasonLength[previous]) !in cat.present
    else
      false
  }

  /** Episode `p` (season, index) comes before episode `e` in series order. */
  predicate Before(p: (nat, nat), e: Episode)
  {
    p.0 < e.season || (p.0 == e.season && p.1 < e.index)
  }

  /**
   * A reported skip is never a false alarm about order: some episode that
   * comes before `e` is missing from the media server.
   */
  lemma SkipMeansEarlierEpisodeMissing(cat: Catalog, title: string, e: Episode)
    requires SkippedMissing(cat, title, e)
    ensures exists s: nat, i: nat :: Before((s, i), e) && (title, s, i) !in cat.present
  {
    if e.index > 1 {
      assert Before((e.season, e.index - 1), e);
    } else {
      var len := cat.seasonLength[(title, e.season - 1)];
      assert Before((e.season - 1, len), e);
    }
  }

  /**
   * When every earlier episode with an index of at least 1 is on the media
   * server and no known season is empty, no skip is reported.
   */
  lemma NoGapNoSkip(cat: Catalog, title: string, e: Episode)
    requires forall s: nat, i: nat :: 1 <= i && Before((s, i), e) ==> (title, s, i) in cat.present
    requires forall s: nat :: (title, s) in cat.seasonLength ==> cat.seasonLength[(title, s)] > 0
    ensures !SkippedMissing(cat, title, e)
  {
    if e.index > 1 {
      assert Before((e.season, e.index - 1), e);
    } else if e.season > 1 && (title, e.season - 1) in cat.seasonLength {
      var len := cat.seasonLength[(title, e.season - 1)];
      assert Before((e.season - 1, len), e);
    }
  }

  /**
   * Knowing more episodes can only withdraw skips: with the same season
   * lengths, a catalog that holds more episodes reports fewer skips.
   */
  lemma MoreEpisodesFewerSkips(small: Catalog, large: Catalog, title: string, e: Episode)
    requires small.present <= large.present && small.seasonLength == large.seasonLength
    ensures SkippedMissing(large, title, e) ==> SkippedMissing(small, title, e)
  {
  }
}
