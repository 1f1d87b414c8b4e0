/**
 * The data logic of the dashboard callbacks in dashboard/app.py: each one
 * filters the store by year, groups, aggregates and ranks. Figures, HTML,
 * labels and float conversions of durations are not modelled.
 */
module Dashboard {
  import opened Wrappers
  import opened Timestamps
  import opened Ingestion
  import opened Seqs
  import opened Text
  import opened Grouping
  import opened Columns

  /** The year dropdown: `'all'` or one year. */
  datatype YearChoice = AllTime | InYear(year: int)

  /** `filter_by_year`: every row for `'all'`, otherwise exactly the rows of that year, in order. */
  function FilterByYear(rows: seq<Row>, year: YearChoice): (r: seq<Row>)
    ensures year.AllTime? ==> r == rows
    ensures year.InYear? ==> forall x :: x in r <==> x in rows && x.ts.year == year.year
  {
    match year
    case AllTime => rows
    case InYear(y) => Filter(rows, YearIs(y))
  }

  /**
   * `validate_top_n`: an absent, zero or negative request gets the default;
   * any other is capped at `maxValue`.
   */
  function ValidateTopN(topN: Option<int>, maxValue: int, fallback: int): (n: int)
    ensures (topN.None? || topN.value < 1) ==> n == fallback
    ensures topN.Some? && topN.value >= 1 ==>
      n <= topN.value && n <= maxValue && (n == topN.value || n == maxValue)
  {
    if topN.None? || topN.value < 1 then fallback
    else if topN.value < maxValue then topN.value
    else maxValue
  }

  /** The result is a valid count whenever the default is. */
  lemma ValidateTopNInRange(topN: Option<int>, maxValue: int, fallback: int)
    requires 1 <= fallback <= maxValue
    ensures 1 <= ValidateTopN(topN, maxValue, fallback) <= maxValue
  {
  }

  // ---------------------------------------------------------------------------
  // update_stats
  // ---------------------------------------------------------------------------

  datatype Stats = Stats(totalPlays: nat, totalMs: int, uniqueSongs: nat, uniqueArtists: nat)

  /**
   * `update_stats`: plays count every row of the year (songs, podcasts and
   * audiobooks); distinct songs and artists are counted among rows with a
   * track name only.
   */
  function UpdateStats(rows: seq<Row>, year: YearChoice): (s: Stats)
    ensures s.uniqueSongs <= s.totalPlays && s.uniqueArtists <= s.totalPlays
  {
    var filtered := FilterByYear(rows, year);
    var tracks := Filter(filtered, HasTrackName);
    KeySetBound(tracks, TrackKey);
    KeySetBound(tracks, ArtistKey);
    Stats(|filtered|, TotalMs(filtered), |KeySet(tracks, TrackKey)|, |KeySet(tracks, ArtistKey)|)
  }

  /**
   * A row without a track name (a podcast episode or an audiobook chapter)
   * changes neither distinct count; it adds one play and its duration when
   * it falls in the chosen year, and nothing otherwise.
   */
  lemma StatsIgnoreNonTracks(rows: seq<Row>, x: Row, year: YearChoice)
    requires x.trackName.None?
    ensures var before, after := UpdateStats(rows, year), UpdateStats(rows + [x], year);
      var shown := year.AllTime? || x.ts.year == year.year;
      && after.totalPlays == before.totalPlays + (if shown then 1 else 0)
      && after.totalMs == before.totalMs + (if shown then x.msPlayed else 0)
      && after.uniqueSongs == before.uniqueSongs
      && after.uniqueArtists == before.uniqueArtists
  {
    var yr, yr' := FilterByYear(rows, year), FilterByYear(rows + [x], year);
    if year.InYear? {
      FilterSnoc(rows, x, YearIs(year.year));
    }
    if year.AllTime? || x.ts.year == year.year {
      assert yr' == yr + [x];
      FilterAppend(yr, [x], HasTrackName);
      assert Filter([x], HasTrackName) == [] by {
        assert [x][..0] == [];
      }
      assert Filter(yr', HasTrackName) == Filter(yr, HasTrackName);
      assert yr'[..|yr|] == yr;
    } else {
      assert yr' == yr;
    }
  }

  /**
   * A year with no track-name row (only podcasts or audiobooks) shows zero
   * distinct songs and artists, and every row of the year as a play.
   */
  lemma StatsWithoutTracks(rows: seq<Row>, year: YearChoice)
    requires forall i :: 0 <= i < |rows| ==> rows[i].trackName.None?
    ensures var s := UpdateStats(rows, year);
      s.uniqueSongs == 0 && s.uniqueArtists == 0 && s.totalPlays == |FilterByYear(rows, year)|
  {
    var yr := FilterByYear(rows, year);
    forall i | 0 <= i < |yr|
      ensures !HasTrackName(yr[i])
    {
      assert yr[i] in yr;
    }
    FilterEmpty(yr, HasTrackName);
    assert KeySet([], TrackKey) == {} && KeySet([], ArtistKey) == {};
  }

  /** Distinct songs are the distinct non-null track names of the year. */
  lemma StatsSongsAreTrackNames(rows: seq<Row>, year: YearChoice)
    ensures UpdateStats(rows, year).uniqueSongs == |KeySet(FilterByYear(rows, year), TrackKey)|
  {
    KeySetIgnoresUnkeyed(FilterByYear(rows, year), HasTrackName, TrackKey);
  }

  // ---------------------------------------------------------------------------
  // update_top_artists, update_top_songs, update_top_podcasts
  // ---------------------------------------------------------------------------

  /** `update_top_artists`: artists of the year by listening time. */
  function UpdateTopArtists(rows: seq<Row>, year: YearChoice, topN: Option<int>): (r: seq<Group<string>>)
    ensures |r| <= 100
  {
    var n := ValidateTopN(topN, 100, 10);
    var filtered := Filter(FilterByYear(rows, year), HasArtistName);
    TopN(GroupBy(filtered, ArtistKey, HasTrackName), n, ListeningMs)
  }

  /**
   * The top artists: `min(n, number of artists)` of them for the validated
   * `n`, by listening time descending, one per artist, each with the artist's
   * total duration in the year and, as plays, the year's rows of that artist
   * that have a track name; no artist left out has more listening time than
   * one shown.
   */
  lemma TopArtistsSpec(rows: seq<Row>, year: YearChoice, topN: Option<int>)
    ensures var r, yr, n := UpdateTopArtists(rows, year, topN), FilterByYear(rows, year), ValidateTopN(topN, 100, 10);
      && 1 <= n <= 100
      && |r| == (if n < |KeySet(yr, ArtistKey)| then n else |KeySet(yr, ArtistKey)|)
      && SortedDesc(r, ListeningMs) && DistinctKeys(r)
      && Outranks(r, GroupBy(yr, ArtistKey, HasTrackName), ListeningMs)
      && forall g :: g in r ==>
           HasKey(yr, ArtistKey, g.key) && g.totalMs == KeyTotal(yr, ArtistKey, g.key)
           && g.count == KeyCount(yr, ArtistKey, HasTrackName, g.key)
  {
    var yr, n := FilterByYear(rows, year), ValidateTopN(topN, 100, 10);
    ValidateTopNInRange(topN, 100, 10);
    GroupByIgnoresUnkeyed(yr, HasArtistName, ArtistKey, HasTrackName);
    RankedGroups(yr, ArtistKey, HasTrackName, n, ListeningMs);
  }

  /** The `sort_by` dropdown: plays for `"plays"`, listening time for anything else. */
  function SongMetric(sortBy: string): Group<(string, string)> -> int {
    if sortBy == "plays" then Plays else ListeningMs
  }

  /** `update_top_songs`: (track, artist) pairs of the year, by plays or by listening time. */
  function UpdateTopSongs(rows: seq<Row>, year: YearChoice, topN: Option<int>, sortBy: string): (r: seq<Group<(string, string)>>)
    ensures |r| <= 100
  {
    var n := ValidateTopN(topN, 100, 10);
    var filtered := Filter(FilterByYear(rows, year), HasTrackName);
    TopN(GroupBy(filtered, SongKey, EveryRow), n, SongMetric(sortBy))
  }

  /**
   * The top songs: at most the validated `n`, ranked by plays when `sortBy`
   * is `"plays"` and by listening time otherwise, one per (track, artist),
   * each with that pair's total duration and number of rows in the year;
   * no pair left out ranks above one shown.
   */
  lemma TopSongsSpec(rows: seq<Row>, year: YearChoice, topN: Option<int>, sortBy: string)
    ensures var r, yr, n := UpdateTopSongs(rows, year, topN, sortBy), FilterByYear(rows, year), ValidateTopN(topN, 100, 10);
      && |r| == (if n < |KeySet(yr, SongKey)| then n else |KeySet(yr, SongKey)|)
      && (sortBy == "plays" ==> SortedDesc(r, Plays))
      && (sortBy != "plays" ==> SortedDesc(r, ListeningMs))
      && Outranks(r, GroupBy(yr, SongKey, EveryRow), SongMetric(sortBy))
      && DistinctKeys(r)
      && forall g :: g in r ==>
           g.count >= 1 && g.totalMs == KeyTotal(yr, SongKey, g.key)
           && g.count == KeyCount(yr, SongKey, EveryRow, g.key)
  {
    var yr, n := FilterByYear(rows, year), ValidateTopN(topN, 100, 10);
    ValidateTopNInRange(topN, 100, 10);
    RankedSongs(yr, n, SongMetric(sortBy));
  }

  /** The song table over the year's rows `yr` for a positive `n`, under either ranking. */
  lemma RankedSongs(yr: seq<Row>, n: int, metric: Group<(string, string)> -> int)
    requires n >= 1
    ensures var r := TopN(GroupBy(Filter(yr, HasTrackName), SongKey, EveryRow), n, metric);
      && |r| == (if n < |KeySet(yr, SongKey)| then n else |KeySet(yr, SongKey)|)
      && SortedDesc(r, metric) && DistinctKeys(r)
      && Outranks(r, GroupBy(yr, SongKey, EveryRow), metric)
      && forall g :: g in r ==>
           g.count >= 1 && g.totalMs == KeyTotal(yr, SongKey, g.key)
           && g.count == KeyCount(yr, SongKey, EveryRow, g.key)
  {
    GroupByIgnoresUnkeyed(yr, HasTrackName, SongKey, EveryRow);
    RankedGroups(yr, SongKey, EveryRow, n, metric);
    forall g | g in TopN(GroupBy(yr, SongKey, EveryRow), n, metric)
      ensures g.count >= 1
    {
      CountAtLeastOne(yr, SongKey, EveryRow, g.key);
    }
  }

  datatype PodcastChart = NoPodcastData | Podcasts(shows: seq<Group<string>>)

  /** `update_top_podcasts`: shows of the year by listening time, or a placeholder. */
  function UpdateTopPodcasts(rows: seq<Row>, year: YearChoice, topN: Option<int>): PodcastChart {
    var n := ValidateTopN(topN, 50, 10);
    var filtered := Filter(FilterByYear(rows, year), HasShowName);
    if |filtered| == 0 then NoPodcastData
    else Podcasts(TopN(GroupBy(filtered, ShowKey, HasEpisodeName), n, ListeningMs))
  }

  /**
   * The placeholder is shown exactly when no row of the year has a show name;
   * otherwise `min(n, number of shows)` shows for the validated `n` (at most
   * 50), at least one, by listening time descending, each with its total and
   * its count of rows with an episode name; no show left out has more
   * listening time than one shown.
   */
  lemma TopPodcastsSpec(rows: seq<Row>, year: YearChoice, topN: Option<int>)
    ensures var c, yr, n := UpdateTopPodcasts(rows, year, topN), FilterByYear(rows, year), ValidateTopN(topN, 50, 10);
      && (c.NoPodcastData? <==> forall i :: 0 <= i < |yr| ==> yr[i].showName.None?)
      && (c.Podcasts? ==>
           && 1 <= n <= 50
           && |c.shows| == (if n < |KeySet(yr, ShowKey)| then n else |KeySet(yr, ShowKey)|)
           && 1 <= |c.shows|
           && SortedDesc(c.shows, ListeningMs) && DistinctKeys(c.shows)
           && Outranks(c.shows, GroupBy(yr, ShowKey, HasEpisodeName), ListeningMs)
           && forall g :: g in c.shows ==>
                HasKey(yr, ShowKey, g.key) && g.totalMs == KeyTotal(yr, ShowKey, g.key)
                && g.count == KeyCount(yr, ShowKey, HasEpisodeName, g.key))
  {
    var yr, n := FilterByYear(rows, year), ValidateTopN(topN, 50, 10);
    ValidateTopNInRange(topN, 50, 10);
    FilterEmpty(yr, HasShowName);
    if Filter(yr, HasShowName) != [] {
      RankedShows(yr, n);
    }
  }

  /** The show chart over the year's rows `yr`, when some of them have a show name. */
  lemma RankedShows(yr: seq<Row>, n: int)
    requires Filter(yr, HasShowName) != [] && n >= 1
    ensures var shows := TopN(GroupBy(Filter(yr, HasShowName), ShowKey, HasEpisodeName), n, ListeningMs);
      && |shows| == (if n < |KeySet(yr, ShowKey)| then n else |KeySet(yr, ShowKey)|)
      && 1 <= |shows|
      && SortedDesc(shows, ListeningMs) && DistinctKeys(shows)
      && Outranks(shows, GroupBy(yr, ShowKey, HasEpisodeName), ListeningMs)
      && forall g :: g in shows ==>
           HasKey(yr, ShowKey, g.key) && g.totalMs == KeyTotal(yr, ShowKey, g.key)
           && g.count == KeyCount(yr, ShowKey, HasEpisodeName, g.key)
  {
    FilterEmpty(yr, HasShowName);
    GroupByIgnoresUnkeyed(yr, HasShowName, ShowKey, HasEpisodeName);
    RankedGroups(yr, ShowKey, HasEpisodeName, n, ListeningMs);
    var i :| 0 <= i < |yr| && HasShowName(yr[i]);
    SomeKey(yr, ShowKey, i);
  }

  // ---------------------------------------------------------------------------
  // search_song, search_artist
  // ---------------------------------------------------------------------------

  /** A search callback's outcome: no search yet, a "no ... found" message, or results. */
  datatype SearchResult<T> = NoQuery | NoMatch | Found(result: T)

  /** `not n_clicks or not query` is false. */
  predicate Submitted(nClicks: Option<int>, query: Option<string>) {
    nClicks.Some? && nClicks.value != 0 && query.Some? && query.value != ""
  }

  /** `df[track].str.lower().str.contains(query.lower(), na=False)` */
  function TrackMatches(query: string): Row -> bool {
    (r: Row) => r.trackName.Some? && ContainsIgnoringCase(r.trackName.value, query)
  }

  /** `df[artist].str.lower().str.contains(query.lower(), na=False)` */
  function ArtistMatches(query: string): Row -> bool {
    (r: Row) => r.artistName.Some? && ContainsIgnoringCase(r.artistName.value, query)
  }

  /** `search_song`: matching (track, artist) pairs over the whole store, by plays. */
  function SearchSong(rows: seq<Row>, nClicks: Option<int>, songName: Option<string>): (res: SearchResult<seq<Group<(string, string)>>>)
    ensures res.NoQuery? <==> !Submitted(nClicks, songName)
  {
    if !Submitted(nClicks, songName) then NoQuery
    else
      var matches := Filter(rows, TrackMatches(songName.value));
      if matches == [] then NoMatch
      else Found(SortDesc(GroupBy(matches, SongKey, EveryRow), Plays))
  }

  /**
   * After a submitted search: the message appears exactly when no track name
   * contains the query (ignoring case); otherwise the table is complete and
   * exact for the matching rows (`SongsListed`).
   */
  lemma SearchSongSpec(rows: seq<Row>, nClicks: Option<int>, songName: Option<string>)
    requires Submitted(nClicks, songName)
    ensures var res, q := SearchSong(rows, nClicks, songName), songName.value;
      var matches := Filter(rows, TrackMatches(q));
      && (res.NoMatch? <==> forall i :: 0 <= i < |rows| ==> !TrackMatches(q)(rows[i]))
      && (res.Found? ==> SongsListed(matches, q, res.result))
  {
    var q := songName.value;
    var matches := Filter(rows, TrackMatches(q));
    FilterEmpty(rows, TrackMatches(q));
    if matches != [] {
      MatchedSongsListed(rows, q);
    }
  }

  /**
   * The search table for `matches`, the rows whose track name contains `q`:
   * complete and exact (`SongTable`) and made of matching pairs
   * (`PairsMatch`).
   */
  ghost predicate SongsListed(matches: seq<Row>, q: string, r: seq<Group<(string, string)>>) {
    SongTable(matches, r) && PairsMatch(q, r)
  }

  /** Sorted by plays, with exactly one exact group per (track, artist) pair of the rows. */
  ghost predicate SongTable(matches: seq<Row>, r: seq<Group<(string, string)>>) {
    SortedDesc(r, Plays) && ExactGroups(matches, SongKey, EveryRow, r)
  }

  /** Every listed track name contains the query, and every listed pair has a play. */
  ghost predicate PairsMatch(q: string, r: seq<Group<(string, string)>>) {
    forall g :: g in r ==> ContainsIgnoringCase(g.key.0, q) && g.count >= 1
  }

  lemma MatchedSongsListed(rows: seq<Row>, q: string)
    ensures var matches := Filter(rows, TrackMatches(q));
      SongsListed(matches, q, SortDesc(GroupBy(matches, SongKey, EveryRow), Plays))
  {
    var matches := Filter(rows, TrackMatches(q));
    SongTableExact(matches);
    MatchedPairsMatch(rows, q);
  }

  lemma SongTableExact(matches: seq<Row>)
    ensures SongTable(matches, SortDesc(GroupBy(matches, SongKey, EveryRow), Plays))
  {
    SortedGroupsExact(matches, SongKey, EveryRow, Plays);
  }

  lemma MatchedPairsMatch(rows: seq<Row>, q: string)
    ensures var matches := Filter(rows, TrackMatches(q));
      PairsMatch(q, SortDesc(GroupBy(matches, SongKey, EveryRow), Plays))
  {
    var matches := Filter(rows, TrackMatches(q));
    SortedGroups(matches, SongKey, EveryRow, Plays);
    forall g | g in SortDesc(GroupBy(matches, SongKey, EveryRow), Plays)
      ensures ContainsIgnoringCase(g.key.0, q) && g.count >= 1
    {
      MatchedPair(rows, q, g.key);
    }
  }

  /** A (track, artist) pair of a matching row has a matching track name and at least one play. */
  lemma MatchedPair(rows: seq<Row>, q: string, k: (string, string))
    requires HasKey(Filter(rows, TrackMatches(q)), SongKey, k)
    ensures ContainsIgnoringCase(k.0, q)
    ensures KeyCount(Filter(rows, TrackMatches(q)), SongKey, EveryRow, k) >= 1
  {
    var i := FilteredKey(rows, TrackMatches(q), SongKey, k);
    CountAtLeastOne(Filter(rows, TrackMatches(q)), SongKey, EveryRow, k);
  }

  /** The artist search's summary and per-song breakdown. */
  datatype ArtistSearch = ArtistSearch(totalPlays: nat, totalMs: int, uniqueSongs: nat, songs: seq<Group<string>>)

  /** `search_artist`: totals over the matching rows and their songs by plays. */
  function SearchArtist(rows: seq<Row>, nClicks: Option<int>, artistName: Option<string>): (res: SearchResult<ArtistSearch>)
    ensures res.NoQuery? <==> !Submitted(nClicks, artistName)
  {
    if !Submitted(nClicks, artistName) then NoQuery
    else
      var matches := Filter(rows, ArtistMatches(artistName.value));
      if matches == [] then NoMatch
      else Found(ArtistSearch(|matches|, TotalMs(matches), |KeySet(matches, TrackKey)|,
                              SortDesc(GroupBy(matches, TrackKey, EveryRow), Plays)))
  }

  /**
   * After a submitted search: the message appears exactly when no artist name
   * contains the query; otherwise there is at least one play, the song count
   * is the number of distinct track names among the matching rows, the
   * breakdown has one row for each of them, sorted by plays, each with that
   * song's exact plays (at least one) and duration, and its plays add up to
   * the matching rows that have a track name.
   */
  lemma SearchArtistSpec(rows: seq<Row>, nClicks: Option<int>, artistName: Option<string>)
    requires Submitted(nClicks, artistName)
    ensures var res, q := SearchArtist(rows, nClicks, artistName), artistName.value;
      var matches := Filter(rows, ArtistMatches(q));
      && (res.NoMatch? <==> forall i :: 0 <= i < |rows| ==> !ArtistMatches(q)(rows[i]))
      && (res.Found? ==>
           && res.result.totalPlays >= 1
           && res.result.uniqueSongs == |KeySet(matches, TrackKey)| == |res.result.songs|
           && SortedDesc(res.result.songs, Plays) && DistinctKeys(res.result.songs)
           && SumCounts(res.result.songs) == KeyedCount(matches, TrackKey, EveryRow)
           && SumCounts(res.result.songs) <= res.result.totalPlays
           && (forall k :: HasKey(matches, TrackKey, k) ==> exists g :: g in res.result.songs && g.key == k)
           && forall g :: g in res.result.songs ==>
                HasKey(matches, TrackKey, g.key) && g.count >= 1
                && g.count == KeyCount(matches, TrackKey, EveryRow, g.key)
                && g.totalMs == KeyTotal(matches, TrackKey, g.key))
  {
    var q := artistName.value;
    var matches := Filter(rows, ArtistMatches(q));
    FilterEmpty(rows, ArtistMatches(q));
    if matches != [] {
      SortedGroups(matches, TrackKey, EveryRow, Plays);
      KeyedCountBound(matches, TrackKey, EveryRow);
      forall g | g in SortDesc(GroupBy(matches, TrackKey, EveryRow), Plays)
        ensures g.count >= 1
      {
        CountAtLeastOne(matches, TrackKey, EveryRow, g.key);
      }
    }
  }

  // ---------------------------------------------------------------------------
  // update_trends
  // ---------------------------------------------------------------------------

  /** Some bucket of the chart is for month `ym`. */
  predicate HasBucket(m: seq<Group<YearMonth>>, ym: YearMonth) {
    exists g :: g in m && g.key == ym
  }

  /** Some row was played in month `ym`. */
  predicate SomeRowIn(rows: seq<Row>, ym: YearMonth) {
    exists i :: 0 <= i < |rows| && MonthOf(rows[i].ts) == ym
  }

  /** Ranks months earliest first. */
  function EarlierFirst(g: Group<YearMonth>): int { -MonthIndex(g.key) }

  /** `update_trends`: one bucket per calendar month, over the whole store. */
  function UpdateTrends(rows: seq<Row>): seq<Group<YearMonth>> {
    SortDesc(GroupBy(rows, MonthKey, HasTrackName), EarlierFirst)
  }

  /**
   * The buckets are in strictly increasing month order, there is one exactly
   * for each month some row falls in (no zero-filled months), and each holds
   * the month's total duration and its count of rows with a track name.
   */
  lemma TrendsSpec(rows: seq<Row>)
    ensures var m := UpdateTrends(rows);
      && (forall i, j :: 0 <= i < j < |m| ==> MonthIndex(m[i].key) < MonthIndex(m[j].key))
      && (forall ym :: HasBucket(m, ym) <==> SomeRowIn(rows, ym))
      && forall g :: g in m ==>
           g.totalMs == KeyTotal(rows, MonthKey, g.key) && g.count == KeyCount(rows, MonthKey, HasTrackName, g.key)
  {
    var m := UpdateTrends(rows);
    SortedGroups(rows, MonthKey, HasTrackName, EarlierFirst);
    forall i, j | 0 <= i < j < |m|
      ensures MonthIndex(m[i].key) < MonthIndex(m[j].key)
    {
      MonthIndexOrder(m[i].key, m[j].key);
    }
    forall ym
      ensures HasBucket(m, ym) <==> SomeRowIn(rows, ym)
    {
      HasKeyIff(rows, MonthKey, ym);
    }
  }
}
