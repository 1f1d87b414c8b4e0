/**
 * The command-line reports: top songs, artists and podcasts for a year or
 * all time, and the song and artist statistics searches. Each either returns
 * a table or stops at one of its "nothing found" messages.
 */
module Reports {
  import opened Wrappers
  import opened Ingestion
  import opened Seqs
  import opened Text
  import opened Grouping
  import opened Columns

  /** A report's outcome: the message it prints instead of a table, or the table. */
  datatype Report<T> = NoRecordsForYear | NoRecords | NoMatches | Table(rows: T)

  /** `df[df['ts'].dt.year == year]` when a year is given, else every row. */
  function YearRows(rows: seq<Row>, year: Option<int>): (r: seq<Row>)
    ensures year.None? ==> r == rows
    ensures year.Some? ==> forall x :: x in r <==> x in rows && x.ts.year == year.value
  {
    if year.None? then rows else Filter(rows, YearIs(year.value))
  }

  /** No row falls in the requested year. */
  predicate NoneInYear(rows: seq<Row>, year: int) {
    forall i :: 0 <= i < |rows| ==> rows[i].ts.year != year
  }

  /** A music play: track name and track URI both present. */
  predicate IsTrack(r: Row) { r.trackName.Some? && r.trackUri.Some? }

  /** A music play with a known artist. */
  predicate IsArtistTrack(r: Row) { IsTrack(r) && r.artistName.Some? }

  /** A podcast play: episode name and episode URI both present. */
  predicate IsEpisode(r: Row) { r.episodeName.Some? && r.episodeUri.Some? }

  /** `YearRows` is empty exactly when no row falls in the year. */
  lemma YearRowsEmpty(rows: seq<Row>, year: int)
    ensures YearRows(rows, Some(year)) == [] <==> NoneInYear(rows, year)
  {
    FilterEmpty(rows, YearIs(year));
  }

  // ---------------------------------------------------------------------------
  // top_songs.py, top_artists_script.py, top_podcasts.py
  // ---------------------------------------------------------------------------

  /** `get_top_songs`: (track, artist) pairs by number of plays. */
  function TopSongs(rows: seq<Row>, year: Option<int>, topN: int): Report<seq<Group<(string, string)>>> {
    var yr := YearRows(rows, year);
    if year.Some? && yr == [] then NoRecordsForYear
    else
      var tracks := Filter(yr, IsTrack);
      if tracks == [] then NoRecords
      else Table(TopN(GroupBy(tracks, SongKey, EveryRow), topN, Plays))
  }

  /**
   * The year message appears exactly when a year is given and no row is in
   * it; the track message exactly when the selected rows hold no track; a
   * table holds `min(topN, pairs)` pairs by plays descending, each once, with
   * its exact play count (at least one) and total duration over the tracks;
   * no pair left out has more plays than one listed.
   */
  lemma TopSongsSpec(rows: seq<Row>, year: Option<int>, topN: int)
    ensures var rep, yr := TopSongs(rows, year, topN), YearRows(rows, year);
      var tracks := Filter(yr, IsTrack);
      && (rep.NoRecordsForYear? <==> year.Some? && NoneInYear(rows, year.value))
      && (rep.NoRecords? <==> !(year.Some? && NoneInYear(rows, year.value)) && forall i :: 0 <= i < |yr| ==> !IsTrack(yr[i]))
      && (rep.Table? ==>
           && SortedDesc(rep.rows, Plays) && DistinctKeys(rep.rows)
           && Outranks(rep.rows, GroupBy(tracks, SongKey, EveryRow), Plays)
           && (0 <= topN ==> |rep.rows| == if topN < |KeySet(tracks, SongKey)| then topN else |KeySet(tracks, SongKey)|)
           && forall g :: g in rep.rows ==>
                g.count >= 1 && g.count == KeyCount(tracks, SongKey, EveryRow, g.key)
                && g.totalMs == KeyTotal(tracks, SongKey, g.key))
  {
    var yr := YearRows(rows, year);
    var tracks := Filter(yr, IsTrack);
    if year.Some? {
      YearRowsEmpty(rows, year.value);
    }
    FilterEmpty(yr, IsTrack);
    RankedGroups(tracks, SongKey, EveryRow, topN, Plays);
    forall g | g in TopN(GroupBy(tracks, SongKey, EveryRow), topN, Plays)
      ensures g.count >= 1
    {
      CountAtLeastOne(tracks, SongKey, EveryRow, g.key);
    }
  }

  /** `get_top_artists`: artists by total listening time. */
  function TopArtists(rows: seq<Row>, year: Option<int>, topN: int): Report<seq<Group<string>>> {
    var yr := YearRows(rows, year);
    if year.Some? && yr == [] then NoRecordsForYear
    else
      var tracks := Filter(yr, HasArtistName);
      if tracks == [] then NoRecords
      else Table(TopN(GroupBy(tracks, ArtistKey, EveryRow), topN, ListeningMs))
  }

  /**
   * The messages appear exactly when the year, or the year's rows with an
   * artist, are empty; a table holds `min(topN, artists)` artists by
   * listening time descending, at least one when `topN` is positive, each
   * an artist of the year with its exact total and play count there; no
   * artist left out has more listening time than one listed.
   */
  lemma TopArtistsSpec(rows: seq<Row>, year: Option<int>, topN: int)
    ensures var rep, yr := TopArtists(rows, year, topN), YearRows(rows, year);
      && (rep.NoRecordsForYear? <==> year.Some? && NoneInYear(rows, year.value))
      && (rep.NoRecords? <==> !(year.Some? && NoneInYear(rows, year.value)) && forall i :: 0 <= i < |yr| ==> yr[i].artistName.None?)
      && (rep.Table? ==>
           && SortedDesc(rep.rows, ListeningMs) && DistinctKeys(rep.rows)
           && Outranks(rep.rows, GroupBy(yr, ArtistKey, EveryRow), ListeningMs)
           && (0 <= topN ==> |rep.rows| == if topN < |KeySet(yr, ArtistKey)| then topN else |KeySet(yr, ArtistKey)|)
           && (1 <= topN ==> |rep.rows| >= 1)
           && forall g :: g in rep.rows ==>
                HasKey(yr, ArtistKey, g.key) && g.totalMs == KeyTotal(yr, ArtistKey, g.key) && g.count == KeyCount(yr, ArtistKey, EveryRow, g.key))
  {
    var yr := YearRows(rows, year);
    if year.Some? {
      YearRowsEmpty(rows, year.value);
    }
    FilterEmpty(yr, HasArtistName);
    if Filter(yr, HasArtistName) != [] {
      RankedArtists(yr, topN);
    }
  }

  /** The artist table over the selected rows `yr`, when some of them have an artist. */
  lemma RankedArtists(yr: seq<Row>, topN: int)
    requires Filter(yr, HasArtistName) != []
    ensures var r := TopN(GroupBy(Filter(yr, HasArtistName), ArtistKey, EveryRow), topN, ListeningMs);
      && SortedDesc(r, ListeningMs) && DistinctKeys(r)
      && Outranks(r, GroupBy(yr, ArtistKey, EveryRow), ListeningMs)
      && (0 <= topN ==> |r| == if topN < |KeySet(yr, ArtistKey)| then topN else |KeySet(yr, ArtistKey)|)
      && (1 <= topN ==> |r| >= 1)
      && forall g :: g in r ==>
           HasKey(yr, ArtistKey, g.key) && g.totalMs == KeyTotal(yr, ArtistKey, g.key)
           && g.count == KeyCount(yr, ArtistKey, EveryRow, g.key)
  {
    FilterEmpty(yr, HasArtistName);
    GroupByIgnoresUnkeyed(yr, HasArtistName, ArtistKey, EveryRow);
    RankedGroups(yr, ArtistKey, EveryRow, topN, ListeningMs);
    var i :| 0 <= i < |yr| && HasArtistName(yr[i]);
    SomeKey(yr, ArtistKey, i);
  }

  /** `get_top_podcasts`: shows by total listening time; episodes are selected before the year. */
  function TopPodcasts(rows: seq<Row>, year: Option<int>, topN: int): Report<seq<Group<string>>> {
    var episodes := Filter(rows, IsEpisode);
    if episodes == [] then NoRecords
    else
      var yr := YearRows(episodes, year);
      if year.Some? && yr == [] then NoRecordsForYear
      else Table(TopN(GroupBy(yr, ShowKey, EveryRow), topN, ListeningMs))
  }

  /**
   * The database message appears exactly when no row is an episode, the year
   * message exactly when episodes exist but none in the year; a table ranks
   * shows by listening time, each once with its exact total and episode-play
   * count; episodes without a show name are in no row, and no show left out
   * has more listening time than one listed.
   */
  lemma TopPodcastsSpec(rows: seq<Row>, year: Option<int>, topN: int)
    ensures var rep, episodes := TopPodcasts(rows, year, topN), Filter(rows, IsEpisode);
      var yr := YearRows(episodes, year);
      && (rep.NoRecords? <==> forall i :: 0 <= i < |rows| ==> !IsEpisode(rows[i]))
      && (rep.NoRecordsForYear? <==> !rep.NoRecords? && year.Some? && NoneInYear(episodes, year.value))
      && (rep.Table? ==>
           && SortedDesc(rep.rows, ListeningMs) && DistinctKeys(rep.rows)
           && Outranks(rep.rows, GroupBy(yr, ShowKey, EveryRow), ListeningMs)
           && (0 <= topN ==> |rep.rows| == if topN < |KeySet(yr, ShowKey)| then topN else |KeySet(yr, ShowKey)|)
           && forall g :: g in rep.rows ==>
                HasKey(yr, ShowKey, g.key) && g.totalMs == KeyTotal(yr, ShowKey, g.key)
                && g.count == KeyCount(yr, ShowKey, EveryRow, g.key))
  {
    var episodes := Filter(rows, IsEpisode);
    FilterEmpty(rows, IsEpisode);
    if year.Some? {
      YearRowsEmpty(episodes, year.value);
    }
    RankedGroups(YearRows(episodes, year), ShowKey, EveryRow, topN, ListeningMs);
  }

  // ---------------------------------------------------------------------------
  // song_stats.py, artist_stats.py
  // ---------------------------------------------------------------------------

  /** A name matches the query ignoring case: whole-name with `--exact`, as a substring otherwise. */
  predicate NameMatches(name: string, query: string, exact: bool) {
    if exact then EqualsIgnoringCase(name, query) else ContainsIgnoringCase(name, query)
  }

  function TrackMatch(query: string, exact: bool): Row -> bool {
    (r: Row) => r.trackName.Some? && NameMatches(r.trackName.value, query, exact)
  }

  function ArtistMatch(query: string, exact: bool): Row -> bool {
    (r: Row) => r.artistName.Some? && NameMatches(r.artistName.value, query, exact)
  }

  /** `get_song_stats`: matching (track, artist) pairs by play count. */
  function SongStats(rows: seq<Row>, query: string, exact: bool): Report<seq<Group<(string, string)>>> {
    var tracks := Filter(rows, IsTrack);
    if tracks == [] then NoRecords
    else
      var matches := Filter(tracks, TrackMatch(query, exact));
      if matches == [] then NoMatches
      else Table(SortDesc(GroupBy(matches, SongKey, EveryRow), Plays))
  }

  /**
   * The database message appears exactly when no row is a track, the
   * no-match message exactly when no track's name matches; a table is sorted
   * by plays, one row per (track, artist), each track name matching the
   * query and each count at least one and exact over the matching rows.
   */
  lemma SongStatsSpec(rows: seq<Row>, query: string, exact: bool)
    ensures var rep, tracks := SongStats(rows, query, exact), Filter(rows, IsTrack);
      var matches := Filter(tracks, TrackMatch(query, exact));
      && (rep.NoRecords? <==> forall i :: 0 <= i < |rows| ==> !IsTrack(rows[i]))
      && (rep.NoMatches? <==> !rep.NoRecords? && forall i :: 0 <= i < |tracks| ==> !TrackMatch(query, exact)(tracks[i]))
      && (rep.Table? ==>
           && SortedDesc(rep.rows, Plays) && DistinctKeys(rep.rows)
           && SumCounts(rep.rows) == KeyedCount(matches, SongKey, EveryRow)
           && forall g :: g in rep.rows ==>
                NameMatches(g.key.0, query, exact) && g.count >= 1
                && g.count == KeyCount(matches, SongKey, EveryRow, g.key)
                && g.totalMs == KeyTotal(matches, SongKey, g.key))
  {
    var tracks := Filter(rows, IsTrack);
    var p := TrackMatch(query, exact);
    var matches := Filter(tracks, p);
    FilterEmpty(rows, IsTrack);
    FilterEmpty(tracks, p);
    if matches != [] {
      SortedGroups(matches, SongKey, EveryRow, Plays);
      forall g | g in SortDesc(GroupBy(matches, SongKey, EveryRow), Plays)
        ensures NameMatches(g.key.0, query, exact) && g.count >= 1
      {
        MatchedSong(tracks, query, exact, g.key);
      }
    }
  }

  /** A (track, artist) pair found among the matches names a matching track and has a play. */
  lemma MatchedSong(tracks: seq<Row>, query: string, exact: bool, key: (string, string))
    requires HasKey(Filter(tracks, TrackMatch(query, exact)), SongKey, key)
    ensures NameMatches(key.0, query, exact)
    ensures KeyCount(Filter(tracks, TrackMatch(query, exact)), SongKey, EveryRow, key) >= 1
  {
    var i := FilteredKey(tracks, TrackMatch(query, exact), SongKey, key);
    CountAtLeastOne(Filter(tracks, TrackMatch(query, exact)), SongKey, EveryRow, key);
  }

  /**
   * A matching track whose artist is null is counted nowhere: the pair key
   * drops it, so the report's "Unknown" artist fallback is never reached and
   * such a play alone yields an empty table rather than a no-match message.
   */
  lemma UnknownArtistDropped(x: Row, query: string, exact: bool)
    requires IsTrack(x) && x.artistName.None? && TrackMatch(query, exact)(x)
    ensures SongStats([x], query, exact) == Table([])
  {
    SingletonKept(x, IsTrack);
    SingletonKept(x, TrackMatch(query, exact));
    KeylessSingleton(x);
  }

  lemma SingletonKept(x: Row, p: Row -> bool)
    requires p(x)
    ensures Filter([x], p) == [x]
  {
    assert [x][..0] == [];
  }

  lemma KeylessSingleton(x: Row)
    requires SongKey(x).None?
    ensures GroupBy([x], SongKey, EveryRow) == []
  {
    assert [x][..0] == [];
  }

  /** Exact search is narrower than partial search: no partial match means no exact match. */
  lemma ExactNarrowerThanPartial(rows: seq<Row>, query: string)
    ensures SongStats(rows, query, false).NoMatches? ==> SongStats(rows, query, true).NoMatches?
  {
    var tracks := Filter(rows, IsTrack);
    FilterEmpty(tracks, TrackMatch(query, false));
    FilterEmpty(tracks, TrackMatch(query, true));
    forall i | 0 <= i < |tracks| && TrackMatch(query, true)(tracks[i])
      ensures TrackMatch(query, false)(tracks[i])
    {
      ExactMatchIsSubstringMatch(tracks[i].trackName.value, query);
    }
  }

  /** `matches['master_metadata_album_artist_name']` without its nulls, in row order. */
  function ArtistColumn(rows: seq<Row>): (names: seq<string>)
    ensures forall a :: a in names <==> HasKey(rows, ArtistKey, a)
    decreases |rows|
  {
    if rows == [] then []
    else
      var x := rows[|rows| - 1];
      ArtistColumn(rows[..|rows| - 1]) + (if x.artistName.Some? then [x.artistName.value] else [])
  }

  /** `matches[matches['master_metadata_album_artist_name'] == artist]` */
  function ArtistIs(artist: string): Row -> bool {
    (r: Row) => r.artistName == Some(artist)
  }

  /** One artist's block of the report: overall figures and the per-song breakdown. */
  datatype ArtistSummary = ArtistSummary(artist: string, totalPlays: nat, totalMs: int, uniqueSongs: nat, songs: seq<Group<string>>)

  /** The block for `artist` over the matching rows. */
  function Summary(matches: seq<Row>, artist: string): ArtistSummary {
    var plays := Filter(matches, ArtistIs(artist));
    var songs := SortDesc(GroupBy(plays, TrackKey, EveryRow), Plays);
    ArtistSummary(artist, |plays|, TotalMs(plays), |songs|, songs)
  }

  /** The artist-track rows whose artist name matches the query. */
  function ArtistMatchRows(rows: seq<Row>, query: string, exact: bool): seq<Row> {
    Filter(Filter(rows, IsArtistTrack), ArtistMatch(query, exact))
  }

  /**
   * `get_artist_stats`: one block per distinct matching artist, in order of
   * first appearance.
   */
  method ArtistStats(rows: seq<Row>, query: string, exact: bool) returns (report: Report<seq<ArtistSummary>>)
    ensures report.NoRecords? <==> forall i :: 0 <= i < |rows| ==> !IsArtistTrack(rows[i])
    ensures report.NoMatches? <==> !report.NoRecords? && ArtistMatchRows(rows, query, exact) == []
    ensures !report.NoRecordsForYear?
    ensures report.Table? ==>
      var matches := ArtistMatchRows(rows, query, exact);
      var artists := Distinct(ArtistColumn(matches));
      |report.rows| == |artists| && forall j :: 0 <= j < |artists| ==> report.rows[j] == Summary(matches, artists[j])
  {
    var tracks := Filter(rows, IsArtistTrack);
    FilterEmpty(rows, IsArtistTrack);
    if tracks == [] {
      return NoRecords;
    }
    var matches := Filter(tracks, ArtistMatch(query, exact));
    if matches == [] {
      return NoMatches;
    }
    var blocks := Summaries(matches, Distinct(ArtistColumn(matches)));
    return Table(blocks);
  }

  /** The loop over the unique artists: one block per artist, in the given order. */
  method Summaries(matches: seq<Row>, artists: seq<string>) returns (blocks: seq<ArtistSummary>)
    ensures |blocks| == |artists|
    ensures forall j :: 0 <= j < |artists| ==> blocks[j] == Summary(matches, artists[j])
  {
    blocks := [];
    for i := 0 to |artists|
      invariant |blocks| == i
      invariant forall j :: 0 <= j < i ==> blocks[j] == Summary(matches, artists[j])
    {
      blocks := blocks + [Summary(matches, artists[i])];
    }
  }

  /**
   * The blocks are for distinct artists, each matching the query, and every
   * matching artist has one.
   */
  lemma ArtistBlocksSpec(rows: seq<Row>, query: string, exact: bool)
    ensures var matches := ArtistMatchRows(rows, query, exact);
      var artists := Distinct(ArtistColumn(matches));
      && (forall i, j :: 0 <= i < j < |artists| ==> artists[i] != artists[j])
      && (forall a :: a in artists ==> NameMatches(a, query, exact))
      && forall i :: 0 <= i < |matches| ==> matches[i].artistName.Some? && matches[i].artistName.value in artists
  {
    var tracks := Filter(rows, IsArtistTrack);
    var p := ArtistMatch(query, exact);
    var matches := Filter(tracks, p);
    forall a | a in Distinct(ArtistColumn(matches))
      ensures NameMatches(a, query, exact)
    {
      var i := FilteredKey(tracks, p, ArtistKey, a);
    }
    forall i | 0 <= i < |matches|
      ensures matches[i].artistName.Some? && matches[i].artistName.value in Distinct(ArtistColumn(matches))
    {
      assert matches[i] in matches;
      HasKeyIff(matches, ArtistKey, matches[i].artistName.value);
    }
  }

  /**
   * A block for an artist that has matching plays: at least one play, the
   * song count equals the breakdown's length, the breakdown is sorted by
   * plays, one row per song, and its plays and durations add up to the
   * artist's totals.
   */
  lemma SummarySpec(rows: seq<Row>, query: string, exact: bool, artist: string)
    requires artist in ArtistColumn(ArtistMatchRows(rows, query, exact))
    ensures var matches := ArtistMatchRows(rows, query, exact);
      var s := Summary(matches, artist);
      var plays := Filter(matches, ArtistIs(artist));
      && s.totalPlays >= 1
      && s.uniqueSongs == |s.songs| == |KeySet(plays, TrackKey)|
      && SortedDesc(s.songs, Plays) && DistinctKeys(s.songs)
      && SumCounts(s.songs) == s.totalPlays
      && SumTotals(s.songs) == s.totalMs
      && forall g :: g in s.songs ==> g.count >= 1 && g.count == KeyCount(plays, TrackKey, EveryRow, g.key)
  {
    var matches := ArtistMatchRows(rows, query, exact);
    var plays := Filter(matches, ArtistIs(artist));
    ArtistHasPlay(matches, artist);
    PlaysAreTracks(rows, query, exact, artist);
    KeyedAll(plays, TrackKey, EveryRow);
    SortedGroups(plays, TrackKey, EveryRow, Plays);
    forall g | g in Summary(matches, artist).songs
      ensures g.count >= 1
    {
      CountAtLeastOne(plays, TrackKey, EveryRow, g.key);
    }
  }

  /** An artist listed among the matches has at least one matching play. */
  lemma ArtistHasPlay(matches: seq<Row>, artist: string)
    requires artist in ArtistColumn(matches)
    ensures |Filter(matches, ArtistIs(artist))| >= 1
  {
    HasKeyIff(matches, ArtistKey, artist);
    var j :| 0 <= j < |matches| && ArtistKey(matches[j]) == Some(artist);
    assert matches[j] in Filter(matches, ArtistIs(artist));
  }

  /** Every play of a matching artist is a track play, and so has a track name. */
  lemma PlaysAreTracks(rows: seq<Row>, query: string, exact: bool, artist: string)
    ensures var plays := Filter(ArtistMatchRows(rows, query, exact), ArtistIs(artist));
      forall j :: 0 <= j < |plays| ==> TrackKey(plays[j]).Some? && EveryRow(plays[j])
  {
    var plays := Filter(ArtistMatchRows(rows, query, exact), ArtistIs(artist));
    forall j | 0 <= j < |plays|
      ensures TrackKey(plays[j]).Some?
    {
      assert plays[j] in plays;
    }
  }
}
