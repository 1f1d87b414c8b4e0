/**
 * The columns of the store the reports group and filter on, as grouping keys
 * (`None` where the column is null) and row masks (`notna()`, year equality).
 */
module Columns {
  import opened Wrappers
  import opened Timestamps
  import opened Ingestion
  import opened Grouping

  /** `master_metadata_album_artist_name` */
  function ArtistKey(r: Row): Option<string> { r.artistName }

  /** `master_metadata_track_name` */
  function TrackKey(r: Row): Option<string> { r.trackName }

  /** `episode_show_name` */
  function ShowKey(r: Row): Option<string> { r.showName }

  /**
   * The pair (track name, artist name); a row with either one null has no key,
   * as a two-column `groupby` drops it.
   */
  function SongKey(r: Row): Option<(string, string)> {
    if r.trackName.Some? && r.artistName.Some? then Some((r.trackName.value, r.artistName.value)) else None
  }

  /** The calendar month of the row's timestamp (`ts.dt.to_period('M')`). */
  function MonthKey(r: Row): Option<YearMonth> { Some(MonthOf(r.ts)) }

  predicate HasTrackName(r: Row) { r.trackName.Some? }
  predicate HasArtistName(r: Row) { r.artistName.Some? }
  predicate HasShowName(r: Row) { r.showName.Some? }
  predicate HasEpisodeName(r: Row) { r.episodeName.Some? }

  /** A row counted by `count` on a column that is never null (`ts`, `ms_played`). */
  predicate EveryRow(r: Row) { true }

  /** `df['ts'].dt.year == year` */
  function YearIs(year: int): Row -> bool {
    (r: Row) => r.ts.year == year
  }

  /** The ranking columns of a group. */
  function Plays<K>(g: Group<K>): int { g.count }
  function ListeningMs<K>(g: Group<K>): int { g.totalMs }
}
