# Spotify streaming history: ingestion pipeline and aggregation rules in Dafny

This project models the core of a personal "Spotify Wrapped" tool.

**Ingestion.** A batch pipeline turns the streaming-history export into one deduplicated, normalised table, sorted by time:
- JSON files of playback events, each a song, a podcast episode or an audiobook chapter;
- parse every item and skip the ones that fail;
- concatenate in file order;
- keep the first record of every `(ts, content URI, ms_played)` key;
- replace typographic quotation marks in seven text columns;
- sort by timestamp.

**Queries.** Every report and dashboard chart applies the same aggregation rules to that table:
- year filter;
- top-N clamping;
- group-by with summed `ms_played` and a row count;
- descending ranking;
- case-insensitive exact or substring search;
- per-month buckets;
- "songs only" distinct counts.

Modules, one file each:

| file | module | models |
|---|---|---|
| `wrappers.dfy` | `Wrappers` | `Option` / `Result` |
| `json.dfy` | `Json` | a decoded JSON value |
| `timestamps.dfy` | `Timestamps` | a parsed instant, reduced to year, month and order; calendar months |
| `records.dfy` | `Records` | `SpotifyStreamingRecord`: `from_dict`, `to_dict`, `get_unique_key` |
| `normalizer.dfy` | `TextNormalizer` | `normalize_text` |
| `text.dfy` | `Text` | `lower()`, equality and literal substring search ignoring case |
| `seqs.dfy` | `Seqs` | boolean-mask filtering, `head(n)`, `unique()` |
| `dedup.dfy` | `Deduplication` | the specification of `deduplicate_records` |
| `ingestion.dfy` | `Ingestion` | `parse_records`, `deduplicate_records`, `create_dataframe` and the file handling of `main`, as imperative methods |
| `grouping.dfy` | `Grouping` | `groupby(...).agg(sum, count)`, `sort_values(ascending=False)`, `nlargest` / `head` |
| `columns.dfy` | `Columns` | the grouping keys and row masks used by the queries |
| `dashboard.dfy` | `Dashboard` | the data logic of the callbacks in `dashboard/app.py` |
| `reports.dfy` | `Reports` | the five command-line reports |

How the source's behaviour is represented:
- **Timestamps.** A record keeps its raw `ts` string while it is ingested. The deduplication key compares that raw string. `pd.to_datetime` is a function parameter `toInstant`. In the store, a row's timestamp is an `Instant`: year, month and offset within the month.
- **Missing values.** A pandas `NaN` is `None`. `groupby` drops rows whose key column is null, so a grouping key is a `Row -> Option<K>` and a `None` key drops the row. `count` counts the non-null cells of its column, so each group count has a row predicate `counted`.
- **Sorting.** The model sorts by inserting each element into a descending sequence. Contracts never state the order of ties, because the source's `sort_values` / `nlargest` do not fix it.
- **In-place code.** Code that changes state in place is written as methods:
  - the six successive `str.replace` calls;
  - the seen-set loop;
  - the column-by-column rewrite of an `array` of rows;
  - the insertion sort;
  - the per-artist loop of `artist_stats.py`.

  Each method's `ensures` ties its result to a specification function. The lemmas beside each function prove what the source promises about it.
- **song_stats.py.** Consider a matching track whose artist is null. The `(track, artist)` grouping drops it (`UnknownArtistDropped`). So the `or "Unknown"` fallback at `scripts/song_stats.py:78` fires only for an artist name that is the empty string, which the grouping keeps. That label is part of the printed output, which is not modelled.

Behaviours of the code that a reader might expect to be otherwise:
- **Timestamp sort.** `sort_values('ts')` uses the default quicksort, which is not stable. Rows with equal timestamps end up in no promised order.
- **Top-N ties.** Neither `nlargest` nor `sort_values` guarantees that groups with equal totals stay in first-encountered order. The model never states the order of ties.
- **Monthly trend plays.** `update_trends` counts the non-null track names of each month, not every record. Podcast and audiobook rows add to a month's duration but not to its plays.
- **Distinct counts.** `update_stats` counts distinct songs and artists among rows with a track name, not among rows with a track URI.
- **Empty search.** The dashboard blocks only an empty or absent query. A query of spaces is searched like any other.

## Model

| member | source | states |
|---|---|---|
| Records.FromDict | scripts/spotify_data_model.py:36-63 | An item gives a record exactly when it is a JSON object whose recognised keys hold well-typed values. A non-object fails with `NotAMapping`, the `.get` that `parse_records` catches. |
| Records.FromDictMissingKeys | scripts/spotify_data_model.py:39-63 | For every well-typed object, each of the 23 keys it lacks takes its own default, whatever the other keys hold: `ts = ''`, `ms_played = 0`, every other field `None`. |
| Records.FromDictOnlyReadsRecognised | scripts/spotify_data_model.py:39-63 | Two objects that agree on the 23 recognised keys give the same result. |
| Records.FromDictIgnoresOtherKeys | scripts/spotify_data_model.py:39-63 | Adding keys outside the 23 never changes the result. |
| Records.ToDict | scripts/spotify_data_model.py:65-91 | The map has exactly the 23 keys `from_dict` reads, each holding a value of its field's type. |
| Records.ToDictReadsIdentity | scripts/spotify_data_model.py:67-76 | Reading back the timestamp, platform, duration, country, address, track, artist, album and track URI that `to_dict` wrote gives the record's own values. |
| Records.ToDictReadsContent | scripts/spotify_data_model.py:77-83 | The same for the episode and audiobook fields. |
| Records.ToDictReadsPlayback | scripts/spotify_data_model.py:84-90 | The same for the start/end reasons, the shuffle/skipped/offline/incognito flags and the offline timestamp. |
| Records.FromDictToDict | scripts/spotify_data_model.py:36-91 | Round trip: `from_dict(r.to_dict()) == r` for every record. |
| Records.ContentUriFirstPresent | scripts/spotify_data_model.py:97 | The content URI is the track URI if non-empty, else the episode URI if non-empty, else the audiobook URI as it is. It is truthy iff one of the three is. |
| Records.SameKeyIff | scripts/spotify_data_model.py:93-98 | Two records share a key iff their raw `ts` strings, content URIs and `ms_played` agree. No other field matters. |
| TextNormalizer.NormalizeChar | scripts/parse_spotify_data.py:28-35 | U+2018/U+2019 become `'`, U+201C/D/E/F become `"`, every other character is kept, and the result is never one of the six marks. |
| TextNormalizer.ReplacedAll | scripts/parse_spotify_data.py:28-37 | Applying the six single-character replacements in table order equals normalising each character once. |
| TextNormalizer.NormalizeText | scripts/parse_spotify_data.py:14-38 | `None` is returned as `None`. Otherwise the loop of six whole-string replacements yields the character-wise normal form. |
| TextNormalizer.NormalizedHasNoCurlyQuotes | scripts/parse_spotify_data.py:28-37 | Normalising keeps the length and leaves none of the six marks. |
| TextNormalizer.NormalizeIdempotent | scripts/parse_spotify_data.py:14-38 | Normalising twice equals normalising once. |
| TextNormalizer.NormalizedFixesPlainText | scripts/parse_spotify_data.py:36-38 | Text without any of the six marks is unchanged. |
| TextNormalizer.NormalizeExample | scripts/parse_spotify_data.py:29 | `"caf’e"` normalises to `"caf'e"`. |
| Text.LowerChar | scripts/song_stats.py:36 | The result is never an upper-case ASCII letter. It is the character itself, or the letter shifted down to lower case. |
| Text.LowerIdempotent | scripts/song_stats.py:36 | Lower-casing twice equals lower-casing once. |
| Text.ExactMatchIsSubstringMatch | scripts/song_stats.py:34-43 | A name equal to the query ignoring case also contains it ignoring case. |
| Text.ContainsIgnoresCase | scripts/song_stats.py:40-42 | Lower-casing either side beforehand does not change a case-insensitive substring match. |
| Text.MatchNoShorterThanQuery | scripts/song_stats.py:40-42 | A name that contains the query is at least as long as the query. |
| Text.CaseExample | scripts/song_stats.py:34-43 | "Bohemian Rhapsody" contains "RHAPS" ignoring case, but does not equal "rhapsody" ignoring case. |
| Seqs.Filter | dashboard/app.py:68 | A boolean mask keeps exactly the elements that satisfy it and is no longer than its input. |
| Seqs.FilterAppend | dashboard/app.py:444 | Masking a concatenation masks each part. |
| Seqs.FilterEmpty | scripts/song_stats.py:45-47 | The masked frame is empty iff no element satisfies the mask. |
| Seqs.Head | scripts/top_songs.py:58 | `head(n)` is a prefix of length `min(n, len)` for `n >= 0`, and drops the last `-n` elements for `n < 0`. |
| Seqs.Distinct | scripts/artist_stats.py:52 | `unique()` keeps exactly the values present, each once. |
| Seqs.DistinctPrefix | scripts/artist_stats.py:52 | `unique()` lists values in order of first appearance: later elements only append. |
| Deduplication.DedupMembers | scripts/parse_spotify_data.py:63-79 | Every kept record is an input record. |
| Deduplication.DedupKeepsEveryKey | scripts/parse_spotify_data.py:69-73 | The output's keys are exactly the input's keys. |
| Deduplication.DedupEmptyIff | scripts/parse_spotify_data.py:62-78 | Deduplication gives an empty result only for an empty input. |
| Deduplication.DedupDistinct | scripts/parse_spotify_data.py:69-73 | No two output records share a key. |
| Deduplication.DedupIsFirstOccurrences | scripts/parse_spotify_data.py:63-79 | The output is the subsequence, at increasing positions, of the first occurrence of every key. |
| Deduplication.EarlierDuplicateWins | scripts/parse_spotify_data.py:69-75 | Of two records with one key, exactly one record with that key survives, from a position no later than the first. |
| Deduplication.DuplicatePairKeepsFirst | scripts/parse_spotify_data.py:69-75 | Two records with the same key deduplicate to the first alone. |
| Deduplication.DedupOfDistinct | scripts/parse_spotify_data.py:69-73 | Input with distinct keys is returned unchanged. |
| Deduplication.DedupIdempotent | scripts/parse_spotify_data.py:63-79 | Deduplicating twice equals deduplicating once. |
| Deduplication.DedupPrefix | scripts/parse_spotify_data.py:69-73 | Appending records never changes what was kept from the earlier ones. |
| Deduplication.KeyRepresented | scripts/parse_spotify_data.py:69-73 | Every input record's key is carried by some kept input record. |
| Ingestion.ParseRecords | scripts/parse_spotify_data.py:50-60 | The loop returns the records `from_dict` accepts, in input order. |
| Ingestion.ParsedAppend | scripts/parse_spotify_data.py:50-60 | Parsing a concatenation concatenates the parses. |
| Ingestion.ParsedSkipsFailure | scripts/parse_spotify_data.py:54-59 | An item that fails to parse is dropped and affects no other item. |
| Ingestion.ParsedAllAccepted | scripts/parse_spotify_data.py:50-60 | When every item parses, the output is their records one for one, in order. |
| Ingestion.DeduplicateRecords | scripts/parse_spotify_data.py:63-79 | The seen-set loop returns the first-occurrence subsequence. Kept records plus the duplicate count equal the input length. |
| Ingestion.NormalizeRow | scripts/parse_spotify_data.py:91-104 | The seven text fields are normalised. The timestamp, duration, URIs and every other field are unchanged. |
| Ingestion.NormalizedAllColumns | scripts/parse_spotify_data.py:91-104 | Normalising the seven columns one after another equals normalising the row. |
| Ingestion.NormalizeColumn | scripts/parse_spotify_data.py:104 | `df[col].apply(normalize_text)`: one column of every row is rewritten in place and nothing else. |
| Ingestion.NormalizeTextColumns | scripts/parse_spotify_data.py:102-104 | After the loop over the column list, every row of the array is its old row normalised. |
| Ingestion.SortByTs | scripts/parse_spotify_data.py:107 | The result is sorted by timestamp and is a permutation of the input. |
| Ingestion.InsertKeepsSorted | scripts/parse_spotify_data.py:107 | Inserting a row at the slot found by the scan keeps the rows sorted. |
| Ingestion.CreateDataFrame | scripts/parse_spotify_data.py:82-109 | With no record it fails (`NoParsedRecords`): the empty frame has no `ts` column to convert. Otherwise the table is a timestamp-sorted permutation of the records, each with its timestamp parsed and its text normalised. |
| Ingestion.PresentFiles | scripts/parse_spotify_data.py:124-129 | The present files are never more than the configured ones, and none remain iff every file is missing. |
| Ingestion.ParsedFilesAppend | scripts/parse_spotify_data.py:134-138 | The records of a concatenation of file lists are the records of each list, in order. |
| Ingestion.PrefixKeyKept | scripts/parse_spotify_data.py:134-144 | A key first seen among earlier records is represented in the deduplicated whole by one of those records. |
| Ingestion.EarlierFileWins | scripts/parse_spotify_data.py:117-144 | A record from file `i` is represented in the store by a record with its key from file `i` or an earlier file. |
| Ingestion.BuildStore | scripts/parse_spotify_data.py:112-148 | It stops with `NoInputFiles` iff no file is present, and with `NoParsedRecords` iff files are present but yield no record. Otherwise the store is the timestamp-sorted, normalised, deduplicated records of the present files, in file order. |
| Timestamps.MonthIndexOrder | dashboard/app.py:723-725 | Month indices order months chronologically, as four-digit `YYYY-MM` strings do, and two months share an index only if equal. |
| Grouping.HasKeyIff | scripts/top_songs.py:45-51 | A key is present iff some row has it. |
| Grouping.KeySetIsHasKey | dashboard/app.py:445-446 | The distinct keys are exactly the keys some row has. |
| Grouping.KeySetBound | dashboard/app.py:445-446 | There are never more distinct keys than rows. |
| Grouping.GroupBy | scripts/top_songs.py:45-51 | One group per key. The group totals add up to the total `ms_played` of the keyed rows, and the counts add up to their counted rows. |
| Grouping.GroupByFind | scripts/top_songs.py:45-51 | The group of any key holds exactly that key's summed `ms_played` and count. A key has no group iff no row has it. |
| Grouping.GroupsAreExact | scripts/top_songs.py:45-51 | Every group is exactly its key's totals, and every present key has a group. |
| Grouping.CountAtLeastOne | scripts/top_songs.py:50 | When every row is counted, each present key's count is at least one. |
| Grouping.GroupCount | dashboard/app.py:445-446 | The number of groups equals the number of distinct keys. |
| Grouping.GroupByIgnoresUnkeyed | dashboard/app.py:460-462 | A `notna()` mask on the key column in front of `groupby` changes no group. |
| Grouping.KeySetIgnoresUnkeyed | dashboard/app.py:444-446 | The same mask in front of `nunique` changes no distinct count. |
| Grouping.SortDesc | scripts/top_songs.py:58 | `sort_values(ascending=False)` returns a descending permutation. |
| Grouping.TopN | scripts/top_songs.py:58 | The top `n` are descending, drawn from the input (as a multiset), and number `min(n, len)`. |
| Grouping.TopNKeepsLargest | dashboard/app.py:468 | Nothing left out of the top `n` ranks above anything kept. |
| Grouping.SortKeepsDistinctKeys | scripts/top_songs.py:58 | Sorting groups keeps their keys distinct. |
| Grouping.SortKeepsSums | scripts/top_songs.py:58 | Sorting groups keeps their grand totals. |
| Grouping.SortedGroups | scripts/song_stats.py:50-66 | Sorted groups: keys distinct; one group per present key; exact per-key totals; grand totals equal to the keyed rows'. |
| Grouping.RankedGroups | scripts/top_songs.py:45-58 | The top `n` groups are descending with distinct keys, number `min(n, keys)`, and each is exact. No group left out ranks above a group kept. If fewer than `n`, every key is present. |
| Dashboard.FilterByYear | dashboard/app.py:64-68 | `'all'` returns every row. A year returns exactly the rows of that year. |
| Dashboard.ValidateTopN | dashboard/app.py:70-74 | An absent, zero or negative request gives the default. Otherwise the result is `min(top_n, max_value)`. |
| Dashboard.ValidateTopNInRange | dashboard/app.py:70-74 | The result lies in `[1, max_value]` whenever the default does. |
| Dashboard.UpdateStats | dashboard/app.py:436-448 | Distinct songs and artists never exceed the total plays. |
| Dashboard.StatsIgnoreNonTracks | dashboard/app.py:440-446 | For any year choice, a row without a track name leaves both distinct counts unchanged. It adds one play and its duration when it falls in the chosen year, and nothing otherwise. |
| Dashboard.StatsWithoutTracks | dashboard/app.py:440-446 | A year with only podcasts or audiobooks has zero distinct songs and artists, and every row counts as a play. |
| Dashboard.StatsSongsAreTrackNames | dashboard/app.py:444-445 | Distinct songs are the distinct non-null track names of the year. |
| Dashboard.UpdateTopArtists | dashboard/app.py:456-468 | At most 100 artists. |
| Dashboard.TopArtistsSpec | dashboard/app.py:456-468 | `min(n, artists)` artists for the validated `n`, by listening time, one per artist of the year, each with its exact total and its count of track-name rows. No artist left out has more listening time than one shown. |
| Dashboard.UpdateTopSongs | dashboard/app.py:485-500 | At most 100 songs. |
| Dashboard.TopSongsSpec | dashboard/app.py:485-500 | `min(n, pairs)` (track, artist) pairs, by plays when `sort_by == "plays"` and by listening time otherwise, each once with its exact row count (at least one) and total. No pair left out ranks above one shown. |
| Dashboard.TopPodcastsSpec | dashboard/app.py:682-705 | The placeholder appears iff no row of the year has a show name. Otherwise there are `min(n, shows)` shows, at least one, for the validated `n` (at most 50), by listening time, each exact. No show left out has more listening time than one shown. |
| Dashboard.SearchSong | dashboard/app.py:517-520 | Nothing is shown iff there was no click or the query is empty. |
| Dashboard.SearchSongSpec | dashboard/app.py:517-537 | The message appears iff no track name contains the query. Otherwise the pairs are by plays, each once, each track name contains the query, each count and total is exact, and every (track, artist) pair of a matching row is listed. |
| Dashboard.SearchArtist | dashboard/app.py:574-577 | Nothing is shown iff there was no click or the query is empty. |
| Dashboard.SearchArtistSpec | dashboard/app.py:574-602 | The message appears iff no artist name contains the query. Otherwise: plays ≥ 1; the song count is the number of distinct track names among the matches; the breakdown has one row per such name, by plays, each with exact plays (≥ 1) and total; its plays sum to the matching rows with a track name. |
| Dashboard.TrendsSpec | dashboard/app.py:720-730 | Months are in strictly increasing order, one bucket iff some row is in that month, each with the month's total and its count of track-name rows. |
| Reports.YearRows | scripts/top_songs.py:24-31 | No year gives every row. A year gives exactly that year's rows. |
| Reports.YearRowsEmpty | scripts/top_songs.py:24-29 | The year selection is empty iff no row falls in the year. |
| Reports.TopSongsSpec | scripts/top_songs.py:24-58 | The year message appears iff the year has no row. The track message appears iff the selection holds no track. A table has `min(top_n, pairs)` pairs by plays, each once, count ≥ 1 and exact. No pair left out has more plays than one listed. |
| Reports.TopArtistsSpec | scripts/top_artists_script.py:24-52 | Messages appear iff the year, or its rows with an artist, are empty. A table has `min(top_n, artists)` artists of the year by listening time, at least one for positive `top_n`, each exact. No artist left out has more listening time than one listed. |
| Reports.TopPodcastsSpec | scripts/top_podcasts.py:23-54 | The database message appears iff no row is an episode. The year message appears iff episodes exist but none in the year. A table ranks shows by listening time, each once and exact. No show left out has more listening time than one listed. |
| Reports.SongStatsSpec | scripts/song_stats.py:24-66 | The messages appear iff there is no track or no match. A table is by plays, one row per (track, artist), each track name matching, each count ≥ 1 and exact. |
| Reports.UnknownArtistDropped | scripts/song_stats.py:49-55 | A matching track whose artist is null yields an empty table, not an "Unknown" row. |
| Reports.ExactNarrowerThanPartial | scripts/song_stats.py:34-47 | When a substring search finds nothing, an exact search finds nothing either. |
| Reports.ArtistColumn | scripts/artist_stats.py:52 | The non-null artist names are exactly the artists present in the rows. |
| Reports.ArtistStats | scripts/artist_stats.py:24-121 | The messages appear iff there is no artist track or no match. A table has one block per distinct matching artist, in first-appearance order. |
| Reports.Summaries | scripts/artist_stats.py:65-121 | The loop builds one block per artist, in the given order. |
| Reports.ArtistBlocksSpec | scripts/artist_stats.py:35-65 | The blocks' artists are distinct and each matches the query. Every matching row's artist has a block. |
| Reports.SummarySpec | scripts/artist_stats.py:65-82 | A block has ≥ 1 play, song count = breakdown length, breakdown by plays, each count ≥ 1 and exact. Breakdown plays sum to the artist's plays and durations to its total. |
| Reports.ArtistHasPlay | scripts/artist_stats.py:66-69 | A listed artist has at least one matching play. |

## Left out

- File and storage I/O: reading the JSON files, the parquet/CSV/SQLite writes and every `read_parquet`. `main` receives each file as absent or as its decoded JSON array.
- Printing: console output, warnings, and report tables with their name truncation.
- UI: the dashboard layout, the Plotly figures and HTML, and the argparse shells.
- Timestamp parsing: `pd.to_datetime` is an uninterpreted parameter `toInstant`. Unparseable timestamps (`NaT`) are not modelled.
- Float arithmetic: hours and minutes (`/ 3600000`, `/ 60000`, `.round(1)`) and averages per play are not modelled. Durations stay integer milliseconds.
- Unicode case mapping: `str.lower()` lower-cases ASCII letters only.
- The recommendation client and engine, and the query examples script: they call a remote API, use randomness or repeat the reports.
- Records.FromDict: a recognised key holding a value of the wrong JSON type is rejected as `WrongType`. Examples are a string `ms_played`, or `null` for `ts` or `ms_played`. Python stores such a value unchecked, but a typed record cannot hold it.
- Dashboard.TopArtistsSpec: ranks by exact total milliseconds. The source ranks by hours rounded to one decimal (`dashboard/app.py:467-468`), which can produce ties the milliseconds do not have.
- Dashboard.TopSongsSpec: ranks by exact total milliseconds when not ranking by plays. The source ranks by minutes rounded to one decimal.
- Dashboard.TopPodcastsSpec: ranks by exact total milliseconds. The source ranks by rounded hours.
- Dashboard.SearchSongSpec: the query is matched as a literal substring. The dashboard's `str.contains` treats the query as a regular expression by default.
- Dashboard.SearchArtistSpec: the query is likewise matched as a literal substring, not as a regular expression. The lower-casing of the breakdown's song names for display and the chart's first 15 rows are presentation and are not modelled.
- Timestamps.MonthIndexOrder: orders months by calendar. The chart orders the `YYYY-MM` strings, which agrees only for four-digit years.
- Ingestion.SortByTs: promises a sorted permutation, but nothing about the relative order of rows with equal timestamps. pandas' default sort is not stable.
- Grouping.TopN: likewise promises nothing about ties.
- Ingestion.CreateDataFrame: the store is stated as a permutation of the normalised rows. Column dtypes and the DataFrame index are not modelled.
