/**
 * The batch pipeline of scripts/parse_spotify_data.py: parse every item of every
 * export file, concatenate in file order, deduplicate, build the table,
 * normalise its seven free-text columns in place and sort it by timestamp.
 */
module Ingestion {
  import opened Wrappers
  import opened Json
  import opened Timestamps
  import opened Records
  import opened TextNormalizer
  import opened Deduplication
  import opened Seqs

  /** A row of the tabular store: a record whose timestamp has been parsed. */
  type Row = StreamRecord<Instant>

  // ---------------------------------------------------------------------------
  // parse_records
  // ---------------------------------------------------------------------------

  /** The records `from_dict` accepts, in input order; rejected items are skipped. */
  function Parsed(items: seq<Value>): seq<RawRecord>
    decreases |items|
  {
    if items == [] then []
    else
      var last := FromDict(items[|items| - 1]);
      Parsed(items[..|items| - 1]) + (if last.Ok? then [last.value] else [])
  }

  lemma {:induction false} ParsedAppend(a: seq<Value>, b: seq<Value>)
    ensures Parsed(a + b) == Parsed(a) + Parsed(b)
    decreases |b|
  {
    if b == [] {
      assert a + b == a;
    } else {
      var b' := b[..|b| - 1];
      AppendDropLast(a, b);
      ParsedAppend(a, b');
    }
  }

  /** One item that fails to parse is dropped without affecting any other item. */
  lemma ParsedSkipsFailure(a: seq<Value>, x: Value, b: seq<Value>)
    requires FromDict(x).Err?
    ensures Parsed(a + [x] + b) == Parsed(a) + Parsed(b)
  {
    assert Parsed([x]) == [] by {
      assert [x][..0] == [] && [x][0] == x;
    }
    ParsedAppend(a, [x]);
    ParsedAppend(a + [x], b);
  }

  /** When every item parses, the result is the items' records, one for one, in order. */
  lemma {:induction false} ParsedAllAccepted(items: seq<Value>)
    requires forall i :: 0 <= i < |items| ==> FromDict(items[i]).Ok?
    ensures |Parsed(items)| == |items|
    ensures forall i :: 0 <= i < |items| ==> Parsed(items)[i] == FromDict(items[i]).value
    decreases |items|
  {
    if items != [] {
      var init := items[..|items| - 1];
      ParsedAllAccepted(init);
      assert Parsed(items) == Parsed(init) + [FromDict(items[|items| - 1]).value];
      assert forall i :: 0 <= i < |init| ==> init[i] == items[i];
    }
  }

  /** `parse_records`: the loop that appends each parsed item and skips failures. */
  method ParseRecords(items: seq<Value>) returns (records: seq<RawRecord>)
    ensures records == Parsed(items)
  {
    records := [];
    for i := 0 to |items|
      invariant records == Parsed(items[..i])
    {
      assert items[..i + 1][..i] == items[..i];
      var parsed := FromDict(items[i]);
      if parsed.Ok? {
        records := records + [parsed.value];
      }
    }
    assert items[..|items|] == items;
  }

  // ---------------------------------------------------------------------------
  // deduplicate_records
  // ---------------------------------------------------------------------------

  /**
   * `deduplicate_records`: one pass with a set of seen keys; returns the kept
   * records and the number of duplicates removed (the count the source reports).
   */
  method DeduplicateRecords(records: seq<RawRecord>) returns (unique: seq<RawRecord>, duplicates: nat)
    ensures unique == Dedup(records)
    ensures |unique| + duplicates == |records|
  {
    var seen: set<Key> := {};
    unique, duplicates := [], 0;
    for i := 0 to |records|
      invariant unique == Dedup(records[..i])
      invariant seen == KeysOf(records[..i])
      invariant |unique| + duplicates == i
    {
      assert records[..i + 1][..i] == records[..i];
      var key := UniqueKey(records[i]);
      if key !in seen {
        seen := seen + {key};
        unique := unique + [records[i]];
      } else {
        duplicates := duplicates + 1;
      }
    }
    assert records[..|records|] == records;
  }

  // ---------------------------------------------------------------------------
  // create_dataframe: normalise the free-text columns, sort by timestamp
  // ---------------------------------------------------------------------------

  /** The seven columns `create_dataframe` normalises. */
  datatype TextColumn = TrackName | ArtistName | AlbumName | EpisodeName | ShowName | AudiobookTitle | ChapterTitle

  const TextColumns: seq<TextColumn> := [TrackName, ArtistName, AlbumName, EpisodeName, ShowName, AudiobookTitle, ChapterTitle]

  function Cell(r: Row, c: TextColumn): Option<string> {
    match c
    case TrackName => r.trackName
    case ArtistName => r.artistName
    case AlbumName => r.albumName
    case EpisodeName => r.episodeName
    case ShowName => r.showName
    case AudiobookTitle => r.audiobookTitle
    case ChapterTitle => r.chapterTitle
  }

  function WithCell(r: Row, c: TextColumn, v: Option<string>): Row {
    match c
    case TrackName => r.(trackName := v)
    case ArtistName => r.(artistName := v)
    case AlbumName => r.(albumName := v)
    case EpisodeName => r.(episodeName := v)
    case ShowName => r.(showName := v)
    case AudiobookTitle => r.(audiobookTitle := v)
    case ChapterTitle => r.(chapterTitle := v)
  }

  /**
   * A row after normalisation: the seven free-text fields are in normal form
   * and every other field, timestamp, URIs and duration included, is unchanged.
   */
  function NormalizeRow(r: Row): (r': Row)
    ensures forall c :: Cell(r', c) == NormalizedOpt(Cell(r, c))
    ensures r'.ts == r.ts && r'.msPlayed == r.msPlayed
    ensures r'.trackUri == r.trackUri && r'.episodeUri == r.episodeUri && r'.audiobookUri == r.audiobookUri
    ensures r'.chapterUri == r.chapterUri && r'.platform == r.platform
    ensures r'.connCountry == r.connCountry && r'.ipAddr == r.ipAddr
    ensures r'.reasonStart == r.reasonStart && r'.reasonEnd == r.reasonEnd
    ensures r'.shuffle == r.shuffle && r'.skipped == r.skipped && r'.offline == r.offline
    ensures r'.offlineTimestamp == r.offlineTimestamp && r'.incognitoMode == r.incognitoMode
  {
    r.(trackName := NormalizedOpt(r.trackName),
       artistName := NormalizedOpt(r.artistName),
       albumName := NormalizedOpt(r.albumName),
       episodeName := NormalizedOpt(r.episodeName),
       showName := NormalizedOpt(r.showName),
       audiobookTitle := NormalizedOpt(r.audiobookTitle),
       chapterTitle := NormalizedOpt(r.chapterTitle))
  }

  /** A row after the first `n` text columns have been normalised. */
  function NormalizedUpTo(r: Row, n: nat): Row
    requires n <= |TextColumns|
  {
    if n == 0 then r
    else
      var p := NormalizedUpTo(r, n - 1);
      var c := TextColumns[n - 1];
      WithCell(p, c, NormalizedOpt(Cell(p, c)))
  }

  lemma NormalizedAllColumns(r: Row)
    ensures NormalizedUpTo(r, |TextColumns|) == NormalizeRow(r)
  {
    assert NormalizedUpTo(r, 0) == r;
    assert TextColumns[0] == TrackName && TextColumns[1] == ArtistName && TextColumns[2] == AlbumName;
    assert TextColumns[3] == EpisodeName && TextColumns[4] == ShowName;
    assert TextColumns[5] == AudiobookTitle && TextColumns[6] == ChapterTitle;
    var r1 := NormalizedUpTo(r, 1);
    var r2 := NormalizedUpTo(r, 2);
    var r3 := NormalizedUpTo(r, 3);
    var r4 := NormalizedUpTo(r, 4);
    var r5 := NormalizedUpTo(r, 5);
    var r6 := NormalizedUpTo(r, 6);
    assert r1 == r.(trackName := NormalizedOpt(r.trackName));
    assert r2 == r1.(artistName := NormalizedOpt(r.artistName));
    assert r3 == r2.(albumName := NormalizedOpt(r.albumName));
    assert r4 == r3.(episodeName := NormalizedOpt(r.episodeName));
    assert r5 == r4.(showName := NormalizedOpt(r.showName));
    assert r6 == r5.(audiobookTitle := NormalizedOpt(r.audiobookTitle));
  }

  /** `df[col] = df[col].apply(normalize_text)`: one column, rewritten in place. */
  method NormalizeColumn(frame: array<Row>, c: TextColumn)
    modifies frame
    ensures forall i :: 0 <= i < frame.Length ==>
      frame[i] == WithCell(old(frame[i]), c, NormalizedOpt(Cell(old(frame[i]), c)))
  {
    for i := 0 to frame.Length
      invariant forall k :: 0 <= k < i ==>
        frame[k] == WithCell(old(frame[k]), c, NormalizedOpt(Cell(old(frame[k]), c)))
      invariant forall k :: i <= k < frame.Length ==> frame[k] == old(frame[k])
    {
      var v := NormalizeText(Cell(frame[i], c));
      frame[i] := WithCell(frame[i], c, v);
    }
  }

  /** The loop over `text_columns`: every row ends up normalised, in place. */
  method NormalizeTextColumns(frame: array<Row>)
    modifies frame
    ensures forall i :: 0 <= i < frame.Length ==> frame[i] == NormalizeRow(old(frame[i]))
  {
    for n := 0 to |TextColumns|
      invariant forall i :: 0 <= i < frame.Length ==> frame[i] == NormalizedUpTo(old(frame[i]), n)
    {
      NormalizeColumn(frame, TextColumns[n]);
    }
    forall i | 0 <= i < frame.Length
      ensures frame[i] == NormalizeRow(old(frame[i]))
    {
      NormalizedAllColumns(old(frame[i]));
    }
  }

  /** Rows in chronological order. */
  predicate SortedByTs(rows: seq<Row>) {
    forall i, j :: 0 <= i < j < |rows| ==> NotAfter(rows[i].ts, rows[j].ts)
  }

  /**
   * `sort_values('ts')`: a chronologically sorted permutation. The source's
   * sort is not stable; the model inserts each row after the rows not later
   * than it, and its contract promises nothing about rows with equal instants.
   */
  method SortByTs(rows: seq<Row>) returns (sorted: seq<Row>)
    ensures SortedByTs(sorted)
    ensures multiset(sorted) == multiset(rows)
  {
    sorted := [];
    for i := 0 to |rows|
      invariant SortedByTs(sorted)
      invariant multiset(sorted) == multiset(rows[..i])
    {
      var x := rows[i];
      var j := FindSlot(sorted, x);
      InsertKeepsSorted(sorted, j, x);
      InsertKeepsElements(sorted, j, x, rows[..i], rows[..i + 1]);
      sorted := sorted[..j] + [x] + sorted[j..];
    }
    assert rows[..|rows|] == rows;
  }

  /** Scans back from the end past the rows later than `x`: the slot where `x` keeps the order. */
  method FindSlot(sorted: seq<Row>, x: Row) returns (j: nat)
    ensures j <= |sorted|
    ensures j > 0 ==> NotAfter(sorted[j - 1].ts, x.ts)
    ensures forall k :: j <= k < |sorted| ==> !NotAfter(sorted[k].ts, x.ts)
  {
    j := |sorted|;
    while j > 0 && !NotAfter(sorted[j - 1].ts, x.ts)
      invariant 0 <= j <= |sorted|
      invariant forall k :: j <= k < |sorted| ==> !NotAfter(sorted[k].ts, x.ts)
    {
      j := j - 1;
    }
  }

  /** Inserting the next input row keeps the sorted rows a permutation of the rows seen. */
  lemma InsertKeepsElements(s: seq<Row>, j: nat, x: Row, done: seq<Row>, next: seq<Row>)
    requires j <= |s| && multiset(s) == multiset(done) && next == done + [x]
    ensures multiset(s[..j] + [x] + s[j..]) == multiset(next)
  {
    assert s == s[..j] + s[j..];
  }

  lemma InsertKeepsSorted(s: seq<Row>, j: nat, x: Row)
    requires SortedByTs(s) && j <= |s|
    requires j > 0 ==> NotAfter(s[j - 1].ts, x.ts)
    requires forall k :: j <= k < |s| ==> !NotAfter(s[k].ts, x.ts)
    ensures SortedByTs(s[..j] + [x] + s[j..])
  {
    var t := s[..j] + [x] + s[j..];
    forall a, b | 0 <= a < b < |t|
      ensures NotAfter(t[a].ts, t[b].ts)
    {
      if b < j {
      } else if a < j && b == j {
        if a < j - 1 {
          NotAfterTransitive(s[a].ts, s[j - 1].ts, x.ts);
        }
      } else if a < j {
        NotAfterTotal(s[b - 1].ts, x.ts);
        NotAfterTransitive(s[a].ts, x.ts, s[b - 1].ts);
      } else if a == j {
        NotAfterTotal(s[b - 1].ts, x.ts);
      }
    }
  }

  /** The store's rows before sorting: each kept record, timestamp parsed, text normalised. */
  function StoreRows(records: seq<RawRecord>, toInstant: string -> Instant): (rows: seq<Row>)
    ensures |rows| == |records|
  {
    seq(|records|, i requires 0 <= i < |records| => NormalizeRow(WithTs(records[i], toInstant)))
  }

  /**
   * `create_dataframe`: builds the table (parsing timestamps with `toInstant`,
   * the model of `pd.to_datetime`), normalises its text columns in place and
   * sorts it by timestamp. With no records, `pd.DataFrame([])` has no `ts`
   * column and the timestamp conversion fails: `NoParsedRecords`.
   */
  method CreateDataFrame(records: seq<RawRecord>, toInstant: string -> Instant)
    returns (frame: Result<seq<Row>, IngestError>)
    ensures frame.Err? <==> records == []
    ensures frame.Err? ==> frame.error == NoParsedRecords
    ensures frame.Ok? ==> SortedByTs(frame.value)
    ensures frame.Ok? ==> multiset(frame.value) == multiset(StoreRows(records, toInstant))
  {
    if records == [] {
      return Err(NoParsedRecords);
    }
    var table := new Row[|records|](i requires 0 <= i < |records| => WithTs(records[i], toInstant));
    NormalizeTextColumns(table);
    assert table[..] == StoreRows(records, toInstant);
    var rows := SortByTs(table[..]);
    return Ok(rows);
  }

  // ---------------------------------------------------------------------------
  // main: missing files, file order, the whole batch
  // ---------------------------------------------------------------------------

  /** `[f for f in json_files if f.exists()]`: the contents of the files that exist. */
  function PresentFiles(files: seq<Option<seq<Value>>>): (present: seq<seq<Value>>)
    ensures |present| <= |files|
    ensures present == [] <==> forall i :: 0 <= i < |files| ==> files[i].None?
    decreases |files|
  {
    if files == [] then []
    else
      var last := files[|files| - 1];
      PresentFiles(files[..|files| - 1]) + (if last.Some? then [last.value] else [])
  }

  /** All records of all files, file after file, each file in its own order. */
  function ParsedFiles(contents: seq<seq<Value>>): seq<RawRecord>
    decreases |contents|
  {
    if contents == [] then []
    else ParsedFiles(contents[..|contents| - 1]) + Parsed(contents[|contents| - 1])
  }

  lemma {:induction false} ParsedFilesAppend(a: seq<seq<Value>>, b: seq<seq<Value>>)
    ensures ParsedFiles(a + b) == ParsedFiles(a) + ParsedFiles(b)
    decreases |b|
  {
    if b == [] {
      assert a + b == a;
    } else {
      var b' := b[..|b| - 1];
      AppendDropLast(a, b);
      ParsedFilesAppend(a, b');
    }
  }

  /** A record of a prefix is represented in the deduplicated whole by a record of that prefix. */
  lemma PrefixKeyKept(early: seq<RawRecord>, rest: seq<RawRecord>, r: RawRecord)
    requires r in early
    ensures exists d :: d in Dedup(early + rest) && UniqueKey(d) == UniqueKey(r) && d in early
  {
    var k := KeyRepresented(early, r);
    DedupPrefix(early, rest);
    assert Dedup(early)[k] == Dedup(early + rest)[k];
    assert Dedup(early + rest)[k] in Dedup(early + rest);
  }

  /**
   * A record parsed from file `i` is represented in the output by the record
   * with its key that comes from file `i` or an earlier file.
   */
  lemma EarlierFileWins(contents: seq<seq<Value>>, i: nat, r: RawRecord)
    requires i < |contents| && r in Parsed(contents[i])
    ensures exists d :: d in Dedup(ParsedFiles(contents)) && UniqueKey(d) == UniqueKey(r)
                        && d in ParsedFiles(contents[..i + 1])
  {
    var early, rest := ParsedFiles(contents[..i + 1]), ParsedFiles(contents[i + 1..]);
    SplitAtFile(contents, i);
    PrefixKeyKept(early, rest, r);
    var d :| d in Dedup(early + rest) && UniqueKey(d) == UniqueKey(r) && d in early;
    assert d in Dedup(ParsedFiles(contents));
  }

  lemma SplitFiles(contents: seq<seq<Value>>, n: nat)
    requires n <= |contents|
    ensures contents == contents[..n] + contents[n..]
  {
  }

  /** The records of files `0..i` followed by those of the later files; file `i`'s are among the first. */
  lemma SplitAtFile(contents: seq<seq<Value>>, i: nat)
    requires i < |contents|
    ensures ParsedFiles(contents) == ParsedFiles(contents[..i + 1]) + ParsedFiles(contents[i + 1..])
    ensures forall r :: r in Parsed(contents[i]) ==> r in ParsedFiles(contents[..i + 1])
  {
    var upTo, after := contents[..i + 1], contents[i + 1..];
    SplitFiles(contents, i + 1);
    ParsedFilesAppend(upTo, after);
    assert upTo[..i] == contents[..i];
    assert ParsedFiles(upTo) == ParsedFiles(contents[..i]) + Parsed(contents[i]);
  }

  /** Why `main` stops before writing the store. */
  datatype IngestError =
    | NoInputFiles     // none of the input files exists
    | NoParsedRecords  // the files exist but yield no record, so `create_dataframe` fails

  /**
   * `main` without its I/O: `files[i]` is `None` for a missing file and the
   * decoded JSON array otherwise. With no file present nothing is built, and
   * neither is anything when the present files yield no record; otherwise the
   * store is the parsed records of the present files, in file order,
   * deduplicated, normalised and sorted.
   */
  method BuildStore(files: seq<Option<seq<Value>>>, toInstant: string -> Instant)
    returns (store: Result<seq<Row>, IngestError>)
    ensures store == Err(NoInputFiles) <==> forall i :: 0 <= i < |files| ==> files[i].None?
    ensures store == Err(NoParsedRecords) <==>
      (exists i :: 0 <= i < |files| && files[i].Some?) && ParsedFiles(PresentFiles(files)) == []
    ensures store.Ok? ==> SortedByTs(store.value)
    ensures store.Ok? ==>
      multiset(store.value) == multiset(StoreRows(Dedup(ParsedFiles(PresentFiles(files))), toInstant))
  {
    var present := PresentFiles(files);
    if present == [] {
      return Err(NoInputFiles);
    }
    var all: seq<RawRecord> := [];
    for i := 0 to |present|
      invariant all == ParsedFiles(present[..i])
    {
      assert present[..i + 1][..i] == present[..i];
      var records := ParseRecords(present[i]);
      all := all + records;
    }
    assert present[..|present|] == present;
    var unique, _ := DeduplicateRecords(all);
    DedupEmptyIff(all);
    store := CreateDataFrame(unique, toInstant);
  }
}
