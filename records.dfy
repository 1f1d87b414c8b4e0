/**
 * One playback event of the streaming-history export (scripts/spotify_data_model.py):
 * the record shape, its construction from a JSON object, its conversion back to
 * a key-value map, and the deduplication identity.
 */
module Records {
  import opened Wrappers
  import opened Json

  /**
   * The 23 fields of a playback record. `Ts` is the type of the timestamp:
   * the raw ISO-8601 string while ingesting, the parsed instant in the store.
   */
  datatype StreamRecord<Ts> = StreamRecord(
    ts: Ts,
    platform: Option<string>,
    msPlayed: int,
    connCountry: Option<string>,
    ipAddr: Option<string>,
    trackName: Option<string>,
    artistName: Option<string>,
    albumName: Option<string>,
    trackUri: Option<string>,
    episodeName: Option<string>,
    showName: Option<string>,
    episodeUri: Option<string>,
    audiobookTitle: Option<string>,
    audiobookUri: Option<string>,
    chapterUri: Option<string>,
    chapterTitle: Option<string>,
    reasonStart: Option<string>,
    reasonEnd: Option<string>,
    shuffle: Option<bool>,
    skipped: Option<bool>,
    offline: Option<bool>,
    offlineTimestamp: Option<int>,
    incognitoMode: Option<bool>)

  /** A record as parsed from the export, before its timestamp is converted. */
  type RawRecord = StreamRecord<string>

  datatype ParseError =
    | NotAMapping            // the item is not a JSON object, so it has no `.get`
    | WrongType              // a recognised key holds a value not of its field's declared type

  // ---------------------------------------------------------------------------
  // Reading one field: `data.get(key)` / `data.get(key, default)`
  // ---------------------------------------------------------------------------

  predicate TextTyped(m: map<string, Value>, key: string) {
    key in m ==> m[key].Str?
  }

  predicate IntTyped(m: map<string, Value>, key: string) {
    key in m ==> m[key].Int?
  }

  predicate OptTextTyped(m: map<string, Value>, key: string) {
    key in m ==> m[key].Null? || m[key].Str?
  }

  predicate OptBoolTyped(m: map<string, Value>, key: string) {
    key in m ==> m[key].Null? || m[key].Bool?
  }

  predicate OptIntTyped(m: map<string, Value>, key: string) {
    key in m ==> m[key].Null? || m[key].Int?
  }

  /** Every recognised key that is present carries a value of its field's type. */
  predicate WellTyped(m: map<string, Value>) {
    && TextTyped(m, "ts")
    && OptTextTyped(m, "platform")
    && IntTyped(m, "ms_played")
    && OptTextTyped(m, "conn_country")
    && OptTextTyped(m, "ip_addr")
    && OptTextTyped(m, "master_metadata_track_name")
    && OptTextTyped(m, "master_metadata_album_artist_name")
    && OptTextTyped(m, "master_metadata_album_album_name")
    && OptTextTyped(m, "spotify_track_uri")
    && OptTextTyped(m, "episode_name")
    && OptTextTyped(m, "episode_show_name")
    && OptTextTyped(m, "spotify_episode_uri")
    && OptTextTyped(m, "audiobook_title")
    && OptTextTyped(m, "audiobook_uri")
    && OptTextTyped(m, "audiobook_chapter_uri")
    && OptTextTyped(m, "audiobook_chapter_title")
    && OptTextTyped(m, "reason_start")
    && OptTextTyped(m, "reason_end")
    && OptBoolTyped(m, "shuffle")
    && OptBoolTyped(m, "skipped")
    && OptBoolTyped(m, "offline")
    && OptIntTyped(m, "offline_timestamp")
    && OptBoolTyped(m, "incognito_mode")
  }

  /** `data.get(key, default)` on a `str` field. */
  function TextAt(m: map<string, Value>, key: string, default: string): string
    requires TextTyped(m, key)
  {
    if key in m then m[key].s else default
  }

  /** `data.get(key, default)` on an `int` field. */
  function IntAt(m: map<string, Value>, key: string, default: int): int
    requires IntTyped(m, key)
  {
    if key in m then m[key].i else default
  }

  /** `data.get(key)` on an `Optional[str]` field: absent or null give `None`. */
  function OptTextAt(m: map<string, Value>, key: string): Option<string>
    requires OptTextTyped(m, key)
  {
    if key in m && m[key].Str? then Some(m[key].s) else None
  }

  /** `data.get(key)` on an `Optional[bool]` field: absent or null give `None`. */
  function OptBoolAt(m: map<string, Value>, key: string): Option<bool>
    requires OptBoolTyped(m, key)
  {
    if key in m && m[key].Bool? then Some(m[key].b) else None
  }

  /** `data.get(key)` on an `Optional[int]` field: absent or null give `None`. */
  function OptIntAt(m: map<string, Value>, key: string): Option<int>
    requires OptIntTyped(m, key)
  {
    if key in m && m[key].Int? then Some(m[key].i) else None
  }

  /** The 23 keys `from_dict` reads and `to_dict` writes. */
  const RecognisedKeys: set<string> := {
    "ts", "platform", "ms_played", "conn_country", "ip_addr",
    "master_metadata_track_name", "master_metadata_album_artist_name",
    "master_metadata_album_album_name", "spotify_track_uri",
    "episode_name", "episode_show_name", "spotify_episode_uri",
    "audiobook_title", "audiobook_uri", "audiobook_chapter_uri", "audiobook_chapter_title",
    "reason_start", "reason_end", "shuffle", "skipped", "offline",
    "offline_timestamp", "incognito_mode"
  }

  /**
   * `SpotifyStreamingRecord.from_dict`: reads every field by name; a missing
   * key gives `''` for `ts`, `0` for `ms_played` and `None` for every other field.
   * An item that is not a mapping, or a value of the wrong type, is an error.
   */
  function FromDict(item: Value): (r: Result<RawRecord, ParseError>)
    ensures r.Ok? <==> item.Object? && WellTyped(item.fields)
    ensures !item.Object? ==> r == Err(NotAMapping)
  {
    if !item.Object? then Err(NotAMapping)
    else if !WellTyped(item.fields) then Err(WrongType)
    else
      var m := item.fields;
      Ok(StreamRecord(
        TextAt(m, "ts", ""),
        OptTextAt(m, "platform"),
        IntAt(m, "ms_played", 0),
        OptTextAt(m, "conn_country"),
        OptTextAt(m, "ip_addr"),
        OptTextAt(m, "master_metadata_track_name"),
        OptTextAt(m, "master_metadata_album_artist_name"),
        OptTextAt(m, "master_metadata_album_album_name"),
        OptTextAt(m, "spotify_track_uri"),
        OptTextAt(m, "episode_name"),
        OptTextAt(m, "episode_show_name"),
        OptTextAt(m, "spotify_episode_uri"),
        OptTextAt(m, "audiobook_title"),
        OptTextAt(m, "audiobook_uri"),
        OptTextAt(m, "audiobook_chapter_uri"),
        OptTextAt(m, "audiobook_chapter_title"),
        OptTextAt(m, "reason_start"),
        OptTextAt(m, "reason_end"),
        OptBoolAt(m, "shuffle"),
        OptBoolAt(m, "skipped"),
        OptBoolAt(m, "offline"),
        OptIntAt(m, "offline_timestamp"),
        OptBoolAt(m, "incognito_mode")))
  }

  function OptText(o: Option<string>): Value {
    match o
    case None => Null
    case Some(s) => Str(s)
  }

  function OptBool(o: Option<bool>): Value {
    match o
    case None => Null
    case Some(b) => Bool(b)
  }

  function OptInt(o: Option<int>): Value {
    match o
    case None => Null
    case Some(i) => Int(i)
  }

  /** The value `to_dict` writes under a recognised key: `None` becomes JSON null. */
  function FieldValue(r: RawRecord, key: string): Value {
    if key == "ts" then Str(r.ts)
    else if key == "platform" then OptText(r.platform)
    else if key == "ms_played" then Int(r.msPlayed)
    else if key == "conn_country" then OptText(r.connCountry)
    else if key == "ip_addr" then OptText(r.ipAddr)
    else if key == "master_metadata_track_name" then OptText(r.trackName)
    else if key == "master_metadata_album_artist_name" then OptText(r.artistName)
    else if key == "master_metadata_album_album_name" then OptText(r.albumName)
    else if key == "spotify_track_uri" then OptText(r.trackUri)
    else if key == "episode_name" then OptText(r.episodeName)
    else if key == "episode_show_name" then OptText(r.showName)
    else if key == "spotify_episode_uri" then OptText(r.episodeUri)
    else if key == "audiobook_title" then OptText(r.audiobookTitle)
    else if key == "audiobook_uri" then OptText(r.audiobookUri)
    else if key == "audiobook_chapter_uri" then OptText(r.chapterUri)
    else if key == "audiobook_chapter_title" then OptText(r.chapterTitle)
    else if key == "reason_start" then OptText(r.reasonStart)
    else if key == "reason_end" then OptText(r.reasonEnd)
    else if key == "shuffle" then OptBool(r.shuffle)
    else if key == "skipped" then OptBool(r.skipped)
    else if key == "offline" then OptBool(r.offline)
    else if key == "offline_timestamp" then OptInt(r.offlineTimestamp)
    else OptBool(r.incognitoMode)
  }

  /** `SpotifyStreamingRecord.to_dict`: exactly the 23 recognised keys, each well typed. */
  function ToDict(r: RawRecord): (m: map<string, Value>)
    ensures m.Keys == RecognisedKeys
    ensures WellTyped(m)
  {
    map key | key in RecognisedKeys :: FieldValue(r, key)
  }

  /** `from_dict` reads back the timestamp, duration, platform, location and track fields `to_dict` wrote. */
  lemma ToDictReadsIdentity(r: RawRecord)
    ensures TextAt(ToDict(r), "ts", "") == r.ts
    ensures OptTextAt(ToDict(r), "platform") == r.platform
    ensures IntAt(ToDict(r), "ms_played", 0) == r.msPlayed
    ensures OptTextAt(ToDict(r), "conn_country") == r.connCountry
    ensures OptTextAt(ToDict(r), "ip_addr") == r.ipAddr
    ensures OptTextAt(ToDict(r), "master_metadata_track_name") == r.trackName
    ensures OptTextAt(ToDict(r), "master_metadata_album_artist_name") == r.artistName
    ensures OptTextAt(ToDict(r), "master_metadata_album_album_name") == r.albumName
    ensures OptTextAt(ToDict(r), "spotify_track_uri") == r.trackUri
  {
    var m := ToDict(r);
    assert TextAt(m, "ts", "") == r.ts;
    assert OptTextAt(m, "platform") == r.platform;
    assert IntAt(m, "ms_played", 0) == r.msPlayed;
    assert OptTextAt(m, "conn_country") == r.connCountry;
    assert OptTextAt(m, "ip_addr") == r.ipAddr;
    assert OptTextAt(m, "master_metadata_track_name") == r.trackName;
    assert OptTextAt(m, "master_metadata_album_artist_name") == r.artistName;
    assert OptTextAt(m, "master_metadata_album_album_name") == r.albumName;
    assert OptTextAt(m, "spotify_track_uri") == r.trackUri;
  }

  /** `from_dict` reads back the episode and audiobook fields `to_dict` wrote. */
  lemma ToDictReadsContent(r: RawRecord)
    ensures OptTextAt(ToDict(r), "episode_name") == r.episodeName
    ensures OptTextAt(ToDict(r), "episode_show_name") == r.showName
    ensures OptTextAt(ToDict(r), "spotify_episode_uri") == r.episodeUri
    ensures OptTextAt(ToDict(r), "audiobook_title") == r.audiobookTitle
    ensures OptTextAt(ToDict(r), "audiobook_uri") == r.audiobookUri
    ensures OptTextAt(ToDict(r), "audiobook_chapter_uri") == r.chapterUri
    ensures OptTextAt(ToDict(r), "audiobook_chapter_title") == r.chapterTitle
  {
    var m := ToDict(r);
    assert OptTextAt(m, "episode_name") == r.episodeName;
    assert OptTextAt(m, "episode_show_name") == r.showName;
    assert OptTextAt(m, "spotify_episode_uri") == r.episodeUri;
    assert OptTextAt(m, "audiobook_title") == r.audiobookTitle;
    assert OptTextAt(m, "audiobook_uri") == r.audiobookUri;
    assert OptTextAt(m, "audiobook_chapter_uri") == r.chapterUri;
    assert OptTextAt(m, "audiobook_chapter_title") == r.chapterTitle;
  }

  /** `from_dict` reads back the playback reason and flag fields `to_dict` wrote. */
  lemma ToDictReadsPlayback(r: RawRecord)
    ensures OptTextAt(ToDict(r), "reason_start") == r.reasonStart
    ensures OptTextAt(ToDict(r), "reason_end") == r.reasonEnd
    ensures OptBoolAt(ToDict(r), "shuffle") == r.shuffle
    ensures OptBoolAt(ToDict(r), "skipped") == r.skipped
    ensures OptBoolAt(ToDict(r), "offline") == r.offline
    ensures OptIntAt(ToDict(r), "offline_timestamp") == r.offlineTimestamp
    ensures OptBoolAt(ToDict(r), "incognito_mode") == r.incognitoMode
  {
    var m := ToDict(r);
    assert OptTextAt(m, "reason_start") == r.reasonStart;
    assert OptTextAt(m, "reason_end") == r.reasonEnd;
    assert OptBoolAt(m, "shuffle") == r.shuffle;
    assert OptBoolAt(m, "skipped") == r.skipped;
    assert OptBoolAt(m, "offline") == r.offline;
    assert OptIntAt(m, "offline_timestamp") == r.offlineTimestamp;
    assert OptBoolAt(m, "incognito_mode") == r.incognitoMode;
  }

  /** `from_dict(r.to_dict())` gives back `r`: the two agree on all 23 keys. */
  lemma FromDictToDict(r: RawRecord)
    ensures FromDict(Object(ToDict(r))) == Ok(r)
  {
    ToDictReadsIdentity(r);
    ToDictReadsContent(r);
    ToDictReadsPlayback(r);
  }

  /** The record built from an empty JSON object: every field at its default. */
  function DefaultRecord(): RawRecord {
    StreamRecord("", None, 0, None, None, None, None, None, None, None, None, None,
                 None, None, None, None, None, None, None, None, None, None, None)
  }

  /**
   * Each recognised key missing from a well-typed mapping takes its default,
   * whatever the other keys hold: `''` for `ts`, `0` for `ms_played` and
   * `None` for every other field.
   */
  lemma FromDictMissingKeys(m: map<string, Value>)
    requires WellTyped(m)
    ensures FromDict(Object(m)).Ok?
    ensures var r := FromDict(Object(m)).value;
      && ("ts" !in m ==> r.ts == "")
      && ("ms_played" !in m ==> r.msPlayed == 0)
      && ("platform" !in m ==> r.platform.None?)
      && ("conn_country" !in m ==> r.connCountry.None?)
      && ("ip_addr" !in m ==> r.ipAddr.None?)
      && ("master_metadata_track_name" !in m ==> r.trackName.None?)
      && ("master_metadata_album_artist_name" !in m ==> r.artistName.None?)
      && ("master_metadata_album_album_name" !in m ==> r.albumName.None?)
      && ("spotify_track_uri" !in m ==> r.trackUri.None?)
      && ("episode_name" !in m ==> r.episodeName.None?)
      && ("episode_show_name" !in m ==> r.showName.None?)
      && ("spotify_episode_uri" !in m ==> r.episodeUri.None?)
      && ("audiobook_title" !in m ==> r.audiobookTitle.None?)
      && ("audiobook_uri" !in m ==> r.audiobookUri.None?)
      && ("audiobook_chapter_uri" !in m ==> r.chapterUri.None?)
      && ("audiobook_chapter_title" !in m ==> r.chapterTitle.None?)
      && ("reason_start" !in m ==> r.reasonStart.None?)
      && ("reason_end" !in m ==> r.reasonEnd.None?)
      && ("shuffle" !in m ==> r.shuffle.None?)
      && ("skipped" !in m ==> r.skipped.None?)
      && ("offline" !in m ==> r.offline.None?)
      && ("offline_timestamp" !in m ==> r.offlineTimestamp.None?)
      && ("incognito_mode" !in m ==> r.incognitoMode.None?)
  {
  }

  /** The two mappings hold the same entry (or none) under `key`. */
  predicate Agree(m1: map<string, Value>, m2: map<string, Value>, key: string) {
    (key in m1 <==> key in m2) && (key in m1 ==> m1[key] == m2[key])
  }

  /** The two mappings agree on every key `from_dict` reads. */
  predicate AgreeOnRecognised(m1: map<string, Value>, m2: map<string, Value>) {
    && Agree(m1, m2, "ts")
    && Agree(m1, m2, "platform")
    && Agree(m1, m2, "ms_played")
    && Agree(m1, m2, "conn_country")
    && Agree(m1, m2, "ip_addr")
    && Agree(m1, m2, "master_metadata_track_name")
    && Agree(m1, m2, "master_metadata_album_artist_name")
    && Agree(m1, m2, "master_metadata_album_album_name")
    && Agree(m1, m2, "spotify_track_uri")
    && Agree(m1, m2, "episode_name")
    && Agree(m1, m2, "episode_show_name")
    && Agree(m1, m2, "spotify_episode_uri")
    && Agree(m1, m2, "audiobook_title")
    && Agree(m1, m2, "audiobook_uri")
    && Agree(m1, m2, "audiobook_chapter_uri")
    && Agree(m1, m2, "audiobook_chapter_title")
    && Agree(m1, m2, "reason_start")
    && Agree(m1, m2, "reason_end")
    && Agree(m1, m2, "shuffle")
    && Agree(m1, m2, "skipped")
    && Agree(m1, m2, "offline")
    && Agree(m1, m2, "offline_timestamp")
    && Agree(m1, m2, "incognito_mode")
  }

  /** `from_dict` sees only the recognised keys. */
  lemma FromDictOnlyReadsRecognised(m1: map<string, Value>, m2: map<string, Value>)
    requires AgreeOnRecognised(m1, m2)
    ensures FromDict(Object(m1)) == FromDict(Object(m2))
  {
    assert WellTyped(m1) == WellTyped(m2);
  }

  /** Keys `from_dict` does not read have no influence on the record. */
  lemma FromDictIgnoresOtherKeys(m: map<string, Value>, extra: map<string, Value>)
    requires extra.Keys !! RecognisedKeys
    ensures FromDict(Object(m + extra)) == FromDict(Object(m))
  {
    assert AgreeOnRecognised(m + extra, m);
    FromDictOnlyReadsRecognised(m + extra, m);
  }

  /** The same record with its timestamp converted by `f` (`df['ts'] = pd.to_datetime(df['ts'])`). */
  function WithTs<A, B>(r: StreamRecord<A>, f: A -> B): (r': StreamRecord<B>)
    ensures r'.ts == f(r.ts)
  {
    StreamRecord(
      f(r.ts), r.platform, r.msPlayed, r.connCountry, r.ipAddr,
      r.trackName, r.artistName, r.albumName, r.trackUri,
      r.episodeName, r.showName, r.episodeUri,
      r.audiobookTitle, r.audiobookUri, r.chapterUri, r.chapterTitle,
      r.reasonStart, r.reasonEnd, r.shuffle, r.skipped, r.offline,
      r.offlineTimestamp, r.incognitoMode)
  }

  // ---------------------------------------------------------------------------
  // Deduplication identity: `get_unique_key`
  // ---------------------------------------------------------------------------

  /** Python truthiness of an optional string: `None` and `''` are false. */
  predicate Truthy(o: Option<string>) {
    o.Some? && o.value != ""
  }

  /** Python's `a or b` on optional strings. */
  function Or(a: Option<string>, b: Option<string>): Option<string> {
    if Truthy(a) then a else b
  }

  /** `spotify_track_uri or spotify_episode_uri or audiobook_uri`. */
  function ContentUri<Ts>(r: StreamRecord<Ts>): Option<string> {
    Or(Or(r.trackUri, r.episodeUri), r.audiobookUri)
  }

  /** The content URI is the first non-empty URI, else the audiobook URI as it is. */
  lemma ContentUriFirstPresent<Ts>(r: StreamRecord<Ts>)
    ensures Truthy(r.trackUri) ==> ContentUri(r) == r.trackUri
    ensures !Truthy(r.trackUri) && Truthy(r.episodeUri) ==> ContentUri(r) == r.episodeUri
    ensures !Truthy(r.trackUri) && !Truthy(r.episodeUri) ==> ContentUri(r) == r.audiobookUri
    ensures Truthy(ContentUri(r)) <==> Truthy(r.trackUri) || Truthy(r.episodeUri) || Truthy(r.audiobookUri)
  {
  }

  datatype Key = Key(ts: string, contentUri: Option<string>, msPlayed: int)

  /** `get_unique_key`: the tuple `(ts, content_uri, ms_played)`. */
  function UniqueKey(r: RawRecord): Key {
    Key(r.ts, ContentUri(r), r.msPlayed)
  }

  /**
   * Two records share a key exactly when their raw timestamp strings, content
   * URIs and played durations agree; no other field takes part.
   */
  lemma SameKeyIff(r1: RawRecord, r2: RawRecord)
    ensures UniqueKey(r1) == UniqueKey(r2)
        <==> r1.ts == r2.ts && ContentUri(r1) == ContentUri(r2) && r1.msPlayed == r2.msPlayed
  {
  }
}
