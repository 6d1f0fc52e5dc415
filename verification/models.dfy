/**
  The records of the backend: download status and its string codec, queue
  items, users, search results, request bodies with their defaults, and the
  events pushed to subscribers.
*/
module Models {
  import opened Wrappers

  /** The five states of a queue item. */
  datatype DownloadStatus = Queued | Downloading | Done | Failed | Cancelled

  /** `Display for DownloadStatus`: the lower-case name stored in the `status` column. */
  function Display(st: DownloadStatus): (s: string)
    ensures |s| >= 4
    ensures forall i :: 0 <= i < |s| ==> 'a' <= s[i] <= 'z'
  {
    match st
    case Queued => "queued"
    case Downloading => "downloading"
    case Done => "done"
    case Failed => "failed"
    case Cancelled => "cancelled"
  }

  /** `FromStr for DownloadStatus`: exactly the five Display names are accepted. */
  function FromStr(s: string): (r: Result<DownloadStatus, string>)
    ensures r.Ok? ==> Display(r.value) == s
    ensures r.Err? ==> forall st :: Display(st) != s
    ensures r.Err? ==> r.error == "unknown status: " + s
  {
    if s == "queued" then Ok(Queued)
    else if s == "downloading" then Ok(Downloading)
    else if s == "done" then Ok(Done)
    else if s == "failed" then Ok(Failed)
    else if s == "cancelled" then Ok(Cancelled)
    else Err("unknown status: " + s)
  }

  lemma FromStrDisplay(st: DownloadStatus)
    ensures FromStr(Display(st)) == Ok(st)
  {
  }

  lemma DisplayInjective(a: DownloadStatus, b: DownloadStatus)
    ensures Display(a) == Display(b) ==> a == b
  {
  }

  /** Any string that is not one of the five lower-case names, "Queued" included, is rejected. */
  lemma FromStrRejects(s: string)
    requires s !in {"queued", "downloading", "done", "failed", "cancelled"}
    ensures FromStr(s).Err?
  {
  }

  /**
    A row of `queue_items`. Timestamps (RFC 3339 strings compared as text in
    SQL) are integers here; `progress` is the f64 percentage.
  */
  datatype Item = Item(
    id: string,
    pid: string,
    title: string,
    series: Option<string>,
    episode: Option<string>,
    channel: Option<string>,
    mediaType: string,
    thumbnailUrl: Option<string>,
    addedAt: int,
    scheduledAt: Option<int>,
    priority: int,
    status: DownloadStatus,
    startedAt: Option<int>,
    completedAt: Option<int>,
    error: Option<string>,
    outputPath: Option<string>,
    progress: real,
    speed: Option<string>,
    eta: Option<string>,
    fileSize: Option<int>,
    quality: string,
    subtitles: bool,
    metadata: string,
    userId: string)

  /** The `queue_items` table, keyed by item id. */
  type Store = map<string, Item>

  /** Events broadcast to WebSocket subscribers. */
  datatype Event =
    | Progress(id: string, progress: real, speed: Option<string>, eta: Option<string>)
    | StatusChange(id: string, status: DownloadStatus)
    | ItemAdded(item: Item)
    | ItemRemoved(id: string)
    | Error(id: string, message: string)

  /** A row of `users`; `password` holds the Argon2 hash. */
  datatype User = User(id: string, username: string, password: string, createdAt: int, updatedAt: int)

  /** A search hit, as produced by the listing parsers. */
  datatype SearchResult = SearchResult(
    pid: string,
    title: string,
    series: Option<string>,
    episode: Option<string>,
    channel: Option<string>,
    mediaType: string,
    thumbnailUrl: Option<string>,
    availableUntil: Option<string>,
    duration: Option<string>,
    description: Option<string>)

  /** `SearchResult::default()` with the given pid, title and media type. */
  function BlankResult(pid: string, title: string, mediaType: string): SearchResult {
    SearchResult(pid, title, None, None, None, mediaType, None, None, None, None)
  }

  /** The JSON body of `POST /api/queue` as sent: the four defaulted fields may be omitted. */
  datatype AddQueueBody = AddQueueBody(
    pid: string,
    title: string,
    series: Option<string>,
    episode: Option<string>,
    channel: Option<string>,
    mediaType: Option<string>,
    thumbnailUrl: Option<string>,
    scheduledAt: Option<int>,
    priority: Option<int>,
    quality: Option<string>,
    subtitles: Option<bool>)

  /** `AddQueueItemRequest` after deserialisation. */
  datatype AddQueueItemRequest = AddQueueItemRequest(
    pid: string,
    title: string,
    series: Option<string>,
    episode: Option<string>,
    channel: Option<string>,
    mediaType: string,
    thumbnailUrl: Option<string>,
    scheduledAt: Option<int>,
    priority: int,
    quality: string,
    subtitles: bool)

  const DefaultMediaType := "tv"
  const DefaultPriority := 5
  const DefaultQuality := "best"
  const DefaultSubtitles := true

  /** Serde's `#[serde(default = …)]`: an omitted field takes its default, a present one is kept. */
  function WithDefaults(b: AddQueueBody): (r: AddQueueItemRequest)
    ensures r.mediaType == (if b.mediaType.Some? then b.mediaType.value else "tv")
    ensures r.priority == (if b.priority.Some? then b.priority.value else 5)
    ensures r.quality == (if b.quality.Some? then b.quality.value else "best")
    ensures r.subtitles == (if b.subtitles.Some? then b.subtitles.value else true)
    ensures r.pid == b.pid && r.title == b.title && r.scheduledAt == b.scheduledAt
    ensures r.series == b.series && r.episode == b.episode && r.channel == b.channel
    ensures r.thumbnailUrl == b.thumbnailUrl
  {
    AddQueueItemRequest(
      b.pid, b.title, b.series, b.episode, b.channel,
      b.mediaType.GetOr(DefaultMediaType), b.thumbnailUrl, b.scheduledAt,
      b.priority.GetOr(DefaultPriority), b.quality.GetOr(DefaultQuality),
      b.subtitles.GetOr(DefaultSubtitles))
  }
}
