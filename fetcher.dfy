/**
 * fetch_news_data: the freshness gate, the per-section collection of
 * results, the truncation to `max_articles` and the filtering and shaping
 * of articles into the rows of a new snapshot.
 *
 * The remote service, the clock and the file system are parameters: the
 * answer of the service for each section is a function from the section
 * name, the current time is an integer number of seconds, the timestamp in
 * the new file's name is a string, and the written file is the result.
 */
module Fetcher {
  import opened Optional
  import opened Snapshots

  /** A value of an article's dictionary: missing key, JSON null, or a string. */
  datatype Field = Absent | Null | Text(s: string)

  /**
   * An article as the service returns it; `summary` is its `abstract` and
   * `geoFacet` its `geo_facet` list, where a missing key, a null and an
   * empty list all behave as `[]`.
   */
  datatype Article = Article(
    uri: Field, itemType: Field, title: Field, summary: Field,
    url: Field, publishedDate: Field, geoFacet: seq<string>)

  /** An element of a section's `results`: a dictionary, or anything else. */
  datatype Item = Dict(article: Article) | NotDict

  /**
   * The decoded answer for one section: a `results` list, a dictionary
   * without `results`, or an answer whose request or JSON decoding raised.
   */
  datatype SectionResponse = Results(items: seq<Item>) | NoResults | Unreadable

  /** One snapshot row, with the seven columns of the CSV header. */
  datatype Row = Row(
    uri: string, title: string, description: string, url: string,
    publishedDate: string, source: string, geolocation: string)

  /** What one call did. */
  datatype FetchOutcome =
    | MissingKey                            // no API key: nothing requested, nothing written
    | RecentSnapshot(newest: Entry)         // newest snapshot younger than the threshold
    | SectionFailed(section: string)        // a request or its decoding raised
    | Written(file: Entry, rows: seq<Row>)  // a new snapshot file with these rows

  const Sections: seq<string> := ["world", "us", "politics", "sports", "movies", "science", "technology"]
  const Header: seq<string> := ["uri", "title", "description", "url", "published_date", "source", "geolocation"]
  const SourceLabel: string := "New York Times"
  const SecondsPerMinute: int := 60

  /** `not NYTIMES_API_KEY`: the key is unset or empty. */
  predicate KeyMissing(apiKey: Option<string>) {
    apiKey.None? || apiKey.value == ""
  }

  /** The newest snapshot exists and its age is below the threshold. */
  predicate IsRecent(dir: seq<Entry>, now: int, thresholdMinutes: int) {
    Newest(dir).Some? && now - Newest(dir).value.mtime < thresholdMinutes * SecondsPerMinute
  }

  /** The cell written for a field: its string, or empty when it is missing or null. */
  function OrEmpty(f: Field): string {
    if f.Text? then f.s else ""
  }

  /** The first `geo_facet` entry, or empty when there is none. */
  function Geolocation(a: Article): string {
    if |a.geoFacet| > 0 then a.geoFacet[0] else ""
  }

  /** An article that becomes a row: of type "Article" with a location. */
  predicate Keep(a: Article) {
    a.itemType == Text("Article") && Geolocation(a) != ""
  }

  function ShapeRow(a: Article): (r: Row)
    requires Keep(a)
    ensures r.geolocation == a.geoFacet[0] && r.geolocation != ""
    ensures r.source == SourceLabel
    ensures a.title.Text? ==> r.title == a.title.s
    ensures !a.title.Text? ==> r.title == ""
    ensures a.summary.Text? ==> r.description == a.summary.s
    ensures !a.summary.Text? ==> r.description == ""
    ensures a.uri.Text? ==> r.uri == a.uri.s
    ensures !a.uri.Text? ==> r.uri == ""
    ensures a.url.Text? ==> r.url == a.url.s
    ensures !a.url.Text? ==> r.url == ""
    ensures a.publishedDate.Text? ==> r.publishedDate == a.publishedDate.s
    ensures !a.publishedDate.Text? ==> r.publishedDate == ""
  {
    Row(OrEmpty(a.uri), OrEmpty(a.title), OrEmpty(a.summary), OrEmpty(a.url),
        OrEmpty(a.publishedDate), SourceLabel, Geolocation(a))
  }

  /** The rows written for one item: none, or the row of a kept article. */
  function RowsOf(item: Item): seq<Row> {
    if item.Dict? && Keep(item.article) then [ShapeRow(item.article)] else []
  }

  /** The rows written for a list of items, in order. */
  function Shape(items: seq<Item>): (rows: seq<Row>)
    ensures |rows| <= |items|
  {
    if items == [] then []
    else Shape(items[..|items| - 1]) + RowsOf(items[|items| - 1])
  }

  /** The `results` of one answer, or nothing. */
  function ResultsOf(response: SectionResponse): seq<Item> {
    if response.Results? then response.items else []
  }

  /** The concatenated results of the given sections, in section order. */
  function Collect(respond: string -> SectionResponse, sections: seq<string>): seq<Item> {
    if sections == [] then []
    else Collect(respond, sections[..|sections| - 1]) + ResultsOf(respond(sections[|sections| - 1]))
  }

  /** Python's `s[:m]`, where a negative `m` counts from the end. */
  function Truncate<T>(s: seq<T>, m: int): (r: seq<T>)
    ensures r <= s
    ensures m >= 0 ==> |r| == if m < |s| then m else |s|
  {
    if m >= 0 then (if m < |s| then s[..m] else s)
    else if |s| + m > 0 then s[..|s| + m] else []
  }

  /** Shaping distributes over concatenation: order is kept. */
  lemma {:induction false} ShapeAppend(a: seq<Item>, b: seq<Item>)
    ensures Shape(a + b) == Shape(a) + Shape(b)
    decreases |b|
  {
    if b == [] {
      assert a + b == a;
    } else {
      var b' := b[..|b| - 1];
      assert (a + b)[..|a + b| - 1] == a + b';
      assert (a + b)[|a + b| - 1] == b[|b| - 1];
      ShapeAppend(a, b');
    }
  }

  /** The rows are exactly the rows of the kept articles among the items. */
  lemma {:induction false} ShapeMembers(items: seq<Item>, r: Row)
    ensures r in Shape(items) <==> exists a :: Dict(a) in items && Keep(a) && r == ShapeRow(a)
    decreases |items|
  {
    if items != [] {
      var init, last := items[..|items| - 1], items[|items| - 1];
      assert items == init + [last];
      ShapeMembers(init, r);
      if r in Shape(items) && r !in Shape(init) {
        assert last.Dict? && Keep(last.article) && r == ShapeRow(last.article);
      }
      if exists a :: Dict(a) in items && Keep(a) && r == ShapeRow(a) {
        var a :| Dict(a) in items && Keep(a) && r == ShapeRow(a);
        if Dict(a) !in init {
          assert Dict(a) == last;
        }
      }
    }
  }

  /** A kept item always gives a row: only the filter loses items. */
  lemma {:induction false} ShapeKeepsEveryArticle(items: seq<Item>)
    requires forall i :: 0 <= i < |items| ==> items[i].Dict? && Keep(items[i].article)
    ensures |Shape(items)| == |items|
    decreases |items|
  {
    if items != [] {
      ShapeKeepsEveryArticle(items[..|items| - 1]);
    }
  }

  /**
   * Truncation comes before filtering: the rows of the first `m` items are
   * a prefix of the rows of all items, and may be fewer than `m` even when
   * more articles would qualify.
   */
  lemma TruncateBeforeFilter(items: seq<Item>, m: int)
    requires m >= 0
    ensures Shape(Truncate(items, m)) <= Shape(items)
    ensures |Shape(Truncate(items, m))| <= m
  {
    var t := Truncate(items, m);
    assert items == t + items[|t|..];
    ShapeAppend(t, items[|t|..]);
  }

  /**
   * The loop over the sections: one request per section, in order, until a
   * request or its decoding raises; the results found are concatenated.
   */
  method RequestSections(respond: string -> SectionResponse)
    returns (requested: seq<string>, articles: seq<Item>, failed: Option<string>)
    ensures 0 < |requested| <= |Sections| && requested == Sections[..|requested|]
    ensures failed.None? <==> forall s :: s in Sections ==> !respond(s).Unreadable?
    ensures failed.None? ==> requested == Sections && articles == Collect(respond, Sections)
    ensures failed.Some? ==>
              failed.value == requested[|requested| - 1] && respond(failed.value).Unreadable? &&
              forall s :: s in requested[..|requested| - 1] ==> !respond(s).Unreadable?
  {
    requested, articles, failed := [], [], None;
    for k := 0 to |Sections|
      invariant requested == Sections[..k]
      invariant articles == Collect(respond, Sections[..k])
      invariant forall s :: s in Sections[..k] ==> !respond(s).Unreadable?
    {
      var section := Sections[k];
      assert Sections[..k + 1] == Sections[..k] + [section];
      assert Sections[..k + 1][..k] == Sections[..k];
      requested := requested + [section];
      match respond(section) {
        case Unreadable =>
          failed := Some(section);
          return;
        case NoResults =>
        case Results(items) =>
          articles := articles + items;
      }
    }
    assert Sections[..|Sections|] == Sections;
  }

  /** The loop that writes one row per kept article, in order. */
  method WriteRows(window: seq<Item>) returns (rows: seq<Row>)
    ensures rows == Shape(window)
    ensures |rows| <= |window|
    ensures forall r :: r in rows ==> r.source == SourceLabel && r.geolocation != ""
  {
    rows := [];
    for k := 0 to |window|
      invariant rows == Shape(window[..k])
    {
      var item := window[k];
      assert window[..k + 1][..k] == window[..k];
      match item {
        case NotDict =>
        case Dict(article) =>
          if article.itemType == Text("Article") {
            var geolocation := Geolocation(article);
            if geolocation != "" {
              rows := rows + [ShapeRow(article)];
            }
          }
      }
    }
    assert window[..|window|] == window;
    forall r | r in rows ensures r.source == SourceLabel && r.geolocation != "" {
      ShapeMembers(window, r);
    }
  }

  /** fetch_news_data */
  method FetchNewsData(apiKey: Option<string>, dir: seq<Entry>, now: int, stamp: string,
                       respond: string -> SectionResponse, maxArticles: int, thresholdMinutes: int)
    returns (requested: seq<string>, outcome: FetchOutcome)
    ensures outcome.MissingKey? <==> KeyMissing(apiKey)
    ensures outcome.RecentSnapshot? <==> !KeyMissing(apiKey) && IsRecent(dir, now, thresholdMinutes)
    ensures outcome.RecentSnapshot? ==> Newest(dir) == Some(outcome.newest)
    ensures outcome.MissingKey? || outcome.RecentSnapshot? ==> requested == []
    ensures outcome.SectionFailed? ==>
              0 < |requested| <= |Sections| && requested == Sections[..|requested|] &&
              outcome.section == requested[|requested| - 1] && respond(outcome.section).Unreadable? &&
              forall s :: s in requested[..|requested| - 1] ==> !respond(s).Unreadable?
    ensures outcome.Written? <==>
              !KeyMissing(apiKey) && !IsRecent(dir, now, thresholdMinutes) &&
              forall s :: s in Sections ==> !respond(s).Unreadable?
    ensures outcome.Written? ==>
              requested == Sections && outcome.file == Entry(SnapshotName(stamp), now) &&
              outcome.rows == Shape(Truncate(Collect(respond, Sections), maxArticles))
    ensures outcome.Written? ==>
              (maxArticles >= 0 ==> |outcome.rows| <= maxArticles) &&
              forall r :: r in outcome.rows ==> r.source == SourceLabel && r.geolocation != ""
  {
    requested := [];
    if KeyMissing(apiKey) {
      outcome := MissingKey;
      return;
    }
    var latest := Newest(dir);
    if latest.Some? {
      var age := now - latest.value.mtime;
      if age < thresholdMinutes * SecondsPerMinute {
        outcome := RecentSnapshot(latest.value);
        return;
      }
    }

    var articles, failed;
    requested, articles, failed := RequestSections(respond);
    if failed.Some? {
      outcome := SectionFailed(failed.value);
      return;
    }
    var rows := WriteRows(Truncate(articles, maxArticles));
    outcome := Written(Entry(SnapshotName(stamp), now), rows);
  }

  /**
   * Once a snapshot younger than the threshold is in the directory, the
   * freshness gate closes: a call made soon after a successful fetch
   * requests nothing.
   */
  lemma RecentAfterWrite(dir: seq<Entry>, e: Entry, now: int, thresholdMinutes: int)
    requires e in dir && IsSnapshotName(e.name)
    requires now - e.mtime < thresholdMinutes * SecondsPerMinute
    ensures IsRecent(dir, now, thresholdMinutes)
  {
  }
}
