/**
 * augment_news_data: adds city, country, latitude and longitude to the
 * newest snapshot by asking a language model, unless the snapshot already
 * has latitude and longitude columns.
 *
 * The snapshot as read from its CSV file, the model's answer and the JSON
 * parser are parameters; the table written back is the result. A table is
 * its column names and its rows, a row maps column names to cells.
 */
module Enricher {
  import opened Optional
  import opened Snapshots
  import opened Fences
  import Fetcher

  /** A table cell: null, or a value kept as its text. */
  datatype Cell = Null | Val(text: string)

  type Record = map<string, Cell>

  datatype Table = Table(columns: seq<string>, rows: seq<Record>)

  /** One record of the model's answer, after selecting its five fields. */
  datatype Enrichment = Enrichment(uri: Cell, city: Cell, country: Cell, latitude: Cell, longitude: Cell)

  /** What one call did. */
  datatype AugmentOutcome =
    | NoClient                               // the model client could not be created
    | NoSnapshot                             // there is no snapshot to read
    | AlreadyAugmented(file: Entry)          // latitude and longitude present: nothing asked, nothing written
    | MissingColumns(file: Entry)            // a column of the prompt is missing
    | CallFailed(file: Entry)                // the call to the model raised
    | Unparseable(file: Entry)               // the stripped answer is not the expected JSON
    | Augmented(file: Entry, table: Table)   // the joined table, written over the snapshot

  const JoinKey: string := "uri"
  const PromptColumns: seq<string> := ["uri", "title", "description", "geolocation"]
  const EnrichColumns: seq<string> := ["city", "country", "latitude", "longitude"]
  const Unmatched: Enrichment := Enrichment(Null, Null, Null, Null, Null)

  predicate HasCoordinates(t: Table) {
    "latitude" in t.columns && "longitude" in t.columns
  }

  predicate HasPromptColumns(t: Table) {
    forall c :: c in PromptColumns ==> c in t.columns
  }

  /** The outcomes in which the model was asked. */
  predicate AsksModel(o: AugmentOutcome) {
    o.CallFailed? || o.Unparseable? || o.Augmented?
  }

  function Lookup(r: Record, c: string): Cell {
    if c in r then r[c] else Null
  }

  /** Row `r` keeps every field of row `l`. */
  predicate Extends(r: Record, l: Record) {
    forall c :: c in l ==> c in r && r[c] == l[c]
  }

  /** A null key joins nothing; otherwise keys match by equality. */
  predicate KeyMatches(l: Record, e: Enrichment) {
    e.uri.Val? && Lookup(l, JoinKey) == e.uri
  }

  /** `ms` holds each record that joins with `l` as often as `right` does, and no other. */
  ghost predicate KeepsEveryCopy(l: Record, ms: seq<Enrichment>, right: seq<Enrichment>) {
    forall e :: multiset(ms)[e] == if KeyMatches(l, e) then multiset(right)[e] else 0
  }

  /** The records of the answer that join with row `l`, in answer order. */
  function MatchesOf(l: Record, right: seq<Enrichment>): (ms: seq<Enrichment>)
    ensures forall e :: e in ms <==> e in right && KeyMatches(l, e)
    ensures (forall e :: e in right ==> !KeyMatches(l, e)) ==> ms == []
    ensures KeepsEveryCopy(l, ms, right)
  {
    if right == [] then []
    else
      assert right == [right[0]] + right[1..];
      (if KeyMatches(l, right[0]) then [right[0]] else []) + MatchesOf(l, right[1..])
  }

  lemma MatchesOfCons(l: Record, e: Enrichment, rest: seq<Enrichment>)
    ensures MatchesOf(l, [e] + rest) == (if KeyMatches(l, e) then [e] else []) + MatchesOf(l, rest)
  {
    assert ([e] + rest)[0] == e && ([e] + rest)[1..] == rest;
  }

  /** The matches of a row come in the answer's order. */
  lemma {:induction false} MatchesOfAppend(l: Record, a: seq<Enrichment>, b: seq<Enrichment>)
    ensures MatchesOf(l, a + b) == MatchesOf(l, a) + MatchesOf(l, b)
    decreases |a|
  {
    if a == [] {
      assert a + b == b;
    } else {
      var h := if KeyMatches(l, a[0]) then [a[0]] else [];
      assert a + b == [a[0]] + (a[1..] + b);
      assert a == [a[0]] + a[1..];
      MatchesOfCons(l, a[0], a[1..] + b);
      MatchesOfCons(l, a[0], a[1..]);
      MatchesOfAppend(l, a[1..], b);
      ConcatAssoc(h, MatchesOf(l, a[1..]), MatchesOf(l, b));
    }
  }

  lemma ConcatAssoc<T>(x: seq<T>, y: seq<T>, z: seq<T>)
    ensures x + y + z == x + (y + z)
  {
  }

  /** The joined name of an answer column: suffixed when the table already has it. */
  function OutName(c: string, columns: seq<string>): string {
    if c in columns then c + "_right" else c
  }

  function EnrichmentValue(e: Enrichment, c: string): Cell {
    if c == "city" then e.city
    else if c == "country" then e.country
    else if c == "latitude" then e.latitude
    else if c == "longitude" then e.longitude
    else Null
  }

  /** Row `l` with the four answer fields of `e` added beside its own. */
  function Attach(l: Record, e: Enrichment, columns: seq<string>): (r: Record)
    ensures Extends(r, l)
    ensures forall c :: c in EnrichColumns && OutName(c, columns) !in l ==>
                        Lookup(r, OutName(c, columns)) == EnrichmentValue(e, c)
  {
    map[OutName("city", columns) := e.city, OutName("country", columns) := e.country,
        OutName("latitude", columns) := e.latitude, OutName("longitude", columns) := e.longitude] + l
  }

  /**
   * The rows a left join makes of one row: one per matching answer record,
   * or the row itself with null answer fields when nothing matches.
   */
  function JoinRow(l: Record, right: seq<Enrichment>, columns: seq<string>): (rows: seq<Record>)
    ensures |rows| >= 1
    ensures forall r :: r in rows ==> Extends(r, l)
    ensures MatchesOf(l, right) == [] ==>
              |rows| == 1 && forall c :: c in EnrichColumns && OutName(c, columns) !in l ==>
                                         Lookup(rows[0], OutName(c, columns)) == Null
    ensures MatchesOf(l, right) != [] ==>
              |rows| == |MatchesOf(l, right)| &&
              forall i, c :: 0 <= i < |rows| && c in EnrichColumns && OutName(c, columns) !in l ==>
                               Lookup(rows[i], OutName(c, columns)) == EnrichmentValue(MatchesOf(l, right)[i], c)
  {
    var ms := MatchesOf(l, right);
    if ms == [] then [Attach(l, Unmatched, columns)]
    else seq(|ms|, i requires 0 <= i < |ms| => Attach(l, ms[i], columns))
  }

  /** `table.join(answer, on="uri", how="left")`, rows in the table's order. */
  function Join(left: seq<Record>, right: seq<Enrichment>, columns: seq<string>): (rows: seq<Record>)
    ensures |rows| >= |left|
  {
    if left == [] then []
    else JoinRow(left[0], right, columns) + Join(left[1..], right, columns)
  }

  /** The columns of the joined table. */
  function JoinedColumns(columns: seq<string>): seq<string> {
    columns + [OutName("city", columns), OutName("country", columns),
               OutName("latitude", columns), OutName("longitude", columns)]
  }

  /** The join keeps the order of the table's rows. */
  lemma {:induction false} JoinAppend(a: seq<Record>, b: seq<Record>, right: seq<Enrichment>, columns: seq<string>)
    ensures Join(a + b, right, columns) == Join(a, right, columns) + Join(b, right, columns)
    decreases |a|
  {
    if a != [] {
      assert (a + b)[0] == a[0];
      assert (a + b)[1..] == a[1..] + b;
      JoinAppend(a[1..], b, right, columns);
    } else {
      assert a + b == b;
    }
  }

  /** No two records of the answer carry the same non-null key. */
  predicate UniqueKeys(right: seq<Enrichment>) {
    forall i, j :: 0 <= i < j < |right| && right[i].uri.Val? ==> right[i].uri != right[j].uri
  }

  /** The answer record that joins with `l`, or all nulls. */
  function FirstMatch(l: Record, right: seq<Enrichment>): Enrichment {
    var ms := MatchesOf(l, right);
    if ms == [] then Unmatched else ms[0]
  }

  lemma {:induction false} AtMostOneMatch(l: Record, right: seq<Enrichment>)
    requires UniqueKeys(right)
    ensures |MatchesOf(l, right)| <= 1
  {
    if right != [] {
      var rest := right[1..];
      assert UniqueKeys(rest) by {
        forall i, j | 0 <= i < j < |rest| && rest[i].uri.Val? ensures rest[i].uri != rest[j].uri {
          assert rest[i] == right[i + 1] && rest[j] == right[j + 1];
        }
      }
      AtMostOneMatch(l, rest);
      if KeyMatches(l, right[0]) {
        forall e | e in rest ensures !KeyMatches(l, e) {
          var j :| 0 <= j < |rest| && rest[j] == e;
          assert right[j + 1] == e;
        }
      }
    }
  }

  /** A row with at most one matching record gives one joined row. */
  lemma JoinRowSingle(l: Record, right: seq<Enrichment>, columns: seq<string>)
    requires |MatchesOf(l, right)| <= 1
    ensures JoinRow(l, right, columns) == [Attach(l, FirstMatch(l, right), columns)]
  {
  }

  /** The join of a table whose first row has at most one match. */
  lemma JoinCons(left: seq<Record>, right: seq<Enrichment>, columns: seq<string>)
    requires left != [] && |MatchesOf(left[0], right)| <= 1
    ensures Join(left, right, columns) ==
              [Attach(left[0], FirstMatch(left[0], right), columns)] + Join(left[1..], right, columns)
  {
    JoinRowSingle(left[0], right, columns);
  }

  /**
   * When the answer's keys are unique, the left join is row for row: the
   * i-th joined row is the i-th row of the table with the fields of its
   * matching answer record, or with nulls.
   */
  lemma {:induction false} JoinRowwise(left: seq<Record>, right: seq<Enrichment>, columns: seq<string>)
    requires UniqueKeys(right)
    ensures |Join(left, right, columns)| == |left|
    ensures forall k :: 0 <= k < |left| ==>
              Join(left, right, columns)[k] == Attach(left[k], FirstMatch(left[k], right), columns)
    decreases |left|
  {
    if left != [] {
      AtMostOneMatch(left[0], right);
      JoinRowwise(left[1..], right, columns);
      var tail := Join(left[1..], right, columns);
      JoinCons(left, right, columns);
      forall k | 0 <= k < |left|
        ensures Join(left, right, columns)[k] == Attach(left[k], FirstMatch(left[k], right), columns)
      {
        if k > 0 {
          assert Join(left, right, columns)[k] == tail[k - 1];
          assert left[1..][k - 1] == left[k];
        }
      }
    }
  }

  /** augment_news_data */
  function Augment(clientReady: bool, dir: seq<Entry>, read: string -> Table,
                   answer: Option<string>, parse: string -> Option<seq<Enrichment>>): (o: AugmentOutcome)
    ensures o.NoClient? <==> !clientReady
    ensures o.NoSnapshot? <==> clientReady && Newest(dir).None?
    ensures o.AlreadyAugmented? <==>
              clientReady && Newest(dir).Some? && HasCoordinates(read(Newest(dir).value.name))
    ensures AsksModel(o) <==>
              clientReady && Newest(dir).Some? && !HasCoordinates(read(Newest(dir).value.name)) &&
              HasPromptColumns(read(Newest(dir).value.name))
    ensures o.MissingColumns? <==>
              clientReady && Newest(dir).Some? && !HasCoordinates(read(Newest(dir).value.name)) &&
              !HasPromptColumns(read(Newest(dir).value.name))
    ensures o.CallFailed? <==> AsksModel(o) && answer.None?
    ensures o.Unparseable? <==> AsksModel(o) && answer.Some? && parse(StripFences(answer.value)).None?
    ensures o.Augmented? <==> AsksModel(o) && answer.Some? && parse(StripFences(answer.value)).Some?
    ensures o.Augmented? ==>
              o.file == Newest(dir).value && HasCoordinates(o.table) &&
              read(o.file.name).columns <= o.table.columns &&
              o.table.columns == JoinedColumns(read(o.file.name).columns) &&
              answer.Some? && parse(StripFences(answer.value)).Some? &&
              o.table.rows == Join(read(o.file.name).rows, parse(StripFences(answer.value)).value,
                                   read(o.file.name).columns)
  {
    if !clientReady then NoClient
    else match Newest(dir)
      case None => NoSnapshot
      case Some(file) =>
        var table := read(file.name);
        if HasCoordinates(table) then AlreadyAugmented(file)
        else if !HasPromptColumns(table) then MissingColumns(file)
        else match answer
          case None => CallFailed(file)
          case Some(text) =>
            match parse(StripFences(text))
              case None => Unparseable(file)
              case Some(records) =>
                Augmented(file, Table(JoinedColumns(table.columns), Join(table.rows, records, table.columns)))
  }

  /**
   * Enrichment runs at most once per snapshot: once the joined table is
   * written over the newest snapshot, the next call asks nothing and
   * writes nothing, whatever the model would answer.
   */
  lemma AugmentOnce(clientReady: bool, dir: seq<Entry>, read: string -> Table,
                    answer: Option<string>, parse: string -> Option<seq<Enrichment>>,
                    dir': seq<Entry>, read': string -> Table,
                    answer': Option<string>, parse': string -> Option<seq<Enrichment>>)
    requires Augment(clientReady, dir, read, answer, parse).Augmented?
    requires Newest(dir').Some? && Newest(dir').value.name == Newest(dir).value.name
    requires read'(Newest(dir).value.name).columns == Augment(clientReady, dir, read, answer, parse).table.columns
    ensures Augment(clientReady, dir', read', answer', parse') == AlreadyAugmented(Newest(dir').value)
  {
  }

  /** A snapshot as the fetch writes it is one the enrichment asks the model about. */
  lemma FetchedSnapshotIsEnriched(t: Table)
    requires t.columns == Fetcher.Header
    ensures HasPromptColumns(t) && !HasCoordinates(t)
  {
  }
}
