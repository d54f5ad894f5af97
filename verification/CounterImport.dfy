/**
 * `ImportCounterMetrics`: two importers that upsert the lines of a CSV file into one metrics table,
 * one filling the investigations column and the other the requests column.
 */
module CounterImport {
  import opened Prelude
  import AuthorFilter
  import Text

  datatype Work = Work(id: string, worktype: string, resourceTypes: Option<seq<string>>, year: Option<int>,
                       creators: seq<string>, publishers: Option<seq<string>>, titles: Option<seq<string>>)

  /** The columns that both importers copy from the work. */
  datatype Details = Details(worktype: string, resourceType: Option<string>, year: Option<int>,
                             author: Option<string>, publisher: Option<string>, title: Option<string>)

  datatype Key = Key(workId: string, date: int)

  datatype Metric = Metric(key: Key, investigations: Option<int>, requests: Option<int>, details: Details)

  datatype Line = Line(eprintid: string, datestamp: int, count: Option<int>)

  datatype Kind = Investigations | Requests

  /** The works that the index finds for an identifier. */
  type Works = map<string, Work>

  function First(xs: Option<seq<string>>): Option<string> {
    if xs.Some? && xs.value != [] then Some(xs.value[0]) else None
  }

  function DetailsOf(w: Work): Details {
    Details(w.worktype, First(w.resourceTypes), w.year, AuthorFilter.Serialize(w.creators), First(w.publishers),
            First(w.titles))
  }

  // ---------- the table ----------

  function Find(rows: seq<Metric>, k: Key): (i: nat)
    ensures i <= |rows|
    ensures i < |rows| ==> rows[i].key == k
    ensures forall j | 0 <= j < i :: rows[j].key != k
  {
    if rows == [] || rows[0].key == k then 0 else 1 + Find(rows[1..], k)
  }

  /** The table as a map from keys to rows. */
  function At(rows: seq<Metric>, k: Key): Option<Metric> {
    var i := Find(rows, k);
    if i < |rows| then Some(rows[i]) else None
  }

  predicate UniqueKeys(rows: seq<Metric>) {
    forall i, j | 0 <= i < j < |rows| :: rows[i].key != rows[j].key
  }

  // ---------- importing ----------

  /** What importing one line of the given kind makes of the row that is there, if any. */
  function Merge(kind: Kind, existing: Option<Metric>, w: Work, line: Line): Metric {
    Metric(Key(w.id, line.datestamp),
           if kind == Investigations then line.count else if existing.Some? then existing.value.investigations else None,
           if kind == Requests then line.count else if existing.Some? then existing.value.requests else None,
           DetailsOf(w))
  }

  function Put(rows: seq<Metric>, m: Metric): seq<Metric> {
    var i := Find(rows, m.key);
    if i < |rows| then rows[i := m] else rows + [m]
  }

  function Step(kind: Kind, works: Works, rows: seq<Metric>, line: Line): seq<Metric> {
    if line.eprintid !in works then rows
    else
      var w := works[line.eprintid];
      Put(rows, Merge(kind, At(rows, Key(w.id, line.datestamp)), w, line))
  }

  /** Importing lines none of which raises. */
  function Fold(kind: Kind, works: Works, rows: seq<Metric>, lines: seq<Line>): seq<Metric> {
    if lines == [] then rows
    else Step(kind, works, Fold(kind, works, rows, lines[..|lines| - 1]), lines[|lines| - 1])
  }

  /** Only the requests importer dereferences the resource types without checking for nil. */
  predicate Raises(kind: Kind, works: Works, line: Line) {
    kind == Requests && line.eprintid in works && works[line.eprintid].resourceTypes.None?
  }

  /** The lines that are imported before the first one that raises. */
  function Imported(kind: Kind, works: Works, lines: seq<Line>): seq<Line> {
    if lines == [] || Raises(kind, works, lines[0]) then [] else [lines[0]] + Imported(kind, works, lines[1..])
  }

  lemma {:induction false} ImportedIsPrefix(kind: Kind, works: Works, lines: seq<Line>, n: nat)
    requires n <= |lines| && forall i | 0 <= i < n :: !Raises(kind, works, lines[i])
    requires n < |lines| ==> Raises(kind, works, lines[n])
    ensures Imported(kind, works, lines) == lines[..n]
  {
    if n > 0 {
      ImportedIsPrefix(kind, works, lines[1..], n - 1);
      assert lines[..n] == [lines[0]] + lines[1..][..n - 1];
    }
  }

  class MetricsTable {
    var rows: seq<Metric>

    method Upsert(kind: Kind, work: Work, line: Line)
      modifies this
      ensures rows == Put(old(rows), Merge(kind, At(old(rows), Key(work.id, line.datestamp)), work, line))
    {
      var key := Key(work.id, line.datestamp);
      var i := Find(rows, key);
      if i < |rows| {
        var updated := rows[i].(key := key, details := DetailsOf(work));
        rows := rows[i := if kind == Investigations then updated.(investigations := line.count)
                          else updated.(requests := line.count)];
      } else if kind == Investigations {
        rows := rows + [Metric(key, line.count, None, DetailsOf(work))];
      } else {
        rows := rows + [Metric(key, None, line.count, DetailsOf(work))];
      }
    }

    method ImportInvestigations(works: Works, lines: seq<Line>)
      modifies this
      ensures rows == Fold(Investigations, works, old(rows), lines)
    {
      var i := 0;
      while i < |lines|
        invariant 0 <= i <= |lines|
        invariant rows == Fold(Investigations, works, old(rows), lines[..i])
      {
        assert lines[..i + 1][..i] == lines[..i];
        if lines[i].eprintid in works {
          Upsert(Investigations, works[lines[i].eprintid], lines[i]);
        }
        i := i + 1;
      }
      assert lines[..i] == lines;
    }

    method ImportRequests(works: Works, lines: seq<Line>) returns (raised: bool)
      modifies this
      ensures rows == Fold(Requests, works, old(rows), Imported(Requests, works, lines))
      ensures raised <==> Imported(Requests, works, lines) != lines
    {
      var i := 0;
      while i < |lines|
        invariant 0 <= i <= |lines|
        invariant forall j | 0 <= j < i :: !Raises(Requests, works, lines[j])
        invariant rows == Fold(Requests, works, old(rows), lines[..i])
      {
        assert lines[..i + 1][..i] == lines[..i];
        if lines[i].eprintid in works {
          var work := works[lines[i].eprintid];
          if work.resourceTypes.None? {
            ImportedIsPrefix(Requests, works, lines, i);
            return true;
          }
          Upsert(Requests, work, lines[i]);
        }
        i := i + 1;
      }
      assert lines[..i] == lines;
      ImportedIsPrefix(Requests, works, lines, i);
      return false;
    }
  }

  // ---------- importing refines a map ----------

  lemma FindUnique(rows: seq<Metric>, k: Key, i: nat)
    requires i <= |rows| && (i < |rows| ==> rows[i].key == k)
    requires forall j | 0 <= j < i :: rows[j].key != k
    ensures Find(rows, k) == i
  {
  }

  lemma PutIsUpdate(rows: seq<Metric>, m: Metric, k: Key)
    ensures At(Put(rows, m), k) == if k == m.key then Some(m) else At(rows, k)
    ensures UniqueKeys(rows) ==> UniqueKeys(Put(rows, m))
  {
    var i, after := Find(rows, m.key), Put(rows, m);
    FindUnique(after, k, if k == m.key then i else if Find(rows, k) < |rows| then Find(rows, k) else |after|);
  }

  /** The last of the lines that is for `k` and whose work exists. */
  function LastFor(works: Works, lines: seq<Line>, k: Key): Option<Line> {
    if lines == [] then None
    else
      var line := lines[|lines| - 1];
      if line.eprintid in works && Key(works[line.eprintid].id, line.datestamp) == k then Some(line)
      else LastFor(works, lines[..|lines| - 1], k)
  }

  lemma {:induction false} LastForIsFor(works: Works, lines: seq<Line>, k: Key)
    requires LastFor(works, lines, k).Some?
    ensures var line := LastFor(works, lines, k).value;
            line in lines && line.eprintid in works && Key(works[line.eprintid].id, line.datestamp) == k
  {
    var n := |lines| - 1;
    if LastFor(works, lines[..n], k).Some? {
      LastForIsFor(works, lines[..n], k);
    }
  }

  /** The row for `k` after importing: what the last line for `k` makes of the row before, or that row. */
  function MergedAt(kind: Kind, works: Works, rows: seq<Metric>, lines: seq<Line>, k: Key): (m: Option<Metric>) {
    var last := LastFor(works, lines, k);
    if last.None? then At(rows, k)
    else
      LastForIsFor(works, lines, k);
      Some(Merge(kind, At(rows, k), works[last.value.eprintid], last.value))
  }

  /** Importing acts on each key by itself, and keeps keys unique. */
  lemma {:induction false} ImportIsPointwise(kind: Kind, works: Works, rows: seq<Metric>, lines: seq<Line>, k: Key)
    ensures At(Fold(kind, works, rows, lines), k) == MergedAt(kind, works, rows, lines, k)
    ensures UniqueKeys(rows) ==> UniqueKeys(Fold(kind, works, rows, lines))
  {
    if lines != [] {
      var n := |lines| - 1;
      ImportIsPointwise(kind, works, rows, lines[..n], k);
      var before, line := Fold(kind, works, rows, lines[..n]), lines[n];
      if line.eprintid in works {
        var w := works[line.eprintid];
        PutIsUpdate(before, Merge(kind, At(before, Key(w.id, line.datestamp)), w, line), k);
      }
    }
  }

  /** The cell holds the first of the values, and nothing when there is none. */
  predicate HoldsFirst(cell: Option<string>, values: Option<seq<string>>) {
    match values
    case None => cell == None
    case Some(xs) => if |xs| == 0 then cell == None else cell == Some(xs[0])
  }

  /** Column by column, what is copied from a work. */
  predicate Copied(m: Metric, w: Work) {
    && m.key.workId == w.id
    && m.details.worktype == w.worktype && m.details.year == w.year
    && HoldsFirst(m.details.resourceType, w.resourceTypes)
    && HoldsFirst(m.details.publisher, w.publishers)
    && HoldsFirst(m.details.title, w.titles)
    && AuthorFilter.Deserialize(m.details.author) == AuthorFilter.Pieces(w.creators)
    && (m.details.author == None <==> w.creators == [])
  }

  lemma DetailsAreCopied(m: Metric, w: Work)
    requires m.key.workId == w.id && m.details == DetailsOf(w)
    ensures Copied(m, w)
  {
    AuthorFilter.EncodingRoundTrip(w.creators);
  }

  /** An imported key has the count of its last line and, column by column, what that line's work says; other keys keep their rows. */
  lemma LastLineWins(kind: Kind, works: Works, rows: seq<Metric>, lines: seq<Line>, k: Key)
    ensures var last, after := LastFor(works, lines, k), At(Fold(kind, works, rows, lines), k);
            && (last.None? ==> after == At(rows, k))
            && (last.Some? ==>
                  && last.value.eprintid in works && after.Some? && after.value.key == k && k.date == last.value.datestamp
                  && (if kind == Investigations then after.value.investigations else after.value.requests) == last.value.count
                  && after.value.details == DetailsOf(works[last.value.eprintid])
                  && Copied(after.value, works[last.value.eprintid]))
  {
    ImportIsPointwise(kind, works, rows, lines, k);
    if LastFor(works, lines, k).Some? {
      LastForIsFor(works, lines, k);
      DetailsAreCopied(At(Fold(kind, works, rows, lines), k).value, works[LastFor(works, lines, k).value.eprintid]);
    }
  }

  /** And so an author filter finds an imported row exactly by its work's creators. */
  lemma ImportedAuthorsAreFound(kind: Kind, works: Works, rows: seq<Metric>, lines: seq<Line>, k: Key, q: string)
    requires LastFor(works, lines, k).Some? && AuthorFilter.Literal(q) && Text.Lacks(q, AuthorFilter.DELIMITER)
    ensures var last, after := LastFor(works, lines, k), At(Fold(kind, works, rows, lines), k);
            && last.value.eprintid in works && after.Some?
            && var creators := works[last.value.eprintid].creators;
               AuthorFilter.PipeFree(creators) ==> (AuthorFilter.Matches(after.value.details.author, q) <==> q in creators)
  {
    LastLineWins(kind, works, rows, lines, k);
    var creators := works[LastFor(works, lines, k).value.eprintid].creators;
    if AuthorFilter.PipeFree(creators) {
      AuthorFilter.FilterIsMembership(creators, q);
    }
  }

  /** Each importer keeps the other one's column: unchanged where there was a row, empty where there was none. */
  lemma OtherColumnKept(works: Works, rows: seq<Metric>, lines: seq<Line>, k: Key)
    ensures var before, after := At(rows, k), At(Fold(Investigations, works, rows, lines), k);
            after.Some? ==> after.value.requests == if before.Some? then before.value.requests else None
    ensures var before, after := At(rows, k), At(Fold(Requests, works, rows, lines), k);
            after.Some? ==> after.value.investigations == if before.Some? then before.value.investigations else None
  {
    ImportIsPointwise(Investigations, works, rows, lines, k);
    ImportIsPointwise(Requests, works, rows, lines, k);
  }

  // ---------- importing twice ----------

  lemma {:induction false} SameTable(a: seq<Metric>, b: seq<Metric>)
    requires |a| == |b| && UniqueKeys(a)
    requires forall i | 0 <= i < |a| :: a[i].key == b[i].key
    requires forall k :: At(a, k) == At(b, k)
    ensures a == b
  {
    forall i | 0 <= i < |a| ensures a[i] == b[i] {
      FindUnique(a, a[i].key, i);
      FindUnique(b, a[i].key, i);
      assert At(a, a[i].key) == At(b, a[i].key);
    }
  }

  /** When every key of the file is in the table already, importing creates no row and moves none. */
  lemma {:induction false} NoNewRows(kind: Kind, works: Works, rows: seq<Metric>, lines: seq<Line>)
    requires forall k :: LastFor(works, lines, k).Some? ==> At(rows, k).Some?
    ensures var after := Fold(kind, works, rows, lines);
            |after| == |rows| && forall i | 0 <= i < |rows| :: after[i].key == rows[i].key
  {
    if lines != [] {
      var n := |lines| - 1;
      forall k | LastFor(works, lines[..n], k).Some? ensures At(rows, k).Some? {
        assert LastFor(works, lines, k).Some?;
      }
      NoNewRows(kind, works, rows, lines[..n]);
      var before, line := Fold(kind, works, rows, lines[..n]), lines[n];
      if line.eprintid in works {
        var k := Key(works[line.eprintid].id, line.datestamp);
        assert LastFor(works, lines, k) == Some(line);
        ImportIsPointwise(kind, works, rows, lines[..n], k);
      }
    }
  }

  /** Importing the same lines again changes nothing. */
  lemma ImportTwice(kind: Kind, works: Works, rows: seq<Metric>, lines: seq<Line>)
    requires UniqueKeys(rows)
    ensures var once := Fold(kind, works, rows, lines); Fold(kind, works, once, lines) == once
  {
    var once := Fold(kind, works, rows, lines);
    var twice := Fold(kind, works, once, lines);
    forall k ensures At(once, k) == At(twice, k) && (LastFor(works, lines, k).Some? ==> At(once, k).Some?) {
      ImportIsPointwise(kind, works, rows, lines, k);
      ImportIsPointwise(kind, works, once, lines, k);
    }
    ImportIsPointwise(kind, works, rows, lines, Key("", 0));
    NoNewRows(kind, works, once, lines);
    SameTable(once, twice);
  }

  // ---------- the two importers together ----------

  /** Identifiers that lead to one work lead to the same work. */
  predicate WorksAreObjects(works: Works) {
    forall e, f | e in works && f in works && works[e].id == works[f].id :: works[e] == works[f]
  }

  /** Investigations and requests commute, key by key. */
  lemma ImportsCommute(works: Works, rows: seq<Metric>, views: seq<Line>, downloads: seq<Line>, k: Key)
    requires WorksAreObjects(works)
    ensures At(Fold(Requests, works, Fold(Investigations, works, rows, views), downloads), k)
         == At(Fold(Investigations, works, Fold(Requests, works, rows, downloads), views), k)
  {
    ImportIsPointwise(Investigations, works, rows, views, k);
    ImportIsPointwise(Requests, works, Fold(Investigations, works, rows, views), downloads, k);
    ImportIsPointwise(Requests, works, rows, downloads, k);
    ImportIsPointwise(Investigations, works, Fold(Requests, works, rows, downloads), views, k);
    if LastFor(works, views, k).Some? {
      LastForIsFor(works, views, k);
    }
    if LastFor(works, downloads, k).Some? {
      LastForIsFor(works, downloads, k);
    }
  }

  /** The requests importer completes exactly when every line's work, if there is one, has resource types. */
  lemma {:induction false} RequestsCompleteExactly(works: Works, lines: seq<Line>)
    ensures Imported(Requests, works, lines) == lines <==>
            forall i | 0 <= i < |lines| :: lines[i].eprintid in works ==> works[lines[i].eprintid].resourceTypes.Some?
    ensures |Imported(Requests, works, lines)| <= |lines|
  {
    if lines != [] {
      RequestsCompleteExactly(works, lines[1..]);
      assert lines == [lines[0]] + lines[1..];
      assert forall i | 0 <= i < |lines| - 1 :: lines[1..][i] == lines[i + 1];
      assert forall i | 0 < i < |lines| :: lines[i] == lines[1..][i - 1];
    }
  }

  /** One line and a work without resource types: investigations are imported, requests are not. */
  lemma OnlyRequestsRaise(works: Works, line: Line)
    requires line.eprintid in works && works[line.eprintid].resourceTypes.None?
    ensures Imported(Requests, works, [line]) == [] && Imported(Investigations, works, [line]) == [line]
  {
    assert Imported(Investigations, works, [line][1..]) == [];
  }
}
