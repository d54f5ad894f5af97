/**
 * `Importer::CSVParser`: header validation, and the extraction of one row of cells into a hash whose
 * keys collect the cells of several columns.
 */
module CsvRow {
  import opened Prelude
  import opened Text

  // ---------- headers ----------

  const TYPE_SUFFIX := "_type"

  predicate EndsWith(s: string, suffix: string) {
    |suffix| <= |s| && s[|s| - |suffix|..] == suffix
  }

  predicate IsTypeHeader(h: string) {
    EndsWith(h, TYPE_SUFFIX)
  }

  /** Ruby's `gsub('_type', '')`. */
  function StripType(h: string): string {
    if |h| < 5 then h
    else if h[..5] == TYPE_SUFFIX then StripType(h[5..])
    else [h[0]] + StripType(h[1..])
  }

  /** What a header makes of its cells; `key` is where in the hash they go. */
  datatype Column =
    | Singular(key: string)
    | DateField(key: string, field: string)
    | Repeated(key: string)
    | TypeOf(key: string)
    | Contributor(key: string)
    | CollectionField(key: string, field: string)
    | Plain(key: string)

  function DateColumn(h: string, prefix: string): Column
    requires StartsWith(h, prefix + "_")
  {
    DateField(prefix + "_attributes", h[|prefix| + 1..])
  }

  /** The branches of `extract_field`, in order. */
  function Classify(h: string): Column {
    if h == "type" || h == "id" then Singular(h)
    else if StartsWith(h, "created" + "_") then DateColumn(h, "created")
    else if StartsWith(h, "issued" + "_") then DateColumn(h, "issued")
    else if StartsWith(h, "date_copyrighted" + "_") then DateColumn(h, "date_copyrighted")
    else if StartsWith(h, "date_valid" + "_") then DateColumn(h, "date_valid")
    else if h == "resource_type" then Repeated(h)
    else if IsTypeHeader(h) then TypeOf(StripType(h))
    else if h == "contributor" then Contributor(h)
    else if StartsWith(h, "collection_") then CollectionField("collection", h[11..])
    else Plain(h)
  }

  /** The date headers: which key each prefix feeds, and the field that the rest names. */
  lemma DateHeaders(rest: string)
    ensures Classify("created_" + rest) == DateField("created_attributes", rest)
    ensures Classify("issued_" + rest) == DateField("issued_attributes", rest)
    ensures Classify("date_copyrighted_" + rest) == DateField("date_copyrighted_attributes", rest)
    ensures Classify("date_valid_" + rest) == DateField("date_valid_attributes", rest)
  {
    hide Classify;
    DateHeader("created", rest);
    DateHeader("issued", rest);
    DateHeader("date_copyrighted", rest);
    DateHeader("date_valid", rest);
    assert "created" + "_" == "created_" && "issued" + "_" == "issued_";
    assert "date_copyrighted" + "_" == "date_copyrighted_" && "date_valid" + "_" == "date_valid_";
    assert "created" + "_attributes" == "created_attributes" && "issued" + "_attributes" == "issued_attributes";
    assert "date_copyrighted" + "_attributes" == "date_copyrighted_attributes";
    assert "date_valid" + "_attributes" == "date_valid_attributes";
  }

  lemma DateHeader(prefix: string, rest: string)
    requires prefix == "created" || prefix == "issued" || prefix == "date_copyrighted" || prefix == "date_valid"
    ensures Classify(prefix + "_" + rest) == DateField(prefix + "_attributes", rest)
  {
    var h := prefix + "_" + rest;
    assert h[..|prefix| + 1] == prefix + "_" && h[|prefix| + 1..] == rest;
    assert forall i | 0 <= i <= |prefix| :: h[i] == (prefix + "_")[i];
    assert |h| >= 8 ==> h[..8][0] == h[0] && h[..8][1] == h[1];
    assert h[..7][0] == h[0] && h[..7][1] == h[1];
    assert |h| >= 17 ==> h[..17][5] == h[5] && h[..17][0] == h[0];
  }

  /** A type header belongs to the field that it is made of, unless that has the suffix inside it. */
  lemma {:induction false} TypeHeaderOf(field: string)
    requires forall i: nat :: !OccursAt(field, TYPE_SUFFIX, i)
    ensures IsTypeHeader(field + TYPE_SUFFIX) && StripType(field + TYPE_SUFFIX) == field
  {
    var h := field + TYPE_SUFFIX;
    assert h[|field|..] == TYPE_SUFFIX;
    if field == "" {
      assert h == TYPE_SUFFIX && h[..5] == TYPE_SUFFIX && h[5..] == "";
    } else {
      assert h[1..] == field[1..] + TYPE_SUFFIX;
      forall i: nat ensures !OccursAt(field[1..], TYPE_SUFFIX, i) {
        assert !OccursAt(field, TYPE_SUFFIX, i + 1);
        if i + 1 + 5 <= |field| {
          assert field[1..][i..i + 5] == field[i + 1..i + 1 + 5];
        }
      }
      TypeHeaderOf(field[1..]);
      assert !OccursAt(field, TYPE_SUFFIX, 0);
      NoSuffixInFront(field);
    }
  }

  lemma NoSuffixInFront(field: string)
    requires field != "" && !OccursAt(field, TYPE_SUFFIX, 0)
    ensures (field + TYPE_SUFFIX)[..5] != TYPE_SUFFIX
  {
    var start := (field + TYPE_SUFFIX)[..5];
    if |field| < 5 {
      assert start[|field|] == '_' && TYPE_SUFFIX[|field|] != '_';
    } else {
      assert start == field[0..5];
    }
  }

  // ---------- values ----------

  datatype Entry = Text(text: string) | Typed(kind: string, name: Option<string>) | Named(person: string)

  datatype Field = One(text: string) | Many(texts: seq<string>)

  datatype Value =
    | Single(text: string)
    | Entries(entries: seq<Entry>)
    | Dates(dates: map<string, seq<string>>)
    | Fields(fields: map<string, Field>)

  type Processed = map<string, Value>

  function RemoveReturns(s: string): string {
    if s == "" then "" else (if s[0] == '\r' then "" else [s[0]]) + RemoveReturns(s[1..])
  }

  /** A multi-value cell is stripped and loses its carriage returns. */
  function Clean(s: string): string {
    RemoveReturns(Trim(s))
  }

  function Concat(pieces: seq<string>): string {
    if pieces == [] then "" else pieces[0] + Concat(pieces[1..])
  }

  lemma {:induction false} ReturnsSplit(s: string)
    ensures RemoveReturns(s) == Concat(Split(s, '\r')) && Lacks(RemoveReturns(s), '\r')
  {
    if s == "" {
      assert Concat([""]) == "" + Concat([""][1..]);
    } else {
      ReturnsSplit(s[1..]);
      var rest := Split(s[1..], '\r');
      assert ([""] + rest)[1..] == rest;
      assert ([[s[0]] + rest[0]] + rest[1..])[1..] == rest[1..];
    }
  }

  /** `text` is what the pieces of `core` between its carriage returns make together. */
  ghost predicate Cleaned(cell: string, text: string) {
    exists core :: Stripped(cell, core) && text == Concat(Split(core, '\r'))
  }

  /** A cleaned cell is the stripped one without carriage returns, with every other character in its place. */
  lemma CleanExactly(cell: string, text: string)
    ensures Cleaned(cell, text) <==> text == Clean(cell)
    ensures Lacks(Clean(cell), '\r')
    ensures Stripped(cell, cell) && Lacks(cell, '\r') ==> Clean(cell) == cell
  {
    TrimExactly(cell, Trim(cell));
    ReturnsSplit(Trim(cell));
    forall core | Stripped(cell, core) ensures core == Trim(cell) {
      TrimExactly(cell, core);
    }
    if Lacks(cell, '\r') {
      SplitLacking(cell, '\r');
      assert Concat([cell]) == cell + Concat([cell][1..]);
    }
  }

  predicate AwaitsName(es: seq<Entry>) {
    es != [] && es[|es| - 1].Typed? && es[|es| - 1].name.None?
  }

  /** The columns whose key holds a list of entries. */
  predicate IsListColumn(c: Column) {
    c.Repeated? || c.TypeOf? || c.Contributor? || c.Plain?
  }

  function AddEntry(es: seq<Entry>, c: Column, cell: string): seq<Entry>
    requires IsListColumn(c)
  {
    match c
    case TypeOf(_) => es + [Typed(cell, None)]
    case Contributor(_) => es + [Named(Trim(cell))]
    case Repeated(_) => es + [Text(Clean(cell))]
    case Plain(_) =>
      if AwaitsName(es) then es[..|es| - 1] + [es[|es| - 1].(name := Some(cell))]
      else es + [Text(Clean(cell))]
  }

  function CollectionValue(field: string, cell: string): Field {
    if field == "admin_policy_id" || field == "id" then One(cell) else Many([cell])
  }

  /** One non-nil cell, added to what its key holds so far; `Err` stands for a `TypeError` or `NoMethodError`. */
  function AddCell(v: Option<Value>, c: Column, cell: string): Result<Value, ()> {
    match c
    case Singular(_) => Ok(Single(cell))
    case DateField(_, field) =>
      if v.None? then Ok(Dates(map[field := [cell]]))
      else if v.value.Dates? then
        var m := v.value.dates;
        Ok(Dates(m[field := (if field in m then m[field] else []) + [cell]]))
      else Err(())
    case CollectionField(_, field) =>
      if v.None? then Ok(Fields(map[field := CollectionValue(field, cell)]))
      else if v.value.Fields? then Ok(Fields(v.value.fields[field := CollectionValue(field, cell)]))
      else Err(())
    case _ =>
      if v.None? then Ok(Entries(AddEntry([], c, cell)))
      else if v.value.Entries? then Ok(Entries(AddEntry(v.value.entries, c, cell)))
      else Err(())
  }

  function Lookup(p: Processed, key: string): Option<Value> {
    if key in p then Some(p[key]) else None
  }

  function ExtractField(p: Processed, header: string, cell: Option<string>): Result<Processed, ()> {
    if cell.None? then Ok(p)
    else
      var c := Classify(header);
      var v := AddCell(Lookup(p, c.key), c, cell.value);
      if v.Ok? then Ok(p[c.key := v.value]) else Err(())
  }

  /** A row may be shorter than the header row. */
  function CellAt(row: seq<Option<string>>, i: nat): Option<string> {
    if i < |row| then row[i] else None
  }

  /** The first `n` columns of a row, extracted one after the other. */
  function Extract(headers: seq<string>, row: seq<Option<string>>, n: nat): Result<Processed, ()>
    requires n <= |headers|
  {
    if n == 0 then Ok(map[])
    else
      var p := Extract(headers, row, n - 1);
      if p.Err? then p else ExtractField(p.value, headers[n - 1], CellAt(row, n - 1))
  }

  function Attributes(headers: seq<string>, row: seq<Option<string>>): Result<Processed, ()> {
    Extract(headers, row, |headers|)
  }

  class RowParser {
    var processed: Processed

    constructor ()
      ensures processed == map[]
    {
      processed := map[];
    }

    method ExtractCell(header: string, val: Option<string>) returns (raised: bool)
      modifies this
      ensures raised <==> ExtractField(old(processed), header, val).Err?
      ensures processed == if raised then old(processed) else ExtractField(old(processed), header, val).value
    {
      if val.None? {
        return false;
      }
      var column := Classify(header);
      var value := AddCell(Lookup(processed, column.key), column, val.value);
      if value.Err? {
        return true;
      }
      processed := processed[column.key := value.value];
      return false;
    }

    method ExtractRow(headers: seq<string>, row: seq<Option<string>>) returns (raised: bool)
      requires processed == map[]
      modifies this
      ensures raised <==> Attributes(headers, row).Err?
      ensures !raised ==> processed == Attributes(headers, row).value
    {
      hide ExtractField, CellAt;
      var index := 0;
      while index < |headers|
        invariant 0 <= index <= |headers|
        invariant Extract(headers, row, index) == Ok(processed)
      {
        raised := ExtractCell(headers[index], CellAt(row, index));
        if raised {
          RaisingStops(headers, row, index + 1, |headers|);
          return;
        }
        index := index + 1;
      }
      return false;
    }
  }

  lemma {:induction false} RaisingStops(headers: seq<string>, row: seq<Option<string>>, n: nat, m: nat)
    requires n <= m <= |headers| && Extract(headers, row, n).Err?
    ensures Extract(headers, row, m).Err?
  {
    if n < m {
      RaisingStops(headers, row, n, m - 1);
    }
  }

  // ---------- each key on its own ----------

  /** The non-nil cells of the columns that feed `key`, in column order. */
  function CellsOf(key: string, headers: seq<string>, row: seq<Option<string>>, n: nat): seq<(Column, string)>
    requires n <= |headers|
  {
    if n == 0 then []
    else
      var cell := CellAt(row, n - 1);
      CellsOf(key, headers, row, n - 1) +
      (if cell.Some? && Classify(headers[n - 1]).key == key then [(Classify(headers[n - 1]), cell.value)] else [])
  }

  /** Folding the cells of one key, without any other key around. */
  function FoldCells(cs: seq<(Column, string)>): Result<Option<Value>, ()> {
    if cs == [] then Ok(None)
    else
      var n := |cs| - 1;
      var v := FoldCells(cs[..n]);
      if v.Err? then v
      else
        var w := AddCell(v.value, cs[n].0, cs[n].1);
        if w.Ok? then Ok(Some(w.value)) else Err(())
  }

  function FoldKey(key: string, headers: seq<string>, row: seq<Option<string>>, n: nat): Result<Option<Value>, ()>
    requires n <= |headers|
  {
    FoldCells(CellsOf(key, headers, row, n))
  }

  lemma FoldSnoc(cs: seq<(Column, string)>, c: (Column, string))
    ensures FoldCells(cs + [c]) ==
            var v := FoldCells(cs);
            if v.Err? then v
            else var w := AddCell(v.value, c.0, c.1); if w.Ok? then Ok(Some(w.value)) else Err(())
  {
    assert (cs + [c])[..|cs|] == cs;
  }

  lemma FoldKeyStep(key: string, headers: seq<string>, row: seq<Option<string>>, n: nat)
    requires 0 < n <= |headers|
    ensures var column, cell := Classify(headers[n - 1]), CellAt(row, n - 1);
            FoldKey(key, headers, row, n) ==
            var v := FoldKey(key, headers, row, n - 1);
            if v.Err? || cell.None? || column.key != key then v
            else var w := AddCell(v.value, column, cell.value); if w.Ok? then Ok(Some(w.value)) else Err(())
  {
    var column, cell := Classify(headers[n - 1]), CellAt(row, n - 1);
    var before := CellsOf(key, headers, row, n - 1);
    if cell.Some? && column.key == key {
      FoldSnoc(before, (column, cell.value));
    } else {
      assert before + [] == before;
    }
  }

  /** The hash after the first `n` columns holds under `key` what the key's own cells fold to. */
  lemma {:induction false} KeyIsIndependent(headers: seq<string>, row: seq<Option<string>>, n: nat, key: string)
    requires n <= |headers| && Extract(headers, row, n).Ok?
    ensures FoldKey(key, headers, row, n) == Ok(Lookup(Extract(headers, row, n).value, key))
  {
    if n > 0 {
      KeyIsIndependent(headers, row, n - 1, key);
      FoldKeyStep(key, headers, row, n);
    }
  }

  lemma {:induction false} RaisingKey(headers: seq<string>, row: seq<Option<string>>, n: nat) returns (key: string)
    requires n <= |headers| && Extract(headers, row, n).Err?
    ensures FoldKey(key, headers, row, n).Err?
  {
    if Extract(headers, row, n - 1).Err? {
      key := RaisingKey(headers, row, n - 1);
    } else {
      key := Classify(headers[n - 1]).key;
      KeyIsIndependent(headers, row, n - 1, key);
    }
    FoldKeyStep(key, headers, row, n);
  }

  /**
   * Columns do not interfere: a row is extracted without an error exactly when every key's own cells
   * fold without one, and then each key holds what its own cells, in column order, fold to.
   */
  lemma KeysAreIndependent(headers: seq<string>, row: seq<Option<string>>)
    ensures Attributes(headers, row).Ok? <==> forall key :: FoldKey(key, headers, row, |headers|).Ok?
    ensures Attributes(headers, row).Ok? ==>
              forall key :: FoldKey(key, headers, row, |headers|) == Ok(Lookup(Attributes(headers, row).value, key))
  {
    if Attributes(headers, row).Ok? {
      forall key ensures FoldKey(key, headers, row, |headers|) == Ok(Lookup(Attributes(headers, row).value, key)) {
        KeyIsIndependent(headers, row, |headers|, key);
      }
    } else {
      var key := RaisingKey(headers, row, |headers|);
    }
  }

  // ---------- headers that pass validation ----------

  /** A type header that the header of its field does not follow. */
  predicate PairFails(headers: seq<string>, i: nat)
    requires i < |headers|
  {
    headers[i] != "resource_type" && IsTypeHeader(headers[i])
    && !(i + 1 < |headers| && headers[i + 1] == StripType(headers[i]))
  }

  predicate PairsMatch(headers: seq<string>) {
    forall i | 0 <= i < |headers| :: !PairFails(headers, i)
  }

  /** `attributes` are the attribute names of `GenericWork`. */
  predicate Known(h: string, attributes: set<string>) {
    || h in attributes || IsTypeHeader(h)
    || h == "id" || h == "type" || h == "file"
    || h == "collection_id" || h == "collection_title" || h == "collection_accession_number"
  }

  /** What header validation accepts. */
  predicate Validated(headers: seq<string>, attributes: set<string>) {
    PairsMatch(headers) && forall h | h in headers :: Known(h, attributes)
  }

  datatype HeaderError = InvalidHeaders(unknown: seq<string>) | UnpairedHeaders(unpaired: seq<string>)

  const FIXED_HEADERS := ["id", "type", "file", "collection_id", "collection_title", "collection_accession_number"]

  const DATE_PREFIXES := ["created", "issued", "date_copyrighted", "date_valid"]

  /** A key under which the `created_`, `issued_`, `date_copyrighted_` or `date_valid_` columns collect. */
  predicate IsDateKey(key: string) {
    exists prefix | prefix in DATE_PREFIXES :: key == prefix + "_attributes"
  }

  lemma DateKeyEnds(key: string)
    requires IsDateKey(key)
    ensures |key| >= 17 && key[|key| - 1] == 's' && !IsTypeHeader(key)
  {
    var prefix :| prefix in DATE_PREFIXES && key == prefix + "_attributes";
    assert |prefix| >= 6;
    assert key[|key| - 1] == "_attributes"[10];
    assert key[|key| - 5..][4] == key[|key| - 1];
  }

  lemma FixedHeadersEnd(h: string, attributes: set<string>)
    requires h != "" && h[|h| - 1] == 's' && Known(h, attributes)
    ensures h in attributes || IsTypeHeader(h)
  {
  }

  lemma DateKeyIsDate(key: string)
    requires IsDateKey(key)
    ensures Classify(key).DateField?
  {
    var prefix :| prefix in DATE_PREFIXES && key == prefix + "_attributes";
    assert key[..|prefix| + 1] == prefix + "_";
    DateKeyEnds(key);
  }

  /** Where the columns that hold no list put their cells. */
  lemma OtherKeys(h: string)
    ensures Classify(h).Singular? ==> Classify(h).key == h
    ensures Classify(h).CollectionField? ==> Classify(h).key == "collection"
    ensures Classify(h).DateField? ==> IsDateKey(Classify(h).key)
  {
    if Classify(h).DateField? {
      var prefix := if StartsWith(h, "created" + "_") then "created"
                    else if StartsWith(h, "issued" + "_") then "issued"
                    else if StartsWith(h, "date_copyrighted" + "_") then "date_copyrighted" else "date_valid";
      assert DATE_PREFIXES[0] == "created" && DATE_PREFIXES[1] == "issued";
      assert DATE_PREFIXES[2] == "date_copyrighted" && DATE_PREFIXES[3] == "date_valid";
      assert prefix in DATE_PREFIXES && Classify(h).key == prefix + "_attributes";
    }
  }

  /** No type header is aimed at a date key. */
  predicate DatesUntyped(headers: seq<string>) {
    forall i | 0 <= i < |headers| :: Classify(headers[i]).TypeOf? ==> !IsDateKey(Classify(headers[i]).key)
  }

  /** Validation sees to that: the field of such a header is no attribute. */
  lemma ValidatedDatesUntyped(headers: seq<string>, attributes: set<string>)
    requires Validated(headers, attributes) && forall h | h in attributes :: !IsDateKey(h)
    ensures DatesUntyped(headers)
  {
    forall i | 0 <= i < |headers| && Classify(headers[i]).TypeOf? ensures !IsDateKey(Classify(headers[i]).key) {
      assert !PairFails(headers, i);
      assert Known(headers[i + 1], attributes);
      if IsDateKey(headers[i + 1]) {
        DateKeyEnds(headers[i + 1]);
        FixedHeadersEnd(headers[i + 1], attributes);
      }
    }
  }

  // ---------- when extraction raises ----------

  datatype Shape = SingleShape | EntriesShape | DatesShape | FieldsShape

  function ShapeOf(c: Column): Shape {
    if c.Singular? then SingleShape
    else if c.DateField? then DatesShape
    else if c.CollectionField? then FieldsShape
    else EntriesShape
  }

  function ValueShape(v: Value): Shape {
    match v
    case Single(_) => SingleShape
    case Entries(_) => EntriesShape
    case Dates(_) => DatesShape
    case Fields(_) => FieldsShape
  }

  /** A cell meets a value of another shape under its key, and does not simply replace it. */
  predicate Clashes(cs: seq<(Column, string)>, j: int) {
    0 < j < |cs| && ShapeOf(cs[j].0) != ShapeOf(cs[j - 1].0) && !cs[j].0.Singular?
  }

  lemma AddCellShape(v: Option<Value>, c: Column, cell: string)
    ensures AddCell(v, c, cell).Ok? <==> v.None? || c.Singular? || ValueShape(v.value) == ShapeOf(c)
    ensures AddCell(v, c, cell).Ok? ==> ValueShape(AddCell(v, c, cell).value) == ShapeOf(c)
  {
  }

  /** Folding the cells of a key raises exactly when some cell clashes with the one before it. */
  lemma {:induction false} FoldRaisesExactly(cs: seq<(Column, string)>)
    ensures FoldCells(cs).Err? <==> exists j :: Clashes(cs, j)
    ensures FoldCells(cs).Ok? && cs != [] ==>
              FoldCells(cs).value.Some? && ValueShape(FoldCells(cs).value.value) == ShapeOf(cs[|cs| - 1].0)
  {
    if cs != [] {
      hide AddCell;
      var n := |cs| - 1;
      FoldRaisesExactly(cs[..n]);
      if FoldCells(cs[..n]).Ok? {
        AddCellShape(FoldCells(cs[..n]).value, cs[n].0, cs[n].1);
      }
      if j :| Clashes(cs[..n], j) {
        assert Clashes(cs, j);
      }
      if j :| Clashes(cs, j) && j < n {
        assert Clashes(cs[..n], j);
      }
      assert n > 0 ==> cs[..n][n - 1] == cs[n - 1];
      assert Clashes(cs, n) <==> n > 0 && ShapeOf(cs[n].0) != ShapeOf(cs[n - 1].0) && !cs[n].0.Singular?;
    }
  }

  /** Two successive cells of the key clash. */
  ghost predicate KeyClashes(key: string, headers: seq<string>, row: seq<Option<string>>) {
    exists j :: Clashes(CellsOf(key, headers, row, |headers|), j)
  }

  /** A row raises exactly when the cells of some key clash. */
  lemma ExtractionRaisesExactly(headers: seq<string>, row: seq<Option<string>>)
    requires DatesUntyped(headers)
    ensures Attributes(headers, row).Err? <==> exists key :: KeyClashes(key, headers, row)
  {
    KeysAreIndependent(headers, row);
    forall key ensures FoldKey(key, headers, row, |headers|).Err? <==> KeyClashes(key, headers, row) {
      FoldRaisesExactly(CellsOf(key, headers, row, |headers|));
    }
    if Attributes(headers, row).Err? {
      var key := RaisingKey(headers, row, |headers|);
      assert KeyClashes(key, headers, row);
    }
  }

  // ---------- every cell lands ----------

  function EntryLeaves(e: Entry): seq<string> {
    match e
    case Text(t) => [t]
    case Named(t) => [t]
    case Typed(kind, name) => if name.Some? then [kind, name.value] else [kind]
  }

  function Leaves(es: seq<Entry>): seq<string> {
    if es == [] then [] else Leaves(es[..|es| - 1]) + EntryLeaves(es[|es| - 1])
  }

  predicate ListColumns(cs: seq<(Column, string)>) {
    forall i | 0 <= i < |cs| :: IsListColumn(cs[i].0)
  }

  function FoldEntries(cs: seq<(Column, string)>): seq<Entry>
    requires ListColumns(cs)
  {
    if cs == [] then [] else AddEntry(FoldEntries(cs[..|cs| - 1]), cs[|cs| - 1].0, cs[|cs| - 1].1)
  }

  lemma {:induction false} ListsFold(cs: seq<(Column, string)>)
    requires ListColumns(cs)
    ensures FoldCells(cs) == Ok(if cs == [] then None else Some(Entries(FoldEntries(cs))))
  {
    if cs != [] {
      ListsFold(cs[..|cs| - 1]);
    }
  }

  function LeafAdded(es: seq<Entry>, c: Column, cell: string): string
    requires IsListColumn(c)
  {
    match c
    case TypeOf(_) => cell
    case Contributor(_) => Trim(cell)
    case Repeated(_) => Clean(cell)
    case Plain(_) => if AwaitsName(es) then cell else Clean(cell)
  }

  lemma AddedLeaf(es: seq<Entry>, c: Column, cell: string)
    requires IsListColumn(c)
    ensures Leaves(AddEntry(es, c, cell)) == Leaves(es) + [LeafAdded(es, c, cell)]
  {
    var after := AddEntry(es, c, cell);
    var n := |after| - 1;
    if c.Plain? && AwaitsName(es) {
      assert after[..n] == es[..n];
      assert Leaves(es) == Leaves(es[..n]) + [es[n].kind];
    } else {
      assert after[..n] == es;
    }
  }

  /** A name is awaited exactly after a type cell. */
  lemma AwaitsExactly(cs: seq<(Column, string)>)
    requires ListColumns(cs)
    ensures AwaitsName(FoldEntries(cs)) <==> cs != [] && cs[|cs| - 1].0.TypeOf?
  {
  }

  /** The leaf a cell becomes: cleaned, except that a field's cell right after a type cell is taken as it is. */
  function LeafOf(cs: seq<(Column, string)>, i: nat): string
    requires i < |cs| && ListColumns(cs)
  {
    var (c, cell) := cs[i];
    match c
    case TypeOf(_) => cell
    case Contributor(_) => Trim(cell)
    case Repeated(_) => Clean(cell)
    case Plain(_) => if i > 0 && cs[i - 1].0.TypeOf? then cell else Clean(cell)
  }

  lemma NoLeaves()
    ensures Leaves([]) == []
  {
  }

  /** Under a list key every non-nil cell lands in exactly one leaf, and the leaves keep column order. */
  lemma {:induction false} EveryCellLands(cs: seq<(Column, string)>)
    requires ListColumns(cs)
    ensures Leaves(FoldEntries(cs)) == seq(|cs|, i requires 0 <= i < |cs| => LeafOf(cs, i))
  {
    hide AddEntry, Leaves, Clean, Trim;
    if cs == [] {
      NoLeaves();
    } else {
      var n := |cs| - 1;
      var before := cs[..n];
      EveryCellLands(before);
      AddedLeaf(FoldEntries(before), cs[n].0, cs[n].1);
      AwaitsExactly(before);
      assert LeafAdded(FoldEntries(before), cs[n].0, cs[n].1) == LeafOf(cs, n);
      assert forall i | 0 <= i < n :: before[i] == cs[i] && LeafOf(before, i) == LeafOf(cs, i);
    }
  }

  /** The entry that a cell makes on its own. */
  function Alone(c: Column, cell: string): Entry
    requires IsListColumn(c)
  {
    match c
    case TypeOf(_) => Typed(cell, None)
    case Contributor(_) => Named(Trim(cell))
    case _ => Text(Clean(cell))
  }

  predicate StartsPair(cs: seq<(Column, string)>) {
    |cs| > 1 && cs[0].0.TypeOf? && cs[1].0.Plain?
  }

  /** The entries of a list key, said without a fold: a type cell takes the field's cell right after it, if any. */
  function Grouped(cs: seq<(Column, string)>): seq<Entry>
    requires ListColumns(cs)
    decreases |cs|
  {
    if cs == [] then []
    else if StartsPair(cs) then [Typed(cs[0].1, Some(cs[1].1))] + Grouped(cs[2..])
    else [Alone(cs[0].0, cs[0].1)] + Grouped(cs[1..])
  }

  lemma AddBehind(e: Entry, es: seq<Entry>, c: Column, cell: string)
    requires IsListColumn(c) && (es == [] ==> !AwaitsName([e]) || !c.Plain?)
    ensures AddEntry([e] + es, c, cell) == [e] + AddEntry(es, c, cell)
  {
    hide Clean;
    var all := [e] + es;
    if es != [] {
      assert all[|all| - 1] == es[|es| - 1] && all[..|all| - 1] == [e] + es[..|es| - 1];
    }
  }

  lemma {:induction false} GroupedSnoc(cs: seq<(Column, string)>, last: (Column, string))
    requires ListColumns(cs) && IsListColumn(last.0)
    ensures ListColumns(cs + [last])
    ensures Grouped(cs + [last]) == AddEntry(Grouped(cs), last.0, last.1)
    decreases |cs|
  {
    hide Clean, Trim;
    var all := cs + [last];
    if cs == [] {
      assert all[1..] == [];
    } else if StartsPair(cs) {
      assert all[2..] == cs[2..] + [last];
      GroupedSnoc(cs[2..], last);
      AddBehind(Typed(cs[0].1, Some(cs[1].1)), Grouped(cs[2..]), last.0, last.1);
    } else if |cs| == 1 && StartsPair(all) {
      assert all[2..] == [] && cs[1..] == [];
    } else {
      assert all[1..] == cs[1..] + [last];
      GroupedSnoc(cs[1..], last);
      AddBehind(Alone(cs[0].0, cs[0].1), Grouped(cs[1..]), last.0, last.1);
    }
  }

  /** Filling the hash in place gives exactly that grouping. */
  lemma {:induction false} FoldIsGrouping(cs: seq<(Column, string)>)
    requires ListColumns(cs)
    ensures FoldEntries(cs) == Grouped(cs)
  {
    hide AddEntry, Grouped;
    if cs != [] {
      var n := |cs| - 1;
      FoldIsGrouping(cs[..n]);
      GroupedSnoc(cs[..n], cs[n]);
      assert cs[..n] + [cs[n]] == cs;
    } else {
      GroupedNothing();
    }
  }

  lemma GroupedNothing()
    ensures Grouped([]) == []
  {
  }

  function DateTexts(cs: seq<(Column, string)>, field: string): seq<string> {
    if cs == [] then []
    else
      var n := |cs| - 1;
      DateTexts(cs[..n], field) + (if cs[n].0.DateField? && cs[n].0.field == field then [cs[n].1] else [])
  }

  /** Under a date key every cell lands in the list of its own field, in column order. */
  lemma {:induction false} EveryDateLands(cs: seq<(Column, string)>)
    requires cs != [] && forall i | 0 <= i < |cs| :: cs[i].0.DateField?
    ensures FoldCells(cs).Ok? && FoldCells(cs).value.Some? && FoldCells(cs).value.value.Dates?
    ensures var m := FoldCells(cs).value.value.dates;
            forall field :: (if field in m then m[field] else []) == DateTexts(cs, field)
  {
    var n := |cs| - 1;
    if n > 0 {
      EveryDateLands(cs[..n]);
    } else {
      assert cs[..0] == [];
    }
  }

  function LastOf(cs: seq<(Column, string)>, field: string): Option<string> {
    if cs == [] then None
    else
      var n := |cs| - 1;
      if cs[n].0.CollectionField? && cs[n].0.field == field then Some(cs[n].1) else LastOf(cs[..n], field)
  }

  /** Collection fields keep only the last cell: repeating one of these headers loses the earlier cell. */
  lemma {:induction false} LastCollectionCellWins(cs: seq<(Column, string)>)
    requires cs != [] && forall i | 0 <= i < |cs| :: cs[i].0.CollectionField?
    ensures FoldCells(cs).Ok? && FoldCells(cs).value.Some? && FoldCells(cs).value.value.Fields?
    ensures var m := FoldCells(cs).value.value.fields;
            forall field :: (field in m <==> LastOf(cs, field).Some?) &&
                            (field in m ==> var cell := LastOf(cs, field).value;
                                            m[field] == if field == "id" || field == "admin_policy_id" then One(cell) else Many([cell]))
  {
    var n := |cs| - 1;
    if n > 0 {
      LastCollectionCellWins(cs[..n]);
    } else {
      assert cs[..0] == [];
    }
  }

  /** So do `id` and `type`, whatever their keys held before. */
  lemma LastSingularCellWins(cs: seq<(Column, string)>)
    requires cs != [] && cs[|cs| - 1].0.Singular? && FoldCells(cs[..|cs| - 1]).Ok?
    ensures FoldCells(cs) == Ok(Some(Single(cs[|cs| - 1].1)))
  {
  }

  // ---------- typed pairs ----------

  predicate Complete(e: Entry) {
    e.Typed? ==> e.name.Some?
  }

  lemma AddEntryKeeps(es: seq<Entry>, c: Column, cell: string, k: nat)
    requires IsListColumn(c) && k < |es| && Complete(es[k])
    ensures k < |AddEntry(es, c, cell)| && AddEntry(es, c, cell)[k] == es[k]
  {
    hide Clean;
  }

  /** An entry that is complete stays as it is. */
  lemma {:induction false} CompleteEntriesStay(cs: seq<(Column, string)>, n: nat, k: nat)
    requires ListColumns(cs) && n <= |cs|
    requires ListColumns(cs[..n]) && k < |FoldEntries(cs[..n])| && Complete(FoldEntries(cs[..n])[k])
    ensures k < |FoldEntries(cs)| && FoldEntries(cs)[k] == FoldEntries(cs[..n])[k]
    decreases |cs|
  {
    hide AddEntry;
    if n == |cs| {
      assert cs[..n] == cs;
    } else {
      var m := |cs| - 1;
      var before := cs[..m];
      assert before[..n] == cs[..n];
      CompleteEntriesStay(before, n, k);
      AddEntryKeeps(FoldEntries(before), cs[m].0, cs[m].1, k);
    }
  }

  /** A type cell and the field's cell right after it make one entry, wherever they stand in the row. */
  lemma PairMakesOneEntry(cs: seq<(Column, string)>, p: nat)
    requires ListColumns(cs) && p + 1 < |cs|
    requires cs[p].0.TypeOf? && cs[p + 1].0.Plain?
    ensures ListColumns(cs[..p])
    ensures var k := |FoldEntries(cs[..p])|;
            k < |FoldEntries(cs)| && FoldEntries(cs)[k] == Typed(cs[p].1, Some(cs[p + 1].1))
  {
    var es := FoldEntries(cs[..p]);
    assert cs[..p + 1][..p] == cs[..p] && cs[..p + 2][..p + 1] == cs[..p + 1];
    assert FoldEntries(cs[..p + 1]) == es + [Typed(cs[p].1, None)];
    assert FoldEntries(cs[..p + 2]) == es + [Typed(cs[p].1, Some(cs[p + 1].1))];
    CompleteEntriesStay(cs, p + 2, |es|);
  }

  lemma {:induction false} CellsGrow(key: string, headers: seq<string>, row: seq<Option<string>>, n: nat, m: nat)
    requires n <= m <= |headers|
    ensures CellsOf(key, headers, row, n) <= CellsOf(key, headers, row, m)
  {
    hide Classify;
    if n < m {
      CellsGrow(key, headers, row, n, m - 1);
    }
  }

  /** The keys that hold lists: contributors, resource types, and what the default branch fills. */
  predicate ListKey(key: string) {
    key == "contributor" || key == "resource_type" || (Classify(key).Plain? && key != "collection")
  }

  /** Only the key's own header and its type headers feed it, and they are list columns. */
  lemma ListKeyColumn(key: string, h: string)
    requires ListKey(key) && Classify(h).key == key
    ensures IsListColumn(Classify(h)) && (h == key || (IsTypeHeader(h) && StripType(h) == key))
  {
    OtherKeys(h);
    if Classify(h).DateField? {
      DateKeyIsDate(key);
      DateKeyEnds(key);
    }
  }

  lemma {:induction false} ListKeyColumns(key: string, headers: seq<string>, row: seq<Option<string>>, n: nat)
    requires n <= |headers| && ListKey(key)
    ensures ListColumns(CellsOf(key, headers, row, n))
  {
    hide Classify, ListKey;
    if n > 0 {
      ListKeyColumns(key, headers, row, n - 1);
      if Classify(headers[n - 1]).key == key {
        ListKeyColumn(key, headers[n - 1]);
      }
    }
  }

  /**
   * What a row puts under a list key: nothing when the key has no cells, otherwise the grouping of its
   * own cells in column order, with one leaf for every one of them.
   */
  lemma ListKeyHolds(headers: seq<string>, row: seq<Option<string>>, key: string)
    requires Attributes(headers, row).Ok? && ListKey(key)
    ensures ListColumns(CellsOf(key, headers, row, |headers|))
    ensures var cs := CellsOf(key, headers, row, |headers|);
            && Lookup(Attributes(headers, row).value, key) == (if cs == [] then None else Some(Entries(Grouped(cs))))
            && Leaves(Grouped(cs)) == seq(|cs|, i requires 0 <= i < |cs| => LeafOf(cs, i))
  {
    hide ListKey, Grouped, LeafOf;
    var cs := CellsOf(key, headers, row, |headers|);
    ListKeyColumns(key, headers, row, |headers|);
    KeysAreIndependent(headers, row);
    assert FoldKey(key, headers, row, |headers|) == Ok(Lookup(Attributes(headers, row).value, key));
    ListsFold(cs);
    FoldIsGrouping(cs);
    EveryCellLands(cs);
  }

  /** A cell in a column of a list key becomes the leaf whose number is how many of the key's cells precede it. */
  lemma CellBecomesLeaf(headers: seq<string>, row: seq<Option<string>>, i: nat)
    requires Attributes(headers, row).Ok? && i < |headers| && CellAt(row, i).Some? && ListKey(Classify(headers[i]).key)
    ensures var key := Classify(headers[i]).key;
            var cs, p := CellsOf(key, headers, row, |headers|), |CellsOf(key, headers, row, i)|;
            && ListColumns(cs) && p < |cs| && cs[p] == (Classify(headers[i]), CellAt(row, i).value)
            && Lookup(Attributes(headers, row).value, key) == Some(Entries(Grouped(cs)))
            && |Leaves(Grouped(cs))| == |cs| && BecomesLeaf(cs, p, Leaves(Grouped(cs))[p])
  {
    hide Classify, ListKey, Grouped, LeafOf, Leaves, BecomesLeaf;
    var key := Classify(headers[i]).key;
    ListKeyHolds(headers, row, key);
    CellsGrow(key, headers, row, i + 1, |headers|);
    LeafIsBecome(CellsOf(key, headers, row, |headers|), |CellsOf(key, headers, row, i)|);
  }

  /**
   * What the cell becomes: the cell itself when it is a type, or a field's cell right after a type;
   * otherwise stripped, and for other columns than contributors without its carriage returns.
   */
  ghost predicate BecomesLeaf(cs: seq<(Column, string)>, p: nat, leaf: string)
    requires p < |cs|
  {
    var (c, cell) := cs[p];
    if c.TypeOf? || (c.Plain? && p > 0 && cs[p - 1].0.TypeOf?) then leaf == cell
    else if c.Contributor? then Stripped(cell, leaf)
    else Cleaned(cell, leaf)
  }

  lemma LeafIsBecome(cs: seq<(Column, string)>, p: nat)
    requires p < |cs| && ListColumns(cs)
    ensures BecomesLeaf(cs, p, LeafOf(cs, p))
  {
    hide Clean, Trim, Stripped, Cleaned;
    TrimExactly(cs[p].1, Trim(cs[p].1));
    CleanExactly(cs[p].1, Clean(cs[p].1));
  }

  lemma PairKeys(headers: seq<string>, i: nat)
    requires PairsMatch(headers) && i < |headers| && Classify(headers[i]).TypeOf?
    requires i + 1 < |headers| ==> Classify(headers[i + 1]).Plain? && headers[i + 1] != "collection"
    ensures i + 1 < |headers| && headers[i + 1] == StripType(headers[i]) == Classify(headers[i]).key
    ensures ListKey(headers[i + 1]) && Classify(headers[i + 1]) == Plain(headers[i + 1])
  {
    hide StripType, EndsWith;
    assert !PairFails(headers, i);
  }

  lemma NextPlace(key: string, headers: seq<string>, row: seq<Option<string>>, i: nat)
    requires i < |headers| && CellAt(row, i).Some? && Classify(headers[i]).key == key
    ensures |CellsOf(key, headers, row, i + 1)| == |CellsOf(key, headers, row, i)| + 1
  {
    hide Classify;
  }

  /** The two cells of such a pair stand next to each other among the cells of `H`. */
  lemma PairCells(headers: seq<string>, row: seq<Option<string>>, i: nat)
    requires PairsMatch(headers) && i < |headers| && Classify(headers[i]).TypeOf?
    requires i + 1 < |headers| ==> Classify(headers[i + 1]).Plain? && headers[i + 1] != "collection"
    requires CellAt(row, i).Some? && CellAt(row, i + 1).Some?
    ensures i + 1 < |headers| && headers[i + 1] == StripType(headers[i])
    ensures var key := headers[i + 1];
            var cs, p := CellsOf(key, headers, row, |headers|), |CellsOf(key, headers, row, i)|;
            && ListColumns(cs) && p + 1 < |cs|
            && cs[p].0.TypeOf? && cs[p].1 == CellAt(row, i).value && cs[p + 1] == (Plain(key), CellAt(row, i + 1).value)
  {
    hide Classify, ListKey, PairsMatch, StripType, CellsOf;
    PairKeys(headers, i);
    var key := headers[i + 1];
    NextPlace(key, headers, row, i);
    ListKeyColumns(key, headers, row, |headers|);
    CellPlace(headers, row, i);
    CellPlace(headers, row, i + 1);
  }

  /**
   * With validated headers, a row whose `H_type` cell and the `H` cell next to it are both present ends
   * up with one entry that joins the two, provided `H` is extracted by the default branch.
   */
  lemma TypedPairIsJoined(headers: seq<string>, row: seq<Option<string>>, i: nat)
    requires PairsMatch(headers) && i < |headers| && Classify(headers[i]).TypeOf?
    requires i + 1 < |headers| ==> Classify(headers[i + 1]).Plain? && headers[i + 1] != "collection"
    requires CellAt(row, i).Some? && CellAt(row, i + 1).Some?
    ensures i + 1 < |headers| && headers[i + 1] == StripType(headers[i])
    ensures ListColumns(CellsOf(headers[i + 1], headers, row, |headers|))
    ensures var key := headers[i + 1];
            var cs := CellsOf(key, headers, row, |headers|);
            && FoldKey(key, headers, row, |headers|) == Ok(Some(Entries(FoldEntries(cs))))
            && Typed(CellAt(row, i).value, Some(CellAt(row, i + 1).value)) in FoldEntries(cs)
  {
    PairCells(headers, row, i);
    hide Classify, CellsOf, CellAt, ListKey, AddEntry, FoldCells, PairsMatch, StripType;
    var cs := CellsOf(headers[i + 1], headers, row, |headers|);
    PairMakesOneEntry(cs, |CellsOf(headers[i + 1], headers, row, i)|);
    ListsFold(cs);
  }

  // ---------- which headers can raise ----------

  /** A cell of column `j` right after one of column `i` raises. */
  predicate ColumnsClash(headers: seq<string>, i: nat, j: nat) {
    i < j < |headers| &&
    var c, d := Classify(headers[i]), Classify(headers[j]);
    c.key == d.key && ShapeOf(c) != ShapeOf(d) && !d.Singular?
  }

  /** Every cell of a key stands in one of its columns. */
  lemma {:induction false} CellFrom(key: string, headers: seq<string>, row: seq<Option<string>>, n: nat, m: nat) returns (i: nat)
    requires n <= |headers| && m < |CellsOf(key, headers, row, n)|
    ensures i < n && Classify(headers[i]) == CellsOf(key, headers, row, n)[m].0 && Classify(headers[i]).key == key
    ensures |CellsOf(key, headers, row, i)| == m && CellAt(row, i).Some?
  {
    hide Classify;
    if m < |CellsOf(key, headers, row, n - 1)| {
      i := CellFrom(key, headers, row, n - 1, m);
    } else {
      i := n - 1;
    }
  }

  lemma {:induction false} CellsFrom(key: string, headers: seq<string>, row: seq<Option<string>>, n: nat, m: nat)
      returns (i: nat, j: nat)
    requires n <= |headers| && 0 < m < |CellsOf(key, headers, row, n)|
    ensures i < j < n && Classify(headers[i]).key == Classify(headers[j]).key == key
    ensures Classify(headers[i]) == CellsOf(key, headers, row, n)[m - 1].0
    ensures Classify(headers[j]) == CellsOf(key, headers, row, n)[m].0
  {
    hide Classify;
    if m < |CellsOf(key, headers, row, n - 1)| {
      i, j := CellsFrom(key, headers, row, n - 1, m);
    } else {
      i := CellFrom(key, headers, row, n - 1, m - 1);
      j := n - 1;
    }
  }

  /** A row with cells in two columns only. */
  function TwoCells(i: nat, j: nat): seq<Option<string>> {
    seq(j + 1, k => if k == i || k == j then Some("") else None)
  }

  lemma {:induction false} CellsOfTwo(headers: seq<string>, i: nat, j: nat, n: nat)
    requires i < j < |headers| && Classify(headers[i]).key == Classify(headers[j]).key && n <= |headers|
    ensures CellsOf(Classify(headers[i]).key, headers, TwoCells(i, j), n) ==
            (if i < n then [(Classify(headers[i]), "")] else []) + (if j < n then [(Classify(headers[j]), "")] else [])
  {
    hide Classify;
    if n > 0 {
      CellsOfTwo(headers, i, j, n - 1);
    }
  }

  /** Some row raises exactly when two columns of one key clash. */
  lemma CanRaiseExactly(headers: seq<string>)
    requires DatesUntyped(headers)
    ensures (exists row :: Attributes(headers, row).Err?) <==> exists i: nat, j: nat :: ColumnsClash(headers, i, j)
  {
    hide Classify, Attributes, CellsOf, DatesUntyped;
    if row :| Attributes(headers, row).Err? {
      ExtractionRaisesExactly(headers, row);
      var key :| KeyClashes(key, headers, row);
      var m :| Clashes(CellsOf(key, headers, row, |headers|), m);
      var i, j := CellsFrom(key, headers, row, |headers|, m);
      assert ColumnsClash(headers, i, j);
    }
    if i: nat, j: nat :| ColumnsClash(headers, i, j) {
      var row, key := TwoCells(i, j), Classify(headers[i]).key;
      CellsOfTwo(headers, i, j, |headers|);
      assert Clashes(CellsOf(key, headers, row, |headers|), 1);
      assert KeyClashes(key, headers, row);
      ExtractionRaisesExactly(headers, row);
    }
  }

  /** A type header for `id` or `type`, behind a column of that name. */
  predicate TypeAfterSingular(headers: seq<string>, i: nat, j: nat) {
    i < j < |headers| && (headers[i] == "id" || headers[i] == "type") && Classify(headers[j]) == TypeOf(headers[i])
  }

  /** A `collection` column beside one of the fields of a collection. */
  predicate CollectionTwice(headers: seq<string>) {
    "collection" in headers && exists i :: 0 <= i < |headers| && Classify(headers[i]).CollectionField?
  }

  lemma SpecialHeaders()
    ensures Classify("id") == Singular("id") && Classify("type") == Singular("type")
    ensures Classify("collection") == Plain("collection")
  {
    var h := "collection";
    assert h[|h| - 5..][4] == 'n' && h[..8][1] == 'o';
  }

  /** The two columns of a clash, when no type header is aimed at a date key. */
  lemma ClashMeans(headers: seq<string>, i: nat, j: nat)
    requires ColumnsClash(headers, i, j) && DatesUntyped(headers) && PairsMatch(headers)
    ensures TypeAfterSingular(headers, i, j) || CollectionTwice(headers)
  {
    var c, d := Classify(headers[i]), Classify(headers[j]);
    ClashKeys(headers, i);
    ClashKeys(headers, j);
    SpecialHeaders();
    hide Classify;
    if c.key == "collection" {
      var k := if c.CollectionField? then i else j;
      assert Classify(headers[k]).CollectionField?;
    }
  }

  lemma ClashKeys(headers: seq<string>, i: nat)
    requires i < |headers| && DatesUntyped(headers) && PairsMatch(headers)
    ensures var c := Classify(headers[i]);
            && (c.DateField? <==> IsDateKey(c.key))
            && (c.CollectionField? ==> c.key == "collection")
            && (c.Singular? ==> c.key == headers[i] && (c.key == "id" || c.key == "type"))
            && (IsListColumn(c) && c.key == "collection" ==> "collection" in headers)
            && (IsListColumn(c) && (c.key == "id" || c.key == "type") ==> c.TypeOf?)
  {
    hide StripType, EndsWith;
    var c := Classify(headers[i]);
    OtherKeys(headers[i]);
    if IsDateKey(c.key) {
      DateKeyIsDate(c.key);
      DateKeyEnds(c.key);
    }
    assert !PairFails(headers, i);
  }

  lemma CollectionKey(h: string)
    requires Classify(h).CollectionField?
    ensures Classify(h).key == "collection"
  {
  }

  lemma SingularClashes(headers: seq<string>, i: nat, j: nat)
    requires TypeAfterSingular(headers, i, j)
    ensures ColumnsClash(headers, i, j)
  {
    SpecialHeaders();
    hide Classify;
  }

  lemma CollectionClashes(headers: seq<string>)
    requires CollectionTwice(headers)
    ensures exists i: nat, j: nat :: ColumnsClash(headers, i, j)
  {
    SpecialHeaders();
    hide Classify;
    var i :| 0 <= i < |headers| && headers[i] == "collection";
    var j :| 0 <= j < |headers| && Classify(headers[j]).CollectionField?;
    CollectionKey(headers[j]);
    assert ColumnsClash(headers, if i < j then i else j, if i < j then j else i);
  }

  /**
   * Which headers that passed validation can raise at all: those with a type header for `id` or `type`
   * behind the column itself, and those with a `collection` column beside a collection field.
   */
  lemma ValidatedRaisesExactly(headers: seq<string>, attributes: set<string>)
    requires Validated(headers, attributes) && forall h | h in attributes :: !IsDateKey(h)
    ensures (exists row :: Attributes(headers, row).Err?) <==>
            (exists i: nat, j: nat :: TypeAfterSingular(headers, i, j)) || CollectionTwice(headers)
  {
    ValidatedDatesUntyped(headers, attributes);
    CanRaiseExactly(headers);
    PairsOfValidated(headers, attributes);
    hide *;
    if i: nat, j: nat :| ColumnsClash(headers, i, j) {
      ClashMeans(headers, i, j);
    }
    if i: nat, j: nat :| TypeAfterSingular(headers, i, j) {
      SingularClashes(headers, i, j);
    }
    if CollectionTwice(headers) {
      CollectionClashes(headers);
    }
  }

  lemma PairsOfValidated(headers: seq<string>, attributes: set<string>)
    requires Validated(headers, attributes)
    ensures PairsMatch(headers)
  {
  }

  lemma SecondRaises(headers: seq<string>, a: string, b: string)
    requires ColumnsClash(headers, 0, 1)
    ensures Attributes(headers, [Some(a), Some(b)]).Err?
  {
    hide Classify, AddCell;
    var row := [Some(a), Some(b)];
    var c, d := Classify(headers[0]), Classify(headers[1]);
    AddCellShape(None, c, a);
    assert Extract(headers, row, 0) == Ok(map[]);
    assert Extract(headers, row, 1) == Ok(map[c.key := AddCell(None, c, a).value]);
    AddCellShape(Some(AddCell(None, c, a).value), d, b);
    assert Extract(headers, row, 2).Err?;
    RaisingStops(headers, row, 2, |headers|);
  }

  lemma IdTypeHeader()
    ensures IsTypeHeader("id_type") && StripType("id_type") == "id" && Classify("id_type") == TypeOf("id")
    ensures !IsTypeHeader("id")
  {
    hide StripType;
    TypeHeaderOf("id");
    assert "id" + TYPE_SUFFIX == "id_type";
    assert "id_type"[..7][1] == 'd';
  }

  lemma CollectionIdHeader()
    ensures Classify("collection_id") == CollectionField("collection", "id")
    ensures !IsTypeHeader("collection_id") && !IsTypeHeader("collection")
  {
    var h, g := "collection_id", "collection";
    assert h[|h| - 5..][4] == 'd' && g[|g| - 5..][4] == 'n';
    assert h[..8][1] == 'o' && h[..11] == "collection_" && h[11..] == "id";
  }

  /** Such headers pass validation, and have rows that raise. */
  lemma ValidatedHeadersRaise(a: string, b: string)
    ensures Validated(["id", "id_type", "id"], {}) && Attributes(["id", "id_type", "id"], [Some(a), Some(b)]).Err?
    ensures Validated(["collection_id", "collection"], {"collection"})
         && Attributes(["collection_id", "collection"], [Some(a), Some(b)]).Err?
  {
    SpecialHeaders();
    IdTypeHeader();
    CollectionIdHeader();
    hide Classify, IsTypeHeader, StripType, Attributes;
    SecondRaises(["id", "id_type", "id"], a, b);
    SecondRaises(["collection_id", "collection"], a, b);
  }

  // ---------- which cells are lost ----------

  /** A cell of column `d` takes the place of an earlier one of column `c` under the same key. */
  predicate Overwrites(c: Column, d: Column) {
    d.Singular? || (c.CollectionField? && d.CollectionField? && c.field == d.field)
  }

  predicate OverwritesAt(cs: seq<(Column, string)>, p: nat, q: nat) {
    p < q < |cs| && Overwrites(cs[p].0, cs[q].0)
  }

  function Changed(cs: seq<(Column, string)>, p: nat, t: string): seq<(Column, string)>
    requires p < |cs|
  {
    cs[p := (cs[p].0, t)]
  }

  /** The two values hold different texts where a cell of column `c` went, the `l`-th of its place. */
  predicate Differ(v: Value, w: Value, c: Column, l: nat) {
    match c
    case Singular(_) => v.Single? && w.Single? && v.text != w.text
    case DateField(_, f) =>
      v.Dates? && w.Dates? && f in v.dates && f in w.dates && l < |v.dates[f]| && l < |w.dates[f]| && v.dates[f][l] != w.dates[f][l]
    case CollectionField(_, f) => v.Fields? && w.Fields? && f in v.fields && f in w.fields && v.fields[f] != w.fields[f]
    case _ =>
      v.Entries? && w.Entries? && l < |Leaves(v.entries)| && l < |Leaves(w.entries)| && Leaves(v.entries)[l] != Leaves(w.entries)[l]
  }

  lemma TrimLetter()
    ensures Clean("a") == Trim("a") == "a" && Clean("b") == Trim("b") == "b"
  {
    TrimNothing("a");
    TrimNothing("b");
    assert RemoveReturns("") == "" && "a"[1..] == "" && "b"[1..] == "";
    assert RemoveReturns("a") == "a" && RemoveReturns("b") == "b";
  }

  /** Some other text in the cell would make a difference right after it. */
  lemma DifferStarts(v: Option<Value>, c: Column, cell: string) returns (t: string, l: nat)
    requires AddCell(v, c, cell).Ok?
    ensures AddCell(v, c, t).Ok? && Differ(AddCell(v, c, cell).value, AddCell(v, c, t).value, c, l)
  {
    hide Leaves, Clean, Trim, AddEntry, LeafAdded;
    l := 0;
    if IsListColumn(c) {
      var es := if v.None? then [] else v.value.entries;
      t := if LeafAdded(es, c, cell) == "a" then "b" else "a";
      l := |Leaves(es)|;
      AddedLeaf(es, c, cell);
      AddedLeaf(es, c, t);
      LetterLeaf(es, c, t);
    } else {
      t := cell + "x";
      assert |t| == |cell| + 1;
      if c.DateField? {
        l := if v.Some? && c.field in v.value.dates then |v.value.dates[c.field]| else 0;
        DateStands(v, c, cell, l);
        DateStands(v, c, t, l);
      } else if c.CollectionField? {
        FieldStands(v, c, cell);
        FieldStands(v, c, t);
        assert CollectionValue(c.field, cell) != CollectionValue(c.field, t) by {
          assert [cell][0] == cell && [t][0] == t;
        }
      }
    }
  }

  lemma DateStands(v: Option<Value>, c: Column, cell: string, l: nat)
    requires c.DateField? && (v.Some? ==> v.value.Dates?)
    requires l == if v.Some? && c.field in v.value.dates then |v.value.dates[c.field]| else 0
    ensures var w := AddCell(v, c, cell);
            w.Ok? && w.value.Dates? && c.field in w.value.dates && |w.value.dates[c.field]| == l + 1 && w.value.dates[c.field][l] == cell
  {
  }

  lemma FieldStands(v: Option<Value>, c: Column, cell: string)
    requires c.CollectionField? && AddCell(v, c, cell).Ok?
    ensures var w := AddCell(v, c, cell).value;
            w.Fields? && c.field in w.fields && w.fields[c.field] == CollectionValue(c.field, cell)
  {
  }

  lemma LetterLeaf(es: seq<Entry>, c: Column, t: string)
    requires IsListColumn(c) && (t == "a" || t == "b")
    ensures LeafAdded(es, c, t) == t
  {
    TrimLetter();
  }

  /** And a cell that does not overwrite it leaves the difference standing. */
  lemma DifferStays(v: Value, w: Value, c: Column, l: nat, d: Column, cell: string)
    requires Differ(v, w, c, l) && ShapeOf(c) == ShapeOf(d) && !Overwrites(c, d)
    ensures AddCell(Some(v), d, cell).Ok? && AddCell(Some(w), d, cell).Ok?
    ensures Differ(AddCell(Some(v), d, cell).value, AddCell(Some(w), d, cell).value, c, l)
  {
    hide Leaves, AddEntry, LeafAdded;
    if IsListColumn(c) {
      AddedLeaf(v.entries, d, cell);
      AddedLeaf(w.entries, d, cell);
    }
  }

  lemma FoldNext(cs: seq<(Column, string)>, n: nat)
    requires n < |cs|
    ensures FoldCells(cs[..n + 1]) ==
            var v := FoldCells(cs[..n]);
            if v.Err? then v
            else var w := AddCell(v.value, cs[n].0, cs[n].1); if w.Ok? then Ok(Some(w.value)) else Err(())
  {
    assert cs[..n + 1][..n] == cs[..n];
  }

  lemma {:induction false} PrefixFolds(cs: seq<(Column, string)>, n: nat)
    requires n <= |cs| && FoldCells(cs).Ok?
    ensures FoldCells(cs[..n]).Ok?
    decreases |cs| - n
  {
    if n == |cs| {
      assert cs[..n] == cs;
    } else {
      PrefixFolds(cs, n + 1);
      FoldNext(cs, n);
    }
  }

  lemma ChangedClashes(cs: seq<(Column, string)>, p: nat, t: string, j: int)
    requires p < |cs| && Clashes(Changed(cs, p, t), j)
    ensures Clashes(cs, j)
  {
  }

  /** Changing a text changes neither whether the cells fold nor the shapes they fold to. */
  lemma ChangedFolds(cs: seq<(Column, string)>, p: nat, t: string)
    requires p < |cs| && FoldCells(cs).Ok?
    ensures FoldCells(Changed(cs, p, t)).Ok?
  {
    hide FoldCells, Clashes, Changed;
    FoldRaisesExactly(cs);
    FoldRaisesExactly(Changed(cs, p, t));
    if j :| Clashes(Changed(cs, p, t), j) {
      ChangedClashes(cs, p, t, j);
    }
  }

  /** Behind a cell that no later singular one replaces, every cell has its shape. */
  lemma {:induction false} SameShape(cs: seq<(Column, string)>, p: nat, q: nat)
    requires p <= q < |cs| && FoldCells(cs).Ok? && forall k | p < k <= q :: !cs[k].0.Singular?
    ensures ShapeOf(cs[q].0) == ShapeOf(cs[p].0)
  {
    if p < q {
      SameShape(cs, p, q - 1);
      FoldRaisesExactly(cs);
      assert !Clashes(cs, q);
    }
  }

  lemma ChangedPrefix(cs: seq<(Column, string)>, p: nat, t: string, n: nat)
    requires p < |cs| && n <= |cs|
    ensures Changed(cs, p, t)[..n] == if p < n then Changed(cs[..n], p, t) else cs[..n]
  {
  }

  lemma {:induction false} FoldDiffers(cs: seq<(Column, string)>, p: nat, t: string, l: nat, n: nat)
    requires p < n <= |cs| && FoldCells(cs).Ok? && forall q | p < q < n :: !Overwrites(cs[p].0, cs[q].0)
    requires FoldCells(cs[..p]).Ok? && AddCell(FoldCells(cs[..p]).value, cs[p].0, cs[p].1).Ok?
    requires AddCell(FoldCells(cs[..p]).value, cs[p].0, t).Ok?
    requires Differ(AddCell(FoldCells(cs[..p]).value, cs[p].0, cs[p].1).value,
                    AddCell(FoldCells(cs[..p]).value, cs[p].0, t).value, cs[p].0, l)
    ensures var v, w := FoldCells(cs[..n]), FoldCells(Changed(cs, p, t)[..n]);
            v.Ok? && w.Ok? && v.value.Some? && w.value.Some? && Differ(v.value.value, w.value.value, cs[p].0, l)
  {
    hide FoldCells, AddCell, Differ;
    var changed := Changed(cs, p, t);
    FoldNext(cs, n - 1);
    FoldNext(changed, n - 1);
    ChangedPrefix(cs, p, t, p);
    if p + 1 < n {
      FoldDiffers(cs, p, t, l, n - 1);
      SameShape(cs, p, n - 1);
      DifferStays(FoldCells(cs[..n - 1]).value.value, FoldCells(changed[..n - 1]).value.value, cs[p].0, l,
                  cs[n - 1].0, cs[n - 1].1);
    }
  }

  predicate AgreeOff(v: Value, w: Value, f: string) {
    v.Fields? && w.Fields? && v.fields - {f} == w.fields - {f}
  }

  lemma AgreeStays(v: Value, w: Value, f: string, d: Column, cell: string)
    requires AgreeOff(v, w, f) && d.CollectionField?
    ensures AgreeOff(AddCell(Some(v), d, cell).value, AddCell(Some(w), d, cell).value, f)
    ensures d.field == f ==> AddCell(Some(v), d, cell) == AddCell(Some(w), d, cell)
  {
    var x := CollectionValue(d.field, cell);
    var m, k := v.fields[d.field := x], w.fields[d.field := x];
    forall g | g in m.Keys + k.Keys ensures (g != f || d.field == f ==> g in m && g in k && m[g] == k[g]) {
      assert g != f && g in v.fields ==> g in v.fields - {f};
      assert g != f && g in w.fields ==> g in w.fields - {f};
      assert g in v.fields - {f} <==> g in w.fields - {f};
      if g in v.fields - {f} {
        assert (v.fields - {f})[g] == (w.fields - {f})[g];
      }
    }
    assert m - {f} == k - {f};
    if d.field == f {
      assert m == k;
    }
  }

  lemma {:induction false} FieldsAgree(cs: seq<(Column, string)>, p: nat, t: string, n: nat)
    requires p < n <= |cs| && FoldCells(cs).Ok? && cs[p].0.CollectionField?
    requires forall k | p < k < n :: !cs[k].0.Singular?
    ensures var v, w := FoldCells(cs[..n]), FoldCells(Changed(cs, p, t)[..n]);
            v.Ok? && w.Ok? && v.value.Some? && w.value.Some? && AgreeOff(v.value.value, w.value.value, cs[p].0.field)
  {
    hide FoldCells;
    var changed := Changed(cs, p, t);
    PrefixFolds(cs, n);
    FoldNext(cs, n - 1);
    FoldNext(changed, n - 1);
    if p + 1 < n {
      FieldsAgree(cs, p, t, n - 1);
      SameShape(cs, p, n - 1);
      hide AddCell, AgreeOff;
      AgreeStays(FoldCells(cs[..n - 1]).value.value, FoldCells(changed[..n - 1]).value.value, cs[p].0.field,
                 cs[n - 1].0, cs[n - 1].1);
      AddsField(FoldCells(cs[..n - 1]).value.value, FoldCells(changed[..n - 1]).value.value, cs[p].0.field,
                cs[n - 1].0, cs[n - 1].1);
    } else {
      ChangedPrefix(cs, p, t, p);
      FieldWritten(FoldCells(cs[..p]).value, cs[p].0, cs[p].1, t);
    }
  }

  lemma AddsField(v: Value, w: Value, f: string, d: Column, cell: string)
    requires AgreeOff(v, w, f) && d.CollectionField?
    ensures AddCell(Some(v), d, cell).Ok? && AddCell(Some(w), d, cell).Ok?
  {
  }

  lemma FieldWritten(v: Option<Value>, c: Column, cell: string, t: string)
    requires c.CollectionField? && AddCell(v, c, cell).Ok?
    ensures AddCell(v, c, t).Ok? && AgreeOff(AddCell(v, c, cell).value, AddCell(v, c, t).value, c.field)
  {
    var m := if v.None? then map[] else v.value.fields;
    assert m[c.field := CollectionValue(c.field, cell)] - {c.field} == m[c.field := CollectionValue(c.field, t)] - {c.field};
  }

  /** A cell that a later one overwrites might have held anything. */
  lemma {:induction false} FoldForgotten(cs: seq<(Column, string)>, p: nat, t: string, q: nat)
    requires OverwritesAt(cs, p, q) && FoldCells(cs).Ok?
    ensures FoldCells(Changed(cs, p, t)) == FoldCells(cs)
    decreases |cs|
  {
    hide FoldCells, AddCell;
    var n := |cs| - 1;
    var changed := Changed(cs, p, t);
    assert cs[..n + 1] == cs && changed[..n + 1] == changed;
    FoldNext(cs, n);
    FoldNext(changed, n);
    PrefixFolds(cs, n);
    ChangedPrefix(cs, p, t, n);
    if k: nat :| p < k < n && Overwrites(cs[p].0, cs[k].0) {
      assert OverwritesAt(cs[..n], p, k);
      FoldForgotten(cs[..n], p, t, k);
    } else if cs[n].0.Singular? {
      ChangedFolds(cs[..n], p, t);
      SingularReplaces(FoldCells(cs[..n]).value, FoldCells(changed[..n]).value, cs[n].0, cs[n].1);
    } else {
      FieldsAgree(cs, p, t, n);
      AgreeStays(FoldCells(cs[..n]).value.value, FoldCells(changed[..n]).value.value, cs[p].0.field, cs[n].0, cs[n].1);
    }
  }

  lemma SingularReplaces(v: Option<Value>, w: Option<Value>, c: Column, cell: string)
    requires c.Singular?
    ensures AddCell(v, c, cell) == AddCell(w, c, cell)
  {
  }

  lemma DifferMeansUnequal(v: Value, w: Value, c: Column, l: nat)
    requires Differ(v, w, c, l)
    ensures v != w
  {
  }

  /** A cell's text makes no difference to its key exactly when a later cell overwrites it. */
  lemma FoldForgetsExactly(cs: seq<(Column, string)>, p: nat)
    requires p < |cs| && FoldCells(cs).Ok?
    ensures (forall t :: FoldCells(Changed(cs, p, t)) == FoldCells(cs)) <==> exists q: nat :: OverwritesAt(cs, p, q)
  {
    hide FoldCells, AddCell, Differ, Overwrites;
    if q: nat :| OverwritesAt(cs, p, q) {
      forall t ensures FoldCells(Changed(cs, p, t)) == FoldCells(cs) {
        FoldForgotten(cs, p, t, q);
      }
    } else {
      PrefixFolds(cs, p);
      PrefixFolds(cs, p + 1);
      FoldNext(cs, p);
      var t, l := DifferStarts(FoldCells(cs[..p]).value, cs[p].0, cs[p].1);
      assert forall q: nat | p < q < |cs| :: OverwritesAt(cs, p, q) <==> Overwrites(cs[p].0, cs[q].0);
      FoldDiffers(cs, p, t, l, |cs|);
      assert cs[..|cs|] == cs && Changed(cs, p, t)[..|cs|] == Changed(cs, p, t);
      DifferMeansUnequal(FoldCells(cs).value.value, FoldCells(Changed(cs, p, t)).value.value, cs[p].0, l);
    }
  }

  /** A non-nil cell of column `j` overwrites the one of column `i`. */
  predicate OverwritesColumn(headers: seq<string>, row: seq<Option<string>>, i: nat, j: nat) {
    i < j < |headers| && CellAt(row, j).Some? && Classify(headers[i]).key == Classify(headers[j]).key
    && Overwrites(Classify(headers[i]), Classify(headers[j]))
  }

  lemma {:induction false} CellsChanged(key: string, headers: seq<string>, row: seq<Option<string>>, i: nat, t: string, n: nat)
    requires i < |row| && i < |headers| && row[i].Some? && n <= |headers|
    ensures var cs, cs' := CellsOf(key, headers, row, n), CellsOf(key, headers, row[i := Some(t)], n);
            if i < n && Classify(headers[i]).key == key then
              var p := |CellsOf(key, headers, row, i)|; p < |cs| && cs' == Changed(cs, p, t)
            else cs' == cs
  {
    hide Classify;
    if n > 0 {
      CellsChanged(key, headers, row, i, t, n - 1);
      if i == n - 1 {
        assert CellAt(row, i) == row[i];
      }
    }
  }

  /** A non-nil cell stands among its key's cells behind those of the columns before it. */
  lemma CellPlace(headers: seq<string>, row: seq<Option<string>>, i: nat)
    requires i < |headers| && CellAt(row, i).Some?
    ensures var key := Classify(headers[i]).key;
            var cs, p := CellsOf(key, headers, row, |headers|), |CellsOf(key, headers, row, i)|;
            p < |cs| && cs[p] == (Classify(headers[i]), CellAt(row, i).value)
  {
    hide Classify;
    CellsGrow(Classify(headers[i]).key, headers, row, i + 1, |headers|);
  }

  lemma PlaceGrows(key: string, headers: seq<string>, row: seq<Option<string>>, i: nat, j: nat)
    requires i <= j <= |headers|
    ensures |CellsOf(key, headers, row, i)| <= |CellsOf(key, headers, row, j)|
    ensures i < j && CellAt(row, i).Some? && Classify(headers[i]).key == key ==>
              |CellsOf(key, headers, row, i)| < |CellsOf(key, headers, row, j)|
  {
    hide Classify;
    CellsGrow(key, headers, row, i, j);
    if i < j {
      CellsGrow(key, headers, row, i + 1, j);
    }
  }

  /** Which later cells of the key overwrite a cell is which later columns do. */
  lemma OverwritingColumns(headers: seq<string>, row: seq<Option<string>>, i: nat)
    requires i < |headers| && CellAt(row, i).Some?
    ensures var key := Classify(headers[i]).key;
            var cs, p := CellsOf(key, headers, row, |headers|), |CellsOf(key, headers, row, i)|;
            p < |cs| && ((exists q: nat :: OverwritesAt(cs, p, q)) <==> exists j: nat :: OverwritesColumn(headers, row, i, j))
  {
    hide Classify, Overwrites, CellsOf, CellAt;
    var key := Classify(headers[i]).key;
    var cs, p := CellsOf(key, headers, row, |headers|), |CellsOf(key, headers, row, i)|;
    CellPlace(headers, row, i);
    if q: nat :| OverwritesAt(cs, p, q) {
      var j := CellFrom(key, headers, row, |headers|, q);
      if j <= i {
        PlaceGrows(key, headers, row, j, i);
      }
      assert OverwritesColumn(headers, row, i, j);
    }
    if j: nat :| OverwritesColumn(headers, row, i, j) {
      PlaceGrows(key, headers, row, i, j);
      CellPlace(headers, row, j);
      assert OverwritesAt(cs, p, |CellsOf(key, headers, row, j)|);
    }
  }

  lemma SameLookups(p: Processed, q: Processed)
    requires forall key :: Lookup(p, key) == Lookup(q, key)
    ensures p == q
  {
    forall key ensures (key in p <==> key in q) && (key in p && key in q ==> p[key] == q[key]) {
      assert Lookup(p, key) == Lookup(q, key);
    }
  }

  /** The row extracts to the same hash whatever the cell's text exactly when that is so of the cell's key. */
  lemma ChangeShowsInKey(headers: seq<string>, row: seq<Option<string>>, i: nat, t: string)
    requires Attributes(headers, row).Ok? && i < |headers| && i < |row| && row[i].Some?
    ensures var key := Classify(headers[i]).key;
            var cs, p := CellsOf(key, headers, row, |headers|), |CellsOf(key, headers, row, i)|;
            && p < |cs| && FoldCells(cs).Ok?
            && (Attributes(headers, row[i := Some(t)]) == Attributes(headers, row) <==> FoldCells(Changed(cs, p, t)) == FoldCells(cs))
  {
    hide Classify, Attributes, CellsOf, FoldCells, Lookup;
    var key, row', n := Classify(headers[i]).key, row[i := Some(t)], |headers|;
    var cs, p := CellsOf(key, headers, row, n), |CellsOf(key, headers, row, i)|;
    KeysAreIndependent(headers, row);
    KeysAreIndependent(headers, row');
    CellsChanged(key, headers, row, i, t, n);
    assert FoldKey(key, headers, row, n).Ok?;
    ChangedFolds(cs, p, t);
    forall k ensures FoldKey(k, headers, row', n).Ok? && (k != key ==> FoldKey(k, headers, row', n) == FoldKey(k, headers, row, n)) {
      CellsChanged(k, headers, row, i, t, n);
      assert FoldKey(k, headers, row, n).Ok?;
    }
    if FoldCells(Changed(cs, p, t)) == FoldCells(cs) {
      forall k ensures Lookup(Attributes(headers, row').value, k) == Lookup(Attributes(headers, row).value, k) {
        assert FoldKey(k, headers, row', n) == FoldKey(k, headers, row, n);
      }
      SameLookups(Attributes(headers, row').value, Attributes(headers, row).value);
    } else {
      assert FoldKey(key, headers, row', n) != FoldKey(key, headers, row, n);
    }
  }

  /**
   * Which cells an extracted row loses: a non-nil cell's text makes no difference to the hash exactly
   * when a later non-nil cell overwrites it, one of `id` or `type` or one of the same collection field.
   */
  lemma CellLostExactly(headers: seq<string>, row: seq<Option<string>>, i: nat)
    requires Attributes(headers, row).Ok? && i < |headers| && i < |row| && row[i].Some?
    ensures (forall t :: Attributes(headers, row[i := Some(t)]) == Attributes(headers, row)) <==>
            exists j: nat :: OverwritesColumn(headers, row, i, j)
  {
    hide Attributes, CellsOf, FoldCells, Classify, OverwritesAt, OverwritesColumn, Changed;
    var key := Classify(headers[i]).key;
    var cs, p := CellsOf(key, headers, row, |headers|), |CellsOf(key, headers, row, i)|;
    OverwritingColumns(headers, row, i);
    ChangeShowsInKey(headers, row, i, "");
    FoldForgetsExactly(cs, p);
    forall t ensures Attributes(headers, row[i := Some(t)]) == Attributes(headers, row) <==>
                     FoldCells(Changed(cs, p, t)) == FoldCells(cs)
    {
      ChangeShowsInKey(headers, row, i, t);
    }
  }

  /** A header row that passed validation and loses a cell. */
  lemma RepeatedIdLosesCell(a: string, b: string)
    ensures Validated(["id", "id"], {}) && Attributes(["id", "id"], [Some(a), Some(b)]) == Ok(map["id" := Single(b)])
  {
    SpecialHeaders();
    IdTypeHeader();
    hide Classify, IsTypeHeader;
    var headers, row := ["id", "id"], [Some(a), Some(b)];
    assert Extract(headers, row, 0) == Ok(map[]);
    assert Extract(headers, row, 1) == Ok(map["id" := Single(a)]);
    assert map["id" := Single(a)]["id" := Single(b)] == map["id" := Single(b)];
    assert Extract(headers, row, 2) == Ok(map["id" := Single(b)]);
  }

  // ---------- header validation, step by step ----------

  function Unknown(headers: seq<string>, attributes: set<string>): seq<string> {
    if headers == [] then []
    else
      var h := headers[|headers| - 1];
      Unknown(headers[..|headers| - 1], attributes) +
      (if Known(h, attributes) then [] else [h])
  }

  function Unpaired(headers: seq<string>, n: nat): seq<string>
    requires n <= |headers|
  {
    if n == 0 then [] else Unpaired(headers, n - 1) + (if PairFails(headers, n - 1) then [headers[n - 1]] else [])
  }

  lemma {:induction false} UnpairedExactly(headers: seq<string>, n: nat)
    requires n <= |headers|
    ensures Unpaired(headers, n) == [] <==> forall i | 0 <= i < n :: !PairFails(headers, i)
  {
    if n > 0 {
      UnpairedExactly(headers, n - 1);
    }
  }

  /** Which headers the two errors name. */
  lemma {:induction false} UnpairedHas(headers: seq<string>, n: nat, h: string)
    requires n <= |headers|
    ensures h in Unpaired(headers, n) <==> exists i :: 0 <= i < n && headers[i] == h && PairFails(headers, i)
  {
    hide PairFails;
    if n > 0 {
      UnpairedHas(headers, n - 1, h);
    }
  }

  lemma {:induction false} UnknownHas(headers: seq<string>, attributes: set<string>, h: string)
    ensures h in Unknown(headers, attributes) <==> h in headers && !Known(h, attributes)
  {
    hide Known;
    if headers != [] {
      var n := |headers| - 1;
      UnknownHas(headers[..n], attributes, h);
      assert headers == headers[..n] + [headers[n]];
    }
  }

  lemma {:induction false} UnknownExactly(headers: seq<string>, attributes: set<string>)
    ensures Unknown(headers, attributes) == [] <==> forall h | h in headers :: Known(h, attributes)
  {
    if headers != [] {
      var n := |headers| - 1;
      UnknownExactly(headers[..n], attributes);
      assert headers == headers[..n] + [headers[n]];
    }
  }

  lemma FixedHeaders(h: string, attributes: set<string>)
    ensures Known(h, attributes) <==> h in attributes || h in FIXED_HEADERS || IsTypeHeader(h)
  {
    assert FIXED_HEADERS[0] == "id" && FIXED_HEADERS[1] == "type" && FIXED_HEADERS[2] == "file";
    assert FIXED_HEADERS[3] == "collection_id" && FIXED_HEADERS[4] == "collection_title";
    assert FIXED_HEADERS[5] == "collection_accession_number";
  }

  lemma ValidatedExactly(headers: seq<string>, attributes: set<string>)
    ensures Validated(headers, attributes) <==> Unknown(headers, attributes) == [] && Unpaired(headers, |headers|) == []
  {
    hide Known, PairFails;
    UnknownExactly(headers, attributes);
    UnpairedExactly(headers, |headers|);
  }

  method ValidateHeaders(row: seq<string>, attributes: set<string>) returns (headers: Result<seq<string>, HeaderError>)
    ensures headers.Ok? <==> Validated(row, attributes)
    ensures headers.Ok? ==> headers.value == row
    ensures headers.Err? ==>
              headers.error == if Unknown(row, attributes) != [] then InvalidHeaders(Unknown(row, attributes))
                               else UnpairedHeaders(Unpaired(row, |row|))
  {
    hide StripType, IsTypeHeader, Known, Validated, PairsMatch;
    var difference: seq<string> := [];
    var i := 0;
    while i < |row|
      invariant 0 <= i <= |row| && difference == Unknown(row[..i], attributes)
    {
      assert row[..i + 1][..i] == row[..i];
      FixedHeaders(row[i], attributes);
      if !(row[i] in attributes || row[i] in FIXED_HEADERS || IsTypeHeader(row[i])) {
        difference := difference + [row[i]];
      }
      i := i + 1;
    }
    assert row[..i] == row;
    ValidatedExactly(row, attributes);
    if difference != [] {
      return Err(InvalidHeaders(difference));
    }
    var errors: seq<string> := [];
    i := 0;
    while i < |row|
      invariant 0 <= i <= |row| && errors == Unpaired(row, i)
    {
      if row[i] != "resource_type" && IsTypeHeader(row[i]) {
        if i + 1 == |row| || row[i + 1] != StripType(row[i]) {
          errors := errors + [row[i]];
        }
      }
      i := i + 1;
    }
    if errors != [] {
      return Err(UnpairedHeaders(errors));
    }
    return Ok(row);
  }

  // ---------- blank header cells ----------

  /** `row.compact!` on the header row. */
  function Compact(raw: seq<Option<string>>): seq<string> {
    if raw == [] then [] else (if raw[0].Some? then [raw[0].value] else []) + Compact(raw[1..])
  }

  predicate BlanksOnlyAtEnd(raw: seq<Option<string>>) {
    forall i, j | 0 <= i < j < |raw| :: raw[i].None? ==> raw[j].None?
  }

  lemma BlanksStep(raw: seq<Option<string>>)
    requires raw != []
    ensures BlanksOnlyAtEnd(raw) <==>
            if raw[0].Some? then BlanksOnlyAtEnd(raw[1..]) else forall i | 0 <= i < |raw[1..]| :: raw[1..][i].None?
  {
    var rest := raw[1..];
    assert forall i | 0 <= i < |rest| :: rest[i] == raw[i + 1];
    if raw[0].Some? && BlanksOnlyAtEnd(rest) {
      forall i, j | 0 <= i < j < |raw| && raw[i].None? ensures raw[j].None? {
        assert rest[i - 1] == raw[i] && rest[j - 1] == raw[j];
      }
    }
    if raw[0].None? {
      assert forall i | 1 <= i < |raw| :: raw[i] == rest[i - 1];
      if BlanksOnlyAtEnd(raw) {
        forall i | 0 <= i < |rest| ensures rest[i].None? {
          assert raw[0].None? ==> raw[i + 1].None?;
        }
      }
    }
  }

  /** Headers keep the position of their columns exactly when no blank header cell precedes a filled one. */
  lemma {:induction false} CompactAlignsExactly(raw: seq<Option<string>>)
    ensures |Compact(raw)| <= |raw|
    ensures BlanksOnlyAtEnd(raw) <==> forall i | 0 <= i < |Compact(raw)| :: raw[i] == Some(Compact(raw)[i])
  {
    hide BlanksOnlyAtEnd;
    if raw == [] {
      NoBlanks();
    } else {
      var rest := raw[1..];
      CompactAlignsExactly(rest);
      BlanksStep(raw);
      if raw[0].Some? {
        assert forall i | 0 <= i < |Compact(rest)| :: Compact(raw)[i + 1] == Compact(rest)[i] && raw[i + 1] == rest[i];
      } else {
        CompactEmptyExactly(rest);
      }
    }
  }

  lemma NoBlanks()
    ensures BlanksOnlyAtEnd([])
  {
  }

  lemma {:induction false} CompactEmptyExactly(raw: seq<Option<string>>)
    ensures Compact(raw) == [] <==> forall i | 0 <= i < |raw| :: raw[i].None?
  {
    if raw != [] {
      CompactEmptyExactly(raw[1..]);
      assert forall i | 0 <= i < |raw| - 1 :: raw[1..][i] == raw[i + 1];
      assert forall i | 0 < i < |raw| :: raw[i] == raw[1..][i - 1];
    }
  }

  /** A blank header cell in front moves the headers behind it to the wrong columns. */
  lemma BlankHeaderShifts(h: string)
    ensures Compact([None, Some(h)]) == [h] && [None, Some(h)][0] != Some(h)
  {
    var raw := [None, Some(h)];
    assert raw[1..] == [Some(h)] && raw[1..][1..] == [];
    assert Compact(raw[1..]) == [h];
    assert Compact(raw) == [] + Compact(raw[1..]);
  }
}
