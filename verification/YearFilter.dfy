/**
 * `Sushi::YearOfPublicationCoercion`: a small compiler from a year-of-publication filter such as
 * `1994-1996 | 1989` to a parameterised WHERE clause, and the meaning of both sides.
 */
module YearFilter {
  import opened Prelude
  import opened Text

  // ---------- the filter language ----------

  /** One element of the filter: a single year, or a span of years. */
  datatype Item = Year(year: int) | Span(first: int, last: int)

  /** Ruby's `Integer`: an optional sign and decimal digits, or octal ones after a leading zero. */
  function RubyInteger(s: string): Option<int> {
    if s != "" && (s[0] == '-' || s[0] == '+') then
      var n := Unsigned(s[1..]);
      if n.None? then None else Some(if s[0] == '-' then -n.value else n.value)
    else Unsigned(s)
  }

  function Unsigned(s: string): Option<int> {
    if s == "" || !AllDigits(s) then None
    else if |s| > 1 && s[0] == '0' then
      if forall i | 0 <= i < |s| :: s[i] < '8' then Some(Value(s, 8)) else None
    else Some(Value(s, 10))
  }

  function DigitRun(s: string): (n: nat)
    ensures n <= |s| && AllDigits(s[..n])
    ensures n < |s| ==> !IsDigit(s[n])
  {
    if s == "" || !IsDigit(s[0]) then 0
    else
      var n := DigitRun(s[1..]);
      assert s[..n + 1] == [s[0]] + s[1..][..n];
      n + 1
  }

  /** The two groups of `DATE_RANGE_REGEXP`: digits, optional blanks around a hyphen, digits. */
  function MatchRange(s: string): Option<(string, string)> {
    var n := DigitRun(s);
    var rest := TrimLeft(s[n..]);
    if n == 0 || rest == "" || rest[0] != '-' then None
    else
      var last := TrimLeft(rest[1..]);
      if last == "" || !AllDigits(last) then None else Some((s[..n], last))
  }

  function ReadSlug(slug: string): Option<Item> {
    var m := MatchRange(slug);
    if m.Some? then
      var first, last := RubyInteger(m.value.0), RubyInteger(m.value.1);
      if first.Some? && last.Some? then Some(Span(first.value, last.value)) else None
    else
      var n := RubyInteger(slug);
      if n.Some? then Some(Year(n.value)) else None
  }

  /** `slug` is `first`, blanks, a hyphen, blanks, `last`. */
  predicate RangeText(slug: string, first: string, b: string, b': string, last: string) {
    && first != "" && AllDigits(first) && last != "" && AllDigits(last) && AllSpace(b) && AllSpace(b')
    && slug == first + (b + ("-" + (b' + last)))
  }

  /** What a slug spells, said by its shape rather than by a parser. */
  ghost predicate Spells(slug: string, item: Item) {
    match item
    case Year(n) => RubyInteger(slug) == Some(n)
    case Span(a, z) => exists first, b, b', last ::
      RangeText(slug, first, b, b', last) && RubyInteger(first) == Some(a) && RubyInteger(last) == Some(z)
  }

  // ---------- integers ----------

  /** One more digit behind a decimal number, or behind one in octal that starts with a zero. */
  function OneMoreDigit(n: Option<int>, base: nat, d: int): Option<int> {
    if n.Some? && 0 <= d < base then Some(base * n.value + d) else None
  }

  predicate Unreadable(s: string) {
    s == "" || exists i :: 0 <= i < |s| && !('0' <= s[i] <= '9')
  }

  /**
   * Ruby's reading of integers, digit by digit: in decimal, but in octal after a leading zero; a sign in
   * front counts, and anything else makes the text no integer.
   */
  lemma IntegersRead(ds: string, c: char)
    ensures '0' <= c <= '9' ==> RubyInteger([c]) == Some(c as int - 48)
    ensures ds != "" && AllDigits(ds) && '0' <= c <= '9' ==>
              RubyInteger(ds + [c]) == OneMoreDigit(RubyInteger(ds), if ds[0] == '0' then 8 else 10, c as int - 48)
    ensures Unreadable(ds) ==> Unsigned(ds).None? && RubyInteger("-" + ds).None? && RubyInteger("+" + ds).None?
    ensures !Unreadable(ds) ==> RubyInteger("-" + ds) == match RubyInteger(ds) case Some(n) => Some(-n) case None => None
    ensures !Unreadable(ds) ==> RubyInteger("+" + ds) == RubyInteger(ds)
    ensures Unreadable(ds) && (ds == "" || (ds[0] != '-' && ds[0] != '+')) ==> RubyInteger(ds).None?
  {
    assert ("-" + ds)[1..] == ds && ("+" + ds)[1..] == ds;
    if '0' <= c <= '9' {
      assert Value([c], 10) == Value([c][..0], 10) * 10 + DigitValue(c);
      if ds != "" && AllDigits(ds) {
        assert (ds + [c])[..|ds|] == ds;
        if |ds| == 1 {
          assert Value(ds, 8) == Value(ds[..0], 8) * 8 + DigitValue(ds[0]);
          assert Value(ds, 10) == Value(ds[..0], 10) * 10 + DigitValue(ds[0]);
        }
        OctalDigits(ds, c);
      }
    }
  }

  lemma OctalDigits(ds: string, c: char)
    ensures (forall i | 0 <= i < |ds + [c]| :: (ds + [c])[i] < '8') <==> (forall i | 0 <= i < |ds| :: ds[i] < '8') && c < '8'
  {
    assert forall i | 0 <= i < |ds| :: (ds + [c])[i] == ds[i];
    assert (ds + [c])[|ds|] == c;
  }

  lemma {:induction false} DigitRunIs(ds: string, rest: string)
    requires AllDigits(ds) && (rest != "" ==> !IsDigit(rest[0]))
    ensures DigitRun(ds + rest) == |ds|
  {
    if ds == "" {
      assert ds + rest == rest;
    } else {
      assert (ds + rest)[1..] == ds[1..] + rest;
      DigitRunIs(ds[1..], rest);
    }
  }

  lemma RangeTextMatches(slug: string, first: string, b: string, b': string, last: string)
    requires RangeText(slug, first, b, b', last)
    ensures MatchRange(slug) == Some((first, last))
  {
    var end := b' + last;
    var tail := "-" + end;
    var rest := b + tail;
    DigitRunIs(first, rest);
    assert slug[..|first|] == first;
    assert slug[|first|..] == rest;
    TrimLeftIs(b, tail);
    assert tail[1..] == end;
    TrimLeftIs(b', last);
  }

  lemma RangeTextIsNoInteger(slug: string, first: string, b: string, b': string, last: string)
    requires RangeText(slug, first, b, b', last)
    ensures RubyInteger(slug).None?
  {
    assert slug[0] == first[0];
    assert slug[|first| + |b|] == '-';
  }

  lemma ReassembleRange(slug: string, first: string, b: string, b': string, last: string,
                        tail: string, rest: string, end: string)
    requires slug == first + tail && tail == b + rest && rest == "-" + end && end == b' + last
    requires first != "" && AllDigits(first) && last != "" && AllDigits(last) && AllSpace(b) && AllSpace(b')
    ensures RangeText(slug, first, b, b', last)
  {
  }

  lemma CutAt(s: string, n: nat)
    requires n <= |s|
    ensures s == s[..n] + s[n..]
  {
  }

  lemma MatchedIsRangeText(slug: string) returns (b: string, b': string)
    requires MatchRange(slug).Some?
    ensures RangeText(slug, MatchRange(slug).value.0, b, b', MatchRange(slug).value.1)
  {
    var n := DigitRun(slug);
    var first, tail := slug[..n], slug[n..];
    var rest := TrimLeft(tail);
    var end := rest[1..];
    b := TrimLeftCuts(tail);
    b' := TrimLeftCuts(end);
    CutAt(slug, n);
    CutAt(rest, 1);
    assert rest[..1] == "-";
    ReassembleRange(slug, first, b, b', TrimLeft(end), tail, rest, end);
  }

  /** The slug reader finds exactly what the slug spells... */
  lemma ReadSlugExactly(slug: string, item: Item)
    ensures ReadSlug(slug) == Some(item) <==> Spells(slug, item)
  {
    if MatchRange(slug).Some? {
      var b, b' := MatchedIsRangeText(slug);
      RangeTextIsNoInteger(slug, MatchRange(slug).value.0, b, b', MatchRange(slug).value.1);
    }
    forall first, c, c', last | RangeText(slug, first, c, c', last)
      ensures MatchRange(slug) == Some((first, last))
    {
      RangeTextMatches(slug, first, c, c', last);
    }
  }

  ghost predicate WellFormed(slug: string) {
    exists item :: Spells(slug, item)
  }

  /** ...and refuses exactly the slugs that spell nothing. */
  lemma ReadSlugAccepts(slug: string)
    ensures ReadSlug(slug).Some? <==> WellFormed(slug)
    ensures ReadSlug(slug).Some? ==> forall item :: Spells(slug, item) <==> item == ReadSlug(slug).value
  {
    forall item ensures ReadSlug(slug) == Some(item) <==> Spells(slug, item) {
      ReadSlugExactly(slug, item);
    }
    if ReadSlug(slug).Some? {
      assert Spells(slug, ReadSlug(slug).value);
    }
  }

  // ---------- splitting the parameter ----------

  /** The field between two pipes, without the blanks that the pipes take along. */
  function Between(raw: seq<string>, i: nat): string
    requires i < |raw|
  {
    if |raw| == 1 then raw[i]
    else if i == 0 then TrimRight(raw[i])
    else if i == |raw| - 1 then TrimLeft(raw[i])
    else Trim(raw[i])
  }

  /** Ruby's `split(/\s*\|\s*\/)`. */
  function Fields(param: string): seq<string> {
    var raw := Split(param, '|');
    DropTrailingEmpty(seq(|raw|, i requires 0 <= i < |raw| => Between(raw, i)))
  }

  function Slugs(param: string): seq<string> {
    var fields := Fields(param);
    seq(|fields|, i requires 0 <= i < |fields| => Trim(fields[i]))
  }

  // ---------- the compiler ----------

  function YearClause(f: string): string {
    "(" + (f + (" = ?" + ")"))
  }

  function SpanClause(f: string): string {
    "(" + (f + (" >= ?" + (" AND " + (f + (" <= ?" + ")")))))
  }

  /** The clause for one item, on the column `f`. */
  function Clause(f: string, item: Item): string {
    if item.Year? then YearClause(f) else SpanClause(f)
  }

  function Bindings(item: Item): seq<int> {
    match item
    case Year(n) => [n]
    case Span(a, z) => [a, z]
  }

  /** The items of the slugs, if every slug can be read. */
  function ReadAll(slugs: seq<string>): Option<seq<Item>> {
    if forall i | 0 <= i < |slugs| :: ReadSlug(slugs[i]).Some? then
      Some(seq(|slugs|, i requires 0 <= i < |slugs| => ReadSlug(slugs[i]).value))
    else None
  }

  function Clauses(f: string, items: seq<Item>): seq<string> {
    seq(|items|, i requires 0 <= i < |items| => Clause(f, items[i]))
  }

  function AllBindings(items: seq<Item>): seq<int> {
    if items == [] then [] else Bindings(items[0]) + AllBindings(items[1..])
  }

  function Where(f: string, items: seq<Item>): (string, seq<int>) {
    ("(" + (Join(Clauses(f, items), " OR ") + ")"), AllBindings(items))
  }

  const FIELD_NAME := "year_of_publication"

  function Compile(param: string): Option<(string, seq<int>)> {
    var items := ReadAll(Slugs(param));
    if items.None? then None else Some(Where(FIELD_NAME, items.value))
  }

  datatype Outcome = NotGiven | Coerced | InvalidDateArgument

  lemma {:induction false} BindingsSnoc(f: string, items: seq<Item>, item: Item)
    ensures AllBindings(items + [item]) == AllBindings(items) + Bindings(item)
    ensures Clauses(f, items + [item]) == Clauses(f, items) + [Clause(f, item)]
  {
    if items == [] {
      assert items + [item] == [item];
    } else {
      assert (items + [item])[1..] == items[1..] + [item];
      BindingsSnoc(f, items[1..], item);
    }
  }

  lemma ReadRange(slug: string)
    requires MatchRange(slug).Some?
    ensures var m := MatchRange(slug).value;
            ReadSlug(slug) == if RubyInteger(m.0).Some? && RubyInteger(m.1).Some?
                              then Some(Span(RubyInteger(m.0).value, RubyInteger(m.1).value)) else None
  {
  }

  lemma AppendTwice(vs: seq<int>, a: int, b: int)
    ensures vs + [a] + [b] == vs + [a, b]
  {
  }

  lemma ReadOneMore(slugs: seq<string>, items: seq<Item>, item: Item)
    requires |items| < |slugs| && ReadSlug(slugs[|items|]) == Some(item)
    requires forall j | 0 <= j < |items| :: ReadSlug(slugs[j]) == Some(items[j])
    ensures forall j | 0 <= j <= |items| :: ReadSlug(slugs[j]) == Some((items + [item])[j])
  {
  }

  class YearOfPublicationCoercion {
    var yop: Option<string>
    var whereParameters: Option<(string, seq<int>)>

    /** The loop over the slugs; `ok` is false when a slug raised `ArgumentError`. */
    method CollectClauses(fieldName: string, slugs: seq<string>)
      returns (ok: bool, whereClauses: seq<string>, whereValues: seq<int>)
      ensures ok <==> ReadAll(slugs).Some?
      ensures ok ==> whereClauses == Clauses(fieldName, ReadAll(slugs).value)
      ensures ok ==> whereValues == AllBindings(ReadAll(slugs).value)
    {
      whereClauses, whereValues := [], [];
      ghost var items: seq<Item> := [];
      var i := 0;
      while i < |slugs|
        invariant 0 <= i <= |slugs| && |items| == i
        invariant forall j | 0 <= j < i :: ReadSlug(slugs[j]) == Some(items[j])
        invariant whereClauses == Clauses(fieldName, items) && whereValues == AllBindings(items)
      {
        var slug := slugs[i];
        var range := MatchRange(slug);
        if range.Some? {
          ReadRange(slug);
          whereClauses := whereClauses + [SpanClause(fieldName)];
          var first := RubyInteger(range.value.0);
          if first.None? {
            return false, whereClauses, whereValues;
          }
          whereValues := whereValues + [first.value];
          var last := RubyInteger(range.value.1);
          if last.None? {
            return false, whereClauses, whereValues;
          }
          whereValues := whereValues + [last.value];
          BindingsSnoc(fieldName, items, Span(first.value, last.value));
          AppendTwice(AllBindings(items), first.value, last.value);
          ReadOneMore(slugs, items, Span(first.value, last.value));
          items := items + [Span(first.value, last.value)];
        } else {
          whereClauses := whereClauses + [YearClause(fieldName)];
          var year := RubyInteger(slug);
          if year.None? {
            return false, whereClauses, whereValues;
          }
          whereValues := whereValues + [year.value];
          BindingsSnoc(fieldName, items, Year(year.value));
          ReadOneMore(slugs, items, Year(year.value));
          items := items + [Year(year.value)];
        }
        i := i + 1;
      }
      assert ReadAll(slugs).Some? && ReadAll(slugs).value == items;
      return true, whereClauses, whereValues;
    }

    method CoerceYop(param: Option<string>) returns (outcome: Outcome)
      requires param.Some? ==> '\n' !in param.value
      modifies this
      ensures param.None? ==> outcome == NotGiven
      ensures param.Some? ==> outcome == if Compile(param.value).Some? then Coerced else InvalidDateArgument
      ensures outcome == Coerced ==> yop == param && whereParameters == Compile(param.value)
      ensures outcome != Coerced ==> yop == old(yop) && whereParameters == old(whereParameters)
    {
      if param.None? {
        return NotGiven;
      }
      var ok, whereClauses, whereValues := CollectClauses(FIELD_NAME, Slugs(param.value));
      if !ok {
        return InvalidDateArgument;
      }
      yop := param;
      whereParameters := Some(("(" + (Join(whereClauses, " OR ") + ")"), whereValues));
      return Coerced;
    }
  }

  // ---------- the clause, evaluated ----------

  /** A parsed prefix: its truth value, the text after it and the values not yet bound. */
  datatype Parsed = SyntaxError | Got(truth: bool, rest: string, unbound: seq<int>)

  /**
   * SQL conditions: parentheses, comparisons of the column `f` with a mark, `AND` before `OR`.
   * `y` is the row's year; a null year satisfies no comparison.
   */
  function Primary(f: string, s: string, vs: seq<int>, y: Option<int>): (r: Parsed)
    ensures r.Got? ==> |r.rest| < |s|
    decreases |s|, 0
  {
    if StartsWith(s, "(") then
      var r := Disjunction(f, s[1..], vs, y);
      if r.Got? && StartsWith(r.rest, ")") then Got(r.truth, r.rest[1..], r.unbound) else SyntaxError
    else if vs == [] || !StartsWith(s, f) then SyntaxError
    else Comparison(s[|f|..], vs, y)
  }

  function Comparison(s: string, vs: seq<int>, y: Option<int>): (r: Parsed)
    requires vs != []
    ensures r.Got? ==> |r.rest| < |s|
  {
    if StartsWith(s, " = ?") then Got(y.Some? && y.value == vs[0], s[4..], vs[1..])
    else if StartsWith(s, " >= ?") then Got(y.Some? && y.value >= vs[0], s[5..], vs[1..])
    else if StartsWith(s, " <= ?") then Got(y.Some? && y.value <= vs[0], s[5..], vs[1..])
    else SyntaxError
  }

  function Conjunction(f: string, s: string, vs: seq<int>, y: Option<int>): (r: Parsed)
    ensures r.Got? ==> |r.rest| < |s|
    decreases |s|, 1
  {
    var l := Primary(f, s, vs, y);
    if l.Got? && StartsWith(l.rest, " AND ") then
      var r := Conjunction(f, l.rest[5..], l.unbound, y);
      if r.Got? then Got(l.truth && r.truth, r.rest, r.unbound) else SyntaxError
    else l
  }

  function Disjunction(f: string, s: string, vs: seq<int>, y: Option<int>): (r: Parsed)
    ensures r.Got? ==> |r.rest| < |s|
    decreases |s|, 2
  {
    var l := Conjunction(f, s, vs, y);
    if l.Got? && StartsWith(l.rest, " OR ") then
      var r := Disjunction(f, l.rest[4..], l.unbound, y);
      if r.Got? then Got(l.truth || r.truth, r.rest, r.unbound) else SyntaxError
    else l
  }

  /** The truth of a whole clause for a row's year, with every value bound to a mark, left to right. */
  function EvalWhere(f: string, text: string, vs: seq<int>, y: Option<int>): Option<bool> {
    var r := Disjunction(f, text, vs, y);
    if r.Got? && r.rest == "" && r.unbound == [] then Some(r.truth) else None
  }

  function CountMarks(s: string): nat {
    if s == "" then 0 else (if s[0] == '?' then 1 else 0) + CountMarks(s[1..])
  }

  // ---------- meaning ----------

  predicate Covers(item: Item, y: Option<int>) {
    y.Some? &&
    match item
    case Year(n) => y.value == n
    case Span(a, z) => a <= y.value <= z
  }

  predicate AnyCovers(items: seq<Item>, y: Option<int>) {
    exists i | 0 <= i < |items| :: Covers(items[i], y)
  }

  /** A column name that the clause grammar can tell from a parenthesis and from a mark. */
  predicate ColumnName(f: string) {
    f != "" && f[0] != '(' && Lacks(f, '?')
  }

  lemma StartsPrefix(p: string, rest: string)
    ensures StartsWith(p + rest, p) && (p + rest)[|p|..] == rest
  {
  }

  /** Neither connective follows unless a blank does. */
  lemma NoConnective(s: string)
    requires s != "" && s[0] != ' '
    ensures !StartsWith(s, " AND ") && !StartsWith(s, " OR ")
  {
    assert |s| >= 5 ==> s[..5][0] == s[0];
    assert |s| >= 4 ==> s[..4][0] == s[0];
  }

  lemma OrIsNotAnd(s: string)
    requires StartsWith(s, " OR ")
    ensures !StartsWith(s, " AND ")
  {
    assert s[1] == s[..4][1] == 'O';
    assert |s| >= 5 ==> s[..5][1] == s[1];
  }

  lemma PrimaryEquals(f: string, rest: string, v: int, vs: seq<int>, y: Option<int>)
    requires ColumnName(f)
    ensures Primary(f, f + (" = ?" + rest), [v] + vs, y) == Got(y.Some? && y.value == v, rest, vs)
  {
    PrimaryIsComparison(f, " = ?" + rest, v, vs, y);
    StartsPrefix(" = ?", rest);
  }

  lemma PrimaryAtLeast(f: string, rest: string, v: int, vs: seq<int>, y: Option<int>)
    requires ColumnName(f)
    ensures Primary(f, f + (" >= ?" + rest), [v] + vs, y) == Got(y.Some? && y.value >= v, rest, vs)
  {
    var s := " >= ?" + rest;
    PrimaryIsComparison(f, s, v, vs, y);
    StartsPrefix(" >= ?", rest);
    assert s[..4][1] == s[1] == '>';
    assert !StartsWith(s, " = ?");
  }

  lemma PrimaryAtMost(f: string, rest: string, v: int, vs: seq<int>, y: Option<int>)
    requires ColumnName(f)
    ensures Primary(f, f + (" <= ?" + rest), [v] + vs, y) == Got(y.Some? && y.value <= v, rest, vs)
  {
    var s := " <= ?" + rest;
    PrimaryIsComparison(f, s, v, vs, y);
    StartsPrefix(" <= ?", rest);
    assert s[..4][1] == s[1] == '<';
    assert s[..5][1] == s[1];
    assert !StartsWith(s, " = ?") && !StartsWith(s, " >= ?");
  }

  lemma PrimaryIsComparison(f: string, s: string, v: int, vs: seq<int>, y: Option<int>)
    requires ColumnName(f)
    ensures Primary(f, f + s, [v] + vs, y) == Comparison(s, [v] + vs, y)
    ensures ([v] + vs)[1..] == vs
  {
    StartsPrefix(f, s);
    assert (f + s)[..1][0] == f[0];
    assert !StartsWith(f + s, "(");
  }

  lemma ParenthesesMean(f: string, body: string, rest: string, vs: seq<int>, y: Option<int>)
    requires Disjunction(f, body, vs, y).Got? && Disjunction(f, body, vs, y).rest == ")" + rest
    ensures Primary(f, "(" + body, vs, y) == Disjunction(f, body, vs, y).(rest := rest)
  {
    StartsPrefix("(", body);
    StartsPrefix(")", rest);
  }

  lemma YearClauseMeans(f: string, n: int, rest: string, vs: seq<int>, y: Option<int>)
    requires ColumnName(f)
    ensures Primary(f, "(" + (f + (" = ?" + (")" + rest))), [n] + vs, y) == Got(Covers(Year(n), y), rest, vs)
  {
    var close := ")" + rest;
    var body := f + (" = ?" + close);
    PrimaryEquals(f, close, n, vs, y);
    NoConnective(close);
    ParenthesesMean(f, body, rest, [n] + vs, y);
  }

  lemma SpanClauseMeans(f: string, a: int, z: int, rest: string, vs: seq<int>, y: Option<int>)
    requires ColumnName(f)
    ensures Primary(f, "(" + (f + (" >= ?" + (" AND " + (f + (" <= ?" + (")" + rest)))))), [a] + ([z] + vs), y)
         == Got(Covers(Span(a, z), y), rest, vs)
  {
    var close := ")" + rest;
    var second := f + (" <= ?" + close);
    var tail := " AND " + second;
    var body := f + (" >= ?" + tail);
    PrimaryAtLeast(f, tail, a, [z] + vs, y);
    PrimaryAtMost(f, close, z, vs, y);
    NoConnective(close);
    assert Conjunction(f, second, [z] + vs, y) == Primary(f, second, [z] + vs, y);
    StartsPrefix(" AND ", second);
    assert Conjunction(f, body, [a] + ([z] + vs), y) == Got(Covers(Span(a, z), y), close, vs);
    ParenthesesMean(f, body, rest, [a] + ([z] + vs), y);
  }

  /** A clause is read as one condition that means what its item covers, and binds just its own values. */
  lemma ClauseMeans(f: string, item: Item, rest: string, vs: seq<int>, y: Option<int>)
    requires ColumnName(f)
    ensures Primary(f, Clause(f, item) + rest, Bindings(item) + vs, y) == Got(Covers(item, y), rest, vs)
  {
    hide Primary, Covers;
    match item {
      case Year(n) =>
        YearClauseMeans(f, n, rest, vs, y);
        assert Clause(f, item) + rest == "(" + (f + (" = ?" + (")" + rest)));
      case Span(a, z) =>
        SpanClauseMeans(f, a, z, rest, vs, y);
        assert Clause(f, item) + rest == "(" + (f + (" >= ?" + (" AND " + (f + (" <= ?" + (")" + rest))))));
        assert [a, z] + vs == [a] + ([z] + vs);
    }
  }

  lemma {:induction false} DisjunctionMeans(f: string, items: seq<Item>, vs: seq<int>, y: Option<int>)
    requires ColumnName(f) && items != []
    ensures Disjunction(f, Join(Clauses(f, items), " OR ") + ")", AllBindings(items) + vs, y)
         == Got(AnyCovers(items, y), ")", vs)
  {
    var cs, rest := Clauses(f, items), items[1..];
    assert Clauses(f, rest) == cs[1..];
    if |items| == 1 {
      ClauseMeans(f, items[0], ")", vs, y);
      NoConnective(")");
      assert AllBindings(items) == Bindings(items[0]) + AllBindings(rest) == Bindings(items[0]);
      assert Join(cs, " OR ") == cs[0];
    } else {
      var tail := Join(cs[1..], " OR ") + ")";
      var more := " OR " + tail;
      assert Join(cs, " OR ") + ")" == cs[0] + more;
      assert AllBindings(items) + vs == Bindings(items[0]) + (AllBindings(rest) + vs);
      ClauseMeans(f, items[0], more, AllBindings(rest) + vs, y);
      StartsPrefix(" OR ", tail);
      OrIsNotAnd(more);
      DisjunctionMeans(f, rest, vs, y);
      AnyCoversSplit(items, y);
    }
  }

  lemma AnyCoversSplit(items: seq<Item>, y: Option<int>)
    requires items != []
    ensures AnyCovers(items, y) <==> Covers(items[0], y) || AnyCovers(items[1..], y)
  {
    if i :| 0 <= i < |items| && Covers(items[i], y) {
      assert i > 0 ==> items[1..][i - 1] == items[i];
    }
    if i :| 0 <= i < |items| - 1 && Covers(items[1..][i], y) {
      assert items[i + 1] == items[1..][i];
    }
  }

  /** The compiled clause is well formed, uses every value, and means the union of the items. */
  lemma WhereMeans(f: string, items: seq<Item>, y: Option<int>)
    requires ColumnName(f) && items != []
    ensures EvalWhere(f, Where(f, items).0, Where(f, items).1, y) == Some(AnyCovers(items, y))
  {
    var body := Join(Clauses(f, items), " OR ") + ")";
    DisjunctionMeans(f, items, [], y);
    assert AllBindings(items) + [] == AllBindings(items);
    assert ")" + "" == ")";
    ParenthesesMean(f, body, "", AllBindings(items), y);
    var vs := AllBindings(items);
    assert Conjunction(f, "(" + body, vs, y) == Primary(f, "(" + body, vs, y);
    assert Disjunction(f, "(" + body, vs, y) == Primary(f, "(" + body, vs, y);
  }

  lemma {:induction false} MarksCat(a: string, b: string)
    ensures CountMarks(a + b) == CountMarks(a) + CountMarks(b)
  {
    if a == "" {
      assert a + b == b;
    } else {
      assert (a + b)[1..] == a[1..] + b;
      MarksCat(a[1..], b);
    }
  }

  lemma {:induction false} NoMarks(s: string)
    requires Lacks(s, '?')
    ensures CountMarks(s) == 0
  {
    if s != "" {
      NoMarks(s[1..]);
    }
  }

  lemma OneMark(s: string)
    requires s != "" && s[|s| - 1] == '?' && Lacks(s[..|s| - 1], '?')
    ensures CountMarks(s) == 1
  {
    var front := s[..|s| - 1];
    NoMarks(front);
    assert s == front + "?";
    MarksCat(front, "?");
    assert "?"[1..] == "";
  }

  lemma ClauseMarks(f: string, item: Item)
    requires ColumnName(f)
    ensures CountMarks(Clause(f, item)) == |Bindings(item)|
  {
    NoMarks("(");
    NoMarks(f);
    NoMarks(")");
    match item {
      case Year(_) =>
        OneMark(" = ?");
        MarksCat(" = ?", ")");
        MarksCat(f, " = ?" + ")");
        MarksCat("(", f + (" = ?" + ")"));
      case Span(_, _) =>
        OneMark(" >= ?");
        OneMark(" <= ?");
        NoMarks(" AND ");
        var end := " <= ?" + ")";
        MarksCat(" <= ?", ")");
        MarksCat(f, end);
        MarksCat(" AND ", f + end);
        MarksCat(" >= ?", " AND " + (f + end));
        MarksCat(f, " >= ?" + (" AND " + (f + end)));
        MarksCat("(", f + (" >= ?" + (" AND " + (f + end))));
    }
  }

  lemma {:induction false} JoinedMarks(f: string, items: seq<Item>)
    requires ColumnName(f)
    ensures CountMarks(Join(Clauses(f, items), " OR ")) == |AllBindings(items)|
  {
    if items != [] {
      var cs := Clauses(f, items);
      assert Clauses(f, items[1..]) == cs[1..];
      ClauseMarks(f, items[0]);
      JoinedMarks(f, items[1..]);
      if |items| > 1 {
        MarksCat(cs[0] + " OR ", Join(cs[1..], " OR "));
        MarksCat(cs[0], " OR ");
        NoMarks(" OR ");
      } else {
        assert AllBindings(items[1..]) == [];
      }
    }
  }

  /** As many values as `?` marks. */
  lemma MarksAgree(f: string, items: seq<Item>)
    requires ColumnName(f)
    ensures CountMarks(Where(f, items).0) == |Where(f, items).1|
  {
    var body := Join(Clauses(f, items), " OR ");
    JoinedMarks(f, items);
    MarksCat(body, ")");
    MarksCat("(", body + ")");
    NoMarks("(");
    NoMarks(")");
  }

  lemma ReadAllExactly(slugs: seq<string>)
    ensures ReadAll(slugs).Some? <==> forall i | 0 <= i < |slugs| :: WellFormed(slugs[i])
  {
    forall i | 0 <= i < |slugs| ensures ReadSlug(slugs[i]).Some? <==> WellFormed(slugs[i]) {
      ReadSlugAccepts(slugs[i]);
    }
  }

  /** A year is covered by something that one of the slugs spells. */
  ghost predicate Listed(slugs: seq<string>, y: Option<int>) {
    exists i, item :: 0 <= i < |slugs| && Spells(slugs[i], item) && Covers(item, y)
  }

  lemma ListedIsCovered(slugs: seq<string>, items: seq<Item>, y: Option<int>)
    requires ReadAll(slugs) == Some(items)
    ensures Listed(slugs, y) <==> AnyCovers(items, y)
  {
    ReadAllExactly(slugs);
    if i, item :| 0 <= i < |slugs| && Spells(slugs[i], item) && Covers(item, y) {
      ReadSlugAccepts(slugs[i]);
      assert item == items[i];
    }
    if i :| 0 <= i < |items| && Covers(items[i], y) {
      ReadSlugAccepts(slugs[i]);
      assert Spells(slugs[i], items[i]);
    }
  }

  lemma FieldNameIsColumn()
    ensures ColumnName(FIELD_NAME)
  {
  }

  /**
   * The compiler preserves meaning: it accepts exactly the filters all of whose slugs spell something,
   * its marks and values agree in number, and a row's year satisfies the clause iff the filter lists it.
   */
  lemma CompilePreservesMeaning(param: string, y: Option<int>)
    requires Slugs(param) != []
    ensures Compile(param).Some? <==> forall i | 0 <= i < |Slugs(param)| :: WellFormed(Slugs(param)[i])
    ensures Compile(param).Some? ==>
              var (text, values) := Compile(param).value;
              && CountMarks(text) == |values|
              && EvalWhere(FIELD_NAME, text, values, y) == Some(Listed(Slugs(param), y))
  {
    var slugs := Slugs(param);
    ReadAllExactly(slugs);
    if Compile(param).Some? {
      var items := ReadAll(slugs).value;
      FieldNameIsColumn();
      MarksAgree(FIELD_NAME, items);
      WhereMeans(FIELD_NAME, items, y);
      ListedIsCovered(slugs, items, y);
    }
  }

  lemma EmptyClauseIsNotSql(f: string, y: Option<int>)
    ensures Where(f, []) == ("(" + ("" + ")"), [])
    ensures EvalWhere(f, Where(f, []).0, Where(f, []).1, y).None?
  {
    assert Clauses(f, []) == [];
    assert "" + ")" == ")";
    StartsPrefix("(", ")");
    assert ")"[..1][0] == ')';
    assert Primary(f, ")", [], y) == SyntaxError;
    assert Conjunction(f, ")", [], y) == SyntaxError;
    assert Disjunction(f, ")", [], y) == SyntaxError;
    assert Primary(f, "(" + ")", [], y) == SyntaxError;
    assert Conjunction(f, "(" + ")", [], y) == SyntaxError;
  }

  /** An accepted parameter gives a clause that SQL can read exactly when it holds a slug at all. */
  lemma ReadableClauseExactly(param: string, y: Option<int>)
    requires Compile(param).Some?
    ensures EvalWhere(FIELD_NAME, Compile(param).value.0, Compile(param).value.1, y).Some? <==> Slugs(param) != []
  {
    ReadAllExactly(Slugs(param));
    if Slugs(param) != [] {
      FieldNameIsColumn();
      WhereMeans(FIELD_NAME, ReadAll(Slugs(param)).value, y);
    } else {
      EmptyClauseIsNotSql(FIELD_NAME, y);
    }
  }

  /** A lone pipe holds no slug, and neither does the empty string. */
  lemma PipeHoldsNoSlug()
    ensures Slugs("|") == [] && Slugs("") == []
  {
    SplitCat("", '|', "");
    assert "" + "|" + "" == "|";
    assert Split("|", '|') == ["", ""];
    assert Fields("|") == [];
  }

  /** So a lone pipe is accepted, and compiles to a clause that SQL cannot read. */
  lemma PipeCompilesToNothing(y: Option<int>)
    ensures Compile("|") == Some(("()", [])) && EvalWhere(FIELD_NAME, "()", [], y).None?
  {
    PipeHoldsNoSlug();
    assert Compile("|") == Some(Where(FIELD_NAME, []));
    assert "(" + ("" + ")") == "()";
    ReadableClauseExactly("|", y);
  }

  lemma {:induction false} BlankTrims(b: string)
    requires AllSpace(b)
    ensures TrimLeft(b) == TrimRight(b) == Trim(b) == ""
  {
    assert b + "" == b && "" + b == b;
    TrimLeftIs(b, "");
    TrimRightIs("", b);
  }

  /** The parts between the pipes, each stripped; of several, the blank ones at the end are forgotten. */
  function StrippedParts(param: string): seq<string> {
    var raw := Split(param, '|');
    var parts := seq(|raw|, i requires 0 <= i < |raw| => Trim(raw[i]));
    if |raw| == 1 then (if param == "" then [] else parts) else DropTrailingEmpty(parts)
  }

  lemma BetweenTrims(raw: seq<string>, i: nat)
    requires i < |raw| && |raw| > 1
    ensures Trim(Between(raw, i)) == Trim(raw[i]) && (Between(raw, i) == "" <==> Trim(raw[i]) == "")
  {
    var s := raw[i];
    var pre := TrimLeftCuts(s);
    var post := TrimRightCuts(TrimLeft(s));
    var core := Trim(s);
    assert s == pre + core + post;
    if core == "" {
      assert AllSpace(s);
      BlankTrims(s);
    } else {
      assert core[0] == TrimLeft(s)[0] && !IsSpace(core[|core| - 1]);
      EndsTrim(pre, core, post);
    }
  }

  lemma EndsTrim(pre: string, core: string, post: string)
    requires AllSpace(pre) && AllSpace(post) && core != "" && !IsSpace(core[0]) && !IsSpace(core[|core| - 1])
    ensures var s := pre + core + post;
            Trim(TrimLeft(s)) == Trim(TrimRight(s)) == Trim(Trim(s)) == core && TrimLeft(s) != "" && TrimRight(s) != ""
  {
    TrimIs(pre, core, post);
    TrimIs("", core, post);
    TrimIs(pre, core, "");
    TrimNothing(core);
    assert pre + core + post == pre + (core + post);
    TrimLeftIs(pre, core + post);
    TrimRightIs(pre + core, post);
    assert "" + core + post == core + post && pre + core + "" == pre + core;
  }

  /** Splitting at pipes that take their blanks along, and then stripping, leaves exactly those parts. */
  lemma SlugsAreStrippedParts(param: string)
    ensures Slugs(param) == StrippedParts(param)
  {
    hide Trim, Between, Split;
    var raw := Split(param, '|');
    var between := seq(|raw|, i requires 0 <= i < |raw| => Between(raw, i));
    var parts := seq(|raw|, i requires 0 <= i < |raw| => Trim(raw[i]));
    if |raw| == 1 {
      OnePart(param);
    } else {
      forall i | 0 <= i < |raw| ensures Trim(between[i]) == parts[i] && (between[i] == "" <==> parts[i] == "") {
        BetweenTrims(raw, i);
      }
      SameEmptyEnds(between, parts);
    }
  }

  lemma {:induction false} SameEmptyEnds(a: seq<string>, b: seq<string>)
    requires |a| == |b| && forall i | 0 <= i < |a| :: a[i] == "" <==> b[i] == ""
    ensures |DropTrailingEmpty(a)| == |DropTrailingEmpty(b)|
  {
    if a != [] && a[|a| - 1] == "" {
      SameEmptyEnds(a[..|a| - 1], b[..|b| - 1]);
    }
  }

  lemma OnePart(param: string)
    requires |Split(param, '|')| == 1
    ensures Split(param, '|') == [param] && Slugs(param) == if param == "" then [] else [Trim(param)]
  {
    OneSplit(param);
    assert Between([param], 0) == param;
    assert Fields(param) == DropTrailingEmpty([param]);
  }

  lemma {:induction false} OneSplit(s: string)
    requires |Split(s, '|')| == 1
    ensures Split(s, '|') == [s]
  {
    if s != "" {
      OneSplit(s[1..]);
      assert [s[0]] + s[1..] == s;
    }
  }

  // ---------- from items to text and back ----------

  function Spelling(item: Item): string
    requires item.Span? ==> item.first >= 0 && item.last >= 0
  {
    match item
    case Year(n) => if n < 0 then "-" + Decimal(-n) else Decimal(n)
    case Span(a, z) => Decimal(a) + ("-" + Decimal(z))
  }

  predicate Spellable(items: seq<Item>) {
    forall i | 0 <= i < |items| :: items[i].Span? ==> items[i].first >= 0 && items[i].last >= 0
  }

  function Spellings(items: seq<Item>): seq<string>
    requires Spellable(items)
  {
    seq(|items|, i requires 0 <= i < |items| => Spelling(items[i]))
  }

  lemma DecimalIsInteger(n: int)
    requires n >= 0
    ensures RubyInteger(Decimal(n)) == Some(n)
    ensures RubyInteger("-" + Decimal(n)).Some? && RubyInteger("-" + Decimal(n)).value == -n
  {
    DecimalSpells(n);
    var ds := Decimal(n);
    assert ("-" + ds)[1..] == ds;
    assert IsDigit(ds[0]);
  }

  /** A text that a pipe or a blank cannot cut. */
  predicate PlainText(s: string) {
    Lacks(s, '|') && s != "" && !IsSpace(s[0]) && !IsSpace(s[|s| - 1])
  }

  lemma YearReadsBack(n: int)
    ensures ReadSlug(Spelling(Year(n))) == Some(Year(n)) && PlainText(Spelling(Year(n)))
  {
    DecimalIsInteger(if n < 0 then -n else n);
    assert Spells(Spelling(Year(n)), Year(n));
    ReadSlugExactly(Spelling(Year(n)), Year(n));
  }

  lemma SpanReadsBack(a: nat, z: nat)
    ensures ReadSlug(Spelling(Span(a, z))) == Some(Span(a, z)) && PlainText(Spelling(Span(a, z)))
  {
    var first, last := Decimal(a), Decimal(z);
    var text := first + ("-" + last);
    DecimalIsInteger(a);
    DecimalIsInteger(z);
    ReassembleRange(text, first, "", "", last, "-" + last, "-" + last, last);
    RangeTextMatches(text, first, "", "", last);
    PlainSpan(first, last);
  }

  lemma PlainSpan(first: string, last: string)
    requires first != "" && AllDigits(first) && last != "" && AllDigits(last)
    ensures PlainText(first + ("-" + last))
  {
    var text := first + ("-" + last);
    assert text[0] == first[0] && text[|text| - 1] == last[|last| - 1];
    assert forall i | 0 <= i < |text| :: text[i] == '-' || IsDigit(text[i]);
  }

  /** Each item's spelling is read back as that item. */
  lemma SpellingReadsBack(item: Item)
    requires item.Span? ==> item.first >= 0 && item.last >= 0
    ensures ReadSlug(Spelling(item)) == Some(item) && PlainText(Spelling(item))
  {
    match item
    case Year(n) => YearReadsBack(n);
    case Span(a, z) => SpanReadsBack(a, z);
  }

  /** The texts with blanks on either side of each. */
  function Blanked(texts: seq<string>, before: seq<string>, after: seq<string>): seq<string>
    requires |before| == |after| == |texts|
  {
    seq(|texts|, i requires 0 <= i < |texts| => before[i] + texts[i] + after[i])
  }

  lemma BlanksCut(b: string, text: string, b': string)
    requires PlainText(text) && AllSpace(b) && AllSpace(b')
    ensures Trim(b + text + b') == Trim(text) == text
    ensures Trim(TrimLeft(b + text + b')) == Trim(TrimRight(b + text + b')) == text
  {
    hide Trim, TrimLeft, TrimRight, AllSpace;
    TrimNothing(text);
    TrimIs(b, text, b');
    EndsTrim(b, text, b');
  }

  lemma BlanksLackPipe(b: string, text: string, b': string)
    requires PlainText(text) && AllSpace(b) && AllSpace(b')
    ensures Lacks(b + text + b', '|') && b + text + b' != ""
  {
  }

  lemma TrimmedFields(texts: seq<string>, before: seq<string>, after: seq<string>)
    requires texts != [] && |before| == |after| == |texts|
    requires forall i | 0 <= i < |texts| :: PlainText(texts[i]) && AllSpace(before[i]) && AllSpace(after[i])
    ensures forall i | 0 <= i < |texts| ::
              Trim(Between(Blanked(texts, before, after), i)) == texts[i] && Lacks(Blanked(texts, before, after)[i], '|')
  {
    hide Trim, TrimLeft, TrimRight;
    var raw := Blanked(texts, before, after);
    forall i | 0 <= i < |texts| ensures Trim(Between(raw, i)) == texts[i] && Lacks(raw[i], '|') {
      BlanksCut(before[i], texts[i], after[i]);
      BlanksLackPipe(before[i], texts[i], after[i]);
      assert raw[i] == before[i] + texts[i] + after[i];
    }
  }

  lemma KeepAll(raw: seq<string>, texts: seq<string>, param: string)
    requires texts != [] && |raw| == |texts| && Split(param, '|') == raw
    requires forall i | 0 <= i < |texts| :: Trim(Between(raw, i)) == texts[i] && texts[i] != ""
    ensures Slugs(param) == texts
  {
    hide Split, Between, Trim;
    var fields := seq(|raw|, i requires 0 <= i < |raw| => Between(raw, i));
    TrimOfNothing();
    assert fields[|fields| - 1] != "";
    assert Fields(param) == fields;
  }

  lemma TrimOfNothing()
    ensures Trim("") == ""
  {
  }

  /** Blanks around the pipes do not matter. */
  lemma SlugsOfBlankedTexts(texts: seq<string>, before: seq<string>, after: seq<string>)
    requires texts != [] && |before| == |after| == |texts|
    requires forall i | 0 <= i < |texts| :: PlainText(texts[i]) && AllSpace(before[i]) && AllSpace(after[i])
    ensures Slugs(Join(Blanked(texts, before, after), ['|'])) == texts
  {
    hide Split, Join, Between, Trim, Slugs;
    var raw := Blanked(texts, before, after);
    TrimmedFields(texts, before, after);
    SplitJoin(raw, '|');
    KeepAll(raw, texts, Join(raw, ['|']));
  }

  /** The texts spell the items, one each. */
  ghost predicate SpelledBy(texts: seq<string>, items: seq<Item>) {
    |texts| == |items| && forall i | 0 <= i < |texts| :: Spells(texts[i], items[i]) && PlainText(texts[i])
  }

  lemma ReadAllSpelled(texts: seq<string>, items: seq<Item>)
    requires SpelledBy(texts, items)
    ensures ReadAll(texts) == Some(items)
  {
    forall i | 0 <= i < |items| ensures ReadSlug(texts[i]) == Some(items[i]) {
      ReadSlugExactly(texts[i], items[i]);
    }
    assert ReadAll(texts).value == items;
  }

  /**
   * From items to text, however they are spelled and whatever blanks surround the pipes, through the
   * compiler, to a clause that means those items.
   */
  lemma SpelledFilterMeans(items: seq<Item>, texts: seq<string>, before: seq<string>, after: seq<string>, y: Option<int>)
    requires items != [] && SpelledBy(texts, items) && |before| == |after| == |texts|
    requires forall i | 0 <= i < |texts| :: AllSpace(before[i]) && AllSpace(after[i])
    ensures var compiled := Compile(Join(Blanked(texts, before, after), ['|']));
            compiled.Some? && EvalWhere(FIELD_NAME, compiled.value.0, compiled.value.1, y) == Some(AnyCovers(items, y))
  {
    hide Slugs, Join, Blanked, ReadAll, Where, EvalWhere;
    SlugsOfBlankedTexts(texts, before, after);
    ReadAllSpelled(texts, items);
    FieldNameIsColumn();
    WhereMeans(FIELD_NAME, items, y);
  }

  /** In particular for the decimal spelling of any list of years and spans. */
  lemma DecimalFilterMeans(items: seq<Item>, before: seq<string>, after: seq<string>, y: Option<int>)
    requires Spellable(items) && items != [] && |before| == |after| == |items|
    requires forall i | 0 <= i < |items| :: AllSpace(before[i]) && AllSpace(after[i])
    ensures var compiled := Compile(Join(Blanked(Spellings(items), before, after), ['|']));
            compiled.Some? && EvalWhere(FIELD_NAME, compiled.value.0, compiled.value.1, y) == Some(AnyCovers(items, y))
  {
    hide Compile, EvalWhere, Spelling;
    forall i | 0 <= i < |items| ensures Spells(Spellings(items)[i], items[i]) && PlainText(Spellings(items)[i]) {
      SpellingReadsBack(items[i]);
      ReadSlugExactly(Spelling(items[i]), items[i]);
    }
    SpelledFilterMeans(items, Spellings(items), before, after, y);
  }

  /** A span written the wrong way round lists no year at all. */
  lemma InvertedSpanIsEmpty(a: nat, z: nat, y: Option<int>)
    requires z < a
    ensures var compiled := Compile(Spelling(Span(a, z)));
            compiled.Some? && EvalWhere(FIELD_NAME, compiled.value.0, compiled.value.1, y) == Some(false)
  {
    hide Compile, EvalWhere, Spelling;
    var text := Spelling(Span(a, z));
    DecimalFilterMeans([Span(a, z)], [""], [""], y);
    assert Spellings([Span(a, z)]) == [text];
    assert "" + text + "" == text;
    assert Blanked([text], [""], [""]) == [text];
    assert Join([text], ['|']) == text;
  }

  lemma CompiledText(items: seq<Item>, before: seq<string>, after: seq<string>)
    requires Spellable(items) && items != [] && |before| == |after| == |items|
    requires forall i | 0 <= i < |items| :: AllSpace(before[i]) && AllSpace(after[i])
    ensures Compile(Join(Blanked(Spellings(items), before, after), ['|'])) == Some(Where(FIELD_NAME, items))
  {
    hide Spelling, Where, Join, Slugs;
    forall i | 0 <= i < |items| ensures Spells(Spellings(items)[i], items[i]) && PlainText(Spellings(items)[i]) {
      SpellingReadsBack(items[i]);
      ReadSlugExactly(Spelling(items[i]), items[i]);
    }
    SlugsOfBlankedTexts(Spellings(items), before, after);
    ReadAllSpelled(Spellings(items), items);
  }

  lemma Years()
    ensures Decimal(2003) == "2003" && Decimal(1994) == "1994" && Decimal(1996) == "1996" && Decimal(1989) == "1989"
  {
    assert Decimal(2) == "2" && Decimal(20) == "20" && Decimal(200) == "200";
    assert Decimal(1) == "1" && Decimal(19) == "19" && Decimal(199) == "199" && Decimal(198) == "198";
  }

  /** Two filters with the clauses and values that the compiler makes of them. */
  lemma CompiledExamples()
    ensures var f := "year_of_publication";
            var year, span := "(" + f + " = ?)", "(" + f + " >= ? AND " + f + " <= ?)";
            && Compile("2003") == Some(("(" + year + ")", [2003]))
            && Compile("1994-1996 | 1989") == Some(("(" + span + " OR " + year + ")", [1994, 1996, 1989]))
  {
    hide Compile, Where, Join, Spellings, Blanked;
    OneYear();
    YearAndSpan();
    CompiledText([Year(2003)], [""], [""]);
    CompiledText([Span(1994, 1996), Year(1989)], ["", " "], [" ", ""]);
    WhereExamples(FIELD_NAME);
    YearClauseText(FIELD_NAME);
    SpanClauseText(FIELD_NAME);
  }

  lemma OneYear()
    ensures Join(Blanked(Spellings([Year(2003)]), [""], [""]), ['|']) == "2003"
  {
    Years();
    hide Decimal;
    var texts := Spellings([Year(2003)]);
    assert texts == ["2003"];
    assert Blanked(texts, [""], [""])[0] == "" + "2003" + "" == "2003";
  }

  lemma YearAndSpan()
    ensures Join(Blanked(Spellings([Span(1994, 1996), Year(1989)]), ["", " "], [" ", ""]), ['|']) == "1994-1996 | 1989"
  {
    Years();
    hide Decimal;
    var texts := Spellings([Span(1994, 1996), Year(1989)]);
    assert texts[0] == "1994" + ("-" + "1996") == "1994-1996" && texts[1] == "1989";
    var raw := Blanked(texts, ["", " "], [" ", ""]);
    assert raw[0] == "" + texts[0] + " " == "1994-1996 " && raw[1] == " " + texts[1] + "" == " 1989";
    assert raw[1..] == [" 1989"];
    assert Join(raw, ['|']) == raw[0] + ['|'] + Join(raw[1..], ['|']);
    assert "1994-1996 " + ['|'] + " 1989" == "1994-1996 | 1989";
  }

  lemma WhereExamples(f: string)
    ensures Where(f, [Year(2003)]) == ("(" + YearClause(f) + ")", [2003])
    ensures Where(f, [Span(1994, 1996), Year(1989)]) == ("(" + SpanClause(f) + " OR " + YearClause(f) + ")", [1994, 1996, 1989])
  {
    hide YearClause, SpanClause;
    var items := [Span(1994, 1996), Year(1989)];
    assert items[1..] == [Year(1989)] && [Year(1989)][1..] == [] && [Year(2003)][1..] == [];
    assert AllBindings(items) == [1994, 1996] + AllBindings(items[1..]);
    assert AllBindings([Year(1989)]) == [1989] + AllBindings([]);
    assert AllBindings([Year(2003)]) == [2003] + AllBindings([]);
    var y, z := YearClause(f), SpanClause(f);
    assert Clauses(f, [Year(2003)]) == [y] && Clauses(f, items) == [z, y];
    assert [z, y][1..] == [y];
    assert Join([y], " OR ") == y && Join([z, y], " OR ") == z + " OR " + y;
    assert "(" + (y + ")") == "(" + y + ")" && "(" + ((z + " OR " + y) + ")") == "(" + z + " OR " + y + ")";
    assert AllBindings([Year(2003)]) == [2003] && AllBindings(items) == [1994, 1996, 1989];
    assert Where(f, [Year(2003)]).0 == "(" + (Join([y], " OR ") + ")");
    assert Where(f, items).0 == "(" + (Join([z, y], " OR ") + ")");
  }

  lemma YearClauseText(f: string)
    ensures YearClause(f) == "(" + f + " = ?)"
  {
    assert " = ?" + ")" == " = ?)";
    assert "(" + (f + " = ?)") == "(" + f + " = ?)";
  }

  lemma SpanClauseText(f: string)
    ensures SpanClause(f) == "(" + f + " >= ? AND " + f + " <= ?)"
  {
    var end := f + " <= ?)";
    assert " <= ?" + ")" == " <= ?)";
    assert " >= ?" + (" AND " + end) == " >= ? AND " + end;
    assert "(" + (f + (" >= ? AND " + end)) == "(" + f + " >= ? AND " + f + " <= ?)";
  }
}
