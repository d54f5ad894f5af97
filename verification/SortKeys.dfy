/**
 * The sort keys of the index: dates padded to two-digit months and days (`AppIndexer#add_date`) and
 * titles with their numbers padded to six digits (`SortTitle#alphabetical`).
 */
module SortKeys {
  import opened Prelude
  import opened Text

  function Zeros(n: nat): (z: string)
    ensures |z| == n && AllDigits(z) && forall i | 0 <= i < n :: z[i] == '0'
  {
    seq(n, _ => '0')
  }

  /** Ruby's `rjust(width, '0')`. */
  function Rjust(s: string, width: nat): (r: string)
    ensures |r| == if |s| < width then width else |s|
    ensures r[|r| - |s|..] == s
    ensures AllDigits(s) ==> AllDigits(r)
  {
    if |s| < width then Zeros(width - |s|) + s else s
  }

  lemma RjustValue(s: string, width: nat)
    requires AllDigits(s)
    ensures Value(Rjust(s, width), 10) == Value(s, 10)
  {
    if |s| < width {
      LeadingZeros(Zeros(width - |s|), s);
    }
  }

  // ---------- dates ----------

  function PadAll(parts: seq<string>): seq<string> {
    seq(|parts|, i requires 0 <= i < |parts| => Rjust(parts[i], 2))
  }

  function PadDateWithZero(s: string): string {
    Join(PadAll(DropTrailingEmpty(Split(s, '-'))), ['-'])
  }

  /** What the index stores for a date string. */
  function DateKey(s: string): string {
    if Lacks(s, '-') then s else PadDateWithZero(s)
  }

  /** `YYYY`, `YYYY-MM` or `YYYY-MM-DD`. */
  predicate ValidFormat(s: string) {
    && (|s| == 4 || |s| == 7 || |s| == 10)
    && (forall i | 0 <= i < |s| :: if i == 4 || i == 7 then s[i] == '-' else IsDigit(s[i]))
  }

  class SolrDocument {
    var fields: map<string, string>

    /** The stored string is the padded one whether or not the format check recognises it. */
    method AddDate(dateCreated: seq<string>)
      modifies this
      ensures fields == if dateCreated == [] then old(fields)
                        else old(fields)["date_tesi" := DateKey(dateCreated[0])]["date_ssi" := DateKey(dateCreated[0])]
    {
      if dateCreated == [] {
        return;
      }
      var dateString := dateCreated[0];
      if '-' in dateString {
        dateString := PadDateWithZero(dateString);
      }
      var date := if ValidFormat(dateString) then Some(dateString) else None;
      if date == None {
        date := Some(dateString);
      }
      fields := fields["date_tesi" := date.value];
      fields := fields["date_ssi" := date.value];
    }
  }

  /** A four-digit year, then perhaps a month, then perhaps a day, these of one or two digits. */
  predicate DateParts(parts: seq<string>) {
    && 1 <= |parts| <= 3
    && (forall i | 0 <= i < |parts| :: AllDigits(parts[i]))
    && |parts[0]| == 4
    && (forall i | 1 <= i < |parts| :: 1 <= |parts[i]| <= 2)
  }

  function Numbers(parts: seq<string>): seq<nat>
    requires forall i | 0 <= i < |parts| :: AllDigits(parts[i])
  {
    seq(|parts|, i requires 0 <= i < |parts| => Value(parts[i], 10))
  }

  /** Chronological order; a partial date comes before the dates that complete it. */
  predicate Earlier(a: seq<nat>, b: seq<nat>) {
    b != [] && (a == [] || a[0] < b[0] || (a[0] == b[0] && Earlier(a[1..], b[1..])))
  }

  lemma DateKeyOfParts(parts: seq<string>)
    requires DateParts(parts)
    ensures DateKey(Join(parts, ['-'])) == Join(PadAll(parts), ['-'])
  {
    var s := Join(parts, ['-']);
    if |parts| == 1 {
      assert PadAll(parts) == parts;
    } else {
      assert s[|parts[0]|] == '-';
      SplitJoin(parts, '-');
    }
  }

  /** What follows the first part when parts are joined. */
  function Tail(p: seq<string>): string
    requires p != []
  {
    if |p| == 1 then "" else ['-'] + Join(p[1..], ['-'])
  }

  predicate SameWidths(p: seq<string>, q: seq<string>) {
    && p != [] && q != []
    && (forall i | 0 <= i < |p| :: AllDigits(p[i]))
    && (forall i | 0 <= i < |q| :: AllDigits(q[i]))
    && (forall i | 0 <= i < |p| && i < |q| :: |p[i]| == |q[i]|)
  }

  lemma JoinIsHeadTail(p: seq<string>)
    requires p != []
    ensures Join(p, ['-']) == p[0] + Tail(p)
  {
  }

  lemma NumbersIsHeadTail(p: seq<string>)
    requires p != [] && forall i | 0 <= i < |p| :: AllDigits(p[i])
    ensures Numbers(p) == [Value(p[0], 10)] + Numbers(p[1..]) && Numbers(p)[1..] == Numbers(p[1..])
  {
  }

  lemma TailOrder(p: seq<string>, q: seq<string>)
    requires p != [] && q != []
    ensures |p| > 1 && |q| > 1 ==> Before(Tail(p), Tail(q)) == Before(Join(p[1..], ['-']), Join(q[1..], ['-']))
    ensures |p| > 1 && |q| > 1 && Tail(p) == Tail(q) ==> Join(p[1..], ['-']) == Join(q[1..], ['-'])
    ensures |p| == 1 || |q| == 1 ==> (Before(Tail(p), Tail(q)) <==> |p| < |q|) && (Tail(p) == Tail(q) ==> |p| == |q|)
  {
    if |p| > 1 && |q| > 1 {
      BeforeCommonPrefix(['-'], Join(p[1..], ['-']), Join(q[1..], ['-']));
      assert Tail(p)[1..] == Join(p[1..], ['-']) && Tail(q)[1..] == Join(q[1..], ['-']);
    }
  }

  lemma EqualHeadsTails(a: string, x: string, b: string, y: string)
    requires |a| == |b| && a + x == b + y
    ensures a == b && x == y
  {
    assert (a + x)[..|a|] == a && (b + y)[..|b|] == b;
    assert (a + x)[|a|..] == x && (b + y)[|b|..] == y;
  }

  lemma {:induction false} JoinedOrder(p: seq<string>, q: seq<string>)
    requires SameWidths(p, q)
    ensures Before(Join(p, ['-']), Join(q, ['-'])) <==> Earlier(Numbers(p), Numbers(q))
    ensures Join(p, ['-']) == Join(q, ['-']) ==> Numbers(p) == Numbers(q)
  {
    hide Join, Tail, Before, Value, Numbers;
    JoinIsHeadTail(p);
    JoinIsHeadTail(q);
    NumbersIsHeadTail(p);
    NumbersIsHeadTail(q);
    BeforeSameLength(p[0], q[0], Tail(p), Tail(q));
    DigitOrder(p[0], q[0]);
    TailOrder(p, q);
    if |p| > 1 && |q| > 1 {
      JoinedOrder(p[1..], q[1..]);
    } else {
      NumbersLength(p[1..]);
      NumbersLength(q[1..]);
    }
    if Join(p, ['-']) == Join(q, ['-']) {
      EqualHeadsTails(p[0], Tail(p), q[0], Tail(q));
    }
  }

  lemma NumbersLength(p: seq<string>)
    requires forall i | 0 <= i < |p| :: AllDigits(p[i])
    ensures |Numbers(p)| == |p|
  {
  }

  lemma PaddedNumbers(parts: seq<string>)
    requires DateParts(parts)
    ensures forall i | 0 <= i < |parts| :: AllDigits(PadAll(parts)[i]) && |PadAll(parts)[i]| == if i == 0 then 4 else 2
    ensures Numbers(PadAll(parts)) == Numbers(parts)
  {
    forall i | 0 <= i < |parts| ensures Value(PadAll(parts)[i], 10) == Value(parts[i], 10) {
      RjustValue(parts[i], 2);
    }
  }

  /** Indexed date strings compare as the dates do, and are equal only for equal dates. */
  lemma DateKeysInOrder(p: seq<string>, q: seq<string>)
    requires DateParts(p) && DateParts(q)
    ensures Before(DateKey(Join(p, ['-'])), DateKey(Join(q, ['-']))) <==> Earlier(Numbers(p), Numbers(q))
    ensures DateKey(Join(p, ['-'])) == DateKey(Join(q, ['-'])) ==> Numbers(p) == Numbers(q)
  {
    DateKeyOfParts(p);
    DateKeyOfParts(q);
    PaddedNumbers(p);
    PaddedNumbers(q);
    PaddedSameWidths(p, q);
    hide *;
    JoinedOrder(PadAll(p), PadAll(q));
  }

  lemma PaddedSameWidths(p: seq<string>, q: seq<string>)
    requires DateParts(p) && DateParts(q)
    ensures SameWidths(PadAll(p), PadAll(q))
  {
    hide Join, Value;
    PaddedNumbers(p);
    PaddedNumbers(q);
  }

  lemma {:induction false} JoinLacks(parts: seq<string>)
    requires |parts| <= 1 && forall i | 0 <= i < |parts| :: Lacks(parts[i], '-')
    ensures Lacks(Join(parts, ['-']), '-')
  {
  }

  lemma PaddedPartsStay(padded: seq<string>)
    requires forall i | 0 <= i < |padded| :: Lacks(padded[i], '-') && |padded[i]| >= 2
    ensures DateKey(Join(padded, ['-'])) == Join(padded, ['-'])
  {
    if |padded| <= 1 {
      JoinLacks(padded);
    } else {
      SplitJoin(padded, '-');
      assert padded[|padded| - 1] != "";
      assert PadAll(padded) == padded;
    }
  }

  /** Normalising a date string twice is normalising it once, whatever the string. */
  lemma DateKeyIdempotent(s: string)
    ensures DateKey(DateKey(s)) == DateKey(s)
  {
    if !Lacks(s, '-') {
      var fields := Split(s, '-');
      var parts := DropTrailingEmpty(fields);
      SplitFieldsLack(s, '-');
      forall i | 0 <= i < |parts| ensures Lacks(PadAll(parts)[i], '-') && |PadAll(parts)[i]| >= 2 {
        assert parts[i] == fields[i] && Lacks(fields[i], '-');
        RjustLacksDash(parts[i]);
      }
      hide Split, DropTrailingEmpty, Join;
      PaddedPartsStay(PadAll(parts));
    }
  }

  lemma RjustLacksDash(s: string)
    requires Lacks(s, '-')
    ensures Lacks(Rjust(s, 2), '-')
  {
  }

  /** The recognised formats: a four-digit year, and a two-digit month and day behind hyphens. */
  lemma ValidFormatExactly(s: string)
    ensures ValidFormat(s) <==>
            || (|s| == 4 && AllDigits(s))
            || (|s| == 7 && AllDigits(s[..4]) && s[4] == '-' && AllDigits(s[5..]))
            || (|s| == 10 && AllDigits(s[..4]) && s[4] == '-' && AllDigits(s[5..7]) && s[7] == '-' && AllDigits(s[8..]))
  {
    if |s| == 7 {
      assert forall i | 0 <= i < 4 :: s[..4][i] == s[i];
      assert forall i | 5 <= i < 7 :: s[5..][i - 5] == s[i];
    } else if |s| == 10 {
      assert forall i | 0 <= i < 4 :: s[..4][i] == s[i];
      assert forall i | 5 <= i < 7 :: s[5..7][i - 5] == s[i];
      assert forall i | 8 <= i < 10 :: s[8..][i - 8] == s[i];
    }
  }

  /** Every date with a four-digit year is recognised once it is padded. */
  lemma PaddedDatesAreRecognised(parts: seq<string>)
    requires DateParts(parts)
    ensures ValidFormat(DateKey(Join(parts, ['-'])))
  {
    hide Join, DateKey, ValidFormat, Value, Numbers;
    DateKeyOfParts(parts);
    PaddedNumbers(parts);
    JoinedIsRecognised(PadAll(parts));
  }

  lemma JoinedIsRecognised(parts: seq<string>)
    requires 1 <= |parts| <= 3
    requires forall i | 0 <= i < |parts| :: AllDigits(parts[i]) && |parts[i]| == if i == 0 then 4 else 2
    ensures ValidFormat(Join(parts, ['-']))
  {
    hide Join, ValidFormat, AllDigits;
    if |parts| == 1 {
      assert parts == [parts[0]];
      YearRecognised(parts[0]);
    } else if |parts| == 2 {
      assert parts == [parts[0], parts[1]];
      JoinTwo(parts[0], parts[1]);
      MonthRecognised(parts[0], parts[1]);
    } else {
      assert parts == [parts[0], parts[1], parts[2]];
      JoinThree(parts[0], parts[1], parts[2]);
      DayRecognised(parts[0], parts[1], parts[2]);
    }
  }

  lemma YearRecognised(y: string)
    requires |y| == 4 && AllDigits(y)
    ensures Join([y], ['-']) == y && ValidFormat(y)
  {
  }

  lemma MonthRecognised(y: string, m: string)
    requires |y| == 4 && AllDigits(y) && |m| == 2 && AllDigits(m)
    ensures ValidFormat(y + ['-'] + m)
  {
  }

  lemma DayRecognised(y: string, m: string, d: string)
    requires |y| == 4 && AllDigits(y) && |m| == 2 && AllDigits(m) && |d| == 2 && AllDigits(d)
    ensures ValidFormat(y + ['-'] + (m + ['-'] + d))
  {
  }

  lemma JoinThree(a: string, b: string, c: string)
    ensures Join([a, b, c], ['-']) == a + ['-'] + (b + ['-'] + c)
  {
    assert [a, b, c][1..] == [b, c];
    JoinTwo(b, c);
  }

  /** The comment in the source: a date whose padded form is not recognised is indexed as it was given. */
  predicate IndexedAsPromised(s: string) {
    !ValidFormat(DateKey(s)) ==> DateKey(s) == s
  }

  lemma {:induction false} JoinSplit(s: string, c: char)
    ensures Join(Split(s, c), [c]) == s
  {
    if s != "" {
      var rest := Split(s[1..], c);
      JoinSplit(s[1..], c);
      assert s == [s[0]] + s[1..];
      if s[0] == c {
        assert Split(s, c)[1..] == rest;
      } else if |rest| > 1 {
        assert Split(s, c)[1..] == rest[1..];
      }
    }
  }

  /** No part is shorter than two characters. */
  predicate WideFields(s: string) {
    forall i | 0 <= i < |Split(s, '-')| :: |Split(s, '-')[i]| >= 2
  }

  lemma WideFieldsStay(s: string)
    requires !Lacks(s, '-') && WideFields(s)
    ensures DateKey(s) == s
  {
    hide Split, Join;
    var fields := Split(s, '-');
    JoinSplit(s, '-');
    assert fields[|fields| - 1] != "";
    assert DropTrailingEmpty(fields) == fields;
    assert PadAll(fields) == fields;
  }

  /** Padding changes nothing exactly when there is no hyphen, or no part is shorter than two characters. */
  lemma PaddingKeepsExactly(s: string)
    ensures DateKey(s) == s <==> Lacks(s, '-') || WideFields(s)
  {
    hide WideFields, PadDateWithZero;
    if !Lacks(s, '-') {
      if WideFields(s) {
        WideFieldsStay(s);
      } else if DateKey(s) == s {
        PaddedFieldsDiffer(s);
      }
    }
  }

  lemma PaddedFieldsDiffer(s: string)
    requires !Lacks(s, '-') && DateKey(s) == s
    ensures WideFields(s)
  {
    var parts := DropTrailingEmpty(Split(s, '-'));
    SplitFieldsLack(s, '-');
    forall i | 0 <= i < |parts| ensures Lacks(PadAll(parts)[i], '-') {
      assert Lacks(Split(s, '-')[i], '-');
      RjustLacksDash(parts[i]);
    }
    if parts != [] {
      SplitJoin(PadAll(parts), '-');
    }
  }

  /** So the comment holds of exactly the dates that are recognised once padded, or that padding leaves alone. */
  lemma PromiseKeptExactly(s: string)
    ensures IndexedAsPromised(s) <==>
            ValidFormat(DateKey(s)) || Lacks(s, '-') || WideFields(s)
  {
    PaddingKeepsExactly(s);
  }

  lemma JoinTwo(a: string, b: string)
    ensures Join([a, b], ['-']) == a + ['-'] + b
  {
    assert [a, b][1..] == [b];
  }

  /** An input on which it fails. */
  lemma UnrecognisedDateIsPadded()
    ensures DateKey("1-2") == "01-02" && !ValidFormat("01-02") && !IndexedAsPromised("1-2")
  {
    var parts := ["1", "2"];
    JoinTwo("1", "2");
    SplitJoin(parts, '-');
    assert "1-2"[1] == '-';
    assert Zeros(1) == "0";
    assert Rjust("1", 2) == "0" + "1" == "01" && Rjust("2", 2) == "0" + "2" == "02";
    assert PadAll(parts) == ["01", "02"];
    JoinTwo("01", "02");
  }

  // ---------- titles ----------

  function LowerChar(c: char): char {
    if 'A' <= c <= 'Z' then (c as int + 32) as char else c
  }

  function Downcase(s: string): string {
    seq(|s|, i requires 0 <= i < |s| => LowerChar(s[i]))
  }

  /** `gsub(/^article[[:space:]]/, '')` on one line. */
  function StripArticle(s: string, article: string): string {
    if |s| > |article| && s[..|article|] == article && IsSpace(s[|article|]) then s[|article| + 1..] else s
  }

  function StripArticles(s: string): string {
    StripArticle(StripArticle(StripArticle(s, "an"), "a"), "the")
  }

  predicate IsQuote(c: char) {
    c == '"' || c == '\''
  }

  function RemoveQuotes(s: string): string {
    if s == "" then "" else (if IsQuote(s[0]) then "" else [s[0]]) + RemoveQuotes(s[1..])
  }

  function WordLength(s: string): (n: nat)
    ensures n <= |s|
    ensures s != "" && !IsSpace(s[0]) ==> n > 0
  {
    if s == "" || IsSpace(s[0]) then 0 else 1 + WordLength(s[1..])
  }

  /** Ruby's `split(' ')`: the maximal runs without whitespace. */
  function Words(s: string): seq<string>
    decreases |s|
  {
    if s == "" then []
    else if IsSpace(s[0]) then Words(s[1..])
    else [s[..WordLength(s)]] + Words(s[WordLength(s)..])
  }

  function Digits(s: string): (ds: string)
    ensures AllDigits(ds)
  {
    if s == "" then "" else (if IsDigit(s[0]) then [s[0]] else "") + Digits(s[1..])
  }

  /** Ruby's `gsub` with a literal pattern. */
  function ReplaceAll(s: string, pat: string, rep: string): string
    requires pat != ""
    decreases |s|
  {
    if |s| < |pat| then s
    else if s[..|pat|] == pat then rep + ReplaceAll(s[|pat|..], pat, rep)
    else [s[0]] + ReplaceAll(s[1..], pat, rep)
  }

  const WIDTH := 6

  function PadWord(w: string): string {
    var numbers := Digits(w);
    if numbers == "" then w else ReplaceAll(w, numbers, Rjust(numbers, WIDTH))
  }

  function PadWords(ws: seq<string>): seq<string> {
    seq(|ws|, i requires 0 <= i < |ws| => PadWord(ws[i]))
  }

  function TitleKey(title: string): string {
    Trim(Join(PadWords(Words(RemoveQuotes(StripArticles(Downcase(title))))), " "))
  }

  class SortTitle {
    const title: string

    constructor (title: string)
      ensures this.title == title
    {
      this.title := title;
    }

    method Alphabetical() returns (key: string)
      ensures key == TitleKey(title)
      ensures key == Join(Words(key), " ") && Folded(key) && KeyWords(Words(key))
    {
      key := Downcase(title);
      key := StripArticle(key, "an");
      key := StripArticle(key, "a");
      key := StripArticle(key, "the");
      key := RemoveQuotes(key);
      var elements := Words(key);
      var newTitle := PadElements(elements);
      key := Trim(Join(newTitle, " "));
      KeyShape(title);
    }

    /** The loop over the words. */
    method PadElements(elements: seq<string>) returns (newTitle: seq<string>)
      ensures newTitle == PadWords(elements)
    {
      hide Digits, ReplaceAll, Rjust;
      newTitle := [];
      var i := 0;
      while i < |elements|
        invariant 0 <= i <= |elements| == |PadWords(elements)|
        invariant newTitle == PadWords(elements)[..i]
      {
        var element := elements[i];
        var numbers := Digits(element);
        if numbers != "" {
          element := ReplaceAll(element, numbers, Rjust(numbers, WIDTH));
        }
        newTitle := newTitle + [element];
        i := i + 1;
      }
    }
  }

  // ---------- each stage on a title with one number singled out ----------

  predicate Solid(w: string) {
    w != "" && NoSpace(w)
  }

  predicate EndsInSpace(s: string) {
    s == "" || IsSpace(s[|s| - 1])
  }

  predicate StartsWithSpace(s: string) {
    s == "" || IsSpace(s[0])
  }

  lemma DowncaseParts(front: string, w: string, back: string)
    requires EndsInSpace(front) && Solid(w) && StartsWithSpace(back)
    ensures Downcase(front + w + back) == Downcase(front) + Downcase(w) + Downcase(back)
    ensures EndsInSpace(Downcase(front)) && Solid(Downcase(w)) && StartsWithSpace(Downcase(back))
  {
  }

  lemma DowncaseNumber(pre: string, n: string, post: string)
    requires NoDigits(pre) && AllDigits(n) && NoDigits(post)
    ensures Downcase(pre + n + post) == Downcase(pre) + n + Downcase(post)
    ensures NoDigits(Downcase(pre)) && NoDigits(Downcase(post))
  {
  }

  predicate StartsWithArticle(s: string, article: string) {
    |s| > |article| && s[..|article|] == article && IsSpace(s[|article|])
  }

  lemma NumberedWordIsNoArticle(w: string, back: string, article: string, d: nat)
    requires Solid(w) && d < |w| && IsDigit(w[d]) && NoSpace(article) && NoDigits(article)
    ensures !StartsWithArticle(w + back, article)
  {
    var s, n := w + back, |article|;
    if |w| <= n < |s| {
      assert s[..n][d] == w[d];
    }
  }

  lemma ShortFrontIsNoArticle(front: string, rest: string, article: string)
    requires front != "" && EndsInSpace(front) && |front| <= |article| && NoSpace(article)
    ensures !StartsWithArticle(front + rest, article)
  {
    var s, n := front + rest, |article|;
    if |s| > n {
      assert s[..n][|front| - 1] == front[|front| - 1];
    }
  }

  lemma StripLongFront(front: string, rest: string, article: string)
    requires |front| > |article|
    ensures StripArticle(front + rest, article) == StripArticle(front, article) + rest
  {
    var s, n := front + rest, |article|;
    assert s[..n] == front[..n] && s[n] == front[n];
    assert s[n + 1..] == front[n + 1..] + rest;
  }

  lemma StripKeepsEnd(front: string, article: string)
    requires EndsInSpace(front)
    ensures EndsInSpace(StripArticle(front, article))
  {
  }

  /** A word with a digit in it is never taken for an article, nor does it complete one. */
  lemma StripArticleParts(front: string, w: string, back: string, article: string, d: nat)
    requires EndsInSpace(front) && Solid(w) && d < |w| && IsDigit(w[d])
    requires NoSpace(article) && NoDigits(article)
    ensures StripArticle(front + w + back, article) == StripArticle(front, article) + w + back
    ensures EndsInSpace(StripArticle(front, article))
  {
    hide EndsInSpace, Solid, NoSpace, NoDigits;
    StripKeepsEnd(front, article);
    assert front + w + back == front + (w + back);
    if |front| > |article| {
      StripLongFront(front, w + back, article);
      assert StripArticle(front, article) + (w + back) == StripArticle(front, article) + w + back;
    } else if front == "" {
      assert front + (w + back) == w + back;
      NumberedWordIsNoArticle(w, back, article, d);
    } else {
      ShortFrontIsNoArticle(front, w + back, article);
    }
  }

  lemma {:induction false} QuotesCat(a: string, b: string)
    ensures RemoveQuotes(a + b) == RemoveQuotes(a) + RemoveQuotes(b)
  {
    if a == "" {
      assert a + b == b;
    } else {
      assert (a + b)[1..] == a[1..] + b;
      QuotesCat(a[1..], b);
    }
  }

  lemma {:induction false} QuotesKeep(s: string)
    ensures NoSpace(s) ==> NoSpace(RemoveQuotes(s))
    ensures NoDigits(s) ==> NoDigits(RemoveQuotes(s))
    ensures AllDigits(s) ==> RemoveQuotes(s) == s
    ensures StartsWithSpace(s) ==> StartsWithSpace(RemoveQuotes(s))
  {
    if s != "" {
      QuotesKeep(s[1..]);
      assert s == [s[0]] + s[1..];
    }
  }

  lemma QuotesKeepEnd(s: string)
    requires EndsInSpace(s)
    ensures EndsInSpace(RemoveQuotes(s))
  {
    if s != "" {
      var n := |s| - 1;
      assert s == s[..n] + [s[n]];
      QuotesCat(s[..n], [s[n]]);
      assert RemoveQuotes([s[n]]) == [s[n]] + RemoveQuotes("");
    }
  }

  lemma {:induction false} WordLengthIs(w: string, rest: string)
    requires NoSpace(w) && StartsWithSpace(rest)
    ensures WordLength(w + rest) == |w|
  {
    if w == "" {
      assert w + rest == rest;
    } else {
      assert (w + rest)[1..] == w[1..] + rest;
      WordLengthIs(w[1..], rest);
    }
  }

  lemma {:induction false} WordLengthStops(s: string)
    ensures NoSpace(s[..WordLength(s)]) && StartsWithSpace(s[WordLength(s)..])
  {
    if s != "" && !IsSpace(s[0]) {
      WordLengthStops(s[1..]);
      var n := WordLength(s[1..]);
      assert s[..n + 1] == [s[0]] + s[1..][..n];
      assert s[n + 1..] == s[1..][n..];
    }
  }

  lemma WordsOfWord(w: string, rest: string)
    requires Solid(w) && StartsWithSpace(rest)
    ensures Words(w + rest) == [w] + Words(rest)
  {
    WordLengthIs(w, rest);
    assert (w + rest)[..|w|] == w && (w + rest)[|w|..] == rest;
  }

  /** Text that starts with a word and ends in blanks is that word and what follows it. */
  lemma FirstWord(front: string) returns (w: string, more: string)
    requires front != "" && !IsSpace(front[0]) && EndsInSpace(front)
    ensures front == w + more && Solid(w) && more != "" && StartsWithSpace(more) && EndsInSpace(more)
  {
    var n := WordLength(front);
    w, more := front[..n], front[n..];
    WordLengthStops(front);
    assert forall i | 0 <= i < n :: w[i] == front[i];
  }

  lemma WordsAfterSpace(s: string)
    requires s != "" && IsSpace(s[0])
    ensures Words(s) == Words(s[1..])
  {
  }

  lemma {:induction false} WordsCat(front: string, rest: string)
    requires EndsInSpace(front)
    ensures Words(front + rest) == Words(front) + Words(rest)
    decreases |front|
  {
    hide Words, NoSpace;
    if front == "" {
      assert front + rest == rest;
      NoWords();
    } else if IsSpace(front[0]) {
      assert (front + rest)[1..] == front[1..] + rest;
      WordsAfterSpace(front);
      WordsAfterSpace(front + rest);
      WordsCat(front[1..], rest);
    } else {
      var w, more := FirstWord(front);
      assert front + rest == w + (more + rest);
      WordsOfWord(w, more + rest);
      WordsOfWord(w, more);
      WordsCat(more, rest);
    }
  }

  lemma NoWords()
    ensures Words("") == []
  {
  }

  lemma {:induction false} WordsAreSolid(s: string)
    ensures forall i | 0 <= i < |Words(s)| :: Solid(Words(s)[i])
    decreases |s|
  {
    if s != "" {
      if IsSpace(s[0]) {
        WordsAreSolid(s[1..]);
      } else {
        WordLengthStops(s);
        WordsAreSolid(s[WordLength(s)..]);
      }
    }
  }

  lemma {:induction false} DigitsCat(a: string, b: string)
    ensures Digits(a + b) == Digits(a) + Digits(b)
  {
    if a == "" {
      assert a + b == b;
    } else {
      assert (a + b)[1..] == a[1..] + b;
      DigitsCat(a[1..], b);
    }
  }

  lemma {:induction false} DigitsAllOrNone(s: string)
    ensures AllDigits(s) ==> Digits(s) == s
    ensures NoDigits(s) ==> Digits(s) == ""
  {
    if s != "" {
      DigitsAllOrNone(s[1..]);
      assert s == [s[0]] + s[1..];
    }
  }

  lemma {:induction false} ReplaceNothing(s: string, n: string, rep: string)
    requires NoDigits(s) && n != "" && AllDigits(n)
    ensures ReplaceAll(s, n, rep) == s
    decreases |s|
  {
    if |s| >= |n| {
      assert s[..|n|][0] == s[0];
      ReplaceNothing(s[1..], n, rep);
      assert s == [s[0]] + s[1..];
    }
  }

  lemma {:induction false} ReplaceOnce(pre: string, n: string, post: string, rep: string)
    requires NoDigits(pre) && n != "" && AllDigits(n) && NoDigits(post)
    ensures ReplaceAll(pre + n + post, n, rep) == pre + rep + post
    decreases |pre|
  {
    var s := pre + n + post;
    if pre == "" {
      assert s[..|n|] == n && s[|n|..] == post;
      ReplaceNothing(post, n, rep);
    } else {
      assert s[..|n|][0] == pre[0];
      assert s[1..] == pre[1..] + n + post;
      ReplaceOnce(pre[1..], n, post, rep);
      assert pre + rep + post == [pre[0]] + (pre[1..] + rep + post);
    }
  }

  /** The one number of a word is padded in place. */
  lemma PadNumber(pre: string, n: string, post: string)
    requires NoDigits(pre) && n != "" && AllDigits(n) && NoDigits(post)
    ensures PadWord(pre + n + post) == pre + Rjust(n, WIDTH) + post
  {
    hide Digits, ReplaceAll, Rjust;
    DigitsCat(pre + n, post);
    DigitsCat(pre, n);
    DigitsAllOrNone(pre);
    DigitsAllOrNone(n);
    DigitsAllOrNone(post);
    assert Digits(pre + n + post) == "" + n + "" == n;
    ReplaceOnce(pre, n, post, Rjust(n, WIDTH));
  }

  lemma NoSpaceCat(a: string, b: string)
    requires NoSpace(a) && NoSpace(b)
    ensures NoSpace(a + b)
  {
  }

  lemma {:induction false} ReplaceKeepsSolid(s: string, pat: string, rep: string)
    requires pat != "" && NoSpace(s) && Solid(rep)
    ensures NoSpace(ReplaceAll(s, pat, rep)) && (s != "" ==> ReplaceAll(s, pat, rep) != "")
    decreases |s|
  {
    if |s| >= |pat| {
      if s[..|pat|] == pat {
        ReplaceKeepsSolid(s[|pat|..], pat, rep);
        NoSpaceCat(rep, ReplaceAll(s[|pat|..], pat, rep));
      } else {
        ReplaceKeepsSolid(s[1..], pat, rep);
        NoSpaceCat([s[0]], ReplaceAll(s[1..], pat, rep));
      }
    }
  }

  lemma DigitsAreSolid(s: string)
    requires AllDigits(s) && s != ""
    ensures Solid(s)
  {
    assert forall c | IsDigit(c) :: !IsSpace(c);
  }

  lemma PadWordKeepsSolid(w: string)
    requires Solid(w)
    ensures Solid(PadWord(w))
  {
    var numbers := Digits(w);
    if numbers != "" {
      DigitsAreSolid(Rjust(numbers, WIDTH));
      ReplaceKeepsSolid(w, numbers, Rjust(numbers, WIDTH));
    }
  }

  // ---------- the key of such a title ----------

  /** What the words before and after contribute to the joined title. */
  function LeftOf(ws: seq<string>): string {
    if ws == [] then "" else Join(ws, " ") + " "
  }

  function RightOf(ws: seq<string>): string {
    if ws == [] then "" else " " + Join(ws, " ")
  }

  lemma {:induction false} JoinAround(a: seq<string>, w: string, b: seq<string>)
    ensures Join(a + ([w] + b), " ") == LeftOf(a) + (w + RightOf(b))
  {
    if a == [] {
      JoinFirst(w, b);
      assert a + ([w] + b) == [w] + b;
      assert LeftOf(a) + (w + RightOf(b)) == w + RightOf(b);
    } else {
      var rest := a[1..] + ([w] + b);
      JoinAround(a[1..], w, b);
      assert a + ([w] + b) == [a[0]] + rest;
      JoinFirst(a[0], rest);
      JoinFirst(a[0], a[1..]);
      assert [a[0]] + a[1..] == a;
      LeftOfCons(a[0], a[1..], w + RightOf(b));
    }
  }

  lemma JoinFirst(w: string, ws: seq<string>)
    ensures Join([w] + ws, " ") == w + RightOf(ws)
  {
    assert ([w] + ws)[1..] == ws;
  }

  lemma LeftOfCons(w: string, ws: seq<string>, tail: string)
    ensures LeftOf([w] + ws) + tail == w + (" " + (LeftOf(ws) + tail))
  {
    hide Join;
    JoinFirst(w, ws);
  }

  lemma {:induction false} JoinIsTrimmed(ws: seq<string>)
    requires forall i | 0 <= i < |ws| :: Solid(ws[i])
    requires ws != []
    ensures var s := Join(ws, " "); s != "" && !IsSpace(s[0]) && !IsSpace(s[|s| - 1])
  {
    if |ws| > 1 {
      JoinIsTrimmed(ws[1..]);
    }
    assert Solid(ws[0]);
  }

  lemma TrimJoined(ws: seq<string>)
    requires forall i | 0 <= i < |ws| :: Solid(ws[i])
    ensures Trim(Join(ws, " ")) == Join(ws, " ")
  {
    if ws != [] {
      JoinIsTrimmed(ws);
    }
    TrimNothing(Join(ws, " "));
  }

  lemma QuotesOfNumberedWord(pre: string, n: string, post: string)
    requires NoSpace(pre) && NoDigits(pre) && NoSpace(post) && NoDigits(post) && n != "" && AllDigits(n)
    ensures RemoveQuotes(pre + n + post) == RemoveQuotes(pre) + n + RemoveQuotes(post)
    ensures NoDigits(RemoveQuotes(pre)) && NoDigits(RemoveQuotes(post))
    ensures Solid(RemoveQuotes(pre) + n + RemoveQuotes(post))
  {
    QuotesCat(pre + n, post);
    QuotesCat(pre, n);
    QuotesKeep(pre);
    QuotesKeep(n);
    QuotesKeep(post);
    DigitsAreSolid(n);
    NoSpaceCat(RemoveQuotes(pre), n);
    NoSpaceCat(RemoveQuotes(pre) + n, RemoveQuotes(post));
  }

  lemma WordsAround(f: string, v: string, b: string)
    requires EndsInSpace(f) && Solid(v) && StartsWithSpace(b)
    ensures Words(f + v + b) == Words(f) + ([v] + Words(b))
  {
    assert f + v + b == f + (v + b);
    WordsCat(f, v + b);
    WordsOfWord(v, b);
  }

  lemma PadWordsAround(a: seq<string>, v: string, b: seq<string>)
    ensures PadWords(a + ([v] + b)) == PadWords(a) + ([PadWord(v)] + PadWords(b))
  {
  }

  /** The numbered word's way through quote removal, word splitting, padding and joining. */
  lemma NumberedWordKey(front: string, pre: string, n: string, post: string, back: string)
    requires AroundNumber(front, pre, post, back) && n != "" && AllDigits(n)
    ensures Join(PadWords(Words(RemoveQuotes(front + (pre + n + post) + back))), " ")
         == LeftOf(PadWords(Words(RemoveQuotes(front))))
            + ((RemoveQuotes(pre) + Rjust(n, WIDTH) + RemoveQuotes(post)) + RightOf(PadWords(Words(RemoveQuotes(back)))))
  {
    var w := pre + n + post;
    QuotesCat(front + w, back);
    QuotesCat(front, w);
    QuotesOfNumberedWord(pre, n, post);
    QuotesKeep(back);
    QuotesKeepEnd(front);
    var f, v, b := RemoveQuotes(front), RemoveQuotes(w), RemoveQuotes(back);
    WordsAround(f, v, b);
    PadWordsAround(Words(f), v, Words(b));
    PadNumber(RemoveQuotes(pre), n, RemoveQuotes(post));
    JoinAround(PadWords(Words(f)), PadWord(v), PadWords(Words(b)));
  }

  /** The parts of a title around one number: blanks set the word `pre n post` off from `front` and `back`. */
  predicate AroundNumber(front: string, pre: string, post: string, back: string) {
    && EndsInSpace(front) && StartsWithSpace(back)
    && NoSpace(pre) && NoDigits(pre) && NoSpace(post) && NoDigits(post)
  }

  function KeyLeft(front: string, pre: string): string {
    LeftOf(PadWords(Words(RemoveQuotes(StripArticles(Downcase(front)))))) + RemoveQuotes(Downcase(pre))
  }

  function KeyRight(post: string, back: string): string {
    RemoveQuotes(Downcase(post)) + RightOf(PadWords(Words(RemoveQuotes(Downcase(back)))))
  }

  lemma StripArticlesParts(front: string, w: string, back: string, d: nat)
    requires EndsInSpace(front) && Solid(w) && d < |w| && IsDigit(w[d])
    ensures StripArticles(front + w + back) == StripArticles(front) + w + back && EndsInSpace(StripArticles(front))
  {
    StripArticleParts(front, w, back, "an", d);
    var f1 := StripArticle(front, "an");
    StripArticleParts(f1, w, back, "a", d);
    StripArticleParts(StripArticle(f1, "a"), w, back, "the", d);
  }

  lemma KeyIsTrimmed(s: string)
    ensures Trim(Join(PadWords(Words(s)), " ")) == Join(PadWords(Words(s)), " ")
  {
    WordsAreSolid(s);
    forall i | 0 <= i < |Words(s)| ensures Solid(PadWords(Words(s))[i]) {
      PadWordKeepsSolid(Words(s)[i]);
    }
    TrimJoined(PadWords(Words(s)));
  }

  lemma NumberedWordIsSolid(pre: string, n: string, post: string)
    requires NoSpace(pre) && NoSpace(post) && n != "" && AllDigits(n)
    ensures Solid(pre + n + post) && IsDigit((pre + n + post)[|pre|])
  {
    DigitsAreSolid(n);
    NoSpaceCat(pre, n);
    NoSpaceCat(pre + n, post);
  }

  lemma DowncaseAround(front: string, pre: string, n: string, post: string, back: string)
    requires AroundNumber(front, pre, post, back) && n != "" && AllDigits(n)
    ensures Downcase(front + (pre + n + post) + back)
         == Downcase(front) + (Downcase(pre) + n + Downcase(post)) + Downcase(back)
    ensures AroundNumber(Downcase(front), Downcase(pre), Downcase(post), Downcase(back))
  {
    NumberedWordIsSolid(pre, n, post);
    DowncaseParts(front, pre + n + post, back);
    DowncaseNumber(pre, n, post);
  }

  /** The key of a title with a number: the number padded, between parts that do not depend on it. */
  lemma TitleKeyAroundNumber(front: string, pre: string, n: string, post: string, back: string)
    requires AroundNumber(front, pre, post, back) && n != "" && AllDigits(n)
    ensures TitleKey(front + (pre + n + post) + back) == KeyLeft(front, pre) + (Rjust(n, WIDTH) + KeyRight(post, back))
  {
    DowncaseAround(front, pre, n, post, back);
    var f, p, q, b := Downcase(front), Downcase(pre), Downcase(post), Downcase(back);
    NumberedWordIsSolid(p, n, q);
    StripArticlesParts(f, p + n + q, b, |p|);
    NumberedWordKey(StripArticles(f), p, n, q, b);
    KeyIsTrimmed(RemoveQuotes(StripArticles(f) + (p + n + q) + b));
    Regroup(LeftOf(PadWords(Words(RemoveQuotes(StripArticles(f))))), RemoveQuotes(p), Rjust(n, WIDTH), RemoveQuotes(q),
            RightOf(PadWords(Words(RemoveQuotes(b)))));
  }

  lemma Regroup(a: string, b: string, c: string, d: string, e: string)
    ensures a + ((b + c + d) + e) == (a + b) + (c + (d + e))
  {
  }

  // ---------- what the key ignores ----------

  lemma ArticleComesOff(article: string, space: char, t: string)
    requires article in ["an", "a", "the"] && IsSpace(space)
    requires !StartsWithArticle(t, "an") && !StartsWithArticle(t, "a") && !StartsWithArticle(t, "the")
    ensures StripArticles(article + [space] + t) == StripArticles(t) == t
  {
    var s := article + [space] + t;
    assert s[..|article|] == article && s[|article| + 1..] == t;
    assert s[1] == if |article| == 1 then space else article[1];
    if |s| > 2 {
      assert s[..2][1] == s[1] && s[..2][0] == s[0] && s[..1][0] == s[0];
    }
  }

  /** Neither does one leading article, however capitalised, before a title that starts with none. */
  lemma KeyIgnoresArticle(article: string, space: char, title: string)
    requires Downcase(article) in ["an", "a", "the"] && IsSpace(space)
    requires var t := Downcase(title);
             !StartsWithArticle(t, "an") && !StartsWithArticle(t, "a") && !StartsWithArticle(t, "the")
    ensures TitleKey(article + [space] + title) == TitleKey(title)
  {
    hide Words, PadWords, RemoveQuotes, Join, Trim, StripArticles;
    assert Downcase(article + [space] + title) == Downcase(article) + [space] + Downcase(title);
    ArticleComesOff(Downcase(article), space, Downcase(title));
  }

  // ---------- what a key is like, and the key of a key ----------

  /** No quotes and no capitals. */
  predicate Folded(s: string) {
    forall i | 0 <= i < |s| :: s[i] != '"' && s[i] != '\'' && !('A' <= s[i] <= 'Z')
  }

  lemma FoldedStays(s: string)
    requires Folded(s)
    ensures Downcase(s) == s && RemoveQuotes(s) == s
  {
    QuotesOfFolded(s);
  }

  lemma {:induction false} QuotesOfFolded(s: string)
    requires Folded(s)
    ensures RemoveQuotes(s) == s
  {
    if s != "" {
      QuotesOfFolded(s[1..]);
    }
  }

  predicate Lower(s: string) {
    forall i | 0 <= i < |s| :: LowerChar(s[i]) == s[i]
  }

  lemma {:induction false} QuotesGone(s: string)
    requires Lower(s)
    ensures Folded(RemoveQuotes(s))
  {
    if s != "" {
      QuotesGone(s[1..]);
    }
  }

  lemma {:induction false} WordsFolded(s: string)
    requires Folded(s)
    ensures forall i | 0 <= i < |Words(s)| :: Folded(Words(s)[i])
    decreases |s|
  {
    if s != "" {
      WordsFolded(if IsSpace(s[0]) then s[1..] else s[WordLength(s)..]);
    }
  }

  lemma {:induction false} ReplaceFolded(s: string, pat: string, rep: string)
    requires pat != "" && Folded(s) && Folded(rep)
    ensures Folded(ReplaceAll(s, pat, rep))
    decreases |s|
  {
    if |s| >= |pat| {
      ReplaceFolded(if s[..|pat|] == pat then s[|pat|..] else s[1..], pat, rep);
    }
  }

  lemma DigitsAreFolded(s: string)
    requires AllDigits(s)
    ensures Folded(s)
  {
    assert forall c | IsDigit(c) :: !IsQuote(c) && LowerChar(c) == c;
  }

  lemma PadWordFolded(w: string)
    requires Folded(w)
    ensures Folded(PadWord(w))
  {
    var numbers := Digits(w);
    if numbers != "" {
      DigitsAreFolded(Rjust(numbers, WIDTH));
      ReplaceFolded(w, numbers, Rjust(numbers, WIDTH));
    }
  }

  lemma {:induction false} DigitsNone(s: string)
    ensures Digits(s) == "" <==> NoDigits(s)
  {
    if s != "" {
      DigitsNone(s[1..]);
      assert s == [s[0]] + s[1..];
    }
  }

  lemma {:induction false} ReplaceAbsent(s: string, pat: string, rep: string)
    requires pat != "" && forall i: nat :: !OccursAt(s, pat, i)
    ensures ReplaceAll(s, pat, rep) == s
    decreases |s|
  {
    if |s| >= |pat| {
      assert !OccursAt(s, pat, 0);
      forall i: nat ensures !OccursAt(s[1..], pat, i) {
        assert !OccursAt(s, pat, i + 1);
        if i + 1 + |pat| <= |s| {
          assert s[1..][i..i + |pat|] == s[i + 1..i + 1 + |pat|];
        }
      }
      ReplaceAbsent(s[1..], pat, rep);
    }
  }

  /** When the digits of a word stand together they are its one number; otherwise padding leaves the word alone. */
  lemma PadWordTwice(w: string)
    ensures PadWord(PadWord(w)) == PadWord(w)
  {
    var d := Digits(w);
    if d == "" {
    } else if i: nat :| OccursAt(w, d, i) {
      hide Digits, ReplaceAll;
      var pre, post := w[..i], w[i + |d|..];
      assert w == pre + d + post;
      DigitsCat(pre + d, post);
      DigitsCat(pre, d);
      DigitsAllOrNone(d);
      DigitsNone(pre);
      DigitsNone(post);
      PadNumber(pre, d, post);
      PadNumber(pre, Rjust(d, WIDTH), post);
    } else {
      ReplaceAbsent(w, d, Rjust(d, WIDTH));
    }
  }

  lemma {:induction false} WordsOfJoined(ws: seq<string>)
    requires forall i | 0 <= i < |ws| :: Solid(ws[i])
    ensures Words(Join(ws, " ")) == ws
  {
    if ws != [] {
      var rest := ws[1..];
      assert ws == [ws[0]] + rest;
      WordsOfJoined(rest);
      JoinFirst(ws[0], rest);
      WordsOfWord(ws[0], RightOf(rest));
      if rest != [] {
        assert RightOf(rest)[1..] == Join(rest, " ");
        WordsAfterSpace(RightOf(rest));
      }
    }
  }

  lemma {:induction false} JoinFolded(ws: seq<string>)
    requires forall i | 0 <= i < |ws| :: Folded(ws[i])
    ensures Folded(Join(ws, " "))
  {
    if |ws| > 1 {
      JoinFolded(ws[1..]);
    }
  }

  /** The words of a key: without blanks, quotes or capitals, and with their numbers padded. */
  predicate KeyWord(w: string) {
    Solid(w) && Folded(w) && PadWord(w) == w
  }

  predicate KeyWords(ws: seq<string>) {
    forall i | 0 <= i < |ws| :: KeyWord(ws[i])
  }

  lemma StripKeepsLower(s: string)
    requires Lower(s)
    ensures Lower(StripArticles(s))
  {
  }

  lemma KeyIsItsWords(title: string) returns (ws: seq<string>)
    ensures TitleKey(title) == Join(ws, " ") && KeyWords(ws)
  {
    var plain := RemoveQuotes(StripArticles(Downcase(title)));
    assert Lower(Downcase(title));
    StripKeepsLower(Downcase(title));
    QuotesGone(StripArticles(Downcase(title)));
    WordsFolded(plain);
    WordsAreSolid(plain);
    KeyIsTrimmed(plain);
    ws := PadWords(Words(plain));
    forall i | 0 <= i < |ws| ensures KeyWord(ws[i]) {
      PadWordFolded(Words(plain)[i]);
      PadWordKeepsSolid(Words(plain)[i]);
      PadWordTwice(Words(plain)[i]);
    }
  }

  lemma WordsMakeKey(ws: seq<string>)
    requires KeyWords(ws)
    ensures var k := Join(ws, " ");
            Words(k) == ws && Folded(k) && Trim(Join(PadWords(Words(RemoveQuotes(Downcase(k)))), " ")) == k
  {
    hide PadWord, Solid, Folded;
    assert forall i | 0 <= i < |ws| :: KeyWord(ws[i]);
    WordsOfJoined(ws);
    JoinFolded(ws);
    FoldedStays(Join(ws, " "));
    TrimJoined(ws);
    assert PadWords(ws) == ws;
  }

  /**
   * What every key is like: its words are joined by single blanks with none at the ends, it has neither
   * quotes nor capitals, and a word whose digits stand together has them padded.
   */
  lemma KeyShape(title: string)
    ensures var k := TitleKey(title); k == Join(Words(k), " ") && Folded(k) && KeyWords(Words(k))
  {
    var ws := KeyIsItsWords(title);
    WordsMakeKey(ws);
  }

  lemma ArticleIsFirstWord(w: string, rest: string, article: string)
    requires Solid(w) && StartsWithSpace(rest) && NoSpace(article)
    ensures StartsWithArticle(w + rest, article) <==> w == article && rest != ""
    ensures StripArticle(w + rest, article) == if w == article && rest != "" then rest[1..] else w + rest
  {
    var s, l := w + rest, |article|;
    if l < |w| {
      assert s[l] == w[l];
    } else if |w| < l < |s| {
      assert s[..l][|w|] == rest[0];
    } else if l == |w| {
      assert s[..l] == w && s[l..] == rest;
    }
  }

  /** Dropping an article from joined words drops the first of them, or nothing. */
  lemma StripJoined(ws: seq<string>, article: string) returns (n: nat)
    requires KeyWords(ws) && NoSpace(article)
    ensures n <= |ws| && StripArticle(Join(ws, " "), article) == Join(ws[n..], " ")
    ensures n == 0 <==> !StartsWithArticle(Join(ws, " "), article)
  {
    hide StartsWithArticle, StripArticle, Solid, NoSpace;
    n := 0;
    assert ws[0..] == ws;
    if ws == [] {
      NothingToStrip(article);
    } else {
      assert KeyWord(ws[0]);
      assert [ws[0]] + ws[1..] == ws;
      JoinFirst(ws[0], ws[1..]);
      ArticleIsFirstWord(ws[0], RightOf(ws[1..]), article);
      if ws[0] == article && ws[1..] != [] {
        n := 1;
        assert RightOf(ws[1..])[1..] == Join(ws[1..], " ");
      }
    }
  }

  lemma NothingToStrip(article: string)
    ensures !StartsWithArticle("", article) && StripArticle("", article) == ""
  {
  }

  /** The key of a key is what is left of it when it starts with articles once more. */
  lemma KeyOfKey(title: string)
    ensures var k := TitleKey(title); TitleKey(k) == StripArticles(k)
    ensures var k := TitleKey(title);
            TitleKey(k) == k <==> forall article | article in ["an", "a", "the"] :: !StartsWithArticle(k, article)
  {
    hide Words, PadWords, Trim, Join, RemoveQuotes, StartsWithArticle;
    var ws := KeyIsItsWords(title);
    var k := TitleKey(title);
    WordsMakeKey(ws);
    FoldedStays(k);
    var a := StripJoined(ws, "an");
    var b := StripJoined(ws[a..], "a");
    var c := StripJoined(ws[a..][b..], "the");
    var rest := ws[a..][b..][c..];
    assert StripArticles(k) == Join(rest, " ");
    WordsMakeKey(rest);
    FoldedStays(Join(rest, " "));
    WordsMakeKey(ws);
    assert TitleKey(k) == Join(rest, " ");
    assert Join(rest, " ") == k <==> a == b == c == 0;
  }

  lemma KeyOfFolded(t: string, ws: seq<string>)
    requires Folded(t) && KeyWords(ws) && StripArticles(t) == Join(ws, " ")
    ensures TitleKey(t) == Join(ws, " ")
  {
    hide Folded, KeyWords, StripArticles, Words, PadWords, Trim, Join;
    FoldedStays(t);
    WordsMakeKey(ws);
    FoldedStays(Join(ws, " "));
  }

  /** A title whose key starts with an article, and so is not its own key. */
  lemma ArticleComesToFront()
    ensures TitleKey("the a cat") == "a cat" && TitleKey("a cat") == "cat"
  {
    CatWords();
    StripsOnce();
    JoinsCat();
    CatTitles();
    hide *;
    KeyOfFolded("the a cat", ["a", "cat"]);
    KeyOfFolded("a cat", ["cat"]);
  }

  lemma CatWords()
    ensures KeyWords(["a", "cat"]) && KeyWords(["cat"])
  {
    PlainWord("a");
    PlainWord("cat");
  }

  lemma CatTitles()
    ensures Folded("the a cat") && Folded("a cat")
  {
  }

  lemma JoinsCat()
    ensures Join(["cat"], " ") == "cat" && Join(["a", "cat"], " ") == "a cat"
  {
    assert ["a", "cat"][1..] == ["cat"];
    assert "a" + " " + "cat" == "a cat";
  }

  lemma PlainWord(w: string)
    requires Solid(w) && Folded(w) && NoDigits(w)
    ensures KeyWord(w)
  {
    DigitsNone(w);
  }

  lemma StripsOnce()
    ensures StripArticles("the a cat") == "a cat" && StripArticles("a cat") == "cat"
  {
    var s, t := "the a cat", "a cat";
    assert s[..2][0] == 't' && s[..1][0] == 't' && s[..3] == "the" && s[4..] == t;
    assert t[..2][1] == ' ' && t[..1] == "a" && t[2..] == "cat";
    assert "cat"[..2][0] == 'c' && "cat"[..1][0] == 'c';
  }

  /** How a title is taken apart: its lower-case text without an article, its words, and the words padded. */
  lemma KeyByStages(title: string, lower: string, bare: string, ws: seq<string>)
    requires Downcase(title) == lower && RemoveQuotes(StripArticles(lower)) == bare
    requires bare == Join(ws, " ") && forall i | 0 <= i < |ws| :: Solid(ws[i])
    ensures TitleKey(title) == Join(PadWords(ws), " ")
  {
    hide Downcase, StripArticles, RemoveQuotes, Join, PadWords, Trim;
    WordsOfJoined(ws);
    KeyIsTrimmed(bare);
  }

  lemma TheApple()
    ensures Downcase("THE APPLE") == "the apple" && StripArticles("the apple") == "apple"
  {
    var s := "the apple";
    assert s[..2][0] == 't' && s[..1][0] == 't' && s[..3] == "the" && s[4..] == "apple";
  }

  lemma AnApple()
    ensures Downcase("An apple") == "an apple" && StripArticles("an apple") == "apple"
  {
    var s := "an apple";
    assert s[..2] == "an" && s[3..] == "apple";
    BareApple();
  }

  lemma AApple()
    ensures Downcase("a apple") == "a apple" && StripArticles("a apple") == "apple"
  {
    var s := "a apple";
    assert s[..2][1] == ' ' && s[..1] == "a" && s[2..] == "apple";
    BareApple();
  }

  lemma BareApple()
    ensures StripArticle("apple", "an") == StripArticle("apple", "a") == StripArticle("apple", "the") == "apple"
  {
    assert "apple"[..2][1] == 'p' && "apple"[..3][0] == 'a';
  }

  lemma KeyOfOneWord(title: string, lower: string, w: string)
    requires Downcase(title) == lower && StripArticles(lower) == w && KeyWord(w)
    ensures TitleKey(title) == w
  {
    hide Downcase, StripArticles;
    FoldedStays(w);
    assert Join([w], " ") == w && PadWords([w]) == [w];
    KeyByStages(title, lower, w, [w]);
  }

  /** Titles with their keys: articles, capitals and quotes go... */
  lemma TheAppleKey()
    ensures TitleKey("THE APPLE") == "apple"
  {
    TheApple();
    PlainWord("apple");
    hide *;
    KeyOfOneWord("THE APPLE", "the apple", "apple");
  }

  lemma AnAppleKey()
    ensures TitleKey("An apple") == "apple"
  {
    AnApple();
    PlainWord("apple");
    hide *;
    KeyOfOneWord("An apple", "an apple", "apple");
  }

  lemma AAppleKey()
    ensures TitleKey("a apple") == "apple"
  {
    AApple();
    PlainWord("apple");
    hide *;
    KeyOfOneWord("a apple", "a apple", "apple");
  }

  lemma KeyExamples()
    ensures TitleKey("THE APPLE") == TitleKey("An apple") == TitleKey("a apple") == "apple"
    ensures TitleKey("LS575 'X\"") == "ls000575 x"
  {
    hide *;
    TheAppleKey();
    AnAppleKey();
    AAppleKey();
    NumberedKey();
  }

  /** ...and numbers are padded. */
  lemma NumberedKey()
    ensures TitleKey("LS575 'X\"") == "ls000575 x"
  {
    CourseLower();
    CourseQuotes();
    CoursePadded();
    CourseSolid();
    JoinsCourse();
    hide *;
    KeyByStages("LS575 'X\"", "ls575 'x\"", "ls575 x", ["ls575", "x"]);
  }

  lemma CourseSolid()
    ensures forall i | 0 <= i < |["ls575", "x"]| :: Solid(["ls575", "x"][i])
  {
  }

  lemma JoinsCourse()
    ensures Join(["ls575", "x"], " ") == "ls575 x" && Join(["ls000575", "x"], " ") == "ls000575 x"
  {
    assert ["ls575", "x"][1..] == ["x"] && ["ls000575", "x"][1..] == ["x"];
    assert "ls575" + " " + "x" == "ls575 x" && "ls000575" + " " + "x" == "ls000575 x";
  }

  lemma CourseLower()
    ensures Downcase("LS575 'X\"") == "ls575 'x\"" && StripArticles("ls575 'x\"") == "ls575 'x\""
  {
    var s := "ls575 'x\"";
    assert s[..2][0] == 'l' && s[..1][0] == 'l' && s[..3][0] == 'l';
  }

  lemma QuotesGoAlone(a: string, x: string)
    requires Folded(a) && Folded(x)
    ensures RemoveQuotes(a + "'" + x + "\"") == a + x
  {
    FoldedStays(a);
    FoldedStays(x);
    OneQuote("\"");
    OneQuote("'");
    hide *;
    QuotesCat(a, "'");
    QuotesCat(a + "'", x);
    QuotesCat(a + "'" + x, "\"");
    assert a + "" == a;
    assert (a + x) + "" == a + x;
  }

  lemma CourseQuotes()
    ensures RemoveQuotes("ls575 'x\"") == "ls575 x"
  {
    QuotesGoAlone("ls575 ", "x");
    hide RemoveQuotes;
    assert "ls575 " + "'" + "x" + "\"" == "ls575 'x\"";
    assert "ls575 " + "x" == "ls575 x";
  }

  lemma OneQuote(q: string)
    requires q == "'" || q == "\""
    ensures RemoveQuotes(q) == ""
  {
    assert q[1..] == "";
  }

  lemma CoursePadded()
    ensures PadWords(["ls575", "x"]) == ["ls000575", "x"]
  {
    PlainWord("x");
    CourseWord();
    hide PadWord;
  }

  lemma CourseWord()
    ensures PadWord("ls575") == "ls000575"
  {
    ThreeZeros();
    hide Digits, ReplaceAll, Rjust, PadWord;
    PadNumber("ls", "575", "");
    assert "ls" + "575" + "" == "ls575";
    assert "ls" + "000575" + "" == "ls000575";
  }

  lemma ThreeZeros()
    ensures Rjust("575", WIDTH) == "000575"
  {
    assert Zeros(3) == "000" && "000" + "575" == "000575";
  }

  // ---------- the order of the keys ----------

  lemma {:induction false} NotBeforeItself(s: string)
    ensures !Before(s, s)
  {
    if s != "" {
      NotBeforeItself(s[1..]);
    }
  }

  /** Titles that differ only in one number of at most six digits sort as the numbers do. */
  lemma TitleKeysInOrder(front: string, pre: string, n: string, m: string, post: string, back: string)
    requires AroundNumber(front, pre, post, back)
    requires 1 <= |n| <= WIDTH && AllDigits(n) && 1 <= |m| <= WIDTH && AllDigits(m)
    ensures var key, key' := TitleKey(front + (pre + n + post) + back), TitleKey(front + (pre + m + post) + back);
            && (Before(key, key') <==> Value(n, 10) < Value(m, 10))
            && (key == key' <==> Value(n, 10) == Value(m, 10))
  {
    hide *;
    TitleKeyAroundNumber(front, pre, n, post, back);
    TitleKeyAroundNumber(front, pre, m, post, back);
    RjustValue(n, WIDTH);
    RjustValue(m, WIDTH);
    PaddedInOrder(KeyLeft(front, pre), Rjust(n, WIDTH), Rjust(m, WIDTH), KeyRight(post, back));
  }

  lemma PaddedInOrder(l: string, a: string, b: string, r: string)
    requires |a| == |b| && AllDigits(a) && AllDigits(b)
    ensures Before(l + (a + r), l + (b + r)) <==> Value(a, 10) < Value(b, 10)
    ensures l + (a + r) == l + (b + r) <==> Value(a, 10) == Value(b, 10)
  {
    BeforeCommonPrefix(l, a + r, b + r);
    BeforeSameLength(a, b, r, r);
    NotBeforeItself(r);
    DigitOrder(a, b);
    assert (l + (a + r))[|l|..][..|a|] == a && (l + (b + r))[|l|..][..|b|] == b;
  }

  /** A number without leading zeros is greater than every shorter one. */
  lemma {:induction false} LongerIsGreater(n: string, m: string)
    requires AllDigits(n) && AllDigits(m) && |n| > |m| && n[0] != '0'
    ensures Value(n, 10) > Value(m, 10)
  {
    if |n| > 1 {
      LongerIsGreater(n[..|n| - 1], if m == "" then "" else m[..|m| - 1]);
    }
  }

  /** The padded number `a` is less than what `n` starts with, or equal to it and the rest decides. */
  predicate PaddedFirst(a: string, n: string, r: string)
    requires AllDigits(a) && AllDigits(n) && |a| <= |n|
  {
    var start := Value(n[..|a|], 10);
    Value(a, 10) < start || (Value(a, 10) == start && Before(r, n[|a|..] + r))
  }

  /**
   * How a number of more than six digits is ordered against a shorter one: not as the numbers are, but
   * as its first digits are against the padded shorter number, and behind these by what follows them.
   */
  lemma LongNumberOrder(front: string, pre: string, n: string, m: string, post: string, back: string)
    requires AroundNumber(front, pre, post, back) && AllDigits(n) && AllDigits(m) && m != ""
    requires |n| > |m| && |n| > WIDTH && n[0] != '0'
    ensures Value(m, 10) < Value(n, 10)
    ensures Before(TitleKey(front + (pre + m + post) + back), TitleKey(front + (pre + n + post) + back)) <==>
            PaddedFirst(Rjust(m, WIDTH), n, KeyRight(post, back))
  {
    hide TitleKey, KeyLeft, KeyRight, AroundNumber, Before, Value;
    LongerIsGreater(n, m);
    TitleKeyAroundNumber(front, pre, n, post, back);
    TitleKeyAroundNumber(front, pre, m, post, back);
    RjustLong(n, WIDTH);
    PaddedAgainstLonger(KeyLeft(front, pre), Rjust(m, WIDTH), n, KeyRight(post, back));
  }

  lemma PaddedAgainstLonger(l: string, a: string, n: string, r: string)
    requires AllDigits(a) && AllDigits(n) && |a| <= |n|
    ensures Before(l + (a + r), l + (n + r)) <==> PaddedFirst(a, n, r)
  {
    hide Before, Value;
    var head, tail := n[..|a|], n[|a|..];
    assert n + r == head + (tail + r);
    BeforeCommonPrefix(l, a + r, n + r);
    BeforeSameLength(a, head, r, tail + r);
    DigitOrder(a, head);
  }

  lemma RjustLong(s: string, width: nat)
    requires |s| >= width
    ensures Rjust(s, width) == s
  {
  }

  /** The keys of the two titles are ordered as their numbers are. */
  predicate NumbersInOrder(front: string, pre: string, n: string, m: string, post: string, back: string)
    requires AllDigits(n) && AllDigits(m)
  {
    Before(TitleKey(front + (pre + n + post) + back), TitleKey(front + (pre + m + post) + back)) <==>
    Value(n, 10) < Value(m, 10)
  }

  /** A number of at most `digits` digits, without leading zeros. */
  predicate Numeral(n: string, digits: nat) {
    1 <= |n| <= digits && AllDigits(n) && (n[0] == '0' ==> |n| == 1)
  }

  /** More than six digits are too many: the greater of these two numbers sorts first, whatever the title around it. */
  lemma LongNumberOutOfOrder(front: string, pre: string, n: string, m: string, post: string, back: string)
    requires AroundNumber(front, pre, post, back) && AllDigits(n) && AllDigits(m)
    requires |n| > |m| >= WIDTH && '0' < n[0] < m[0]
    ensures Value(m, 10) < Value(n, 10)
    ensures Before(TitleKey(front + (pre + n + post) + back), TitleKey(front + (pre + m + post) + back))
  {
    hide TitleKey, KeyLeft, KeyRight, AroundNumber, Before, Value;
    LongerIsGreater(n, m);
    TitleKeyAroundNumber(front, pre, n, post, back);
    TitleKeyAroundNumber(front, pre, m, post, back);
    RjustLong(n, WIDTH);
    RjustLong(m, WIDTH);
    var r := KeyRight(post, back);
    BeforeCommonPrefix(KeyLeft(front, pre), n + r, m + r);
    BeforeByFirst(n + r, m + r);
  }

  lemma BeforeByFirst(a: string, b: string)
    requires a != "" && b != "" && a[0] < b[0]
    ensures Before(a, b)
  {
  }

  /** The padding is wide enough exactly for numbers of at most six digits, in every title. */
  lemma WidthIsExact(front: string, pre: string, post: string, back: string, digits: nat)
    requires AroundNumber(front, pre, post, back)
    ensures (forall n, m | Numeral(n, digits) && Numeral(m, digits) :: NumbersInOrder(front, pre, n, m, post, back))
            <==> digits <= 6
  {
    hide Value, TitleKey, Before, AroundNumber;
    if digits <= WIDTH {
      forall n, m | Numeral(n, digits) && Numeral(m, digits) ensures NumbersInOrder(front, pre, n, m, post, back) {
        TitleKeysInOrder(front, pre, n, m, post, back);
      }
    } else {
      var n, m := "1000000", "200000";
      assert Numeral(n, digits) && Numeral(m, digits);
      LongNumberOutOfOrder(front, pre, n, m, post, back);
      assert !NumbersInOrder(front, pre, n, m, post, back);
    }
  }
}
