/**
 * `Sushi::AuthorCoercion`: several authors in one column, separated and framed by pipes, and the
 * `LIKE` condition that looks one of them up.
 */
module AuthorFilter {
  import opened Prelude
  import opened Text

  const DELIMITER := '|'

  // ---------- the encoding ----------

  function Serialize(authors: seq<string>): Option<string> {
    if authors == [] then None else Some([DELIMITER] + Join(authors, [DELIMITER]) + [DELIMITER])
  }

  /** The elements that Ruby's `present?` keeps. */
  function Present(xs: seq<string>): seq<string> {
    if xs == [] then [] else (if AllSpace(xs[0]) then [] else [xs[0]]) + Present(xs[1..])
  }

  function Deserialize(column: Option<string>): seq<string> {
    Present(DropTrailingEmpty(Split(if column.Some? then column.value else "", DELIMITER)))
  }

  /** The encoding, one author at a time. */
  function Framed(authors: seq<string>): string {
    if authors == [] then [DELIMITER] else [DELIMITER] + authors[0] + Framed(authors[1..])
  }

  lemma {:induction false} SerializeIsFramed(authors: seq<string>)
    requires authors != []
    ensures Serialize(authors) == Some(Framed(authors))
  {
    if |authors| == 1 {
      assert Framed(authors[1..]) == [DELIMITER];
    } else {
      SerializeIsFramed(authors[1..]);
      assert [DELIMITER] + Join(authors, [DELIMITER]) + [DELIMITER]
          == [DELIMITER] + authors[0] + ([DELIMITER] + Join(authors[1..], [DELIMITER]) + [DELIMITER]);
    }
  }

  /** Pipes around and between the authors; no authors, no text. */
  lemma SerializedText(x: string, y: string, z: string)
    ensures Serialize([]) == None && Serialize([x]) == Some("|" + x + "|")
    ensures Serialize([x, y]) == Some("|" + x + "|" + y + "|")
    ensures Serialize([x, y, z]) == Some("|" + x + "|" + y + "|" + z + "|")
  {
    var d := [DELIMITER];
    assert [x, y, z][1..] == [y, z] && [x, y][1..] == [y] && [y, z][1..] == [z];
    assert Join([y, z], d) == y + d + z;
    assert Join([x, y], d) == x + d + y;
    assert Join([x, y, z], d) == x + d + Join([y, z], d);
    assert d == "|";
    assert d + x + d == "|" + x + "|";
    assert d + (x + d + y) + d == "|" + x + "|" + y + "|";
    assert d + (x + d + (y + d + z)) + d == "|" + x + "|" + y + "|" + z + "|";
  }

  // ---------- the round trip ----------

  lemma {:induction false} PresentCat(a: seq<string>, b: seq<string>)
    ensures Present(a + b) == Present(a) + Present(b)
  {
    if a == [] {
      assert a + b == b;
    } else {
      assert (a + b)[1..] == a[1..] + b;
      PresentCat(a[1..], b);
    }
  }

  lemma {:induction false} PresentOfEmpty(xs: seq<string>)
    requires forall i | 0 <= i < |xs| :: xs[i] == ""
    ensures Present(xs) == []
  {
    if xs != [] {
      PresentOfEmpty(xs[1..]);
    }
  }

  /** Each author split at the pipes in it, without the blank pieces. */
  function Pieces(authors: seq<string>): seq<string> {
    if authors == [] then [] else Present(Split(authors[0], DELIMITER)) + Pieces(authors[1..])
  }

  lemma NoAuthorFramed()
    ensures Present(Split([DELIMITER], DELIMITER)) == []
  {
    EmptyFirst("");
    PresentOfEmpty(Split("", DELIMITER));
    assert [DELIMITER] + "" == [DELIMITER];
  }

  lemma {:induction false} FramedPieces(authors: seq<string>)
    ensures Present(Split(Framed(authors), DELIMITER)) == Pieces(authors)
  {
    hide Present, Split;
    if authors == [] {
      NoAuthorFramed();
    } else {
      var d, rest := [DELIMITER], Framed(authors[1..]);
      FramedPieces(authors[1..]);
      FrameFields(authors[0], rest[1..]);
      assert rest == d + rest[1..];
      assert d + authors[0] + d + rest[1..] == d + authors[0] + (d + rest[1..]);
    }
  }

  /** One frame's author comes off as fields of its own. */
  lemma FrameFields(x: string, tail: string)
    ensures var d := [DELIMITER];
            Present(Split(d + x + d + tail, DELIMITER)) == Present(Split(x, DELIMITER)) + Present(Split(d + tail, DELIMITER))
  {
    hide Present, Split;
    var d := [DELIMITER];
    var xs, ts := Split(x, DELIMITER), Split(tail, DELIMITER);
    EmptyFirst(x + d + tail);
    EmptyFirst(tail);
    assert d + (x + d + tail) == d + x + d + tail;
    SplitCat(x, DELIMITER, tail);
    PresentCat(xs, ts);
  }

  lemma EmptyFirst(s: string)
    ensures Present(Split([DELIMITER] + s, DELIMITER)) == Present(Split(s, DELIMITER))
  {
    assert ([DELIMITER] + s)[1..] == s;
    PresentCat([""], Split(s, DELIMITER));
    PresentOfEmpty([""]);
  }

  /** Reading back what was written gives every author's pieces, in order; `nil` gives the empty list back. */
  lemma EncodingRoundTrip(authors: seq<string>)
    ensures Deserialize(Serialize(authors)) == Pieces(authors)
  {
    var text := if authors == [] then "" else Framed(authors);
    if authors != [] {
      SerializeIsFramed(authors);
      FramedPieces(authors);
    } else {
      PresentOfEmpty(Split("", DELIMITER));
    }
    var parts := Split(text, DELIMITER);
    var kept := DropTrailingEmpty(parts);
    assert parts == kept + parts[|kept|..];
    PresentCat(kept, parts[|kept|..]);
    PresentOfEmpty(parts[|kept|..]);
  }

  predicate PlainAuthor(x: string) {
    !AllSpace(x) && Lacks(x, DELIMITER)
  }

  predicate PipeFree(authors: seq<string>) {
    forall i | 0 <= i < |authors| :: Lacks(authors[i], DELIMITER)
  }

  lemma {:induction false} PresentKeepsFields(xs: seq<string>)
    requires PipeFree(xs)
    ensures forall x | x in Present(xs) :: PlainAuthor(x)
  {
    if xs != [] {
      assert PipeFree(xs[1..]);
      PresentKeepsFields(xs[1..]);
      assert Lacks(xs[0], DELIMITER);
    }
  }

  lemma {:induction false} PiecesArePlain(authors: seq<string>)
    ensures forall x | x in Pieces(authors) :: PlainAuthor(x)
  {
    if authors != [] {
      PiecesArePlain(authors[1..]);
      SplitFieldsLack(authors[0], DELIMITER);
      PresentKeepsFields(Split(authors[0], DELIMITER));
    }
  }

  lemma {:induction false} PlainPieces(authors: seq<string>)
    requires forall x | x in authors :: PlainAuthor(x)
    ensures Pieces(authors) == authors
  {
    if authors != [] {
      assert PlainAuthor(authors[0]);
      assert forall x | x in authors[1..] :: x in authors;
      PlainPieces(authors[1..]);
      SplitLacking(authors[0], DELIMITER);
      assert Present([authors[0]]) == [authors[0]] + Present([]);
      assert authors == [authors[0]] + authors[1..];
    }
  }

  /** The lists that survive the round trip are exactly those without blank authors and without pipes. */
  lemma RoundTripExactly(authors: seq<string>)
    ensures Deserialize(Serialize(authors)) == authors <==> forall x | x in authors :: PlainAuthor(x)
  {
    EncodingRoundTrip(authors);
    PiecesArePlain(authors);
    if forall x | x in authors :: PlainAuthor(x) {
      PlainPieces(authors);
    }
  }

  // ---------- SQL LIKE ----------

  /** Does `t` match the pattern `p`: `%` any string, `_` any character, backslash escapes. */
  predicate Like(p: string, t: string)
    decreases |p| + |t|
  {
    if p == "" then t == ""
    else if p[0] == '%' then Like(p[1..], t) || (t != "" && Like(p, t[1..]))
    else if t == "" then false
    else if p[0] == '_' then Like(p[1..], t[1..])
    else if p[0] == '\\' then |p| > 1 && t[0] == p[1] && Like(p[2..], t[1..])
    else t[0] == p[0] && Like(p[1..], t[1..])
  }

  predicate Metacharacter(c: char) {
    c == '%' || c == '_' || c == '\\'
  }

  predicate Literal(s: string) {
    forall i | 0 <= i < |s| :: !Metacharacter(s[i])
  }

  lemma {:induction false} LikeAnything(t: string)
    ensures Like("%", t)
  {
    if t != "" {
      LikeAnything(t[1..]);
    }
  }

  lemma {:induction false} LikeLiteral(lit: string, p: string, t: string)
    requires Literal(lit)
    ensures Like(lit + p, t) <==> OccursAt(t, lit, 0) && Like(p, t[|lit|..])
    decreases |lit|
  {
    if lit == "" {
      assert lit + p == p && t[0..] == t;
    } else if t != "" {
      assert (lit + p)[1..] == lit[1..] + p;
      LikeLiteral(lit[1..], p, t[1..]);
      if |lit| <= |t| {
        assert t[0..|lit|] == [t[0]] + t[1..][0..|lit| - 1];
        assert lit == [lit[0]] + lit[1..];
        assert t[1..][|lit| - 1..] == t[|lit|..];
      }
    }
  }

  lemma {:induction false} LikeAnywhere(p: string, t: string)
    ensures Like("%" + p, t) <==> exists i :: 0 <= i <= |t| && Like(p, t[i..])
    decreases |t|
  {
    assert ("%" + p)[1..] == p && t[0..] == t;
    if t != "" {
      LikeAnywhere(p, t[1..]);
      if Like("%" + p, t[1..]) {
        var i :| 0 <= i <= |t| - 1 && Like(p, t[1..][i..]);
        assert t[1..][i..] == t[i + 1..];
      }
      if i :| 0 < i <= |t| && Like(p, t[i..]) {
        assert t[1..][i - 1..] == t[i..];
      }
    }
  }

  /** `%lit%` matches exactly the texts that contain `lit`. */
  lemma LikeContains(lit: string, t: string)
    requires Literal(lit)
    ensures Like("%" + (lit + "%"), t) <==> Contains(t, lit)
  {
    LikeAnywhere(lit + "%", t);
    forall i: nat | i <= |t| ensures Like(lit + "%", t[i..]) <==> OccursAt(t, lit, i) {
      LikeLiteral(lit, "%", t[i..]);
      if i + |lit| <= |t| {
        LikeAnything(t[i..][|lit|..]);
        assert t[i..][0..|lit|] == t[i..i + |lit|];
      }
    }
  }

  // ---------- the filter ----------

  function Pattern(q: string): string {
    "%" + [DELIMITER] + q + [DELIMITER] + "%"
  }

  /** The condition `author LIKE ? OR author = ?` on one row; a null column satisfies neither. */
  predicate Matches(column: Option<string>, q: string) {
    column.Some? && (Like(Pattern(q), column.value) || column.value == q)
  }

  lemma PatternOccurs(q: string, t: string)
    requires Literal(q)
    ensures Like(Pattern(q), t) <==> Contains(t, [DELIMITER] + q + [DELIMITER])
  {
    var lit := [DELIMITER] + q + [DELIMITER];
    assert Pattern(q) == "%" + (lit + "%");
    LikeContains(lit, t);
  }

  lemma {:induction false} FramedContains(authors: seq<string>, q: string)
    requires PipeFree(authors) && Lacks(q, DELIMITER)
    ensures Contains(Framed(authors), [DELIMITER] + q + [DELIMITER]) <==> q in authors
  {
    var lit := [DELIMITER] + q + [DELIMITER];
    var t := Framed(authors);
    if authors != [] {
      var x, rest := authors[0], Framed(authors[1..]);
      FramedContains(authors[1..], q);
      FrameStep(x, rest, q);
      assert authors == [x] + authors[1..];
    }
  }

  /** One frame further: the query is the first author, or it occurs among the rest. */
  lemma FrameStep(x: string, rest: string, q: string)
    requires Lacks(x, DELIMITER) && Lacks(q, DELIMITER) && rest != "" && rest[0] == DELIMITER
    ensures var lit := [DELIMITER] + q + [DELIMITER];
            Contains([DELIMITER] + x + rest, lit) <==> q == x || Contains(rest, lit)
  {
    var lit := [DELIMITER] + q + [DELIMITER];
    var t := [DELIMITER] + x + rest;
    if q == x {
      assert t[0..|lit|] == lit;
      assert OccursAt(t, lit, 0);
    }
    if i: nat :| OccursAt(rest, lit, i) {
      assert t[1 + |x|..] == rest;
      assert t[i + 1 + |x|..i + 1 + |x| + |lit|] == rest[i..i + |lit|];
      assert OccursAt(t, lit, i + 1 + |x|);
    }
    if i: nat :| OccursAt(t, lit, i) {
      FrameOccurrence(x, rest, q, i);
      if i > 0 {
        assert OccursAt(rest, lit, i - 1 - |x|);
      }
    }
  }

  /** An occurrence in the frame starts at its first delimiter, or beyond the first author. */
  lemma FrameOccurrence(x: string, rest: string, q: string, i: nat)
    requires Lacks(x, DELIMITER) && Lacks(q, DELIMITER) && rest != "" && rest[0] == DELIMITER
    requires OccursAt([DELIMITER] + x + rest, [DELIMITER] + q + [DELIMITER], i)
    ensures i == 0 ==> q == x
    ensures i > 0 ==> i > |x| && OccursAt(rest, [DELIMITER] + q + [DELIMITER], i - 1 - |x|)
  {
    var lit := [DELIMITER] + q + [DELIMITER];
    var t := [DELIMITER] + x + rest;
    assert t[i] == t[i..i + |lit|][0] == DELIMITER;
    if i == 0 {
      FirstFrame(x, rest, q);
    } else {
      assert forall k | 1 <= k <= |x| :: t[k] == x[k - 1] != DELIMITER;
      assert i > |x|;
      assert t[1 + |x|..] == rest;
      assert rest[i - 1 - |x|..i - 1 - |x| + |lit|] == t[i..i + |lit|];
    }
  }

  lemma FirstFrame(x: string, rest: string, q: string)
    requires Lacks(x, DELIMITER) && Lacks(q, DELIMITER) && rest != "" && rest[0] == DELIMITER
    requires OccursAt([DELIMITER] + x + rest, [DELIMITER] + q + [DELIMITER], 0)
    ensures q == x
  {
    var lit := [DELIMITER] + q + [DELIMITER];
    var t := [DELIMITER] + x + rest;
    assert t[1..] == x + rest;
    assert (x + rest)[..|q|] == q by { assert lit[1..][..|q|] == q; assert t[0..|lit|][1..][..|q|] == t[1..][..|q|]; }
    assert (x + rest)[|q|] == lit[|q| + 1] == DELIMITER by { assert t[0..|lit|][|q| + 1] == t[|q| + 1]; }
    RunLackingUnique(x + rest, DELIMITER, |q|);
    assert (x + rest)[..|x|] == x;
    RunLackingUnique(x + rest, DELIMITER, |x|);
  }

  lemma FramedIsNotPipeFree(authors: seq<string>)
    ensures !Lacks(Framed(authors), DELIMITER)
  {
    assert Framed(authors)[0] == DELIMITER;
  }

  /** For a literal query the condition on the encoded column is list membership. */
  lemma FilterIsMembership(authors: seq<string>, q: string)
    requires PipeFree(authors) && Lacks(q, DELIMITER) && Literal(q)
    ensures Matches(Serialize(authors), q) <==> q in authors
  {
    if authors != [] {
      SerializeIsFramed(authors);
      PatternOccurs(q, Framed(authors));
      FramedContains(authors, q);
      FramedIsNotPipeFree(authors);
    }
  }

  lemma {:induction false} PipePatternNeedsPipe(p: string, t: string)
    requires p != "" && p[0] == DELIMITER && Like("%" + p, t)
    ensures !Lacks(t, DELIMITER)
  {
    LikeAnywhere(p, t);
    var i :| 0 <= i <= |t| && Like(p, t[i..]);
    assert t[i..][0] == t[i] == DELIMITER;
  }

  /** A row written before authors were encoded matches exactly its own text, whatever the query. */
  lemma LegacyRowMatchesItself(row: string, q: string)
    requires Lacks(row, DELIMITER)
    ensures Matches(Some(row), q) <==> row == q
  {
    var p := [DELIMITER] + q + [DELIMITER] + "%";
    assert Pattern(q) == "%" + p;
    if Like(Pattern(q), row) && row != q {
      PipePatternNeedsPipe(p, row);
      assert false;
    }
  }

  // ---------- queries with metacharacters ----------

  /** One text that the query matches when its metacharacters are live. */
  function Instance(q: string): string {
    if q == "" then ""
    else if q[0] == '%' then Instance(q[1..])
    else if q[0] == '_' then "x" + Instance(q[1..])
    else if q[0] == '\\' then if |q| == 1 then "" else [q[1]] + Instance(q[2..])
    else [q[0]] + Instance(q[1..])
  }

  lemma {:induction false} InstanceDiffers(q: string)
    ensures |Instance(q)| <= |q|
    ensures !Literal(q) ==> Instance(q) != q
  {
    if q != "" {
      if q[0] == '\\' {
        if |q| > 1 {
          InstanceDiffers(q[2..]);
        }
      } else {
        InstanceDiffers(q[1..]);
        assert q == [q[0]] + q[1..];
        if !Metacharacter(q[0]) {
          assert Instance(q)[1..] == Instance(q[1..]);
          assert Literal(q[1..]) ==> Literal(q);
        }
      }
    }
  }

  lemma {:induction false} InstanceMatches(q: string)
    requires Lacks(q, DELIMITER)
    ensures Like(q + [DELIMITER] + "%", Instance(q) + [DELIMITER])
    ensures Lacks(Instance(q), DELIMITER)
  {
    var p, t := q + [DELIMITER] + "%", Instance(q) + [DELIMITER];
    if q == "" {
      assert p[1..] == "%" && t[1..] == "";
      LikeAnything("");
    } else if q[0] == '\\' && |q| == 1 {
      assert p[2..] == "%" && t[1..] == "";
      LikeAnything("");
    } else if q[0] == '\\' {
      InstanceMatches(q[2..]);
      assert p[2..] == q[2..] + [DELIMITER] + "%" && t[1..] == Instance(q[2..]) + [DELIMITER];
    } else {
      InstanceMatches(q[1..]);
      assert p[1..] == q[1..] + [DELIMITER] + "%";
      if q[0] == '%' {
        assert t == Instance(q[1..]) + [DELIMITER];
      } else {
        assert t[1..] == Instance(q[1..]) + [DELIMITER];
      }
    }
  }

  /** A query with a live metacharacter finds an author that it is not. */
  lemma MetacharacterMisleads(q: string)
    requires Lacks(q, DELIMITER) && !Literal(q)
    ensures Lacks(Instance(q), DELIMITER) && q !in [Instance(q)] && Matches(Serialize([Instance(q)]), q)
  {
    InstanceDiffers(q);
    InstanceMatches(q);
    var t := [DELIMITER] + Instance(q) + [DELIMITER];
    assert Serialize([Instance(q)]) == Some(t);
    var p := [DELIMITER] + (q + [DELIMITER] + "%");
    LikeLiteral([DELIMITER], q + [DELIMITER] + "%", t);
    assert t[1..] == Instance(q) + [DELIMITER];
    assert t[0..1] == [DELIMITER];
    LikeAnywhere(p, t);
    assert t[0..] == t;
    assert Pattern(q) == "%" + p;
  }

  /** The queries for which the filter is list membership, on every list, are exactly the literal ones. */
  lemma FilterIsMembershipExactly(q: string)
    requires Lacks(q, DELIMITER)
    ensures Literal(q) <==>
            forall authors | PipeFree(authors) :: Matches(Serialize(authors), q) <==> q in authors
  {
    if Literal(q) {
      forall authors | PipeFree(authors) ensures Matches(Serialize(authors), q) <==> q in authors {
        FilterIsMembership(authors, q);
      }
    } else {
      MetacharacterMisleads(q);
      assert PipeFree([Instance(q)]);
    }
  }

  // ---------- the coercion ----------

  datatype Outcome = NotGiven | Accepted | InvalidFilterValue

  class AuthorCoercion {
    var author: Option<string>
    var authorInParams: bool

    /** `columns` are the author columns of the metrics table. */
    method CoerceAuthor(param: Option<string>, columns: seq<Option<string>>) returns (outcome: Outcome)
      modifies this
      ensures param.None? ==> outcome == NotGiven && author == old(author)
      ensures param.Some? ==> outcome != NotGiven && author == param
      ensures param.Some? ==> (outcome == Accepted <==>
                Lacks(param.value, DELIMITER) && exists c | c in columns :: Matches(c, param.value))
      ensures authorInParams == if outcome == Accepted then true else old(authorInParams)
    {
      if param.None? {
        return NotGiven;
      }
      author := param;
      if DELIMITER in param.value {
        return InvalidFilterValue;
      }
      if !exists c | c in columns :: Matches(c, param.value) {
        return InvalidFilterValue;
      }
      authorInParams := true;
      return Accepted;
    }
  }
}
