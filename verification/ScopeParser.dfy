/** Which work pids an OAuth scope string asks for (`WorkAuthorization.extract_pids_from`). */
module ScopeParser {
  import opened Prelude
  import opened Text

  const CONCERN := "/concern/"

  /** What follows `/concern/`, a nonempty type without slashes, and a slash. */
  function AfterType(s: string): Option<string> {
    if |s| < 9 || s[..9] != CONCERN then None
    else
      var t := RunLacking(s[9..], '/');
      if t == 0 || 9 + t == |s| then None else Some(s[9 + t + 1..])
  }

  /** The regular expression tried at the first character: `/concern/`, a type, `/`, then the pid. */
  function PidAtStart(s: string): Option<string> {
    var rest := AfterType(s);
    if rest.None? || rest.value == "" || rest.value[0] == '?' then None
    else Some(rest.value[..RunLacking(rest.value, '?')])
  }

  /** The regular expression is unanchored: the leftmost match wins. */
  function MatchPid(s: string): Option<string> {
    var here := PidAtStart(s);
    if here.Some? || s == "" then here else MatchPid(s[1..])
  }

  predicate ValidParts(workType: string, pid: string, query: string) {
    && workType != "" && Lacks(workType, '/')
    && pid != "" && Lacks(pid, '?')
    && (query != "" ==> query[0] == '?')
  }

  function Path(workType: string, pid: string, query: string): string {
    CONCERN + workType + "/" + pid + query
  }

  /** The matcher accepts exactly the strings of the shape that the expression describes. */
  lemma PidAtStartMatchesShape(s: string, pid: string)
    ensures PidAtStart(s) == Some(pid) <==>
            exists workType, query :: ValidParts(workType, pid, query) && s == Path(workType, pid, query)
  {
    if PidAtStart(s) == Some(pid) {
      var t := RunLacking(s[9..], '/');
      var rest := s[9 + t + 1..];
      var workType, query := s[9..][..t], rest[|pid|..];
      assert s == s[..9] + workType + [s[9 + t]] + rest;
      assert rest == pid + query;
      assert ValidParts(workType, pid, query) && s == Path(workType, pid, query);
    }
    forall workType, query | ValidParts(workType, pid, query) && s == Path(workType, pid, query)
      ensures PidAtStart(s) == Some(pid)
    {
      PathMatches(workType, pid, query);
    }
  }

  lemma PathMatches(workType: string, pid: string, query: string)
    requires ValidParts(workType, pid, query)
    ensures PidAtStart(Path(workType, pid, query)) == Some(pid)
  {
    var s := Path(workType, pid, query);
    assert s[..9] == CONCERN;
    assert s[9..] == workType + "/" + pid + query;
    assert s[9..][..|workType|] == workType;
    RunLackingUnique(s[9..], '/', |workType|);
    var rest := s[9 + |workType| + 1..];
    assert rest == pid + query;
    assert rest[..|pid|] == pid;
    RunLackingUnique(rest, '?', |pid|);
  }

  // ---------- which URL prefixes are safe ----------

  /** A match can start at the first character of `b` once a path follows it. */
  predicate StartsMatch(b: string) {
    b == "/concern" ||
    var rest := AfterType(b + "/");
    rest.Some? && (rest.value == "" || rest.value[0] != '?')
  }

  /** No match can start inside `base` once a path follows it: a condition on the base alone. */
  predicate CleanBase(base: string) {
    forall i | 0 <= i < |base| :: !StartsMatch(base[i..])
  }

  /** A `/concern/` that starts inside the prefix `b` takes its type from `b`, or is the one overlapping case. */
  lemma AfterTypeInside(b: string, x: string)
    requires b != ""
    ensures AfterType(b + CONCERN + x) ==
            if b == "/concern" then Some(x)
            else if AfterType(b + "/").Some? then Some(AfterType(b + "/").value + "concern/" + x)
            else None
  {
    var s, s' := b + CONCERN + x, b + "/";
    if |b| < 8 {
      assert s[..9][|b|] == CONCERN[0];
    } else if |b| == 8 {
      assert s[..9] == s';
      assert s'[..8] == b && CONCERN[..8] == "/concern";
      if b == "/concern" {
        assert s[9..] == "concern/" + x;
        assert s[9..][..7] == "concern";
        RunLackingUnique(s[9..], '/', 7);
        assert s[9 + 7 + 1..] == x;
      }
    } else {
      assert s[..9] == s'[..9] == b[..9];
      if b[..9] == CONCERN {
        AfterTypeLong(b, x);
      }
    }
  }

  lemma AfterTypeLong(b: string, x: string)
    requires |b| > 8 && b[..9] == CONCERN
    ensures AfterType(b + "/").Some? == AfterType(b + CONCERN + x).Some?
    ensures AfterType(b + "/").Some? ==>
              AfterType(b + CONCERN + x) == Some(AfterType(b + "/").value + "concern/" + x)
  {
    hide RunLacking;
    var s, s', r := b + CONCERN + x, b + "/", b[9..];
    assert s[..9] == s'[..9] == b[..9];
    assert s[9..] == r + CONCERN + x && s'[9..] == r + "/";
    var t := RunLacking(r, '/');
    assert r[..t] == s[9..][..t] == s'[9..][..t];
    RunLackingUnique(s[9..], '/', t);
    RunLackingUnique(s'[9..], '/', t);
    assert s == s' + "concern/" + x;
    assert s[9 + t + 1..] == s'[9 + t + 1..] + "concern/" + x;
  }

  lemma NoMatchInsidePrefix(b: string, x: string)
    requires b != "" && !StartsMatch(b)
    ensures PidAtStart(b + CONCERN + x).None?
  {
    AfterTypeInside(b, x);
  }

  lemma CleanBaseTail(base: string)
    requires base != "" && CleanBase(base)
    ensures !StartsMatch(base) && CleanBase(base[1..])
  {
    assert base[0..] == base;
    forall i | 0 <= i < |base| - 1 ensures !StartsMatch(base[1..][i..]) {
      assert base[1..][i..] == base[i + 1..];
    }
  }

  lemma {:induction false} CleanBaseFinds(base: string, workType: string, pid: string, query: string)
    requires CleanBase(base) && ValidParts(workType, pid, query)
    ensures MatchPid(base + Path(workType, pid, query)) == Some(pid)
  {
    hide AfterType, PidAtStart;
    var s := base + Path(workType, pid, query);
    if base == "" {
      assert s == Path(workType, pid, query);
      PathMatches(workType, pid, query);
    } else {
      var rest := workType + "/" + pid + query;
      assert s == base + CONCERN + rest;
      CleanBaseTail(base);
      NoMatchInsidePrefix(base, rest);
      CleanBaseFinds(base[1..], workType, pid, query);
      assert s[1..] == base[1..] + Path(workType, pid, query);
    }
  }

  /** A match that starts inside the base does not find the pid "p" before "p" and the pid "q" before "q". */
  lemma EarlyMatchIsWrong(b: string)
    requires StartsMatch(b) && b != ""
    ensures PidAtStart(b + CONCERN + "t/p").Some? && PidAtStart(b + CONCERN + "t/q").Some?
    ensures PidAtStart(b + CONCERN + "t/p") == Some("p") ==> PidAtStart(b + CONCERN + "t/q") == Some("p")
  {
    AfterTypeInside(b, "t/p");
    AfterTypeInside(b, "t/q");
    if b == "/concern" {
      RunLackingUnique("t/p", '?', 3);
      assert "t/p"[..3] == "t/p";
    } else {
      var r := AfterType(b + "/").value + "concern/";
      var x, y := r + "t/p", r + "t/q";
      assert x[0] == y[0] == r[0] && x[1] == y[1] == r[1];
      if RunLacking(x, '?') == 1 {
        assert x[..1] == y[..1];
        RunLackingUnique(y, '?', 1);
      }
    }
  }

  lemma {:induction false} DirtyBaseFails(base: string, i: nat)
    requires i < |base| && StartsMatch(base[i..])
    ensures MatchPid(base + CONCERN + "t/p") == Some("p") ==> MatchPid(base + CONCERN + "t/q") == Some("p")
  {
    hide AfterType, PidAtStart;
    if StartsMatch(base) {
      EarlyMatchIsWrong(base);
    } else {
      assert base[0..] == base;
      NoMatchInsidePrefix(base, "t/p");
      NoMatchInsidePrefix(base, "t/q");
      assert base[i..] == base[1..][i - 1..];
      DirtyBaseFails(base[1..], i - 1);
      assert (base + CONCERN + "t/p")[1..] == base[1..] + CONCERN + "t/p";
      assert (base + CONCERN + "t/q")[1..] == base[1..] + CONCERN + "t/q";
    }
  }

  /** The bases for which every work URL yields its own pid are exactly the clean ones. */
  lemma UrlYieldsPidExactly(base: string)
    ensures CleanBase(base) <==>
            forall workType, pid, query | ValidParts(workType, pid, query) ::
              MatchPid(base + Path(workType, pid, query)) == Some(pid)
  {
    if CleanBase(base) {
      forall workType, pid, query | ValidParts(workType, pid, query)
        ensures MatchPid(base + Path(workType, pid, query)) == Some(pid)
      {
        CleanBaseFinds(base, workType, pid, query);
      }
    } else {
      var i :| 0 <= i < |base| && StartsMatch(base[i..]);
      DirtyBaseFails(base, i);
      assert ValidParts("t", "p", "") && ValidParts("t", "q", "");
      assert base + Path("t", "p", "") == base + CONCERN + "t/p";
      assert base + Path("t", "q", "") == base + CONCERN + "t/q";
    }
  }

  /** An unclean base has a `/concern/` in it once a slash follows... */
  lemma UncleanHasConcern(base: string)
    requires !CleanBase(base)
    ensures Contains(base + "/", CONCERN)
  {
    var i :| 0 <= i < |base| && StartsMatch(base[i..]);
    var b := base[i..];
    assert b + "/" == (base + "/")[i..];
    assert (b + "/")[..9] == (base + "/")[i..i + 9];
    assert OccursAt(base + "/", CONCERN, i);
  }

  lemma NoConcernInside(i: nat)
    ensures !OccursAt("x/concern", CONCERN, i)
  {
    if i == 0 {
      assert "x/concern"[0..9][0] == 'x';
    }
  }

  /** ...but that the base itself is free of `/concern/` is not enough: the two can overlap. */
  lemma ConcernAtEndOfBaseFails(pid: string)
    requires pid != "" && Lacks(pid, '?')
    ensures !Contains("x/concern", CONCERN)
    ensures MatchPid("x/concern" + Path("works", pid, "")) == Some("works/" + pid)
  {
    hide AfterType, PidAtStart, OccursAt;
    forall i: nat ensures !OccursAt("x/concern", CONCERN, i) {
      NoConcernInside(i);
    }
    var late := Path("concern", "works/" + pid, "");
    PathMatches("concern", "works/" + pid, "");
    var s := "x/concern" + Path("works", pid, "");
    assert s == "x" + late;
    NoMatchAtX(late);
    assert s[1..] == late;
  }

  lemma NoMatchAtX(s: string)
    ensures PidAtStart("x" + s).None?
  {
    assert |"x" + s| >= 9 ==> ("x" + s)[..9][0] == 'x';
  }

  // ---------- splitting the scope ----------

  /** The fields between runs of whitespace, with an empty one for a run at either end. */
  function Fields(s: string): (parts: seq<string>)
    ensures |parts| > 0
    ensures s == "" || IsSpace(s[0]) ==> parts[0] == ""
  {
    if s == "" then [""]
    else
      var rest := Fields(s[1..]);
      if !IsSpace(s[0]) then [[s[0]] + rest[0]] + rest[1..]
      else if |s| > 1 && IsSpace(s[1]) then rest
      else [""] + rest
  }

  function Picks(elements: seq<string>): seq<string> {
    if elements == [] then []
    else
      var m := MatchPid(elements[0]);
      (if m.Some? then [m.value] else []) + Picks(elements[1..])
  }

  function ExtractPids(scope: Option<string>): seq<string> {
    if scope.None? || AllSpace(scope.value) then [] else Picks(DropTrailingEmpty(Fields(scope.value)))
  }

  lemma {:induction false} PicksCat(a: seq<string>, b: seq<string>)
    ensures Picks(a + b) == Picks(a) + Picks(b)
  {
    hide MatchPid;
    if a == [] {
      assert a + b == b;
    } else {
      assert (a + b)[1..] == a[1..] + b;
      PicksCat(a[1..], b);
    }
  }

  lemma {:induction false} PicksSkipEmpty(es: seq<string>)
    requires forall i | 0 <= i < |es| :: es[i] == ""
    ensures Picks(es) == []
  {
    if es != [] {
      PicksSkipEmpty(es[1..]);
    }
  }

  lemma {:induction false} PicksAfterSpace(blank: string, s: string)
    requires AllSpace(blank)
    ensures Picks(Fields(blank + s)) == Picks(Fields(s))
  {
    if blank == "" {
      assert blank + s == s;
    } else {
      assert (blank + s)[1..] == blank[1..] + s;
      PicksAfterSpace(blank[1..], s);
      var rest := Fields(blank[1..] + s);
      PicksCat([""], rest);
      PicksSkipEmpty([""]);
    }
  }

  lemma {:induction false} FieldsAfterElement(e: string, s: string)
    requires NoSpace(e)
    ensures Fields(e + s) == [e + Fields(s)[0]] + Fields(s)[1..]
  {
    if e == "" {
      assert e + s == s && e + Fields(s)[0] == Fields(s)[0];
    } else {
      assert (e + s)[1..] == e[1..] + s;
      FieldsAfterElement(e[1..], s);
      assert [e[0]] + (e[1..] + Fields(s)[0]) == e + Fields(s)[0];
    }
  }

  /** `blanks[0]`, `es[0]`, `blanks[1]`, ..., the last blank. */
  function Lay(blanks: seq<string>, es: seq<string>): string
    requires |blanks| == |es| + 1
  {
    if es == [] then blanks[0] else blanks[0] + es[0] + Lay(blanks[1..], es[1..])
  }

  predicate Separates(blanks: seq<string>, es: seq<string>) {
    && |blanks| == |es| + 1
    && (forall i | 0 <= i < |blanks| :: AllSpace(blanks[i]))
    && (forall i | 1 <= i < |es| :: blanks[i] != "")
    && (forall i | 0 <= i < |es| :: es[i] != "" && NoSpace(es[i]))
  }

  lemma {:induction false} LayStartsWithSpace(blanks: seq<string>, es: seq<string>)
    requires Separates(blanks, es)
    requires es != [] ==> blanks[0] != ""
    ensures Lay(blanks, es) == "" || IsSpace(Lay(blanks, es)[0])
  {
  }

  lemma PicksAfterElement(e: string, s: string)
    requires e != "" && NoSpace(e)
    requires s == "" || IsSpace(s[0])
    ensures Picks(Fields(e + s)) == Picks([e]) + Picks(Fields(s))
  {
    hide MatchPid, Picks, Fields;
    FieldsAfterElement(e, s);
    var f := Fields(s);
    assert f == [""] + f[1..] && e + "" == e;
    PicksCat([""], f[1..]);
    PicksSkipEmpty([""]);
    PicksCat([e], f[1..]);
  }

  lemma {:induction false} PicksLay(blanks: seq<string>, es: seq<string>)
    requires Separates(blanks, es)
    ensures Picks(Fields(Lay(blanks, es))) == Picks(es)
  {
    if es == [] {
      assert blanks[0] + "" == blanks[0];
      PicksAfterSpace(blanks[0], "");
      PicksSkipEmpty([""]);
    } else {
      var rest := Lay(blanks[1..], es[1..]);
      assert blanks[0] + es[0] + rest == blanks[0] + (es[0] + rest);
      PicksAfterSpace(blanks[0], es[0] + rest);
      LayStartsWithSpace(blanks[1..], es[1..]);
      PicksAfterElement(es[0], rest);
      PicksLay(blanks[1..], es[1..]);
      PicksCat([es[0]], es[1..]);
      assert [es[0]] + es[1..] == es;
    }
  }

  /** Whatever whitespace separates them, the scope's elements are looked at one by one. */
  lemma ExtractPidsByElement(blanks: seq<string>, es: seq<string>)
    requires Separates(blanks, es)
    ensures ExtractPids(Some(Lay(blanks, es))) == Picks(es)
  {
    hide MatchPid, Picks, Fields, Lay;
    var s := Lay(blanks, es);
    PicksLay(blanks, es);
    var f := Fields(s);
    var kept := DropTrailingEmpty(f);
    assert f == kept + f[|kept|..];
    PicksCat(kept, f[|kept|..]);
    PicksSkipEmpty(f[|kept|..]);
    if AllSpace(s) {
      PicksOfBlank(s);
    }
  }

  lemma PicksOfBlank(s: string)
    requires AllSpace(s)
    ensures Picks(Fields(s)) == []
  {
    assert s + "" == s;
    PicksAfterSpace(s, "");
    PicksSkipEmpty([""]);
  }

  // ---------- the round trip ----------

  /** What a scope is made of: work URLs, and elements such as `openid` that name no work. */
  datatype Element =
    | WorkUrl(base: string, workType: string, pid: string, query: string)
    | Other(text: string)
  {
    function Render(): string {
      match this
      case WorkUrl(base, workType, pid, query) => base + Path(workType, pid, query)
      case Other(text) => text
    }

    predicate Valid() {
      && Render() != "" && NoSpace(Render())
      && match this
         case WorkUrl(base, workType, pid, query) => CleanBase(base) && ValidParts(workType, pid, query)
         case Other(text) => MatchPid(text).None?
    }
  }

  function RenderAll(es: seq<Element>): seq<string> {
    seq(|es|, i requires 0 <= i < |es| => es[i].Render())
  }

  function PidsOf(es: seq<Element>): seq<string> {
    if es == [] then []
    else (if es[0].WorkUrl? then [es[0].pid] else []) + PidsOf(es[1..])
  }

  lemma {:induction false} PicksOfElements(es: seq<Element>)
    requires forall i | 0 <= i < |es| :: es[i].Valid()
    ensures Picks(RenderAll(es)) == PidsOf(es)
  {
    if es != [] {
      assert RenderAll(es)[1..] == RenderAll(es[1..]);
      PicksOfElements(es[1..]);
      match es[0]
      case WorkUrl(base, workType, pid, query) => CleanBaseFinds(base, workType, pid, query);
      case Other(_) =>
    }
  }

  /** Parsing a scope undoes building it: exactly the pids of the work URLs, in order. */
  lemma ScopeRoundTrip(blanks: seq<string>, es: seq<Element>)
    requires forall i | 0 <= i < |es| :: es[i].Valid()
    requires Separates(blanks, RenderAll(es))
    ensures ExtractPids(Some(Lay(blanks, RenderAll(es)))) == PidsOf(es)
  {
    ExtractPidsByElement(blanks, RenderAll(es));
    PicksOfElements(es);
  }
}
