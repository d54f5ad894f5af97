/** The parts of Ruby's `String` that the modelled code relies on, with their laws. */
module Text {

  // ---------- characters ----------

  /** Ruby's `\s`: space, tab, line feed, vertical tab, form feed, carriage return. */
  predicate IsSpace(c: char) {
    c == ' ' || c == '\t' || c == '\n' || c == '\U{0B}' || c == '\U{0C}' || c == '\r'
  }

  predicate IsDigit(c: char) {
    '0' <= c <= '9'
  }

  predicate AllSpace(s: string) {
    forall i | 0 <= i < |s| :: IsSpace(s[i])
  }

  predicate NoSpace(s: string) {
    forall i | 0 <= i < |s| :: !IsSpace(s[i])
  }

  predicate AllDigits(s: string) {
    forall i | 0 <= i < |s| :: IsDigit(s[i])
  }

  predicate NoDigits(s: string) {
    forall i | 0 <= i < |s| :: !IsDigit(s[i])
  }

  predicate Lacks(s: string, c: char) {
    forall i | 0 <= i < |s| :: s[i] != c
  }

  /** `pat` occurs in `s` at index `i`. */
  predicate OccursAt(s: string, pat: string, i: nat) {
    i + |pat| <= |s| && s[i..i + |pat|] == pat
  }

  predicate StartsWith(s: string, p: string) {
    |p| <= |s| && s[..|p|] == p
  }

  ghost predicate Contains(s: string, pat: string) {
    exists i: nat :: OccursAt(s, pat, i)
  }

  // ---------- runs of characters ----------

  /** The length of the longest prefix of `s` that holds no `c`. */
  function RunLacking(s: string, c: char): (n: nat)
    ensures n <= |s|
    ensures Lacks(s[..n], c)
    ensures n < |s| ==> s[n] == c
  {
    if |s| == 0 || s[0] == c then 0
    else
      var m := RunLacking(s[1..], c);
      assert s[..m + 1] == [s[0]] + s[1..][..m];
      m + 1
  }

  lemma RunLackingUnique(s: string, c: char, n: nat)
    requires n <= |s| && Lacks(s[..n], c)
    requires n < |s| ==> s[n] == c
    ensures RunLacking(s, c) == n
  {
    var m := RunLacking(s, c);
    assert forall k | 0 <= k < n :: s[k] == s[..n][k];
    assert forall k | 0 <= k < m :: s[k] == s[..m][k];
  }

  function TrimLeft(s: string): string {
    if s != "" && IsSpace(s[0]) then TrimLeft(s[1..]) else s
  }

  function TrimRight(s: string): string {
    if s != "" && IsSpace(s[|s| - 1]) then TrimRight(s[..|s| - 1]) else s
  }

  lemma {:induction false} TrimLeftCuts(s: string) returns (blank: string)
    ensures AllSpace(blank) && s == blank + TrimLeft(s)
    ensures TrimLeft(s) != "" ==> !IsSpace(TrimLeft(s)[0])
  {
    if s != "" && IsSpace(s[0]) {
      blank := TrimLeftCuts(s[1..]);
      blank := [s[0]] + blank;
    } else {
      blank := "";
    }
  }

  /** Ruby's `strip`. */
  function Trim(s: string): string {
    TrimRight(TrimLeft(s))
  }

  lemma {:induction false} TrimLeftIs(pre: string, rest: string)
    requires AllSpace(pre)
    requires rest != "" ==> !IsSpace(rest[0])
    ensures TrimLeft(pre + rest) == rest
  {
    if pre == "" {
      assert pre + rest == rest;
    } else {
      assert (pre + rest)[1..] == pre[1..] + rest;
      TrimLeftIs(pre[1..], rest);
    }
  }

  lemma {:induction false} TrimRightIs(rest: string, post: string)
    requires AllSpace(post)
    requires rest != "" ==> !IsSpace(rest[|rest| - 1])
    ensures TrimRight(rest + post) == rest
  {
    if post == "" {
      assert rest + post == rest;
    } else {
      assert (rest + post)[..|rest + post| - 1] == rest + post[..|post| - 1];
      TrimRightIs(rest, post[..|post| - 1]);
    }
  }

  /** `strip` keeps exactly the core of a string that is blanks, core, blanks. */
  lemma TrimIs(pre: string, core: string, post: string)
    requires AllSpace(pre) && AllSpace(post)
    requires core != "" ==> !IsSpace(core[0]) && !IsSpace(core[|core| - 1])
    ensures Trim(pre + core + post) == core
  {
    if core == "" {
      assert pre + core + post == pre + post + "";
      TrimLeftIs(pre + post, "");
    } else {
      assert pre + core + post == pre + (core + post);
      TrimLeftIs(pre, core + post);
      TrimRightIs(core, post);
    }
  }

  lemma {:induction false} TrimRightCuts(s: string) returns (blank: string)
    ensures AllSpace(blank) && s == TrimRight(s) + blank
    ensures TrimRight(s) != "" ==> !IsSpace(TrimRight(s)[|TrimRight(s)| - 1])
  {
    if s != "" && IsSpace(s[|s| - 1]) {
      blank := TrimRightCuts(s[..|s| - 1]);
      blank := blank + [s[|s| - 1]];
    } else {
      blank := "";
    }
  }

  /** `core` is `s` without the blanks at its ends. */
  ghost predicate Stripped(s: string, core: string) {
    && (exists pre, post :: AllSpace(pre) && AllSpace(post) && s == pre + core + post)
    && (core != "" ==> !IsSpace(core[0]) && !IsSpace(core[|core| - 1]))
  }

  /** `strip` gives that, and nothing else. */
  lemma TrimExactly(s: string, core: string)
    ensures Stripped(s, core) <==> core == Trim(s)
  {
    var pre := TrimLeftCuts(s);
    var post := TrimRightCuts(TrimLeft(s));
    assert s == pre + Trim(s) + post;
    if Trim(s) != "" {
      assert Trim(s)[0] == TrimLeft(s)[0];
    }
    forall a, z | AllSpace(a) && AllSpace(z) && s == a + core + z && (core != "" ==> !IsSpace(core[0]) && !IsSpace(core[|core| - 1]))
      ensures core == Trim(s)
    {
      TrimIs(a, core, z);
    }
  }

  lemma TrimNothing(s: string)
    requires s != "" ==> !IsSpace(s[0]) && !IsSpace(s[|s| - 1])
    ensures TrimLeft(s) == TrimRight(s) == Trim(s) == s
  {
  }

  // ---------- splitting and joining ----------

  function Join(parts: seq<string>, sep: string): string {
    if |parts| == 0 then ""
    else if |parts| == 1 then parts[0]
    else parts[0] + sep + Join(parts[1..], sep)
  }

  /** All fields between occurrences of `c`, the empty ones included. */
  function Split(s: string, c: char): (parts: seq<string>)
    ensures |parts| > 0
  {
    if |s| == 0 then [""]
    else
      var rest := Split(s[1..], c);
      if s[0] == c then [""] + rest else [[s[0]] + rest[0]] + rest[1..]
  }

  lemma {:induction false} SplitFieldsLack(s: string, c: char)
    ensures forall i | 0 <= i < |Split(s, c)| :: Lacks(Split(s, c)[i], c)
  {
    if |s| > 0 {
      SplitFieldsLack(s[1..], c);
    }
  }

  lemma {:induction false} SplitLacking(s: string, c: char)
    requires Lacks(s, c)
    ensures Split(s, c) == [s]
  {
    if |s| > 0 {
      SplitLacking(s[1..], c);
      assert [s[0]] + s[1..] == s;
    }
  }

  lemma {:induction false} SplitCat(a: string, c: char, b: string)
    ensures Split(a + [c] + b, c) == Split(a, c) + Split(b, c)
  {
    var s := a + [c] + b;
    if |a| == 0 {
      assert s[1..] == b;
    } else {
      assert s[1..] == a[1..] + [c] + b;
      SplitCat(a[1..], c, b);
    }
  }

  /** Splitting undoes joining when no part holds the separator. */
  lemma {:induction false} SplitJoin(parts: seq<string>, c: char)
    requires |parts| > 0
    requires forall i | 0 <= i < |parts| :: Lacks(parts[i], c)
    ensures Split(Join(parts, [c]), c) == parts
  {
    SplitLacking(parts[0], c);
    if |parts| > 1 {
      SplitJoin(parts[1..], c);
      SplitCat(parts[0], c, Join(parts[1..], [c]));
      assert parts == [parts[0]] + parts[1..];
    }
  }

  /** Ruby's `split` forgets the empty fields at the end. */
  function DropTrailingEmpty(parts: seq<string>): (kept: seq<string>)
    ensures |kept| <= |parts| && kept == parts[..|kept|]
    ensures forall i | |kept| <= i < |parts| :: parts[i] == ""
    ensures kept != [] ==> kept[|kept| - 1] != ""
  {
    if |parts| > 0 && parts[|parts| - 1] == "" then DropTrailingEmpty(parts[..|parts| - 1]) else parts
  }

  // ---------- decimal numbers ----------

  function DigitValue(c: char): (d: nat)
    requires IsDigit(c)
    ensures d < 10
  {
    c as int - '0' as int
  }

  /** The number that a string of digits spells in base `b`. */
  function Value(ds: string, b: nat): nat
    requires AllDigits(ds)
  {
    if ds == "" then 0 else Value(ds[..|ds| - 1], b) * b + DigitValue(ds[|ds| - 1])
  }

  function Decimal(n: nat): (ds: string)
    ensures ds != "" && AllDigits(ds)
    ensures n > 0 ==> ds[0] != '0'
    ensures n == 0 ==> ds == "0"
  {
    var last := [('0' as int + n % 10) as char];
    if n < 10 then last else Decimal(n / 10) + last
  }

  lemma {:induction false} DecimalSpells(n: nat)
    ensures AllDigits(Decimal(n)) && Value(Decimal(n), 10) == n
    decreases n
  {
    var last := [('0' as int + n % 10) as char];
    if n >= 10 {
      DecimalSpells(n / 10);
      assert Decimal(n)[..|Decimal(n)| - 1] == Decimal(n / 10);
    } else {
      assert Decimal(n) == last && last[..0] == "";
    }
  }

  lemma {:induction false} LeadingZeros(zeros: string, ds: string)
    requires forall i | 0 <= i < |zeros| :: zeros[i] == '0'
    requires AllDigits(ds)
    ensures Value(zeros + ds, 10) == Value(ds, 10)
    decreases |zeros| + |ds|
  {
    var s := zeros + ds;
    if ds != "" {
      assert s[..|s| - 1] == zeros + ds[..|ds| - 1];
      LeadingZeros(zeros, ds[..|ds| - 1]);
    } else if zeros != "" {
      assert s[..|s| - 1] == zeros[..|zeros| - 1] + "";
      LeadingZeros(zeros[..|zeros| - 1], "");
    }
  }

  // ---------- string order ----------

  /** The order in which a sorted index lists strings. */
  predicate Before(a: string, b: string) {
    b != "" && (a == "" || a[0] < b[0] || (a[0] == b[0] && Before(a[1..], b[1..])))
  }

  lemma {:induction false} BeforeCommonPrefix(p: string, a: string, b: string)
    ensures Before(p + a, p + b) == Before(a, b)
  {
    if p == "" {
      assert p + a == a && p + b == b;
    } else {
      assert (p + a)[1..] == p[1..] + a && (p + b)[1..] == p[1..] + b;
      BeforeCommonPrefix(p[1..], a, b);
    }
  }

  lemma {:induction false} BeforeSameLength(a: string, b: string, x: string, y: string)
    requires |a| == |b|
    ensures Before(a + x, b + y) == (Before(a, b) || (a == b && Before(x, y)))
  {
    if a == "" {
      assert a + x == x && b + y == y;
    } else {
      assert (a + x)[1..] == a[1..] + x && (b + y)[1..] == b[1..] + y;
      assert a == [a[0]] + a[1..] && b == [b[0]] + b[1..];
      BeforeSameLength(a[1..], b[1..], x, y);
    }
  }

  /** Digit strings of one length are ordered as the numbers they spell, and equal when those are. */
  lemma {:induction false} DigitOrder(a: string, b: string)
    requires |a| == |b| && AllDigits(a) && AllDigits(b)
    ensures Before(a, b) <==> Value(a, 10) < Value(b, 10)
    ensures a == b <==> Value(a, 10) == Value(b, 10)
  {
    if a != "" {
      var n := |a| - 1;
      DigitOrder(a[..n], b[..n]);
      assert a == a[..n] + [a[n]] && b == b[..n] + [b[n]];
      BeforeSameLength(a[..n], b[..n], [a[n]], [b[n]]);
    }
  }
}
