/** What the patterns of MetaMatch accept, said by their characters: `*` 0x2A, `-` 0x2D, `?` 0x3F, `[` 0x5B,
    `]` 0x5D. */
module Patterns {
  import opened CStrings
  import opened MetaMatch

  // ---------------------------------------------------------------------------- what a set holds

  /** A set without a dash holds exactly its own characters. */
  lemma DashFreeSet(body: Text, c: Char16)
    requires 0x2D !in body
    ensures InSet(body, c) <==> c in body
  {
    if j :| 0 <= j < |body| && body[j] == c {
      assert Admits(body, j, c);
    }
  }

  /** A dash between two characters stands for the range between them. */
  lemma RangeSet(lo: Char16, hi: Char16, c: Char16)
    requires lo != 0x2D && hi != 0x2D
    ensures InSet([lo, 0x2D, hi], c) <==> c == lo || c == hi || lo <= c <= hi
  {
    var body := [lo, 0x2D, hi];
    assert body[0] == lo && body[1] == 0x2D && body[2] == hi;
    assert Admits(body, 0, c) <==> c == lo;
    assert Admits(body, 1, c) <==> lo <= c <= hi;
    assert Admits(body, 2, c) <==> c == hi;
  }

  /** A set holds what its parts hold, cut anywhere but at a dash. */
  lemma SetJoins(a: Text, b: Text, c: Char16)
    requires a == [] || a[|a| - 1] != 0x2D
    requires b == [] || b[0] != 0x2D
    ensures InSet(a + b, c) <==> InSet(a, c) || InSet(b, c)
  {
    var all, n := a + b, |a|;
    forall j | 0 <= j < n ensures Admits(all, j, c) <==> Admits(a, j, c) {
      assert all[j] == a[j] && (j > 0 ==> all[j - 1] == a[j - 1]) && (j + 1 < n ==> all[j + 1] == a[j + 1]);
    }
    forall j | 0 <= j < |b| ensures Admits(all, n + j, c) <==> Admits(b, j, c) {
      assert all[n + j] == b[j] && (j > 0 ==> all[n + j - 1] == b[j - 1]);
      assert j + 1 < |b| ==> all[n + j + 1] == b[j + 1];
    }
    if InSet(all, c) {
      var j :| 0 <= j < |all| && Admits(all, j, c);
      assert if j < n then Admits(a, j, c) else Admits(b, j - n, c);
    }
    if j :| 0 <= j < |b| && Admits(b, j, c) {
      assert Admits(all, n + j, c);
    }
  }

  /** A set cut at the dash of a range: its ends belong to either side, so that ranges may be chained. */
  lemma RangeSplits(a: Text, lo: Char16, hi: Char16, b: Text, c: Char16)
    requires lo != 0x2D && hi != 0x2D
    ensures InSet(a + [lo, 0x2D, hi] + b, c) <==> InSet(a + [lo], c) || lo <= c <= hi || InSet([hi] + b, c)
  {
    hide InSet;
    var x, y := a + [lo], [hi] + b;
    var all, n := x + [0x2D] + y, |x|;
    assert a + [lo, 0x2D, hi] + b == all;
    forall j | 0 <= j < n ensures Admits(all, j, c) <==> Admits(x, j, c) {
      assert all[j] == x[j] && (j > 0 ==> all[j - 1] == x[j - 1]) && (j + 1 < n ==> all[j + 1] == x[j + 1]);
    }
    assert all[n - 1] == lo && all[n] == 0x2D && all[n + 1] == hi;
    assert Admits(all, n, c) <==> lo <= c <= hi;
    forall j | 0 <= j < |y| ensures Admits(all, n + 1 + j, c) <==> Admits(y, j, c) {
      assert all[n + 1 + j] == y[j] && (j > 0 ==> all[n + j] == y[j - 1]);
      assert j + 1 < |y| ==> all[n + j + 2] == y[j + 1];
    }
    ThreeHold(x, y, c);
  }

  lemma ThreeHold(x: Text, y: Text, c: Char16)
    requires var all, n := x + [0x2D] + y, |x|;
      && (forall j :: 0 <= j < n ==> (Admits(all, j, c) <==> Admits(x, j, c)))
      && (forall j :: 0 <= j < |y| ==> (Admits(all, n + 1 + j, c) <==> Admits(y, j, c)))
    ensures InSet(x + [0x2D] + y, c) <==> InSet(x, c) || Admits(x + [0x2D] + y, |x|, c) || InSet(y, c)
  {
    hide Admits;
    var all, n := x + [0x2D] + y, |x|;
    if j :| 0 <= j < |all| && Admits(all, j, c) {
      assert j > n ==> Admits(all, n + 1 + (j - n - 1), c);
      assert j < n ==> Admits(x, j, c);
      assert j > n ==> Admits(y, j - n - 1, c);
    }
    if j :| 0 <= j < n && Admits(x, j, c) {
      assert Admits(all, j, c);
    }
    if j :| 0 <= j < |y| && Admits(y, j, c) {
      assert Admits(all, n + 1 + j, c);
    }
  }

  /** A dash at the start stands for everything up to the character behind it, and a second dash right
      behind a dash both ends its range and stands for itself. */
  lemma LeadingDashes(lo: Char16, hi: Char16, c: Char16)
    requires lo != 0x2D && hi != 0x2D
    ensures InSet([0x2D, hi], c) <==> c <= hi
    ensures InSet([0x2D, 0x2D], c) <==> c <= 0x2D
    ensures InSet([lo, 0x2D, 0x2D], c) <==> c == lo || c == 0x2D || lo <= c <= 0x2D
    ensures !InSet([0x2D], c)
  {
    var x, y, z := [0x2D, hi], [0x2D, 0x2D], [lo, 0x2D, 0x2D];
    assert x[0] == 0x2D && x[1] == hi && y[0] == y[1] == 0x2D && z[0] == lo && z[1] == z[2] == 0x2D;
    assert Admits(x, 0, c) <==> c <= hi;
    assert Admits(x, 1, c) <==> c == hi;
    assert Admits(y, 0, c) <==> c <= 0x2D;
    assert Admits(y, 1, c) <==> c == 0x2D;
    assert Admits(z, 0, c) <==> c == lo;
    assert Admits(z, 1, c) <==> lo <= c <= 0x2D;
    assert Admits(z, 2, c) <==> c == 0x2D;
  }

  /** A dash at the end of a set stands for nothing. */
  lemma TrailingDash(a: Text, c: Char16)
    requires a == [] || a[|a| - 1] != 0x2D
    ensures InSet(a + [0x2D], c) <==> InSet(a, c)
  {
    var all, n := a + [0x2D], |a|;
    forall j | 0 <= j < n ensures Admits(all, j, c) <==> Admits(a, j, c) {
      assert all[j] == a[j] && (j > 0 ==> all[j - 1] == a[j - 1]) && (j + 1 < n ==> all[j + 1] == a[j + 1]);
    }
    assert !Admits(all, n, c);
    if j :| 0 <= j < |all| && Admits(all, j, c) {
      assert j != n && Admits(a, j, c);
    }
  }

  // ----------------------------------------------------------------------------- patterns joined

  /** No set reaches from a pattern whose sets are closed into what stands behind it. */
  lemma {:induction false} ParseJoins(p: Text, q: Text)
    requires SetsClosed(p)
    ensures Parse(p + q) == Parse(p) + Parse(q)
    decreases |p|
  {
    hide FirstItem, ItemLength;
    if p == [] {
      assert p + q == q;
    } else {
      FirstItemStays(p, q);
      var n := ItemLength(p);
      assert (p + q)[n..] == p[n..] + q;
      ParseJoins(p[n..], q);
    }
  }

  lemma FirstItemStays(p: Text, q: Text)
    requires p != [] && !FirstItem(p).OpenSet?
    ensures FirstItem(p + q) == FirstItem(p) && ItemLength(p + q) == ItemLength(p)
  {
    if p[0] == OPEN {
      assert (p + q)[1..] == p[1..] + q;
      CloseStays(p[1..], q);
      var k := CloseIndex(p[1..]);
      assert (p[1..] + q)[..k] == p[1..][..k];
    }
  }

  lemma {:induction false} CloseStays(p: Text, q: Text)
    requires CloseIndex(p) < |p|
    ensures CloseIndex(p + q) == CloseIndex(p)
    decreases |p|
  {
    if p[0] != CLOSE {
      assert (p + q)[1..] == p[1..] + q;
      CloseStays(p[1..], q);
    }
  }

  predicate CutAt(s: Text, k: nat, x: seq<Item>, y: seq<Item>)
    requires k <= |s|
  {
    Matches(s[..k], x) && Matches(s[k..], y)
  }

  /** Patterns joined accept the strings of the one followed by strings of the other. */
  lemma {:induction false} MatchesJoins(s: Text, x: seq<Item>, y: seq<Item>)
    ensures Matches(s, x + y) <==> exists k :: 0 <= k <= |s| && CutAt(s, k, x, y)
    decreases |x|
  {
    hide TakesOne;
    if x == [] {
      assert x + y == y && s[..0] == [] && s[0..] == s;
      assert CutAt(s, 0, x, y) <==> Matches(s, y);
      if k :| 0 <= k <= |s| && CutAt(s, k, x, y) {
        assert s[..k] == [];
      }
    } else {
      var rest := x[1..];
      assert (x + y)[1..] == rest + y;
      if x[0] == AnyRun {
        RunJoins(s, x, y);
      } else if s == [] {
        assert !CutAt(s, 0, x, y);
      } else {
        MatchesJoins(s[1..], rest, y);
        OneJoins(s, x, y);
      }
    }
  }

  lemma OneJoins(s: Text, x: seq<Item>, y: seq<Item>)
    requires x != [] && x[0] != AnyRun && s != []
    ensures (exists k :: 0 <= k <= |s| && CutAt(s, k, x, y)) <==>
      TakesOne(x[0], s[0]) && exists k :: 0 <= k <= |s[1..]| && CutAt(s[1..], k, x[1..], y)
  {
    hide TakesOne;
    forall k | 1 <= k <= |s|
      ensures CutAt(s, k, x, y) <==> TakesOne(x[0], s[0]) && CutAt(s[1..], k - 1, x[1..], y)
    {
      assert s[..k][1..] == s[1..][..k - 1] && s[k..] == s[1..][k - 1..];
    }
    assert !CutAt(s, 0, x, y);
    if TakesOne(x[0], s[0]) && exists k :: 0 <= k <= |s[1..]| && CutAt(s[1..], k, x[1..], y) {
      var k :| 0 <= k <= |s[1..]| && CutAt(s[1..], k, x[1..], y);
      assert CutAt(s[1..], (k + 1) - 1, x[1..], y);
      assert CutAt(s, k + 1, x, y);
    }
    if k :| 0 <= k <= |s| && CutAt(s, k, x, y) {
      assert CutAt(s[1..], k - 1, x[1..], y);
    }
  }

  lemma {:induction false} RunJoins(s: Text, x: seq<Item>, y: seq<Item>)
    requires x != [] && x[0] == AnyRun
    ensures Matches(s, x + y) <==> exists k :: 0 <= k <= |s| && CutAt(s, k, x, y)
    decreases |x|, 0
  {
    var rest := x[1..];
    assert (x + y)[1..] == rest + y;
    if Matches(s, x + y) {
      var m :| 0 <= m <= |s| && Matches(s[m..], (x + y)[1..]);
      MatchesJoins(s[m..], rest, y);
      var k :| 0 <= k <= |s[m..]| && CutAt(s[m..], k, rest, y);
      assert s[..m + k][m..] == s[m..][..k] && s[m + k..] == s[m..][k..];
      assert CutAt(s, m + k, x, y);
    }
    if k :| 0 <= k <= |s| && CutAt(s, k, x, y) {
      var m :| 0 <= m <= |s[..k]| && Matches(s[..k][m..], rest);
      assert s[..k][m..] == s[m..][..k - m] && s[k..] == s[m..][k - m..];
      assert CutAt(s[m..], k - m, rest, y);
      MatchesJoins(s[m..], rest, y);
    }
  }

  // ----------------------------------------------------------------------- patterns by character

  /** No `*`, no `?` and no `[`. */
  predicate Plain(p: Text) {
    forall i :: 0 <= i < |p| ==> p[i] != 0x2A && p[i] != 0x3F && p[i] != 0x5B
  }

  lemma {:induction false} PlainItems(p: Text)
    requires Plain(p)
    ensures SetsClosed(p) && |Parse(p)| == |p|
    ensures forall s :: Matches(s, Parse(p)) <==> s == p
    decreases |p|
  {
    if p == [] {
      assert forall s: Text :: Matches(s, Parse(p)) <==> s == [];
    } else {
      PlainItems(p[1..]);
      assert Parse(p) == [Literal(p[0])] + Parse(p[1..]);
      forall s: Text ensures Matches(s, Parse(p)) <==> s == p {
        assert s == p <==> s != [] && s[0] == p[0] && s[1..] == p[1..];
      }
    }
  }

  /** A plain pattern accepts itself and nothing else. */
  lemma PlainPattern(s: Text, p: Text)
    requires Plain(p)
    ensures InLanguage(s, Parse(p)) <==> s == p
  {
    hide InLanguage;
    PlainItems(p);
    MatchesIsLanguage(s, Parse(p));
  }

  /** `*` between plain texts accepts every string that begins with the one and ends, behind that, with the
      other. */
  lemma StarPattern(s: Text, p: Text, q: Text)
    requires Plain(p) && Plain(q)
    ensures InLanguage(s, Parse(p + [0x2A] + q)) <==> |s| >= |p| + |q| && s[..|p|] == p && s[|s| - |q|..] == q
  {
    hide InLanguage, Matches, Plain, Parse;
    Between(s, p, 0x2A, q);
    SingleItem(0x2A);
    AnyRunTakes();
    if |s| >= |p| + |q| && s[..|p|] == p && s[|s| - |q|..] == q {
      assert MiddleAt(s, |p|, |s| - |q|, p, [AnyRun], q);
    }
  }

  /** `?` between plain texts accepts one character there, whichever it is. */
  lemma QuestionPattern(s: Text, p: Text, q: Text)
    requires Plain(p) && Plain(q)
    ensures InLanguage(s, Parse(p + [0x3F] + q)) <==>
      |s| == |p| + 1 + |q| && s[..|p|] == p && s[|p| + 1..] == q
  {
    hide InLanguage, Matches, Plain, Parse;
    Between(s, p, 0x3F, q);
    SingleItem(0x3F);
    AnyOneTakes();
    if |s| == |p| + 1 + |q| && s[..|p|] == p && s[|p| + 1..] == q {
      assert MiddleAt(s, |p|, |p| + 1, p, [AnyOne], q);
    }
  }

  predicate MiddleAt(s: Text, i: int, j: int, p: Text, middle: seq<Item>, q: Text) {
    0 <= i <= j <= |s| && s[..i] == p && Matches(s[i..j], middle) && s[j..] == q
  }

  lemma Between(s: Text, p: Text, c: Char16, q: Text)
    requires Plain(p) && Plain(q) && c != 0x5B
    ensures InLanguage(s, Parse(p + [c] + q)) <==> exists i, j :: MiddleAt(s, i, j, p, Parse([c]), q)
  {
    hide InLanguage, Matches, Plain, Parse;
    PlainItems(p);
    PlainItems(q);
    SingleItem(c);
    assert p + [c] + q == p + ([c] + q);
    ParseJoins(p, [c] + q);
    ParseJoins([c], q);
    MatchesIsLanguage(s, Parse(p) + (Parse([c]) + Parse(q)));
    ThreeParts(s, p, Parse(p), Parse([c]), q, Parse(q));
  }

  lemma ThreeParts(s: Text, p: Text, x: seq<Item>, m: seq<Item>, q: Text, y: seq<Item>)
    requires (forall t :: Matches(t, x) <==> t == p) && (forall t :: Matches(t, y) <==> t == q)
    ensures Matches(s, x + (m + y)) <==> exists i, j :: MiddleAt(s, i, j, p, m, q)
  {
    hide Matches;
    MatchesJoins(s, x, m + y);
    if k :| 0 <= k <= |s| && CutAt(s, k, x, m + y) {
      MatchesJoins(s[k..], m, y);
      var l :| 0 <= l <= |s[k..]| && CutAt(s[k..], l, m, y);
      assert s[k..][..l] == s[k..k + l] && s[k..][l..] == s[k + l..];
      assert MiddleAt(s, k, k + l, p, m, q);
    }
    if i, j :| MiddleAt(s, i, j, p, m, q) {
      MatchesJoins(s[i..], m, y);
      assert s[i..][..j - i] == s[i..j] && s[i..][j - i..] == s[j..];
      assert CutAt(s[i..], j - i, m, y);
      assert CutAt(s, i, x, m + y);
    }
  }

  lemma SingleItem(c: Char16)
    requires c != 0x5B
    ensures SetsClosed([c])
    ensures Parse([c]) == [if c == 0x2A then AnyRun else if c == 0x3F then AnyOne else Literal(c)]
  {
    assert [c][1..] == [];
  }

  lemma AnyRunTakes()
    ensures forall s: Text :: Matches(s, [AnyRun])
  {
    forall s: Text ensures Matches(s, [AnyRun]) {
      assert s[|s|..] == [] && Matches(s[|s|..], [AnyRun][1..]);
    }
  }

  lemma AnyOneTakes()
    ensures forall s: Text :: Matches(s, [AnyOne]) <==> |s| == 1
  {
    forall s: Text ensures Matches(s, [AnyOne]) <==> |s| == 1 {
      assert [AnyOne][1..] == [];
    }
  }

  lemma CloseAt(body: Text, q: Text)
    requires 0x5D !in body
    ensures CloseIndex(body + [0x5D] + q) == |body| && CloseIndex(body) == |body|
  {
    var p := body + [0x5D] + q;
    assert forall i :: 0 <= i < |body| ==> p[i] == body[i];
    assert p[|body|] == 0x5D;
  }

  lemma SetItem(body: Text)
    requires 0x5D !in body
    ensures Parse([0x5B] + body + [0x5D]) == [OneOf(body)] && SetsClosed([0x5B] + body + [0x5D])
    ensures Parse([0x5B] + body) == [OpenSet(body)]
  {
    CloseAt(body, []);
    var p, o := [0x5B] + body + [0x5D], [0x5B] + body;
    assert p[1..] == body + [0x5D] + [] && p[1..][..|body|] == body && o[1..] == body;
    assert FirstItem(p) == OneOf(body) && ItemLength(p) == |p| && p[|p|..] == [];
    assert FirstItem(o) == OpenSet(body) && ItemLength(o) == |o| && o[|o|..] == [];
  }

  /** A set by itself accepts the one-character strings of what it holds. */
  lemma SetPattern(s: Text, body: Text)
    requires 0x5D !in body
    ensures InLanguage(s, Parse([0x5B] + body + [0x5D])) <==> |s| == 1 && InSet(body, s[0])
    ensures 0x2D !in body ==> (InLanguage(s, Parse([0x5B] + body + [0x5D])) <==> |s| == 1 && s[0] in body)
  {
    hide InLanguage, InSet;
    SetItem(body);
    MatchesIsLanguage(s, [OneOf(body)]);
    assert [OneOf(body)][1..] == [];
    if |s| == 1 && 0x2D !in body {
      DashFreeSet(body, s[0]);
    }
  }

  /** A range between brackets accepts the one-character strings between its ends. */
  lemma RangePattern(s: Text, lo: Char16, hi: Char16)
    requires lo != 0x2D && lo != 0x5D && hi != 0x2D && hi != 0x5D
    ensures InLanguage(s, Parse([0x5B, lo, 0x2D, hi, 0x5D])) <==>
      |s| == 1 && (s[0] == lo || s[0] == hi || lo <= s[0] <= hi)
  {
    hide InLanguage, InSet;
    var body := [lo, 0x2D, hi];
    assert [0x5B, lo, 0x2D, hi, 0x5D] == [0x5B] + body + [0x5D];
    SetPattern(s, body);
    if |s| == 1 {
      RangeSet(lo, hi, s[0]);
    }
  }

  /** An unclosed set is read past its end by every string that is not empty, unless a dash stands last: then
      by those whose first character it holds. */
  lemma OpenPattern(s: Text, body: Text)
    requires 0x5D !in body
    ensures RunsPast(s, Parse([0x5B] + body)) <==>
      s != [] && (body == [] || body[|body| - 1] != 0x2D || InSet(body, s[0]))
    ensures !InLanguage(s, Parse([0x5B] + body))
  {
    hide InLanguage, InSet;
    SetItem(body);
    MatchesIsLanguage(s, [OpenSet(body)]);
  }

  /** `[a-c]` accepts exactly "a", "b" and "c", and `a*b` what begins with a and ends, behind that, with b. */
  method Samples(str: Text) returns (letter: Verdict, name: Verdict)
    requires IsCString(str)
    ensures letter == if str in {[0x61], [0x62], [0x63]} then True else False
    ensures name == if |str| >= 2 && str[0] == 0x61 && str[|str| - 1] == 0x62 then True else False
  {
    hide InLanguage, Parse, RunsPast, SetsClosed;
    var range, star := [0x5B, 0x61, 0x2D, 0x63, 0x5D], [0x61, 0x2A, 0x62];
    SamplesClosed();
    RangePattern(str, 0x61, 0x63);
    StarPattern(str, [0x61], [0x62]);
    assert star == [0x61] + [0x2A] + [0x62];
    assert |str| == 1 ==> str == [str[0]];
    assert |str| >= 2 ==> str[..1] == [str[0]] && str[|str| - 1..] == [str[|str| - 1]];
    assert str[0..] == str && range[0..] == range && star[0..] == star;
    letter := MetaMatch.MetaMatch(str, 0, range, 0);
    name := MetaMatch.MetaMatch(str, 0, star, 0);
  }

  lemma SamplesClosed()
    ensures SetsClosed([0x5B, 0x61, 0x2D, 0x63, 0x5D]) && SetsClosed([0x61, 0x2A, 0x62])
  {
    hide SetsClosed;
    var body := [0x61, 0x2D, 0x63];
    assert [0x5B] + body + [0x5D] == [0x5B, 0x61, 0x2D, 0x63, 0x5D];
    SetItem(body);
    assert [0x61, 0x2A, 0x62] == [0x61] + ([0x2A] + [0x62]);
    SingleItem(0x61);
    SingleItem(0x2A);
    SingleItem(0x62);
    ClosedJoins([0x2A], [0x62]);
    ClosedJoins([0x61], [0x2A] + [0x62]);
  }

  lemma {:induction false} ClosedJoins(p: Text, q: Text)
    requires SetsClosed(p)
    ensures SetsClosed(p + q) <==> SetsClosed(q)
    decreases |p|
  {
    hide FirstItem, ItemLength;
    if p == [] {
      assert p + q == q;
    } else {
      FirstItemStays(p, q);
      var n := ItemLength(p);
      assert (p + q)[n..] == p[n..] + q;
      ClosedJoins(p[n..], q);
    }
  }
}
