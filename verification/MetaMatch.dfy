/** MetaMatch of str.c: a backtracking matcher for `*`, `?` and `[...]` sets. */
module MetaMatch {
  import opened CStrings

  const STAR: Char16 := 0x2A
  const QUESTION: Char16 := 0x3F
  const OPEN: Char16 := 0x5B
  const CLOSE: Char16 := 0x5D
  const DASH: Char16 := 0x2D

  // ---------------------------------------------------------------- the language of a pattern

  /** A set without its `]` reaches to the end of the pattern. */
  datatype Item = Literal(c: Char16) | AnyOne | AnyRun | OneOf(body: Text) | OpenSet(body: Text)

  /** Index of the first `]`, or the length of `p` when there is none. */
  function CloseIndex(p: Text): (k: nat)
    ensures k <= |p|
    ensures forall i :: 0 <= i < k ==> p[i] != CLOSE
    ensures k < |p| ==> p[k] == CLOSE
  {
    if p == [] || p[0] == CLOSE then 0 else 1 + CloseIndex(p[1..])
  }

  /** How many characters of the pattern its first item occupies. */
  function ItemLength(p: Text): (n: nat)
    requires p != []
    ensures 1 <= n <= |p|
  {
    if p[0] != OPEN then 1
    else
      var k := CloseIndex(p[1..]);
      if k == |p| - 1 then |p| else k + 2
  }

  function FirstItem(p: Text): Item
    requires p != []
  {
    if p[0] == STAR then AnyRun
    else if p[0] == QUESTION then AnyOne
    else if p[0] != OPEN then Literal(p[0])
    else
      var k := CloseIndex(p[1..]);
      if k == |p| - 1 then OpenSet(p[1..]) else OneOf(p[1..][..k])
  }

  function Parse(p: Text): seq<Item> {
    if p == [] then [] else [FirstItem(p)] + Parse(p[ItemLength(p)..])
  }

  /** Every `[` that opens a set has a later `]`. */
  predicate SetsClosed(p: Text)
  {
    p == [] || (!FirstItem(p).OpenSet? && SetsClosed(p[ItemLength(p)..]))
  }

  /** The low end of a range whose `-` stands at `j`: the character before it, or 0 at the start of the set. */
  function RangeLow(body: Text, j: nat): Char16
    requires j < |body|
  {
    if j == 0 then 0 else body[j - 1]
  }

  /** Position `j` of a set admits `c`: as the dash of a range around `c`, or as `c` itself.  A dash
      stands for itself only right behind another dash. */
  predicate Admits(body: Text, j: nat, c: Char16)
    requires j < |body|
  {
    || (body[j] == DASH && j + 1 < |body| && RangeLow(body, j) <= c <= body[j + 1])
    || (body[j] == c && (c != DASH || (j > 0 && body[j - 1] == DASH)))
  }

  predicate InSet(body: Text, c: Char16)
  {
    exists j :: 0 <= j < |body| && Admits(body, j, c)
  }

  /** The words a single item stands for. */
  predicate WordOf(item: Item, w: Text)
  {
    match item
    case Literal(c) => w == [c]
    case AnyOne => |w| == 1
    case AnyRun => true
    case OneOf(body) => |w| == 1 && InSet(body, w[0])
    case OpenSet(_) => false
  }

  function Concat(ws: seq<Text>): Text
  {
    if ws == [] then [] else ws[0] + Concat(ws[1..])
  }

  /** One word per item, the i-th word in the language of the i-th item. */
  predicate WordsOf(items: seq<Item>, ws: seq<Text>)
  {
    |ws| == |items| && forall i :: 0 <= i < |ws| ==> WordOf(items[i], ws[i])
  }

  /** `s` is a concatenation of words, one from each item of the pattern. */
  ghost predicate InLanguage(s: Text, items: seq<Item>)
  {
    exists ws: seq<Text> :: WordsOf(items, ws) && Concat(ws) == s
  }

  // ------------------------------------------------------------------ the language by residuals

  predicate TakesOne(item: Item, c: Char16)
  {
    match item
    case Literal(d) => c == d
    case AnyOne => true
    case AnyRun => false
    case OneOf(body) => InSet(body, c)
    case OpenSet(_) => false
  }

  predicate Matches(s: Text, items: seq<Item>)
    decreases |items|
  {
    if items == [] then s == []
    else if items[0] == AnyRun then exists k :: 0 <= k <= |s| && Matches(s[k..], items[1..])
    else s != [] && TakesOne(items[0], s[0]) && Matches(s[1..], items[1..])
  }

  lemma {:induction false} MatchesHasWords(s: Text, items: seq<Item>)
    requires Matches(s, items)
    ensures InLanguage(s, items)
    decreases |items|
  {
    if items == [] {
      assert WordsOf(items, []) && Concat([]) == s;
    } else {
      var k := 1;
      if items[0] == AnyRun {
        k :| 0 <= k <= |s| && Matches(s[k..], items[1..]);
      }
      MatchesHasWords(s[k..], items[1..]);
      var ws: seq<Text> :| WordsOf(items[1..], ws) && Concat(ws) == s[k..];
      var all: seq<Text> := [s[..k]] + ws;
      assert all[0] == s[..k] && all[1..] == ws;
      assert WordOf(items[0], all[0]);
      forall i | 0 <= i < |all| ensures WordOf(items[i], all[i]) {
        if i > 0 { assert items[i] == items[1..][i - 1] && all[i] == ws[i - 1]; }
      }
      assert WordsOf(items, all) && Concat(all) == s;
    }
  }

  lemma {:induction false} WordsMatch(ws: seq<Text>, items: seq<Item>)
    requires WordsOf(items, ws)
    ensures Matches(Concat(ws), items)
    decreases |ws|
  {
    if ws != [] {
      assert WordOf(items[0], ws[0]);
      forall i | 0 <= i < |ws| - 1 ensures WordOf(items[1..][i], ws[1..][i]) {
        assert WordOf(items[i + 1], ws[i + 1]);
      }
      WordsMatch(ws[1..], items[1..]);
      var s, k := Concat(ws), |ws[0]|;
      assert s[k..] == Concat(ws[1..]);
      if items[0] == AnyRun {
        assert 0 <= k <= |s| && Matches(s[k..], items[1..]);
      } else {
        assert k == 1 && s[0] == ws[0][0];
      }
    }
  }

  /** Reading the string from left to right accepts exactly the concatenations of item words. */
  lemma MatchesIsLanguage(s: Text, items: seq<Item>)
    ensures Matches(s, items) <==> InLanguage(s, items)
  {
    if Matches(s, items) {
      MatchesHasWords(s, items);
    }
    if InLanguage(s, items) {
      var ws: seq<Text> :| WordsOf(items, ws) && Concat(ws) == s;
      WordsMatch(ws, items);
    }
  }

  // ---------------------------------------------------------------------- sets that are not closed

  /** A scan of an unclosed set for `c` ends in front of the terminator only at a dash that stands last,
      unless it has come to a member before; otherwise it goes on behind the terminator. */
  predicate ReadsOn(body: Text, c: Char16)
  {
    body == [] || body[|body| - 1] != DASH || InSet(body, c)
  }

  /** Reading the string from left to right comes to a character at which an unclosed set reads on. */
  predicate RunsPast(s: Text, items: seq<Item>)
    decreases |items|
  {
    if items == [] then false
    else if items[0] == AnyRun then exists k :: 0 <= k <= |s| && RunsPast(s[k..], items[1..])
    else if items[0].OpenSet? then s != [] && ReadsOn(items[0].body, s[0])
    else s != [] && TakesOne(items[0], s[0]) && RunsPast(s[1..], items[1..])
  }

  predicate HasOpenSet(items: seq<Item>) {
    exists i :: 0 <= i < |items| && items[i].OpenSet?
  }

  /** With an unclosed set nothing matches, and without one nothing runs past the end. */
  lemma {:induction false} OneOrTheOther(s: Text, items: seq<Item>)
    ensures Matches(s, items) ==> !HasOpenSet(items)
    ensures RunsPast(s, items) ==> HasOpenSet(items)
    decreases |items|
  {
    hide InSet, ReadsOn, HasOpenSet;
    if items == [] {
      NoItems([]);
    } else {
      var rest := items[1..];
      assert items == [items[0]] + rest;
      OpenSetIn(items[0], rest);
      if items[0] == AnyRun {
        forall k | 0 <= k <= |s|
          ensures Matches(s[k..], rest) ==> !HasOpenSet(rest)
          ensures RunsPast(s[k..], rest) ==> HasOpenSet(rest)
        {
          OneOrTheOther(s[k..], rest);
        }
      } else if s != [] {
        OneOrTheOther(s[1..], rest);
      }
    }
  }

  predicate PartMatches(s: Text, j: nat, items: seq<Item>)
    requires j <= |s|
  {
    Matches(s[..j], items)
  }

  /** Some part of the string, in the language of `front`, stands in front of a character at which an unclosed
      set reads on. */
  predicate LeadsInto(s: Text, front: seq<Item>, body: Text) {
    exists j :: 0 <= j < |s| && PartMatches(s, j, front) && ReadsOn(body, s[j])
  }

  /** Where an unclosed set stands last, a string runs past the end exactly when it leads into it. */
  lemma {:induction false} RunsPastIs(s: Text, front: seq<Item>, body: Text)
    requires !HasOpenSet(front)
    ensures RunsPast(s, front + [OpenSet(body)]) <==> LeadsInto(s, front, body)
    decreases |front|
  {
    hide InSet, ReadsOn, LeadsInto, HasOpenSet;
    var items := front + [OpenSet(body)];
    if front == [] {
      LeadsAtOnce(s, body);
    } else {
      var rest := front[1..];
      assert items[1..] == rest + [OpenSet(body)] && front == [front[0]] + rest;
      OpenSetIn(front[0], rest);
      if front[0] == AnyRun {
        forall k | 0 <= k <= |s|
          ensures RunsPast(s[k..], items[1..]) <==> LeadsInto(s[k..], rest, body)
        {
          RunsPastIs(s[k..], rest, body);
        }
        LeadsThroughRun(s, front, body);
        if k :| 0 <= k <= |s| && LeadsInto(s[k..], rest, body) {
          assert RunsPast(s[k..], items[1..]);
        }
      } else if s == [] {
        LeadsNowhere(front, body);
      } else {
        RunsPastIs(s[1..], rest, body);
        LeadsThroughOne(s, front, body);
      }
    }
  }

  lemma LeadsNowhere(front: seq<Item>, body: Text)
    ensures !LeadsInto([], front, body)
  {
  }

  lemma LeadsAtOnce(s: Text, body: Text)
    ensures LeadsInto(s, [], body) <==> s != [] && ReadsOn(body, s[0])
  {
    hide ReadsOn;
    if s != [] {
      assert PartMatches(s, 0, []);
    }
  }

  lemma LeadsThroughOne(s: Text, front: seq<Item>, body: Text)
    requires front != [] && s != [] && front[0] != AnyRun
    ensures LeadsInto(s, front, body) <==> TakesOne(front[0], s[0]) && LeadsInto(s[1..], front[1..], body)
  {
    hide ReadsOn, TakesOne;
    var rest := front[1..];
    if TakesOne(front[0], s[0]) && LeadsInto(s[1..], rest, body) {
      var j :| 0 <= j < |s| - 1 && PartMatches(s[1..], j, rest) && ReadsOn(body, s[1..][j]);
      assert s[..1 + j][1..] == s[1..][..j];
      assert PartMatches(s, 1 + j, front) && s[1 + j] == s[1..][j];
    }
    if j :| 0 <= j < |s| && PartMatches(s, j, front) && ReadsOn(body, s[j]) {
      assert s[..j][1..] == s[1..][..j - 1];
      assert PartMatches(s[1..], j - 1, rest) && s[1..][j - 1] == s[j];
    }
  }

  lemma LeadsThroughRun(s: Text, front: seq<Item>, body: Text)
    requires front != [] && front[0] == AnyRun
    ensures LeadsInto(s, front, body) <==> exists k :: 0 <= k <= |s| && LeadsInto(s[k..], front[1..], body)
  {
    hide ReadsOn;
    var rest := front[1..];
    if k :| 0 <= k <= |s| && LeadsInto(s[k..], rest, body) {
      var j :| 0 <= j < |s| - k && PartMatches(s[k..], j, rest) && ReadsOn(body, s[k..][j]);
      assert s[..k + j][k..] == s[k..][..j];
      assert PartMatches(s, k + j, front) && s[k + j] == s[k..][j];
    }
    if j :| 0 <= j < |s| && PartMatches(s, j, front) && ReadsOn(body, s[j]) {
      var k :| 0 <= k <= |s[..j]| && Matches(s[..j][k..], rest);
      assert s[..j][k..] == s[k..][..j - k];
      assert PartMatches(s[k..], j - k, rest) && s[k..][j - k] == s[j];
      assert LeadsInto(s[k..], rest, body);
    }
  }

  lemma ParseIs(p: Text)
    requires p != []
    ensures Parse(p) == [FirstItem(p)] + Parse(p[ItemLength(p)..])
  {
  }

  /** A pattern whose sets are all closed has no unclosed set; any other has one, as its last item. */
  lemma {:induction false} ParsedSets(p: Text)
    ensures SetsClosed(p) <==> !HasOpenSet(Parse(p))
    ensures !SetsClosed(p) ==>
      var n := |Parse(p)| - 1; n >= 0 && Parse(p)[n].OpenSet? && !HasOpenSet(Parse(p)[..n])
    decreases |p|
  {
    hide FirstItem, ItemLength, HasOpenSet, Parse;
    if p == [] {
      NoItems(p);
    } else {
      var first, rest := FirstItem(p), Parse(p[ItemLength(p)..]);
      ParseIs(p);
      ParsedSets(p[ItemLength(p)..]);
      OpenSetIn(first, rest);
      if first.OpenSet? {
        NothingBehind(p);
        assert Parse(p)[..0] == [];
        NoItems([]);
      } else if rest != [] {
        assert Parse(p)[..|rest|] == [first] + rest[..|rest| - 1];
        OpenSetIn(first, rest[..|rest| - 1]);
      }
    }
  }

  lemma NoItems(p: Text)
    ensures p == [] ==> Parse(p) == []
    ensures !HasOpenSet([])
  {
  }

  lemma OpenSetIn(first: Item, rest: seq<Item>)
    ensures HasOpenSet([first] + rest) <==> first.OpenSet? || HasOpenSet(rest)
  {
    var all := [first] + rest;
    if first.OpenSet? {
      assert all[0].OpenSet?;
    }
    if i :| 0 <= i < |rest| && rest[i].OpenSet? {
      assert all[i + 1].OpenSet?;
    }
  }

  lemma NothingBehind(p: Text)
    requires p != [] && FirstItem(p).OpenSet?
    ensures p[ItemLength(p)..] == [] && Parse(p[ItemLength(p)..]) == []
  {
  }

  // -------------------------------------------------------------------- from one position to the next

  /** From position `s` of the string and `p` of the pattern there is a match. */
  predicate MatchesFrom(str: Text, s: nat, pat: Text, p: nat)
    requires s <= |str| && p <= |pat|
  {
    Matches(str[s..], Parse(pat[p..]))
  }

  predicate RunsPastFrom(str: Text, s: nat, pat: Text, p: nat)
    requires s <= |str| && p <= |pat|
  {
    RunsPast(str[s..], Parse(pat[p..]))
  }

  function ItemAt(pat: Text, p: nat): Item
    requires p < |pat|
  {
    FirstItem(pat[p..])
  }

  /** The position behind the item that starts at `p`. */
  function Behind(pat: Text, p: nat): (q: nat)
    requires p < |pat|
    ensures p < q <= |pat|
  {
    p + ItemLength(pat[p..])
  }

  lemma ParseStep(pat: Text, p: nat)
    requires p < |pat|
    ensures Parse(pat[p..]) == [ItemAt(pat, p)] + Parse(pat[Behind(pat, p)..])
    ensures pat[p] == STAR <==> ItemAt(pat, p) == AnyRun
    ensures pat[p] == STAR ==> Behind(pat, p) == p + 1
  {
    hide Parse;
    var n := ItemLength(pat[p..]);
    assert pat[p..][n..] == pat[p + n..];
    ParseIs(pat[p..]);
  }

  lemma ItemStep(str: Text, s: nat, pat: Text, p: nat)
    requires s <= |str| && p < |pat| && pat[p] != STAR
    ensures MatchesFrom(str, s, pat, p) <==>
      s < |str| && TakesOne(ItemAt(pat, p), str[s]) && MatchesFrom(str, s + 1, pat, Behind(pat, p))
    ensures RunsPastFrom(str, s, pat, p) <==>
      s < |str| && if ItemAt(pat, p).OpenSet? then ReadsOn(ItemAt(pat, p).body, str[s])
                   else TakesOne(ItemAt(pat, p), str[s]) && RunsPastFrom(str, s + 1, pat, Behind(pat, p))
    ensures ItemAt(pat, p).OpenSet? && s < |str| ==> !TakesOne(ItemAt(pat, p), str[s])
  {
    hide Parse, ItemAt, Behind, InSet, ReadsOn;
    ParseStep(pat, p);
    var rest := Parse(pat[Behind(pat, p)..]);
    assert Parse(pat[p..])[1..] == rest;
    if s < |str| {
      assert str[s + 1..] == str[s..][1..];
    }
  }

  lemma StarStep(str: Text, s: nat, pat: Text, p: nat)
    requires s <= |str| && p < |pat| && pat[p] == STAR
    ensures MatchesFrom(str, s, pat, p) <==>
      var q := p + 1; exists k :: s <= k <= |str| && MatchesFrom(str, k, pat, q)
    ensures RunsPastFrom(str, s, pat, p) <==>
      var q := p + 1; exists k :: s <= k <= |str| && RunsPastFrom(str, k, pat, q)
  {
    hide Parse, ItemAt, Behind;
    ParseStep(pat, p);
    var q, text, items := p + 1, str[s..], Parse(pat[p + 1..]);
    assert Parse(pat[p..])[1..] == items;
    if Matches(text, Parse(pat[p..])) {
      var k :| 0 <= k <= |text| && Matches(text[k..], items);
      assert str[s + k..] == text[k..];
      assert MatchesFrom(str, s + k, pat, q);
    }
    if RunsPast(text, Parse(pat[p..])) {
      var k :| 0 <= k <= |text| && RunsPast(text[k..], items);
      assert str[s + k..] == text[k..];
      assert RunsPastFrom(str, s + k, pat, q);
    }
    forall k | s <= k <= |str|
      ensures MatchesFrom(str, k, pat, q) ==> Matches(text, Parse(pat[p..]))
      ensures RunsPastFrom(str, k, pat, q) ==> RunsPast(text, Parse(pat[p..]))
    {
      assert text[k - s..] == str[k..];
    }
  }

  lemma PatternEnds(str: Text, s: nat, pat: Text)
    requires s <= |str|
    ensures MatchesFrom(str, s, pat, |pat|) <==> s == |str|
    ensures !RunsPastFrom(str, s, pat, |pat|)
  {
    assert pat[|pat|..] == [];
  }

  // ------------------------------------------------------------------------------- the matcher

  /** TRUE, FALSE, or reading on behind the terminator of the pattern, where the model stops. */
  datatype Verdict = True | False | ReadPast

  /** Scan of one set: `p` stands just behind the `[`.  Of a closed set it returns whether `c` is in it and,
      if so, the position just behind the closing `]`. */
  method ScanSet(c: Char16, pat: Text, p0: nat) returns (found: Verdict, p: nat)
    requires c != 0 && IsCString(pat) && p0 <= |pat|
    ensures var n := CloseIndex(pat[p0..]);
      found == if n == |pat| - p0 then (if ReadsOn(pat[p0..], c) then ReadPast else False)
               else if InSet(pat[p0..][..n], c) then True else False
    ensures found == True ==> p == p0 + CloseIndex(pat[p0..]) + 1
  {
    ghost var end := p0 + CloseIndex(pat[p0..]);
    ghost var body := pat[p0..][..end - p0];
    SetBody(pat, p0, end, body);
    var l: Char16 := 0;
    p := p0;
    var ch := At(pat, p);
    p := p + 1;
    while ch != 0
      invariant p0 < p <= end + 1 && ch == At(pat, p - 1)
      invariant p <= end ==>
        l == RangeLow(body, p - 1 - p0) || (l == ch && ch != DASH)
      invariant p0 + 1 < p <= end && pat[p - 2] == DASH ==> c != ch
      invariant p > p0 + 1 ==> p - 1 < end || pat[p - 2] != DASH
      invariant forall j :: 0 <= j < p - 1 - p0 ==> !Admits(body, j, c)
      decreases |pat| + 1 - p
    {
      if ch == CLOSE {
        return False, p;
      }
      if ch == DASH {
        ch := At(pat, p);
        if ch == 0 || ch == CLOSE {
          return False, p;
        }
        if l <= c <= ch {
          assert Admits(body, p - 1 - p0, c);
          break;
        }
      }
      l := ch;
      if c == ch {
        assert Admits(body, p - 1 - p0, c) || Admits(body, p - p0, c);
        break;
      }
      ch := At(pat, p);
      p := p + 1;
    }
    // skip to the end of the set
    while ch != 0 && ch != CLOSE
      invariant p0 <= p <= end + 1 && (p == end + 1 ==> ch == At(pat, end)) && (p <= end ==> ch != 0 && ch != CLOSE)
      decreases |pat| + 1 - p
    {
      ch := At(pat, p);
      p := p + 1;
    }
    if ch == 0 {
      return ReadPast, p;
    }
    return True, p;
  }

  lemma SetBody(pat: Text, p0: nat, end: nat, body: Text)
    requires p0 <= |pat| && end == p0 + CloseIndex(pat[p0..])
    requires IsCString(pat) && body == pat[p0..][..end - p0]
    ensures end <= |pat| && |body| == end - p0
    ensures forall i :: p0 <= i < end ==> pat[i] == body[i - p0] && pat[i] != CLOSE && pat[i] != 0
    ensures if end < |pat| then pat[end] == CLOSE else body == pat[p0..]
  {
    assert forall i :: p0 <= i < end ==> pat[i] == pat[p0..][i - p0] == body[i - p0];
    assert end < |pat| ==> pat[end] == pat[p0..][end - p0];
  }

  /** The `?`, `[` and literal cases: `p` stands on the item.  Returns whether it takes the character at
      `s` and, if so, the position just behind the item. */
  method MatchOne(str: Text, s: nat, pat: Text, p0: nat) returns (taken: Verdict, p: nat)
    requires IsCString(str) && IsCString(pat)
    requires s <= |str| && p0 < |pat| && pat[p0] != STAR
    ensures taken == True <==> s < |str| && TakesOne(ItemAt(pat, p0), str[s])
    ensures taken == ReadPast <==>
      s < |str| && ItemAt(pat, p0).OpenSet? && ReadsOn(ItemAt(pat, p0).body, str[s])
    ensures taken == True ==> p == Behind(pat, p0)
  {
    hide InSet, ReadsOn;
    var ch := At(pat, p0);
    p := p0 + 1;
    if ch == QUESTION {
      taken := if At(str, s) != 0 then True else False;
    } else if ch == OPEN {
      var c := At(str, s);
      if c == 0 {
        return False, p;
      }
      assert pat[p..] == pat[p0..][1..];
      taken, p := ScanSet(c, pat, p);
    } else {
      taken := if At(str, s) == ch then True else False;
    }
  }

  /** TRUE exactly when the string is in the language of the pattern; reads past the end of the pattern
      exactly when the string leads it into an unclosed set that reads on. */
  method MetaMatch(str: Text, s0: nat, pat: Text, p0: nat) returns (matched: Verdict)
    requires IsCString(str) && IsCString(pat)
    requires s0 <= |str| && p0 <= |pat|
    ensures matched == True <==> InLanguage(str[s0..], Parse(pat[p0..]))
    ensures matched == ReadPast <==> RunsPast(str[s0..], Parse(pat[p0..]))
    ensures SetsClosed(pat[p0..]) ==> matched != ReadPast
    decreases |pat| - p0, 0
  {
    hide InLanguage, Parse, ItemAt, Behind, TakesOne, ReadsOn, SetsClosed;
    MatchesIsLanguage(str[s0..], Parse(pat[p0..]));
    OneOrTheOther(str[s0..], Parse(pat[p0..]));
    ParsedSets(pat[p0..]);
    var s, p := s0, p0;
    while At(pat, p) != 0
      invariant s0 <= s <= |str| && p0 <= p <= |pat|
      invariant MatchesFrom(str, s0, pat, p0) <==> MatchesFrom(str, s, pat, p)
      invariant RunsPastFrom(str, s0, pat, p0) <==> RunsPastFrom(str, s, pat, p)
      decreases |pat| - p
    {
      if At(pat, p) == STAR {
        StarStep(str, s, pat, p);
        matched := MatchRun(str, s, pat, p + 1);
        return;
      }
      ItemStep(str, s, pat, p);
      var taken, next := MatchOne(str, s, pat, p);
      if taken != True {
        return taken;
      }
      s, p := s + 1, next;
    }
    PatternEnds(str, s, pat);
    matched := if At(str, s) == 0 then True else False;
  }

  /** The `*` case: try the rest of the pattern on every suffix, the empty one last. */
  method MatchRun(str: Text, s0: nat, pat: Text, p: nat) returns (matched: Verdict)
    requires IsCString(str) && IsCString(pat)
    requires s0 <= |str| && p <= |pat|
    ensures matched == True <==> exists k :: s0 <= k <= |str| && MatchesFrom(str, k, pat, p)
    ensures matched == ReadPast <==> exists k :: s0 <= k <= |str| && RunsPastFrom(str, k, pat, p)
    decreases |pat| - p, 1
  {
    hide InLanguage, Parse;
    NeverBoth(str, pat, p);
    var s := s0;
    while At(str, s) != 0
      invariant s0 <= s <= |str|
      invariant forall k :: s0 <= k < s ==> !MatchesFrom(str, k, pat, p) && !RunsPastFrom(str, k, pat, p)
      decreases |str| - s
    {
      matched := MetaMatch(str, s, pat, p);
      MatchesIsLanguage(str[s..], Parse(pat[p..]));
      assert matched == True <==> MatchesFrom(str, s, pat, p);
      assert matched == ReadPast <==> RunsPastFrom(str, s, pat, p);
      if matched != False {
        return;
      }
      s := s + 1;
    }
    matched := MetaMatch(str, s, pat, p);
    MatchesIsLanguage(str[s..], Parse(pat[p..]));
    assert matched == True <==> MatchesFrom(str, s, pat, p);
    assert matched == ReadPast <==> RunsPastFrom(str, s, pat, p);
  }

  lemma NeverBoth(str: Text, pat: Text, p: nat)
    requires p <= |pat|
    ensures (forall k :: 0 <= k <= |str| ==> !MatchesFrom(str, k, pat, p))
         || (forall k :: 0 <= k <= |str| ==> !RunsPastFrom(str, k, pat, p))
  {
    hide Matches, RunsPast, Parse;
    forall k | 0 <= k <= |str|
      ensures MatchesFrom(str, k, pat, p) ==> !HasOpenSet(Parse(pat[p..]))
      ensures RunsPastFrom(str, k, pat, p) ==> HasOpenSet(Parse(pat[p..]))
    {
      OneOrTheOther(str[k..], Parse(pat[p..]));
    }
  }
}
