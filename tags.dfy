/** `extract_tags`: hashtags found in the generated text, deduplicated through
    a set, filtered by length, accumulated as `"w, "` and cleaned. */
module Tags {
  import opened Text

  /** The class `[a-zA-Z0-9(_)]` of the hashtag pattern, ASCII only. */
  predicate IsWordChar(c: char) {
    'a' <= c <= 'z' || 'A' <= c <= 'Z' || '0' <= c <= '9' || c == '(' || c == '_' || c == ')'
  }

  /** The characters `re.sub(r'[^a-zA-Z, ]', '', ...)` keeps. */
  predicate IsTagStringChar(c: char) {
    'a' <= c <= 'z' || 'A' <= c <= 'Z' || c == ',' || c == ' '
  }

  /** Length of the leading run of `#` */
  function HashRun(s: string): (n: nat)
    ensures n <= |s| && (forall i :: 0 <= i < n ==> s[i] == '#') && (n == |s| || s[n] != '#')
    decreases |s|
  {
    if s != [] && s[0] == '#' then 1 + HashRun(s[1..]) else 0
  }

  /** Length of the leading run of word characters */
  function WordRun(s: string): (n: nat)
    ensures n <= |s| && (forall i :: 0 <= i < n ==> IsWordChar(s[i])) && (n == |s| || !IsWordChar(s[n]))
    decreases |s|
  {
    if s != [] && IsWordChar(s[0]) then 1 + WordRun(s[1..]) else 0
  }

  /** m is a whole match of `#+[a-zA-Z0-9(_)]+`: a run of `#` followed by a
      non-empty run of word characters. */
  predicate IsHashtag(m: string) {
    0 < HashRun(m) < |m| && forall i :: HashRun(m) <= i < |m| ==> IsWordChar(m[i])
  }

  lemma {:induction false} HashRunIs(m: string, h: nat)
    requires h <= |m| && (forall i :: 0 <= i < h ==> m[i] == '#') && (h == |m| || m[h] != '#')
    ensures HashRun(m) == h
    decreases h
  {
    if h > 0 {
      HashRunIs(m[1..], h - 1);
    }
  }

  /** `re.findall(r'(#+[a-zA-Z0-9(_)]{1,})', s)`: a left-to-right scan that
      takes the longest match at the first position where one starts and
      resumes after it. Since `#` is not a word character, a match starts at
      a `#` exactly when its run of `#` is followed by a word character. */
  function FindHashtags(s: string): (ms: seq<string>)
    ensures forall i :: 0 <= i < |ms| ==> IsHashtag(ms[i])
    ensures '#' !in s ==> ms == []
    decreases |s|
  {
    if s == [] then []
    else
      var h := HashRun(s);
      var w := WordRun(s[h..]);
      if h > 0 && w > 0 then
        var m := s[..h + w];
        assert m[h] == s[h..][0];
        HashRunIs(m, h);
        assert forall i :: h <= i < |m| ==> m[i] == s[h..][i - h];
        [m] + FindHashtags(s[h + w..])
      else
        FindHashtags(s[1..])
  }

  lemma {:induction false} WordRunIs(t: string, n: nat)
    requires n <= |t| && (forall i :: 0 <= i < n ==> IsWordChar(t[i])) && (n == |t| || !IsWordChar(t[n]))
    ensures WordRun(t) == n
    decreases n
  {
    if n > 0 {
      WordRunIs(t[1..], n - 1);
    }
  }

  /** Text without `#` holds no match and is passed over. */
  lemma {:induction false} FindHashtagsSkip(a: string, b: string)
    requires '#' !in a
    ensures FindHashtags(a + b) == FindHashtags(b)
    decreases |a|
  {
    if a != [] {
      var s := a + b;
      assert s[0] == a[0] && s[1..] == a[1..] + b;
      FindHashtagsSkip(a[1..], b);
    } else {
      assert a + b == b;
    }
  }

  /** A hashtag not followed by a word character is found whole, and the
      scan resumes right after it. */
  lemma FindHashtagsMatch(m: string, b: string)
    requires IsHashtag(m) && (b == [] || !IsWordChar(b[0]))
    ensures FindHashtags(m + b) == [m] + FindHashtags(b)
  {
    var s, h := m + b, HashRun(m);
    assert s[..|m|] == m && s[|m|..] == b;
    HashRunIs(s, h);
    var t := s[h..];
    forall i | 0 <= i < |m| - h ensures IsWordChar(t[i]) {
      assert t[i] == m[h + i];
    }
    assert |m| - h == |t| || t[|m| - h] == b[0];
    WordRunIs(t, |m| - h);
  }

  /** Every hashtag the text holds after a stretch without `#` is found:
      the matches are that hashtag followed by the matches of the rest. */
  lemma FindHashtagsFinds(a: string, m: string, b: string)
    requires '#' !in a && IsHashtag(m) && (b == [] || !IsWordChar(b[0]))
    ensures FindHashtags(a + m + b) == [m] + FindHashtags(b)
  {
    assert a + m + b == a + (m + b);
    FindHashtagsSkip(a, m + b);
    FindHashtagsMatch(m, b);
  }

  /** A run of `#` that no word character follows, such as the `##` of a
      Markdown heading, holds no match and is passed over. */
  lemma {:induction false} FindHashtagsBareRun(h: string, b: string)
    requires h != [] && forall i :: 0 <= i < |h| ==> h[i] == '#'
    requires b == [] || (b[0] != '#' && !IsWordChar(b[0]))
    ensures FindHashtags(h + b) == FindHashtags(b)
    decreases |h|
  {
    var s := h + b;
    HashRunIs(s, |h|);
    assert s[|h|..] == b;
    WordRunIs(b, 0);
    assert s[1..] == h[1..] + b;
    if |h| > 1 {
      FindHashtagsBareRun(h[1..], b);
    } else {
      assert h[1..] + b == b;
    }
  }

  /** `re.findall` on `"#abcd"` */
  lemma FindHashtagsSingle()
    ensures FindHashtags("#abcd") == ["#abcd"]
  {
    var m := "#abcd";
    HashRunIs(m, 1);
    assert IsHashtag(m);
    FindHashtagsMatch(m, []);
    assert m + [] == m;
  }

  /** `re.findall` on `"x ##ab(1) y"`: the match keeps both `#`, and the
      parentheses belong to the word characters. */
  lemma FindHashtagsAmid()
    ensures FindHashtags("x " + "##ab(1)" + " y") == ["##ab(1)"]
  {
    var a, m, b := "x ", "##ab(1)", " y";
    HashRunIs(m, 2);
    assert IsHashtag(m);
    NoHashIn(b);
    FindHashtagsFinds(a, m, b);
  }

  /** A Markdown heading and then a hashtag: the heading's run of `#` and
      the text after it (which holds no `#`) are passed over, and only the
      hashtag is found. */
  lemma FindHashtagsAfterHeading(h: string, a: string, m: string, b: string)
    requires h != [] && forall i :: 0 <= i < |h| ==> h[i] == '#'
    requires a != [] && a[0] != '#' && !IsWordChar(a[0]) && '#' !in a
    requires IsHashtag(m) && (b == [] || !IsWordChar(b[0]))
    ensures FindHashtags(h + a + m + b) == [m] + FindHashtags(b)
  {
    assert h + a + m + b == h + (a + m + b);
    FindHashtagsBareRun(h, a + m + b);
    FindHashtagsFinds(a, m, b);
  }

  lemma NoHashIn(s: string)
    requires forall i :: 0 <= i < |s| ==> s[i] != '#'
    ensures FindHashtags(s) == []
  {
    FindHashtagsSkip(s, []);
    assert s + [] == s;
  }

  /** `w[1:]` */
  function Tail(m: string): (r: string) {
    if m == [] then [] else m[1..]
  }

  /** The set `set(hashtags)`: every match with one leading `#` dropped. */
  function Candidates(body: string): (r: set<string>) {
    var ms := FindHashtags(body);
    set i | 0 <= i < |ms| :: Tail(ms[i])
  }

  /** A candidate tag is made of `#` and word characters only: no space,
      no comma. */
  lemma CandidateShape(body: string, w: string)
    requires w in Candidates(body)
    ensures w != [] && ' ' !in w && ',' !in w
  {
    var ms := FindHashtags(body);
    var i :| 0 <= i < |ms| && w == Tail(ms[i]);
    var m := ms[i];
    assert IsHashtag(m);
    forall k | 0 <= k < |w| ensures w[k] != ' ' && w[k] != ',' {
      assert w[k] == m[k + 1];
      assert m[k + 1] == '#' || IsWordChar(m[k + 1]);
    }
  }

  /** A text without `#` has no hashtag candidates. */
  lemma NoHashNoCandidates(body: string)
    requires '#' !in body
    ensures Candidates(body) == {}
  {
  }

  // ---------------------------------------------------------------------
  // The loop and the clean-up

  /** What one turn of the loop appends to `tag_string` */
  function Chunk(w: string): (r: string) {
    if |w| > 3 then w + ", " else []
  }

  /** `tag_string` after the loop has visited `order` */
  function Accumulated(order: seq<string>): (r: string)
    decreases |order|
  {
    if order == [] then [] else Chunk(order[0]) + Accumulated(order[1..])
  }

  lemma {:induction false} AccumulatedSnoc(order: seq<string>, w: string)
    ensures Accumulated(order + [w]) == Accumulated(order) + Chunk(w)
    decreases |order|
  {
    if order == [] {
      assert [] + [w] == [w];
      assert [w][1..] == [];
    } else {
      assert (order + [w])[1..] == order[1..] + [w];
      AccumulatedSnoc(order[1..], w);
    }
  }

  lemma AccumulatedNext(order: seq<string>, i: int)
    requires 0 <= i < |order|
    ensures Accumulated(order[..i + 1]) == Accumulated(order[..i]) + Chunk(order[i])
  {
    assert order[..i + 1] == order[..i] + [order[i]];
    AccumulatedSnoc(order[..i], order[i]);
  }

  /** `re.sub(r'[^a-zA-Z, ]', '', s)` */
  function Clean(s: string): (r: string)
    ensures forall i :: 0 <= i < |r| ==> IsTagStringChar(r[i])
    ensures forall c :: c in r ==> c in s
    decreases |s|
  {
    if s == [] then []
    else (if IsTagStringChar(s[0]) then [s[0]] else []) + Clean(s[1..])
  }

  /** `tag_string.strip()[:-1]` after the clean-up: whatever the accumulated
      text, only letters, commas and spaces come out. */
  function Finish(acc: string): (r: string)
    ensures forall i :: 0 <= i < |r| ==> IsTagStringChar(r[i])
  {
    var c := Clean(acc);
    StripInherit(c, IsTagStringChar);
    DropLast(Strip(c))
  }

  // ---------------------------------------------------------------------
  // The same result, stated without the loop

  /** The tags the length filter keeps, in iteration order */
  function Kept(order: seq<string>): (r: seq<string>)
    ensures forall i :: 0 <= i < |r| ==> |r[i]| > 3 && r[i] in order
    decreases |order|
  {
    if order == [] then []
    else (if |order[0]| > 3 then [order[0]] else []) + Kept(order[1..])
  }

  /** The kept tags, each cleaned */
  function Pieces(order: seq<string>): (r: seq<string>) {
    var k := Kept(order);
    seq(|k|, i requires 0 <= i < |k| => Clean(k[i]))
  }

  /** What `extract_tags` returns when the set is iterated in `order`: the
      kept tags, each cleaned, joined by `", "`. */
  function TagList(order: seq<string>): (r: string) {
    JoinWith(Pieces(order), ", ")
  }

  lemma {:induction false} CleanAppend(a: string, b: string)
    ensures Clean(a + b) == Clean(a) + Clean(b)
    decreases |a|
  {
    if a == [] {
      assert a + b == b;
    } else {
      assert (a + b)[0] == a[0] && (a + b)[1..] == a[1..] + b;
      CleanAppend(a[1..], b);
    }
  }

  /** Each kept tag followed by `", "` */
  function Terminated(ps: seq<string>): (r: string)
    decreases |ps|
  {
    if ps == [] then [] else ps[0] + ", " + Terminated(ps[1..])
  }

  lemma {:induction false} CleanAccumulated(order: seq<string>)
    ensures Clean(Accumulated(order)) == Terminated(Pieces(order))
    decreases |order|
  {
    if order != [] {
      var w := order[0];
      CleanAccumulated(order[1..]);
      CleanAppend(Chunk(w), Accumulated(order[1..]));
      var p, q := Pieces(order), Pieces(order[1..]);
      if |w| > 3 {
        CleanAppend(w, ", ");
        assert Clean(", ") == ", ";
        assert Kept(order) == [w] + Kept(order[1..]);
        assert p == [Clean(w)] + q;
        assert p[1..] == q;
      } else {
        assert Kept(order) == Kept(order[1..]);
        assert p == q;
      }
    }
  }

  lemma {:induction false} TerminatedJoin(ps: seq<string>)
    requires |ps| >= 1
    ensures Terminated(ps) == JoinWith(ps, ", ") + ", "
    decreases |ps|
  {
    if |ps| >= 2 {
      TerminatedJoin(ps[1..]);
    }
  }

  lemma StripTerminated(x: string)
    requires x == [] || !IsSpace(x[0])
    ensures Strip(x + ", ") == x + ","
  {
    var s := x + ", ";
    TrimStartNonSpace(s);
    assert s[..|s| - 1] == x + ",";
    assert TrimEnd(s) == TrimEnd(x + ",");
  }

  lemma JoinStart(ps: seq<string>)
    requires |ps| >= 1 && ' ' !in ps[0]
    requires forall i :: 0 <= i < |ps[0]| ==> IsTagStringChar(ps[0][i])
    ensures var x := JoinWith(ps, ", "); x == [] || !IsSpace(x[0])
  {
    if ps[0] != [] {
      JoinHead(ps, ", ");
      assert ps[0][0] in ps[0];
    } else if |ps| >= 2 {
      assert JoinWith(ps, ", ") == [] + ", " + JoinWith(ps[1..], ", ");
    }
  }

  /** The loop followed by the clean-up computes TagList. */
  lemma FinishAccumulated(order: seq<string>)
    requires forall i :: 0 <= i < |order| ==> ' ' !in order[i]
    ensures Finish(Accumulated(order)) == TagList(order)
  {
    CleanAccumulated(order);
    var ps := Pieces(order);
    if |ps| == 0 {
      assert Clean(Accumulated(order)) == [];
    } else {
      TerminatedJoin(ps);
      var k := Kept(order);
      assert k[0] in order;
      assert ps[0] == Clean(k[0]);
      assert ' ' !in ps[0];
      JoinStart(ps);
      var x := JoinWith(ps, ", ");
      StripTerminated(x);
      assert DropLast(x + ",") == x;
    }
  }

  /** The result is empty exactly when no tag is kept, or one is kept and it
      has no letter. */
  lemma TagListEmpty(order: seq<string>)
    ensures TagList(order) == [] <==>
            |Kept(order)| == 0 || (|Kept(order)| == 1 && Clean(Kept(order)[0]) == [])
  {
    JoinEmpty(Pieces(order), ", ");
  }

  /** No tag longer than 3 characters: nothing is kept. */
  lemma {:induction false} ShortTagsKeepNothing(order: seq<string>)
    requires forall i :: 0 <= i < |order| ==> |order[i]| <= 3
    ensures Kept(order) == []
    decreases |order|
  {
    if order != [] {
      ShortTagsKeepNothing(order[1..]);
    }
  }

  /** A digits-only tag passes the length filter and is then erased, leaving a
      bare separator whose place depends on the iteration order. */
  lemma DigitsOnlyTag()
    ensures TagList(["abcd", "2024"]) == "abcd" + ", "
    ensures TagList(["2024", "abcd"]) == ", " + "abcd"
  {
    var d, w := "2024", "abcd";
    assert forall i :: 0 <= i < |d| ==> '0' <= d[i] <= '9';
    CleanNone(d);
    assert forall i :: 0 <= i < |w| ==> 'a' <= w[i] <= 'z';
    CleanAll(w);
    TwoLongTags(w, d);
    TwoLongTags(d, w);
    assert w + ", " + [] == w + ", ";
    assert [] + ", " + w == ", " + w;
  }

  lemma {:induction false} CleanNone(s: string)
    requires forall i :: 0 <= i < |s| ==> !IsTagStringChar(s[i])
    ensures Clean(s) == []
    decreases |s|
  {
    if s != [] {
      CleanNone(s[1..]);
    }
  }

  lemma {:induction false} CleanAll(s: string)
    requires forall i :: 0 <= i < |s| ==> IsTagStringChar(s[i])
    ensures Clean(s) == s
    decreases |s|
  {
    if s != [] {
      CleanAll(s[1..]);
      assert s == [s[0]] + s[1..];
    }
  }

  lemma TwoLongTags(a: string, b: string)
    requires |a| > 3 && |b| > 3
    ensures TagList([a, b]) == Clean(a) + ", " + Clean(b)
  {
    var o := [a, b];
    assert [b][1..] == [];
    assert Kept([b]) == [b] + Kept([]);
    assert o[1..] == [b];
    assert Kept(o) == [a] + Kept([b]);
    var ps := Pieces(o);
    assert |ps| == 2 && ps[0] == Clean(a) && ps[1] == Clean(b);
    assert ps[1..] == [Clean(b)];
    assert JoinWith(ps, ", ") == ps[0] + ", " + JoinWith(ps[1..], ", ");
  }

  // ---------------------------------------------------------------------
  // The set's iteration order

  /** order lists the elements of s, each once */
  ghost predicate Enumerates(order: seq<string>, s: set<string>) {
    (forall i, j :: 0 <= i < j < |order| ==> order[i] != order[j]) &&
    (forall w {:trigger w in s} :: w in s <==> w in order)
  }

  /** The results `extract_tags` can return for `body`, one per iteration
      order of the set. */
  ghost predicate IsExtraction(body: string, tags: string) {
    exists order :: Enumerates(order, Candidates(body)) && tags == TagList(order)
  }

  lemma {:induction false} EnumerationCount(order: seq<string>, s: set<string>, w: string)
    requires Enumerates(order, s)
    ensures multiset(order)[w] == if w in s then 1 else 0
    decreases |order|
  {
    if order != [] {
      var rest := order[1..];
      assert Enumerates(rest, s - {order[0]}) by {
        forall x ensures x in s - {order[0]} <==> x in rest {
          if x in rest {
            var j :| 0 <= j < |rest| && rest[j] == x;
            assert order[j + 1] == x;
          }
          if x in order && x != order[0] {
            var j :| 0 <= j < |order| && order[j] == x;
            assert rest[j - 1] == x;
          }
        }
      }
      EnumerationCount(rest, s - {order[0]}, w);
      assert order == [order[0]] + rest;
    }
  }

  /** Two iteration orders of one set are permutations of each other. */
  lemma EnumerationsPermute(o1: seq<string>, o2: seq<string>, s: set<string>)
    requires Enumerates(o1, s) && Enumerates(o2, s)
    ensures multiset(o1) == multiset(o2)
  {
    forall w ensures multiset(o1)[w] == multiset(o2)[w] {
      EnumerationCount(o1, s, w);
      EnumerationCount(o2, s, w);
    }
  }

  lemma {:induction false} KeptAppend(a: seq<string>, b: seq<string>)
    ensures Kept(a + b) == Kept(a) + Kept(b)
    decreases |a|
  {
    if a == [] {
      assert a + b == b;
    } else {
      assert (a + b)[0] == a[0] && (a + b)[1..] == a[1..] + b;
      KeptAppend(a[1..], b);
    }
  }

  lemma PiecesAppend(a: seq<string>, b: seq<string>)
    ensures Pieces(a + b) == Pieces(a) + Pieces(b)
  {
    KeptAppend(a, b);
  }

  lemma RemoveMatching(a: seq<string>, b: seq<string>, k: int)
    requires multiset(a) == multiset(b) && a != []
    requires 0 <= k < |b| && b[k] == a[0]
    ensures b == b[..k] + ([a[0]] + b[k + 1..])
    ensures multiset(a[1..]) == multiset(b[..k] + b[k + 1..])
  {
    var x, left, right := a[0], b[..k], b[k + 1..];
    assert b == left + ([x] + right);
    assert a == [x] + a[1..];
    assert multiset(a) == multiset{x} + multiset(a[1..]);
    assert multiset(b) == multiset(left) + multiset{x} + multiset(right);
    forall y ensures multiset(a[1..])[y] == multiset(left + right)[y] {
      assert multiset(a)[y] == multiset{x}[y] + multiset(a[1..])[y];
      assert multiset(b)[y] == multiset(left)[y] + multiset{x}[y] + multiset(right)[y];
    }
  }

  /** The cleaned kept tags do not depend on the order, as a multiset. */
  lemma {:induction false} PiecesPermute(a: seq<string>, b: seq<string>)
    requires multiset(a) == multiset(b)
    ensures multiset(Pieces(a)) == multiset(Pieces(b))
    decreases |a|
  {
    if a == [] {
      assert |b| == |multiset(b)| == 0;
    } else {
      var x := a[0];
      assert x in multiset(a);
      var k :| 0 <= k < |b| && b[k] == x;
      var left, right := b[..k], b[k + 1..];
      RemoveMatching(a, b, k);
      PiecesPermute(a[1..], left + right);
      PiecesAppend([x], a[1..]);
      PiecesAppend(left, [x] + right);
      PiecesAppend([x], right);
      PiecesAppend(left, right);
      assert a == [x] + a[1..];
      assert multiset(Pieces(a)) == multiset(Pieces([x])) + multiset(Pieces(a[1..]));
      assert multiset(Pieces(b)) == multiset(Pieces(left)) + multiset(Pieces([x])) + multiset(Pieces(right));
    }
  }

  lemma PieceChars(body: string, order: seq<string>)
    requires Enumerates(order, Candidates(body))
    ensures forall i :: 0 <= i < |Pieces(order)| ==> ',' !in Pieces(order)[i]
    ensures forall i :: 0 <= i < |order| ==> ' ' !in order[i]
  {
    forall i | 0 <= i < |order| ensures ' ' !in order[i] {
      CandidateShape(body, order[i]);
    }
    var k := Kept(order);
    forall i | 0 <= i < |k| ensures ',' !in Clean(k[i]) {
      CandidateShape(body, k[i]);
    }
  }

  lemma SplitTagList(body: string, order: seq<string>)
    requires Enumerates(order, Candidates(body))
    ensures SplitOn(TagList(order), ", ") == if Pieces(order) == [] then [[]] else Pieces(order)
  {
    PieceChars(body, order);
    if Pieces(order) != [] {
      SplitJoin(Pieces(order), ", ");
    }
  }

  /** Whatever the iteration order, the result splits on `", "` into the same
      tags (as a multiset), and is empty for one order exactly when it is
      empty for every other. */
  lemma ExtractionsAgree(body: string, tags1: string, tags2: string)
    requires IsExtraction(body, tags1) && IsExtraction(body, tags2)
    ensures multiset(SplitOn(tags1, ", ")) == multiset(SplitOn(tags2, ", "))
    ensures tags1 == [] <==> tags2 == []
  {
    var o1 :| Enumerates(o1, Candidates(body)) && tags1 == TagList(o1);
    var o2 :| Enumerates(o2, Candidates(body)) && tags2 == TagList(o2);
    EnumerationsPermute(o1, o2, Candidates(body));
    PiecesPermute(o1, o2);
    SplitTagList(body, o1);
    SplitTagList(body, o2);
    assert |Pieces(o1)| == |multiset(Pieces(o1))| == |multiset(Pieces(o2))| == |Pieces(o2)|;
    EmptyAgrees(tags1, tags2);
    EmptyAgrees(tags2, tags1);
  }

  /** A string splits into the single empty part exactly when it is empty,
      so a string whose parts match those of the empty string is empty. */
  lemma EmptyAgrees(t1: string, t2: string)
    requires multiset(SplitOn(t1, ", ")) == multiset(SplitOn(t2, ", "))
    ensures t1 == [] ==> t2 == []
  {
    if t1 == [] {
      var p := SplitOn(t2, ", ");
      assert multiset(p) == multiset{[]};
      assert |p| == 1 && p[0] in multiset(p);
      JoinSplit(t2, ", ");
    }
  }

  // ---------------------------------------------------------------------
  // The operation

  /** `list(set(...))`: some iteration order of the set */
  method Enumerate(s: set<string>) returns (order: seq<string>)
    ensures Enumerates(order, s)
  {
    order := [];
    var rest := s;
    while rest != {}
      invariant forall i, j :: 0 <= i < j < |order| ==> order[i] != order[j]
      invariant forall w :: w in s <==> w in order || w in rest
      invariant forall w :: w in rest ==> w !in order
      decreases |rest|
    {
      var w :| w in rest;
      order := order + [w];
      rest := rest - {w};
    }
  }

  /** The set the code builds from the matches is `Candidates(body)`. */
  lemma CandidatesOfMatches(body: string, hashtags: seq<string>)
    requires var ms := FindHashtags(body);
             |hashtags| == |ms| && forall i :: 0 <= i < |ms| ==> hashtags[i] == Tail(ms[i])
    ensures (set i | 0 <= i < |hashtags| :: hashtags[i]) == Candidates(body)
  {
    var matches := FindHashtags(body);
    forall w ensures w in (set i | 0 <= i < |hashtags| :: hashtags[i]) <==> w in Candidates(body) {
      if w in Candidates(body) {
        var i :| 0 <= i < |matches| && w == Tail(matches[i]);
        assert hashtags[i] == w;
      }
    }
  }

  /** The clean-up of what the loop accumulated over an iteration order of
      the candidates is an extraction, made of tag characters, and empty when
      every candidate is too short. */
  lemma FinishedExtraction(body: string, order: seq<string>, tags: string)
    requires Enumerates(order, Candidates(body))
    requires tags == DropLast(Strip(Clean(Accumulated(order))))
    ensures forall i :: 0 <= i < |tags| ==> IsTagStringChar(tags[i])
    ensures (forall w :: w in Candidates(body) ==> |w| <= 3) ==> tags == []
    ensures IsExtraction(body, tags)
  {
    assert tags == Finish(Accumulated(order));
    PieceChars(body, order);
    FinishAccumulated(order);
    assert Enumerates(order, Candidates(body)) && tags == TagList(order);
    if forall w :: w in Candidates(body) ==> |w| <= 3 {
      ShortTagsKeepNothing(order);
    }
  }

  /** `extract_tags(body)` */
  method ExtractTags(body: string) returns (tags: string)
    ensures forall i :: 0 <= i < |tags| ==> IsTagStringChar(tags[i])
    ensures (forall w :: w in Candidates(body) ==> |w| <= 3) ==> tags == []
    ensures IsExtraction(body, tags)
  {
    var matches := FindHashtags(body);
    var hashtags := seq(|matches|, i requires 0 <= i < |matches| => Tail(matches[i]));
    var distinct := set i | 0 <= i < |hashtags| :: hashtags[i];
    CandidatesOfMatches(body, hashtags);
    var order := Enumerate(distinct);
    var tagString := "";
    for i := 0 to |order|
      invariant tagString == Accumulated(order[..i])
    {
      AccumulatedNext(order, i);
      if |order[i]| > 3 {
        tagString := tagString + order[i] + ", ";
      }
    }
    assert order[..|order|] == order;
    tagString := Clean(tagString);
    tagString := DropLast(Strip(tagString));
    tags := tagString;
    FinishedExtraction(body, order, tags);
  }
}
