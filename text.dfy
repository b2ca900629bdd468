/** The handful of Python string primitives the blog pipeline is built from
    (`str.strip`, `str.split`, `str.join`, `str.replace`, `str.lower`,
    slicing), over ASCII, with the facts about them the other modules use. */
module Text {

  /** `str.isspace` restricted to ASCII: space, \t \n \v \f \r and the
      separators 0x1c-0x1f. */
  predicate IsSpace(c: char) {
    c == ' ' || (9 <= c as int <= 13) || (28 <= c as int <= 31)
  }

  predicate AllSpace(s: string) {
    forall i :: 0 <= i < |s| ==> IsSpace(s[i])
  }

  predicate NoSpace(s: string) {
    forall i :: 0 <= i < |s| ==> !IsSpace(s[i])
  }

  predicate IsUpper(c: char) {
    'A' <= c <= 'Z'
  }

  /** `s.startswith(p)` */
  predicate StartsWith(s: string, p: string) {
    |p| <= |s| && s[..|p|] == p
  }

  /** `p in s` for strings: p occurs at some position of s */
  predicate Contains(s: string, p: string) {
    exists i :: 0 <= i <= |s| && StartsWith(s[i..], p)
  }

  /** `s.lstrip()` */
  function TrimStart(s: string): (r: string)
    ensures |r| <= |s|
    decreases |s|
  {
    if s != [] && IsSpace(s[0]) then TrimStart(s[1..]) else s
  }

  /** `s.rstrip()` */
  function TrimEnd(s: string): (r: string)
    ensures |r| <= |s|
    decreases |s|
  {
    if s != [] && IsSpace(s[|s| - 1]) then TrimEnd(s[..|s| - 1]) else s
  }

  /** `s.strip()`: whitespace is removed from both ends */
  function Strip(s: string): (r: string) {
    TrimEnd(TrimStart(s))
  }

  /** `lstrip` removes a run of leading whitespace and stops at the first
      other character. */
  lemma {:induction false} TrimStartShape(s: string)
    ensures TrimStart(s) == s[|s| - |TrimStart(s)|..]
    ensures forall i :: 0 <= i < |s| - |TrimStart(s)| ==> IsSpace(s[i])
    ensures TrimStart(s) == [] || !IsSpace(TrimStart(s)[0])
    decreases |s|
  {
    if s != [] && IsSpace(s[0]) {
      TrimStartShape(s[1..]);
    }
  }

  /** `rstrip` removes a run of trailing whitespace and stops at the last
      other character. */
  lemma {:induction false} TrimEndShape(s: string)
    ensures TrimEnd(s) == s[..|TrimEnd(s)|]
    ensures forall i :: |TrimEnd(s)| <= i < |s| ==> IsSpace(s[i])
    ensures TrimEnd(s) == [] || !IsSpace(TrimEnd(s)[|TrimEnd(s)| - 1])
    decreases |s|
  {
    if s != [] && IsSpace(s[|s| - 1]) {
      TrimEndShape(s[..|s| - 1]);
    }
  }

  /** `strip` keeps a slice of s that neither starts nor ends with
      whitespace, and only whitespace lies around it. */
  lemma StripShape(s: string)
    ensures var r := Strip(s); r == [] || (!IsSpace(r[0]) && !IsSpace(r[|r| - 1]))
    ensures exists i :: 0 <= i <= |s| - |Strip(s)| && s[i..][..|Strip(s)|] == Strip(s) &&
              AllSpace(s[..i]) && AllSpace(s[i..][|Strip(s)|..])
  {
    var t := TrimStart(s);
    TrimStartShape(s);
    TrimEndShape(t);
    var r := TrimEnd(t);
    var i := |s| - |t|;
    assert s[i..] == t;
    assert s[i..][..|r|] == r;
    assert AllSpace(s[..i]) by {
      assert forall k :: 0 <= k < i ==> s[..i][k] == s[k];
    }
    assert AllSpace(s[i..][|r|..]) by {
      assert forall k :: 0 <= k < |t| - |r| ==> t[|r|..][k] == t[|r| + k];
    }
  }

  /** Strip keeps any property every character of s has. */
  lemma StripInherit(s: string, p: char -> bool)
    requires forall i :: 0 <= i < |s| ==> p(s[i])
    ensures forall i :: 0 <= i < |Strip(s)| ==> p(Strip(s)[i])
  {
    var t := TrimStart(s);
    TrimStartShape(s);
    assert forall i :: 0 <= i < |t| ==> t[i] == s[|s| - |t| + i];
    var r := TrimEnd(t);
    TrimEndShape(t);
    assert forall i :: 0 <= i < |r| ==> r[i] == t[i];
  }

  /** `s[:-1]`, which Python allows on the empty string */
  function DropLast(s: string): (r: string)
    ensures s == [] ==> r == []
    ensures s != [] ==> r + [s[|s| - 1]] == s
  {
    if s == [] then [] else s[..|s| - 1]
  }

  /** `sep.join(parts)` */
  function JoinWith(parts: seq<string>, sep: string): (r: string)
  {
    if |parts| == 0 then []
    else if |parts| == 1 then parts[0]
    else parts[0] + sep + JoinWith(parts[1..], sep)
  }

  /** `s.split(sep)` for a non-empty separator: the pieces between the
      occurrences of sep found by a left-to-right, non-overlapping scan */
  function SplitOn(s: string, sep: string): (parts: seq<string>)
    requires sep != []
    ensures |parts| >= 1
    decreases |s|
  {
    if s == [] then [[]]
    else if StartsWith(s, sep) then [[]] + SplitOn(s[|sep|..], sep)
    else
      var rest := SplitOn(s[1..], sep);
      [[s[0]] + rest[0]] + rest[1..]
  }

  /** `s.replace(pat, rep)` for a non-empty pattern, found by the same scan */
  function ReplaceAll(s: string, pat: string, rep: string): (r: string)
    requires pat != []
    decreases |s|
  {
    if s == [] then []
    else if StartsWith(s, pat) then rep + ReplaceAll(s[|pat|..], pat, rep)
    else [s[0]] + ReplaceAll(s[1..], pat, rep)
  }

  /** ASCII `str.lower` on one character */
  function LowerChar(c: char): (r: char)
    ensures !IsUpper(r)
    ensures IsSpace(r) == IsSpace(c)
    ensures !IsUpper(c) ==> r == c
  {
    if IsUpper(c) then (c as int + 32) as char else c
  }

  /** ASCII `str.lower`: every upper-case letter becomes its lower-case
      letter, every other character is kept. */
  function Lower(s: string): (r: string)
    ensures |r| == |s|
    ensures forall i :: 0 <= i < |s| ==> !IsUpper(r[i]) && (IsSpace(r[i]) <==> IsSpace(s[i]))
    ensures forall i :: 0 <= i < |s| ==> if IsUpper(s[i]) then r[i] as int == s[i] as int + 32 else r[i] == s[i]
  {
    seq(|s|, i requires 0 <= i < |s| => LowerChar(s[i]))
  }

  /** Length of the leading run of non-whitespace characters of s */
  function WordEnd(s: string): (n: nat)
    ensures n <= |s| && NoSpace(s[..n])
    ensures n == |s| || IsSpace(s[n])
    decreases |s|
  {
    if s == [] || IsSpace(s[0]) then 0 else 1 + WordEnd(s[1..])
  }

  /** `s.split()` with no argument: the maximal runs of non-whitespace
      characters, in order */
  function SplitWords(s: string): (ws: seq<string>)
    ensures forall i :: 0 <= i < |ws| ==> ws[i] != [] && NoSpace(ws[i])
    decreases |s|
  {
    var t := TrimStart(s);
    TrimStartShape(s);
    if t == [] then []
    else
      var n := WordEnd(t);
      [t[..n]] + SplitWords(t[n..])
  }

  // ---------------------------------------------------------------------
  // Join and split

  lemma JoinCons(c: char, x: string, rest: seq<string>, sep: string)
    ensures JoinWith([[c] + x] + rest, sep) == [c] + JoinWith([x] + rest, sep)
  {
    var l, r := [[c] + x] + rest, [x] + rest;
    if rest != [] {
      assert l[1..] == rest && r[1..] == rest;
    }
  }

  /** `s.replace(pat, rep) == rep.join(s.split(pat))` */
  lemma {:induction false} ReplaceIsJoinOfSplit(s: string, pat: string, rep: string)
    requires pat != []
    ensures ReplaceAll(s, pat, rep) == JoinWith(SplitOn(s, pat), rep)
    decreases |s|
  {
    if s == [] {
    } else if StartsWith(s, pat) {
      ReplaceIsJoinOfSplit(s[|pat|..], pat, rep);
      var rest := SplitOn(s[|pat|..], pat);
      assert ([[]] + rest)[1..] == rest;
    } else {
      ReplaceIsJoinOfSplit(s[1..], pat, rep);
      var rest := SplitOn(s[1..], pat);
      JoinCons(s[0], rest[0], rest[1..], rep);
      assert [rest[0]] + rest[1..] == rest;
    }
  }

  /** Replacing a pattern by itself changes nothing. */
  lemma {:induction false} ReplaceIdentity(s: string, pat: string)
    requires pat != []
    ensures ReplaceAll(s, pat, pat) == s
    decreases |s|
  {
    if s == [] {
    } else if StartsWith(s, pat) {
      ReplaceIdentity(s[|pat|..], pat);
      assert s == pat + s[|pat|..];
    } else {
      ReplaceIdentity(s[1..], pat);
      assert s == [s[0]] + s[1..];
    }
  }

  /** Joining the pieces of a split with the separator gives back the string. */
  lemma JoinSplit(s: string, sep: string)
    requires sep != []
    ensures JoinWith(SplitOn(s, sep), sep) == s
  {
    ReplaceIsJoinOfSplit(s, sep, sep);
    ReplaceIdentity(s, sep);
  }

  /** The number of occurrences one replace-all scan finds. */
  function Occurrences(s: string, pat: string): (r: nat)
    requires pat != []
  {
    |SplitOn(s, pat)| - 1
  }

  /** Replacing changes the length by one delta per occurrence. */
  lemma {:induction false} ReplaceLength(s: string, pat: string, rep: string)
    requires pat != []
    ensures |ReplaceAll(s, pat, rep)| == |s| + Occurrences(s, pat) * (|rep| - |pat|)
    decreases |s|
  {
    if s == [] {
    } else if StartsWith(s, pat) {
      ReplaceLength(s[|pat|..], pat, rep);
      var n := Occurrences(s[|pat|..], pat);
      assert Occurrences(s, pat) == n + 1;
      assert (n + 1) * (|rep| - |pat|) == n * (|rep| - |pat|) + (|rep| - |pat|);
    } else {
      ReplaceLength(s[1..], pat, rep);
    }
  }

  lemma ContainsShift(s: string, p: string)
    requires s != [] && !Contains(s, p)
    ensures !Contains(s[1..], p) && !StartsWith(s, p)
  {
    assert s[0..] == s;
  }

  /** A string without the pattern is left unchanged by replace and split. */
  lemma {:induction false} ReplaceAbsent(s: string, pat: string, rep: string)
    requires pat != [] && !Contains(s, pat)
    ensures ReplaceAll(s, pat, rep) == s
    ensures SplitOn(s, pat) == [s]
    decreases |s|
  {
    if s != [] {
      ContainsShift(s, pat);
      ReplaceAbsent(s[1..], pat, rep);
      assert s == [s[0]] + s[1..];
    }
  }

  /** A prefix that does not contain the separator's first character stays
      glued to the first piece of the split. */
  lemma {:induction false} SplitPrepend(a: string, b: string, sep: string)
    requires sep != [] && sep[0] !in a
    ensures var r := SplitOn(b, sep);
            SplitOn(a + b, sep) == [a + r[0]] + r[1..]
    decreases |a|
  {
    if a != [] {
      assert sep[0] !in a[1..];
      SplitPrepend(a[1..], b, sep);
      var s := a + b;
      assert s[1..] == a[1..] + b;
      assert s[0] == a[0];
      assert !StartsWith(s, sep);
      var r := SplitOn(b, sep);
      assert SplitOn(s, sep) == [[a[0]] + SplitOn(s[1..], sep)[0]] + SplitOn(s[1..], sep)[1..];
      assert [a[0]] + (a[1..] + r[0]) == a + r[0];
    } else {
      var r := SplitOn(b, sep);
      assert a + b == b && a + r[0] == r[0];
      assert [r[0]] + r[1..] == r;
    }
  }

  /** Splitting at the first separator. */
  lemma SplitFirst(a: string, b: string, sep: string)
    requires sep != [] && sep[0] !in a
    ensures SplitOn(a + sep + b, sep) == [a] + SplitOn(b, sep)
  {
    SplitPrepend(a, sep + b, sep);
    assert a + sep + b == a + (sep + b);
    assert StartsWith(sep + b, sep) && (sep + b)[|sep|..] == b;
    var r := SplitOn(sep + b, sep);
    assert r == [[]] + SplitOn(b, sep);
    assert r[0] == [] && r[1..] == SplitOn(b, sep);
    assert a + [] == a;
  }

  lemma SplitWithoutSeparator(s: string, sep: string)
    requires sep != [] && sep[0] !in s
    ensures SplitOn(s, sep) == [s]
  {
    SplitPrepend(s, [], sep);
    assert s + [] == s;
  }

  /** Splitting a join gives back the parts, when no part contains the
      separator's first character. */
  lemma {:induction false} SplitJoin(parts: seq<string>, sep: string)
    requires sep != [] && |parts| >= 1
    requires forall i :: 0 <= i < |parts| ==> sep[0] !in parts[i]
    ensures SplitOn(JoinWith(parts, sep), sep) == parts
    decreases |parts|
  {
    if |parts| == 1 {
      SplitWithoutSeparator(parts[0], sep);
    } else {
      SplitJoin(parts[1..], sep);
      SplitFirst(parts[0], JoinWith(parts[1..], sep), sep);
      assert [parts[0]] + parts[1..] == parts;
    }
  }

  /** A join is empty only when there is nothing to join, or one empty part. */
  lemma JoinEmpty(parts: seq<string>, sep: string)
    requires sep != []
    ensures JoinWith(parts, sep) == [] <==> |parts| == 0 || (|parts| == 1 && parts[0] == [])
  {
    if |parts| >= 2 {
      assert |JoinWith(parts, sep)| >= |sep|;
    }
  }

  /** Every character of every string of ws has property p. */
  predicate EveryChar(ws: seq<string>, p: char -> bool) {
    forall i, k :: 0 <= i < |ws| && 0 <= k < |ws[i]| ==> p(ws[i][k])
  }

  /** A join keeps any property every character of the parts and the
      separator have. */
  lemma {:induction false} JoinInherit(parts: seq<string>, sep: string, p: char -> bool)
    requires EveryChar(parts, p)
    requires forall k :: 0 <= k < |sep| ==> p(sep[k])
    ensures forall k :: 0 <= k < |JoinWith(parts, sep)| ==> p(JoinWith(parts, sep)[k])
    decreases |parts|
  {
    if |parts| >= 2 {
      JoinInherit(parts[1..], sep, p);
      var x, r := parts[0], JoinWith(parts[1..], sep);
      forall k | 0 <= k < |x + sep + r| ensures p((x + sep + r)[k]) {
        if k < |x| {
          assert (x + sep + r)[k] == parts[0][k];
        } else if k < |x| + |sep| {
          assert (x + sep + r)[k] == sep[k - |x|];
        } else {
          assert (x + sep + r)[k] == r[k - |x| - |sep|];
        }
      }
    } else if |parts| == 1 {
      assert forall k :: 0 <= k < |parts[0]| ==> p(parts[0][k]);
    }
  }

  lemma TrimStartNonSpace(s: string)
    requires s == [] || !IsSpace(s[0])
    ensures TrimStart(s) == s
  {
  }

  lemma {:induction false} WordEndOf(w: string, rest: string)
    requires NoSpace(w) && (rest == [] || IsSpace(rest[0]))
    ensures WordEnd(w + rest) == |w|
    decreases |w|
  {
    if w != [] {
      assert (w + rest)[1..] == w[1..] + rest;
      WordEndOf(w[1..], rest);
    } else {
      assert w + rest == rest;
    }
  }

  /** Every word of `s.split()` keeps a property all characters of s have. */
  lemma SplitWordsInherit(s: string, p: char -> bool)
    requires forall i :: 0 <= i < |s| ==> p(s[i])
    ensures EveryChar(SplitWords(s), p)
  {
    SplitWordsKeep(s, p);
    assert var ws := SplitWords(s);
            forall i, k :: 0 <= i < |ws| && 0 <= k < |ws[i]| ==> p(ws[i][k]);
  }

  /** SplitWordsInherit, with its conclusion spelled out for the induction */
  lemma {:induction false} SplitWordsKeep(s: string, p: char -> bool)
    requires forall i :: 0 <= i < |s| ==> p(s[i])
    ensures var ws := SplitWords(s);
            forall i, k :: 0 <= i < |ws| && 0 <= k < |ws[i]| ==> p(ws[i][k])
    decreases |s|
  {
    var t := TrimStart(s);
    TrimStartShape(s);
    if t != [] {
      var n := WordEnd(t);
      assert forall k :: 0 <= k < |t| ==> t[k] == s[|s| - |t| + k];
      SplitWordsKeep(t[n..], p);
      var ws := SplitWords(s);
      assert ws == [t[..n]] + SplitWords(t[n..]);
    }
  }


  lemma SplitWordsSkipSpace(x: string)
    requires x != [] && IsSpace(x[0])
    ensures SplitWords(x) == SplitWords(x[1..])
  {
    assert TrimStart(x) == TrimStart(x[1..]);
  }

  lemma SplitWordsCons(w: string, rest: string)
    requires w != [] && NoSpace(w) && (rest == [] || IsSpace(rest[0]))
    ensures SplitWords(w + rest) == [w] + SplitWords(rest)
  {
    var s := w + rest;
    TrimStartNonSpace(s);
    WordEndOf(w, rest);
    assert s[..|w|] == w && s[|w|..] == rest;
  }

  lemma ConsTail<T>(xs: seq<T>)
    requires |xs| >= 1
    ensures [xs[0]] + xs[1..] == xs
  {
  }

  lemma JoinHead(ws: seq<string>, sep: string)
    requires |ws| >= 1 && ws[0] != []
    ensures JoinWith(ws, sep) != [] && JoinWith(ws, sep)[0] == ws[0][0]
  {
  }

  lemma SplitWordsSingle(w: string)
    requires w != [] && NoSpace(w)
    ensures SplitWords(w) == [w]
  {
    SplitWordsCons(w, []);
    assert w + [] == w;
  }

  /** `" ".join(ws).split() == ws` when every word is non-empty and has no
      whitespace. */
  lemma {:induction false} SplitWordsOfJoin(ws: seq<string>)
    requires forall i :: 0 <= i < |ws| ==> ws[i] != [] && NoSpace(ws[i])
    ensures SplitWords(JoinWith(ws, " ")) == ws
    decreases |ws|
  {
    var s := JoinWith(ws, " ");
    if |ws| == 1 {
      assert s == ws[0];
      SplitWordsSingle(ws[0]);
    } else if |ws| >= 2 {
      var tail := ws[1..];
      var rest := JoinWith(tail, " ");
      var spaced := " " + rest;
      assert s == ws[0] + spaced;
      SplitWordsCons(ws[0], spaced);
      JoinHead(tail, " ");
      SplitWordsSkipSpace(spaced);
      assert spaced[1..] == rest;
      SplitWordsOfJoin(tail);
      ConsTail(ws);
    }
  }

  lemma LowerWithoutUpper(s: string)
    requires forall i :: 0 <= i < |s| ==> !IsUpper(s[i])
    ensures Lower(s) == s
  {
  }
}
