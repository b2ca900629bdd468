/** What `generate_blog` does to the model's reply before saving it: the
    fragment list is joined, the first line of the stripped text is dropped
    and the rest is glued after the front-matter header. */
module Normalize {
  import opened Text

  /** `response.content`: either one text or a list of content blocks whose
      `.text` fields are kept */
  datatype Response = Single(text: string) | Fragments(texts: seq<string>)

  /** The body as one string; a block list is joined with single spaces. */
  function RawText(r: Response): (s: string) {
    match r
    case Single(t) => t
    case Fragments(ts) => JoinWith(ts, " ")
  }

  /** Blocks without spaces can be read back from the joined body by
      splitting it on `' '`. */
  lemma RawTextSplitsBack(r: Response)
    requires r.Fragments? && |r.texts| >= 1
    requires forall i :: 0 <= i < |r.texts| ==> ' ' !in r.texts[i]
    ensures SplitOn(RawText(r), " ") == r.texts
  {
    SplitJoin(r.texts, " ");
  }

  const HeaderOpen: string := "---\ntitle:  \""
  const HeaderClose: string := "\"\n---"

  /** `make_header`: a front-matter block with the topic as title; category
      and tags are accepted and not used, and there is no final newline. */
  function MakeHeader(topic: string, category: string, tags: string): (h: string)
    ensures |h| == |HeaderOpen| + |topic| + |HeaderClose|
    ensures StartsWith(h, HeaderOpen) && h[|h| - |HeaderClose|..] == HeaderClose
  {
    HeaderOpen + topic + HeaderClose
  }

  /** The title stored in a header: what lies between the fixed parts */
  function HeaderTitle(h: string): (r: string) {
    if |h| >= |HeaderOpen| + |HeaderClose| then h[|HeaderOpen|..|h| - |HeaderClose|] else []
  }

  /** `'\n'.join(body.strip().split('\n')[1:])` */
  function DropTitle(raw: string): (r: string) {
    JoinWith(SplitOn(Strip(raw), "\n")[1..], "\n")
  }

  /** `header + body`, the text that is evaluated and saved */
  function Output(topic: string, category: string, tags: string, raw: string): (r: string) {
    MakeHeader(topic, category, tags) + DropTitle(raw)
  }

  /** Position of the first newline of s */
  function FirstNewline(s: string): (k: int)
    requires '\n' in s
    ensures 0 <= k < |s| && s[k] == '\n' && '\n' !in s[..k]
    decreases |s|
  {
    if s[0] == '\n' then 0
    else
      var k := FirstNewline(s[1..]);
      assert s[..k + 1] == [s[0]] + s[1..][..k];
      k + 1
  }

  // ---------------------------------------------------------------------
  // The header

  /** The title reads back out of the header. */
  lemma HeaderTitleOf(topic: string, category: string, tags: string)
    ensures HeaderTitle(MakeHeader(topic, category, tags)) == topic
  {
    var h := MakeHeader(topic, category, tags);
    assert h[|HeaderOpen|..|h| - |HeaderClose|] == topic;
  }

  /** Different topics give different headers; category and tags never
      change it. */
  lemma HeaderDeterminedByTopic(t1: string, c1: string, g1: string, t2: string, c2: string, g2: string)
    ensures MakeHeader(t1, c1, g1) == MakeHeader(t2, c2, g2) <==> t1 == t2
  {
    if MakeHeader(t1, c1, g1) == MakeHeader(t2, c2, g2) {
      HeaderTitleOf(t1, c1, g1);
      HeaderTitleOf(t2, c2, g2);
    }
  }

  // ---------------------------------------------------------------------
  // Dropping the first line

  /** Cut at its first newline, the stripped text keeps what follows. */
  lemma DropTitleAt(raw: string, a: string, b: string)
    requires Strip(raw) == a + "\n" + b && '\n' !in a
    ensures DropTitle(raw) == b
  {
    SplitFirst(a, b, "\n");
    var parts := SplitOn(Strip(raw), "\n");
    assert parts[1..] == SplitOn(b, "\n");
    JoinSplit(b, "\n");
  }

  /** With a newline in the stripped text, the body is everything after the
      first newline. */
  lemma DropTitleAfterNewline(raw: string)
    requires '\n' in Strip(raw)
    ensures DropTitle(raw) == Strip(raw)[FirstNewline(Strip(raw)) + 1..]
  {
    var s := Strip(raw);
    var k := FirstNewline(s);
    assert s == s[..k] + "\n" + s[k + 1..];
    DropTitleAt(raw, s[..k], s[k + 1..]);
  }

  /** A one-line (or empty) reply leaves no body. */
  lemma DropTitleSingleLine(raw: string)
    requires '\n' !in Strip(raw)
    ensures DropTitle(raw) == []
  {
    SplitWithoutSeparator(Strip(raw), "\n");
  }

  /** The body's lines are the stripped text's lines 2..n, in order. */
  lemma DropTitleLines(raw: string)
    requires '\n' in Strip(raw)
    ensures SplitOn(DropTitle(raw), "\n") == SplitOn(Strip(raw), "\n")[1..]
  {
    var s := Strip(raw);
    var k := FirstNewline(s);
    var a, b := s[..k], s[k + 1..];
    assert s == a + "\n" + b;
    SplitFirst(a, b, "\n");
    DropTitleAfterNewline(raw);
  }

  /** The body is a suffix of the stripped reply: nothing is added or
      reordered. */
  lemma DropTitleSuffix(raw: string)
    ensures var s := Strip(raw); var b := DropTitle(raw);
            |b| <= |s| && b == s[|s| - |b|..]
  {
    var s := Strip(raw);
    if '\n' in s {
      DropTitleAfterNewline(raw);
    } else {
      DropTitleSingleLine(raw);
    }
  }

  // ---------------------------------------------------------------------
  // The output

  /** The saved text is the header followed by everything after the first
      newline of the stripped reply. */
  lemma OutputShape(topic: string, category: string, tags: string, raw: string)
    requires '\n' in Strip(raw)
    ensures Output(topic, category, tags, raw) ==
            HeaderOpen + topic + HeaderClose + Strip(raw)[FirstNewline(Strip(raw)) + 1..]
  {
    DropTitleAfterNewline(raw);
  }

  /** A reply without a newline (after stripping) yields the bare header. */
  lemma OutputSingleLine(topic: string, category: string, tags: string, raw: string)
    requires '\n' !in Strip(raw)
    ensures Output(topic, category, tags, raw) == MakeHeader(topic, category, tags)
  {
    DropTitleSingleLine(raw);
  }

  /** The output never depends on the tags. */
  lemma OutputIgnoresTags(topic: string, category: string, t1: string, t2: string, raw: string)
    ensures Output(topic, category, t1, raw) == Output(topic, category, t2, raw)
  {
  }

  /** Fragments are joined before the first line is dropped: a first
      fragment without newline is glued to the second one's first line. */
  lemma FragmentsJoinedFirst()
    ensures DropTitle(RawText(Fragments(["Title", "line two\nbody"]))) == "body"
  {
    var a, b := "Title line two", "body";
    var fs := ["Title", "line two\nbody"];
    assert fs[1..] == ["line two\nbody"];
    var raw := RawText(Fragments(fs));
    assert raw == a + "\n" + b;
    TrimStartNonSpace(raw);
    assert TrimEnd(raw) == raw;
    assert '\n' !in a;
    DropTitleAt(raw, a, b);
  }
}
