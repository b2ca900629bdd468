/** The names `generate_blog` and the batch path give their files: the day
    before the clock's date, then the topic as a slug. */
module Filenames {
  import opened Text
  import opened Wrappers
  import opened Dates

  /** `'-'.join(topic.lower().split())` */
  function Slug(topic: string): (r: string) {
    JoinWith(SplitWords(Lower(topic)), "-")
  }

  /** `f"{timestring}-{slug}.md"` with `timestring` the previous day of today */
  function PostFilename(topic: string, today: Date): (r: string)
    requires Valid(today) && today != First
  {
    FormatDate(PreviousDay(today)) + "-" + Slug(topic) + ".md"
  }

  /** `f'{timestring}-blog-files.zip'` */
  function ArchiveName(today: Date): (r: string)
    requires Valid(today) && today != First
  {
    FormatDate(PreviousDay(today)) + "-blog-files.zip"
  }

  // ---------------------------------------------------------------------
  // The slug

  predicate NotUpper(c: char) {
    !IsUpper(c)
  }

  predicate SlugChar(c: char) {
    !IsSpace(c) && !IsUpper(c)
  }

  /** A slug has no whitespace and no upper-case letter. */
  lemma SlugShape(topic: string)
    ensures forall k :: 0 <= k < |Slug(topic)| ==> !IsSpace(Slug(topic)[k]) && !IsUpper(Slug(topic)[k])
  {
    var low := Lower(topic);
    assert forall i :: 0 <= i < |low| ==> NotUpper(low[i]);
    SplitWordsInherit(low, NotUpper);
    var ws := SplitWords(low);
    WordsAreSlugChars(ws);
    JoinInherit(ws, "-", SlugChar);
  }

  lemma WordsAreSlugChars(ws: seq<string>)
    requires EveryChar(ws, NotUpper)
    requires forall i :: 0 <= i < |ws| ==> NoSpace(ws[i])
    ensures EveryChar(ws, SlugChar)
  {
  }

  /** Lower-case words separated by single spaces become the same words
      separated by `-`. */
  lemma SlugOfSentence(ws: seq<string>)
    requires forall i :: 0 <= i < |ws| ==> ws[i] != [] && NoSpace(ws[i])
    requires forall i, k :: 0 <= i < |ws| && 0 <= k < |ws[i]| ==> !IsUpper(ws[i][k])
    ensures Slug(JoinWith(ws, " ")) == JoinWith(ws, "-")
  {
    assert EveryChar(ws, NotUpper);
    JoinInherit(ws, " ", NotUpper);
    LowerWithoutUpper(JoinWith(ws, " "));
    SplitWordsOfJoin(ws);
  }

  /** A topic of whitespace only has the empty slug. */
  lemma SlugOfBlank(topic: string)
    requires AllSpace(topic)
    ensures Slug(topic) == []
  {
    var low := Lower(topic);
    assert AllSpace(low);
    TrimStartShape(low);
  }

  // ---------------------------------------------------------------------
  // The file names

  /** The worked example: 2024-03-15 and "Example Topic" */
  lemma ExampleFilename()
    ensures PostFilename("Example Topic", Date(2024, 3, 15)) == "2024-03-14-example-topic.md"
  {
    ExampleSlug();
    ExampleDate();
    ExampleAssembled("Example Topic", Date(2024, 3, 15), Date(2024, 3, 14));
  }

  lemma ExampleAssembled(topic: string, today: Date, yesterday: Date)
    requires Valid(today) && today != First && PreviousDay(today) == yesterday
    requires FormatDate(yesterday) == "2024-03-14" && Slug(topic) == "example-topic"
    ensures PostFilename(topic, today) == "2024-03-14-example-topic.md"
  {
  }

  lemma ExampleSlug()
    ensures Slug("Example Topic") == "example-topic"
  {
    var ws := ["example", "topic"];
    ExampleLower();
    ExampleJoins();
    assert NoSpace(ws[0]) && NoSpace(ws[1]);
    SplitWordsOfJoin(ws);
    assert SplitWords(Lower("Example Topic")) == ws;
  }

  lemma ExampleLower()
    ensures Lower("Example Topic") == "example topic"
  {
    var s, t := "Example Topic", "example topic";
    forall i | 0 <= i < |s| ensures Lower(s)[i] == t[i] {
      assert Lower(s)[i] == LowerChar(s[i]);
    }
  }

  lemma ExampleJoins()
    ensures JoinWith(["example", "topic"], " ") == "example topic"
    ensures JoinWith(["example", "topic"], "-") == "example-topic"
  {
    var ws := ["example", "topic"];
    assert ws[1..] == ["topic"];
  }

  lemma ExampleDate()
    ensures FormatDate(Date(2024, 3, 14)) == "2024-03-14"
  {
    assert Four(2024) == "2024";
    assert Two(3) == "03" && Two(14) == "14";
  }

  /** An empty topic leaves a bare `-` before the extension. */
  lemma EmptyTopicFilename(today: Date)
    requires Valid(today) && today != First
    ensures PostFilename([], today) == FormatDate(PreviousDay(today)) + "-.md"
  {
    assert SplitWords(Lower([])) == [];
  }

  /** The name splits back into the previous day, the slug and `.md`. */
  lemma FilenameParts(topic: string, today: Date)
    requires Valid(today) && today != First
    ensures var f := PostFilename(topic, today);
            |f| == 14 + |Slug(topic)| &&
            ParseDate(f[..10]) == Some(PreviousDay(today)) && f[10] == '-' &&
            f[11..|f| - 3] == Slug(topic) && f[|f| - 3..] == ".md"
  {
    var f := PostFilename(topic, today);
    assert f[..10] == FormatDate(PreviousDay(today));
    ParseFormatDate(PreviousDay(today));
  }

  /** Two calls give the same name exactly when they run on the same date and
      their topics have the same slug. */
  lemma FilenameEqual(t1: string, d1: Date, t2: string, d2: Date)
    requires Valid(d1) && d1 != First && Valid(d2) && d2 != First
    ensures PostFilename(t1, d1) == PostFilename(t2, d2) <==> d1 == d2 && Slug(t1) == Slug(t2)
  {
    if PostFilename(t1, d1) == PostFilename(t2, d2) {
      FilenameParts(t1, d1);
      FilenameParts(t2, d2);
      assert PreviousDay(d1) == PreviousDay(d2);
      NextOfPrevious(d1);
      NextOfPrevious(d2);
    }
  }

  /** The archive and the posts of one run carry the same date prefix. */
  lemma ArchiveDate(topic: string, today: Date)
    requires Valid(today) && today != First
    ensures ArchiveName(today)[..11] == FormatDate(PreviousDay(today)) + "-"
    ensures PostFilename(topic, today)[..11] == FormatDate(PreviousDay(today)) + "-"
    ensures ParseDate(ArchiveName(today)[..10]) == Some(PreviousDay(today))
  {
    var x := FormatDate(PreviousDay(today));
    var a, f := ArchiveName(today), PostFilename(topic, today);
    assert a == (x + "-") + "blog-files.zip";
    assert f == (x + "-") + (Slug(topic) + ".md");
    assert a[..10] == x;
    ParseFormatDate(PreviousDay(today));
  }
}
