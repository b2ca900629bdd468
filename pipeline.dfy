/** `generate_blog` and the bookkeeping of the batch loop around it. The
    language-model call, the quality evaluation and the clock are inputs. */
module Pipeline {
  import opened Text
  import opened Dates
  import opened Prompt
  import opened Tags
  import opened Normalize
  import opened Filenames
  import opened Catalog

  /** The joined reply of the model to the prompt `generate_blog` builds:
      the template with the exemplar appended, placeholders filled. */
  function Reply(generate: string -> Response, template: string, exemplar: string,
                 topic: string, category: string): (r: string)
  {
    RawText(generate(MakePrompt(template + exemplar, topic, category)))
  }

  /** The two clock readings one call of `generate_blog` takes: the file is
      named from the first, `save_blog_post` stamps the record with the
      second. */
  datatype Readings = Readings(named: Moment, stamped: Moment)

  /** Both readings are real moments, and the first is not on 0001-01-01
      (whose previous day `timedelta` cannot form). */
  predicate Usable(r: Readings) {
    ValidMoment(r.named) && r.named.date != First && ValidMoment(r.stamped)
  }

  /** `generate_blog`: the prompt is the template with the exemplar appended
      and its placeholders filled; the reply's tags and text make the post,
      which is evaluated and appended to the catalog. */
  method GenerateBlog<Score>(session: Session, topic: string, category: string, template: string,
                             exemplar: string, generate: string -> Response,
                             evaluate: string -> (Score, string), clock: Readings)
    returns (filename: string, score: Score, feedback: string, ghost post: BlogPost)
    requires Usable(clock)
    modifies session
    ensures filename == PostFilename(topic, clock.named.date)
    ensures session.Posts() == old(session.Posts()) + [post]
    ensures post.filename == filename && post.topic == topic && post.category == category
    ensures IsExtraction(Reply(generate, template, exemplar, topic, category), post.tags)
    ensures post.content == Output(topic, category, post.tags, Reply(generate, template, exemplar, topic, category))
    ensures post.createdAt == FormatMoment(clock.stamped)
    ensures (score, feedback) == evaluate(post.content)
    ensures session.Synced()
  {
    var finalPrompt := MakePrompt(template + exemplar, topic, category);
    var response := generate(finalPrompt);
    var body := RawText(response);
    var tags := ExtractTags(body);
    var header := MakeHeader(topic, category, tags);
    var output := header + DropTitle(body);
    filename := PostFilename(topic, clock.named.date);
    var result := evaluate(output);
    score, feedback := result.0, result.1;
    post := BlogPost(filename, topic, category, tags, output, FormatMoment(clock.stamped));
    session.SaveBlogPost(filename, topic, category, tags, output, clock.stamped);
  }

  // ---------------------------------------------------------------------
  // The batch path

  /** One row of the uploaded table */
  datatype Row = Row(topic: string, category: string, keyword: string)

  /** A progress value as the exact ratio num / den */
  datatype Fraction = Fraction(num: int, den: int)

  /** The table after the upload step: every topic is cut at its
      `<<KEYWORD>>` placeholders and rejoined with the row's own keyword;
      nothing else changes. */
  function ApplyKeywords(rows: seq<Row>): (table: seq<Row>)
    ensures |table| == |rows|
    ensures forall i :: 0 <= i < |rows| ==>
              table[i].topic == JoinWith(SplitOn(rows[i].topic, KeywordSlot), rows[i].keyword)
    ensures forall i :: 0 <= i < |rows| ==>
              table[i].category == rows[i].category && table[i].keyword == rows[i].keyword
  {
    seq(|rows|, i requires 0 <= i < |rows| => rows[i].(topic := KeywordTopic(rows[i].topic, rows[i].keyword)))
  }

  /** A table without placeholders comes out of the rewrite unchanged. */
  lemma ApplyKeywordsWithoutSlots(rows: seq<Row>)
    requires forall i :: 0 <= i < |rows| ==> !Contains(rows[i].topic, KeywordSlot)
    ensures ApplyKeywords(rows) == rows
  {
    var table := ApplyKeywords(rows);
    forall i | 0 <= i < |rows| ensures table[i] == rows[i] {
      KeywordTopicWithoutSlot(rows[i].topic, rows[i].keyword);
    }
  }

  /** When every `<` of each topic opens a `<<KEYWORD>>` placeholder and no
      keyword has `<`, the rewritten table has no placeholder left. */
  lemma ApplyKeywordsFillsAll(rows: seq<Row>)
    requires forall i :: 0 <= i < |rows| ==> SlotOnly(rows[i].topic, KeywordSlot) && '<' !in rows[i].keyword
    ensures forall i :: 0 <= i < |rows| ==> !Contains(ApplyKeywords(rows)[i].topic, KeywordSlot)
  {
    var table := ApplyKeywords(rows);
    forall i | 0 <= i < |rows| ensures !Contains(table[i].topic, KeywordSlot) {
      KeywordTopicFillsAll(rows[i].topic, rows[i].keyword);
    }
  }

  /** The values handed to the progress bar for n rows: (i+1)/n after row i.
      They lie in (0, 1], rise strictly and end at 1. */
  function Progress(n: nat): (ps: seq<Fraction>)
    ensures |ps| == n
    ensures forall i :: 0 <= i < n ==> ps[i] == Fraction(i + 1, n)
    ensures forall i :: 0 <= i < n ==> 0 < ps[i].num <= ps[i].den
    ensures forall i, j :: 0 <= i < j < n ==> Less(ps[i], ps[j])
    ensures n > 0 ==> ps[n - 1].num == ps[n - 1].den
  {
    var ps := seq(n, i requires 0 <= i < n => Fraction(i + 1, n));
    RatiosRise(ps, n);
    ps
  }

  predicate Less(a: Fraction, b: Fraction)
    requires a.den > 0 && b.den > 0
  {
    a.num * b.den < b.num * a.den
  }

  /** The ratios (i+1)/n rise strictly with i. */
  lemma RatiosRise(ps: seq<Fraction>, n: nat)
    requires |ps| == n && forall i :: 0 <= i < n ==> ps[i] == Fraction(i + 1, n)
    ensures forall i, j :: 0 <= i < j < n ==> Less(ps[i], ps[j])
  {
    forall i, j | 0 <= i < j < n ensures Less(ps[i], ps[j]) {
      MultiplyStrict(i + 1, j + 1, n);
    }
  }

  /** A sequence holding (k+1)/n at each k < n is the progress of n rows. */
  lemma ProgressOf(ps: seq<Fraction>, n: nat)
    requires |ps| == n && forall k :: 0 <= k < n ==> ps[k] == Fraction(k + 1, n)
    ensures ps == Progress(n)
  {
  }

  lemma MultiplyStrict(a: int, b: int, n: int)
    requires a < b && n > 0
    ensures a * n < b * n
  {
  }

  /** `files` are the file names of the first |files| rows, in row order:
      row k is named from its readings clock[k]. */
  ghost predicate NamedAfter(files: seq<string>, rows: seq<Row>, clock: seq<Readings>)
  {
    |files| <= |rows| == |clock| &&
    forall k :: 0 <= k < |files| ==> Usable(clock[k]) && files[k] == PostFilename(rows[k].topic, clock[k].named.date)
  }

  /** Record k was stored under file k with row k's topic and category. */
  ghost predicate FiledAs(saved: seq<BlogPost>, files: seq<string>, rows: seq<Row>)
  {
    |saved| == |files| <= |rows| &&
    forall k :: 0 <= k < |saved| ==>
      saved[k].filename == files[k] && saved[k].topic == rows[k].topic && saved[k].category == rows[k].category
  }

  lemma NamedAfterStep(files: seq<string>, rows: seq<Row>, clock: seq<Readings>, filename: string)
    requires NamedAfter(files, rows, clock) && |files| < |rows|
    requires Usable(clock[|files|]) && filename == PostFilename(rows[|files|].topic, clock[|files|].named.date)
    ensures NamedAfter(files + [filename], rows, clock)
  {
    forall k | 0 <= k < |files| + 1
      ensures (files + [filename])[k] == PostFilename(rows[k].topic, clock[k].named.date)
    {
      if k < |files| {
        assert (files + [filename])[k] == files[k];
      }
    }
  }

  lemma FiledAsStep(saved: seq<BlogPost>, files: seq<string>, rows: seq<Row>, post: BlogPost, filename: string)
    requires FiledAs(saved, files, rows) && |files| < |rows|
    requires post.filename == filename && post.topic == rows[|files|].topic && post.category == rows[|files|].category
    ensures FiledAs(saved + [post], files + [filename], rows)
  {
    forall k | 0 <= k < |saved| + 1
      ensures (saved + [post])[k].filename == (files + [filename])[k]
      ensures (saved + [post])[k].topic == rows[k].topic && (saved + [post])[k].category == rows[k].category
    {
      if k < |saved| {
        assert (saved + [post])[k] == saved[k] && (files + [filename])[k] == files[k];
      }
    }
  }

  lemma AppendLast<T>(a: seq<T>, b: seq<T>, x: T)
    ensures a + (b + [x]) == (a + b) + [x]
  {
  }

  /** One pass of the batch loop's body: `generate_blog` on the row, of which
      the loop keeps the file name. */
  method GenerateRow<Score>(session: Session, row: Row, template: string, exemplar: string,
                            generate: string -> Response, evaluate: string -> (Score, string),
                            clock: Readings)
    returns (filename: string, ghost post: BlogPost)
    requires Usable(clock)
    modifies session
    ensures filename == PostFilename(row.topic, clock.named.date)
    ensures post.filename == filename && post.topic == row.topic && post.category == row.category
    ensures session.Posts() == old(session.Posts()) + [post] && session.Synced()
  {
    var score, feedback;
    filename, score, feedback, post := GenerateBlog(session, row.topic, row.category, template, exemplar,
                                                    generate, evaluate, clock);
  }

  /** The batch loop: `rows` is the uploaded table after the keyword rewrite,
      `ApplyKeywords` of what `read_csv` returned. Row i is generated with
      the readings clock[i]; the archive is named from one more reading,
      `last`. With no rows the session is left as it was. */
  method GenerateBatch<Score>(session: Session, rows: seq<Row>, template: string, exemplar: string,
                              generate: string -> Response, evaluate: string -> (Score, string),
                              clock: seq<Readings>, last: Moment)
    returns (blogFiles: seq<string>, progress: seq<Fraction>, archive: string, ghost saved: seq<BlogPost>)
    requires |clock| == |rows| && forall i :: 0 <= i < |clock| ==> Usable(clock[i])
    requires ValidMoment(last) && last.date != First
    modifies session
    ensures |blogFiles| == |rows| && NamedAfter(blogFiles, rows, clock)
    ensures session.Posts() == old(session.Posts()) + saved && FiledAs(saved, blogFiles, rows)
    ensures |rows| > 0 ==> session.Synced()
    ensures |rows| == 0 ==> session.blogPosts == old(session.blogPosts) && session.localFile == old(session.localFile)
    ensures progress == Progress(|rows|)
    ensures archive == ArchiveName(last.date)
  {
    ghost var before := session.Posts();
    var total := |rows|;
    blogFiles := [];
    progress := [];
    saved := [];
    // an empty table runs no iteration and leaves the session untouched
    if total > 0 {
      var i := 0;
      while i < total
        invariant 0 <= i <= total && |blogFiles| == i && |progress| == i
        invariant forall k :: 0 <= k < i ==> progress[k] == Fraction(k + 1, total)
        invariant NamedAfter(blogFiles, rows, clock)
        invariant session.Posts() == before + saved && FiledAs(saved, blogFiles, rows)
        invariant i > 0 ==> session.Synced()
      {
        var filename;
        ghost var post;
        filename, post := GenerateRow(session, rows[i], template, exemplar, generate, evaluate, clock[i]);
        NamedAfterStep(blogFiles, rows, clock, filename);
        FiledAsStep(saved, blogFiles, rows, post, filename);
        AppendLast(before, saved, post);
        blogFiles := blogFiles + [filename];
        progress := progress + [Fraction(i + 1, total)];
        saved := saved + [post];
        i := i + 1;
      }
    }
    ProgressOf(progress, total);
    archive := ArchiveName(last.date);
  }
}
