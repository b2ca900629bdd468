/** The catalog of generated posts: the `blog_posts` list kept in the
    Streamlit session and mirrored to the local `blog_posts.json`. */
module Catalog {
  import opened Wrappers
  import opened Dates

  /** One record of the catalog, as `save_blog_post` builds it */
  datatype BlogPost = BlogPost(filename: string, topic: string, category: string,
                               tags: string, content: string, createdAt: string)

  /** `st.session_state` as far as the catalog goes, and the local file */
  class Session {
    /** `st.session_state.blog_posts`; None while the key is absent */
    var blogPosts: Option<seq<BlogPost>>
    /** the records stored in `blog_posts.json`; None while there is no file */
    var localFile: Option<seq<BlogPost>>

    /** A fresh session over whatever the local file holds */
    constructor(file: Option<seq<BlogPost>>)
      ensures blogPosts == None && localFile == file
    {
      blogPosts := None;
      localFile := file;
    }

    /** The catalog as the code sees it once the key is set */
    function Posts(): (r: seq<BlogPost>)
      reads this
    {
      if blogPosts.Some? then blogPosts.value else []
    }

    /** The session holds what the file holds. */
    predicate Synced()
      reads this
    {
      localFile == blogPosts
    }

    /** `load_blog_posts`: the file's records, or the empty catalog when the
        file is missing. */
    method LoadBlogPosts()
      modifies this
      ensures old(localFile).None? ==> blogPosts == Some([])
      ensures old(localFile).Some? ==> blogPosts == old(localFile)
      ensures localFile == old(localFile)
      ensures old(Synced()) && old(blogPosts).Some? ==> blogPosts == old(blogPosts)
    {
      match localFile
      case None => blogPosts := Some([]);
      case Some(posts) => blogPosts := Some(posts);
    }

    /** `save_blog_post`: one record, stamped with the clock reading, is
        appended to the catalog (created first when the key is absent) and
        the whole catalog is written to the file. */
    method SaveBlogPost(filename: string, topic: string, category: string,
                        tags: string, content: string, now: Moment)
      requires ValidMoment(now)
      modifies this
      ensures blogPosts == Some(old(Posts()) + [BlogPost(filename, topic, category, tags, content, FormatMoment(now))])
      ensures |Posts()| == |old(Posts())| + 1 && Posts()[..|old(Posts())|] == old(Posts())
      ensures ParseMoment(Posts()[|Posts()| - 1].createdAt) == Some(now)
      ensures Synced()
    {
      var post := BlogPost(filename, topic, category, tags, content, FormatMoment(now));
      if blogPosts.None? {
        blogPosts := Some([]);
      }
      blogPosts := Some(blogPosts.value + [post]);
      localFile := blogPosts;
      ParseFormatMoment(now);
      assert Posts()[..|old(Posts())|] == old(Posts());
    }
  }
}
