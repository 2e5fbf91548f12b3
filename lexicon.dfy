/**
 * `BlogPostRecord`, the blog-post record of the application's lexicon, with
 * its validator and its in-place mutators. Lengths are byte lengths: a
 * string stands for the UTF-8 bytes of a Rust `String`, one `char` per byte.
 * The clock is not modelled; the current time is a parameter.
 */
module Lexicon {
  import opened Wrappers

  const TitleLengthError := "Title must be between 1 and 200 characters"
  const ContentLengthError := "Content must be between 1 and 10000 characters"
  const SummaryTooLongError := "Summary cannot be longer than 500 characters"
  const TooManyTagsError := "Cannot have more than 10 tags"
  const TagTooLongError := "Tag cannot be longer than 50 characters"
  const EachTagTooLongError := "Each tag cannot be longer than 50 characters"

  predicate TitleInRange(title: string) {
    1 <= |title| <= 200
  }

  predicate ContentInRange(content: string) {
    1 <= |content| <= 10000
  }

  predicate SummaryInRange(summary: Option<string>) {
    summary.None? || |summary.value| <= 500
  }

  /** At most 10 tags, each at most 50 bytes. */
  predicate TagsInRange(tags: seq<string>) {
    |tags| <= 10 && forall i :: 0 <= i < |tags| ==> |tags[i]| <= 50
  }

  predicate NoDuplicates(tags: seq<string>) {
    forall i, j :: 0 <= i < j < |tags| ==> tags[i] != tags[j]
  }

  class BlogPostRecord {
    var title: string
    var content: string
    var summary: Option<string>
    var tags: seq<string>
    var published: bool
    var createdAt: int
    var updatedAt: int

    /** The constraints of the lexicon, as `validate` checks them. */
    predicate Valid()
      reads this
    {
      TitleInRange(title) && ContentInRange(content) && SummaryInRange(summary) && TagsInRange(tags)
    }

    /** The unvalidated draft that `new` builds before validating it. */
    constructor Draft(title: string, content: string, now: int)
      ensures this.title == title && this.content == content
      ensures summary == None && tags == [] && !published
      ensures createdAt == now && updatedAt == now
    {
      this.title := title;
      this.content := content;
      summary := None;
      tags := [];
      published := false;
      createdAt := now;
      updatedAt := now;
    }

    /**
     * `new`: a fresh unpublished record without summary or tags, or the
     * first validation error; only the title and content can fail.
     */
    static method New(title: string, content: string, now: int) returns (r: Result<BlogPostRecord, string>)
      ensures r.Success? <==> TitleInRange(title) && ContentInRange(content)
      ensures !TitleInRange(title) ==> r == Failure(TitleLengthError)
      ensures TitleInRange(title) && !ContentInRange(content) ==> r == Failure(ContentLengthError)
      ensures r.Success? ==> fresh(r.value) && r.value.Valid()
      ensures r.Success? ==> r.value.title == title && r.value.content == content
      ensures r.Success? ==> r.value.summary == None && r.value.tags == [] && !r.value.published
      ensures r.Success? ==> r.value.createdAt == now && r.value.updatedAt == now
    {
      var post := new BlogPostRecord.Draft(title, content, now);
      var checked := post.Validate();
      if checked.Failure? {
        r := Failure(checked.error);
      } else {
        r := Success(post);
      }
    }

    /**
     * `add_tag`: a tag over 50 bytes is refused first, then any tag once 10
     * are present (even one already there); otherwise the tag is appended
     * unless already present. A refusal changes nothing.
     */
    method AddTag(tag: string) returns (r: Result<(), string>)
      modifies this`tags
      ensures |tag| > 50 ==> r == Failure(TagTooLongError) && tags == old(tags)
      ensures |tag| <= 50 && |old(tags)| >= 10 ==> r == Failure(TooManyTagsError) && tags == old(tags)
      ensures |tag| <= 50 && |old(tags)| < 10 ==>
                r == Success(()) && tags == (if tag in old(tags) then old(tags) else old(tags) + [tag])
      ensures r.Success? ==> tag in tags
      ensures NoDuplicates(old(tags)) ==> NoDuplicates(tags)
      ensures old(TagsInRange(tags)) ==> TagsInRange(tags)
      ensures old(Valid()) ==> Valid()
    {
      if |tag| > 50 {
        return Failure(TagTooLongError);
      }
      if |tags| >= 10 {
        return Failure(TooManyTagsError);
      }
      if tag !in tags {
        tags := tags + [tag];
      }
      return Success(());
    }

    /** `set_summary`: sets the summary when it is at most 500 bytes; a refusal changes nothing. */
    method SetSummary(s: string) returns (r: Result<(), string>)
      modifies this`summary
      ensures |s| <= 500 ==> r == Success(()) && summary == Some(s)
      ensures |s| > 500 ==> r == Failure(SummaryTooLongError) && summary == old(summary)
      ensures old(Valid()) ==> Valid()
    {
      if |s| > 500 {
        return Failure(SummaryTooLongError);
      }
      summary := Some(s);
      return Success(());
    }

    /** `publish`: marks the record published at time `now`. */
    method Publish(now: int)
      modifies this`published, this`updatedAt
      ensures published && updatedAt == now
      ensures old(Valid()) ==> Valid()
    {
      published := true;
      updatedAt := now;
    }

    /** `unpublish`: marks the record a draft at time `now`. */
    method Unpublish(now: int)
      modifies this`published, this`updatedAt
      ensures !published && updatedAt == now
      ensures old(Valid()) ==> Valid()
    {
      published := false;
      updatedAt := now;
    }

    /**
     * `validate`: succeeds exactly when the record meets the lexicon, and
     * otherwise reports the first failed check, in the order title,
     * content, summary, tag count, tag length.
     */
    method Validate() returns (r: Result<(), string>)
      ensures r.Success? <==> Valid()
      ensures !TitleInRange(title) ==> r == Failure(TitleLengthError)
      ensures TitleInRange(title) && !ContentInRange(content) ==> r == Failure(ContentLengthError)
      ensures TitleInRange(title) && ContentInRange(content) && !SummaryInRange(summary) ==>
                r == Failure(SummaryTooLongError)
      ensures TitleInRange(title) && ContentInRange(content) && SummaryInRange(summary) && |tags| > 10 ==>
                r == Failure(TooManyTagsError)
      ensures (TitleInRange(title) && ContentInRange(content) && SummaryInRange(summary) && |tags| <= 10 &&
               !TagsInRange(tags)) ==> r == Failure(EachTagTooLongError)
    {
      if |title| == 0 || |title| > 200 {
        return Failure(TitleLengthError);
      }
      if |content| == 0 || |content| > 10000 {
        return Failure(ContentLengthError);
      }
      if summary.Some? && |summary.value| > 500 {
        return Failure(SummaryTooLongError);
      }
      if |tags| > 10 {
        return Failure(TooManyTagsError);
      }
      for i := 0 to |tags|
        invariant forall j :: 0 <= j < i ==> |tags[j]| <= 50
      {
        if |tags[i]| > 50 {
          return Failure(EachTagTooLongError);
        }
      }
      return Success(());
    }
  }

  /** Adding the same tag twice leaves the tags as adding it once, and keeps a valid record valid. */
  method AddTagTwice(post: BlogPostRecord, tag: string)
    modifies post
    ensures post.tags == (if |tag| <= 50 && |old(post.tags)| < 10 && tag !in old(post.tags)
                          then old(post.tags) + [tag] else old(post.tags))
    ensures old(post.Valid()) ==> post.Valid()
  {
    var first := post.AddTag(tag);
    var second := post.AddTag(tag);
  }
}
