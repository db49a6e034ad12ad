/** The submit handler of the new-post page (src/pages/NewPost.tsx): the
    form's state, its checks, and the call into the local store. */
module NewPostPage {
  import opened Wrappers
  import opened Text
  import opened Posts
  import opened LocalPosts

  /** The toasts `handleSubmit` can raise: one per missing field, the
      success toast and the failure toast. */
  datatype Toast = TitleRequired | AuthorRequired | ContentRequired | Published | PublishFailed

  /** Whether a toast is shown in the destructive variant: every one but the
      success toast. */
  predicate Destructive(t: Toast) { !t.Published? }

  /** The checks of `handleSubmit`, in order: the toast of the first field
      that is blank after trimming, or None when all three are filled in. */
  function MissingField(title: string, author: string, content: string): Option<Toast>
  {
    if IsBlank(title) then Some(TitleRequired)
    else if IsBlank(author) then Some(AuthorRequired)
    else if IsBlank(content) then Some(ContentRequired)
    else None
  }

  /** Only the first failing check is reported, and the post goes through
      exactly when no field is blank. */
  lemma {:induction false} MissingFieldOrder(title: string, author: string, content: string)
    ensures var m := MissingField(title, author, content);
      && (m == Some(TitleRequired) <==> IsBlank(title))
      && (m == Some(AuthorRequired) <==> !IsBlank(title) && IsBlank(author))
      && (m == Some(ContentRequired) <==> !IsBlank(title) && !IsBlank(author) && IsBlank(content))
      && (m == None <==> !IsBlank(title) && !IsBlank(author) && !IsBlank(content))
  {
  }

  /** What `handleSubmit` hands to `addPost`: the untrimmed fields and the
      feed switch, nothing else. */
  function DraftOf(title: string, author: string, content: string, showInFeed: bool): Draft
  {
    Draft(title, author, content, showInFeed, None, None, None, None)
  }

  /** The page's state: the four form fields, the submitting flag, the toasts
      shown so far and the route it navigated to, if any. */
  class NewPostForm {
    var title: string
    var author: string
    var content: string
    var showInFeed: bool
    var isSubmitting: bool
    var toasts: seq<Toast>
    var location: Option<string>

    /** The initial state: empty fields, shown in the feed, not submitting. */
    constructor ()
      ensures title == "" && author == "" && content == "" && showInFeed
      ensures !isSubmitting && toasts == [] && location == None
    {
      title := "";
      author := "";
      content := "";
      showInFeed := true;
      isSubmitting := false;
      toasts := [];
      location := None;
    }

    /** The inputs' change handlers. */
    method Edit(newTitle: string, newAuthor: string, newContent: string, newShowInFeed: bool)
      modifies this
      ensures title == newTitle && author == newAuthor && content == newContent && showInFeed == newShowInFeed
      ensures isSubmitting == old(isSubmitting) && toasts == old(toasts) && location == old(location)
    {
      title := newTitle;
      author := newAuthor;
      content := newContent;
      showInFeed := newShowInFeed;
    }

    /** `handleSubmit`. A blank field raises its toast and leaves the store
        and the submitting flag alone; otherwise the untrimmed fields are
        published. */
    method HandleSubmit(store: LocalStore, createdAt: Instant, nowMillis: nat, rejected: bool)
      modifies this, store
      ensures title == old(title) && author == old(author) && content == old(content)
      ensures showInFeed == old(showInFeed)
      ensures |toasts| == |old(toasts)| + 1
      ensures Destructive(toasts[|toasts| - 1]) <==> store.GetPosts() == old(store.GetPosts())
      ensures MissingField(title, author, content).Some? ==>
        && toasts == old(toasts) + [MissingField(title, author, content).value]
        && isSubmitting == old(isSubmitting) && location == old(location)
        && store.saved == old(store.saved)
      ensures MissingField(title, author, content).None? ==>
        AfterSubmit(old(toasts), old(location), old(store.GetPosts()), store,
                    NewPost(DraftOf(title, author, content, showInFeed), createdAt, nowMillis), rejected)
    {
      var missing := MissingField(title, author, content);
      if missing.Some? {
        toasts := toasts + [missing.value];
        return;
      }
      Publish(DraftOf(title, author, content, showInFeed), store, createdAt, nowMillis, rejected);
    }

    /** The state after the `try` block of `handleSubmit`, from the toasts,
        location and stored posts before it and the post `addPost` builds. On
        success that post is in front of the old ones, the published toast is
        shown and the page navigates to `/` + its slug, still submitting. When
        `addPost` throws, the store keeps its old content, the failure toast
        is shown and the flag drops back. */
    ghost predicate AfterSubmit(toasts0: seq<Toast>, location0: Option<string>, posts0: seq<Post>,
                                store: LocalStore, p: Post, rejected: bool)
      reads this, store
    {
      if rejected then
        && store.GetPosts() == posts0
        && !isSubmitting && location == location0
        && toasts == toasts0 + [PublishFailed]
      else
        && store.GetPosts() == [p] + posts0
        && isSubmitting && location == Some(PostPath(p))
        && toasts == toasts0 + [Published]
    }

    /** The route `navigate` goes to after publishing `p`. */
    function PostPath(p: Post): string
    {
      "/" + p.slug
    }

    /** `setIsSubmitting(true)` and the `try`/`catch` around `addPost`. */
    method Publish(draft: Draft, store: LocalStore, createdAt: Instant, nowMillis: nat, rejected: bool)
      modifies this`isSubmitting, this`toasts, this`location, store
      ensures AfterSubmit(old(toasts), old(location), old(store.GetPosts()), store,
                          NewPost(draft, createdAt, nowMillis), rejected)
    {
      isSubmitting := true;
      var r := store.AddPost(draft, createdAt, nowMillis, rejected);
      match r
      case Normal(newPost) =>
        toasts := toasts + [Published];
        location := Some(PostPath(newPost));
      case Thrown =>
        toasts := toasts + [PublishFailed];
        isSubmitting := false;
    }
  }
}
