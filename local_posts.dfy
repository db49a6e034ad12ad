/** The localStorage post repository of src/utils/postUtils.ts: one stored
    list of posts, newest first, overwritten on every write. */
module LocalPosts {
  import opened Wrappers
  import opened Seqs
  import opened Sorting
  import opened Text
  import opened Posts
  import opened Slug

  /** Position of the first post carrying `slug`, or `|posts|` when none does. */
  function FirstWithSlug(posts: seq<Post>, slug: string): (k: nat)
    ensures k <= |posts|
    ensures forall j | 0 <= j < k :: posts[j].slug != slug
    ensures k < |posts| ==> posts[k].slug == slug
  {
    if posts == [] then 0
    else if posts[0].slug == slug then 0
    else 1 + FirstWithSlug(posts[1..], slug)
  }

  /** `posts.find(post => post.slug === slug)`: the first post with exactly
      that slug, or nothing when no post has it. */
  function FindBySlug(posts: seq<Post>, slug: string): (r: Option<Post>)
    ensures r.None? <==> forall i | 0 <= i < |posts| :: posts[i].slug != slug
    ensures r.Some? ==> r.value.slug == slug
    ensures r.Some? ==> exists k | 0 <= k < |posts| ::
                          posts[k] == r.value && forall j | 0 <= j < k :: posts[j].slug != slug
  {
    var k := FirstWithSlug(posts, slug);
    if k < |posts| then Some(posts[k]) else None
  }

  /** `posts.filter(post => post.showInFeed).sort((a, b) => b.createdAt - a.createdAt)`. */
  function FeedOf(posts: seq<Post>): seq<Post>
  {
    SortDesc(Filter(posts, InFeed), CreatedMillis)
  }

  /** The feed holds exactly the posts shown in the feed, each as often as it
      is stored, newest first; posts created at the same millisecond keep
      their stored order. */
  lemma {:induction false} FeedFacts(posts: seq<Post>)
    ensures forall i | 0 <= i < |FeedOf(posts)| :: FeedOf(posts)[i].showInFeed
    ensures multiset(FeedOf(posts)) == multiset(Filter(posts, InFeed))
    ensures forall p :: p in FeedOf(posts) <==> p in posts && p.showInFeed
    ensures forall i, j | 0 <= i < j < |FeedOf(posts)| ::
              FeedOf(posts)[i].createdAt.millis >= FeedOf(posts)[j].createdAt.millis
    ensures forall t :: WithKey(FeedOf(posts), CreatedMillis, t)
                        == WithKey(Filter(posts, InFeed), CreatedMillis, t)
  {
    var shown := Filter(posts, InFeed);
    var r := FeedOf(posts);
    SortDescFacts(shown, CreatedMillis);
    forall i | 0 <= i < |r| ensures r[i].showInFeed {
      assert r[i] in multiset(r);
    }
    forall p ensures p in r <==> p in shown {
      assert p in r <==> p in multiset(r);
      assert p in shown <==> p in multiset(shown);
    }
    forall p | p in posts && p.showInFeed ensures p in shown {
      FilterKeeps(posts, InFeed, p);
    }
  }

  /** The post just added (prepended) is the one a lookup of its slug finds,
      even when older posts share the slug. */
  lemma {:induction false} NewestWins(p: Post, older: seq<Post>)
    ensures FindBySlug([p] + older, p.slug) == Some(p)
  {
    assert FirstWithSlug([p] + older, p.slug) == 0;
  }

  /** Adding a post does not change lookups of other slugs. */
  lemma {:induction false} OtherSlugsUnaffected(p: Post, older: seq<Post>, slug: string)
    requires slug != p.slug
    ensures FindBySlug([p] + older, slug) == FindBySlug(older, slug)
  {
    assert ([p] + older)[1..] == older;
  }

  /** Adding a post hidden from the feed leaves the feed as it was. */
  lemma {:induction false} HiddenPostLeavesFeed(p: Post, older: seq<Post>)
    requires !p.showInFeed
    ensures FeedOf([p] + older) == FeedOf(older)
  {
    assert ([p] + older)[1..] == older;
    assert Filter([p] + older, InFeed) == Filter(older, InFeed);
  }

  /** The post `addPost` builds: the caller's fields, `id` from `Date.now()`,
      `createdAt` from `new Date()` and the slug of the title on that date. */
  function NewPost(draft: Draft, createdAt: Instant, nowMillis: nat): (p: Post)
    ensures p.title == draft.title && p.author == draft.author && p.content == draft.content
    ensures p.showInFeed == draft.showInFeed && p.pinned == draft.pinned && p.banned == draft.banned
    ensures p.showHeader == draft.showHeader && p.commentsEnabled == draft.commentsEnabled
    ensures p.createdAt == createdAt
  {
    Post("post_" + Show(nowMillis), draft.title, draft.author, draft.content, draft.showInFeed,
         createdAt, CreateSlug(draft.title, createdAt.local),
         draft.pinned, draft.banned, draft.showHeader, draft.commentsEnabled)
  }

  /** The new post's id is `post_` followed by the clock reading, and its slug
      is the title part of its title followed by its creation date. */
  lemma {:induction false} NewPostIdentity(draft: Draft, createdAt: Instant, nowMillis: nat)
    requires createdAt.local.Valid()
    ensures var p := NewPost(draft, createdAt, nowMillis);
      && |p.id| > 5 && p.id[..5] == "post_" && AllDigits(p.id[5..]) && Value(p.id[5..]) == nowMillis
      && ParseSlug(p.slug) == Some((TitlePart(draft.title), createdAt.local))
  {
    var p := NewPost(draft, createdAt, nowMillis);
    assert p.id[5..] == Show(nowMillis);
    ValueOfShow(nowMillis);
    SlugRoundTrip(draft.title, createdAt.local);
  }

  /** The browser's localStorage slot `blog_posts`. */
  class LocalStore {
    /** The stored list, or None while nothing has been stored. */
    var saved: Option<seq<Post>>

    constructor ()
      ensures saved == None && GetPosts() == []
    {
      saved := None;
    }

    /** `getPosts`: the stored list, or the empty list when nothing is stored. */
    function GetPosts(): seq<Post>
      reads this
    {
      match saved
      case None => []
      case Some(posts) => posts
    }

    /** `savePosts`: overwrites the slot. `rejected` is the browser refusing the
        write (`setItem` throwing, e.g. over quota); the slot then keeps its
        old content and the call reports the throw. */
    method SavePosts(posts: seq<Post>, rejected: bool) returns (ok: bool)
      modifies this
      ensures ok == !rejected
      ensures ok ==> saved == Some(posts) && GetPosts() == posts
      ensures !ok ==> saved == old(saved)
    {
      if rejected {
        ok := false;
      } else {
        saved := Some(posts);
        ok := true;
      }
    }

    /** `addPost`: builds the post and stores it in front of the old list. */
    method AddPost(draft: Draft, createdAt: Instant, nowMillis: nat, rejected: bool)
      returns (r: Completion<Post>)
      modifies this
      ensures r.Normal? <==> !rejected
      ensures r.Normal? ==> r.value == NewPost(draft, createdAt, nowMillis)
      ensures r.Normal? ==> GetPosts() == [r.value] + old(GetPosts())
      ensures r.Thrown? ==> saved == old(saved)
    {
      var posts := GetPosts();
      var newPost := NewPost(draft, createdAt, nowMillis);
      var ok := SavePosts([newPost] + posts, rejected);
      r := if ok then Normal(newPost) else Thrown;
    }

    /** `getPostBySlug`. */
    function GetPostBySlug(slug: string): Option<Post>
      reads this
    {
      FindBySlug(GetPosts(), slug)
    }

    /** `getFeedPosts`. */
    function GetFeedPosts(): seq<Post>
      reads this
    {
      FeedOf(GetPosts())
    }
  }
}
