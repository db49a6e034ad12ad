/** The Supabase-backed repository of src/utils/supabasePostUtils.ts. The
    backend is represented by the contents of its tables (for queries) and by
    the replies it gives to inserts; a `failed` flag stands for a query that
    comes back with an error. */
module RemotePosts {
  import opened Wrappers
  import opened Seqs
  import opened Sorting
  import opened Text
  import opened Posts
  import opened Slug

  /** A row of the `posts` table (`SupabasePost`). `created_at` travels as
      ISO-8601 text; the model carries the instant that text denotes. */
  datatype SupabasePost = SupabasePost(
    id: string,
    title: string,
    author: string,
    content: string,
    show_in_feed: bool,
    created_at: Instant,
    slug: string,
    pinned: bool,
    banned: bool,
    show_header: bool,
    comments_enabled: bool)

  /** A row of the `comments` table. */
  datatype CommentRow = CommentRow(id: string, post_id: string, author_name: string, content: string, created_at: Instant)

  /** The row a post read from the backend came from: the inverse of
      `MapSupabasePost`, defined on posts whose optional flags are present. */
  function ToSupabasePost(p: Post): SupabasePost
    requires p.pinned.Some? && p.banned.Some? && p.showHeader.Some? && p.commentsEnabled.Some?
  {
    SupabasePost(p.id, p.title, p.author, p.content, p.showInFeed, p.createdAt, p.slug,
                 p.pinned.value, p.banned.value, p.showHeader.value, p.commentsEnabled.value)
  }

  /** `mapSupabasePost`: snake_case columns become camelCase fields; no value
      changes, and every optional flag is present. */
  function MapSupabasePost(row: SupabasePost): (p: Post)
    ensures p.id == row.id && p.title == row.title && p.author == row.author && p.content == row.content
    ensures p.showInFeed == row.show_in_feed && p.createdAt == row.created_at && p.slug == row.slug
    ensures p.pinned == Some(row.pinned) && p.banned == Some(row.banned)
    ensures p.showHeader == Some(row.show_header) && p.commentsEnabled == Some(row.comments_enabled)
    ensures ToSupabasePost(p) == row
  {
    Post(row.id, row.title, row.author, row.content, row.show_in_feed, row.created_at, row.slug,
         Some(row.pinned), Some(row.banned), Some(row.show_header), Some(row.comments_enabled))
  }

  /** Mapping loses nothing: a post with all its flags present is the mapping
      of exactly one row. */
  lemma {:induction false} MapSupabasePostOnto(p: Post)
    requires p.pinned.Some? && p.banned.Some? && p.showHeader.Some? && p.commentsEnabled.Some?
    ensures MapSupabasePost(ToSupabasePost(p)) == p
  {
  }

  function RowCreated(row: SupabasePost): int { row.created_at.millis }

  /** `.eq('show_in_feed', true).eq('banned', false)` */
  predicate Visible(row: SupabasePost) { row.show_in_feed && !row.banned }
  predicate VisiblePinned(row: SupabasePost) { Visible(row) && row.pinned }
  predicate VisibleUnpinned(row: SupabasePost) { Visible(row) && !row.pinned }

  // ---- fetchAllPosts ------------------------------------------------------

  /** `fetchAllPosts`: every post, newest `created_at` first (rows with equal
      `created_at` in table order), or `[]` when the query fails. */
  function FetchAllPosts(table: seq<SupabasePost>, failed: bool): (r: seq<Post>)
    ensures failed ==> r == []
    ensures !failed ==> multiset(r) == multiset(MapSeq(table, MapSupabasePost))
    ensures forall i, j | 0 <= i < j < |r| :: r[i].createdAt.millis >= r[j].createdAt.millis
  {
    SortDescFacts(table, RowCreated);
    MapPermutation(SortDesc(table, RowCreated), table, MapSupabasePost);
    if failed then [] else MapSeq(SortDesc(table, RowCreated), MapSupabasePost)
  }

  // ---- fetchFeedPosts -----------------------------------------------------

  /** The rows of `.order('pinned', { ascending: false }).order('created_at',
      { ascending: false })` over the visible rows: the pinned ones newest
      first, then the others newest first. */
  function FeedRows(table: seq<SupabasePost>): seq<SupabasePost>
  {
    SortDesc(Filter(table, VisiblePinned), RowCreated) + SortDesc(Filter(table, VisibleUnpinned), RowCreated)
  }

  /** Pinned rows before unpinned ones, each part newest first, built from
      two sorted parts. */
  lemma {:induction false} PinnedFirst(a: seq<SupabasePost>, b: seq<SupabasePost>)
    requires forall i | 0 <= i < |a| :: a[i].pinned
    requires forall i | 0 <= i < |b| :: !b[i].pinned
    requires NonIncreasing(a, RowCreated) && NonIncreasing(b, RowCreated)
    ensures var r := a + b;
      && (forall i, j | 0 <= i < j < |r| :: r[j].pinned ==> r[i].pinned)
      && (forall i, j | 0 <= i < j < |r| && r[i].pinned == r[j].pinned :: RowCreated(r[i]) >= RowCreated(r[j]))
  {
    var r := a + b;
    forall i, j | 0 <= i < j < |r| && r[i].pinned == r[j].pinned
      ensures RowCreated(r[i]) >= RowCreated(r[j])
    {
      if j < |a| {
        assert r[i] == a[i] && r[j] == a[j];
      } else if i >= |a| {
        assert r[i] == b[i - |a|] && r[j] == b[j - |a|];
      } else {
        assert false;
      }
    }
  }

  /** Every element of a sorted filter passes the filter. */
  lemma {:induction false} SortedFilterPasses(s: seq<SupabasePost>, f: SupabasePost -> bool)
    ensures forall i | 0 <= i < |SortDesc(Filter(s, f), RowCreated)| :: f(SortDesc(Filter(s, f), RowCreated)[i])
  {
    var t := SortDesc(Filter(s, f), RowCreated);
    SortDescFacts(Filter(s, f), RowCreated);
    forall i | 0 <= i < |t| ensures f(t[i]) {
      assert t[i] in multiset(t);
    }
  }

  /** The feed holds the visible rows, each exactly as often as the table. */
  lemma {:induction false} FeedRowsPermutes(table: seq<SupabasePost>)
    ensures multiset(FeedRows(table)) == multiset(Filter(table, Visible))
  {
    SortDescFacts(Filter(table, VisiblePinned), RowCreated);
    SortDescFacts(Filter(table, VisibleUnpinned), RowCreated);
    FilterPartition(table, Visible, VisiblePinned, VisibleUnpinned);
  }

  /** Pinned rows come first, and each group is newest first. */
  lemma {:induction false} FeedRowsOrdered(table: seq<SupabasePost>)
    ensures var r := FeedRows(table);
      && (forall i, j | 0 <= i < j < |r| :: r[j].pinned ==> r[i].pinned)
      && (forall i, j | 0 <= i < j < |r| && r[i].pinned == r[j].pinned :: RowCreated(r[i]) >= RowCreated(r[j]))
  {
    var a := SortDesc(Filter(table, VisiblePinned), RowCreated);
    var b := SortDesc(Filter(table, VisibleUnpinned), RowCreated);
    SortDescFacts(Filter(table, VisiblePinned), RowCreated);
    SortDescFacts(Filter(table, VisibleUnpinned), RowCreated);
    SortedFilterPasses(table, VisiblePinned);
    SortedFilterPasses(table, VisibleUnpinned);
    PinnedFirst(a, b);
  }

  lemma {:induction false} FeedRowsFacts(table: seq<SupabasePost>)
    ensures var r := FeedRows(table);
      && (forall i | 0 <= i < |r| :: Visible(r[i]))
      && (forall i, j | 0 <= i < j < |r| :: r[j].pinned ==> r[i].pinned)
      && (forall i, j | 0 <= i < j < |r| && r[i].pinned == r[j].pinned :: RowCreated(r[i]) >= RowCreated(r[j]))
      && multiset(r) == multiset(Filter(table, Visible))
  {
    var r := FeedRows(table);
    FeedRowsPermutes(table);
    FeedRowsOrdered(table);
    forall i | 0 <= i < |r| ensures Visible(r[i]) {
      assert r[i] in multiset(Filter(table, Visible));
    }
  }

  /** `fetchFeedPosts`: only posts shown in the feed and not banned, all of
      them, pinned ones first and newest first within each group; `[]` when
      the query fails. */
  function FetchFeedPosts(table: seq<SupabasePost>, failed: bool): (r: seq<Post>)
    ensures failed ==> r == []
    ensures forall i | 0 <= i < |r| :: r[i].showInFeed && r[i].banned == Some(false)
    ensures forall i, j | 0 <= i < j < |r| :: r[j].pinned == Some(true) ==> r[i].pinned == Some(true)
    ensures forall i, j | 0 <= i < j < |r| && r[i].pinned == r[j].pinned ::
              r[i].createdAt.millis >= r[j].createdAt.millis
    ensures !failed ==> multiset(r) == multiset(MapSeq(Filter(table, Visible), MapSupabasePost))
  {
    FeedRowsFacts(table);
    MapPermutation(FeedRows(table), Filter(table, Visible), MapSupabasePost);
    if failed then [] else MapSeq(FeedRows(table), MapSupabasePost)
  }

  // ---- fetchPostBySlug ----------------------------------------------------

  function HasSlug(slug: string): SupabasePost -> bool
  {
    (row: SupabasePost) => row.slug == slug
  }

  /** `fetchPostBySlug`: `.single()` fails unless exactly one row carries the
      slug, and any failure gives `null`. Banned rows are not filtered out. */
  function FetchPostBySlug(table: seq<SupabasePost>, slug: string, failed: bool): (r: Option<Post>)
    ensures r.Some? <==> !failed && |Filter(table, HasSlug(slug))| == 1
    ensures r.Some? ==> r.value.slug == slug && exists row | row in table :: r.value == MapSupabasePost(row)
  {
    var matches := Filter(table, HasSlug(slug));
    if failed || |matches| != 1 then None else Some(MapSupabasePost(matches[0]))
  }

  // ---- comments and abuse reports -----------------------------------------

  function OfPost(postId: string): CommentRow -> bool
  {
    (c: CommentRow) => c.post_id == postId
  }

  /** Ascending `created_at` is descending on its negation. */
  function NegCreated(c: CommentRow): int { -c.created_at.millis }

  /** `fetchComments`: the comments of that post only, all of them, oldest
      first (equal times in table order); `[]` when the query fails. */
  function FetchComments(comments: seq<CommentRow>, postId: string, failed: bool): (r: seq<CommentRow>)
    ensures failed ==> r == []
    ensures forall i | 0 <= i < |r| :: r[i].post_id == postId
    ensures forall i, j | 0 <= i < j < |r| :: r[i].created_at.millis <= r[j].created_at.millis
    ensures !failed ==> multiset(r) == multiset(Filter(comments, OfPost(postId)))
  {
    var own := Filter(comments, OfPost(postId));
    SortDescFacts(own, NegCreated);
    var sorted := SortDesc(own, NegCreated);
    assert forall i | 0 <= i < |sorted| :: sorted[i].post_id == postId by {
      forall i | 0 <= i < |sorted| ensures sorted[i].post_id == postId {
        assert sorted[i] in multiset(sorted);
      }
    }
    if failed then [] else sorted
  }

  /** What the backend answers to a comment insert: the columns it fills in
      itself, or an error. */
  datatype CommentReply = CommentCreated(id: string, created_at: Instant) | CommentFailed

  /** `addComment`: on success the `comments` table gains exactly the stored
      row, which is returned; on an error the table is unchanged and the
      result is `null`. */
  function AddComment(comments: seq<CommentRow>, postId: string, authorName: string, content: string, reply: CommentReply)
    : (r: (Option<CommentRow>, seq<CommentRow>))
    ensures r.0.Some? <==> reply.CommentCreated?
    ensures r.0.Some? ==> r.0.value == CommentRow(reply.id, postId, authorName, content, reply.created_at)
    ensures r.0.Some? ==> r.1 == comments + [r.0.value]
    ensures r.0.None? ==> r.1 == comments
  {
    match reply
    case CommentFailed => (None, comments)
    case CommentCreated(id, createdAt) =>
      var row := CommentRow(id, postId, authorName, content, createdAt);
      (Some(row), comments + [row])
  }

  /** A comment just added is among the comments fetched for its post. */
  lemma {:induction false} AddedCommentIsFetched(comments: seq<CommentRow>, postId: string, authorName: string, content: string, reply: CommentReply)
    requires reply.CommentCreated?
    ensures var (row, table) := AddComment(comments, postId, authorName, content, reply);
      row.value in FetchComments(table, postId, false)
  {
    var (row, table) := AddComment(comments, postId, authorName, content, reply);
    FilterKeeps(table, OfPost(postId), row.value);
    assert row.value in multiset(FetchComments(table, postId, false));
  }

  /** A row of the `abuse_reports` table. */
  datatype AbuseReport = AbuseReport(post_id: string, reporter_name: string, details: string)

  /** `submitAbuseReport`: true exactly when the insert reported no error, in
      which case the report is added to the table; a failure is returned,
      never thrown. */
  function SubmitAbuseReport(reports: seq<AbuseReport>, postId: string, reporterName: string, details: string, failed: bool)
    : (r: (bool, seq<AbuseReport>))
    ensures r.0 <==> !failed
    ensures r.0 ==> r.1 == reports + [AbuseReport(postId, reporterName, details)]
    ensures !r.0 ==> r.1 == reports
  {
    if failed then (false, reports) else (true, reports + [AbuseReport(postId, reporterName, details)])
  }

  // ---- addSupabasePost ----------------------------------------------------

  /** `Omit<Post, 'id' | 'createdAt' | 'slug' | 'pinned' | 'banned'>`. */
  datatype RemoteDraft = RemoteDraft(
    title: string,
    author: string,
    content: string,
    showInFeed: bool,
    showHeader: Option<bool>,
    commentsEnabled: Option<bool>)

  /** The object passed to `.insert([...])`: it has no `pinned` or `banned`. */
  datatype PostInsert = PostInsert(
    title: string,
    author: string,
    content: string,
    show_in_feed: bool,
    show_header: bool,
    comments_enabled: bool,
    slug: string)

  /** The insert built by `tryInsert(slug)`: `show_header` defaults to true
      and `comments_enabled` to false when the draft leaves them out. */
  function InsertFor(draft: RemoteDraft, slug: string): PostInsert
  {
    PostInsert(draft.title, draft.author, draft.content, draft.showInFeed,
               draft.showHeader.GetOr(true), draft.commentsEnabled.GetOr(false), slug)
  }

  /** The insert carries the draft's fields and the slug unchanged;
      `show_header` is false only when the draft says false, and
      `comments_enabled` is true only when the draft says true. */
  lemma {:induction false} InsertForFields(draft: RemoteDraft, slug: string)
    ensures var ins := InsertFor(draft, slug);
      && ins.title == draft.title && ins.author == draft.author && ins.content == draft.content
      && ins.show_in_feed == draft.showInFeed && ins.slug == slug
      && (ins.show_header <==> draft.showHeader != Some(false))
      && (ins.comments_enabled <==> draft.commentsEnabled == Some(true))
  {
  }

  /** What the backend answers to a post insert: the columns it fills in
      itself, or an error (a slug collision or any other failure). */
  datatype InsertReply = Inserted(id: string, created_at: Instant, pinned: bool, banned: bool) | InsertFailed

  /** The row `.select().single()` returns after a successful insert. */
  function StoredRow(ins: PostInsert, reply: InsertReply): SupabasePost
    requires reply.Inserted?
  {
    SupabasePost(reply.id, ins.title, ins.author, ins.content, ins.show_in_feed, reply.created_at,
                 ins.slug, reply.pinned, reply.banned, ins.show_header, ins.comments_enabled)
  }

  /** One retry: the integer `Math.floor(Math.random() * 90 + 10)` drew, and
      the backend's answer to the insert with that suffix. */
  datatype Retry = Retry(draw: nat, reply: InsertReply)

  /** The answer to attempt `k` (attempt 0 is the first insert). */
  function ReplyAt(first: InsertReply, retries: seq<Retry>, k: nat): InsertReply
    requires k <= |retries|
  {
    if k == 0 then first else retries[k - 1].reply
  }

  /** The first attempt, from attempt `from` on, whose insert succeeds, or
      `|retries| + 1` when none of them does. */
  function FirstSuccess(first: InsertReply, retries: seq<Retry>, from: nat): (k: nat)
    requires from <= |retries| + 1
    ensures from <= k <= |retries| + 1
    ensures k <= |retries| ==> ReplyAt(first, retries, k).Inserted?
    decreases |retries| + 1 - from
  {
    if from > |retries| || ReplyAt(first, retries, from).Inserted? then from
    else FirstSuccess(first, retries, from + 1)
  }

  /** Every attempt before the first success failed. */
  lemma {:induction false} FailedBeforeFirstSuccess(first: InsertReply, retries: seq<Retry>, from: nat, j: nat)
    requires from <= |retries| + 1 && from <= j < FirstSuccess(first, retries, from) && j <= |retries|
    ensures ReplyAt(first, retries, j).InsertFailed?
    decreases j - from
  {
    if from < j {
      FailedBeforeFirstSuccess(first, retries, from + 1, j);
    }
  }

  predicate EventuallyInserted(first: InsertReply, retries: seq<Retry>)
  {
    FirstSuccess(first, retries, 0) <= |retries|
  }

  /** The slug attempt `k` inserts with. */
  function AttemptSlug(initialSlug: string, retries: seq<Retry>, k: nat): string
    requires k <= |retries|
  {
    if k == 0 then initialSlug else initialSlug + "-" + Show(retries[k - 1].draw)
  }

  /** A retry slug is the initial slug, a hyphen and the two digits of a
      draw in [10, 99]: suffixes never stack, and read back as the draw. */
  lemma {:induction false} RetrySlugLayout(initialSlug: string, draw: nat)
    requires 10 <= draw <= 99
    ensures var s := initialSlug + "-" + Show(draw);
      && |s| == |initialSlug| + 3 && s[..|initialSlug|] == initialSlug && s[|initialSlug|] == '-'
      && AllDigits(s[|initialSlug| + 1..]) && Value(s[|initialSlug| + 1..]) == draw
  {
    ShowTwoDigits(draw);
    var s := initialSlug + "-" + Show(draw);
    assert s[|initialSlug| + 1..] == Show(draw);
  }

  /** `addSupabasePost`. The first insert uses the slug of the title on the
      creation date; after ANY failed insert it retries with
      `initialSlug-<number>`, with no cap on attempts, and leaves the loop only
      once an insert succeeds. So its `return null` is unreachable: it
      returns the mapped inserted row. `sent` lists the inserts it issued, in
      order. Only runs in which some insert succeeds terminate; those are the
      runs the precondition names. */
  method AddSupabasePost(draft: RemoteDraft, createdAt: Instant, first: InsertReply, retries: seq<Retry>)
    returns (r: Option<Post>, sent: seq<PostInsert>)
    requires EventuallyInserted(first, retries)
    ensures |sent| == FirstSuccess(first, retries, 0) + 1
    ensures forall k | 0 <= k < |sent| ::
              sent[k] == InsertFor(draft, AttemptSlug(CreateSlug(draft.title, createdAt.local), retries, k))
    ensures r == Some(MapSupabasePost(StoredRow(sent[|sent| - 1], ReplyAt(first, retries, |sent| - 1))))
  {
    var initialSlug := CreateSlug(draft.title, createdAt.local);
    var result;
    result, sent := InsertUntilStored(draft, initialSlug, first, retries);
    r := if result.InsertFailed? then None else Some(MapSupabasePost(StoredRow(sent[|sent| - 1], result)));
  }

  /** The insert loop of `addSupabasePost`: `result` is the answer to the
      last insert in `sent`. */
  method InsertUntilStored(draft: RemoteDraft, initialSlug: string, first: InsertReply, retries: seq<Retry>)
    returns (result: InsertReply, sent: seq<PostInsert>)
    requires EventuallyInserted(first, retries)
    ensures |sent| == FirstSuccess(first, retries, 0) + 1
    ensures forall k | 0 <= k < |sent| :: sent[k] == InsertFor(draft, AttemptSlug(initialSlug, retries, k))
    ensures result == ReplyAt(first, retries, |sent| - 1) && result.Inserted?
  {
    ghost var stop := FirstSuccess(first, retries, 0);
    var currentSlug := initialSlug;
    result := first;
    sent := [InsertFor(draft, currentSlug)];
    var i := 0;
    while result.InsertFailed?
      invariant i <= stop <= |retries| && FirstSuccess(first, retries, i) == stop
      invariant result == ReplyAt(first, retries, i)
      invariant |sent| == i + 1
      invariant forall k | 0 <= k < |sent| :: sent[k] == InsertFor(draft, AttemptSlug(initialSlug, retries, k))
      decreases stop - i
    {
      var randomNumber := retries[i].draw;
      currentSlug := initialSlug + "-" + Show(randomNumber);
      result := retries[i].reply;
      ghost var before := sent;
      sent := sent + [InsertFor(draft, currentSlug)];
      assert forall k | 0 <= k < |before| :: sent[k] == before[k];
      assert sent[i + 1] == InsertFor(draft, AttemptSlug(initialSlug, retries, i + 1));
      i := i + 1;
      if result.Inserted? {
        break;
      }
    }
  }
}
