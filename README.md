# flowy-blog-space: a verified model of the post logic

flowy-blog-space is a small blog front end. Visitors write posts in a form,
and the posts are kept in the browser's `localStorage` or in a Supabase
`posts` table. Each post is reached under a slug derived from its title and
creation date. This project models the deterministic logic behind that, in
Dafny, and proves what it promises:

- **Slug** (`slug.dfy`) — `createSlug`. The title passes through four
  regular-expression replacements:
  - whitespace runs become a hyphen;
  - blacklisted characters and emoji are removed;
  - hyphen runs collapse to one;
  - leading and trailing hyphens are trimmed.

  Then `-DD-MM-YYYY` is appended. `ParseSlug` reads a slug back into its
  title part and its date, which gives the round trip. The title part is
  also characterised as a whole: it is the words of the title, after its
  blacklisted characters are deleted, joined by single hyphens, where words
  are the maximal runs without whitespace or hyphens.
- **SlugExample** (`slug_example.dfy`) — a worked slug for a concrete title
  and date, proved from the definitions.
- **LocalPosts** (`local_posts.dfy`) — the `localStorage` repository. The
  class `LocalStore` holds the one stored list. `AddPost` prepends to it, a
  slug lookup finds the first (newest) match, and the feed is a stable
  newest-first sort of the posts shown in the feed.
- **RemotePosts** (`remote_posts.dfy`) — the Supabase repository:
  - the row mapper;
  - the queries, over an abstract table, with their error fallbacks;
  - comments and abuse reports;
  - the slug-collision retry loop of `addSupabasePost`, against an insert
    oracle.
- **PostCard** (`post_card.dfy`) — the feed card's preview: the first
  non-blank line of the content, with `#`, `*` and `` ` `` removed.
- **NewPostPage** (`new_post.dfy`) — the new-post form as a class. Its
  `HandleSubmit` runs the ordered blank checks, sets the submitting flag,
  calls `addPost`, and raises a toast and navigates, or handles the throw.
- Supporting modules:
  - `Wrappers` holds `Option` and `Completion`; `Completion` is a call's
    normal return or its throw.
  - `Seqs` holds filter, map and subsequence, with their lemmas.
  - `Sorting` is a stable insertion sort on a descending integer key, the
    behaviour of `Array.prototype.sort` with `b - a`.
  - `Text` holds the JavaScript `\s` class, `trim`, and decimal numerals
    with zero padding.
  - `Posts` is the `Post` record and the calendar date.

The comment at `src/utils/postUtils.ts:23-25` describes the blacklist as
special characters and emoji, and says Unicode letters and hyphens are
allowed. The class it guards contains `\p{Emoji}`, and every ASCII digit
has the Unicode `Emoji` property, so `createSlug` removes digits too
(`Slug.NoDigitsInTitlePart`).

Clocks, storage failures, the backend's answers and random draws are
parameters: `createdAt`, `nowMillis`, `rejected`, `failed`, the insert
replies and the draws.

## Model

| member | source | states |
|---|---|---|
| Slug.HyphenateFacts | src/utils/postUtils.ts:21 | after replacing whitespace runs no whitespace is left, and the ordinary characters of the title are kept in order |
| Slug.HyphenateStripWords | src/utils/postUtils.ts:21-30 | replacing whitespace runs by a hyphen and then deleting blacklisted characters gives the same words as deleting the blacklisted characters alone: a hyphen goes exactly where a whitespace run was, so no two words merge and no word splits |
| Slug.CollapseFacts | src/utils/postUtils.ts:34 | collapsing hyphen runs leaves no two hyphens in a row, introduces no new character and keeps the ordinary characters in order |
| Slug.CollapseWords | src/utils/postUtils.ts:34 | collapsing hyphen runs keeps the words of the text exactly |
| Slug.TrimWords | src/utils/postUtils.ts:37 | trimming the end hyphens keeps the words of the text exactly |
| Slug.CleanJoins | src/utils/postUtils.ts:34-37 | a text without whitespace, without two hyphens in a row and without a hyphen at either end is its words joined by single hyphens |
| Slug.WordsAreWords | src/utils/postUtils.ts:21-37 | every word is non-empty and holds no whitespace and no hyphen |
| Slug.WordsOfJoin | src/utils/postUtils.ts:21-37 | splitting non-empty hyphen-free words joined by hyphens gives the same words back |
| Slug.TitlePartIsJoinedWords | src/utils/postUtils.ts:21-37 | the title part is exactly the words of the title, blacklisted characters deleted, joined by single hyphens |
| Slug.TrimIsSlice | src/utils/postUtils.ts:37 | trimming hyphens leaves a slice `s[a..b]` of the input, and everything cut off before `a` and from `b` on is a hyphen |
| Slug.TrimFacts | src/utils/postUtils.ts:37 | the trimmed text neither starts nor ends with a hyphen, keeps the no-double-hyphen property, and keeps every ordinary character |
| Slug.StripKeepsOrdinary | src/utils/postUtils.ts:27-30 | deleting blacklisted characters keeps every ordinary character, in order |
| Slug.TitlePartClean | src/utils/postUtils.ts:21-37 | the title part has no whitespace, no blacklisted character, no two hyphens in a row and no hyphen at either end, and keeps the ordinary characters of the title in order |
| Slug.NoDigitsInTitlePart | src/utils/postUtils.ts:27-30 | no digit survives in the title part, because digits are `\p{Emoji}` |
| Slug.TitlePartEmptyIff | src/utils/postUtils.ts:21-37 | the title part is empty exactly when the title has no character other than whitespace, blacklisted characters and hyphens |
| Slug.HyphenateIdentity | src/utils/postUtils.ts:21 | a text without whitespace is unchanged by the whitespace replacement |
| Slug.CollapseIdentity | src/utils/postUtils.ts:34 | a text without double hyphens is unchanged by the collapse |
| Slug.CleanIsFixedPoint | src/utils/postUtils.ts:21-37 | a title that is already clean is its own title part |
| Slug.TitlePartIdempotent | src/utils/postUtils.ts:21-37 | slugifying a title part again changes nothing |
| Slug.ParseDateSuffixJoined | src/utils/postUtils.ts:39-43 | `-DD-MM-YYYY` built from digit strings of widths 2, 2 and 4 parses back to the date with those values |
| Slug.ParseComposed | src/utils/postUtils.ts:39-43 | any text followed by the zero-padded `-DD-MM-YYYY` is 11 characters longer and parses back to that text and date |
| Slug.SlugRoundTrip | src/utils/postUtils.ts:19-44 | the slug is the title part plus exactly 11 characters; day and month have exactly 2 digits and the year 4, and the slug parses back to the title part and the date |
| SlugExample.StripExample | src/utils/postUtils.ts:27-30 | deleting blacklisted characters from `Hello, World! 🎉` gives `Hello World ` |
| SlugExample.WordsExample | src/utils/postUtils.ts:21-37 | the words of `Hello, World! 🎉` are `Hello` and `World` |
| SlugExample.HelloWorldSlug | src/utils/postUtils.ts:19-44 | the slug of `Hello, World! 🎉` on 5 March 2024 is `Hello-World-05-03-2024` |
| Slug.DegenerateSlug | src/utils/postUtils.ts:21-43 | a title made only of whitespace and blacklisted characters gives an 11-character slug `-DD-MM-YYYY` that starts with a hyphen and has an empty title part |
| Text.BlankIffTrimEmpty | src/pages/NewPost.tsx:28 | `trim()` leaves nothing exactly when every character is whitespace (both directions) |
| Text.PadFacts | src/utils/postUtils.ts:39-41 | a number below `10^width` is formatted with exactly `width` digits that read back as the number |
| Text.ValueOfShow | src/utils/postUtils.ts:66 | the decimal digits of a number read back as that number |
| Text.ShowTwoDigits | src/utils/supabasePostUtils.ts:116 | a number in [10, 99] prints as exactly two digits that read back as the number |
| Sorting.SortDescFacts | src/utils/postUtils.ts:89-90 | the stable descending sort is ordered by the key, is a permutation of its input, and keeps the input order among equal keys |
| LocalPosts.FindBySlug | src/utils/postUtils.ts:83 | nothing is found exactly when no post has the slug; otherwise the result has the slug and no earlier post has it |
| LocalPosts.NewestWins | src/utils/postUtils.ts:76-83 | after a post is prepended, a lookup of its slug finds that post, even when older posts share the slug |
| LocalPosts.OtherSlugsUnaffected | src/utils/postUtils.ts:76-83 | prepending a post does not change the lookup of any other slug |
| LocalPosts.FeedFacts | src/utils/postUtils.ts:87-91 | the feed holds exactly the `showInFeed` posts, each as often as stored, with non-increasing `createdAt`; posts with equal timestamps keep their stored order |
| LocalPosts.HiddenPostLeavesFeed | src/utils/postUtils.ts:76-91 | adding a post hidden from the feed leaves the feed unchanged |
| LocalPosts.NewPost | src/utils/postUtils.ts:65-74 | the new post carries the caller's fields unchanged and `createdAt` from the clock |
| LocalPosts.NewPostIdentity | src/utils/postUtils.ts:66-67 | the id is `post_` followed by digits whose value is `Date.now()`, and the slug parses back to the title part of the title and the creation date |
| LocalPosts.LocalStore.constructor | src/utils/postUtils.ts:52-54 | with nothing stored, `getPosts` returns `[]` |
| LocalPosts.LocalStore.SavePosts | src/utils/postUtils.ts:47-49 | a successful write overwrites the slot, so `getPosts` returns exactly what was saved; a refused write leaves the slot alone and is reported |
| LocalPosts.LocalStore.AddPost | src/utils/postUtils.ts:63-78 | the call returns normally exactly when the write succeeds; it returns the new post, and the stored list becomes `[newPost] + old list`; a throw leaves the slot unchanged |
| RemotePosts.MapSupabasePost | src/utils/supabasePostUtils.ts:20-34 | every column is copied to the camelCase field of the same meaning with its value unchanged; mapping back gives the row again |
| RemotePosts.MapSupabasePostOnto | src/utils/supabasePostUtils.ts:20-34 | every post with all its flags present is the mapping of some row, so the mapper loses nothing |
| RemotePosts.FetchAllPosts | src/utils/supabasePostUtils.ts:37-49 | on error `[]`; otherwise all rows, mapped, each exactly once, newest `created_at` first |
| RemotePosts.FeedRowsFacts | src/utils/supabasePostUtils.ts:53-59 | the feed rows are exactly the visible rows (shown in the feed, not banned), pinned first, newest first within each group |
| RemotePosts.FetchFeedPosts | src/utils/supabasePostUtils.ts:52-67 | on error `[]`; otherwise exactly the rows shown in the feed and not banned, mapped, pinned first, then newest first |
| RemotePosts.FetchPostBySlug | src/utils/supabasePostUtils.ts:70-83 | a post comes back exactly when the query succeeds and exactly one row has the slug; it is that row, mapped |
| RemotePosts.FetchComments | src/utils/supabasePostUtils.ts:172-185 | on error `[]`; otherwise exactly that post's comments, oldest first |
| RemotePosts.AddComment | src/utils/supabasePostUtils.ts:152-169 | on success the stored row is returned and appended to the table; on error the result is `null` and the table is unchanged |
| RemotePosts.AddedCommentIsFetched | src/utils/supabasePostUtils.ts:152-185 | a comment just added is among the comments fetched for its post |
| RemotePosts.SubmitAbuseReport | src/utils/supabasePostUtils.ts:134-149 | the result is true exactly when the insert reports no error, and only then is the report stored |
| RemotePosts.InsertForFields | src/utils/supabasePostUtils.ts:93-101 | the insert copies the draft's fields and the slug; `show_header` defaults to true and `comments_enabled` to false; `pinned` and `banned` are not sent |
| RemotePosts.FirstSuccess | src/utils/supabasePostUtils.ts:115-122 | the attempt at which the loop stops is the first one whose insert succeeds |
| RemotePosts.FailedBeforeFirstSuccess | src/utils/supabasePostUtils.ts:115-122 | every attempt before that one failed: the loop retries after any error |
| RemotePosts.RetrySlugLayout | src/utils/supabasePostUtils.ts:116-117 | a retry slug is the initial slug, a hyphen and the two digits of the draw, so suffixes never stack |
| RemotePosts.InsertUntilStored | src/utils/supabasePostUtils.ts:112-122 | the loop issues one insert per attempt up to and including the first success; attempt 0 uses the initial slug and attempt k uses the initial slug plus `-` and the k-th draw; it ends holding a successful reply |
| RemotePosts.AddSupabasePost | src/utils/supabasePostUtils.ts:86-131 | the first insert uses `createSlug(title, createdAt)`, and the post returned is the row stored by the first successful insert, mapped; the `return null` branch is never taken |
| PostCard.SplitLines | src/components/PostCard.tsx:19 | `split('\n')` gives at least one piece, and no piece contains a line feed |
| PostCard.JoinSplit | src/components/PostCard.tsx:19 | joining the pieces with line feeds gives the content back |
| PostCard.SplitJoin | src/components/PostCard.tsx:19 | splitting pieces that were joined with line feeds gives the same pieces |
| PostCard.FirstNonBlank | src/components/PostCard.tsx:19 | the line found is non-blank and every line before it is blank; nothing is found exactly when all lines are blank |
| PostCard.Preview | src/components/PostCard.tsx:19 | the preview is `''` exactly when every line is blank; otherwise it is a non-blank line and every line before it is blank |
| PostCard.StripMarks | src/components/PostCard.tsx:61 | no `#`, `*` or `` ` `` is left; the result is an order-preserving subsequence; every other character keeps all its occurrences |
| PostCard.BlankContentShowsNothing | src/components/PostCard.tsx:19-61 | content made only of whitespace shows an empty paragraph |
| NewPostPage.MissingFieldOrder | src/pages/NewPost.tsx:28-50 | title, then author, then content: only the first blank field is reported, and nothing is reported exactly when all three are non-blank |
| NewPostPage.NewPostForm.constructor | src/pages/NewPost.tsx:16-20 | the form starts with empty fields, `showInFeed` true and not submitting |
| NewPostPage.NewPostForm.Edit | src/pages/NewPost.tsx:16-19 | the input handlers change the four fields and nothing else |
| NewPostPage.NewPostForm.HandleSubmit | src/pages/NewPost.tsx:25-78 | a blank field raises its own toast and leaves the store, the flag and the route alone; otherwise the untrimmed fields and `showInFeed` go to `addPost`; on success the post is stored first and the page goes to `/` + slug; on a throw the store is unchanged and the flag is back to false; exactly one toast is raised, and it is destructive exactly when no post was stored |
| NewPostPage.NewPostForm.Publish | src/pages/NewPost.tsx:52-77 | the final state after the `try`/`catch`: on success the store holds the new post in front of the old list, the flag is still true, the "Post published!" toast is raised and the route is `/` + the new slug; on a throw the store and the route are unchanged, the flag is false and the "Failed to publish post" toast is raised |
| Seqs.MapPermutation | src/utils/supabasePostUtils.ts:48 | mapping rows preserves a permutation: rows equal as multisets give posts equal as multisets |
| Seqs.FilterIsSubsequence | src/components/PostCard.tsx:61 | a filtered string is an order-preserving subsequence of the input |

## Left out

- Slug.IsEmoji: the `\p{Emoji}` table is exact on ASCII (`#`, `*` and the digits). Above ASCII it is approximated by the common emoji blocks and signs, because the full Unicode property table is not reproduced. The approximation is wrong in both directions: it misses some emoji, such as U+2B50, U+231A, U+2194 and U+3030, so the model keeps them; and it includes some non-emoji, such as U+2605, U+2713 and U+1F000-U+1F003, so the model deletes them.
- The `\s` class is written out from the ECMAScript WhiteSpace and LineTerminator sets. No Unicode database is consulted.
- Date handling is left out: `Date`, `Date.now` and the time zone that date-fns `format` uses. A creation time is an `Instant`, which holds the epoch milliseconds and the local calendar date the clock supplies. Only the zero-padded formatting is modelled.
- The JSON (de)serialisation of `localStorage` is left out. The slot holds the list of posts itself, so `getPosts`'s re-parsing of `createdAt` is the identity.
- `setItem` can throw, for example when storage is full. This is modelled as the `rejected` parameter. The model does not say when it happens.
- The backend is an abstract table with a `failed` flag per query. Supabase's network, authentication and async behaviour are left out.
- The server's order for rows with equal sort keys is unspecified. The model fixes it as table order, via a stable sort.
- `fetchPostBySlug` depends on `.single()` erroring when zero rows or more than one row match. The error is modelled; its message is not.
- `Math.random` is modelled as the `draw` of each retry. Its floating-point arithmetic is left out.
- RemotePosts.AddSupabasePost: the range 10 ≤ draw ≤ 99 is not a precondition. The slug layout for that range is proved separately in `RemotePosts.RetrySlugLayout`.
- RemotePosts.AddSupabasePost: covers only runs in which some insert eventually succeeds (`EventuallyInserted`). Otherwise the source loops forever, and a non-terminating run has no final state to describe.
- `addComment` and `fetchComments` return untyped rows. The model gives them the `comments` table's columns.
- `console.error` logging is left out.
- React rendering, JSX, framer-motion animations and the toast component are left out. A toast is recorded by its kind (one per missing field, the success toast and the failure toast) and whether it is destructive; its title and description strings are left out. Routing is recorded as the target path.
- `e.preventDefault()` is left out, because it is a browser event side effect.
- LocalPosts.LocalStore.GetPostBySlug and LocalPosts.LocalStore.GetFeedPosts carry no contract of their own. They are the stored list passed to `FindBySlug` and `FeedOf`, whose contracts and lemmas state the behaviour.
- A local-to-remote migration routine, a content sanitizer and a bounded retry policy are not modelled. None of them is in this code.
