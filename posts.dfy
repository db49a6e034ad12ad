/** The records the blog stores: the `Post` interface of src/utils/postUtils.ts
    and the clock readings it is stamped with. */
module Posts {
  import opened Wrappers

  /** The local calendar fields date-fns reads from a `Date`. */
  datatype CalendarDate = CalendarDate(year: nat, month: nat, day: nat)
  {
    predicate Valid() { 1 <= month <= 12 && 1 <= day <= 31 && year <= 9999 }
  }

  /** A JavaScript `Date`: milliseconds since the epoch (`getTime()`) and
      the calendar day it falls on in the browser's time zone. */
  datatype Instant = Instant(millis: int, local: CalendarDate)

  datatype Post = Post(
    id: string,
    title: string,
    author: string,
    content: string,
    showInFeed: bool,
    createdAt: Instant,
    slug: string,
    pinned: Option<bool>,
    banned: Option<bool>,
    showHeader: Option<bool>,
    commentsEnabled: Option<bool>)

  /** `Omit<Post, 'id' | 'createdAt' | 'slug'>`: what a caller of `addPost` supplies. */
  datatype Draft = Draft(
    title: string,
    author: string,
    content: string,
    showInFeed: bool,
    pinned: Option<bool>,
    banned: Option<bool>,
    showHeader: Option<bool>,
    commentsEnabled: Option<bool>)

  /** The sort key of `b.createdAt.getTime() - a.createdAt.getTime()`. */
  function CreatedMillis(p: Post): int { p.createdAt.millis }

  predicate InFeed(p: Post) { p.showInFeed }
}
