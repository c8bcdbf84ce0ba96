/**
 * The message row controller (`ChatMessage.render`): for one post and the
 * post that follows it in the list, decide whether the row carries the author
 * header ("with sigil") or is a compact continuation row, which timestamp
 * format it passes on, whether a day-break divider goes above it and whether
 * the unread marker goes below it.
 *
 * The day of the month of a timestamp (JavaScript's `Date#getDate`, which
 * depends on the host's time zone) is a parameter `dayOfMonth`.
 */
module ChatMessageRow {
  import opened Options
  import opened MessageContent

  /**
   * A chat post: its author's ship name, its sequence number in the mailbox,
   * when it was sent (`time-sent`, milliseconds since the epoch) and its
   * content fragments.
   */
  datatype Post = Post(author: string, number: int, timeSent: int, contents: seq<Fragment>)

  /** Which of the two row components renders the post. */
  datatype Layout = WithSigil | WithoutSigil

  /** The time a row shows: `time-sent`, to be formatted with `format` by moment.js. */
  datatype Timestamp = Timestamp(timeSent: int, format: string)

  /**
   * What one row renders, top to bottom: the day-break divider (a calendar
   * date that falls back to the datestamp format for older days), the post in
   * one of the two layouts, and the unread marker.
   */
  datatype RowView = RowView(
    dayBreak: Option<Timestamp>,
    layout: Layout,
    timestamp: Timestamp,
    contents: seq<Rendering>,
    unreadMarker: bool)

  /** The moment.js format of the timestamp in a header row. */
  const HeaderTimeFormat: string := "h:mm A"
  /** The moment.js format of the timestamp in a compact row. */
  const CompactTimeFormat: string := "h:mm"
  /** The moment.js format of the date a day break shows for older days. */
  const DatestampFormat: string := "[~]YYYY.M.D"

  /** `renderSigil`: the author header is shown. */
  predicate RenderSigil(msg: Post, next: Option<Post>)
  {
    (next.Some? && msg.author != next.value.author) || next.None? || msg.number == 1
  }

  /** `dayBreak`: a next post exists and its day of the month differs. */
  predicate DayBreak(msg: Post, next: Option<Post>, dayOfMonth: int -> int)
  {
    next.Some? && dayOfMonth(msg.timeSent) != dayOfMonth(next.value.timeSent)
  }

  /** `ChatMessage.render` for the post `msg` followed by `next` in the list. */
  function RenderRow(msg: Post, next: Option<Post>, isLastRead: bool,
                     dayOfMonth: int -> int, contacts: map<string, Contact>): (r: RowView)
    // The header is always shown for the last post and for post number 1.
    ensures next.None? ==> r.layout == WithSigil
    ensures msg.number == 1 ==> r.layout == WithSigil
    // The compact row is shown exactly for a post followed by one of the same
    // author, when the post is not number 1.
    ensures r.layout == WithoutSigil <==>
      next.Some? && next.value.author == msg.author && msg.number != 1
    // The timestamp is that of the post, with the meridiem only in a header row.
    ensures r.timestamp.timeSent == msg.timeSent
    ensures r.timestamp.format == (if r.layout == WithSigil then HeaderTimeFormat else CompactTimeFormat)
    // The divider needs a next post on another day of the month, and is
    // suppressed on the last-read row; it shows the date of this post.
    ensures r.dayBreak.Some? <==>
      next.Some? && dayOfMonth(msg.timeSent) != dayOfMonth(next.value.timeSent) && !isLastRead
    // (hence never on the last post of the list, nor on the last-read row)
    ensures r.dayBreak.Some? ==> r.dayBreak.value == Timestamp(msg.timeSent, DatestampFormat)
    // The unread marker is shown exactly on the last-read row.
    ensures r.unreadMarker == isLastRead
    // Both layouts render the post's fragments in document order.
    ensures |r.contents| == |msg.contents|
    ensures forall i :: 0 <= i < |msg.contents| ==> r.contents[i] == Dispatch(msg.contents[i], contacts)
  {
    var renderSigil := RenderSigil(msg, next);
    var dayBreak := DayBreak(msg, next, dayOfMonth);
    RowView(
      if dayBreak && !isLastRead then Some(Timestamp(msg.timeSent, DatestampFormat)) else None,
      if renderSigil then WithSigil else WithoutSigil,
      Timestamp(msg.timeSent, if renderSigil then HeaderTimeFormat else CompactTimeFormat),
      RenderContents(msg.contents, contacts),
      isLastRead)
  }

  /**
   * The layout, the timestamp and the unread marker do not depend on the
   * clock's day-of-month at all; in particular the unread marker does not
   * depend on whether there is a day break.
   */
  lemma MarkerAndLayoutIgnoreDays(msg: Post, next: Option<Post>, isLastRead: bool,
                                  d1: int -> int, d2: int -> int, contacts: map<string, Contact>)
    ensures var r1, r2 := RenderRow(msg, next, isLastRead, d1, contacts),
                          RenderRow(msg, next, isLastRead, d2, contacts);
      r1.layout == r2.layout && r1.timestamp == r2.timestamp && r1.unreadMarker == r2.unreadMarker
  {
  }

  /**
   * The day break compares days of the month only: two posts sent on the same
   * day of different months (or years) get no divider between them.
   */
  lemma SameDayOfMonthNoBreak(msg: Post, next: Post, isLastRead: bool,
                              dayOfMonth: int -> int, contacts: map<string, Contact>)
    requires dayOfMonth(msg.timeSent) == dayOfMonth(next.timeSent)
    ensures RenderRow(msg, Some(next), isLastRead, dayOfMonth, contacts).dayBreak == None
  {
  }

  /** The post after position `i` of a list, if any. */
  function NextOf(posts: seq<Post>, i: nat): (n: Option<Post>)
    requires i < |posts|
    ensures n.None? <==> i == |posts| - 1
    ensures n.Some? ==> n.value == posts[i + 1]
  {
    if i + 1 < |posts| then Some(posts[i + 1]) else None
  }

  /** Whether position `i` is the last-read one. */
  predicate IsLastRead(lastRead: Option<nat>, i: int)
  {
    lastRead.Some? && lastRead.value == i
  }

  /**
   * A list of posts rendered row by row, the next post of position `i` being
   * position `i + 1`, with the unread marker on position `lastRead`, if any.
   * The component itself does not fix the order; laid out as the page draws
   * it (the divider above a row, "New messages below" under the last-read
   * row), position `i + 1` is the post shown above position `i`, so the list
   * runs newest first.
   */
  function RenderList(posts: seq<Post>, lastRead: Option<nat>,
                      dayOfMonth: int -> int, contacts: map<string, Contact>): (rows: seq<RowView>)
    ensures |rows| == |posts|
    // The last post of the list always carries the header.
    ensures |posts| > 0 ==> rows[|posts| - 1].layout == WithSigil
    ensures |posts| > 0 ==> rows[|posts| - 1].dayBreak.None?
    // A post is compact exactly when the post after it has the same author
    // and it is not post number 1.
    ensures forall i :: 0 <= i < |posts| - 1 ==>
      (rows[i].layout == WithoutSigil <==> posts[i].author == posts[i + 1].author && posts[i].number != 1)
    // A divider goes between two neighbours on different days of the month,
    // except below the last-read position.
    ensures forall i :: 0 <= i < |posts| - 1 ==>
      (rows[i].dayBreak.Some? <==>
        dayOfMonth(posts[i].timeSent) != dayOfMonth(posts[i + 1].timeSent) && !IsLastRead(lastRead, i))
    // At most one unread marker, on the last-read position.
    ensures forall i :: 0 <= i < |posts| ==> (rows[i].unreadMarker <==> IsLastRead(lastRead, i))
  {
    seq(|posts|, i requires 0 <= i < |posts| =>
      RenderRow(posts[i], NextOf(posts, i), IsLastRead(lastRead, i), dayOfMonth, contacts))
  }

  /**
   * Every run of compact rows is closed by a header of the same author: from
   * any position, following the list, a header row is reached before the
   * author changes.
   */
  lemma {:induction false} EveryRunEndsInHeader(posts: seq<Post>, lastRead: Option<nat>,
                                                dayOfMonth: int -> int, contacts: map<string, Contact>, i: nat)
    requires i < |posts|
    ensures var rows := RenderList(posts, lastRead, dayOfMonth, contacts);
      exists j :: i <= j < |posts| && rows[j].layout == WithSigil &&
        forall k :: i <= k <= j ==> posts[k].author == posts[i].author
    decreases |posts| - i
  {
    var rows := RenderList(posts, lastRead, dayOfMonth, contacts);
    if rows[i].layout == WithSigil {
      assert forall k :: i <= k <= i ==> posts[k].author == posts[i].author;
    } else {
      assert posts[i + 1].author == posts[i].author;
      EveryRunEndsInHeader(posts, lastRead, dayOfMonth, contacts, i + 1);
      var j :| i + 1 <= j < |posts| && rows[j].layout == WithSigil &&
        forall k :: i + 1 <= k <= j ==> posts[k].author == posts[i + 1].author;
      assert forall k :: i <= k <= j ==> posts[k].author == posts[i].author;
    }
  }

  /**
   * The list is taken newest first, as the chat window shows it bottom up:
   * position `i + 1` is the post shown above position `i`, the earlier one.
   * For [B#4, A#3, A#2, A#1] the run of A's gets its header on its earliest
   * post, #1, at the top of the run; #3 and #2 below it are compact, and B#4
   * has a header because A precedes it.
   */
  lemma RunExample(a: string, b: string, t: int, dayOfMonth: int -> int, contacts: map<string, Contact>)
    requires a != b
    ensures var rows := RenderList([Post(b, 4, t, []), Post(a, 3, t, []), Post(a, 2, t, []), Post(a, 1, t, [])],
                                   None, dayOfMonth, contacts);
      |rows| == 4 && rows[0].layout == WithSigil && rows[1].layout == WithoutSigil &&
      rows[2].layout == WithoutSigil && rows[3].layout == WithSigil
  {
  }

  /**
   * Three posts of one day, newest first: [B#3, A#2, A#1] renders a header
   * for B#3 (A precedes it), a compact row for A#2 (A#1 precedes it) and a
   * header for A#1, with no divider.
   */
  lemma ThreePostExample(a: string, b: string, t: int, dayOfMonth: int -> int, contacts: map<string, Contact>)
    requires a != b
    ensures var rows := RenderList([Post(b, 3, t, []), Post(a, 2, t, []), Post(a, 1, t, [])],
                                   None, dayOfMonth, contacts);
      |rows| == 3 && rows[0].layout == WithSigil && rows[1].layout == WithoutSigil &&
      rows[2].layout == WithSigil && rows[0].dayBreak.None? && rows[1].dayBreak.None?
  {
  }

  /**
   * Newest first, the divider drawn above a row sits at the change of day:
   * for [later, earlier] on different days of the month it goes above the
   * later post, showing the later post's date, and none goes above the
   * earlier one.
   */
  lemma DayChangeExample(a: string, later: int, earlier: int, dayOfMonth: int -> int, contacts: map<string, Contact>)
    requires dayOfMonth(later) != dayOfMonth(earlier)
    ensures var rows := RenderList([Post(a, 2, later, []), Post(a, 1, earlier, [])], None, dayOfMonth, contacts);
      |rows| == 2 && rows[0].dayBreak == Some(Timestamp(later, DatestampFormat)) && rows[1].dayBreak.None?
  {
  }
}
