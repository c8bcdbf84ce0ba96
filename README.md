# Chat message row: a verified model

This project models the decision logic of the chat message component of the
Urbit web interface (`pkg/interface/src/views/apps/chat/components/ChatMessage.tsx`):

- **Row layout** (`ChatMessage.render`, module `ChatMessageRow`): whether a
  post is drawn with its author header (`MessageWithSigil`) or as a compact
  continuation row (`MessageWithoutSigil`), which timestamp format the row
  uses, whether a day-break divider goes above the post and whether the
  "New messages below" marker goes below it. A list-level function renders a
  whole list of posts, the post after position `i` being position `i + 1`.
- **Content dispatch** (`MessageContent`, module `MessageContent`): each
  content fragment goes to the code, remote-content, rich-text or mention
  renderer according to the first of the keys `code`, `url`, `text`,
  `mention` it has, or to nothing.
- **Loading placeholder** (`MessagePlaceholder`, module `MessagePlaceholder`):
  the visibility of the avatar and header skeletons and the widths of the
  two bars, as integer functions of the row index, with JavaScript's
  truncating `%` written out.
- **Author header state** (`MessageWithSigil`, module `NameLabel`): the name
  label, which shows "Copied" after a click until an 800 ms timer restores
  the name, and the profile overlay toggled by the avatar. The state cells
  are a class whose click and timer handlers are proved against a step
  function; the invariants and the reverting behaviour are proved about that
  function.

Library code whose results the component only consumes is a parameter:
`dayOfMonth: int -> int` stands for `new Date(t).getDate()` (which depends
on the host's time zone), and `cite: string -> string` for the ship-name
shortener. The clipboard write is the value returned by `ClickName`.

Which post is `nextMsg` is decided by the caller, not by this component. The
model takes a list whose position `i + 1` is the post drawn above position
`i`, i.e. the earlier one (newest first). That is the order in which the
component's own layout fits together: the day-break divider is drawn above
a row with the row's own date when the next post is on another day, and the
unread marker under the last-read row reads "New messages below". In that
order a run of posts by one author gets its header on its earliest post, at
the top of the run (`RunExample`, `ThreePostExample`), and the divider lands
at the change of day (`DayChangeExample`).

Two behaviours of the code worth stating plainly:

- The day break compares the day of the month only (`getDate`), so two
  posts on the same day of different months get no divider
  (`SameDayOfMonthNoBreak`).
- A second click on the name while "Copied" is shown does not restart the
  800 ms timer: the timer is an effect keyed on `displayName`, which the
  second click does not change (`ClickNameIdempotent`).

## Model

| member | source | states |
|---|---|---|
| `ChatMessageRow.RenderRow` | pkg/interface/src/views/apps/chat/components/ChatMessage.tsx:126-185 | header for the last post and for post number 1; compact exactly when a next post by the same author exists and the number is not 1; format `h:mm A` with a header, `h:mm` otherwise; divider exactly when a next post is on another day of the month and the row is not last-read, never on the last post; unread marker exactly on the last-read row; fragments rendered in order |
| `ChatMessageRow.MarkerAndLayoutIgnoreDays` | pkg/interface/src/views/apps/chat/components/ChatMessage.tsx:126-185 | layout, timestamp and unread marker are the same whatever the days of the month, so the marker does not depend on the day break |
| `ChatMessageRow.SameDayOfMonthNoBreak` | pkg/interface/src/views/apps/chat/components/ChatMessage.tsx:129-132 | posts on the same day of the month get no divider, whatever their month |
| `ChatMessageRow.RenderList` | pkg/interface/src/views/apps/chat/components/ChatMessage.tsx:126-185 | over a list: the last row always has a header and no divider; row `i` is compact exactly when post `i + 1` has the same author and post `i` is not number 1; divider between neighbours on different days except on the last-read row; the unread marker only on the last-read position |
| `ChatMessageRow.EveryRunEndsInHeader` | pkg/interface/src/views/apps/chat/components/ChatMessage.tsx:126-128 | from every position a header row of the same author is reached before the author changes, so no compact row is left without its author's header |
| `ChatMessageRow.RunExample` | pkg/interface/src/views/apps/chat/components/ChatMessage.tsx:126-128 | newest first, `[B#4, A#3, A#2, A#1]` renders header, compact, compact, header: a run's header is on its earliest post |
| `ChatMessageRow.ThreePostExample` | pkg/interface/src/views/apps/chat/components/ChatMessage.tsx:126-132 | newest first, `[B#3, A#2, A#1]` on one day renders header, compact, header and no divider |
| `ChatMessageRow.DayChangeExample` | pkg/interface/src/views/apps/chat/components/ChatMessage.tsx:129-171 | newest first, two posts on different days of the month: the divider goes on the later post with its date, none on the earlier |
| `MessageContent.Dispatch` | pkg/interface/src/views/apps/chat/components/ChatMessage.tsx:403-461 | code renderer exactly when `code` is present; remote content exactly when `url` is the first present; rich text exactly when `text` is; mention exactly when `mention` is, with the contact stored for that ship if any; nothing exactly when no key is present |
| `MessageContent.DispatchPicksFirstPresentKey` | pkg/interface/src/views/apps/chat/components/ChatMessage.tsx:403-461 | the renderer is that of the first present key in the order code, url, text, mention, and none when no key is present |
| `MessageContent.SingleKeyFragment` | pkg/interface/src/views/apps/chat/components/ChatMessage.tsx:403-461 | a fragment with exactly one key goes to that key's renderer |
| `MessageContent.LowerKeysIgnored` | pkg/interface/src/views/apps/chat/components/ChatMessage.tsx:403-461 | keys after the first present one never change the renderer chosen |
| `MessageContent.RenderContents` | pkg/interface/src/views/apps/chat/components/ChatMessage.tsx:330-343 | one rendering per fragment, each the dispatch of the fragment at the same position |
| `MessagePlaceholder.JsRemainder` | pkg/interface/src/views/apps/chat/components/ChatMessage.tsx:537 | JavaScript remainder: strictly between `-n` and `n`, equal to the Euclidean one for non-negative indices, never positive for negative ones |
| `MessagePlaceholder.ShortBarEm` | pkg/interface/src/views/apps/chat/components/ChatMessage.tsx:537 | short bar width in {3, 6, 9} em for every index of the list; in {-3, 0, 3, 6, 9} for any integer |
| `MessagePlaceholder.LongBarPercent` | pkg/interface/src/views/apps/chat/components/ChatMessage.tsx:561 | body bar width in {0, 20, 40, 60, 80} % for every index of the list; a multiple of 20 between -80 and 80 for any integer |
| `MessagePlaceholder.Placeholder` | pkg/interface/src/views/apps/chat/components/ChatMessage.tsx:464-565 | avatar and header skeletons visible together, exactly when 5 divides the index; both bar widths in range; a visible header goes with an empty body bar |
| `MessagePlaceholder.JsRemainderCongruent` | pkg/interface/src/views/apps/chat/components/ChatMessage.tsx:537-561 | the JavaScript remainder by 3 and by 5 differs from the index by a multiple of the modulus, so with the bounds it is the truncated remainder |
| `MessagePlaceholder.VisibleIffDivisible` | pkg/interface/src/views/apps/chat/components/ChatMessage.tsx:496 | the truncating test `index % 5 == 0` holds exactly when 5 divides the index, negative indices included |
| `MessagePlaceholder.PlaceholderPeriodic` | pkg/interface/src/views/apps/chat/components/ChatMessage.tsx:496-561 | the placeholder of row `i + 15` is that of row `i` |
| `MessagePlaceholder.PlaceholderWidthsCover` | pkg/interface/src/views/apps/chat/components/ChatMessage.tsx:537-561 | any fifteen consecutive rows show every short-bar width and every body-bar width |
| `NameLabel.Initial` | pkg/interface/src/views/apps/chat/components/ChatMessage.tsx:242-263 | first render: the ship name, monospace exactly when it is not a nickname, overlay closed, the effect's first timer pending |
| `NameLabel.StepConsistent` | pkg/interface/src/views/apps/chat/components/ChatMessage.tsx:242-263 | every event keeps the label at rest or showing the notice, with a timer pending whenever the ship name is not shown |
| `NameLabel.RunConsistent` | pkg/interface/src/views/apps/chat/components/ChatMessage.tsx:242-263 | every reachable state satisfies that invariant |
| `NameLabel.ClickNameShowsNotice` | pkg/interface/src/views/apps/chat/components/ChatMessage.tsx:251-254 | a name click gives `Copied`, not monospace, overlay unchanged, and a timer pending to revert it |
| `NameLabel.ClickNameIdempotent` | pkg/interface/src/views/apps/chat/components/ChatMessage.tsx:251-263 | a second name click changes nothing, not even the pending timer |
| `NameLabel.TimerFireRestores` | pkg/interface/src/views/apps/chat/components/ChatMessage.tsx:256-263 | from every reachable state a timer fire restores the ship name and its font, overlay unchanged |
| `NameLabel.TimerFireIdempotent` | pkg/interface/src/views/apps/chat/components/ChatMessage.tsx:256-263 | a second fire leaves label, font and overlay as the first left them |
| `NameLabel.ClickAvatarTogglesOverlay` | pkg/interface/src/views/apps/chat/components/ChatMessage.tsx:247-249 | an avatar click flips the overlay and nothing else; two clicks restore the state |
| `NameLabel.NoticeAlwaysReverts` | pkg/interface/src/views/apps/chat/components/ChatMessage.tsx:256-263 | after any history, once the timer fires the label shows the ship name in its font again |
| `NameLabel.AuthorLabel.constructor` | pkg/interface/src/views/apps/chat/components/ChatMessage.tsx:227-245 | the cells start in the initial state with the resolved ship name of line 230 (the nickname when it is to be shown, else the shortened ship name), the name the revert lemmas restore |
| `NameLabel.AuthorLabel.ClickName` | pkg/interface/src/views/apps/chat/components/ChatMessage.tsx:314-317 | copies `~author` and moves the cells by the click step, restarting the timer only when the label changed |
| `NameLabel.AuthorLabel.ClickAvatar` | pkg/interface/src/views/apps/chat/components/ChatMessage.tsx:247-249 | moves the cells by the avatar step; both the avatar's click (line 289) and the overlay's dismissal (line 299) call this toggle |
| `NameLabel.AuthorLabel.TimerFire` | pkg/interface/src/views/apps/chat/components/ChatMessage.tsx:256-263 | moves the cells by the timer step and leaves the label at rest |

## Left out

- Formatting by moment.js (`h:mm A`, `calendar()` with the datestamp format): the model records the timestamp and the format string chosen, not the text produced.
- `Date#getDate` and time zones: the day of the month is the parameter `dayOfMonth`.
- `cite`, `useShowNickname`, `uxToHex`, `useLocalState` (dark theme), `useHovering`, the `Sigil` and `OverlaySigil` components: not part of this model; the nickname flag, the nickname and the shortening function are inputs.
- The contact lookup of the header (`contacts` keyed by `~` followed by the author): not modelled; `NameLabel.ShipName` and the `AuthorLabel` constructor take the nickname as given.
- Which post the caller passes as `nextMsg`: the list model assumes position `i + 1` is the post drawn above, the earlier one.
- Avatar choice (contact image or generated sigil), colours, blend classes, font weights, the pending-message opacity class and other styling: presentation only.
- What `CodeContent`, `TextContent`, `RemoteContent` and `Mention` draw: the model records which one is chosen, with the props taken from the fragment and, for a mention, its contact.
- The context props passed to the renderers: `associations`, `groups`, `api`, `fontSize` and `lineHeight` for rich text, `group` and `scrollWindow` for a mention, the `measure` callback and styling props for remote content; they do not depend on the fragment.
- `componentDidMount` and `measure` calls, refs and the unread-marker ref: DOM work.
- The real-time behaviour of `setTimeout` / `clearTimeout`: a pending timer is a flag and its expiry the event `TimerFire`; the cancellation on unmount is not modelled, since nothing of the header is left after it.
- Changes of `shipName` or of the nickname flag between renders: both are fixed when the header is created.
- `MessagePlaceholder.PlaceholderPeriodic`, `MessagePlaceholder.PlaceholderWidthsCover`: stated for non-negative indices only, the indices of a list.
- `NameLabel.TimerFireRestores`, `NameLabel.NoticeAlwaysReverts`: assume the shown name is not the monospace word `Copied`; with such a name, once the first timer has fired, a click leaves the label in the proportional font with no timer pending.
