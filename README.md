# Channel message view of py_slack_term, modelled in Dafny

This project models the message pane of the py_slack_term terminal Slack
client (`py_slack_term/lib/UI/widgets/channel_messages.py`). The pane has four
pieces of logic:

- **Line formatting** (`ChannelMessages.display_value`). The leftmost user
  mention `<@ID>` in a message is found with the pattern `<@[A-Z0-9]+>`. Its
  decorations are stripped to get the user id. Every copy of that exact token
  is replaced by `@` and the user's name. The line is then `"{user}: {text}"`.
  A value that is not a message is shown as its string form.
- **Viewport update** (`ChannelMessages.update`). The scroll offset
  `start_display_at` is clamped. The row widgets are filled with consecutive
  wrapped lines from the offset. The last row becomes the "more" marker when
  lines remain below the window.
- **Box title** (`BoxedChannelMessages.set_channel`). The title is
  `Messages | name`, then the topic (or else the purpose) in parentheses, then
  `[PRIVATE]` for a private channel.
- **Typing footer** (`BoxedChannelMessages.typing_user_event`). No footer, one
  name, two or three names joined with commas and "and", or "Multiple people
  are typing...".

Files:

- `options.dfy`: the `Option` type.
- `strings.dfy`: models of Python's `str.replace`, `replace(c, '')` and
  `sep.join`, with their laws.
- `message_format.dfy`: the mention pattern, `re.search`, `display_value`.
- `message_pager.dfy`: the clamp, the row fill, and the class
  `ChannelMessages` with its `Update` method.
- `message_box.dfy`: the title, the footer, and the class
  `BoxedChannelMessages` with `SetChannel` and `TypingUserEvent`.

Three behaviours of the code to note:

- The code replaces every copy of the leftmost mention token, because
  Python's `str.replace` replaces them all. It does not replace only the first
  copy. A different mention token is never replaced (`ReplaceAroundOtherToken`).
- The code has no fallback when the user id of a mention is unknown.
  `users.get(id)` returns `None` and `.get_name()` then fails. The model makes
  "the id is known" a precondition (`MentionsKnown`). It does not substitute the
  raw id.
- In the typing footer, one failed name lookup empties the whole list. The
  model does not drop only that user (`LookupFailureClearsFooter`).

Foreign values are modelled as inputs:

- The user directory `client.users` is a `map` from user id to display name. A
  missing key stands for a failing lookup.
- The channel's typing-users dictionary is changed in place by the client while
  the channel is bound. Its keys at the moment of each event are the `typing`
  argument of `TypingUserEvent`, so every tick reads the live dictionary.
- The `users` argument of `TypingUserEvent` is a second `map`, from those keys
  to what `u.get_name()` returns for each.
  A missing key stands for a `get_name()` call that raises.
- `Message.to_format_dict()` becomes the record `Message(user, text)`. A text
  of `None` prints as `None`, as `str(None)` does.
- A channel's topic and purpose dictionaries are `map<string, string>`. An empty
  map stands for a missing or empty dictionary; both are false in a condition.
- The wrapped lines that `setValuesWrap` produces are the argument of `Update`.
- The library's `_print_line(row, k)` is `RowFor`. It shows the line at `k`
  passed through `display_value`, which for a plain string is the string
  itself. A row past the end is blank.
- The library's `MORE_LABEL` is the `More` row.

## Model

| member | source | states |
|---|---|---|
| `MessageFormat.IsMentionToken` | py_slack_term/lib/UI/widgets/channel_messages.py:13 | definition of the strings the pattern `<@[A-Z0-9]+>` matches as a whole: `<@`, one or more of `A`-`Z` and `0`-`9`, then `>` |
| `MessageFormat.IdRun` | py_slack_term/lib/UI/widgets/channel_messages.py:13 | the greedy `[A-Z0-9]+` run from a position: it stays inside the text, every character in it is an id character, and the character right after it is not |
| `MessageFormat.MatchAt` | py_slack_term/lib/UI/widgets/channel_messages.py:13 | a match reported at index i is a complete `<@[A-Z0-9]+>` token lying inside the text |
| `MessageFormat.MatchAtComplete` | py_slack_term/lib/UI/widgets/channel_messages.py:13 | conversely, every mention token in the text is reported at its start with its exact length, so a match at a position is unique |
| `MessageFormat.FirstMention` | py_slack_term/lib/UI/widgets/channel_messages.py:24 | `re.search`: the match returned is a real match, and no match starts earlier; when nothing is returned, no position of the text starts a match |
| `MessageFormat.LeftmostFound` | py_slack_term/lib/UI/widgets/channel_messages.py:24 | when no match starts before a token in the text, the search reports exactly that token's position and length |
| `MessageFormat.StripMention` | py_slack_term/lib/UI/widgets/channel_messages.py:27 | deleting every `<`, `@` and `>` from a mention token leaves exactly the id between `<@` and `>` |
| `Strings.Without` | py_slack_term/lib/UI/widgets/channel_messages.py:27 | `replace(c, '')` leaves no `c`, is never longer, and changes nothing when `c` is absent; which characters survive and in what order is stated by the laws below |
| `Strings.WithoutCounts` | py_slack_term/lib/UI/widgets/channel_messages.py:27 | every character other than `c` is kept exactly as many times as it occurs, and `c` not at all |
| `Strings.WithoutSingle` | py_slack_term/lib/UI/widgets/channel_messages.py:27 | one character is deleted when it is `c` and kept otherwise |
| `Strings.WithoutDropHead` | py_slack_term/lib/UI/widgets/channel_messages.py:27 | a leading `c` disappears and the rest is treated alone |
| `Strings.WithoutConcat` | py_slack_term/lib/UI/widgets/channel_messages.py:27 | deleting a character distributes over concatenation |
| `MessageFormat.MentionedId` | py_slack_term/lib/UI/widgets/channel_messages.py:27 | the user id: the token with every `<`, then every `@`, then every `>` deleted (its value on a mention token is stated by `StripMention`) |
| `MessageFormat.TextOf` | py_slack_term/lib/UI/widgets/channel_messages.py:22 | definition of `str(text)` (a string is itself, `None` is the string `None`); what is proved about the line built from it is stated by `DisplayValue` and `DisplayOfLeftmost` |
| `MessageFormat.MentionsKnown` | py_slack_term/lib/UI/widgets/channel_messages.py:24-30 | the condition under which line 30 does not fail: a message whose leftmost mention names an id missing from the user directory is excluded; other values and mention-free texts always qualify |
| `MessageFormat.DisplayValue` | py_slack_term/lib/UI/widgets/channel_messages.py:19-37 | a non-message is shown as its string form with no template; a message whose text contains no mention is exactly `user + ": " + text` |
| `MessageFormat.LeftmostToken` | py_slack_term/lib/UI/widgets/channel_messages.py:24-25 | the token `re.search` picks out, when there is one, is a complete mention token |
| `MessageFormat.DisplayOfLeftmost` | py_slack_term/lib/UI/widgets/channel_messages.py:24-31 | with `token` the leftmost mention and its id known, the line is the author, `": "` and the whole text with every copy of that token replaced by `@` and the looked-up name |
| `MessageFormat.DisplayResolvesLeftmost` | py_slack_term/lib/UI/widgets/channel_messages.py:24-31 | with the leftmost mention token in the text, the line is the author, `": "`, the text before the token unchanged, `@` and the name looked up for the stripped id, then the rest with every further copy of that token replaced |
| `MessageFormat.ReplaceAroundToken` | py_slack_term/lib/UI/widgets/channel_messages.py:29-30 | replacing a mention token in `a + token + b` replaces that copy and treats `a` and `b` independently |
| `MessageFormat.ReplaceAroundOtherToken` | py_slack_term/lib/UI/widgets/channel_messages.py:29-30 | a different mention token is left unchanged, whatever surrounds it |
| `MessageFormat.OtherTokenAbsent` | py_slack_term/lib/UI/widgets/channel_messages.py:29-30 | one mention token never occurs inside a different one |
| `Strings.ReplaceAll` | py_slack_term/lib/UI/widgets/channel_messages.py:29-30 | `str.replace`: scans left to right and replaces each non-overlapping copy of the target; its laws are the rows that follow |
| `MessageFormat.NoMatchNoToken` | py_slack_term/lib/UI/widgets/channel_messages.py:24-30 | the text before the leftmost match contains no copy of the token, so replacement leaves it unchanged |
| `Strings.ReplaceAbsent` | py_slack_term/lib/UI/widgets/channel_messages.py:29-30 | `str.replace` of a string that does not occur changes nothing |
| `Strings.ReplaceSplit` | py_slack_term/lib/UI/widgets/channel_messages.py:29-30 | when no occurrence spans the boundary, replacing in `x + y` is replacing in `x` and in `y` separately |
| `MessagePager.Clamp` | py_slack_term/lib/UI/widgets/channel_messages.py:59-62 | the clamped offset lies in `[0, max(0, values_len - display_length)]`; an offset already in range is unchanged; one above goes to the top of the range and one below goes to 0 |
| `MessagePager.MaxOffset` | py_slack_term/lib/UI/widgets/channel_messages.py:59-60 | with a buffer at least as long as the viewport, the viewport starting at this offset still fits inside the buffer; with a shorter buffer the offset is 0 |
| `MessagePager.MaxOffsetLargest` | py_slack_term/lib/UI/widgets/channel_messages.py:59-60 | every offset whose viewport fits inside the buffer is at most `MaxOffset`, so it is the largest such offset |
| `MessagePager.ClampIdempotent` | py_slack_term/lib/UI/widgets/channel_messages.py:59-62 | clamping twice equals clamping once |
| `MessagePager.ClampNearest` | py_slack_term/lib/UI/widgets/channel_messages.py:59-62 | the clamped offset is the valid offset nearest to the requested one |
| `MessagePager.RowFor` | py_slack_term/lib/UI/widgets/channel_messages.py:64-73 | definition of what `_print_line` puts in a row (the line at its index inside the buffer, blank past the end); the rows of a whole window are stated by `WindowRows` |
| `MessagePager.Window` | py_slack_term/lib/UI/widgets/channel_messages.py:64-77 | the window has exactly one row per row widget |
| `MessagePager.WindowRows` | py_slack_term/lib/UI/widgets/channel_messages.py:64-77 | row i below the last shows line `start + i` (or is blank past the end); the last row is the marker when `values_len > start + display_length` and line `start + display_length - 1` otherwise |
| `MessagePager.MoreExactlyWhenHidden` | py_slack_term/lib/UI/widgets/channel_messages.py:70-77 | the last row is the marker if and only if lines exist beyond the window |
| `MessagePager.WindowTexts` | py_slack_term/lib/UI/widgets/channel_messages.py:64-77 | the lines shown, top to bottom, are exactly the consecutive slice of the buffer starting at the offset: no gaps, no reordering |
| `MessagePager.WindowEntryCount` | py_slack_term/lib/UI/widgets/channel_messages.py:56-77 | with a clamped offset, the lines shown plus the marker number `min(display_length, values_len - start)` |
| `MessagePager.ChannelMessages.constructor` | py_slack_term/lib/UI/widgets/channel_messages.py:15-17 | a new pager has no lines, offset 0, the given number of row widgets, all blank, and satisfies the viewport invariant `Valid` (offset in range, and rows equal to the window whenever there is a row widget) |
| `MessagePager.ChannelMessages.Update` | py_slack_term/lib/UI/widgets/channel_messages.py:56-77 | after `update` the lines are the wrapped input and the offset is the clamp of the old offset (so it is in range); with at least one row widget it succeeds and the rows are exactly the window at that offset; with none it fails at the last-widget lookup with the rows untouched; either way the viewport invariant `Valid` holds afterwards |
| `MessageBox.Title` | py_slack_term/lib/UI/widgets/channel_messages.py:117-131 | the title always starts with the fixed `Messages` prefix, a bar and the channel name, and is exactly that when there is neither a shown topic nor the private flag |
| `MessageBox.Get` | py_slack_term/lib/UI/widgets/channel_messages.py:120-122 | definition of `d.get(key)`: the value when the key is present, nothing otherwise |
| `MessageBox.ChosenTopic` | py_slack_term/lib/UI/widgets/channel_messages.py:119-124 | the topic dictionary's `value` when the topic is truthy, otherwise the purpose dictionary's `value` when that is truthy, otherwise nothing |
| `MessageBox.ShowsTopic` | py_slack_term/lib/UI/widgets/channel_messages.py:125 | a chosen value is shown only when it is present and non-empty |
| `MessageBox.TitleTopicPart` | py_slack_term/lib/UI/widgets/channel_messages.py:117-126 | without the private flag, the title gains `" (" + topic + ")"` exactly when the chosen topic value is non-empty |
| `MessageBox.TopicShadowsPurpose` | py_slack_term/lib/UI/widgets/channel_messages.py:119-124 | when the channel has a topic, its purpose has no effect on the title |
| `MessageBox.PurposeFallback` | py_slack_term/lib/UI/widgets/channel_messages.py:119-126 | with no topic and a non-empty purpose `value`, a non-private title is the fixed prefix and channel name followed by `" (" + purpose + ")"` |
| `MessageBox.EmptyTopicHidesPurpose` | py_slack_term/lib/UI/widgets/channel_messages.py:119-126 | a topic dictionary with no or an empty `value` shows no topic, and does not fall back to the purpose |
| `MessageBox.PrivateSuffix` | py_slack_term/lib/UI/widgets/channel_messages.py:128-129 | the private flag changes the title only by appending `" [PRIVATE]"` |
| `MessageBox.BoxedChannelMessages.constructor` | py_slack_term/lib/UI/widgets/channel_messages.py:97-100 | a new box is titled `Messages`, has no current channel and no footer |
| `MessageBox.BoxedChannelMessages.SetChannel` | py_slack_term/lib/UI/widgets/channel_messages.py:110-131 | given a channel, `set_channel` binds it, sets the box name to its title and succeeds; given `None` it fails with channel and name unchanged; the footer is never touched |
| `MessageBox.NamesOf` | py_slack_term/lib/UI/widgets/channel_messages.py:136-138 | the names are produced in key order, one per typing user, exactly when every lookup succeeds; otherwise nothing is produced |
| `MessageBox.TypingNames` | py_slack_term/lib/UI/widgets/channel_messages.py:135-138 | with the typing keys of this tick: no current channel or any failed lookup gives the empty list; otherwise the list has each typing user's name, in key order |
| `MessageBox.Footer` | py_slack_term/lib/UI/widgets/channel_messages.py:140-147 | there is no footer exactly when there are no names; one name gives `"<n> is typing..."`; four or more give `"Multiple people are typing..."` |
| `MessageBox.FooterTwo` | py_slack_term/lib/UI/widgets/channel_messages.py:144-145 | two names give `"a and b are typing..."` |
| `MessageBox.FooterThree` | py_slack_term/lib/UI/widgets/channel_messages.py:144-145 | three names give `"a, b and c are typing..."` |
| `Strings.JoinSnoc` | py_slack_term/lib/UI/widgets/channel_messages.py:145 | joining one more part appends the separator and that part |
| `Strings.Join` | py_slack_term/lib/UI/widgets/channel_messages.py:145 | `sep.join`: no parts give the empty string, one part gives that part, and the result starts with the first part; with `JoinSnoc` this fixes the join of any number of parts |
| `MessageBox.LookupFailureClearsFooter` | py_slack_term/lib/UI/widgets/channel_messages.py:135-141 | one typing user whose name cannot be looked up clears the whole footer |
| `MessageBox.BoxedChannelMessages.TypingUserEvent` | py_slack_term/lib/UI/widgets/channel_messages.py:134-147 | the footer becomes the footer of the names of the typing keys read at this tick from the current channel; the title and the channel are unchanged |

## Left out

- Terminal drawing is not modelled: the row widgets' `update` calls, the first-row color workaround, `centerValues` and `display()`. They are curses and npyscreen library I/O.
- The highlight and bold flags cleared on the "more" row are display attributes, not row contents, so they are not modelled.
- Text wrapping (`setValuesWrap`) is library code. The wrapped lines are the input of `Update`.
- The library's `_print_line` is modelled only as far as what a row shows (`RowFor`).
- The key handlers in `set_up_handlers` are UI dispatch and are not modelled.
- The `buffer` and `clear_buffer` pass-through wrappers only forward to the library, so they are not modelled.
- Starting and stopping the `TypingUserWatchdogThread` is background-thread concurrency. The model calls `TypingUserEvent` directly.
- `destroy` only stops that thread and calls the library, so it is not modelled.
- `Message.to_format_dict`, the `client.users` lookup and `Channel` construction are foreign API objects. They are modelled as the `Message` and `Channel` records and a name map.
- `SetChannel`: given `None`, line 114 skips the bind and line 117 then raises `AttributeError` on `ch.name`. The model returns `ok == false` with nothing changed; the guard on line 114 therefore never prevents the failure.
- `ChannelMessages.Update`: with no row widget, line 70 raises `IndexError` after the clamps. The model returns `ok == false` with the lines and offset updated and the rows untouched; the exception itself is not modelled.
- A message whose format dictionary has no `'text'` key at all prints `None` at line 22 but then raises `KeyError` in `format` at line 31. The model only has a text of `None`, not a missing key.
- `str(vl)` of an arbitrary object is taken as that value's given string form.
- Scrolling, appending and the base classes `BufferPager` and `BoxTitle` belong to npyscreen. They are not part of this model.
