# Stanford dining-hall menu bot — a Dafny model of its decision logic

The bot (`main.py`) scrapes the Stanford dining-hall menu page with a headless
browser and answers Telegram commands with the lunch menus of three dining
halls. Users can `/subscribe` to a push sent every day at 09:00 Pacific time.
Almost all of `main.py` is I/O. This project lifts out the pure rules buried in
its handlers and states exactly what each one does:

- **Subscription store** (`store.dfy`). `/subscribe` and `/unsubscribe` act on
  the contents of `subscriptions.json`. The contents are an insertion-ordered
  map from user id to `true`. Each handler also picks one of two replies.
- **Daily fire time** (`schedule.dfy`). This is one iteration of
  `schedule_daily_menu`: the next 09:00:00.000 and the sleep until then.
- **Message formatting** (`format.dfy`). This covers the menu header, the item
  names joined by line breaks, the older one-line-per-item variant, and the
  dining-hall list.
- **Dispatch and conversation state** (`bot.dfy`). This covers
  `process_telegram_message`, the seven registered handlers, the per-user
  `awaiting_dininghall` flag, and the subscriber-major fan-out of
  `send_daily_menu`.
- **Menu extraction** (`menus.dfy`). This is the item loop of `get_menu` over
  already-located item blocks, plus the location filter of
  `get_available_dining_halls`.

Supporting modules:

- `options.dfy` holds `Option`.
- `seqs.dfy` holds sequence helpers.
- `dicts.dfy` models Python's insertion-ordered `dict`. The subscription file
  and a parsed menu are both such dicts.
- `text.dfy` models `str.strip`, `str.replace(old, '')`, `str.lower` on
  command words, and `str.join`. It also defines `str.split` on line breaks.
  The bot never splits text; `Split` only serves to state the line-by-line
  lemmas about the messages.

Conventions of the model:

- Time is an integer number of microseconds since local midnight of a fixed
  day, and every day has 86400 seconds.
- Date strings are opaque.
- A menu fetch is a function value `Fetch` supplied by the caller.
- The location selector's options are an input, `None` when the page fails.
- Sending a message is modelled as returning it in an output sequence, in send
  order.
- Chat and user ids are strings (`str(update.effective_user.id)` in the source).

Notable behaviour of the code, which the model keeps:

- The `awaiting_dininghall` flag is cleared only by a valid hall choice. No
  other command clears it, and `/dininghalls` with an empty list leaves it as
  it was.
- A malformed subscriptions file is not treated as empty. Only a missing file
  is.
- Delivery failures are not isolated per subscriber.

## Model

| member | source | states |
|---|---|---|
| Store.Subscribe | main.py:278-290 | An id already present leaves the store unchanged, including its order, and picks "already subscribed". A new id is stored with `true` behind all earlier ids and picks "successfully subscribed". No other id is added, removed or changed, and the size grows by one exactly for a new id. |
| Store.Unsubscribe | main.py:292-304 | A present id is removed, "successfully unsubscribed" is picked, and the other ids keep their values and their order. An absent id leaves the store unchanged and picks "not currently subscribed". The size drops by one exactly for a present id. |
| Store.NoSubscriptions | main.py:267-272 | A missing subscriptions file loads as an empty store. |
| Store.SubscribeText | main.py:283-287 | The reply is "You are already subscribed to daily menu updates." exactly for an existing id and "You have successfully subscribed to daily menu updates." exactly for a new one, so the two cases can be told apart. |
| Store.UnsubscribeText | main.py:299-301 | The reply is "You have successfully unsubscribed from daily menu updates." exactly after a removal and "You are not currently subscribed to daily menu updates." exactly when the id was absent. |
| Store.SubscribeIdempotent | main.py:282-287 | Subscribing twice leaves the store as one subscription did. The second call replies "already subscribed". |
| Store.SubscribeThenUnsubscribe | main.py:278-304 | Subscribing a fresh id and then unsubscribing it gives back the original store, key order included, with the "unsubscribed" reply. |
| Store.UnsubscribeThenSubscribe | main.py:278-304 | Unsubscribing a subscribed id and subscribing it again restores the stored map. The second call replies "successfully subscribed". |
| Store.HandlersKeepMarkers | main.py:285 | Neither handler ever stores a value other than `true`. |
| Schedule.NextRun | main.py:329-332 | The next run is strictly after `now` and at most one day later. It always falls at 09:00:00.000 of the current or the following day. |
| Schedule.SleepMicros | main.py:334 | The sleep is positive, at most one day, and ends exactly at 09:00:00.000. |
| Schedule.NextRunIsEarliest | main.py:329-332 | No 09:00 instant lies strictly between `now` and the next run, so no day is skipped. |
| Schedule.NextRunToday | main.py:330-332 | The run is today exactly when `now` is before 09:00. At 09:00:00.000 itself the run moves to tomorrow, because the test is `now >= next_run`. |
| Schedule.BoundaryExamples | main.py:330-332 | 08:59 runs at 09:00 the same day. 09:00 sharp and 09:01 both run at 09:00 the next day. |
| Format.MenuMessage | main.py:229-230 | The message starts with the header `Menu for *H* on D for M:` and a line break. An empty menu yields exactly the header. |
| Format.MenuMessageLines | main.py:317-318 | When no item name, hall, date or meal contains a line break: split into lines, the message is the header line followed by exactly the item names in menu order. An empty menu leaves one empty line. Ingredients, allergens and dietary info never appear. |
| Format.LegacyMenuMessage | main.py:113-115 | The `send_menus_for_date` message starts with the same header. With at least one item it ends in a line break. |
| Format.LegacyAddsFinalNewline | main.py:113-115 | The `send_menus_for_date` message equals the joined message plus one final line break. For an empty menu the two are equal. |
| Format.HallListMessage | main.py:380 | The `/dininghalls` reply starts with `Available dining halls:` and an empty line. A single hall gives exactly that plus its one bullet. |
| Format.HallListLines | main.py:380 | When no hall name contains a line break: split into lines, the `/dininghalls` reply is the intro line, an empty line, and then one bulleted line per hall in list order. |
| Text.Strip | main.py:178 | The result has no white space at either end. It is `s` with only white space removed from its two ends. |
| Text.IsSpaceAscii | main.py:178 | The white space `str.strip()` removes is Python's `str.isspace()` set. Below 128 that is exactly tab, line feed, vertical tab, form feed, carriage return, the four separators U+001C to U+001F and the space. No digit or ASCII letter is white space. |
| Text.StripPadded | main.py:184 | Stripping undoes any white-space padding of an already stripped text. |
| Text.StripIdempotent | main.py:184 | Stripping twice is the same as stripping once. |
| Text.RemoveAll | main.py:184 | `str.replace(label, '')` never lengthens the text. |
| Text.RemoveAllAbsent | main.py:184 | Removing a label that does not occur leaves the text unchanged. |
| Text.RemoveAllAtFirst | main.py:184 | Everything before the first occurrence of the label is kept. That occurrence is dropped, and removal resumes right after it. With Text.RemoveAllAbsent this fixes the result for every input. |
| Text.Lower | main.py:72 | `str.lower()` for ASCII letters: the length is kept and each character is lowered on its own, so the result has no capital ASCII letters. |
| Text.LowerEqualsIff | main.py:72 | `text.lower() == word`, for a word with no capitals, holds exactly when the text spells the word with letters differing only in case. |
| Text.Join | main.py:230 | `sep.join(parts)` of no parts is the empty text, and of one part is that part with no separator. |
| Text.JoinEnds | main.py:230 | A join starts with the first part and ends with the last. With two parts or more, the separator directly follows the first part. |
| Text.SplitJoin | main.py:318 | Splitting a join on the same one-character separator gives back exactly the parts, when no part contains the separator. |
| Menus.ItemName | main.py:178 | An item's key is its name text with only white space cut from its two ends, and no white space is left at either end. |
| Menus.ExtractField | main.py:184 | An ingredients or allergens value is trimmed. |
| Menus.ExtractFieldFirstLabel | main.py:184-190 | For any span, split at the first label occurrence of its trimmed text: the value is the text before the label followed by the rest with labels removed, trimmed. |
| Menus.ExtractFieldWithoutLabel | main.py:184-190 | A span whose trimmed text has no label yields that trimmed text. |
| Menus.ExtractItem | main.py:179-197 | The `ingredients` and `allergens` keys exist exactly when their span exists. The ingredients value is its span with `Ingredients:` removed, and the allergens value is its span with `Allergens:` removed, each trimmed before and after. `dietary_info` exists exactly when there is at least one icon and then lists the icon titles in page order. |
| Menus.ExtractMenu | main.py:177-198 | The menu's keys are exactly the blocks' trimmed names, ordered by where each name first appears. Each name holds the details of the last block with that name, so a later duplicate overwrites an earlier one. |
| Menus.LabelledFieldRoundTrip | main.py:182-191 | A span holding the label, white space and a trimmed text without the label, padded with white space, extracts to exactly that text. |
| Menus.RemovalCanReassembleLabel | main.py:184 | Label removal is a single left-to-right pass. Pieces on either side of a removed `Ingredients:` can join into a new one, which stays in the value. |
| Menus.AvailableHalls | main.py:345-353 | A hall is listed exactly when it is an option other than `Select Location`. A page that fails to load gives an empty list. |
| Menus.AvailableHallsKeepsOrder | main.py:350 | The filter distributes over concatenation, so the remaining options keep their page order. |
| Menus.AvailableHallsWithoutPlaceholder | main.py:350 | Without a placeholder option the list is returned unchanged. |
| Dicts.Put | main.py:285 | `d[k] = v` stores `v` under `k` and leaves every other key and its value alone. A present key keeps its position; a new key goes to the end. |
| Dicts.Delete | main.py:297 | `del d[k]` removes `k`, keeps every other key with its value, and keeps the order of the rest. |
| Dicts.AssignAll | main.py:177-179 | Assigning keys in turn into a Python dict gives exactly those keys, ordered by first assignment. Each key holds the value of its last assignment. |
| Bot.ParseLegacyCommand | main.py:72-97 | The start, menu, tomorrow or help branch is taken exactly when the whole text is `/start`, `/menu`, `/tomorrow` or `/help` in any letter case. Any other text falls through to the apology. |
| Bot.ProcessTelegramMessage | main.py:60-100 | A payload without a chat id or text sends nothing. Otherwise every reply goes to the sender's chat. `/menu` gets one legacy menu per hall for today and `/tomorrow` the same for tomorrow. `/start` and `/help` get their fixed texts, and anything else gets the unknown-command reply. |
| Bot.LegacyMenus | main.py:102-116 | One message per configured hall, in list order, each in the `send_menus_for_date` format with meal `Lunch`. |
| Bot.HallMessages | main.py:223-232 | One message per hall, in hall order, each the joined lunch menu of that hall, all to one chat. |
| Bot.Awaiting | main.py:358 | `user_data.get('awaiting_dininghall')`: a user with no stored flag is not waiting, and a stored flag is read as it is, so a stored `false` is not waiting either. |
| Bot.MenuReplyLines | main.py:228-230 | A lunch menu reply, fetched for meal `Lunch`, reads line by line as its header and then the fetched menu's item names in menu order, when the hall, date and names hold no line break. |
| Bot.HandleMessage | main.py:357-373 | With the flag set and a listed hall, the flag is cleared and that hall's lunch menu is the reply. With the flag set and any other text, the flag stays set and "Invalid selection" is the reply. With the flag unset, the unknown-command reply is sent and nothing changes. No other user's flag changes. |
| Bot.ListDiningHalls | main.py:375-387 | With a non-empty hall list, the list is sent and the sender's flag is set. With an empty list, the apology is sent and the flag keeps its value. No other user's flag changes. |
| Bot.HandleEvent | main.py:393-400 | Every reply goes to the event's chat. Another user's flag and subscription never change. Only `/dininghalls` and free text touch the flag, and free text never touches the subscriptions. `/menu` and `/tomorrow` send one message per hall, and every other event sends exactly one. Each command runs its own handler: `/start` and `/help` their fixed texts, `/menu` today's and `/tomorrow` tomorrow's lunch menus, `/dininghalls` the hall listing, `/subscribe` and `/unsubscribe` the store updates with their replies, and free text the hall choice. |
| Bot.ChooseHallConversation | main.py:357-386 | After a non-empty `/dininghalls`, naming a listed hall gets its menu and ends the exchange. The same text sent again is an unknown command and changes nothing. |
| Bot.InvalidChoiceKeepsWaiting | main.py:370-371 | An unlisted choice while waiting changes nothing and is answered "Invalid selection", so the user can try again. |
| Bot.DailyMessages | main.py:314-319 | Every daily message goes to a subscriber's chat. |
| Bot.DailyMessagesLength | main.py:314-319 | The daily send produces exactly subscribers × halls messages. |
| Bot.DailyMessageAt | main.py:314-319 | Message `i*|halls|+j` is hall `j`'s lunch menu sent to subscriber `i`, so the order is subscriber-major and then hall order. |
| Bot.DailyMessagesShape | main.py:314-319 | Both facts above hold for all positions at once. |
| Bot.QueueHallMessages | main.py:315-319 | The inner loop appends one lunch menu per hall, in hall order, for one subscriber. |
| Bot.SendDailyMenu | main.py:307-322 | The nested loops send exactly the subscriber-major sequence of lunch menus over the subscribers in file order. The count is the number of subscriptions times the number of halls. |

## Left out

- Browser driving, page loads and the fixed `time.sleep` waits (main.py:119-165, 340-355) are I/O. Their results enter as the `Fetch` function and the location options.
- HTML parsing with BeautifulSoup (main.py:172-178) is not modelled. The model starts from already-located item blocks.
- The exception path of `get_menu` (main.py:200-201) is not modelled. The likeliest cause is `select_by_visible_text` failing because the page does not offer the hall, the date or the meal (main.py:141, 154, 158). A missing name span or an icon without a `title` does the same. In every case the source returns `None`. The callers then fail: `send_daily_menu` and `send_menu_message` on `menu.keys()`, and `send_menus_for_date` on `menu.items()` (main.py:114). `handle_message` also fails on `menu.keys()` (main.py:368), after it has already cleared the flag (main.py:363), so the user gets no reply and is no longer waiting for a hall choice. In `send_daily_menu` the exception also ends the scheduler, as the `Bot.SendDailyMenu` line below on failed sends explains. `Fetch` always yields a menu.
- Telegram transport is not modelled. This covers `send_telegram_message` (main.py:35-58), `reply_text`, `send_message`, Markdown/HTML parse modes, and the reply keyboards. Sends are returned as messages.
- JSON file reading and writing (main.py:267-276) is not modelled. The stored map stands for the file. A malformed file makes the source raise, and that is not modelled either.
- asyncio, the scheduler thread and the endless `while True` (main.py:325-338, 412) are not modelled. Only one iteration's arithmetic is.
- pytz time zones, daylight-saving changes and `strftime` date rendering (main.py:80-86, 218-221) are not modelled. Dates are opaque strings and days have a fixed length.
- Bot.SendDailyMenu: the source scrapes again for every subscriber-and-hall pair. The model assumes the page does not change within one cycle, so `Fetch` is a fixed function.
- Bot.SendDailyMenu: the source has no per-delivery failure isolation. A failed `send_message` raises out of `send_daily_menu` into the unguarded `while True` of `schedule_daily_menu` (main.py:328-338). That ends the scheduler thread, so no daily send happens again until the bot restarts. Failures are not modelled.
- Bot.ParseLegacyCommand: `str.lower()` is modelled for ASCII letters only. Python also lowers non-ASCII letters, and that is not modelled.
- Text.Lower: only ASCII letters are lowered. Python's `str.lower()` also lowers other letters, can change the length ('İ' gives two characters), and lowers 'Σ' by context. Only U+0130 and U+212A lower to ASCII letters, so the four command comparisons at main.py:72-89 are not affected.
- Bot.HandleEvent: routing by python-telegram-bot is taken as given. This covers `/cmd@botname`, command arguments, and unregistered commands, which no handler answers. Events arrive already classified as one of the seven commands or as plain text.
- Schedule.SleepMicros: the source sleeps a float number of seconds from `total_seconds()` (main.py:334). The model returns exact integer microseconds, so float rounding is not modelled.
- `pretty_print_menu` (main.py:207-216) is diagnostic console output and is not modelled.
- Logging is not modelled anywhere.
- Locking of store mutations and atomic file writes are not modelled. The source does not implement them.
