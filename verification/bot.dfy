/** The Telegram-facing logic of main.py: the `process_telegram_message`
    dispatcher, the command and text handlers registered in `__main__`, the
    per-user "awaiting a dining hall" flag, and the daily push to every
    subscriber. Fetching a menu and reading the location selector are browser
    I/O; they are inputs here (`Env`). Sending is modelled by returning the
    messages to be sent, in order. */
module Bot {
  import opened Options
  import opened Seqs
  import opened Dicts
  import opened Text
  import opened Menus
  import opened Format
  import opened Store

  const Meal: string := "Lunch"
  const DiningHalls: seq<string> := ["Stern Dining", "Wilbur Dining", "Arrillaga Family Dining Commons"]

  /** What `get_menu(hall, date, meal)` returns for the page as it is. */
  type Fetch = (string, string, string) -> Menu

  /** One message sent to a chat. */
  datatype Outgoing = Outgoing(chat: string, text: string)

  const WelcomeText: string :=
    "Welcome to the Stanford Dining Hall Menu Bot! Here are the available commands:\n\n"
    + "/menu - Get today's menu\n"
    + "/tomorrow - Get tomorrow's menu\n"
    + "/help - Show this help message"
  const LegacyHelpText: string :=
    "Available commands:\n"
    + "/menu - Get today's menu\n"
    + "/tomorrow - Get tomorrow's menu\n"
    + "/help - Show this help message"
  const HelpText: string :=
    "Welcome to the Stanford Dining Hall Menu Bot! Here are the available commands:\n\n"
    + "/menu - Get today's menu for all dining halls\n"
    + "/tomorrow - Get tomorrow's menu for all dining halls\n"
    + "/dininghalls - List available dining halls\n"
    + "/subscribe - Subscribe to daily menu updates\n"
    + "/unsubscribe - Unsubscribe from daily menu updates\n"
    + "/help - Show this help message"
  const UnknownCommandText: string :=
    "I'm sorry, I don't understand that command. Type /help for a list of available commands."
  const InvalidSelectionText: string := "Invalid selection. Please choose a dining hall from the list."
  const NoHallsText: string :=
    "Sorry, I couldn't retrieve the list of dining halls at the moment. Please try again later."

  /** The lunch menu of `hall` on `date`, formatted with `"\n".join`. */
  function MenuReply(hall: string, date: string, fetch: Fetch): string
  {
    MenuMessage(hall, date, Meal, fetch(hall, date, Meal).keys)
  }

  /** Line by line, a lunch menu reply is its header and then the item
      names of the fetched menu in menu order, when no text involved holds a
      line break. */
  lemma MenuReplyLines(hall: string, date: string, fetch: Fetch)
    requires NoNewline(hall) && NoNewline(date)
    requires forall i :: 0 <= i < |fetch(hall, date, Meal).keys| ==> NoNewline(fetch(hall, date, Meal).keys[i])
    ensures var names := fetch(hall, date, Meal).keys;
            Split(MenuReply(hall, date, fetch), '\n') ==
              [HeaderLine(hall, date, Meal)] + (if |names| == 0 then [""] else names)
  {
    assert NoNewline(Meal);
    MenuMessageLines(hall, date, Meal, fetch(hall, date, Meal).keys);
  }

  /** One menu message per hall, in the order of `halls`, all to `chat`. */
  function HallMessages(chat: string, halls: seq<string>, date: string, fetch: Fetch): (out: seq<Outgoing>)
    ensures |out| == |halls|
    ensures forall j :: 0 <= j < |halls| ==> out[j] == Outgoing(chat, MenuReply(halls[j], date, fetch))
  {
    seq(|halls|, j requires 0 <= j < |halls| => Outgoing(chat, MenuReply(halls[j], date, fetch)))
  }

  // ---------------------------------------------------------------------
  // process_telegram_message

  datatype LegacyCommand = LegacyStart | LegacyMenu | LegacyTomorrow | LegacyHelp | LegacyUnknown

  /** The `if`/`elif` chain on `text.lower()`: a branch is taken exactly
      when the whole text is its command in any mix of letter case, and
      everything else falls through to the apology. */
  function ParseLegacyCommand(text: string): (c: LegacyCommand)
    ensures c == LegacyStart <==> MatchesIgnoringCase(text, "/start")
    ensures c == LegacyMenu <==> MatchesIgnoringCase(text, "/menu")
    ensures c == LegacyTomorrow <==> MatchesIgnoringCase(text, "/tomorrow")
    ensures c == LegacyHelp <==> MatchesIgnoringCase(text, "/help")
  {
    LowerEqualsIff(text, "/start");
    LowerEqualsIff(text, "/menu");
    LowerEqualsIff(text, "/tomorrow");
    LowerEqualsIff(text, "/help");
    var lowered := Lower(text);
    if lowered == "/start" then LegacyStart
    else if lowered == "/menu" then LegacyMenu
    else if lowered == "/tomorrow" then LegacyTomorrow
    else if lowered == "/help" then LegacyHelp
    else LegacyUnknown
  }

  /** The update payload: `message.chat.id` and `message.text`, either of
      which may be missing. */
  datatype RawUpdate = RawUpdate(chatId: Option<string>, text: Option<string>)

  /** `send_menus_for_date`: one message per configured hall, each item
      name followed by a line break. */
  function LegacyMenus(chat: string, date: string, fetch: Fetch): (out: seq<Outgoing>)
    ensures |out| == |DiningHalls|
    ensures forall j :: 0 <= j < |out| ==>
              out[j] == Outgoing(chat, LegacyMenuMessage(DiningHalls[j], date, Meal, fetch(DiningHalls[j], date, Meal).keys))
  {
    seq(|DiningHalls|, j requires 0 <= j < |DiningHalls| =>
      Outgoing(chat, LegacyMenuMessage(DiningHalls[j], date, Meal, fetch(DiningHalls[j], date, Meal).keys)))
  }

  /** `process_telegram_message`. A payload without chat id or text is
      only logged. Otherwise every message goes back to the sender's chat:
      one per hall for `/menu` (today) and `/tomorrow` (tomorrow), a single
      text for anything else. */
  function ProcessTelegramMessage(u: RawUpdate, today: string, tomorrow: string, fetch: Fetch): (out: seq<Outgoing>)
    ensures u.chatId.None? || u.text.None? ==> out == []
    ensures u.chatId.Some? ==> forall m :: m in out ==> m.chat == u.chatId.value
    ensures u.chatId.Some? && u.text.Some? ==>
              match ParseLegacyCommand(u.text.value)
              case LegacyStart => out == [Outgoing(u.chatId.value, WelcomeText)]
              case LegacyMenu => out == LegacyMenus(u.chatId.value, today, fetch)
              case LegacyTomorrow => out == LegacyMenus(u.chatId.value, tomorrow, fetch)
              case LegacyHelp => out == [Outgoing(u.chatId.value, LegacyHelpText)]
              case LegacyUnknown => out == [Outgoing(u.chatId.value, UnknownCommandText)]
  {
    if u.chatId.None? || u.text.None? then []
    else
      var chat := u.chatId.value;
      match ParseLegacyCommand(u.text.value)
      case LegacyStart => [Outgoing(chat, WelcomeText)]
      case LegacyMenu => LegacyMenus(chat, today, fetch)
      case LegacyTomorrow => LegacyMenus(chat, tomorrow, fetch)
      case LegacyHelp => [Outgoing(chat, LegacyHelpText)]
      case LegacyUnknown => [Outgoing(chat, UnknownCommandText)]
  }

  // ---------------------------------------------------------------------
  // The handlers registered with the Application

  /** The per-user flag `awaiting_dininghall`; a missing key reads as
      false, as `user_data.get` does. */
  function Awaiting(userData: map<string, bool>, user: string): (waiting: bool)
    ensures user !in userData ==> !waiting
    ensures user in userData ==> (waiting <==> userData[user])
  {
    user in userData && userData[user]
  }

  /** `handle_message` for a user whose flag reads `Awaiting(userData,
      user)`; `available` is what `get_available_dining_halls` returned. */
  function HandleMessage(userData: map<string, bool>, user: string, text: string,
                         available: seq<string>, today: string, fetch: Fetch): (r: (map<string, bool>, string))
    ensures Awaiting(userData, user) && text in available ==>
              !Awaiting(r.0, user) && user in r.0 && r.1 == MenuReply(text, today, fetch)
    ensures Awaiting(userData, user) && text !in available ==>
              r.0 == userData && r.1 == InvalidSelectionText
    ensures !Awaiting(userData, user) ==> r.0 == userData && r.1 == UnknownCommandText
    ensures forall u :: u != user ==> (u in r.0 <==> u in userData)
    ensures forall u :: u != user && u in userData ==> r.0[u] == userData[u]
  {
    if Awaiting(userData, user) then
      if text in available then
        (userData[user := false], MenuReply(text, today, fetch))
      else
        (userData, InvalidSelectionText)
    else
      (userData, UnknownCommandText)
  }

  /** `dininghalls`: with a non-empty list the user is shown it and starts
      awaiting a choice; with an empty list the user gets an apology and
      the flag keeps whatever value it had. */
  function ListDiningHalls(userData: map<string, bool>, user: string, available: seq<string>): (r: (map<string, bool>, string))
    ensures |available| > 0 ==> Awaiting(r.0, user) && r.1 == HallListMessage(available)
    ensures |available| == 0 ==> r.0 == userData && r.1 == NoHallsText
    ensures forall u :: u != user ==> (u in r.0 <==> u in userData)
    ensures forall u :: u != user && u in userData ==> r.0[u] == userData[u]
  {
    if |available| > 0 then
      (userData[user := true], HallListMessage(available))
    else
      (userData, NoHallsText)
  }

  datatype Command =
    | StartCommand | MenuCommand | TomorrowCommand | HelpCommand
    | DiningHallsCommand | SubscribeCommand | UnsubscribeCommand

  /** An incoming update as the Application routes it: one of the seven
      registered commands, or a text that is not a command. */
  datatype Event =
    | CommandEvent(user: string, chat: string, command: Command)
    | TextEvent(user: string, chat: string, text: string)

  /** What the outside world answers during one handler: today's and
      tomorrow's date strings, the location options (None when the page
      cannot be read) and the menu source. */
  datatype Env = Env(today: string, tomorrow: string, locationOptions: Option<seq<string>>, fetch: Fetch)

  /** The subscription file and every user's `user_data` flag. */
  datatype BotState = BotState(subscriptions: Subscriptions, userData: map<string, bool>)

  /** One handler run, routed as the Application registers the handlers.
      Replies all go to the event's chat; only the
      sender's flag and the sender's subscription can change; only
      `/dininghalls` and free text touch the flag, and free text never
      touches the subscriptions. */
  function HandleEvent(s: BotState, e: Event, env: Env): (r: (BotState, seq<Outgoing>))
    ensures forall m :: m in r.1 ==> m.chat == e.chat
    ensures forall u :: u != e.user ==> Awaiting(r.0.userData, u) == Awaiting(s.userData, u)
    ensures forall u :: u != e.user ==> (u in r.0.subscriptions.entries <==> u in s.subscriptions.entries)
    ensures e.CommandEvent? && e.command != DiningHallsCommand ==> r.0.userData == s.userData
    ensures e.TextEvent? ==> r.0.subscriptions == s.subscriptions
    ensures e.CommandEvent? && (e.command == MenuCommand || e.command == TomorrowCommand) ==>
              |r.1| == |DiningHalls|
    ensures !(e.CommandEvent? && (e.command == MenuCommand || e.command == TomorrowCommand)) ==>
              |r.1| == 1
    // The routing table: which handler each registered command runs.
    ensures e.CommandEvent? && e.command == StartCommand ==> r == (s, [Outgoing(e.chat, WelcomeText)])
    ensures e.CommandEvent? && e.command == HelpCommand ==> r == (s, [Outgoing(e.chat, HelpText)])
    ensures e.CommandEvent? && e.command == MenuCommand ==>
              r == (s, HallMessages(e.chat, DiningHalls, env.today, env.fetch))
    ensures e.CommandEvent? && e.command == TomorrowCommand ==>
              r == (s, HallMessages(e.chat, DiningHalls, env.tomorrow, env.fetch))
    ensures e.CommandEvent? && e.command == DiningHallsCommand ==>
              var (flags, reply) := ListDiningHalls(s.userData, e.user, AvailableHalls(env.locationOptions));
              r == (s.(userData := flags), [Outgoing(e.chat, reply)])
    ensures e.CommandEvent? && e.command == SubscribeCommand ==>
              var (subs, reply) := Subscribe(s.subscriptions, e.user);
              r == (s.(subscriptions := subs), [Outgoing(e.chat, SubscribeText(reply))])
    ensures e.CommandEvent? && e.command == UnsubscribeCommand ==>
              var (subs, reply) := Unsubscribe(s.subscriptions, e.user);
              r == (s.(subscriptions := subs), [Outgoing(e.chat, UnsubscribeText(reply))])
    ensures e.TextEvent? ==>
              var (flags, reply) :=
                HandleMessage(s.userData, e.user, e.text, AvailableHalls(env.locationOptions), env.today, env.fetch);
              r == (s.(userData := flags), [Outgoing(e.chat, reply)])
  {
    match e
    case TextEvent(user, chat, text) =>
      var (userData, reply) :=
        HandleMessage(s.userData, user, text, AvailableHalls(env.locationOptions), env.today, env.fetch);
      (s.(userData := userData), [Outgoing(chat, reply)])
    case CommandEvent(user, chat, command) =>
      match command
      case StartCommand => (s, [Outgoing(chat, WelcomeText)])
      case MenuCommand => (s, HallMessages(chat, DiningHalls, env.today, env.fetch))
      case TomorrowCommand => (s, HallMessages(chat, DiningHalls, env.tomorrow, env.fetch))
      case HelpCommand => (s, [Outgoing(chat, HelpText)])
      case DiningHallsCommand =>
        var (userData, reply) := ListDiningHalls(s.userData, user, AvailableHalls(env.locationOptions));
        (s.(userData := userData), [Outgoing(chat, reply)])
      case SubscribeCommand =>
        var (subs, reply) := Subscribe(s.subscriptions, user);
        (s.(subscriptions := subs), [Outgoing(chat, SubscribeText(reply))])
      case UnsubscribeCommand =>
        var (subs, reply) := Unsubscribe(s.subscriptions, user);
        (s.(subscriptions := subs), [Outgoing(chat, UnsubscribeText(reply))])
  }

  /** The two-step conversation: after `/dininghalls` lists a non-empty set
      of halls, a text naming one of them gets that hall's menu and ends
      the conversation, so the same text sent once more is an unknown
      command. */
  lemma ChooseHallConversation(s: BotState, user: string, chat: string, hall: string, env: Env)
    requires hall in AvailableHalls(env.locationOptions)
    ensures var (s1, out1) := HandleEvent(s, CommandEvent(user, chat, DiningHallsCommand), env);
      && out1 == [Outgoing(chat, HallListMessage(AvailableHalls(env.locationOptions)))]
      && var (s2, out2) := HandleEvent(s1, TextEvent(user, chat, hall), env);
      && out2 == [Outgoing(chat, MenuReply(hall, env.today, env.fetch))]
      && var (s3, out3) := HandleEvent(s2, TextEvent(user, chat, hall), env);
      && out3 == [Outgoing(chat, UnknownCommandText)]
      && s3 == s2
  {
  }

  /** An invalid choice keeps the conversation open: the user is told so
      and may try again. */
  lemma InvalidChoiceKeepsWaiting(s: BotState, user: string, chat: string, text: string, env: Env)
    requires Awaiting(s.userData, user)
    requires text !in AvailableHalls(env.locationOptions)
    ensures HandleEvent(s, TextEvent(user, chat, text), env) == (s, [Outgoing(chat, InvalidSelectionText)])
  {
  }

  // ---------------------------------------------------------------------
  // send_daily_menu

  /** The daily messages, subscriber by subscriber in `subs` order, and for
      each subscriber one per hall in `halls` order. */
  function DailyMessages(subs: seq<string>, halls: seq<string>, date: string, fetch: Fetch): (msgs: seq<Outgoing>)
    ensures forall k :: 0 <= k < |msgs| ==> msgs[k].chat in subs
    decreases |subs|
  {
    if |subs| == 0 then []
    else
      var n := |subs| - 1;
      DailyMessages(subs[..n], halls, date, fetch) + HallMessages(subs[n], halls, date, fetch)
  }

  /** Position `i * h + j` with `j < h` lies inside the first `n` blocks
      of `h` when `i < n`. */
  lemma BlockIndex(i: int, j: int, n: int, h: int)
    requires 0 <= i < n && 0 <= j < h
    ensures 0 <= i * h + j < n * h
  {
    assert i * h <= (n - 1) * h;
  }

  /** There are exactly `|subs| * |halls|` daily messages. */
  lemma {:induction false} DailyMessagesLength(subs: seq<string>, halls: seq<string>, date: string, fetch: Fetch)
    ensures |DailyMessages(subs, halls, date, fetch)| == |subs| * |halls|
    decreases |subs|
  {
    if |subs| > 0 {
      var n := |subs| - 1;
      DailyMessagesLength(subs[..n], halls, date, fetch);
      assert |subs| * |halls| == n * |halls| + |halls|;
    }
  }

  /** Message `i * |halls| + j` is the lunch menu of hall `j` sent to
      subscriber `i`: the order is subscriber-major, then hall order. */
  lemma {:induction false} DailyMessageAt(subs: seq<string>, halls: seq<string>, date: string, fetch: Fetch, i: int, j: int)
    requires 0 <= i < |subs| && 0 <= j < |halls|
    ensures 0 <= i * |halls| + j < |DailyMessages(subs, halls, date, fetch)|
    ensures DailyMessages(subs, halls, date, fetch)[i * |halls| + j] == Outgoing(subs[i], MenuReply(halls[j], date, fetch))
    decreases |subs|
  {
    var n := |subs| - 1;
    var h := |halls|;
    var prefix := subs[..n];
    DailyMessagesLength(prefix, halls, date, fetch);
    DailyMessagesLength(subs, halls, date, fetch);
    BlockIndex(i, j, |subs|, h);
    if i < n {
      BlockIndex(i, j, n, h);
      DailyMessageAt(prefix, halls, date, fetch, i, j);
      assert prefix[i] == subs[i];
    } else {
      assert i * h + j == n * h + j;
    }
  }

  /** All daily messages at once, with their count and positions. */
  lemma DailyMessagesShape(subs: seq<string>, halls: seq<string>, date: string, fetch: Fetch)
    ensures |DailyMessages(subs, halls, date, fetch)| == |subs| * |halls|
    ensures forall i, j :: 0 <= i < |subs| && 0 <= j < |halls| ==>
              DailyMessages(subs, halls, date, fetch)[i * |halls| + j] == Outgoing(subs[i], MenuReply(halls[j], date, fetch))
  {
    DailyMessagesLength(subs, halls, date, fetch);
    forall i, j | 0 <= i < |subs| && 0 <= j < |halls|
      ensures DailyMessages(subs, halls, date, fetch)[i * |halls| + j] == Outgoing(subs[i], MenuReply(halls[j], date, fetch))
    {
      DailyMessageAt(subs, halls, date, fetch, i, j);
    }
  }

  /** The inner loop of `send_daily_menu`: one lunch menu per hall, in hall
      order, queued behind `outbox` for `user`. */
  method QueueHallMessages(outbox: seq<Outgoing>, user: string, halls: seq<string>, date: string, fetch: Fetch)
    returns (out: seq<Outgoing>)
    ensures out == outbox + HallMessages(user, halls, date, fetch)
  {
    out := outbox;
    var j := 0;
    while j < |halls|
      invariant 0 <= j <= |halls|
      invariant out == outbox + HallMessages(user, halls[..j], date, fetch)
    {
      out := out + [Outgoing(user, MenuReply(halls[j], date, fetch))];
      assert halls[..j + 1][..j] == halls[..j];
      j := j + 1;
    }
    assert halls[..j] == halls;
  }

  /** `send_daily_menu`: loop over the subscribers in file order and, for
      each, over the halls, queuing one lunch menu message per pair. */
  method SendDailyMenu(subscriptions: Subscriptions, halls: seq<string>, date: string, fetch: Fetch)
    returns (outbox: seq<Outgoing>)
    ensures outbox == DailyMessages(subscriptions.keys, halls, date, fetch)
    ensures |outbox| == |subscriptions.entries| * |halls|
  {
    var subs := subscriptions.keys;
    outbox := [];
    var i := 0;
    while i < |subs|
      invariant 0 <= i <= |subs|
      invariant outbox == DailyMessages(subs[..i], halls, date, fetch)
    {
      outbox := QueueHallMessages(outbox, subs[i], halls, date, fetch);
      assert subs[..i + 1][..i] == subs[..i];
      i := i + 1;
    }
    assert subs[..i] == subs;
    DailyMessagesLength(subs, halls, date, fetch);
    Size(subscriptions);
  }
}
