/** The reply texts main.py builds from a menu: the `"\n".join` form used by
    the command handlers and the daily push, the older one-line-per-item
    form of `send_menus_for_date`, and the dining-hall list. Only item names
    reach a message; ingredients, allergens and dietary icons never do. */
module Format {
  import opened Text

  /** The header without its closing line break. */
  function HeaderLine(hall: string, date: string, meal: string): string
  {
    "Menu for *" + hall + "* on " + date + " for " + meal + ":"
  }

  function Header(hall: string, date: string, meal: string): (h: string)
    ensures |h| > 0 && h[|h| - 1] == '\n'
  {
    HeaderLine(hall, date, meal) + "\n"
  }

  /** The message of `send_menu_message`, `send_daily_menu` and
      `handle_message`: the header followed by the item names, one per
      line, with no line break after the last one. */
  function MenuMessage(hall: string, date: string, meal: string, names: seq<string>): (msg: string)
    ensures |msg| >= |Header(hall, date, meal)|
    ensures msg[..|Header(hall, date, meal)|] == Header(hall, date, meal)
    ensures |names| == 0 ==> msg == Header(hall, date, meal)
  {
    var h := Header(hall, date, meal);
    var msg := h + Join(names, "\n");
    assert msg[..|h|] == h;
    msg
  }

  /** Every name followed by a line break, as `message += f"{item}\n"`. */
  function TerminatedLines(names: seq<string>): (text: string)
    ensures |names| > 0 ==> |text| > 0 && text[|text| - 1] == '\n'
    decreases |names|
  {
    if |names| == 0 then "" else names[0] + "\n" + TerminatedLines(names[1..])
  }

  /** The message of `send_menus_for_date`. */
  function LegacyMenuMessage(hall: string, date: string, meal: string, names: seq<string>): (msg: string)
    ensures |msg| >= |Header(hall, date, meal)|
    ensures msg[..|Header(hall, date, meal)|] == Header(hall, date, meal)
    ensures |names| > 0 ==> msg[|msg| - 1] == '\n'
  {
    var h := Header(hall, date, meal);
    var msg := h + TerminatedLines(names);
    assert msg[..|h|] == h;
    msg
  }

  predicate NoNewline(s: string)
  {
    '\n' !in s
  }

  lemma HeaderLineNoNewline(hall: string, date: string, meal: string)
    requires NoNewline(hall) && NoNewline(date) && NoNewline(meal)
    ensures NoNewline(HeaderLine(hall, date, meal))
  {
    var parts := ["Menu for *", "* on ", " for ", ":"];
    assert forall i :: 0 <= i < |parts| ==> NoNewline(parts[i]);
  }

  /** Reading a menu message line by line gives back the header and then
      exactly the item names, in order; an empty menu leaves one empty line
      after the header. Nothing but names follows the header. */
  lemma MenuMessageLines(hall: string, date: string, meal: string, names: seq<string>)
    requires NoNewline(hall) && NoNewline(date) && NoNewline(meal)
    requires forall i :: 0 <= i < |names| ==> NoNewline(names[i])
    ensures Split(MenuMessage(hall, date, meal, names), '\n') ==
              [HeaderLine(hall, date, meal)] + (if |names| == 0 then [""] else names)
  {
    HeaderLineNoNewline(hall, date, meal);
    var body := Join(names, "\n");
    assert MenuMessage(hall, date, meal, names) == HeaderLine(hall, date, meal) + ['\n'] + body;
    SplitAfter(HeaderLine(hall, date, meal), '\n', body);
    if |names| > 0 {
      SplitJoin(names, '\n');
    }
  }

  /** `send_menus_for_date` differs from the other paths only by a line
      break after the last item. */
  lemma {:induction false} LegacyAddsFinalNewline(hall: string, date: string, meal: string, names: seq<string>)
    ensures |names| == 0 ==> LegacyMenuMessage(hall, date, meal, names) == MenuMessage(hall, date, meal, names)
    ensures |names| > 0 ==> LegacyMenuMessage(hall, date, meal, names) == MenuMessage(hall, date, meal, names) + "\n"
  {
    if |names| > 0 {
      TerminatedIsJoinPlusNewline(names);
    }
  }

  lemma {:induction false} TerminatedIsJoinPlusNewline(names: seq<string>)
    requires |names| > 0
    ensures TerminatedLines(names) == Join(names, "\n") + "\n"
    decreases |names|
  {
    if |names| > 1 {
      TerminatedIsJoinPlusNewline(names[1..]);
    } else {
      assert names[1..] == [];
    }
  }

  /** The bullet list of `dininghalls`. */
  function Bullets(halls: seq<string>): (lines: seq<string>)
    ensures |lines| == |halls|
    ensures forall i :: 0 <= i < |halls| ==> lines[i] == "\U{2022} " + halls[i]
  {
    seq(|halls|, i requires 0 <= i < |halls| => "\U{2022} " + halls[i])
  }

  const HallListIntro: string := "Available dining halls:"

  /** The `dininghalls` reply: the introduction and an empty line, then
      the bulleted halls; a single hall is one bullet with nothing after it. */
  function HallListMessage(halls: seq<string>): (text: string)
    ensures |text| >= |HallListIntro| + 2
    ensures text[..|HallListIntro| + 2] == HallListIntro + "\n\n"
    ensures |halls| == 1 ==> text == HallListIntro + "\n\n\U{2022} " + halls[0]
  {
    HallListIntro + "\n\n" + Join(Bullets(halls), "\n")
  }

  /** Line by line, the hall list is the introduction, an empty line, and
      one bulleted line per hall in the order given. */
  lemma HallListLines(halls: seq<string>)
    requires |halls| > 0
    requires forall i :: 0 <= i < |halls| ==> NoNewline(halls[i])
    ensures Split(HallListMessage(halls), '\n') == [HallListIntro, ""] + Bullets(halls)
  {
    var bullets := Bullets(halls);
    forall i | 0 <= i < |bullets| ensures '\n' !in bullets[i] {
      assert bullets[i] == "\U{2022} " + halls[i];
    }
    var body := Join(bullets, "\n");
    SplitJoin(bullets, '\n');
    assert HallListMessage(halls) == HallListIntro + ['\n'] + ([] + ['\n'] + body);
    assert NoNewline(HallListIntro);
    SplitAfter(HallListIntro, '\n', [] + ['\n'] + body);
    SplitAfter([], '\n', body);
  }
}
