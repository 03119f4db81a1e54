/** The pure part of `get_menu` and `get_available_dining_halls` in main.py:
    turning the item blocks and location options the browser found on the
    dining-hall page into a menu and a list of locations. Loading the page
    and locating the blocks is browser I/O and arrives here as input. */
module Menus {
  import opened Options
  import opened Seqs
  import opened Dicts
  import opened Text

  /** One `clsMenuItem` block as located on the rendered page: the text of
      its name span, the text of its ingredients and allergens spans when
      they exist, and the `title` of each dietary icon in page order. */
  datatype ItemBlock = ItemBlock(
    nameText: string,
    ingredientsSpan: Option<string>,
    allergensSpan: Option<string>,
    iconTitles: seq<string>)

  /** The value stored for one item name. A `None` field is a key the
      Python dictionary does not have. */
  datatype ItemInfo = ItemInfo(
    ingredients: Option<string>,
    allergens: Option<string>,
    dietaryInfo: Option<seq<string>>)

  /** A menu maps item names to their details, in page order. */
  type Menu = Dict<string, ItemInfo>

  const IngredientsLabel: string := "Ingredients:"
  const AllergensLabel: string := "Allergens:"
  const LocationPlaceholder: string := "Select Location"

  /** The text of a labelled span with the label removed and trimmed. */
  function ExtractField(fieldLabel: string, span: string): (r: string)
    ensures Stripped(r)
  {
    Strip(RemoveAll(Strip(span), fieldLabel))
  }

  /** The key under which a block is stored. */
  function ItemName(b: ItemBlock): (name: string)
    ensures Stripped(name)
    ensures exists i :: TrimmedAt(b.nameText, name, i)
  {
    Strip(b.nameText)
  }

  /** The details of one block: optional keys only for spans that exist,
      and dietary information only when there is at least one icon. */
  function ExtractItem(b: ItemBlock): (info: ItemInfo)
    ensures info.ingredients.Some? <==> b.ingredientsSpan.Some?
    ensures info.allergens.Some? <==> b.allergensSpan.Some?
    ensures info.ingredients.Some? ==> Stripped(info.ingredients.value)
    ensures info.allergens.Some? ==> Stripped(info.allergens.value)
    ensures b.ingredientsSpan.Some? ==>
              info.ingredients == Some(ExtractField(IngredientsLabel, b.ingredientsSpan.value))
    ensures b.allergensSpan.Some? ==>
              info.allergens == Some(ExtractField(AllergensLabel, b.allergensSpan.value))
    ensures info.dietaryInfo.Some? <==> |b.iconTitles| > 0
    ensures info.dietaryInfo.Some? ==> info.dietaryInfo.value == b.iconTitles
  {
    ItemInfo(
      if b.ingredientsSpan.Some? then Some(ExtractField(IngredientsLabel, b.ingredientsSpan.value)) else None,
      if b.allergensSpan.Some? then Some(ExtractField(AllergensLabel, b.allergensSpan.value)) else None,
      if |b.iconTitles| > 0 then Some(b.iconTitles) else None)
  }

  /** For any trimmed span whose first label occurrence splits it into
      `before` and `after`: the value keeps `before`, loses that label, and
      goes on removing labels from `after`; the result is trimmed again. */
  lemma ExtractFieldFirstLabel(fieldLabel: string, span: string, before: string, after: string)
    requires |fieldLabel| > 0
    requires Strip(span) == before + fieldLabel + after
    requires forall i :: 0 <= i < |before| ==> !OccursAt(before + fieldLabel + after, fieldLabel, i)
    ensures ExtractField(fieldLabel, span) == Strip(before + RemoveAll(after, fieldLabel))
  {
    RemoveAllAtFirst(before, fieldLabel, after);
  }

  /** A trimmed span without the label is its own value. */
  lemma ExtractFieldWithoutLabel(fieldLabel: string, span: string)
    requires !Occurs(Strip(span), fieldLabel)
    ensures ExtractField(fieldLabel, span) == Strip(span)
  {
    RemoveAllAbsent(Strip(span), fieldLabel);
    StripIdempotent(span);
  }

  /** The item names of the blocks, in page order, repeats included. */
  function Names(blocks: seq<ItemBlock>): (names: seq<string>)
    ensures |names| == |blocks|
    ensures forall i :: 0 <= i < |blocks| ==> names[i] == ItemName(blocks[i])
  {
    seq(|blocks|, i requires 0 <= i < |blocks| => ItemName(blocks[i]))
  }

  /** No later block carries the same item name as block `i`. */
  ghost predicate LastWithName(blocks: seq<ItemBlock>, i: int)
    requires 0 <= i < |blocks|
  {
    forall j :: i < j < |blocks| ==> ItemName(blocks[j]) != ItemName(blocks[i])
  }

  /** The details of each block, in page order. */
  function Items(blocks: seq<ItemBlock>): (items: seq<ItemInfo>)
    ensures |items| == |blocks|
    ensures forall i :: 0 <= i < |blocks| ==> items[i] == ExtractItem(blocks[i])
  {
    seq(|blocks|, i requires 0 <= i < |blocks| => ExtractItem(blocks[i]))
  }

  /** The extraction loop of `get_menu`: every block stores a fresh value
      under its trimmed name. The menu has exactly the blocks' names as
      keys, ordered by where each name first appears, and each name holds
      the details of the last block carrying it. */
  function ExtractMenu(blocks: seq<ItemBlock>): (m: Menu)
    ensures forall k :: k in m.entries <==> exists i :: 0 <= i < |blocks| && ItemName(blocks[i]) == k
    ensures forall i :: 0 <= i < |blocks| && LastWithName(blocks, i) ==>
              ItemName(blocks[i]) in m.entries && m.entries[ItemName(blocks[i])] == ExtractItem(blocks[i])
    ensures forall i :: 0 <= i < |m.keys| ==> m.keys[i] in Names(blocks)
    ensures forall i, j :: 0 <= i < j < |m.keys| ==>
              IndexOf(Names(blocks), m.keys[i]) < IndexOf(Names(blocks), m.keys[j])
  {
    var names := Names(blocks);
    var m := AssignAll(names, Items(blocks));
    forall i | 0 <= i < |blocks| && LastWithName(blocks, i)
      ensures LastAt(names, i)
    {
    }
    m
  }

  /** The filter of `get_available_dining_halls`: the option texts of the
      location selector without the placeholder, in page order. `None`
      stands for the page failing to load, which the source turns into an
      empty list. */
  function AvailableHalls(options: Option<seq<string>>): (halls: seq<string>)
    ensures forall h :: h in halls <==> options.Some? && h in options.value && h != LocationPlaceholder
  {
    match options
    case None => []
    case Some(texts) => RemoveValue(texts, LocationPlaceholder)
  }

  /** Dropping the placeholder keeps the other options in page order: the
      filter distributes over any split of the option list. */
  lemma AvailableHallsKeepsOrder(a: seq<string>, b: seq<string>)
    ensures AvailableHalls(Some(a + b)) == AvailableHalls(Some(a)) + AvailableHalls(Some(b))
  {
    RemoveValueAppend(a, b, LocationPlaceholder);
  }

  /** Without a placeholder option the list passes through unchanged. */
  lemma AvailableHallsWithoutPlaceholder(texts: seq<string>)
    requires LocationPlaceholder !in texts
    ensures AvailableHalls(Some(texts)) == texts
  {
    RemoveValueAbsent(texts, LocationPlaceholder);
  }

  /** A span rendered as the label, some white space and a trimmed text
      that does not itself contain the label, padded with white space on
      either side, yields exactly that text. */
  lemma LabelledFieldRoundTrip(fieldLabel: string, a: string, sep: string, t: string, c: string)
    requires fieldLabel == IngredientsLabel || fieldLabel == AllergensLabel
    requires AllSpace(a) && AllSpace(sep) && AllSpace(c)
    requires Stripped(t) && !Occurs(t, fieldLabel)
    ensures ExtractField(fieldLabel, a + fieldLabel + sep + t + c) == t
  {
    var L := fieldLabel;
    assert |L| > 0 && !IsSpace(L[0]) && !IsSpace(L[|L| - 1]);
    if |t| > 0 {
      OuterStripNonEmpty(L, a, sep, t, c);
      LabelThenText(L, sep, t);
    } else {
      OuterStripEmpty(L, a, sep, c);
      RemoveAllLeading(L, []);
      assert L + [] == L;
    }
  }

  lemma OuterStripNonEmpty(L: string, a: string, sep: string, t: string, c: string)
    requires |L| > 0 && !IsSpace(L[0])
    requires AllSpace(a) && AllSpace(c)
    requires |t| > 0 && Stripped(t)
    ensures Strip(a + L + sep + t + c) == L + (sep + t)
  {
    var x := L + (sep + t);
    assert x[0] == L[0];
    assert x[|x| - 1] == t[|t| - 1];
    assert a + L + sep + t + c == a + x + c;
    StripPadded(a, x, c);
  }

  lemma OuterStripEmpty(L: string, a: string, sep: string, c: string)
    requires |L| > 0 && Stripped(L)
    requires AllSpace(a) && AllSpace(sep) && AllSpace(c)
    ensures Strip(a + L + sep + [] + c) == L
  {
    assert a + L + sep + [] + c == a + L + (sep + c);
    StripPadded(a, L, sep + c);
  }

  lemma LabelThenText(L: string, sep: string, t: string)
    requires |L| > 0 && !IsSpace(L[0])
    requires AllSpace(sep) && Stripped(t) && !Occurs(t, L)
    ensures Strip(RemoveAll(L + (sep + t), L)) == t
  {
    RemoveAllLeading(L, sep + t);
    assert forall i :: 0 <= i < |sep| ==> sep[i] != L[0];
    RemoveAllKeepsPrefix(sep, t, L);
    RemoveAllAbsent(t, L);
    StripPadded(sep, t, []);
    assert sep + t + [] == sep + t;
  }

  /** Removal is a single left-to-right pass: pieces left on either side of
      a removed label can join into a new label, which stays in the value. */
  lemma RemovalCanReassembleLabel(span: string)
    requires span == "Ing" + IngredientsLabel + "redients:"
    ensures ExtractField(IngredientsLabel, span) == IngredientsLabel
  {
    var p := IngredientsLabel;
    assert span[0] == 'I' && span[|span| - 1] == ':';
    StrippedIsFixed(span);
    ReassembledLabel(span);
    StrippedIsFixed(p);
  }

  lemma ReassembledLabel(s: string)
    requires s == "Ing" + IngredientsLabel + "redients:"
    ensures RemoveAll(s, IngredientsLabel) == IngredientsLabel
  {
    var p := IngredientsLabel;
    var tail := "redients:";
    RemoveAllLeading(p, tail);
    assert RemoveAll(tail, p) == tail;
    assert s[3..] == p + tail;
    RemoveAllKeepsFirst(s[2..], p, 1);
    assert s[2..][1..] == s[3..];
    RemoveAllKeepsFirst(s[1..], p, 2);
    assert s[1..][1..] == s[2..];
    RemoveAllKeepsFirst(s, p, 3);
    assert [s[0]] + ([s[1]] + ([s[2]] + tail)) == p;
  }
}
