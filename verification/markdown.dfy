/** `json_to_markdown`: one note record becomes one Markdown document, built by
    concatenating its sections in a fixed order. */
module Markdown {
  import opened Wrappers
  import opened Text
  import opened Links
  import opened Notes

  /** Title used when the record has no `title` key. */
  const FallbackTitle: string := "Sem Título"

  function TitleLine(n: Note): string
  {
    "# " + n.title.GetOr(FallbackTitle) + "\n\n"
  }

  /** The note text with paragraph breaks and links; present even when empty. */
  function BodyBlock(n: Note): string
  {
    ConvertLinks(DoubleNewlines(n.textContent.GetOr(""))) + "\n\n"
  }

  const ChecklistHeader: string := "## Checkboxes:\n"
  const CheckedPrefix: string := "- [x] "
  const UncheckedPrefix: string := "- [ ] "

  function ItemLine(item: ListItem): string
  {
    (if item.isChecked.GetOr(false) then CheckedPrefix else UncheckedPrefix)
    + item.text.GetOr("") + "\n"
  }

  function ItemLines(items: seq<ListItem>): string
  {
    if items == [] then "" else ItemLine(items[0]) + ItemLines(items[1..])
  }

  /** `listContent` is present and non-empty (Python truthiness of a list). */
  predicate HasChecklist(n: Note)
  {
    n.listContent.Some? && n.listContent.value != []
  }

  function ChecklistBlock(n: Note): string
  {
    if HasChecklist(n) then ChecklistHeader + ItemLines(n.listContent.value) else ""
  }

  const LabelsPrefix: string := "**Labels**: "

  function LabelNames(labels: seq<Label>): (names: seq<string>)
    ensures |names| == |labels|
    ensures forall i :: 0 <= i < |labels| ==> names[i] == labels[i].name
  {
    if labels == [] then [] else [labels[0].name] + LabelNames(labels[1..])
  }

  /** `labels` is present and non-empty. */
  predicate HasLabels(n: Note)
  {
    n.labels.Some? && n.labels.value != []
  }

  function LabelsBlock(n: Note): string
  {
    if HasLabels(n) then LabelsPrefix + Join(LabelNames(n.labels.value), ", ") + "\n\n" else ""
  }

  function YesNo(b: bool): string
  {
    if b then "Yes" else "No"
  }

  function FlagsBlock(n: Note): string
  {
    "**Pinned**: " + YesNo(n.isPinned.GetOr(false)) + "\n"
    + "**Archived**: " + YesNo(n.isArchived.GetOr(false)) + "\n\n"
  }

  function DatesBlock(created: string, edited: string): string
  {
    "**Created**: " + created + "\n" + "**Last Edited**: " + edited + "\n\n"
  }

  const Separator: string := "---\n\n"

  /** The document for `n`, given the already formatted creation and last-edit
      times. */
  function Document(n: Note, created: string, edited: string): string
  {
    TitleLine(n) + (BodyBlock(n) + AfterBody(n, created, edited))
  }

  /** The part of the document after the heading and the note text. */
  function AfterBody(n: Note, created: string, edited: string): string
  {
    ChecklistBlock(n) + (LabelsBlock(n) + Closing(n, created, edited))
  }

  /** The lines every document ends with. */
  function Closing(n: Note, created: string, edited: string): string
  {
    FlagsBlock(n) + (DatesBlock(created, edited) + Separator)
  }

  /** The raw creation stamp, 0 when the key is absent. */
  function CreatedStamp(n: Note): Stamp
  {
    n.createdTimestampUsec.GetOr(Number(0))
  }

  /** The raw last-edit stamp, 0 when the key is absent. */
  function EditedStamp(n: Note): Stamp
  {
    n.userEditedTimestampUsec.GetOr(Number(0))
  }

  /** `json_to_markdown` with `convert_timestamp` passed in as `format`; an `Err`
      from `format` is the exception `int()` raises on a malformed stamp. The
      creation stamp is formatted first, so its failure is the one reported. */
  function JsonToMarkdown(n: Note, format: Stamp -> Result<string, string>): (r: Result<string, string>)
    ensures r.Ok? <==> format(CreatedStamp(n)).Ok? && format(EditedStamp(n)).Ok?
    ensures r.Ok? ==> r.value == Document(n, format(CreatedStamp(n)).value, format(EditedStamp(n)).value)
    ensures format(CreatedStamp(n)).Err? ==> r == Err(format(CreatedStamp(n)).error)
    ensures format(CreatedStamp(n)).Ok? && format(EditedStamp(n)).Err? ==> r == Err(format(EditedStamp(n)).error)
  {
    match format(CreatedStamp(n))
    case Err(why) => Err(why)
    case Ok(created) =>
      match format(EditedStamp(n))
      case Err(why) => Err(why)
      case Ok(edited) => Ok(Document(n, created, edited))
  }

  // ---------------------------------------------------------------------------
  // Layout of the document.

  /** The document opens with the title heading: the `title` value whenever the
      key is present, even when it is empty, and "Sem Título" only when it is
      absent. */
  lemma DocumentTitle(n: Note, created: string, edited: string)
    ensures n.title.Some? ==> "# " + n.title.value + "\n\n" <= Document(n, created, edited)
    ensures n.title.None? ==> "# " + "Sem Título" + "\n\n" <= Document(n, created, edited)
  {
    PrefixOfLonger(TitleLine(n), TitleLine(n), BodyBlock(n) + AfterBody(n, created, edited));
  }

  /** After the heading comes the note text (empty when the key is absent) with
      every line feed doubled and its links rewritten, then a blank line; this
      block is there even for an empty text. */
  lemma DocumentBody(n: Note, created: string, edited: string)
    ensures var md := Document(n, created, edited);
            var text := n.textContent.GetOr("");
            var at := 4 + |n.title.GetOr(FallbackTitle)|;
            && at <= |md|
            && ConvertLinks(DoubleNewlines(text)) + "\n\n" <= md[at..]
            && DoubleNewlines(ConvertLinks(text)) + "\n\n" <= md[at..]
  {
    ConvertLinksDoubleNewlines(n.textContent.GetOr(""));
    var md := Document(n, created, edited);
    assert |TitleLine(n)| == 4 + |n.title.GetOr(FallbackTitle)|;
    assert md[|TitleLine(n)|..] == BodyBlock(n) + AfterBody(n, created, edited);
    PrefixOfLonger(BodyBlock(n), BodyBlock(n), AfterBody(n, created, edited));
  }

  /** Every closing starts with the pinned line. */
  lemma ClosingStart(n: Note, created: string, edited: string)
    ensures "**Pinned**: " <= Closing(n, created, edited)
  {
    var pinned := "**Pinned**: " + YesNo(n.isPinned.GetOr(false));
    var archived := "\n" + "**Archived**: " + YesNo(n.isArchived.GetOr(false)) + "\n\n";
    assert FlagsBlock(n) == pinned + archived;
    PrefixOfLonger("**Pinned**: ", "**Pinned**: ", YesNo(n.isPinned.GetOr(false)));
    PrefixOfLonger("**Pinned**: ", pinned, archived);
    PrefixOfLonger("**Pinned**: ", FlagsBlock(n), DatesBlock(created, edited) + Separator);
  }

  /** What follows the checklist starts with the labels line or the pinned line. */
  lemma LabelsOrClosing(n: Note, created: string, edited: string)
    ensures var rest := LabelsBlock(n) + Closing(n, created, edited);
            && |rest| > 2 && rest[0] == '*' && rest[1] == '*'
            && (HasLabels(n) ==> LabelsPrefix <= rest)
            && (!HasLabels(n) ==> "**Pinned**: " <= rest)
  {
    var rest := LabelsBlock(n) + Closing(n, created, edited);
    ClosingStart(n, created, edited);
    if HasLabels(n) {
      var names := Join(LabelNames(n.labels.value), ", ");
      assert LabelsBlock(n) == LabelsPrefix + (names + "\n\n");
      PrefixOfLonger(LabelsPrefix, LabelsPrefix, names + "\n\n");
      PrefixOfLonger(LabelsPrefix, LabelsBlock(n), Closing(n, created, edited));
      assert rest[0] == LabelsPrefix[0] && rest[1] == LabelsPrefix[1];
    } else {
      assert rest == Closing(n, created, edited);
      assert rest[0] == "**Pinned**: "[0] && rest[1] == "**Pinned**: "[1];
    }
  }

  /** The checklist header follows the text exactly when `listContent` is
      present and non-empty. */
  lemma DocumentChecklistHeader(n: Note, created: string, edited: string)
    ensures var rest := AfterBody(n, created, edited);
            ChecklistHeader <= rest <==> n.listContent.Some? && |n.listContent.value| > 0
  {
    var rest := AfterBody(n, created, edited);
    var tail := LabelsBlock(n) + Closing(n, created, edited);
    if HasChecklist(n) {
      var lines := ItemLines(n.listContent.value);
      PrefixOfLonger(ChecklistHeader, ChecklistHeader, lines);
      PrefixOfLonger(ChecklistHeader, ChecklistBlock(n), tail);
    } else {
      assert rest == tail;
      LabelsOrClosing(n, created, edited);
      assert rest[0] != ChecklistHeader[0];
    }
  }

  /** A checklist item as the document records it: its text (empty when the key
      is absent) and whether it is ticked (false when the key is absent). */
  datatype Entry = Entry(text: string, checked: bool)

  function Entries(items: seq<ListItem>): (es: seq<Entry>)
    ensures |es| == |items|
    ensures forall i :: 0 <= i < |items| ==>
      es[i] == Entry(items[i].text.GetOr(""), items[i].isChecked == Some(true))
  {
    if items == [] then [] else [Entry(items[0].text.GetOr(""), items[0].isChecked == Some(true))] + Entries(items[1..])
  }

  /** Index of the first line feed of `s`, or `|s|`. */
  function LineEnd(s: string): (k: nat)
    ensures k <= |s|
    ensures forall i :: 0 <= i < k ==> s[i] != '\n'
    ensures k < |s| ==> s[k] == '\n'
  {
    if s == [] || s[0] == '\n' then 0 else 1 + LineEnd(s[1..])
  }

  lemma LineEndExact(s: string, k: nat)
    requires k < |s| && s[k] == '\n'
    requires forall i :: 0 <= i < k ==> s[i] != '\n'
    ensures LineEnd(s) == k
  {
  }

  /** Reads checklist lines (`- [x] text` or `- [ ] text`, each ended by a line
      feed) from the start of `s`, and returns them with what follows them. */
  function ReadItems(s: string): (r: (seq<Entry>, string))
    ensures |r.1| <= |s|
    decreases |s|
  {
    if (CheckedPrefix <= s || UncheckedPrefix <= s) && LineEnd(s[6..]) < |s| - 6 then
      var k := LineEnd(s[6..]);
      var rest := ReadItems(s[7 + k..]);
      ([Entry(s[6..6 + k], s[3] == 'x')] + rest.0, rest.1)
    else ([], s)
  }

  /** Item texts without line feeds, as the one-line-per-item layout needs. */
  predicate SingleLineTexts(items: seq<ListItem>)
  {
    forall i :: 0 <= i < |items| ==> '\n' !in items[i].text.GetOr("")
  }

  /** Reading one checklist line: its text and tick, then the lines after it. */
  lemma ReadItemsStep(prefix: string, text: string, more: string)
    requires prefix == CheckedPrefix || prefix == UncheckedPrefix
    requires '\n' !in text
    ensures var r := ReadItems(more);
            ReadItems(prefix + (text + ("\n" + more))) == ([Entry(text, prefix == CheckedPrefix)] + r.0, r.1)
  {
    var s := prefix + (text + ("\n" + more));
    assert prefix <= s;
    assert s[6..] == text + ("\n" + more);
    LineEndExact(s[6..], |text|);
    assert s[6..6 + |text|] == text;
    assert s[7 + |text|..] == more;
    assert s[3] == prefix[3];
  }

  /** The item lines of a non-empty list, regrouped around the first line's
      text. */
  lemma ItemLinesCons(items: seq<ListItem>, tail: string)
    requires items != []
    ensures var item := items[0];
            var prefix := if item.isChecked.GetOr(false) then CheckedPrefix else UncheckedPrefix;
            ItemLines(items) + tail
              == prefix + (item.text.GetOr("") + ("\n" + (ItemLines(items[1..]) + tail)))
  {
    var item := items[0];
    var prefix := if item.isChecked.GetOr(false) then CheckedPrefix else UncheckedPrefix;
    assert ItemLines(items) == ((prefix + item.text.GetOr("")) + "\n") + ItemLines(items[1..]);
    RegroupLine(prefix, item.text.GetOr(""), "\n", ItemLines(items[1..]), tail);
  }

  /** Re-association, kept apart for the same reason as `Regroup`. */
  lemma RegroupLine(p: string, t: string, nl: string, r: string, tail: string)
    ensures (((p + t) + nl) + r) + tail == p + (t + (nl + (r + tail)))
  {
  }

  /** The checklist lines hold one line per item, in the original order, that
      records the item's text and whether it is ticked: reading them back gives
      the items and stops where the lines end. */
  lemma {:induction false} ReadItemLines(items: seq<ListItem>, tail: string)
    requires SingleLineTexts(items)
    requires !(CheckedPrefix <= tail) && !(UncheckedPrefix <= tail)
    ensures ReadItems(ItemLines(items) + tail) == (Entries(items), tail)
  {
    if items == [] {
      assert ItemLines(items) + tail == tail;
    } else {
      var item := items[0];
      var text := item.text.GetOr("");
      var more := ItemLines(items[1..]) + tail;
      var prefix := if item.isChecked.GetOr(false) then CheckedPrefix else UncheckedPrefix;
      ItemLinesCons(items, tail);
      assert '\n' !in text by {
        assert '\n' !in items[0].text.GetOr("");
      }
      ReadItemsStep(prefix, text, more);
      assert (prefix == CheckedPrefix) == (item.isChecked == Some(true));
      assert SingleLineTexts(items[1..]) by {
        forall i | 0 <= i < |items[1..]|
          ensures '\n' !in items[1..][i].text.GetOr("")
        {
          assert items[1..][i] == items[i + 1];
        }
      }
      ReadItemLines(items[1..], tail);
      assert Entries(items) == [Entry(text, item.isChecked == Some(true))] + Entries(items[1..]);
    }
  }

  /** Why the read-back needs single-line texts: one unticked item whose text
      holds a line feed followed by `- [x] ` writes the same lines as two items,
      the second one ticked. */
  lemma ItemLinesAmbiguous(t: string, u: string)
    ensures ItemLines([ListItem(Some(t + ("\n" + (CheckedPrefix + u))), None)])
         == ItemLines([ListItem(Some(t), None), ListItem(Some(u), Some(true))])
  {
    var one := [ListItem(Some(t + ("\n" + (CheckedPrefix + u))), None)];
    var two := [ListItem(Some(t), None), ListItem(Some(u), Some(true))];
    assert ItemLines(one) == UncheckedPrefix + (t + ("\n" + (CheckedPrefix + u))) + "\n" by {
      assert one[1..] == [];
    }
    assert ItemLines(two) == (UncheckedPrefix + t + "\n") + ((CheckedPrefix + u + "\n") + "") by {
      assert two[1..] == [ListItem(Some(u), Some(true))];
      assert two[1..][1..] == [];
    }
  }

  /** Right after the checklist header come the item lines, then the labels or
      flags lines. */
  lemma ChecklistLinesFollowHeader(n: Note, created: string, edited: string)
    requires HasChecklist(n)
    ensures AfterBody(n, created, edited)[|ChecklistHeader|..]
            == ItemLines(n.listContent.value) + (LabelsBlock(n) + Closing(n, created, edited))
  {
    var tail := LabelsBlock(n) + Closing(n, created, edited);
    var lines := ItemLines(n.listContent.value);
    assert AfterBody(n, created, edited) == ChecklistHeader + (lines + tail);
  }

  lemma NoItemAfterChecklist(n: Note, created: string, edited: string)
    ensures var tail := LabelsBlock(n) + Closing(n, created, edited);
            !(CheckedPrefix <= tail) && !(UncheckedPrefix <= tail)
  {
    LabelsOrClosing(n, created, edited);
  }

  /** Right after the checklist header the document holds the item lines of
      `listContent`: reading them back gives every item, in order, and stops at
      the labels or flags line that follows. */
  lemma DocumentChecklistItems(n: Note, created: string, edited: string)
    requires HasChecklist(n) && SingleLineTexts(n.listContent.value)
    ensures var rest := AfterBody(n, created, edited);
            ReadItems(rest[|ChecklistHeader|..])
              == (Entries(n.listContent.value), LabelsBlock(n) + Closing(n, created, edited))
  {
    ChecklistLinesFollowHeader(n, created, edited);
    NoItemAfterChecklist(n, created, edited);
    ReadItemLines(n.listContent.value, LabelsBlock(n) + Closing(n, created, edited));
  }

  /** The labels line: present exactly when `labels` is present and non-empty,
      right after the checklist (or the text when there is none); it lists the
      label names, in order, joined by ", ", and ends with a blank line. */
  lemma DocumentLabels(n: Note, created: string, edited: string)
    ensures var rest := AfterBody(n, created, edited)[|ChecklistBlock(n)|..];
            && (LabelsPrefix <= rest <==> n.labels.Some? && |n.labels.value| > 0)
            && (HasLabels(n) ==>
                  LabelsPrefix + Join(LabelNames(n.labels.value), ", ") + "\n\n" <= rest)
  {
    var rest := AfterBody(n, created, edited)[|ChecklistBlock(n)|..];
    assert rest == LabelsBlock(n) + Closing(n, created, edited);
    LabelsOrClosing(n, created, edited);
    if HasLabels(n) {
      PrefixOfLonger(LabelsBlock(n), LabelsBlock(n), Closing(n, created, edited));
    } else {
      assert rest[2] == 'P';
    }
  }

  /** The label names can be read back from the labels line when no name
      contains the separator. */
  lemma LabelsRoundTrip(labels: seq<Label>)
    requires |labels| > 0
    requires forall i :: 0 <= i < |labels| ==> NoCommaSpace(labels[i].name)
    ensures SplitCommaSpace(Join(LabelNames(labels), ", ")) == LabelNames(labels)
  {
    SplitJoin(LabelNames(labels));
  }

  /** Re-association of a concatenation, stated apart so that the proofs using
      it do not pay for sequence extensionality among larger terms. */
  lemma Regroup(f: string, x1: string, x2: string, x3: string, x4: string, x5: string, x6: string, t: string)
    ensures f + x1 + x2 + x3 + x4 + x5 + x6 + t == f + ((x1 + x2 + x3 + x4 + x5 + x6) + t)
  {
  }

  /** Re-association, kept apart for the same reason as `Regroup`. */
  lemma RegroupLast(t: string, b: string, c: string, l: string, k: string)
    ensures t + (b + (c + (l + k))) == (t + (b + (c + l))) + k
  {
  }

  /** The closing lines spelled out. */
  lemma ClosingText(n: Note, created: string, edited: string)
    ensures Closing(n, created, edited) ==
      "**Pinned**: " + (if n.isPinned == Some(true) then "Yes" else "No") + "\n"
      + "**Archived**: " + (if n.isArchived == Some(true) then "Yes" else "No") + "\n\n"
      + "**Created**: " + created + "\n"
      + "**Last Edited**: " + edited + "\n\n"
      + "---\n\n"
  {
    assert YesNo(n.isPinned.GetOr(false)) == (if n.isPinned == Some(true) then "Yes" else "No");
    assert YesNo(n.isArchived.GetOr(false)) == (if n.isArchived == Some(true) then "Yes" else "No");
    Regroup(FlagsBlock(n), "**Created**: ", created, "\n", "**Last Edited**: ", edited, "\n\n", Separator);
  }

  /** The document always ends with the pinned and archived lines (Yes exactly
      when the flag is present and true), the two dates and the separator. */
  lemma DocumentEnding(n: Note, created: string, edited: string)
    ensures EndsWith(Document(n, created, edited),
      "**Pinned**: " + (if n.isPinned == Some(true) then "Yes" else "No") + "\n"
      + "**Archived**: " + (if n.isArchived == Some(true) then "Yes" else "No") + "\n\n"
      + "**Created**: " + created + "\n"
      + "**Last Edited**: " + edited + "\n\n"
      + "---\n\n")
  {
    var closing := Closing(n, created, edited);
    var head := TitleLine(n) + (BodyBlock(n) + (ChecklistBlock(n) + LabelsBlock(n)));
    RegroupLast(TitleLine(n), BodyBlock(n), ChecklistBlock(n), LabelsBlock(n), closing);
    EndsWithAppend(head, closing);
    ClosingText(n, created, edited);
  }

  /** A record with no fields at all renders, once the zero timestamp formats,
      under the fallback heading, without checklist or labels, with both flags
      off and the formatted zero stamp for both dates. */
  lemma EmptyNoteMarkdown(format: Stamp -> Result<string, string>)
    requires format(Number(0)).Ok?
    ensures var z := format(Number(0)).value;
            var r := JsonToMarkdown(EmptyNote, format);
            && r == Ok(Document(EmptyNote, z, z))
            && "# " + "Sem Título" + "\n\n" <= r.value
            && !(ChecklistHeader <= AfterBody(EmptyNote, z, z))
            && !(LabelsPrefix <= AfterBody(EmptyNote, z, z))
            && EndsWith(r.value,
                 "**Pinned**: " + "No" + "\n"
                 + "**Archived**: " + "No" + "\n\n"
                 + "**Created**: " + z + "\n"
                 + "**Last Edited**: " + z + "\n\n"
                 + "---\n\n")
  {
    var z := format(Number(0)).value;
    DocumentTitle(EmptyNote, z, z);
    DocumentChecklistHeader(EmptyNote, z, z);
    DocumentLabels(EmptyNote, z, z);
    assert AfterBody(EmptyNote, z, z)[|ChecklistBlock(EmptyNote)|..] == AfterBody(EmptyNote, z, z);
    DocumentEnding(EmptyNote, z, z);
  }
}
