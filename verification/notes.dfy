/** A Google Keep note record after JSON decoding. Every key may be missing;
    `None` stands for an absent key. */
module Notes {
  import opened Wrappers

  /** A raw timestamp field: a JSON integer or a string of digits, in
      microseconds since the epoch. */
  datatype Stamp = Number(n: int) | Digits(text: string)

  /** One entry of `listContent`. */
  datatype ListItem = ListItem(text: Option<string>, isChecked: Option<bool>)

  /** One entry of `labels`. */
  datatype Label = Label(name: string)

  datatype Note = Note(
    title: Option<string>,
    textContent: Option<string>,
    listContent: Option<seq<ListItem>>,
    labels: Option<seq<Label>>,
    isPinned: Option<bool>,
    isArchived: Option<bool>,
    createdTimestampUsec: Option<Stamp>,
    userEditedTimestampUsec: Option<Stamp>)

  /** A record with none of the known keys. */
  const EmptyNote: Note := Note(None, None, None, None, None, None, None, None)
}
