/** The dialog that corrects a recorded turn (components/EditScoreModal.tsx):
    it opens with the entry's score and note in two text fields and, on Save,
    hands back the entry with the new score and note. */
module EditScoreModal {
  import opened Wrappers
  import opened JsText
  import opened Records

  datatype Fields = Fields(score: string, note: string)

  /** The fields as the dialog opens on `entry`, and as they are reset
      whenever it is given a different entry: the score as text and the note. */
  function Open(entry: Entry): (f: Fields)
    ensures ParseInt(f.score) == Some(entry.score)
    ensures f.note == entry.note
  {
    ParseIntOfIntToString(entry.score, "");
    assert IntToString(entry.score) + "" == IntToString(entry.score);
    Fields(IntToString(entry.score), entry.note)
  }

  /** `handleSave`: when the score text parses, the entry with the parsed
      score and the note as typed, keeping its id and player; otherwise
      nothing is saved. */
  function HandleSave(entry: Entry, f: Fields): (r: Option<Entry>)
    ensures r.Some? <==> ParseInt(f.score).Some?
    ensures r.Some? ==> r.value.id == entry.id && r.value.player == entry.player
    ensures r.Some? ==> r.value.score == ParseInt(f.score).value && r.value.note == f.note
  {
    match ParseInt(f.score)
    case Some(v) => Some(entry.(score := v, note := f.note))
    case None => None
  }

  /** Saving the dialog without touching it gives back the very same entry. */
  lemma SaveUntouchedIsIdentity(entry: Entry)
    ensures HandleSave(entry, Open(entry)) == Some(entry)
  {
  }
}
