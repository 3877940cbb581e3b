/** The turn input under the scoreboard (components/ScoreEntry.tsx): a score
    field and a note field, and an End Turn button that reports one turn to
    the scoreboard. */
module ScoreEntry {
  import opened Wrappers
  import opened JsText

  /** The two text fields, both empty when the component mounts. */
  datatype Fields = Fields(score: string, note: string)

  const EmptyFields := Fields("", "")

  /** A turn handed to the scoreboard's `onAddEntry`. */
  datatype Report = Report(score: int, note: string)

  /** What pressing End Turn does: the turn reported, if any, and the fields
      left behind. */
  datatype Outcome = Outcome(report: Option<Report>, fields: Fields)

  /** `handleEndTurn`. A blank score is a Farkle worth 0 points; a score that
      `parseInt` reads is reported with the note as typed; any other score is
      rejected with a warning and both fields keep their text. Once a turn is
      reported both fields are cleared. */
  function HandleEndTurn(f: Fields): (r: Outcome)
    ensures AllWhitespace(f.score) ==> r.report == Some(Report(0, "Farkle"))
    ensures !AllWhitespace(f.score) && ParseInt(f.score).Some? ==>
      r.report == Some(Report(ParseInt(f.score).value, f.note))
    ensures r.report.None? <==> !AllWhitespace(f.score) && ParseInt(f.score).None?
    ensures r.report.None? ==> r.fields == f
    ensures r.report.Some? ==> r.fields == EmptyFields
  {
    TrimBlankIff(f.score);
    if Trim(f.score) == "" then Outcome(Some(Report(0, "Farkle")), EmptyFields)
    else
      match ParseInt(f.score)
      case Some(v) => Outcome(Some(Report(v, f.note)), EmptyFields)
      case None => Outcome(None, f)
  }

  /** `buttonLabel`: "Farkle!" while the score field is blank, "End Turn"
      otherwise. */
  function ButtonLabel(f: Fields): (text: string)
    ensures text == "Farkle!" <==> AllWhitespace(f.score)
    ensures text == "End Turn" <==> !AllWhitespace(f.score)
  {
    TrimBlankIff(f.score);
    if Trim(f.score) == "" then "Farkle!" else "End Turn"
  }

  /** The label announces what the button does: "Farkle!" always records a
      zero-point Farkle, and "End Turn" never does so for blank input. */
  lemma LabelPredictsOutcome(f: Fields)
    ensures ButtonLabel(f) == "Farkle!" ==> HandleEndTurn(f).report == Some(Report(0, "Farkle"))
    ensures ButtonLabel(f) == "End Turn" && HandleEndTurn(f).report.Some? ==>
      HandleEndTurn(f).report.value == Report(ParseInt(f.score).value, f.note)
  {
  }

  /** A typed number is reported exactly as typed, note included. */
  lemma TypedNumberReported(n: int, note: string)
    ensures HandleEndTurn(Fields(IntToString(n), note)) == Outcome(Some(Report(n, note)), EmptyFields)
  {
    var f := Fields(IntToString(n), note);
    ParseIntOfIntToString(n, "");
    assert f.score + "" == f.score;
    assert !AllWhitespace(f.score) by {
      assert !IsWhitespace(f.score[0]);
    }
  }
}
