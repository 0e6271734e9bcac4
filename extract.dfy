/** The per-message loop of `extract_messages`: decoding each row's archived
    body (Tier 1, and Tier 2 only when Tier 1 raises), falling back to the
    plain-text column, and choosing the line printed for the row. The rows are
    the result of the chat query, already in date order; the query itself and
    the archive decoder are outside the model (the decoder is a parameter). */
module Extract {
  import opened PyStr
  import opened Scanner
  import opened Probe

  /** What `archiver.unarchive` does with a body: returns an object, or
      raises (any exception between the call and the end of Tier 1). */
  datatype Unarchived = Archived(root: Node) | Raised

  /** One fetched row: `(ROWID, text, attributedBody, date, is_from_me)`, with
      the date already formatted by the query. */
  datatype Row = Row(
    rowid: int,
    text: Option<string>,
    attributedBody: Option<seq<byte>>,
    date: string,
    isFromMe: Option<int>)

  /** Python truthiness of an optional string (`None` and `""` are false). */
  predicate TruthyText(t: Option<string>) {
    t.Some? && t.value != []
  }

  /** Has text that is neither blank nor a lone attachment placeholder. */
  predicate Meaningful(s: string) {
    Strip(s) != [] && Strip(s) != [ObjectReplacement]
  }

  /** The text decoded from the archived body: None when there is no body or
      it is empty; Tier 1 on the unarchived object; the byte scan only when
      unarchiving raised. */
  function DecodedText(body: Option<seq<byte>>, unarchive: seq<byte> -> Unarchived): (r: Option<string>)
    ensures body.None? || body.value == [] ==> r.None?
    ensures r.Some? && unarchive(body.value).Raised? ==> 5 < |r.value| <= |body.value|
    ensures r.Some? && unarchive(body.value).Archived? ==> !unarchive(body.value).root.Other?
  {
    if body.None? || body.value == [] then None
    else
      match unarchive(body.value)
      case Archived(root) => ProbeText(root)
      case Raised => HeuristicText(body.value)
  }

  /** The text after the plain-text fallback: the `text` column, unstripped,
      replaces a falsy decoded text when it is meaningful. */
  function FinalText(decoded: Option<string>, text: Option<string>): (r: Option<string>)
    ensures r == decoded || r == text
    ensures TruthyText(r) <==> TruthyText(decoded) || (text.Some? && Meaningful(text.value))
  {
    if !TruthyText(decoded) && text.Some? && Meaningful(text.value) then text else decoded
  }

  /** `"Me" if is_from_me else "Them"` */
  function Sender(isFromMe: Option<int>): (r: string)
    ensures r == "Me" || r == "Them"
    ensures r == "Me" <==> isFromMe.Some? && isFromMe.value != 0
  {
    if isFromMe.Some? && isFromMe.value != 0 then "Me" else "Them"
  }

  function Line(date: string, sender: string, body: string): string {
    "[" + date + "] " + sender + ": " + body
  }

  const NonTextPlaceholder: string := "[non-text content]"

  /** The lines printed for one row: the message, the placeholder (debug
      only), or nothing. */
  function RowLines(row: Row, unarchive: seq<byte> -> Unarchived, debug: bool): (r: seq<string>)
    ensures |r| <= 1
    ensures debug ==> |r| == 1
  {
    var t := FinalText(DecodedText(row.attributedBody, unarchive), row.text);
    if TruthyText(t) && Strip(t.value) != [ObjectReplacement] then
      [Line(row.date, Sender(row.isFromMe), t.value)]
    else if debug then
      [Line(row.date, Sender(row.isFromMe), NonTextPlaceholder)]
    else
      []
  }

  /** The lines printed for the rows, in row order. */
  function Transcript(rows: seq<Row>, unarchive: seq<byte> -> Unarchived, debug: bool): (lines: seq<string>)
    ensures forall l :: l in lines ==> exists k :: 0 <= k < |rows| && l in RowLines(rows[k], unarchive, debug)
  {
    if rows == [] then []
    else
      var init := rows[..|rows| - 1];
      assert forall k :: 0 <= k < |init| ==> init[k] == rows[k];
      Transcript(init, unarchive, debug) + RowLines(rows[|rows| - 1], unarchive, debug)
  }

  /** Body decoding as the source runs it: Tier 1 inside a `try`, and the byte
      scan in its `except` branch. */
  method DecodeBody(body: Option<seq<byte>>, unarchive: seq<byte> -> Unarchived)
    returns (messageText: Option<string>)
    ensures messageText == DecodedText(body, unarchive)
  {
    messageText := None;
    if body.Some? && |body.value| > 0 {
      var decoded := unarchive(body.value);
      match decoded {
        case Archived(root) =>
          messageText := ProbeText(root);
        case Raised =>
          messageText := ScanBody(body.value);
      }
    }
  }

  /** The loop over the fetched rows: the header count, then each row's
      lines. No row stops the loop. */
  method ExtractMessages(rows: seq<Row>, unarchive: seq<byte> -> Unarchived, debug: bool)
    returns (found: nat, lines: seq<string>)
    ensures found == |rows|
    ensures lines == Transcript(rows, unarchive, debug)
  {
    found := |rows|;
    lines := [];
    for k := 0 to |rows|
      invariant lines == Transcript(rows[..k], unarchive, debug)
    {
      var row := rows[k];
      var messageText := DecodeBody(row.attributedBody, unarchive);
      if !TruthyText(messageText) && row.text.Some? && Meaningful(row.text.value) {
        messageText := row.text;
      }
      var sender := Sender(row.isFromMe);
      if TruthyText(messageText) && Strip(messageText.value) != [ObjectReplacement] {
        lines := lines + [Line(row.date, sender, messageText.value)];
      } else if debug {
        lines := lines + [Line(row.date, sender, NonTextPlaceholder)];
      }
      assert rows[..k + 1][..k] == rows[..k];
    }
    assert rows[..|rows|] == rows;
  }

  /** Each row prints at most one line, and exactly one in debug mode, so
      the header count bounds the printed lines and equals them in debug
      mode. */
  lemma {:induction false} TranscriptLength(rows: seq<Row>, unarchive: seq<byte> -> Unarchived, debug: bool)
    ensures |Transcript(rows, unarchive, debug)| <= |rows|
    ensures debug ==> |Transcript(rows, unarchive, debug)| == |rows|
  {
    if rows != [] {
      TranscriptLength(rows[..|rows| - 1], unarchive, debug);
    }
  }

  /** Rows are handled independently and in order: the lines for two batches
      of rows are the lines of the first followed by those of the second. */
  lemma {:induction false} TranscriptConcat(a: seq<Row>, b: seq<Row>, unarchive: seq<byte> -> Unarchived, debug: bool)
    ensures Transcript(a + b, unarchive, debug) == Transcript(a, unarchive, debug) + Transcript(b, unarchive, debug)
    decreases |b|
  {
    if b != [] {
      var b' := b[..|b| - 1];
      assert (a + b)[..|a + b| - 1] == a + b';
      assert (a + b)[|a + b| - 1] == b[|b| - 1];
      TranscriptConcat(a, b', unarchive, debug);
    } else {
      assert a + b == a;
    }
  }

  /** The fallback rule: the final text is the decoded text when that is
      truthy; otherwise the `text` column when it is meaningful, taken
      unstripped; otherwise the (falsy) decoded text. */
  lemma FallbackRule(decoded: Option<string>, text: Option<string>)
    ensures TruthyText(decoded) ==> FinalText(decoded, text) == decoded
    ensures FinalText(decoded, text) != decoded ==>
      FinalText(decoded, text) == text && text.Some? && Meaningful(text.value)
    ensures TruthyText(FinalText(decoded, text)) <==>
      TruthyText(decoded) || (text.Some? && Meaningful(text.value))
  {
    if text.Some? && Meaningful(text.value) {
      MeaningfulIsTruthy(text.value);
    }
  }

  /** Meaningful text is non-empty. */
  lemma MeaningfulIsTruthy(s: string)
    requires Meaningful(s)
    ensures s != []
  {
    assert Strip([]) == [];
  }

  /** A row prints its message exactly when the decoded text is truthy and
      not a lone placeholder, or the decoded text is falsy and the `text`
      column is meaningful; the text printed is the decoded text in the first
      case and the `text` column, unstripped, in the second. */
  lemma RowShowsMessageIff(row: Row, unarchive: seq<byte> -> Unarchived, debug: bool)
    ensures
      var d := DecodedText(row.attributedBody, unarchive);
      && (TruthyText(d) && Strip(d.value) != [ObjectReplacement] ==>
            RowLines(row, unarchive, debug) == [Line(row.date, Sender(row.isFromMe), d.value)])
      && (TruthyText(d) && Strip(d.value) == [ObjectReplacement] ==>
            RowLines(row, unarchive, debug) == (if debug then [Line(row.date, Sender(row.isFromMe), NonTextPlaceholder)] else []))
      && (!TruthyText(d) && row.text.Some? && Meaningful(row.text.value) ==>
            RowLines(row, unarchive, debug) == [Line(row.date, Sender(row.isFromMe), row.text.value)])
      && (!TruthyText(d) && !(row.text.Some? && Meaningful(row.text.value)) ==>
            RowLines(row, unarchive, debug) == (if debug then [Line(row.date, Sender(row.isFromMe), NonTextPlaceholder)] else []))
  {
    var d := DecodedText(row.attributedBody, unarchive);
    FallbackRule(d, row.text);
  }

  /** A decoded text that is a lone U+FFFC is truthy, so it blocks the
      fallback: the row prints no message even when its `text` column holds
      one. */
  lemma PlaceholderBlocksFallback(row: Row, unarchive: seq<byte> -> Unarchived, debug: bool)
    requires DecodedText(row.attributedBody, unarchive) == Some([ObjectReplacement])
    ensures FinalText(DecodedText(row.attributedBody, unarchive), row.text) == Some([ObjectReplacement])
    ensures RowLines(row, unarchive, debug)
      == if debug then [Line(row.date, Sender(row.isFromMe), NonTextPlaceholder)] else []
  {
    StripUnchanged([ObjectReplacement]);
  }

  /** A row whose `text` column is only U+FFFC, without a body, prints
      nothing, or the placeholder in debug mode. */
  lemma AttachmentRowHidden(row: Row, unarchive: seq<byte> -> Unarchived, debug: bool)
    requires row.attributedBody.None? && row.text == Some([ObjectReplacement])
    ensures RowLines(row, unarchive, debug)
      == if debug then [Line(row.date, Sender(row.isFromMe), NonTextPlaceholder)] else []
  {
    StripUnchanged([ObjectReplacement]);
  }

  /** A row without a body whose `text` column is meaningful prints that
      text as stored, surrounding whitespace included. */
  lemma PlainTextShownVerbatim(row: Row, unarchive: seq<byte> -> Unarchived, debug: bool)
    requires row.attributedBody.None? && row.text.Some? && Meaningful(row.text.value)
    ensures RowLines(row, unarchive, debug) == [Line(row.date, Sender(row.isFromMe), row.text.value)]
  {
    MeaningfulIsTruthy(row.text.value);
    StripEmptyIffBlank(row.text.value);
  }

  /** Decoded text that is whitespace only is truthy, so it is printed as
      it is and the `text` column is never consulted. */
  lemma BlankDecodedIsPrinted(row: Row, unarchive: seq<byte> -> Unarchived, debug: bool, s: string)
    requires DecodedText(row.attributedBody, unarchive) == Some(s)
    requires s != [] && IsBlank(s)
    ensures RowLines(row, unarchive, debug) == [Line(row.date, Sender(row.isFromMe), s)]
  {
    StripEmptyIffBlank(s);
  }

  /** The byte scan runs only when unarchiving raised: an object that yields
      no text leaves the row undecoded, whatever the bytes hold. */
  lemma ScanOnlyAfterRaise(body: seq<byte>, unarchive: seq<byte> -> Unarchived)
    requires body != []
    ensures unarchive(body).Archived? ==> DecodedText(Some(body), unarchive) == ProbeText(unarchive(body).root)
    ensures unarchive(body).Raised? ==> DecodedText(Some(body), unarchive) == HeuristicText(body)
  {
  }

  /** An instance: a body whose bytes would give the scan a candidate, but
      which unarchives to an object with no text, decodes to nothing. */
  lemma UnscannedWhenArchived(body: seq<byte>, unarchive: seq<byte> -> Unarchived)
    requires TieBody(body)
    requires unarchive(body) == Archived(Other)
    ensures HeuristicText(body) == Some("bbbbbb")
    ensures DecodedText(Some(body), unarchive) == None
  {
    TieBrokenByGreaterText(body);
  }

  /** Every printed message line shows text that came from the row: the
      `text` column, the object Tier 1 probed, or one of the runs the scan
      visits in the body and keeps. */
  lemma ShownTextProvenance(row: Row, unarchive: seq<byte> -> Unarchived, t: string)
    requires FinalText(DecodedText(row.attributedBody, unarchive), row.text) == Some(t)
    ensures
      || row.text == Some(t)
      || (&& row.attributedBody.Some?
          && unarchive(row.attributedBody.value).Archived?
          && ProbeText(unarchive(row.attributedBody.value).root) == Some(t))
      || (&& row.attributedBody.Some?
          && unarchive(row.attributedBody.value).Raised?
          && var body := row.attributedBody.value;
          exists k :: 0 <= k < |Runs(body, 0)| && KeptRun(body, Runs(body, 0)[k], Candidate(|t|, t)))
  {
    var d := DecodedText(row.attributedBody, unarchive);
    if d == Some(t) && row.attributedBody.Some? && row.attributedBody.value != []
      && unarchive(row.attributedBody.value).Raised?
    {
      HeuristicTextIsGreatestKept(row.attributedBody.value, t);
    }
  }
}
