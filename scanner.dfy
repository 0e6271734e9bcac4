/** Tier 2 of body decoding: the heuristic scan of the raw `attributedBody`
    bytes for the longest run of printable text that does not look like
    archive metadata. It is only reached when structured unarchiving raised. */
module Scanner {
  import opened PyStr

  newtype byte = b: int | 0 <= b < 256

  /** Printable ASCII, 32..126: the bytes a run may start with. */
  predicate Printable(b: byte) {
    32 <= b <= 126
  }

  /** The bytes a run may continue with: printable ASCII, LF or CR. */
  predicate RunByte(b: byte) {
    Printable(b) || b == 10 || b == 13
  }

  /** Metadata markers: a run containing any of them is archive structure,
      not message content. */
  const SkipKeywords: seq<string> := [
    "streamtyped", "NSString", "NSAttributedString", "NSMutableString",
    "__kIM", "AttributeName", "NSData", "bplist", "RelativeDay",
    "DateTime", "NSNumber", "NSDate", "NSURL", "NSValue"
  ]

  predicate IsMetadata(text: string) {
    exists k :: 0 <= k < |SkipKeywords| && Contains(text, SkipKeywords[k])
  }

  /** A byte run visited by the scan: `body[start..end]`. */
  datatype Span = Span(start: nat, end: nat)

  /** An entry of the candidate list: the pair `(len(text), text)`. */
  datatype Candidate = Candidate(length: nat, text: string)

  predicate IsRun(body: seq<byte>, sp: Span) {
    sp.start < sp.end <= |body| && forall j :: sp.start <= j < sp.end ==> RunByte(body[j])
  }

  /** Where the inner loop stops when it starts at `i`: the first index at or
      after `i` that is not a run byte, or the end of the body. */
  function RunEnd(body: seq<byte>, i: nat): (e: nat)
    requires i <= |body|
    ensures i <= e <= |body|
    ensures forall j :: i <= j < e ==> RunByte(body[j])
    ensures e == |body| || !RunByte(body[e])
    ensures i < |body| && RunByte(body[i]) ==> i < e
    decreases |body| - i
  {
    if i < |body| && RunByte(body[i]) then RunEnd(body, i + 1) else i
  }

  /** The end of the maximal run from `i` is unique: any `e` that closes a run
      of run bytes starting at `i` is `RunEnd(body, i)`. */
  lemma RunEndUnique(body: seq<byte>, i: nat, e: nat)
    requires i <= e <= |body|
    requires forall j :: i <= j < e ==> RunByte(body[j])
    requires e == |body| || !RunByte(body[e])
    ensures RunEnd(body, i) == e
  {
  }

  /** A run the scan could start: a run of run bytes that begins with a
      printable byte more than four bytes before the end of the body and
      ends where the inner loop would stop. Every run the scan visits is one
      (see `Runs`), but so is the tail of a visited run; the runs actually
      visited are `Runs(body, 0)`. */
  predicate ScannedRun(body: seq<byte>, sp: Span) {
    && IsRun(body, sp)
    && sp.start + 4 < |body| && Printable(body[sp.start])
    && (sp.end == |body| || !RunByte(body[sp.end]))
  }

  /** The runs the scan visits from index `i` on: the outer loop runs while
      `i < len(body) - 4`, starts a run at a printable byte and resumes at its
      end, and otherwise steps one byte. */
  function Runs(body: seq<byte>, i: nat): (spans: seq<Span>)
    requires i <= |body|
    ensures forall k :: 0 <= k < |spans| ==> i <= spans[k].start && ScannedRun(body, spans[k])
    decreases |body| - i
  {
    if i >= |body| - 4 then []
    else if Printable(body[i]) then
      var e := RunEnd(body, i);
      [Span(i, e)] + Runs(body, e)
    else Runs(body, i + 1)
  }

  /** The scan always moves forward: each visited run lies strictly after the
      previous one, so runs never overlap and come in increasing order. */
  lemma {:induction false} RunsOrdered(body: seq<byte>, i: nat)
    requires i <= |body|
    ensures forall k :: 0 <= k < |Runs(body, i)| - 1 ==> Runs(body, i)[k].end < Runs(body, i)[k + 1].start
    decreases |body| - i
  {
    if i < |body| - 4 {
      var spans := Runs(body, i);
      if Printable(body[i]) {
        var e := RunEnd(body, i);
        var rest := Runs(body, e);
        assert spans == [Span(i, e)] + rest;
        RunsOrdered(body, e);
        forall k | 0 <= k < |spans| - 1 ensures spans[k].end < spans[k + 1].start {
          assert spans[k + 1] == rest[k];
          if k == 0 {
            assert ScannedRun(body, rest[0]) && e <= rest[0].start;
            assert rest[0].start != e;
          } else {
            assert spans[k] == rest[k - 1];
          }
        }
      } else {
        assert spans == Runs(body, i + 1);
        RunsOrdered(body, i + 1);
      }
    }
  }

  predicate IsAscii(bs: seq<byte>) {
    forall k :: 0 <= k < |bs| ==> bs[k] < 128
  }

  /** Every byte of a run is ASCII, so decoding it as strict UTF-8 cannot fail. */
  lemma RunIsAscii(body: seq<byte>, sp: Span)
    requires IsRun(body, sp)
    ensures IsAscii(body[sp.start..sp.end])
  {
    forall k | 0 <= k < sp.end - sp.start ensures body[sp.start..sp.end][k] < 128 {
      assert RunByte(body[sp.start + k]);
    }
  }

  /** The strict UTF-8 decoding of bytes that are all ASCII: one character per
      byte with the same code. */
  function DecodeAscii(bs: seq<byte>): (s: string)
    requires IsAscii(bs)
    ensures |s| == |bs|
    ensures forall k :: 0 <= k < |bs| ==> s[k] as int == bs[k] as int
  {
    seq(|bs|, k requires 0 <= k < |bs| => (bs[k] as int) as char)
  }

  /** What one run contributes to the candidate list: nothing when it has five
      bytes or fewer; otherwise its decoded, stripped text, kept only when that
      has more than five characters, holds no metadata keyword and is not all
      digits once spaces are removed. */
  function CandidateOf(body: seq<byte>, sp: Span): (r: Option<Candidate>)
    requires IsRun(body, sp)
    ensures r.Some? ==> && r.value.length == |r.value.text|
                        && 5 < r.value.length <= sp.end - sp.start
  {
    if sp.end > sp.start + 5 then
      RunIsAscii(body, sp);
      var potential := Strip(DecodeAscii(body[sp.start..sp.end]));
      if !IsMetadata(potential) && |potential| > 5 && !IsAsciiDigits(RemoveSpaces(potential))
      then Some(Candidate(|potential|, potential))
      else None
    else None
  }

  /** The candidate list built from a sequence of runs, in scan order. */
  function Candidates(body: seq<byte>, spans: seq<Span>): seq<Candidate>
    requires forall k :: 0 <= k < |spans| ==> IsRun(body, spans[k])
  {
    if spans == [] then []
    else
      Listed(CandidateOf(body, spans[0])) + Candidates(body, spans[1..])
  }

  /** Every entry of the candidate list is a `(len(text), text)` pair whose
      text is longer than 5 characters, no longer than the body, and holds
      no keyword. */
  lemma {:induction false} CandidatesBounded(body: seq<byte>, spans: seq<Span>)
    requires forall k :: 0 <= k < |spans| ==> IsRun(body, spans[k])
    ensures forall c :: c in Candidates(body, spans) ==>
      && c.length == |c.text|
      && 5 < c.length <= |body|
      && !IsMetadata(c.text)
  {
    if spans != [] {
      CandidatesBounded(body, spans[1..]);
    }
  }

  function Listed(o: Option<Candidate>): seq<Candidate> {
    match o
    case Some(c) => [c]
    case None => []
  }

  /** One step of the outer loop, stated on the candidate lists. */
  lemma ScanStep(body: seq<byte>, i: nat)
    requires i < |body| - 4
    ensures Printable(body[i]) ==>
      Candidates(body, Runs(body, i)) ==
        Listed(CandidateOf(body, Span(i, RunEnd(body, i)))) + Candidates(body, Runs(body, RunEnd(body, i)))
    ensures !Printable(body[i]) ==>
      Candidates(body, Runs(body, i)) == Candidates(body, Runs(body, i + 1))
  {
    if Printable(body[i]) {
      var e := RunEnd(body, i);
      assert Runs(body, i) == [Span(i, e)] + Runs(body, e);
      assert Runs(body, i)[1..] == Runs(body, e);
    }
  }

  /** Python's `<=` on the tuples `(len, text)`. */
  predicate CandidateLe(a: Candidate, b: Candidate) {
    a.length < b.length || (a.length == b.length && LexLe(a.text, b.text))
  }

  lemma CandidateLeTotal(a: Candidate, b: Candidate)
    ensures CandidateLe(a, b) || CandidateLe(b, a)
  {
    LexLeTotal(a.text, b.text);
  }

  lemma CandidateLeTransitive(a: Candidate, b: Candidate, c: Candidate)
    requires CandidateLe(a, b) && CandidateLe(b, c)
    ensures CandidateLe(a, c)
  {
    if a.length == b.length == c.length {
      LexLeTransitive(a.text, b.text, c.text);
    }
  }

  /** The first element of the candidate list after `sort(reverse=True)`:
      the greatest candidate under the tuple order, so the longest text, and
      among texts of equal length the lexicographically greatest. None when
      there are no candidates. */
  function Best(cs: seq<Candidate>): (r: Option<Candidate>)
    ensures r.None? <==> cs == []
    ensures r.Some? ==> r.value in cs && forall c :: c in cs ==> CandidateLe(c, r.value)
  {
    if cs == [] then None
    else
      match Best(cs[1..])
      case None =>
        CandidateLeTotal(cs[0], cs[0]);
        Some(cs[0])
      case Some(b) =>
        if CandidateLe(cs[0], b) then Some(b)
        else
          CandidateLeTotal(cs[0], b);
          assert forall c :: c in cs ==> CandidateLe(c, cs[0]) by {
            forall c | c in cs ensures CandidateLe(c, cs[0]) {
              if c == cs[0] {
                CandidateLeTotal(c, c);
              } else {
                assert c in cs[1..];
                CandidateLeTransitive(c, b, cs[0]);
              }
            }
          }
          Some(cs[0])
  }

  /** The greatest element is unique, so a descending sort puts exactly
      `Best(cs)` first, however the ties among other elements fall. */
  lemma BestUnique(cs: seq<Candidate>, c: Candidate)
    requires c in cs && forall d :: d in cs ==> CandidateLe(d, c)
    ensures Best(cs) == Some(c)
  {
    var b := Best(cs).value;
    assert CandidateLe(b, c) && CandidateLe(c, b);
    LexLeAntisymmetric(b.text, c.text);
  }

  /** The text Tier 2 yields for a body. */
  function HeuristicText(body: seq<byte>): (r: Option<string>)
    ensures r.Some? ==> 5 < |r.value| <= |body| && !IsMetadata(r.value)
  {
    CandidatesBounded(body, Runs(body, 0));
    match Best(Candidates(body, Runs(body, 0)))
    case None => None
    case Some(c) => Some(c.text)
  }

  /** Everything the scan requires of a run `sp` before it keeps candidate `c`:
      a maximal run of printable bytes, LF or CR that starts with a printable
      byte more than four bytes before the end of the body and is longer than
      five bytes; `c` is its stripped (ASCII, so strictly UTF-8) decoding, is
      longer than five characters, holds none of the metadata keywords and is
      not all digits once spaces are removed. */
  predicate KeptRun(body: seq<byte>, sp: Span, c: Candidate) {
    && ScannedRun(body, sp)
    && sp.end - sp.start > 5
    && IsAscii(body[sp.start..sp.end])
    && c.text == Strip(DecodeAscii(body[sp.start..sp.end]))
    && c.length == |c.text| && |c.text| > 5
    && (forall k :: 0 <= k < |SkipKeywords| ==> !Contains(c.text, SkipKeywords[k]))
    && !IsAsciiDigits(RemoveSpaces(c.text))
  }

  /** The candidate list holds one entry per run whose `CandidateOf` is
      present, and nothing else. */
  lemma {:induction false} CandidatesMembership(body: seq<byte>, spans: seq<Span>, c: Candidate)
    requires forall k :: 0 <= k < |spans| ==> IsRun(body, spans[k])
    ensures c in Candidates(body, spans) <==>
      exists k :: 0 <= k < |spans| && CandidateOf(body, spans[k]) == Some(c)
  {
    if spans != [] {
      var tail := spans[1..];
      var head := CandidateOf(body, spans[0]);
      var rest := Candidates(body, tail);
      CandidatesMembership(body, tail, c);
      assert Candidates(body, spans) == Listed(head) + rest;
      ListedMembership(head, rest, c);
      if c in Candidates(body, spans) && c in rest {
        var k :| 0 <= k < |tail| && CandidateOf(body, tail[k]) == Some(c);
        assert spans[k + 1] == tail[k];
      }
      if k :| 0 <= k < |spans| && CandidateOf(body, spans[k]) == Some(c) {
        if k > 0 {
          assert tail[k - 1] == spans[k];
        }
      }
    }
  }

  lemma ListedMembership(o: Option<Candidate>, rest: seq<Candidate>, c: Candidate)
    ensures c in Listed(o) + rest <==> o == Some(c) || c in rest
  {
  }

  /** For a run the scan visits, `CandidateOf` yields `c` exactly when the run
      is kept with `c`. */
  lemma CandidateOfIffKept(body: seq<byte>, sp: Span, c: Candidate)
    requires ScannedRun(body, sp)
    ensures CandidateOf(body, sp) == Some(c) <==> KeptRun(body, sp, c)
  {
    if sp.end > sp.start + 5 {
      RunIsAscii(body, sp);
    }
  }

  /** No printable byte that the outer loop can reach is skipped: each lies
      inside one of the runs the scan visits. */
  lemma {:induction false} ScanCoversPrintable(body: seq<byte>, i: nat, p: nat)
    requires i <= p && p + 4 < |body| && Printable(body[p])
    ensures exists k :: 0 <= k < |Runs(body, i)| && Runs(body, i)[k].start <= p < Runs(body, i)[k].end
    decreases |body| - i
  {
    var spans := Runs(body, i);
    if Printable(body[i]) {
      var e := RunEnd(body, i);
      var rest := Runs(body, e);
      assert spans == [Span(i, e)] + rest;
      if p >= e {
        ScanCoversPrintable(body, e, p);
        var k :| 0 <= k < |rest| && rest[k].start <= p < rest[k].end;
        assert spans[k + 1] == rest[k];
      } else {
        assert spans[0] == Span(i, e);
      }
    } else {
      assert spans == Runs(body, i + 1);
      ScanCoversPrintable(body, i + 1, p);
    }
  }

  /** The kept runs of a body, as candidates, are exactly its candidate list. */
  lemma ScanCandidatesAreKeptRuns(body: seq<byte>, c: Candidate)
    ensures c in Candidates(body, Runs(body, 0)) <==>
      exists k :: 0 <= k < |Runs(body, 0)| && KeptRun(body, Runs(body, 0)[k], c)
  {
    var runs := Runs(body, 0);
    CandidatesMembership(body, runs, c);
    forall k | 0 <= k < |runs|
      ensures CandidateOf(body, runs[k]) == Some(c) <==> KeptRun(body, runs[k], c)
    {
      CandidateOfIffKept(body, runs[k], c);
    }
  }

  /** Tier 2 yields nothing exactly when the scan keeps no run. */
  lemma HeuristicTextNoneIffNoneKept(body: seq<byte>)
    ensures HeuristicText(body).None? <==>
      forall k, c :: 0 <= k < |Runs(body, 0)| ==> !KeptRun(body, Runs(body, 0)[k], c)
  {
    var runs := Runs(body, 0);
    var cs := Candidates(body, runs);
    if cs == [] {
      forall k, c | 0 <= k < |runs| ensures !KeptRun(body, runs[k], c) {
        ScanCandidatesAreKeptRuns(body, c);
      }
    } else {
      var b := Best(cs).value;
      ScanCandidatesAreKeptRuns(body, b);
      var j :| 0 <= j < |runs| && KeptRun(body, runs[j], b);
    }
  }

  /** When Tier 2 yields a text, it is the text of a run the scan kept, it is
      at least as long as every other kept text, and it is lexicographically
      greatest among the kept texts of its length. */
  lemma HeuristicTextIsGreatestKept(body: seq<byte>, t: string)
    requires HeuristicText(body) == Some(t)
    ensures exists k :: 0 <= k < |Runs(body, 0)| && KeptRun(body, Runs(body, 0)[k], Candidate(|t|, t))
    ensures forall k, c :: 0 <= k < |Runs(body, 0)| && KeptRun(body, Runs(body, 0)[k], c) ==>
      |c.text| < |t| || (|c.text| == |t| && LexLe(c.text, t))
  {
    var runs := Runs(body, 0);
    var cs := Candidates(body, runs);
    var b := Best(cs).value;
    assert t == b.text;
    ScanCandidatesAreKeptRuns(body, b);
    var j :| 0 <= j < |runs| && KeptRun(body, runs[j], b);
    assert b == Candidate(|t|, t);
    forall k, c | 0 <= k < |runs| && KeptRun(body, runs[k], c)
      ensures |c.text| < |t| || (|c.text| == |t| && LexLe(c.text, t))
    {
      ScanCandidatesAreKeptRuns(body, c);
      assert CandidateLe(c, b);
    }
  }

  /** The body "aaaaaa", a NUL byte, then "bbbbbb": two runs that are kept
      with texts of equal length. */
  predicate TieBody(body: seq<byte>) {
    && |body| == 13 && body[6] == 0
    && (forall j :: 0 <= j < 6 ==> body[j] == 97)
    && (forall j :: 7 <= j < 13 ==> body[j] == 98)
  }

  /** Two kept runs of equal length: the later, lexicographically greater
      one wins, not the first occurrence. */
  lemma TieBrokenByGreaterText(body: seq<byte>)
    requires TieBody(body)
    ensures HeuristicText(body) == Some("bbbbbb")
  {
    var a, b := Candidate(6, "aaaaaa"), Candidate(6, "bbbbbb");
    TieCandidates(body);
    BestOfTwo(a, b);
  }

  lemma BestOfTwo(a: Candidate, b: Candidate)
    requires CandidateLe(a, b)
    ensures Best([a, b]) == Some(b)
  {
    assert [a, b][1..] == [b];
    assert [b][1..] == [];
  }

  lemma TieCandidates(body: seq<byte>)
    requires TieBody(body)
    ensures Candidates(body, Runs(body, 0)) == [Candidate(6, "aaaaaa"), Candidate(6, "bbbbbb")]
  {
    TieRuns(body);
    LetterRunKept(body, Span(0, 6), 'a');
    LetterRunKept(body, Span(7, 13), 'b');
    TwoCandidates(body, Span(0, 6), Span(7, 13), Candidate(6, "aaaaaa"), Candidate(6, "bbbbbb"));
  }

  lemma TwoCandidates(body: seq<byte>, s1: Span, s2: Span, a: Candidate, b: Candidate)
    requires IsRun(body, s1) && IsRun(body, s2)
    requires CandidateOf(body, s1) == Some(a) && CandidateOf(body, s2) == Some(b)
    ensures Candidates(body, [s1, s2]) == [a, b]
  {
    CandidatesCons(body, s2, []);
    CandidatesCons(body, s1, [s2]);
  }

  lemma CandidatesCons(body: seq<byte>, sp: Span, rest: seq<Span>)
    requires IsRun(body, sp) && forall k :: 0 <= k < |rest| ==> IsRun(body, rest[k])
    ensures Candidates(body, [sp] + rest) == Listed(CandidateOf(body, sp)) + Candidates(body, rest)
  {
    assert ([sp] + rest)[1..] == rest;
  }

  /** A run of six copies of one lower-case letter is kept as it is. */
  lemma LetterRunKept(body: seq<byte>, sp: Span, ch: char)
    requires IsRun(body, sp) && sp.end == sp.start + 6
    requires 'a' <= ch <= 'z'
    requires forall j :: sp.start <= j < sp.end ==> body[j] as int == ch as int
    ensures CandidateOf(body, sp) == Some(Candidate(6, [ch, ch, ch, ch, ch, ch]))
  {
    var t := [ch, ch, ch, ch, ch, ch];
    RunIsAscii(body, sp);
    assert DecodeAscii(body[sp.start..sp.end]) == t;
    StripUnchanged(t);
    NoKeywordInRepeat(t);
    assert ch in RemoveSpaces(t);
  }

  lemma TieRuns(body: seq<byte>)
    requires TieBody(body)
    ensures Runs(body, 0) == [Span(0, 6), Span(7, 13)]
  {
    RunEndUnique(body, 7, 13);
    assert Runs(body, 13) == [];
    assert Runs(body, 7) == [Span(7, 13)] + Runs(body, 13);
    assert Runs(body, 6) == Runs(body, 7);
    RunEndUnique(body, 0, 6);
    assert Runs(body, 0) == [Span(0, 6)] + Runs(body, 6);
  }

  /** A text that repeats one character contains no metadata keyword: every
      keyword starts and ends with different characters. */
  lemma NoKeywordInRepeat(t: string)
    requires forall k :: 0 <= k < |t| ==> t[k] == t[0]
    ensures !IsMetadata(t)
  {
    KeywordEndsDiffer();
    forall k | 0 <= k < |SkipKeywords| ensures !Contains(t, SkipKeywords[k]) {
      NoDistinctEndsInRepeat(t, SkipKeywords[k]);
    }
  }

  lemma KeywordEndsDiffer()
    ensures forall k :: 0 <= k < |SkipKeywords| ==>
      |SkipKeywords[k]| > 0 && SkipKeywords[k][0] != SkipKeywords[k][|SkipKeywords[k]| - 1]
  {
  }

  /** A text that repeats one character does not contain a word whose first
      and last characters differ. */
  lemma NoDistinctEndsInRepeat(t: string, w: string)
    requires forall k :: 0 <= k < |t| ==> t[k] == t[0]
    requires |w| > 0 && w[0] != w[|w| - 1]
    ensures !Contains(t, w)
  {
    ContainsIffOccurs(t, w);
    if i :| OccursAt(t, w, i) {
      assert false;
    }
  }

  /** Regrouping a three-part concatenation. Stated as its own lemma
      because the same fact asserted inside `ScanBody` makes that proof far
      more expensive. */
  lemma AppendAssociative<T>(a: seq<T>, b: seq<T>, c: seq<T>)
    ensures (a + b) + c == a + (b + c)
  {
  }

  /** One run of the scan, from a printable byte at `i`: the inner loop finds
      where the run ends, and the candidate test decides what it adds. */
  method ScanRun(body: seq<byte>, i: nat) returns (end: nat, found: Option<Candidate>)
    requires i < |body| && Printable(body[i])
    ensures end == RunEnd(body, i) && i < end
    ensures found == CandidateOf(body, Span(i, end))
  {
    end := i;
    while end < |body| && ((32 <= body[end] <= 126) || body[end] == 10 || body[end] == 13)
      invariant i <= end <= |body|
      invariant RunEnd(body, end) == RunEnd(body, i)
    {
      end := end + 1;
    }
    found := None;
    if end > i + 5 {
      RunIsAscii(body, Span(i, end));
      var potential := Strip(DecodeAscii(body[i..end]));
      if !IsMetadata(potential) && |potential| > 5 && !IsAsciiDigits(RemoveSpaces(potential)) {
        found := Some(Candidate(|potential|, potential));
      }
    }
  }

  /** The scan itself: an outer loop over start positions that consumes a
      whole run at a printable byte and otherwise steps one byte, the
      candidate list built by appending, and the greatest candidate taken. */
  method ScanBody(body: seq<byte>) returns (text: Option<string>)
    ensures text == HeuristicText(body)
  {
    ghost var all := Candidates(body, Runs(body, 0));
    var candidates: seq<Candidate> := [];
    var i := 0;
    while i < |body| - 4
      invariant 0 <= i <= |body|
      invariant candidates + Candidates(body, Runs(body, i)) == all
    {
      ScanStep(body, i);
      if 32 <= body[i] <= 126 {
        var end, found := ScanRun(body, i);
        ghost var rest := Candidates(body, Runs(body, end));
        ghost var before := candidates;
        if found.Some? {
          candidates := candidates + [found.value];
        }
        assert candidates == before + Listed(found);
        AppendAssociative(before, Listed(found), rest);
        i := end;
      } else {
        i := i + 1;
      }
    }
    assert Runs(body, i) == [];
    assert candidates == all;
    text := None;
    if candidates != [] {
      text := Some(Best(candidates).value.text);
    }
  }
}
