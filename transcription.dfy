/** The cloud transcription stage (`transcribe_gcloud_linear16`): the choice
    between the synchronous and the long-running recognition call, and the
    assembly of the transcript from the recogniser's result segments. The
    remote service itself is a parameter: a function from the chosen backend
    to the response it returns, or to nothing when the call raises. */
module Transcription {
  import opened Outcomes
  import Seqs
  import opened Text
  import Capture

  /** The two recognition calls of the speech client. */
  datatype Backend = Synchronous | LongRunning

  /** LINEAR16 mono: two bytes per sample. */
  const BytesPerSample: int := 2
  /** Audio longer than this many seconds goes to the long-running call. */
  const ThresholdSeconds: real := 60.0
  /** Upper bound, in seconds, on the wait for a long-running result; the
      remote call is a parameter here, so the bound only documents the source. */
  const LongRunningTimeoutSeconds: nat := 300

  /** One result segment: the transcripts of its alternatives, best first. */
  type Segment = seq<string>
  /** The `results` of a recognition response, in order. */
  type Response = seq<Segment>

  /** `len(audio_bytes) / (2 * sample_rate)`, as an exact quotient. */
  function DurationSeconds(byteCount: nat, rate: int): (seconds: real)
    requires rate != 0
    ensures seconds * (BytesPerSample * rate) as real == byteCount as real
    ensures rate > 0 ==> seconds >= 0.0
  {
    byteCount as real / (BytesPerSample * rate) as real
  }

  /** The backend chosen for `byteCount` bytes at `rate` samples per second.
      For a positive rate, the long-running call is chosen exactly when the
      audio holds more than 60 seconds, that is more than `120 * rate` bytes;
      a negative rate gives a non-positive duration and the synchronous call. */
  function ChooseBackend(byteCount: nat, rate: int): (b: Backend)
    requires rate != 0
    ensures rate > 0 ==> (b == LongRunning <==> byteCount > 120 * rate)
    ensures rate < 0 ==> b == Synchronous
  {
    DurationThreshold(byteCount, rate);
    if DurationSeconds(byteCount, rate) > ThresholdSeconds then LongRunning else Synchronous
  }

  /** The duration in integers: more than 60 seconds means more than `120 * rate`
      bytes when the rate is positive, and never happens for a negative rate. */
  lemma DurationThreshold(byteCount: nat, rate: int)
    requires rate != 0
    ensures rate > 0 ==> (DurationSeconds(byteCount, rate) > ThresholdSeconds <==> byteCount > 120 * rate)
    ensures rate < 0 ==> DurationSeconds(byteCount, rate) <= 0.0
  {
    var den := (BytesPerSample * rate) as real;
    var len := byteCount as real;
    if rate > 0 {
      QuotientAbove(len, den, ThresholdSeconds);
      assert ThresholdSeconds * den == (120 * rate) as real;
    } else {
      QuotientNonPositive(len, den);
    }
  }

  /** Exactly 60 seconds of audio still takes the synchronous call; one more
      byte takes the long-running one. */
  lemma SixtySecondsBoundary(rate: int)
    requires rate > 0
    ensures ChooseBackend(120 * rate, rate) == Synchronous
    ensures ChooseBackend(120 * rate + 1, rate) == LongRunning
  {
  }

  lemma QuotientAbove(x: real, y: real, c: real)
    requires y > 0.0
    ensures x / y > c <==> x > c * y
  {
  }

  lemma QuotientNonPositive(x: real, y: real)
    requires x >= 0.0 && y < 0.0
    ensures x / y <= 0.0
  {
  }

  /** `if r.alternatives:` — a segment contributes only when it has alternatives. */
  predicate HasAlternatives(segment: Segment)
  {
    |segment| > 0
  }

  /** The `parts` list: the stripped first alternative of every segment that
      has one, in segment order (defined from the last segment). */
  function Parts(results: Response): (parts: seq<string>)
    ensures |parts| <= |results|
  {
    if results == [] then []
    else
      var last := results[|results| - 1];
      Parts(results[..|results| - 1]) + (if HasAlternatives(last) then [Strip(last[0])] else [])
  }

  /** `" ".join(parts).strip()`. */
  function TranscriptOf(results: Response): (transcript: string)
    ensures IsStripped(transcript)
    ensures |transcript| <= |Join(" ", Parts(results))|
  {
    Strip(Join(" ", Parts(results)))
  }

  /** The parts are, position by position, the stripped first alternatives of the
      segments that have alternatives, taken in ascending segment order; no other
      alternative is ever used. */
  lemma {:induction false} PartsAreFirstAlternatives(results: Response)
    ensures |Parts(results)| == |Seqs.IndicesWhere(results, HasAlternatives)|
    ensures forall j :: 0 <= j < |Parts(results)| ==>
              var k := Seqs.IndicesWhere(results, HasAlternatives)[j];
              k < |results| && HasAlternatives(results[k]) && Parts(results)[j] == Strip(results[k][0])
  {
    if results != [] {
      var init := results[..|results| - 1];
      var last := results[|results| - 1];
      assert results == init + [last];
      PartsAreFirstAlternatives(init);
      Seqs.IndicesWhereSnoc(init, last, HasAlternatives);
      var ks := Seqs.IndicesWhere(init, HasAlternatives);
      forall j | 0 <= j < |ks| ensures results[ks[j]] == init[ks[j]] {
      }
    }
  }

  /** A segment without alternatives contributes nothing: removing it leaves
      the parts unchanged. */
  lemma {:induction false} PartsIgnoreEmptySegments(results: Response, j: nat)
    requires j < |results| && !HasAlternatives(results[j])
    ensures Parts(results) == Parts(results[..j] + results[j + 1..])
  {
    var n := |results|;
    if j == n - 1 {
      assert results[..j] + results[j + 1..] == results[..n - 1];
    } else {
      var init := results[..n - 1];
      var last := results[n - 1];
      PartsIgnoreEmptySegments(init, j);
      var without := init[..j] + init[j + 1..];
      assert results == init + [last];
      Seqs.RemoveBeforeLast(init, last, j);
      assert (without + [last])[..|without|] == without;
    }
  }

  /** No results, or no result with an alternative, give no parts. */
  lemma {:induction false} NoAlternativesGiveNoParts(results: Response)
    requires forall k :: 0 <= k < |results| ==> !HasAlternatives(results[k])
    ensures Parts(results) == []
  {
    if results != [] {
      var init := results[..|results| - 1];
      assert forall k :: 0 <= k < |init| ==> init[k] == results[k];
      NoAlternativesGiveNoParts(init);
    }
  }

  /** No results, or no result with an alternative, give the empty transcript. */
  lemma NoAlternativesGiveEmptyTranscript(results: Response)
    requires forall k :: 0 <= k < |results| ==> !HasAlternatives(results[k])
    ensures TranscriptOf(results) == []
  {
    NoAlternativesGiveNoParts(results);
    StripStripped([]);
  }

  /** When every kept part is non-empty, the final strip changes nothing: the
      transcript is the parts joined by single spaces. */
  lemma TranscriptIsJoinWhenNoPartBlank(results: Response)
    requires forall j :: 0 <= j < |Parts(results)| ==> Parts(results)[j] != []
    ensures TranscriptOf(results) == Join(" ", Parts(results))
  {
    var parts := Parts(results);
    PartsAreFirstAlternatives(results);
    JoinOfStrippedIsStripped(" ", parts);
    StripStripped(Join(" ", parts));
  }

  /** Two segments: only the first alternative of each is used. */
  lemma TwoSegments(a: string, b: string, c: string)
    ensures TranscriptOf([[a], [b, c]]) == Strip(Strip(a) + " " + Strip(b))
  {
    var rs: Response := [[a], [b, c]];
    assert [[a]][..0] == [];
    assert Parts([[a]]) == [Strip(a)];
    assert rs[..1] == [[a]];
    assert Parts(rs) == [Strip(a), Strip(b)];
    JoinCons(" ", Strip(a), [Strip(b)]);
    assert [Strip(a)] + [Strip(b)] == [Strip(a), Strip(b)];
  }

  /** Results `[{alt: [a]}, {alt: [b, c]}]` give `a + " " + b` for words `a`
      and `b` (for instance `"a b"`): the second alternative `c` is never used. */
  lemma FirstAlternativeOnlyExample(a: string, b: string, c: string)
    requires a != [] && IsStripped(a) && b != [] && IsStripped(b)
    ensures TranscriptOf([[a], [b, c]]) == a + " " + b
  {
    TwoSegments(a, b, c);
    StripStripped(a);
    StripStripped(b);
    StripOfSeparatedWords(a, " ", b);
  }

  /** Three segments of one alternative each. */
  lemma ThreeSegments(a: string, w: string, b: string)
    ensures TranscriptOf([[a], [w], [b]]) == Strip(Strip(a) + " " + (Strip(w) + " " + Strip(b)))
  {
    var rs: Response := [[a], [w], [b]];
    assert [[a]][..0] == [];
    assert Parts([[a]]) == [Strip(a)];
    assert [[a], [w]][..1] == [[a]];
    assert Parts([[a], [w]]) == [Strip(a), Strip(w)];
    assert rs[..2] == [[a], [w]];
    assert Parts(rs) == [Strip(a), Strip(w), Strip(b)];
    JoinCons(" ", Strip(w), [Strip(b)]);
    assert [Strip(w)] + [Strip(b)] == [Strip(w), Strip(b)];
    JoinCons(" ", Strip(a), [Strip(w), Strip(b)]);
    assert [Strip(a)] + [Strip(w), Strip(b)] == [Strip(a), Strip(w), Strip(b)];
  }

  /** A segment whose first alternative is blank still contributes a separator:
      `[a], [w], [b]` with `w` all whitespace give `a + "  " + b`, two spaces. */
  lemma BlankPartKeepsSeparatorExample(a: string, w: string, b: string)
    requires a != [] && IsStripped(a) && b != [] && IsStripped(b) && AllSpace(w)
    ensures TranscriptOf([[a], [w], [b]]) == a + "  " + b
  {
    ThreeSegments(a, w, b);
    JoinAroundBlank(a, w, b);
    StripOfSeparatedWords(a, "  ", b);
  }

  /** The joined stripped parts of `[a], [w], [b]` when `w` is blank. */
  lemma JoinAroundBlank(a: string, w: string, b: string)
    requires IsStripped(a) && IsStripped(b) && AllSpace(w)
    ensures Strip(a) + " " + (Strip(w) + " " + Strip(b)) == a + "  " + b
  {
    StripStripped(a);
    StripStripped(b);
    StripEmptyIffAllSpace(w);
    assert Strip(w) + " " + Strip(b) == " " + b;
  }

  /** Results `[["a"], ["b", "c"]]` give `"a b"`. */
  lemma TwoWordsExample()
    ensures TranscriptOf([["a"], ["b", "c"]]) == "a b"
  {
    FirstAlternativeOnlyExample("a", "b", "c");
  }

  /** Every kept segment contributes one part and the parts are separated by
      single spaces, so even a segment whose first alternative is blank adds a
      separator before the final strip: the joined text has exactly one
      separator fewer than there are segments with alternatives. */
  lemma EveryKeptSegmentAddsSeparator(results: Response)
    requires Seqs.IndicesWhere(results, HasAlternatives) != []
    ensures |Join(" ", Parts(results))| ==
            SumLengths(Parts(results)) + |Seqs.IndicesWhere(results, HasAlternatives)| - 1
  {
    PartsAreFirstAlternatives(results);
    JoinLength(" ", Parts(results));
  }

  /** The builder loop of `transcribe_gcloud_linear16`: append the stripped first
      alternative of each segment that has one, then join with spaces and strip. */
  method AssembleTranscript(results: Response) returns (text: string)
    ensures text == TranscriptOf(results)
  {
    var parts: seq<string> := [];
    for i := 0 to |results|
      invariant parts == Parts(results[..i])
    {
      assert results[..i + 1][..i] == results[..i];
      if |results[i]| > 0 {
        parts := parts + [Strip(results[i][0])];
      }
    }
    assert results[..|results|] == results;
    text := Strip(Join(" ", parts));
  }

  /** `transcribe_gcloud_linear16`. The credential check comes first, then the
      creation of the speech client, then the duration (a zero rate raises),
      then exactly one recognition call, whose response is assembled into the
      transcript. `consulted` is the backend that was called, if any, whether
      or not the call succeeded. */
  method Transcribe(audio: seq<Capture.byte>, rate: int, credentialsSet: bool, clientCreated: bool,
                    recognize: Backend -> Option<Response>)
    returns (consulted: Option<Backend>, r: Result<string, Fatal>)
    ensures !credentialsSet ==> consulted == None && r == Failure(MissingCredentials)
    ensures credentialsSet && !clientCreated ==> consulted == None && r == Failure(SpeechClientFailed)
    ensures credentialsSet && clientCreated && rate == 0 ==> consulted == None && r == Failure(ZeroRate)
    ensures credentialsSet && clientCreated && rate != 0 ==>
              var b := ChooseBackend(|audio|, rate);
              consulted == Some(b) &&
              r == match recognize(b)
                   case None => Failure(RecognitionFailed)
                   case Some(results) => Success(TranscriptOf(results))
    ensures consulted.Some? && rate > 0 ==> (consulted.value == LongRunning <==> |audio| > 120 * rate)
    ensures r.Success? ==> consulted.Some? && IsStripped(r.value)
  {
    consulted := None;
    if !credentialsSet {
      return consulted, Failure(MissingCredentials);
    }
    if !clientCreated {
      return consulted, Failure(SpeechClientFailed);
    }
    if rate == 0 {
      return consulted, Failure(ZeroRate);
    }
    var backend := ChooseBackend(|audio|, rate);
    consulted := Some(backend);
    var response := recognize(backend);
    if response.None? {
      return consulted, Failure(RecognitionFailed);
    }
    var text := AssembleTranscript(response.value);
    r := Success(text);
  }
}
