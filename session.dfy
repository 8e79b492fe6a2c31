/** One invocation of the program (`main`): either list the input devices and
    stop, or record, transcribe, report and optionally publish, strictly in
    that order, stopping at the first fatal outcome. Every foreign facility is
    an input, and what the run does to the outside world is recorded as a
    sequence of effects. */
module Session {
  import opened Outcomes
  import Capture
  import Transcription
  import Devices
  import Publish

  /** The parsed flags and the one environment fact the run consults. */
  datatype Options = Options(listDevices: bool, post: bool, endpoint: string, rate: int,
                             credentialsSet: bool)

  /** Everything the run asks of the outside world, given in advance. */
  datatype World = World(
    pyaudio: Option<seq<Devices.Device>>,
    sounddevice: Option<seq<Devices.Device>>,
    capture: Capture.StreamRun,
    speechClient: bool,
    recognize: Transcription.Backend -> Option<Transcription.Response>,
    clientInstalled: bool,
    send: Publish.Request -> Publish.Reply)

  /** What the run does that can be observed from outside. */
  datatype Effect =
    | ListedDevices(listing: Devices.Listing)
    | OpenAttempted
    | Recognized(backend: Transcription.Backend)
    | PrintedTranscript(text: string)
    | WarnedNoText
    | Posted(request: Publish.Request)

  datatype Exit = Completed | Aborted(reason: Fatal)

  datatype Run = Run(effects: seq<Effect>, exit: Exit)

  /** The number of recognition calls among `effects`. */
  function Recognitions(effects: seq<Effect>): nat
  {
    if effects == [] then 0
    else Recognitions(effects[..|effects| - 1]) + (if effects[|effects| - 1].Recognized? then 1 else 0)
  }

  lemma {:induction false} RecognitionsAppend(xs: seq<Effect>, ys: seq<Effect>)
    ensures Recognitions(xs + ys) == Recognitions(xs) + Recognitions(ys)
  {
    if ys != [] {
      var init := ys[..|ys| - 1];
      assert (xs + ys)[..|xs + ys| - 1] == xs + init;
      RecognitionsAppend(xs, init);
    } else {
      assert xs + ys == xs;
    }
  }

  /** No effect in `effects` is a recognition call. */
  lemma {:induction false} NoRecognitions(effects: seq<Effect>)
    requires forall k :: 0 <= k < |effects| ==> !effects[k].Recognized?
    ensures Recognitions(effects) == 0
  {
    if effects != [] {
      var init := effects[..|effects| - 1];
      assert forall k :: 0 <= k < |init| ==> init[k] == effects[k];
      NoRecognitions(init);
    }
  }

  /** Every request among `effects` carries a non-blank message and was asked for. */
  predicate OnlyNonBlankPosts(effects: seq<Effect>, post: bool)
  {
    forall k :: 0 <= k < |effects| && effects[k].Posted? ==>
      post && "message" in effects[k].request.body && !Publish.IsBlank(effects[k].request.body["message"])
  }

  /** Whether some effect among `effects` is a POST. */
  predicate SomePost(effects: seq<Effect>)
  {
    exists k :: 0 <= k < |effects| && effects[k].Posted?
  }

  /** The reporting stage (`if text:`) and the optional publishing stage: the
      report comes first, then, with `--post`, whatever `post_message` sends.
      A POST happens exactly when it was asked for, the text is not blank and
      the HTTP client is installed, and it carries the text to the endpoint. */
  function ReportAndPublish(opts: Options, text: string, world: World): (effects: seq<Effect>)
    ensures effects != [] && |effects| <= 2
    ensures effects[0] == if text != [] then PrintedTranscript(text) else WarnedNoText
    ensures SomePost(effects) <==> opts.post && !Publish.IsBlank(text) && world.clientInstalled
    ensures forall k :: 0 <= k < |effects| && effects[k].Posted? ==>
              k == 1 && effects[k].request == Publish.MessageRequest(opts.endpoint, text)
    ensures Recognitions(effects) == 0
    ensures OnlyNonBlankPosts(effects, opts.post)
    ensures effects == [effects[0]] +
              (if opts.post && !Publish.IsBlank(text) && world.clientInstalled
               then [Posted(Publish.MessageRequest(opts.endpoint, text))] else [])
  {
    var report := if text != [] then PrintedTranscript(text) else WarnedNoText;
    var issued := if opts.post then Publish.Issued(Publish.PostMessage(opts.endpoint, text, world.clientInstalled, world.send))
                  else [];
    var effects := if issued == [] then [report] else [report, Posted(issued[0])];
    assert effects[0] == report;
    assert issued != [] ==> effects[1] == Posted(issued[0]);
    NoRecognitions(effects);
    effects
  }

  /** The stages of `main` after a successful recording of `audio`: the
      duration print, the transcription, the report and the optional POST. */
  method AfterRecording(opts: Options, world: World, audio: seq<Capture.byte>) returns (run: Run)
    // The duration printed after the recording divides by the rate.
    ensures opts.rate == 0 ==> run == Run([OpenAttempted], Aborted(ZeroRate))
    // Missing credentials and a failing speech client end the run before recognition.
    ensures opts.rate != 0 && !opts.credentialsSet ==> run == Run([OpenAttempted], Aborted(MissingCredentials))
    ensures opts.rate != 0 && opts.credentialsSet && !world.speechClient ==>
              run == Run([OpenAttempted], Aborted(SpeechClientFailed))
    // Otherwise the backend the duration selects is called once; its failure is
    // fatal, and its results are reported and, when asked for, published.
    ensures opts.rate != 0 && opts.credentialsSet && world.speechClient ==>
              var b := Transcription.ChooseBackend(|audio|, opts.rate);
              run == match world.recognize(b)
                     case None => Run([OpenAttempted, Recognized(b)], Aborted(RecognitionFailed))
                     case Some(results) =>
                       Run([OpenAttempted, Recognized(b)] +
                           ReportAndPublish(opts, Transcription.TranscriptOf(results), world), Completed)
    ensures Recognitions(run.effects) <= 1
    ensures OnlyNonBlankPosts(run.effects, opts.post)
  {
    if opts.rate == 0 {
      // `len(audio_bytes) / (2 * args.rate)` raises before transcription starts.
      return Run([OpenAttempted], Aborted(ZeroRate));
    }
    var consulted, transcribed :=
      Transcription.Transcribe(audio, opts.rate, opts.credentialsSet, world.speechClient, world.recognize);
    if consulted.None? {
      // no backend was called: the credential or the client check failed
      NoRecognitions([OpenAttempted]);
      return Run([OpenAttempted], Aborted(transcribed.error));
    }
    var head := [OpenAttempted, Recognized(consulted.value)];
    assert Recognitions(head) == 1 by {
      assert head[..1] == [OpenAttempted] && [OpenAttempted][..0] == [];
    }
    if transcribed.Failure? {
      return Run(head, Aborted(transcribed.error));
    }
    var rest := ReportAndPublish(opts, transcribed.value, world);
    RecognitionsAppend(head, rest);
    PostsAfterHead(head, rest, opts.post);
    run := Run(head + rest, Completed);
  }

  /** Appending effects after a prefix without POSTs keeps only non-blank POSTs. */
  lemma PostsAfterHead(head: seq<Effect>, rest: seq<Effect>, post: bool)
    requires forall k :: 0 <= k < |head| ==> !head[k].Posted?
    requires OnlyNonBlankPosts(rest, post)
    ensures OnlyNonBlankPosts(head + rest, post)
  {
    forall k | 0 <= k < |head + rest| && (head + rest)[k].Posted?
      ensures post && "message" in (head + rest)[k].request.body &&
              !Publish.IsBlank((head + rest)[k].request.body["message"])
    {
      assert k >= |head| && (head + rest)[k] == rest[k - |head|];
    }
  }

  /** `main` after argument parsing: each stage runs only when the one before
      it succeeded, and the run ends at the first fatal outcome. */
  method RunOnce(opts: Options, world: World) returns (run: Run)
    // Listing devices does nothing else, and in particular attempts no stream.
    ensures opts.listDevices ==>
              run == Run([ListedDevices(Devices.ListingOf(world.pyaudio, world.sounddevice))], Completed)
    // Otherwise the stream is attempted first.
    ensures !opts.listDevices ==> run.effects != [] && run.effects[0] == OpenAttempted
    // A failed recording ends the run before any recognition call.
    ensures !opts.listDevices && Capture.Recorded(world.capture).Failure? ==>
              run == Run([OpenAttempted], Aborted(Capture.Recorded(world.capture).error))
    ensures !opts.listDevices && Capture.Recorded(world.capture).Success? && opts.rate == 0 ==>
              run == Run([OpenAttempted], Aborted(ZeroRate))
    ensures !opts.listDevices && Capture.Recorded(world.capture).Success? && opts.rate != 0 &&
            !opts.credentialsSet ==>
              run == Run([OpenAttempted], Aborted(MissingCredentials))
    ensures !opts.listDevices && Capture.Recorded(world.capture).Success? && opts.rate != 0 &&
            opts.credentialsSet && !world.speechClient ==>
              run == Run([OpenAttempted], Aborted(SpeechClientFailed))
    ensures !opts.listDevices && Capture.Recorded(world.capture).Success? && opts.rate != 0 &&
            opts.credentialsSet && world.speechClient ==>
              var b := Transcription.ChooseBackend(|Capture.Recorded(world.capture).value|, opts.rate);
              run == match world.recognize(b)
                     case None => Run([OpenAttempted, Recognized(b)], Aborted(RecognitionFailed))
                     case Some(results) =>
                       Run([OpenAttempted, Recognized(b)] +
                           ReportAndPublish(opts, Transcription.TranscriptOf(results), world), Completed)
    // At most one backend is called, and no request carries a blank message.
    ensures Recognitions(run.effects) <= 1
    ensures OnlyNonBlankPosts(run.effects, opts.post)
  {
    if opts.listDevices {
      var listing := Devices.ListInputDevices(world.pyaudio, world.sounddevice);
      return Run([ListedDevices(listing)], Completed);
    }
    var recorded := Capture.RecordUntilEnter(world.capture);
    if recorded.Failure? {
      return Run([OpenAttempted], Aborted(recorded.error));
    }
    run := AfterRecording(opts, world, recorded.value);
  }
}
