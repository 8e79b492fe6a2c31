/** Result and option types shared by the stages of the recorder pipeline,
    and the fatal outcomes that make the program exit with a non-zero status. */
module Outcomes {

  datatype Option<+T> = None | Some(value: T)

  datatype Result<+R, +E> = Success(value: R) | Failure(error: E)

  /** Every reason for which the program prints an error and calls `sys.exit(1)`
      (or dies from an uncaught exception) instead of advancing to the next stage. */
  datatype Fatal =
    | MicOpenFailed        // "Mic open failed": any exception but Ctrl-C inside the stream block,
                           // the stream failing to open and end of input at `input()` included
    | NoAudio              // the capture ended with zero bytes
    | MissingCredentials   // GOOGLE_APPLICATION_CREDENTIALS is not in the environment
    | SpeechClientFailed   // importing the speech library or creating its client raised
    | ZeroRate             // the duration division hits a zero sample rate
    | RecognitionFailed    // the remote recognition call raised (for example its 300 s wait expired)
}
