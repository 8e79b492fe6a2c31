/** The recording stage (`record_until_enter`): an input stream delivers blocks
    of raw 16-bit mono PCM through a callback that appends each block to one
    growing byte buffer; when the stream ends the buffer is returned, or the
    program exits if nothing was captured. */
module Capture {
  import opened Outcomes
  import Seqs

  newtype byte = x: int | 0 <= x < 256

  /** How the blocking `input()` ended. Enter returns normally, and Ctrl-C raises
      `KeyboardInterrupt`; both close the stream and go on to the empty check.
      A closed standard input raises `EOFError`, which the `except Exception`
      handler reports as a failed microphone open, and the program exits. */
  datatype StopSignal = EnterPressed | Interrupted | InputClosed

  /** What the audio stream did during one recording: either it could
      not be opened, or it delivered `blocks` (in callback order) until `stop`. */
  datatype StreamRun =
    | OpenFailed
    | Delivered(blocks: seq<seq<byte>>, stop: StopSignal)

  /** The `audio` bytearray that the stream callback extends. */
  class CaptureBuffer {
    var audio: seq<byte>
    /** The blocks handed to the callback so far, in delivery order. */
    ghost var delivered: seq<seq<byte>>

    ghost predicate Valid()
      reads this
    {
      audio == Seqs.Concat(delivered)
    }

    constructor ()
      ensures Valid()
      ensures audio == [] && delivered == []
    {
      audio := [];
      delivered := [];
    }

    /** The callback body: `audio.extend(indata)`. The buffer only grows. */
    method Append(block: seq<byte>)
      requires Valid()
      modifies this
      ensures Valid()
      ensures delivered == old(delivered) + [block]
      ensures audio == old(audio) + block
    {
      Seqs.ConcatSnoc(delivered, block);
      audio := audio + block;
      delivered := delivered + [block];
    }

    /** The end of `record_until_enter`: an empty buffer is the fatal
        "no audio captured" outcome, otherwise a copy of the buffer is returned. */
    method Finish() returns (r: Result<seq<byte>, Fatal>)
      requires Valid()
      ensures r.Failure? <==> audio == []
      ensures r.Failure? ==> r.error == NoAudio
      ensures r.Success? ==> r.value == Seqs.Concat(delivered) && |r.value| > 0
    {
      if audio == [] {
        r := Failure(NoAudio);
      } else {
        r := Success(audio);
      }
    }
  }

  /** What one recording yields: the delivered bytes in order, or the
      fatal outcome that ends the program. */
  function Recorded(stream: StreamRun): (r: Result<seq<byte>, Fatal>)
    ensures r == Failure(MicOpenFailed) <==> stream.OpenFailed? || stream.stop == InputClosed
    ensures r.Failure? ==> r.error == MicOpenFailed || r.error == NoAudio
    ensures r.Success? ==> |r.value| > 0 && r.value == Seqs.Concat(stream.blocks)
    ensures stream.Delivered? && stream.stop != InputClosed && Seqs.Concat(stream.blocks) != [] ==> r.Success?
  {
    match stream
    case OpenFailed => Failure(MicOpenFailed)
    case Delivered(blocks, stop) =>
      if stop == InputClosed then Failure(MicOpenFailed)
      else
        var bytes := Seqs.Concat(blocks);
        if bytes == [] then Failure(NoAudio) else Success(bytes)
  }

  /** `record_until_enter`, with the stream and its callbacks replaced by the
      run they produce: each delivered block is appended to the buffer in
      turn, and the buffer is then finished. */
  method RecordUntilEnter(stream: StreamRun) returns (r: Result<seq<byte>, Fatal>)
    ensures r == Recorded(stream)
  {
    if stream.OpenFailed? {
      return Failure(MicOpenFailed);
    }
    var blocks := stream.blocks;
    var buffer := new CaptureBuffer();
    for i := 0 to |blocks|
      invariant buffer.Valid()
      invariant buffer.delivered == blocks[..i]
    {
      assert blocks[..i + 1] == blocks[..i] + [blocks[i]];
      buffer.Append(blocks[i]);
    }
    assert blocks[..|blocks|] == blocks;
    if stream.stop == InputClosed {
      // the handler at the `with` discards the buffer and exits
      return Failure(MicOpenFailed);
    }
    r := buffer.Finish();
  }

  /** When `input()` returns normally or is interrupted, a recording succeeds
      exactly when some delivered block is non-empty, and then holds every
      delivered byte in delivery order; otherwise it fails with `NoAudio`. */
  lemma RecordedIsConcatenation(blocks: seq<seq<byte>>, stop: StopSignal)
    requires stop != InputClosed
    ensures Recorded(Delivered(blocks, stop)).Success? <==> exists k :: 0 <= k < |blocks| && blocks[k] != []
    ensures Recorded(Delivered(blocks, stop)).Failure? ==> Recorded(Delivered(blocks, stop)).error == NoAudio
    ensures Recorded(Delivered(blocks, stop)).Success? ==>
              |Recorded(Delivered(blocks, stop)).value| == Seqs.TotalLength(blocks) > 0
  {
    Seqs.ConcatLength(blocks);
  }

  /** Pressing Enter and interrupting with Ctrl-C end the recording in the same
      way, while a closed input loses the audio delivered so far, however much. */
  lemma StopSignalOutcomes(blocks: seq<seq<byte>>)
    ensures Recorded(Delivered(blocks, EnterPressed)) == Recorded(Delivered(blocks, Interrupted))
    ensures Recorded(Delivered(blocks, InputClosed)) == Failure(MicOpenFailed)
  {
  }
}
