/** The device listing (`list_input_devices`): of the devices the audio
    library enumerates, the ones with at least one input channel are listed in
    index order. Enumeration is a parameter: the device records from PyAudio,
    or, when PyAudio is unavailable, from sounddevice. Listing opens no stream. */
module Devices {
  import opened Outcomes
  import Seqs

  /** One enumerated device. `maxInputChannels` is `None` when the record has
      no such key, which the source reads as 0. */
  datatype Device = Device(name: string, maxInputChannels: Option<int>, defaultSampleRate: int)

  /** `info.get("maxInputChannels", 0)`. */
  function InputChannels(d: Device): int
  {
    match d.maxInputChannels
    case Some(n) => n
    case None => 0
  }

  /** The filter of both enumeration loops: more than zero input channels. */
  predicate IsInput(d: Device)
  {
    InputChannels(d) > 0
  }

  /** The listed indices: exactly the indices of devices with input channels,
      each once, in ascending order. */
  function InputIndices(devices: seq<Device>): (listed: seq<nat>)
    ensures forall i :: i in listed <==> 0 <= i < |devices| && InputChannels(devices[i]) > 0
    ensures forall a, b :: 0 <= a < b < |listed| ==> listed[a] < listed[b]
  {
    Seqs.IndicesWhere(devices, IsInput)
  }

  /** One enumeration loop: `for i in range(count)`, keep `i` when the device
      has input channels. */
  method ListInputIndices(devices: seq<Device>) returns (listed: seq<nat>)
    ensures listed == InputIndices(devices)
  {
    listed := [];
    for i := 0 to |devices|
      invariant listed == InputIndices(devices[..i])
    {
      Seqs.IndicesWhereSnoc(devices[..i], devices[i], IsInput);
      assert devices[..i + 1] == devices[..i] + [devices[i]];
      if InputChannels(devices[i]) > 0 {
        listed := listed + [i];
      }
    }
    assert devices[..|devices|] == devices;
  }

  /** Which library produced the listing. */
  datatype Enumerator = PyAudio | SoundDevice

  /** How `list_input_devices` ends: a listing from one of the two libraries,
      or the warning that no device could be listed. */
  datatype Listing = Listed(source: Enumerator, indices: seq<nat>) | CouldNotList

  /** The listing produced from the two enumerators' records. */
  function ListingOf(pyaudio: Option<seq<Device>>, sounddevice: Option<seq<Device>>): (listing: Listing)
    ensures listing.Listed? <==> pyaudio.Some? || sounddevice.Some?
    ensures listing.Listed? ==> (listing.source == PyAudio <==> pyaudio.Some?)
    ensures listing.Listed? ==>
              var devices := if listing.source == PyAudio then pyaudio.value else sounddevice.value;
              forall i :: i in listing.indices <==> 0 <= i < |devices| && IsInput(devices[i])
    ensures listing.Listed? ==>
              listing.indices == InputIndices(if listing.source == PyAudio then pyaudio.value else sounddevice.value)
  {
    if pyaudio.Some? then Listed(PyAudio, InputIndices(pyaudio.value))
    else if sounddevice.Some? then Listed(SoundDevice, InputIndices(sounddevice.value))
    else CouldNotList
  }

  /** `list_input_devices`: PyAudio first; if it is unavailable, the sounddevice
      fallback; if that fails too, a warning. Each enumerator is given as the
      records it yields, or `None` when it raises. */
  method ListInputDevices(pyaudio: Option<seq<Device>>, sounddevice: Option<seq<Device>>)
    returns (listing: Listing)
    ensures listing == ListingOf(pyaudio, sounddevice)
  {
    if pyaudio.Some? {
      var indices := ListInputIndices(pyaudio.value);
      return Listed(PyAudio, indices);
    }
    if sounddevice.Some? {
      var indices := ListInputIndices(sounddevice.value);
      return Listed(SoundDevice, indices);
    }
    return CouldNotList;
  }
}
