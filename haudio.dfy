/**
 * happy/haudio: sounds, voices and the software mixer.
 *
 * A `Sound` owns PCM bytes and their format. A `Voice` is one of the
 * mixer's 32 fixed slots; it plays a sound from a frame position and may
 * loop or be paused. `MixAudio` zeroes the output and adds every playing
 * voice whose sound has the mixer's format into it, clamping each sample to
 * 16 bits and advancing the voice.
 *
 * The mixer runs sequentially here (the lock and the platform output thread
 * are not part of the model) and the volume product is fixed at 1, so a
 * source sample is added unchanged.
 */
module Haudio {
  import opened Bytes

  type i16 = x: int | -0x8000 <= x < 0x8000

  const MaxVoices: nat := 32

  datatype AudioFormat = AudioFormat(sampleRate: int, channels: int, bitsPerSample: int)

  /** 44100 Hz, stereo, 16-bit. */
  const DefaultFormat := AudioFormat(44100, 2, 16)

  function BytesPerSample(f: AudioFormat): int {
    CDiv(f.bitsPerSample, 8)
  }

  /** The bytes of one frame: one sample per channel. */
  function BytesPerFrame(f: AudioFormat): (n: int)
    ensures f.bitsPerSample == 16 ==> n == 2 * f.channels
    ensures 8 <= f.bitsPerSample < 16 ==> n == f.channels
  {
    BytesPerSample(f) * f.channels
  }

  /** A mixer format whose output buffer holds 16-bit samples, at least one channel per frame. */
  predicate MixerFormat(f: AudioFormat) {
    f.channels >= 1 && f.bitsPerSample == 16
  }

  function ToSigned16(w: int): i16
    requires 0 <= w < 0x1_0000
  {
    if w < 0x8000 then w else w - 0x1_0000
  }

  /** PCM bytes read as little-endian 16-bit samples. */
  function Samples(data: seq<byte>): (r: seq<i16>)
    ensures |r| == |data| / 2
  {
    seq(|data| / 2, j requires 0 <= j < |data| / 2 => ToSigned16(data[2 * j] as int + 0x100 * data[2 * j + 1] as int))
  }

  /** `std::clamp(x, -32768, 32767)`. */
  function Clamp16(x: int): (r: i16)
    ensures -0x8000 <= x < 0x8000 ==> r == x
    ensures x < -0x8000 ==> r == -0x8000
    ensures x >= 0x8000 ==> r == 0x7FFF
  {
    if x < -0x8000 then -0x8000 else if x > 0x7FFF then 0x7FFF else x
  }

  lemma MulMono(a: nat, b: nat, c: nat)
    requires a <= b
    ensures a * c <= b * c
  {
  }

  /** The contents of a sound as the mixer reads them. */
  datatype SoundView = SoundView(data: seq<byte>, format: AudioFormat)

  /** The whole frames of PCM data in a format. */
  function FramesOf(s: SoundView): (n: nat)
    requires BytesPerFrame(s.format) > 0
    ensures n * BytesPerFrame(s.format) <= |s.data| < (n + 1) * BytesPerFrame(s.format)
  {
    var b := BytesPerFrame(s.format);
    assert |s.data| == (|s.data| / b) * b + |s.data| % b;
    |s.data| / b
  }

  class Sound {
    var data: seq<byte>
    var format: AudioFormat

    /** No data, default format. */
    constructor()
      ensures data == [] && format == DefaultFormat
    {
      data := [];
      format := DefaultFormat;
    }

    function View(): SoundView
      reads this
    {
      SoundView(data, format)
    }

    /** `valid()`: the sound holds data. */
    predicate IsValid()
      reads this
      ensures BytesPerFrame(format) > 0 && Frames() > 0 ==> IsValid()
    {
      data != []
    }

    /** The whole frames the data holds. */
    function Frames(): (n: nat)
      reads this
      requires BytesPerFrame(format) > 0
      ensures n * BytesPerFrame(format) <= |data| < (n + 1) * BytesPerFrame(format)
    {
      FramesOf(View())
    }

    /** Drops the data and goes back to the default format. */
    method Release()
      modifies this
      ensures data == [] && format == DefaultFormat
    {
      data := [];
      format := DefaultFormat;
    }

    /** A silent buffer of `frames` frames in the given format, so that `Frames()` is `frames`. */
    method Create(frames: nat, fmt: AudioFormat) returns (ok: bool)
      requires BytesPerFrame(fmt) >= 0
      modifies this
      ensures ok && format == fmt
      ensures |data| == frames * BytesPerFrame(fmt) && forall i :: 0 <= i < |data| ==> data[i] == 0
      ensures BytesPerFrame(fmt) > 0 ==> Frames() == frames
    {
      Release();
      format := fmt;
      data := Zeros(frames * BytesPerFrame(fmt));
      if BytesPerFrame(fmt) > 0 {
        DivModUnique(|data|, BytesPerFrame(fmt), frames, 0);
      }
      return true;
    }
  }

  /** The fields of a voice. */
  datatype VoiceState = VoiceState(sound: Sound?, position: nat, looping: bool, paused: bool, playing: bool)

  /** A voice as the mixer reads it: its fields, with the contents of its sound in place of the pointer. */
  datatype VoiceView = VoiceView(sound: Option<SoundView>, position: nat, looping: bool, paused: bool, playing: bool)

  class Voice {
    var sound: Sound?
    var position: nat
    var looping: bool
    var paused: bool
    var playing: bool

    function State(): VoiceState
      reads this
    {
      VoiceState(sound, position, looping, paused, playing)
    }

    function View(): VoiceView
      reads this, sound
    {
      VoiceView(if sound == null then None else Some(sound.View()), position, looping, paused, playing)
    }

    /** An idle voice with no sound. */
    constructor()
      ensures State() == VoiceState(null, 0, false, false, false)
    {
      sound := null;
      position := 0;
      looping := false;
      paused := false;
      playing := false;
    }

    /** `playing()`: started and not paused. */
    predicate IsPlaying()
      reads this
      ensures IsPlaying() <==> Active() && !State().paused
    {
      playing && !paused
    }

    /** `active()`: started, paused or not. */
    predicate Active()
      reads this
      ensures Active() <==> State().playing
    {
      playing
    }

    /** Stops the voice and rewinds it. */
    method Stop()
      modifies this
      ensures State() == old(State()).(playing := false, position := 0)
      ensures !Active() && position == 0
    {
      playing := false;
      position := 0;
    }

    /** Moves to a frame, clamped to the sound's length; without a sound nothing changes. */
    method SetPosition(frame: nat)
      requires sound != null ==> BytesPerFrame(sound.format) > 0
      modifies this
      ensures old(sound) == null ==> State() == old(State())
      ensures old(sound) != null ==>
                State() == old(State()).(position := position)
                && position <= sound.Frames()
                && (frame <= sound.Frames() ==> position == frame)
                && (frame > sound.Frames() ==> position == sound.Frames())
    {
      if sound != null {
        var n := sound.Frames();
        position := if frame < n then frame else n;
      }
    }
  }

  /** The voice takes part in mixing: playing, not paused, with a sound of exactly the mixer's format. */
  predicate Mixes(v: VoiceView, f: AudioFormat) {
    v.playing && !v.paused && v.sound.Some? && v.sound.value.format == f
  }

  /**
   * Output frame `i` after adding the first `n` channels of source frame
   * `p`: each touched sample is the clamped sum, every other sample is kept.
   */
  function MixFrame(out: seq<i16>, samples: seq<i16>, c: nat, i: nat, p: nat, n: nat): (r: seq<i16>)
    requires n <= c && p * c + c <= |samples|
    ensures |r| == |out|
    ensures forall k :: 0 <= k < |out| && !(i * c <= k < i * c + n) ==> r[k] == out[k]
  {
    seq(|out|, k requires 0 <= k < |out| =>
      if i * c <= k < i * c + n then Clamp16(out[k] as int + samples[p * c + (k - i * c)] as int) else out[k])
  }

  /**
   * The frame loop of one voice from output frame `i` at source position
   * `pos`: the buffer, the final position and whether the voice still plays.
   * At the end of the source a looping voice restarts at frame 0 and any
   * other voice stops.
   */
  function MixFrames(out: seq<i16>, samples: seq<i16>, c: nat, srcFrames: nat, frames: nat,
                     i: nat, pos: nat, looping: bool): (r: (seq<i16>, nat, bool))
    requires srcFrames * c <= |samples|
    requires looping && i < frames ==> srcFrames > 0
    ensures |r.0| == |out|
    decreases frames - i
  {
    if i >= frames then (out, pos, true)
    else if pos >= srcFrames && !looping then (out, pos, false)
    else
      var p := if pos >= srcFrames then 0 else pos;
      MulMono(p + 1, srcFrames, c);
      MixFrames(MixFrame(out, samples, c, i, p, c), samples, c, srcFrames, frames, i + 1, p + 1, looping)
  }

  /** One output frame of the frame loop, with the restart of a looping voice at the end of its source. */
  lemma MixFramesStep(out: seq<i16>, samples: seq<i16>, c: nat, srcFrames: nat, frames: nat,
                      i: nat, pos: nat, looping: bool)
    requires srcFrames * c <= |samples| && i < frames
    requires looping ==> srcFrames > 0
    requires pos < srcFrames || looping
    ensures var p := if pos >= srcFrames then 0 else pos;
            p * c + c <= |samples|
            && MixFrames(out, samples, c, srcFrames, frames, i, pos, looping)
               == MixFrames(MixFrame(out, samples, c, i, p, c), samples, c, srcFrames, frames, i + 1, p + 1, looping)
  {
    var p := if pos >= srcFrames then 0 else pos;
    MulMono(p + 1, srcFrames, c);
  }

  /**
   * How the frame loop ends: a looping voice keeps playing; a voice that
   * stops does not loop and has run off the end of its source; a voice
   * that plays on without looping moved one source frame per output frame.
   */
  lemma {:induction false} MixFramesEnds(out: seq<i16>, samples: seq<i16>, c: nat, srcFrames: nat, frames: nat,
                                         i: nat, pos: nat, looping: bool)
    requires srcFrames * c <= |samples|
    requires looping && i < frames ==> srcFrames > 0
    ensures var r := MixFrames(out, samples, c, srcFrames, frames, i, pos, looping);
            (looping ==> r.2)
            && (!r.2 ==> !looping && r.1 >= srcFrames)
            && (pos <= srcFrames ==> r.1 <= srcFrames)
            && (!looping && r.2 && i <= frames ==> r.1 == pos + (frames - i))
    decreases frames - i
  {
    if i >= frames || (pos >= srcFrames && !looping) {
    } else {
      var p := if pos >= srcFrames then 0 else pos;
      MulMono(p + 1, srcFrames, c);
      MixFramesEnds(MixFrame(out, samples, c, i, p, c), samples, c, srcFrames, frames, i + 1, p + 1, looping);
    }
  }

  /** The frame loop writes only the samples of the frames it fills, from frame `i` on. */
  lemma {:induction false} MixFramesKeeps(out: seq<i16>, samples: seq<i16>, c: nat, srcFrames: nat, frames: nat,
                                          i: nat, pos: nat, looping: bool)
    requires srcFrames * c <= |samples|
    requires looping && i < frames ==> srcFrames > 0
    ensures var r := MixFrames(out, samples, c, srcFrames, frames, i, pos, looping);
            forall k :: 0 <= k < |out| && (k < i * c || frames * c <= k) ==> r.0[k] == out[k]
    decreases frames - i
  {
    if i >= frames || (pos >= srcFrames && !looping) {
    } else {
      var p := if pos >= srcFrames then 0 else pos;
      MulMono(p + 1, srcFrames, c);
      var next := MixFrame(out, samples, c, i, p, c);
      MixFramesKeeps(next, samples, c, srcFrames, frames, i + 1, p + 1, looping);
      MulMono(i, i + 1, c);
      assert forall k :: 0 <= k < |out| && (k < i * c || frames * c <= k) ==> next[k] == out[k] by {
        MulMono(i + 1, frames, c);
      }
    }
  }

  /** The source frames of a sound in the mixer's format cover its samples. */
  lemma FramesFitSamples(s: SoundView, c: nat)
    requires c >= 1 && BytesPerFrame(s.format) == 2 * c
    ensures FramesOf(s) * c <= |Samples(s.data)|
  {
    var n := FramesOf(s);
    assert n * (2 * c) == 2 * (n * c);
  }

  /** A looping voice that mixes has a frame to restart at, whenever there are frames to fill. */
  predicate LoopReady(v: VoiceView, f: AudioFormat, frames: nat)
    requires MixerFormat(f)
  {
    Mixes(v, f) && v.looping && frames > 0 ==> FramesOf(v.sound.value) > 0
  }

  /** Mixing one voice: a voice that does not mix leaves buffer and voice as they are. */
  function MixOne(out: seq<i16>, v: VoiceView, f: AudioFormat, frames: nat): (r: (seq<i16>, VoiceView))
    requires MixerFormat(f) && LoopReady(v, f, frames)
    ensures |r.0| == |out|
    ensures !Mixes(v, f) ==> r == (out, v)
    ensures Mixes(v, f) ==> r.1 == v.(position := r.1.position, playing := r.1.playing)
  {
    if !Mixes(v, f) then (out, v)
    else
      var s := v.sound.value;
      FramesFitSamples(s, f.channels);
      var m := MixFrames(out, Samples(s.data), f.channels, FramesOf(s), frames, 0, v.position, v.looping);
      (m.0, v.(position := m.1, playing := m.2))
  }

  /** Every voice is ready to loop. */
  predicate LoopsHaveFrames(views: seq<VoiceView>, f: AudioFormat, frames: nat)
    requires MixerFormat(f)
  {
    forall k :: 0 <= k < |views| ==> LoopReady(views[k], f, frames)
  }

  /** The voices from `k` on mixed in order into the buffer: the buffer and their new views. */
  function MixFrom(out: seq<i16>, views: seq<VoiceView>, f: AudioFormat, frames: nat, k: nat): (r: (seq<i16>, seq<VoiceView>))
    requires MixerFormat(f) && LoopsHaveFrames(views, f, frames)
    ensures |r.0| == |out| && |r.1| == if k <= |views| then |views| - k else 0
    decreases |views| - k
  {
    if k >= |views| then (out, [])
    else
      var one := MixOne(out, views[k], f, frames);
      var rest := MixFrom(one.0, views, f, frames, k + 1);
      (rest.0, [one.1] + rest.1)
  }

  /** Mixing from voice k is voice k's mix followed by the mix of the voices after it. */
  lemma MixFromStep(out: seq<i16>, views: seq<VoiceView>, f: AudioFormat, frames: nat, k: nat, done: seq<VoiceView>)
    requires MixerFormat(f) && LoopsHaveFrames(views, f, frames) && k < |views|
    ensures var one := MixOne(out, views[k], f, frames);
            var rest := MixFrom(one.0, views, f, frames, k + 1);
            MixFrom(out, views, f, frames, k).0 == rest.0
            && done + MixFrom(out, views, f, frames, k).1 == (done + [one.1]) + rest.1
  {
  }

  /** The first `n` samples set to 0. */
  function Zeroed(out: seq<i16>, n: nat): (r: seq<i16>)
    ensures |r| == |out|
  {
    seq(|out|, k requires 0 <= k < |out| => if k < n then 0 else out[k])
  }

  /** With no voice that mixes, mixing changes neither the buffer nor any voice. */
  lemma {:induction false} MixFromIdle(out: seq<i16>, views: seq<VoiceView>, f: AudioFormat, frames: nat, k: nat)
    requires MixerFormat(f) && LoopsHaveFrames(views, f, frames) && k <= |views|
    requires forall j :: k <= j < |views| ==> !Mixes(views[j], f)
    ensures MixFrom(out, views, f, frames, k) == (out, views[k..])
    decreases |views| - k
  {
    if k < |views| {
      MixFromIdle(out, views, f, frames, k + 1);
      assert views[k..] == [views[k]] + views[k + 1..];
    }
  }

  /** When no voice mixes, `MixAudio` yields silence in the frames it fills and keeps the rest of the buffer. */
  lemma SilenceWithoutVoices(out: seq<i16>, views: seq<VoiceView>, f: AudioFormat, frames: nat)
    requires MixerFormat(f) && LoopsHaveFrames(views, f, frames)
    requires forall j :: 0 <= j < |views| ==> !Mixes(views[j], f)
    ensures var r := MixFrom(Zeroed(out, frames * f.channels), views, f, frames, 0);
            r.1 == views
            && (forall k :: 0 <= k < |out| && k < frames * f.channels ==> r.0[k] == 0)
            && (forall k :: frames * f.channels <= k < |out| ==> r.0[k] == out[k])
  {
    MixFromIdle(Zeroed(out, frames * f.channels), views, f, frames, 0);
  }

  class Mixer {
    const voices: array<Voice>
    var format: AudioFormat

    /** 32 distinct voice slots. */
    predicate Valid()
      reads this, voices
    {
      voices.Length == MaxVoices && forall i, j :: 0 <= i < j < voices.Length ==> voices[i] != voices[j]
    }

    function VoiceSet(): set<Voice>
      reads this, voices
    {
      set i | 0 <= i < voices.Length :: voices[i]
    }

    /** The sounds the slots refer to. */
    function SoundSet(): set<Sound>
      reads this, voices, VoiceSet()
    {
      set i | 0 <= i < voices.Length && voices[i].sound != null :: voices[i].sound
    }

    /** The views of the slots from `k` on. */
    function ViewsFrom(k: nat): (r: seq<VoiceView>)
      reads this, voices, VoiceSet(), SoundSet()
      ensures |r| == if k <= voices.Length then voices.Length - k else 0
      ensures forall j :: 0 <= j < |r| ==> r[j] == voices[k + j].View()
      decreases voices.Length - k
    {
      if k >= voices.Length then []
      else
        assert voices[k] in VoiceSet();
        assert voices[k].sound != null ==> voices[k].sound in SoundSet();
        [voices[k].View()] + ViewsFrom(k + 1)
    }

    function Views(): (r: seq<VoiceView>)
      reads this, voices, VoiceSet(), SoundSet()
      ensures |r| == voices.Length && forall j :: 0 <= j < |r| ==> r[j] == voices[j].View()
    {
      ViewsFrom(0)
    }

    /** 32 idle voices; the format is the one `init` would store. */
    constructor(fmt: AudioFormat)
      ensures Valid() && format == fmt && fresh(voices)
      ensures forall i :: 0 <= i < voices.Length ==> fresh(voices[i]) && voices[i].State() == VoiceState(null, 0, false, false, false)
    {
      var first := new Voice();
      var slots := new Voice[MaxVoices](_ => first);
      var i := 1;
      while i < MaxVoices
        invariant 1 <= i <= MaxVoices
        invariant forall j :: 0 <= j < i ==> fresh(slots[j]) && slots[j].State() == VoiceState(null, 0, false, false, false)
        invariant forall j, k :: 0 <= j < k < i ==> slots[j] != slots[k]
      {
        var v := new Voice();
        slots[i] := v;
        i := i + 1;
      }
      voices := slots;
      format := fmt;
    }

    /**
     * Starts the sound on the first slot that is not active and returns
     * that voice, rewound, unpaused and looping as asked; with every slot
     * active it returns null and nothing changes. Other slots keep their state.
     */
    method Play(sound: Sound, loop: bool) returns (v: Voice?)
      requires Valid()
      modifies VoiceSet()
      ensures v == null <==> forall i :: 0 <= i < MaxVoices ==> old(voices[i].playing)
      ensures v != null ==> exists k :: (0 <= k < MaxVoices && v == voices[k]
                && !old(voices[k].playing) && (forall j :: 0 <= j < k ==> old(voices[j].playing))
                && voices[k].State() == VoiceState(sound, 0, loop, false, true)
                && forall j :: 0 <= j < MaxVoices && j != k ==> voices[j].State() == old(voices[j].State()))
      ensures v == null ==> forall j :: 0 <= j < MaxVoices ==> voices[j].State() == old(voices[j].State())
    {
      var i := 0;
      while i < MaxVoices
        invariant 0 <= i <= MaxVoices
        invariant forall j :: 0 <= j < i ==> voices[j].playing
      {
        var voice := voices[i];
        if !voice.playing {
          voice.sound := sound;
          voice.position := 0;
          voice.looping := loop;
          voice.paused := false;
          voice.playing := true;
          return voice;
        }
        i := i + 1;
      }
      return null;
    }

    /** Stops and rewinds every voice. */
    method StopAll()
      requires Valid()
      modifies VoiceSet()
      ensures forall j :: 0 <= j < MaxVoices ==> voices[j].State() == old(voices[j].State()).(playing := false, position := 0)
      ensures forall j :: 0 <= j < MaxVoices ==> !voices[j].Active() && voices[j].position == 0
    {
      var i := 0;
      while i < MaxVoices
        invariant 0 <= i <= MaxVoices
        invariant forall j :: 0 <= j < i ==> voices[j].State() == old(voices[j].State()).(playing := false, position := 0)
        invariant forall j :: i <= j < MaxVoices ==> voices[j].State() == old(voices[j].State())
      {
        voices[i].Stop();
        i := i + 1;
      }
    }

    /** Adds source frame `p` into output frame `i`, channel by channel, with clipping. */
    static method MixChannels(buffer: array<i16>, samples: seq<i16>, c: nat, i: nat, p: nat)
      requires p * c + c <= |samples| && i * c + c <= buffer.Length
      modifies buffer
      ensures buffer[..] == MixFrame(old(buffer[..]), samples, c, i, p, c)
    {
      var ch := 0;
      while ch < c
        invariant 0 <= ch <= c
        invariant buffer[..] == MixFrame(old(buffer[..]), samples, c, i, p, ch)
      {
        buffer[i * c + ch] := Clamp16(buffer[i * c + ch] as int + samples[p * c + ch] as int);
        ch := ch + 1;
      }
    }

    /**
     * The frame loop of one voice on the buffer, from source position `pos`:
     * the buffer, the final position and whether the voice still plays end
     * as `MixFrames` gives them.
     */
    static method MixLoop(buffer: array<i16>, samples: seq<i16>, c: nat, srcFrames: nat, frames: nat,
                          pos: nat, looping: bool) returns (position: nat, playing: bool)
      requires srcFrames * c <= |samples| && frames * c <= buffer.Length
      requires looping && frames > 0 ==> srcFrames > 0
      modifies buffer
      ensures (buffer[..], position, playing) == MixFrames(old(buffer[..]), samples, c, srcFrames, frames, 0, pos, looping)
    {
      position := pos;
      playing := true;
      var i := 0;
      while i < frames
        invariant 0 <= i <= frames
        invariant MixFrames(buffer[..], samples, c, srcFrames, frames, i, position, looping)
                  == MixFrames(old(buffer[..]), samples, c, srcFrames, frames, 0, pos, looping)
      {
        if position < srcFrames || looping {
          MixFramesStep(buffer[..], samples, c, srcFrames, frames, i, position, looping);
        }
        if position >= srcFrames {
          if looping {
            position := 0;
          } else {
            playing := false;
            return;
          }
        }
        MulMono(i + 1, frames, c);
        MixChannels(buffer, samples, c, i, position);
        position := position + 1;
        i := i + 1;
      }
    }

    /**
     * Mixes the voice in slot `v` into the buffer and advances it; it keeps
     * its sound and the other slots do not change.
     */
    method MixVoice(buffer: array<i16>, v: nat, frames: nat)
      requires Valid() && v < MaxVoices && MixerFormat(format) && frames * format.channels <= buffer.Length
      requires LoopReady(voices[v].View(), format, frames)
      modifies buffer, voices[v]
      ensures (buffer[..], voices[v].View()) == MixOne(old(buffer[..]), old(voices[v].View()), format, frames)
      ensures forall j :: 0 <= j < MaxVoices ==> voices[j].sound == old(voices[j].sound)
      ensures forall j :: 0 <= j < MaxVoices && j != v ==> voices[j].View() == old(voices[j].View())
    {
      var voice := voices[v];
      if !voice.playing || voice.paused || voice.sound == null {
        return;
      }
      var sound := voice.sound;
      if sound.format != format {
        return;
      }
      FramesFitSamples(sound.View(), format.channels);
      var position, playing := MixLoop(buffer, Samples(sound.data), format.channels, sound.Frames(), frames,
                                       voice.position, voice.looping);
      voice.position := position;
      voice.playing := playing;
    }

    /** `memset` of the first `n` samples. */
    static method ZeroPrefix(buffer: array<i16>, n: nat)
      requires n <= buffer.Length
      modifies buffer
      ensures buffer[..] == Zeroed(old(buffer[..]), n)
    {
      var k := 0;
      while k < n
        invariant 0 <= k <= n && buffer[..] == Zeroed(old(buffer[..]), k)
      {
        buffer[k] := 0;
        k := k + 1;
      }
    }

    /**
     * Fills `frames` frames of `buffer`: zeroes them, then mixes every slot
     * in order. The buffer and the slots end as `MixFrom` gives them, and
     * every slot keeps its sound.
     */
    method MixAudio(buffer: array<i16>, frames: nat)
      requires Valid() && MixerFormat(format) && frames * format.channels <= buffer.Length
      requires LoopsHaveFrames(Views(), format, frames)
      modifies buffer, VoiceSet()
      ensures var r := MixFrom(Zeroed(old(buffer[..]), frames * format.channels), old(Views()), format, frames, 0);
              buffer[..] == r.0 && |r.1| == MaxVoices
              && forall j :: 0 <= j < MaxVoices ==> voices[j].View() == r.1[j]
      ensures forall j :: 0 <= j < MaxVoices ==> voices[j].sound == old(voices[j].sound)
    {
      ZeroPrefix(buffer, frames * format.channels);
      assert Views() == old(Views());
      MixVoices(buffer, frames);
    }

    /** The voice loop of `mixAudio`: every slot in order is mixed into the buffer as `MixFrom` says. */
    method MixVoices(buffer: array<i16>, frames: nat)
      requires Valid() && MixerFormat(format) && frames * format.channels <= buffer.Length
      requires LoopsHaveFrames(Views(), format, frames)
      modifies buffer, VoiceSet()
      ensures var r := MixFrom(old(buffer[..]), old(Views()), format, frames, 0);
              buffer[..] == r.0 && |r.1| == MaxVoices
              && forall j :: 0 <= j < MaxVoices ==> voices[j].View() == r.1[j]
      ensures forall j :: 0 <= j < MaxVoices ==> voices[j].sound == old(voices[j].sound)
    {
      ghost var views := Views();
      ghost var target := MixFrom(buffer[..], views, format, frames, 0);
      ghost var done: seq<VoiceView> := [];
      var v := 0;
      while v < MaxVoices
        invariant 0 <= v <= MaxVoices && |done| == v
        invariant MixFrom(buffer[..], views, format, frames, v).0 == target.0
        invariant target.1 == done + MixFrom(buffer[..], views, format, frames, v).1
        invariant forall j :: 0 <= j < v ==> voices[j].View() == done[j]
        invariant forall j :: v <= j < MaxVoices ==> voices[j].View() == views[j]
        invariant forall j :: 0 <= j < MaxVoices ==> voices[j].sound == old(voices[j].sound)
      {
        ghost var one := MixOne(buffer[..], views[v], format, frames);
        MixFromStep(buffer[..], views, format, frames, v, done);
        MixVoice(buffer, v, frames);
        done := done + [one.1];
        v := v + 1;
      }
    }
  }
}
