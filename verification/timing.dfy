/** Durations in the two video builders: main.py pairs each slide with its own narration
    and pads it by 0.2 seconds; paper_voice_bot.py shows every slide for 4 seconds under
    one narration track. Also the tempo clamp of the ffmpeg speed-up in main.py.
    Durations are reals; no rounding is modelled. */
module Timing {
  import opened Wrappers

  /** The range ffmpeg's `atempo` filter accepts. */
  const MinSpeed: real := 0.5
  const MaxSpeed: real := 2.0

  /** Silence added after each narration (`audio.duration + 0.2`). */
  const Padding: real := 0.2

  /** How long each slide of the legacy video is shown (`set_duration(4)`). */
  const LegacySlideSeconds: real := 4.0

  /** `max(0.5, min(2.0, speed))`: the speed is brought into the accepted range. */
  function ClampSpeed(speed: real): (r: real)
    ensures MinSpeed <= r <= MaxSpeed
    ensures MinSpeed <= speed <= MaxSpeed ==> r == speed
    ensures speed < MinSpeed ==> r == MinSpeed
    ensures speed > MaxSpeed ==> r == MaxSpeed
  {
    var upper := if MaxSpeed < speed then MaxSpeed else speed;
    if MinSpeed > upper then MinSpeed else upper
  }

  /** Clamping keeps the order of speeds. */
  lemma ClampSpeedMonotone(a: real, b: real)
    requires a <= b
    ensures ClampSpeed(a) <= ClampSpeed(b)
  {
  }

  /** The outcome of `speedup_audio_ffmpeg`: the tempo handed to ffmpeg, the path
      returned and whether the failure warning was given. */
  datatype SpeedUp = SpeedUp(tempo: real, path: string, warned: bool)

  /** `speedup_audio_ffmpeg` with the shell's exit code as a parameter: the tempo is
      clamped; on success the sped-up file is returned, on failure the original file is
      kept and a warning is given. */
  function SpeedUpAudio(inPath: string, outPath: string, speed: real, exitCode: int): (r: SpeedUp)
    ensures MinSpeed <= r.tempo <= MaxSpeed
    ensures r.tempo == ClampSpeed(speed)
    ensures r.warned <==> exitCode != 0
    ensures exitCode == 0 ==> r.path == outPath
    ensures exitCode != 0 ==> r.path == inPath
  {
    var tempo := ClampSpeed(speed);
    if exitCode != 0 then SpeedUp(tempo, inPath, true) else SpeedUp(tempo, outPath, false)
  }

  /** A narration file and its length in seconds. */
  datatype Audio = Audio(path: string, duration: real)

  /** One video clip: a slide image shown for `duration` seconds, with the narration
      that plays over it (None in the legacy builder, whose clips are silent). */
  datatype Clip = Clip(image: string, audio: Option<string>, duration: real)

  function Sum(xs: seq<real>): real
  {
    if |xs| == 0 then 0.0 else xs[0] + Sum(xs[1..])
  }

  function Durations(clips: seq<Clip>): (ds: seq<real>)
    ensures |ds| == |clips|
    ensures forall i :: 0 <= i < |clips| ==> ds[i] == clips[i].duration
  {
    seq(|clips|, i requires 0 <= i < |clips| => clips[i].duration)
  }

  function AudioDurations(audios: seq<Audio>): (ds: seq<real>)
    ensures |ds| == |audios|
    ensures forall i :: 0 <= i < |audios| ==> ds[i] == audios[i].duration
  {
    seq(|audios|, i requires 0 <= i < |audios| => audios[i].duration)
  }

  /** No clip runs backwards. */
  predicate NonnegativeDurations(clips: seq<Clip>) {
    forall i :: 0 <= i < |clips| ==> clips[i].duration >= 0.0
  }

  /** Length of the concatenation of clips (`concatenate_videoclips`): nothing for no
      clips, and never negative, nor shorter than any one clip, when no clip runs
      backwards. Each clip starts where the previous one ends (`Gapless`). */
  function TotalDuration(clips: seq<Clip>): (r: real)
    ensures |clips| == 0 ==> r == 0.0
    ensures NonnegativeDurations(clips) ==> r >= 0.0
    ensures NonnegativeDurations(clips) ==> forall i :: 0 <= i < |clips| ==> clips[i].duration <= r
  {
    if NonnegativeDurations(clips) then
      SumBounds(Durations(clips));
      Sum(Durations(clips))
    else
      Sum(Durations(clips))
  }

  /** A sum of non-negative terms is non-negative and at least each term. */
  lemma {:induction false} SumBounds(xs: seq<real>)
    requires forall i :: 0 <= i < |xs| ==> xs[i] >= 0.0
    ensures Sum(xs) >= 0.0
    ensures forall i :: 0 <= i < |xs| ==> xs[i] <= Sum(xs)
  {
    if |xs| > 0 {
      SumBounds(xs[1..]);
      assert forall i :: 1 <= i < |xs| ==> xs[i] == xs[1..][i - 1];
    }
  }

  /** The clip loop of main.py's `generate_video`: slide `i` is paired with narration
      `i` for as long as both lists last (`zip`, which drops the surplus of the longer
      list without complaint), and each clip lasts its narration plus the padding. */
  function PairClips(slides: seq<string>, audios: seq<Audio>): (clips: seq<Clip>)
    ensures |clips| == if |slides| < |audios| then |slides| else |audios|
    ensures forall i :: 0 <= i < |clips| ==>
              clips[i] == Clip(slides[i], Some(audios[i].path), audios[i].duration + Padding)
  {
    if |slides| == 0 || |audios| == 0 then []
    else [Clip(slides[0], Some(audios[0].path), audios[0].duration + Padding)] + PairClips(slides[1..], audios[1..])
  }

  lemma {:induction false} SumAppend(xs: seq<real>, ys: seq<real>)
    ensures Sum(xs + ys) == Sum(xs) + Sum(ys)
    decreases |xs|
  {
    if |xs| > 0 {
      SumAppend(xs[1..], ys);
      assert (xs + ys)[1..] == xs[1..] + ys;
    } else {
      assert xs + ys == ys;
    }
  }

  /** The paired video lasts as long as the narrations it uses plus 0.2 seconds for
      each clip. */
  lemma {:induction false} PairedTotal(slides: seq<string>, audios: seq<Audio>)
    ensures var n := |PairClips(slides, audios)|;
            TotalDuration(PairClips(slides, audios)) == Sum(AudioDurations(audios[..n])) + Padding * (n as real)
    decreases |slides|
  {
    if |slides| > 0 && |audios| > 0 {
      PairedTotal(slides[1..], audios[1..]);
      var clips := PairClips(slides, audios);
      var n := |clips|;
      assert Durations(clips)[1..] == Durations(clips[1..]);
      assert clips[1..] == PairClips(slides[1..], audios[1..]);
      assert AudioDurations(audios[..n])[1..] == AudioDurations(audios[1..][..n - 1]);
    }
  }

  /** Five narrations under five slides give a five-clip video whose length is the
      narration time plus one second. */
  lemma FiveSlidesTotal(slides: seq<string>, audios: seq<Audio>)
    requires |slides| == 5 && |audios| == 5
    ensures |PairClips(slides, audios)| == 5
    ensures TotalDuration(PairClips(slides, audios)) == Sum(AudioDurations(audios)) + 1.0
  {
    PairedTotal(slides, audios);
    assert audios[..5] == audios;
  }

  /** Clips are played back to back: clip `i` starts when the clips before it have
      finished. */
  function StartTime(clips: seq<Clip>, i: nat): real
    requires i <= |clips|
  {
    TotalDuration(clips[..i])
  }

  /** No gap and no overlap: each clip starts where the previous one ends, the first at
      zero, and the last ends at the total length. */
  lemma Gapless(clips: seq<Clip>, i: nat)
    requires i < |clips|
    ensures StartTime(clips, 0) == 0.0
    ensures StartTime(clips, i + 1) == StartTime(clips, i) + clips[i].duration
    ensures StartTime(clips, |clips|) == TotalDuration(clips)
  {
    assert clips[..|clips|] == clips;
    assert Durations(clips[..i + 1]) == Durations(clips[..i]) + [clips[i].duration];
    SumAppend(Durations(clips[..i]), [clips[i].duration]);
  }

  /** The clip list of paper_voice_bot.py's `generate_video`: every slide, in order,
      shown for 4 seconds. */
  function FixedClips(slides: seq<string>): (clips: seq<Clip>)
    ensures |clips| == |slides|
    ensures forall i :: 0 <= i < |clips| ==> clips[i] == Clip(slides[i], None, LegacySlideSeconds)
  {
    seq(|slides|, i requires 0 <= i < |slides| => Clip(slides[i], None, LegacySlideSeconds))
  }

  /** The legacy video lasts 4 seconds per slide. */
  lemma {:induction false} FixedTotal(slides: seq<string>)
    ensures TotalDuration(FixedClips(slides)) == LegacySlideSeconds * (|slides| as real)
    decreases |slides|
  {
    if |slides| > 0 {
      FixedTotal(slides[1..]);
      assert Durations(FixedClips(slides))[1..] == Durations(FixedClips(slides[1..]));
    }
  }

  /** The legacy video: its clips and the one narration laid over the whole of it. */
  datatype LegacyVideo = LegacyVideo(clips: seq<Clip>, narration: string)

  /** paper_voice_bot.py's `generate_video`: one 4-second clip per slide, concatenated,
      with the single narration set as the soundtrack of the whole video. */
  function LegacyVideoOf(slides: seq<string>, narration: string): (v: LegacyVideo)
    ensures |v.clips| == |slides| && v.narration == narration
    ensures forall i :: 0 <= i < |v.clips| ==>
              v.clips[i].image == slides[i] && v.clips[i].audio == None && v.clips[i].duration == LegacySlideSeconds
    ensures TotalDuration(v.clips) == LegacySlideSeconds * (|slides| as real)
  {
    FixedTotal(slides);
    LegacyVideo(FixedClips(slides), narration)
  }
}
