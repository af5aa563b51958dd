/** The fixed-point resampler: WAV frames at any rate from 8 to 192 kHz become 48 kHz stereo, one
    buffer at a time, and the buffers together are the one-pass result. */
module HdaResample {
  import opened Arith
  import opened Bytes

  /** Validated WAV data: sample format and the number of whole frames. */
  datatype Wav = Wav(data: seq<byte>, channels: nat, bits: nat, blockAlign: nat, frames: nat)

  datatype Stereo = Stereo(l: int, r: int)

  /** What the caller has checked before playing. */
  ghost predicate Checked(w: Wav) {
    && 1 <= w.channels <= 2 && (w.bits == 8 || w.bits == 16)
    && 0 < w.blockAlign && |w.data| <= 0xFFFF_FFFF - 44 && w.frames == |w.data| / w.blockAlign > 0
  }

  /** Where sample `channel` of frame `frame` starts. */
  function Offset(w: Wav, frame: nat, channel: nat): nat { frame * w.blockAlign + channel * (w.bits / 8) }

  /** Every sample asked for lies inside the data. */
  ghost predicate Covered(w: Wav) { w.frames > 0 ==> Offset(w, w.frames - 1, w.channels) <= |w.data| }

  /** All reads are in bounds exactly when the last frame's samples are. */
  lemma CoveredExactly(w: Wav)
    requires Checked(w)
    ensures Covered(w) <==>
            forall f, ch :: 0 <= f < w.frames && 0 <= ch < w.channels ==> Offset(w, f, ch) + w.bits / 8 <= |w.data|
  {
    if Covered(w) {
      forall f, ch | 0 <= f < w.frames && 0 <= ch < w.channels
        ensures Offset(w, f, ch) + w.bits / 8 <= |w.data|
      {
        SampleInside(w, f, ch);
      }
    } else {
      var f, ch := w.frames - 1, w.channels - 1;
      MulStep(ch, w.bits / 8);
      assert Offset(w, f, ch) + w.bits / 8 == Offset(w, f, w.channels);
    }
  }

  lemma SampleInside(w: Wav, f: nat, ch: nat)
    requires Covered(w) && f < w.frames && ch < w.channels
    ensures Offset(w, f, ch) + w.bits / 8 <= |w.data|
  {
    MulMono(f, w.frames - 1, w.blockAlign);
    MulMono(ch + 1, w.channels, w.bits / 8);
    MulStep(ch, w.bits / 8);
  }

  /** A stereo 16-bit file with block alignment 1 and a single data byte passes the checks, and its
      second sample lies three bytes beyond the data. */
  lemma SampleOutside(b: byte)
    ensures var w := Wav([b], 2, 16, 1, 1);
            Checked(w) && !Covered(w) && Offset(w, 0, 1) + w.bits / 8 == |w.data| + 3
  {
    DivUnique(1, 1, 1);
  }

  /** A block as long as its samples is enough. */
  lemma PackedIsCovered(w: Wav)
    requires Checked(w) && w.blockAlign == w.channels * (w.bits / 8)
    ensures Covered(w)
  {
    QuotRem(|w.data|, w.blockAlign);
    MulStep(w.frames - 1, w.blockAlign);
  }

  // ---------------------------------------------------------------- one sample

  function Signed16(v: nat): (r: int)
    requires v < 0x1_0000
    ensures -32768 <= r <= 32767
  {
    if v < 0x8000 then v else v - 0x1_0000
  }

  /** `hda_wav_sample_at` */
  function Sample(w: Wav, frame: nat, channel: nat): (r: int)
    requires Covered(w)
    ensures -32768 <= r <= 32767
  {
    if frame >= w.frames || w.channels == 0 then 0
    else
      var ch := if channel >= w.channels then 0 else channel;
      SampleInside(w, frame, ch);
      var at := Offset(w, frame, ch);
      if w.bits == 8 then (w.data[at] as int - 128) * 256
      else if w.bits == 16 then Signed16(Le16(w.data, at))
      else 0
  }

  function Clamp16(x: int): int { if x > 32767 then 32767 else if x < -32768 then -32768 else x }

  /** `hda_wav_interp` before its clamp: the shift rounds down. */
  function Blend(s0: int, s1: int, frac: nat): int { s0 + (s1 - s0) * (frac / 2) / 32768 }

  /** The product fits 32 bits, the blend lies between its neighbours, and so the clamp does
      nothing. */
  lemma BlendBetween(s0: int, s1: int, frac: nat)
    requires -32768 <= s0 <= 32767 && -32768 <= s1 <= 32767 && frac < 0x1_0000
    ensures -0x8000_0000 <= (s1 - s0) * (frac / 2) < 0x8000_0000
    ensures if s0 <= s1 then s0 <= Blend(s0, s1, frac) <= s1 else s1 <= Blend(s0, s1, frac) <= s0
    ensures Clamp16(Blend(s0, s1, frac)) == Blend(s0, s1, frac)
  {
    var d, f := s1 - s0, frac / 2;
    if d >= 0 { ScaleBounds(d, f); } else { ScaleBounds(-d, f); NegProduct(d, f); }
  }

  lemma ScaleBounds(d: nat, f: nat)
    requires d <= 65535 && f <= 32767
    ensures 0 <= d * f <= d * 32768 && d * f <= 65535 * 32767
  {
    MulMono(d, 65535, f);
    MulMono(f, 32767, d);
    MulMono(f, 32767, 65535);
  }

  lemma NegProduct(d: int, f: int)
    ensures -d * f == -(d * f)
  {
  }

  function Interp(w: Wav, index: nat, frac: nat, channel: nat): (r: int)
    requires Covered(w) && index < w.frames
  {
    var s0 := Sample(w, index, channel);
    var s1 := if index + 1 < w.frames then Sample(w, index + 1, channel) else s0;
    Clamp16(Blend(s0, s1, frac))
  }

  // ---------------------------------------------------------------- rate

  /** The step in 16.16, divided in two parts to stay within 32 bits. */
  function StepFp(rate: nat): nat {
    var q, r := rate / 48000, rate % 48000;
    q * 0x1_0000 + r * 0x1_0000 / 48000
  }

  /** The two-part division is exact, every intermediate fits 32 bits, and the step is never zero. */
  lemma StepExact(rate: nat)
    requires 8000 <= rate <= 192000
    ensures StepFp(rate) == rate * 0x1_0000 / 48000
    ensures rate % 48000 * 0x1_0000 < TWO32 && StepFp(rate) < TWO32
    ensures 10922 <= StepFp(rate) <= 4 * 0x1_0000
  {
  }

  // ---------------------------------------------------------------- the one-pass result

  /** Output frame for source position `pos` in 16.16. */
  function FrameAt(w: Wav, pos: nat): (r: Stereo)
    requires Covered(w) && pos / 0x1_0000 < w.frames
  {
    var index, frac := pos / 0x1_0000, pos % 0x1_0000;
    var l := Interp(w, index, frac, 0);
    Stereo(l, if w.channels >= 2 then Interp(w, index, frac, 1) else l)
  }

  /** How many output frames there are. */
  function Total(w: Wav, step: nat): nat
    requires step > 0
  {
    (w.frames * 0x1_0000 + step - 1) / step
  }

  lemma TotalMeans(w: Wav, step: nat, n: nat)
    requires step > 0
    ensures n < Total(w, step) <==> n * step / 0x1_0000 < w.frames
  {
    var end, total := w.frames * 0x1_0000, Total(w, step);
    QuotRem(end + step - 1, step);
    if n < total {
      MulMono(n + 1, total, step);
      MulStep(n, step);
    } else {
      MulMono(total, n, step);
    }
    assert n < total <==> n * step < end;
  }

  /** Output frame `n`. */
  function Out(w: Wav, step: nat, n: nat): (r: Stereo)
    requires Covered(w) && step > 0 && n < Total(w, step)
  {
    TotalMeans(w, step, n);
    FrameAt(w, n * step)
  }

  /** Output frames `a` up to `b`. */
  ghost function Frames(w: Wav, step: nat, a: nat, b: nat): (r: seq<Stereo>)
    requires Covered(w) && step > 0 && a <= b <= Total(w, step)
    ensures |r| == b - a
    decreases b - a
  {
    if a == b then [] else Frames(w, step, a, b - 1) + [Out(w, step, b - 1)]
  }

  lemma {:induction false} FramesJoin(w: Wav, step: nat, a: nat, m: nat, b: nat)
    requires Covered(w) && step > 0 && a <= m <= b <= Total(w, step)
    ensures Frames(w, step, a, m) + Frames(w, step, m, b) == Frames(w, step, a, b)
    decreases b
  {
    if m < b {
      FramesJoin(w, step, a, m, b - 1);
      var last := [Out(w, step, b - 1)];
      assert Frames(w, step, a, m) + (Frames(w, step, m, b - 1) + last)
          == Frames(w, step, a, m) + Frames(w, step, m, b - 1) + last;
    }
  }

  // ---------------------------------------------------------------- buffers

  /** Frame `i` of an interleaved buffer. */
  function Slot(buf: seq<int>, i: nat): Stereo
    requires 2 * i + 1 < |buf|
  {
    Stereo(buf[2 * i], buf[2 * i + 1])
  }

  /** The first `k` frames of a buffer. */
  ghost function Head(buf: seq<int>, k: nat): (r: seq<Stereo>)
    requires 2 * k <= |buf|
    ensures |r| == k
  {
    if k == 0 then [] else Head(buf, k - 1) + [Slot(buf, k - 1)]
  }

  lemma {:induction false} HeadFrame(a: seq<int>, b: seq<int>, k: nat)
    requires 2 * k <= |a| == |b| && a[..2 * k] == b[..2 * k]
    ensures Head(a, k) == Head(b, k)
  {
    if k > 0 {
      assert a[2 * k - 2] == a[..2 * k][2 * k - 2] && b[2 * k - 2] == b[..2 * k][2 * k - 2];
      assert a[2 * k - 1] == a[..2 * k][2 * k - 1] && b[2 * k - 1] == b[..2 * k][2 * k - 1];
      assert a[..2 * (k - 1)] == a[..2 * k][..2 * (k - 1)] && b[..2 * (k - 1)] == b[..2 * k][..2 * (k - 1)];
      HeadFrame(a, b, k - 1);
    }
  }

  /** `k` frames from output frame `n` on are in the buffer, and silence behind them. */
  ghost predicate Filled(w: Wav, step: nat, n: nat, k: nat, buf: seq<int>) {
    && Covered(w) && step > 0 && n + k <= Total(w, step) && 2 * k <= |buf|
    && Head(buf, k) == Frames(w, step, n, n + k)
  }

  lemma FilledNone(w: Wav, step: nat, n: nat, buf: seq<int>)
    requires Covered(w) && step > 0 && n <= Total(w, step)
    ensures Filled(w, step, n, 0, buf)
  {
  }

  lemma FilledStep(w: Wav, step: nat, n: nat, k: nat, buf: seq<int>, buf': seq<int>)
    requires Filled(w, step, n, k, buf) && n + k < Total(w, step) && 2 * k + 2 <= |buf| == |buf'|
    requires buf'[..2 * k] == buf[..2 * k] && Slot(buf', k) == Out(w, step, n + k)
    ensures Filled(w, step, n, k + 1, buf')
  {
    hide Out, Covered, Total;
    HeadFrame(buf, buf', k);
    assert n + (k + 1) - 1 == n + k;
  }

  class Player {
    const w: Wav
    const step: nat
    var pos: nat

    /** A position `n` frames into the output, not past its end. */
    ghost predicate At(n: nat)
      reads this
    {
      Checked(w) && Covered(w) && 0 < step <= 0x4_0000 && n <= Total(w, step) && pos == n * step
    }

    constructor (w: Wav, rate: nat)
      requires Checked(w) && Covered(w) && 8000 <= rate <= 192000
      ensures this.w == w && step == rate * 0x1_0000 / 48000 && At(0)
    {
      StepExact(rate);
      this.w, step, pos := w, StepFp(rate), 0;
    }

    /** `hda_fill_wav_buffer`: 1024 frames, or what is left, then silence. */
    method FillBuffer(out: array<int>, ghost n: nat) returns (bytes: nat, end: bool, ghost k: nat)
      requires At(n) && out.Length == 2048
      modifies `pos, out
      ensures k == (if Total(w, step) - n < 1024 then Total(w, step) - n else 1024) && At(n + k)
      ensures Filled(w, step, n, k, out[..]) && forall i :: 2 * k <= i < 2048 ==> out[i] == 0
      ensures bytes == 4 * k && (end <==> n + k == Total(w, step))
    {
      hide Filled, Covered, Total, Out, FrameAt;
      var i: nat := 0;
      FilledNone(w, step, n, out[..]);
      IndexFits(w, step, n);
      while i < 1024 && U32(pos / 0x1_0000) < w.frames
        invariant i <= 1024 && n + i <= Total(w, step) && pos == (n + i) * step
        invariant Filled(w, step, n, i, out[..])
        invariant U32(pos / 0x1_0000) == pos / 0x1_0000
      {
        TotalMeans(w, step, n + i);
        ghost var was := out[..];
        var f := FrameAt(w, pos);
        OutIs(w, step, n + i);
        out[2 * i] := f.l;
        out[2 * i + 1] := f.r;
        assert out[..][..2 * i] == was[..2 * i];
        FilledStep(w, step, n, i, was, out[..]);
        MulStep(n + i, step);
        pos := pos + step;
        i := i + 1;
        IndexFits(w, step, n + i);
      }
      k := i;
      TotalMeans(w, step, n + k);
      end := U32(pos / 0x1_0000) >= w.frames;
      bytes := 4 * i;
      Silence(out, n, i);
    }

    method Silence(out: array<int>, ghost n: nat, k: nat)
      requires out.Length == 2048 && k <= 1024 && Filled(w, step, n, k, out[..])
      modifies out
      ensures Filled(w, step, n, k, out[..]) && forall i :: 2 * k <= i < 2048 ==> out[i] == 0
    {
      ghost var was := out[..];
      for i := k to 1024
        invariant out[..2 * k] == was[..2 * k]
        invariant forall j :: 2 * k <= j < 2 * i ==> out[j] == 0
      {
        out[2 * i], out[2 * i + 1] := 0, 0;
      }
      assert out[..][..2 * k] == was[..2 * k];
      HeadFrame(was, out[..], k);
    }

    /** Buffer after buffer until the end is flagged: together they hold the one-pass result. */
    method Drain(out: array<int>) returns (ghost all: seq<Stereo>, buffers: nat)
      requires At(0) && out.Length == 2048
      modifies `pos, out
      ensures all == Frames(w, step, 0, Total(w, step))
    {
      all, buffers := [], 0;
      ghost var n := 0;
      var end := false;
      while !end
        invariant At(n) && all == Frames(w, step, 0, n) && (end <==> n == Total(w, step) && buffers > 0)
        decreases !end, Total(w, step) - n
      {
        hide Filled, Covered, Total, Out;
        var bytes;
        ghost var k;
        bytes, end, k := FillBuffer(out, n);
        HeadIs(w, step, n, k, out[..]);
        FramesJoin(w, step, 0, n, n + k);
        all := all + Head(out[..], k);
        n := n + k;
        buffers := buffers + 1;
      }
    }
  }

  lemma HeadIs(w: Wav, step: nat, n: nat, k: nat, buf: seq<int>)
    requires Filled(w, step, n, k, buf)
    ensures 2 * k <= |buf| && Head(buf, k) == Frames(w, step, n, n + k)
  {
  }

  lemma OutIs(w: Wav, step: nat, n: nat)
    requires Covered(w) && step > 0 && n < Total(w, step)
    ensures n * step / 0x1_0000 < w.frames && Out(w, step, n) == FrameAt(w, n * step)
  {
    TotalMeans(w, step, n);
  }

  /** The source index never leaves 32 bits. */
  lemma IndexFits(w: Wav, step: nat, n: nat)
    requires Checked(w) && 0 < step <= 0x4_0000 && n <= Total(w, step)
    ensures U32(n * step / 0x1_0000) == n * step / 0x1_0000
  {
    var total := Total(w, step);
    QuotRem(w.frames * 0x1_0000 + step - 1, step);
    MulMono(n, total, step);
    FramesBound(w);
  }

  lemma FramesBound(w: Wav)
    requires Checked(w)
    ensures w.frames <= |w.data|
  {
    QuotRem(|w.data|, w.blockAlign);
    MulMono(1, w.blockAlign, w.frames);
  }
}
