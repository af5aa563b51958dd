/** What the resampler delivers, told on the bytes of the file: which samples go to which side, and how far
    a blended sample is from the straight line between its neighbours. */
module HdaSound {
  import opened Arith
  import opened Bytes
  import opened HdaResample

  /** The signed 16-bit number of a low and a high byte. */
  function Pcm16(lo: byte, hi: byte): int {
    lo as int + 256 * (if hi < 128 then hi as int else hi as int - 256)
  }

  /** An unsigned 8-bit sample, spread over 16 bits. */
  function Pcm8(b: byte): int { (b as int - 128) * 256 }

  /** Sample `ch` of frame `f`, from the bytes of the file. */
  function SampleOf(w: Wav, f: nat, ch: nat): int
    requires Covered(w) && f < w.frames && ch < w.channels && (w.bits == 8 || w.bits == 16)
  {
    SampleInside(w, f, ch);
    var at := f * w.blockAlign + ch * (w.bits / 8);
    if w.bits == 8 then Pcm8(w.data[at]) else Pcm16(w.data[at], w.data[at + 1])
  }

  lemma SampleIs(w: Wav, f: nat, ch: nat)
    requires Covered(w) && f < w.frames && ch < w.channels && (w.bits == 8 || w.bits == 16)
    ensures Sample(w, f, ch) == SampleOf(w, f, ch)
  {
    SampleInside(w, f, ch);
    hide Covered;
    var at := Offset(w, f, ch);
    if w.bits == 16 { SignedIs(w.data[at], w.data[at + 1]); }
  }

  lemma SignedIs(lo: byte, hi: byte)
    ensures Signed16(lo as int + 256 * hi as int) == Pcm16(lo, hi)
  {
  }

  /** `x` lies, in steps of 1/65536, less than one output step below the point `frac` of the way from `a` to
      `b` for the shift that rounds down, and at most their difference off for the bit of `frac` dropped. */
  ghost predicate Near(x: int, a: int, b: int, frac: nat) {
    var err := 0x1_0000 * (x - a) - (b - a) * frac;
    && -0x1_0000 - (if b > a then b - a else 0) < err <= (if b < a then a - b else 0)
    && (frac == 0 ==> x == a)
  }

  lemma BlendNear(a: int, b: int, frac: nat)
    requires frac < 0x1_0000
    ensures Near(Blend(a, b, frac), a, b, frac)
  {
    var y := (b - a) * (frac / 2);
    Doubled(b - a, frac);
    Floored(y);
    var odd := if frac % 2 == 0 then 0 else b - a;
    OddPart(b - a, frac);
    NearFrom(Blend(a, b, frac), a, b, frac, (b - a) * frac, y, y / 32768, odd);
  }

  lemma OddPart(d: int, frac: nat)
    ensures d * (frac % 2) == if frac % 2 == 0 then 0 else d
    ensures frac == 0 ==> d * (frac / 2) == 0
  {
  }

  lemma Floored(y: int)
    ensures y / 32768 * 32768 <= y < y / 32768 * 32768 + 32768
  {
  }

  lemma NearFrom(x: int, a: int, b: int, frac: nat, p: int, y: int, q: int, odd: int)
    requires p == (b - a) * frac && p == 2 * y + odd && odd in {0, b - a} && q * 32768 <= y < q * 32768 + 32768
    requires x == a + q && (frac == 0 ==> q == 0)
    ensures Near(x, a, b, frac)
  {
  }

  lemma Doubled(d: int, frac: nat)
    ensures d * frac == 2 * (d * (frac / 2)) + d * (frac % 2)
  {
    var f, e := frac / 2, frac % 2;
    assert frac == 2 * f + e;
    Spread(d, f, e);
  }

  lemma Spread(d: int, f: int, e: int)
    ensures d * (2 * f + e) == 2 * (d * f) + d * e
  {
  }

  lemma InterpNear(w: Wav, index: nat, frac: nat, ch: nat)
    requires Covered(w) && index < w.frames && ch < w.channels && (w.bits == 8 || w.bits == 16) && frac < 0x1_0000
    ensures var next := if index + 1 < w.frames then index + 1 else index;
            Near(Interp(w, index, frac, ch), SampleOf(w, index, ch), SampleOf(w, next, ch), frac)
  {
    hide Covered, Blend, SampleOf, Near, Clamp16, Sample;
    var next := if index + 1 < w.frames then index + 1 else index;
    SampleIs(w, index, ch);
    SampleIs(w, next, ch);
    BlendBetween(Sample(w, index, ch), Sample(w, next, ch), frac);
    BlendNear(Sample(w, index, ch), Sample(w, next, ch), frac);
  }

  /** Every output frame, at every rate: the left side blends samples of channel 0, the right side samples of
      channel 1, or is the left side of a file with one channel. */
  lemma OutNear(w: Wav, step: nat, n: nat)
    requires Checked(w) && Covered(w) && step > 0 && n < Total(w, step)
    ensures var index, frac := n * step / 0x1_0000, n * step % 0x1_0000;
            var next := if index + 1 < w.frames then index + 1 else index;
            && index < w.frames
            && Near(Out(w, step, n).l, SampleOf(w, index, 0), SampleOf(w, next, 0), frac)
            && (w.channels == 2 ==> Near(Out(w, step, n).r, SampleOf(w, index, 1), SampleOf(w, next, 1), frac))
            && (w.channels == 1 ==> Out(w, step, n).r == Out(w, step, n).l)
  {
    hide Covered, SampleOf, Near, Interp, Total, Out;
    OutIs(w, step, n);
    var index, frac := n * step / 0x1_0000, n * step % 0x1_0000;
    InterpNear(w, index, frac, 0);
    if w.channels == 2 { InterpNear(w, index, frac, 1); }
  }

  // ---------------------------------------------------------------- 48 kHz

  lemma UnitTotal(w: Wav)
    ensures Total(w, 0x1_0000) == w.frames
  {
    DivUnique(w.frames * 0x1_0000 + 0x1_0000 - 1, 0x1_0000, w.frames);
  }

  /** At 48 kHz a frame of the output is the frame of the file. */
  lemma UnitFrame(w: Wav, n: nat)
    requires Checked(w) && Covered(w) && n < w.frames
    ensures n < Total(w, 0x1_0000) && Out(w, 0x1_0000, n).l == SampleOf(w, n, 0)
    ensures Out(w, 0x1_0000, n).r == SampleOf(w, n, w.channels - 1)
  {
    hide Covered, SampleOf, Total, Out;
    UnitTotal(w);
    OutNear(w, 0x1_0000, n);
    DivUnique(n * 0x1_0000, 0x1_0000, n);
  }

  lemma {:induction false} FramesAt(w: Wav, step: nat, a: nat, b: nat, i: nat)
    requires Covered(w) && step > 0 && a <= i < b <= Total(w, step)
    ensures Frames(w, step, a, b)[i - a] == Out(w, step, i)
    decreases b - a
  {
    hide Covered, Total, Out;
    if i < b - 1 { FramesAt(w, step, a, b - 1, i); }
  }

  /** A packed 16-bit stereo file at 48 kHz is delivered as its own samples: bytes 4i and 4i + 1 left, 4i + 2
      and 4i + 3 right. */
  lemma StereoDelivered(w: Wav)
    requires Checked(w) && w.channels == 2 && w.bits == 16 && w.blockAlign == 4
    ensures Covered(w) && Total(w, 0x1_0000) == w.frames && 4 * w.frames <= |w.data|
    ensures var out := Frames(w, 0x1_0000, 0, w.frames);
            |out| == w.frames &&
            forall i :: 0 <= i < w.frames ==>
              out[i] == Stereo(Pcm16(w.data[4 * i], w.data[4 * i + 1]), Pcm16(w.data[4 * i + 2], w.data[4 * i + 3]))
  {
    PackedIsCovered(w);
    UnitTotal(w);
    QuotRem(|w.data|, 4);
    hide Covered, Total, Out, Frames, Pcm16, Checked;
    forall i | 0 <= i < w.frames
      ensures Frames(w, 0x1_0000, 0, w.frames)[i]
           == Stereo(Pcm16(w.data[4 * i], w.data[4 * i + 1]), Pcm16(w.data[4 * i + 2], w.data[4 * i + 3]))
    {
      FramesAt(w, 0x1_0000, 0, w.frames, i);
      UnitFrame(w, i);
    }
  }

  /** A packed 8-bit file with one channel is delivered with each sample on both sides. */
  lemma MonoDelivered(w: Wav)
    requires Checked(w) && w.channels == 1 && w.bits == 8 && w.blockAlign == 1
    ensures Covered(w) && Total(w, 0x1_0000) == w.frames == |w.data|
    ensures var out := Frames(w, 0x1_0000, 0, w.frames);
            |out| == |w.data| && forall i :: 0 <= i < |w.data| ==> out[i] == Stereo(Pcm8(w.data[i]), Pcm8(w.data[i]))
  {
    PackedIsCovered(w);
    UnitTotal(w);
    QuotRem(|w.data|, 1);
    hide Covered, Total, Out, Frames, Pcm8, Checked;
    forall i | 0 <= i < w.frames
      ensures Frames(w, 0x1_0000, 0, w.frames)[i] == Stereo(Pcm8(w.data[i]), Pcm8(w.data[i]))
    {
      FramesAt(w, 0x1_0000, 0, w.frames, i);
      UnitFrame(w, i);
    }
  }

  // ---------------------------------------------------------------- the buffer

  lemma {:induction false} HeadAt(buf: seq<int>, k: nat, j: nat)
    requires 2 * k <= |buf| && j < k
    ensures Head(buf, k)[j] == Stereo(buf[2 * j], buf[2 * j + 1])
  {
    if j < k - 1 { HeadAt(buf, k - 1, j); }
  }

  /** A filled buffer holds the output frames in order, left before right. */
  lemma BufferHolds(w: Wav, step: nat, n: nat, k: nat, buf: seq<int>, j: nat)
    requires Filled(w, step, n, k, buf) && j < k
    ensures buf[2 * j] == Out(w, step, n + j).l && buf[2 * j + 1] == Out(w, step, n + j).r
  {
    hide Covered, Total, Out;
    HeadAt(buf, k, j);
    FramesAt(w, step, n, n + k, n + j);
  }
}
