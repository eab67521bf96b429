/** The display side: the brightest channel of a snapshot, the conversion
    of a channel to a byte, the reversed sub-pixel buffer handed to the
    window, and the lines of the PPM output. The square root of the gamma
    correction is a parameter. Colours are `Vec3` values whose `x`, `y`
    and `z` are the red, green and blue channels. */
module Display {
  import opened Vectors
  import opened Images

  newtype byte = b: int | 0 <= b < 256

  /** The closure of `max_intensity_from`: raise the running maximum to the
      red, then the green, then the blue channel whenever it is larger. */
  function MaxStep(maxSoFar: real, colour: Vec3): real {
    var afterRed := if colour.x > maxSoFar then colour.x else maxSoFar;
    var afterGreen := if colour.y > afterRed then colour.y else afterRed;
    if colour.z > afterGreen then colour.z else afterGreen
  }

  /** The left fold of `MaxStep` over `pixels` starting from `acc`. */
  function FoldMax(acc: real, pixels: seq<Vec3>): (r: real)
    ensures r >= acc
    decreases |pixels|
  {
    if |pixels| == 0 then acc else FoldMax(MaxStep(acc, pixels[0]), pixels[1..])
  }

  /** `max_intensity_from`: the fold starts at 1.0 . */
  function MaxIntensity(pixels: seq<Vec3>): (r: real)
    ensures r >= 1.0
  {
    FoldMax(1.0, pixels)
  }

  predicate IsChannelOf(v: real, pixels: seq<Vec3>) {
    exists k :: 0 <= k < |pixels| && (v == pixels[k].x || v == pixels[k].y || v == pixels[k].z)
  }

  lemma MaxStepBounds(maxSoFar: real, colour: Vec3)
    ensures var m := MaxStep(maxSoFar, colour);
            m >= maxSoFar && m >= colour.x && m >= colour.y && m >= colour.z &&
            (m == maxSoFar || m == colour.x || m == colour.y || m == colour.z)
  {
  }

  /** The fold never goes below its start, covers every channel, and ends
      at its start or at one of the channels. */
  lemma {:induction false} FoldMaxBounds(acc: real, pixels: seq<Vec3>)
    ensures FoldMax(acc, pixels) >= acc
    ensures forall k :: 0 <= k < |pixels| ==>
              FoldMax(acc, pixels) >= pixels[k].x && FoldMax(acc, pixels) >= pixels[k].y &&
              FoldMax(acc, pixels) >= pixels[k].z
    ensures FoldMax(acc, pixels) == acc || IsChannelOf(FoldMax(acc, pixels), pixels)
    decreases |pixels|
  {
    if |pixels| > 0 {
      var next := MaxStep(acc, pixels[0]);
      var rest := pixels[1..];
      MaxStepBounds(acc, pixels[0]);
      FoldMaxBounds(next, rest);
      var m := FoldMax(next, rest);
      assert m == FoldMax(acc, pixels);
      forall k | 0 <= k < |pixels|
        ensures m >= pixels[k].x && m >= pixels[k].y && m >= pixels[k].z
      {
        if k > 0 {
          assert pixels[k] == rest[k - 1];
        }
      }
      if m != next {
        var i :| 0 <= i < |rest| && (m == rest[i].x || m == rest[i].y || m == rest[i].z);
        assert rest[i] == pixels[i + 1];
      }
    }
  }

  /** The maximum intensity is at least 1, at least every channel of every
      pixel, and is 1 or one of those channels. */
  lemma MaxIntensityBounds(pixels: seq<Vec3>)
    ensures MaxIntensity(pixels) >= 1.0
    ensures forall k :: 0 <= k < |pixels| ==>
              MaxIntensity(pixels) >= pixels[k].x && MaxIntensity(pixels) >= pixels[k].y &&
              MaxIntensity(pixels) >= pixels[k].z
    ensures MaxIntensity(pixels) == 1.0 || IsChannelOf(MaxIntensity(pixels), pixels)
  {
    FoldMaxBounds(1.0, pixels);
  }

  /** `max_intensity_from` as the source runs it: one pass over the pixels
      with three conditional updates per pixel. */
  method MaxIntensityFrom(pixels: seq<Vec3>) returns (max: real)
    ensures max == MaxIntensity(pixels)
    ensures max >= 1.0
    ensures forall k :: 0 <= k < |pixels| ==> max >= pixels[k].x && max >= pixels[k].y && max >= pixels[k].z
  {
    max := 1.0;
    for i := 0 to |pixels|
      invariant FoldMax(max, pixels[i..]) == MaxIntensity(pixels)
    {
      assert pixels[i..][1..] == pixels[i + 1..];
      var colour := pixels[i];
      if colour.x > max {
        max := colour.x;
      }
      if colour.y > max {
        max := colour.y;
      }
      if colour.z > max {
        max := colour.z;
      }
    }
    assert pixels[|pixels|..] == [];
    MaxIntensityBounds(pixels);
  }

  /** `normalise`: a channel as a fraction of the maximum intensity. */
  function Normalise(value: real, maxIntensity: real): real
    requires maxIntensity != 0.0
  {
    value / maxIntensity
  }

  /** Against the maximum intensity of the snapshot, every channel
      normalises to at most 1, and a non-negative one to at least 0. */
  lemma NormaliseAtMostOne(pixels: seq<Vec3>, k: nat)
    requires k < |pixels|
    ensures var m := MaxIntensity(pixels);
            m > 0.0 &&
            Normalise(pixels[k].x, m) <= 1.0 && Normalise(pixels[k].y, m) <= 1.0 && Normalise(pixels[k].z, m) <= 1.0 &&
            (pixels[k].x >= 0.0 ==> Normalise(pixels[k].x, m) >= 0.0) &&
            (pixels[k].y >= 0.0 ==> Normalise(pixels[k].y, m) >= 0.0) &&
            (pixels[k].z >= 0.0 ==> Normalise(pixels[k].z, m) >= 0.0)
  {
    MaxIntensityBounds(pixels);
    var m := MaxIntensity(pixels);
    FractionBounds(pixels[k].x, m);
    FractionBounds(pixels[k].y, m);
    FractionBounds(pixels[k].z, m);
  }

  lemma FractionBounds(v: real, m: real)
    requires m >= 1.0 && v <= m
    ensures v / m <= 1.0
    ensures v >= 0.0 ==> v / m >= 0.0
  {
    assert v / m * m == v;
  }

  /** `f64_to_u8`: `value * 255` cast to `u8`, which truncates toward zero
      and saturates at 0 and 255. */
  function F64ToU8(value: real): (r: byte)
    ensures value * 255.0 <= 0.0 ==> r == 0
    ensures value * 255.0 >= 255.0 ==> r == 255
    ensures 0.0 < value * 255.0 < 255.0 ==> (r as real) <= value * 255.0 < (r as real) + 1.0
  {
    var scaled := value * 255.0;
    if scaled <= 0.0 then 0
    else if scaled >= 255.0 then 255
    else scaled.Floor as byte
  }

  lemma F64ToU8Ends()
    ensures F64ToU8(0.0) == 0 && F64ToU8(1.0) == 255 && F64ToU8(0.5) == 127
  {
  }

  /** One channel as shown: normalised, gamma corrected, then cast. */
  function ChannelByte(value: real, maxIntensity: real, sqrt: real -> real): byte
    requires maxIntensity != 0.0
  {
    F64ToU8(sqrt(Normalise(value, maxIntensity)))
  }

  /** The four sub-pixels the window code builds per pixel: 255, then
      blue, green and red. */
  function PixelBytes(p: Vec3, maxIntensity: real, sqrt: real -> real): seq<byte>
    requires maxIntensity != 0.0
  {
    [255, ChannelByte(p.z, maxIntensity, sqrt), ChannelByte(p.y, maxIntensity, sqrt), ChannelByte(p.x, maxIntensity, sqrt)]
  }

  /** The `map` and `flatten` of the sub-pixel construction. */
  function SubPixels(pixels: seq<Vec3>, maxIntensity: real, sqrt: real -> real): (r: seq<byte>)
    requires maxIntensity != 0.0
    decreases |pixels|
  {
    if |pixels| == 0 then [] else PixelBytes(pixels[0], maxIntensity, sqrt) + SubPixels(pixels[1..], maxIntensity, sqrt)
  }

  /** Four bytes per pixel, and bytes `4k .. 4k + 3` come from pixel `k`. */
  lemma {:induction false} SubPixelsLayout(pixels: seq<Vec3>, maxIntensity: real, sqrt: real -> real)
    requires maxIntensity != 0.0
    ensures |SubPixels(pixels, maxIntensity, sqrt)| == 4 * |pixels|
    ensures forall k :: 0 <= k < |pixels| ==>
              SubPixels(pixels, maxIntensity, sqrt)[4 * k..4 * k + 4] == PixelBytes(pixels[k], maxIntensity, sqrt)
    decreases |pixels|
  {
    if |pixels| > 0 {
      var rest := pixels[1..];
      SubPixelsLayout(rest, maxIntensity, sqrt);
      var head := PixelBytes(pixels[0], maxIntensity, sqrt);
      var tail := SubPixels(rest, maxIntensity, sqrt);
      var s := SubPixels(pixels, maxIntensity, sqrt);
      assert s == head + tail;
      forall k | 0 <= k < |pixels|
        ensures s[4 * k..4 * k + 4] == PixelBytes(pixels[k], maxIntensity, sqrt)
      {
        if k > 0 {
          assert pixels[k] == rest[k - 1];
          assert s[4 * k..4 * k + 4] == tail[4 * (k - 1)..4 * (k - 1) + 4];
        }
      }
    }
  }

  /** A sequence back to front. */
  function Reversed<T>(s: seq<T>): seq<T>
    decreases |s|
  {
    if |s| == 0 then [] else Reversed(s[1..]) + [s[0]]
  }

  lemma {:induction false} ReversedIndex<T>(s: seq<T>)
    ensures |Reversed(s)| == |s|
    ensures forall i :: 0 <= i < |s| ==> Reversed(s)[i] == s[|s| - 1 - i]
    decreases |s|
  {
    if |s| > 0 {
      ReversedIndex(s[1..]);
      forall i | 0 <= i < |s|
        ensures Reversed(s)[i] == s[|s| - 1 - i]
      {
        if i < |s| - 1 {
          assert Reversed(s)[i] == Reversed(s[1..])[i];
        }
      }
    }
  }

  /** Reversing twice gives the sequence back. */
  lemma ReversedInvolutive<T>(s: seq<T>)
    ensures Reversed(Reversed(s)) == s
  {
    ReversedIndex(s);
    ReversedIndex(Reversed(s));
  }

  /** `reverse` on a vector: swap from both ends towards the middle. */
  method Reverse<T>(a: array<T>)
    modifies a
    ensures a[..] == Reversed(old(a[..]))
  {
    ghost var original := a[..];
    var n := a.Length;
    var i := 0;
    while i < n / 2
      invariant 0 <= i <= n / 2
      invariant forall k :: 0 <= k < i ==> a[k] == original[n - 1 - k] && a[n - 1 - k] == original[k]
      invariant forall k :: i <= k < n - i ==> a[k] == original[k]
    {
      a[i], a[n - 1 - i] := a[n - 1 - i], a[i];
      i := i + 1;
    }
    ReversedFromIndex(original, a[..]);
  }

  /** A sequence that holds `s` back to front, index by index, is `Reversed(s)`. */
  lemma ReversedFromIndex<T>(s: seq<T>, r: seq<T>)
    requires |r| == |s|
    requires forall k :: 0 <= k < |s| ==> r[k] == s[|s| - 1 - k]
    ensures r == Reversed(s)
  {
    ReversedIndex(s);
  }

  /** After the reversal, bytes `4k .. 4k + 3` are red, green, blue and 255
      of pixel `n - 1 - k`: the image is mirrored both ways. */
  lemma ReversedSubPixelsLayout(pixels: seq<Vec3>, maxIntensity: real, sqrt: real -> real, k: nat)
    requires maxIntensity != 0.0 && k < |pixels|
    ensures var r := Reversed(SubPixels(pixels, maxIntensity, sqrt));
            var p := pixels[|pixels| - 1 - k];
            |r| == 4 * |pixels| &&
            r[4 * k..4 * k + 4] ==
            [ChannelByte(p.x, maxIntensity, sqrt), ChannelByte(p.y, maxIntensity, sqrt), ChannelByte(p.z, maxIntensity, sqrt), 255]
  {
    var j := |pixels| - 1 - k;
    SubPixelsAt(pixels, maxIntensity, sqrt, j);
    ReversedBlock(SubPixels(pixels, maxIntensity, sqrt), k, j, PixelBytes(pixels[j], maxIntensity, sqrt));
  }

  /** `SubPixelsLayout` at one pixel. */
  lemma SubPixelsAt(pixels: seq<Vec3>, maxIntensity: real, sqrt: real -> real, j: nat)
    requires maxIntensity != 0.0 && j < |pixels|
    ensures |SubPixels(pixels, maxIntensity, sqrt)| == 4 * |pixels|
    ensures SubPixels(pixels, maxIntensity, sqrt)[4 * j..4 * j + 4] == PixelBytes(pixels[j], maxIntensity, sqrt)
  {
    SubPixelsLayout(pixels, maxIntensity, sqrt);
  }

  /** Reversing a sequence of four-element blocks reverses the order of the
      blocks and the elements inside each one. */
  lemma ReversedBlock<T>(s: seq<T>, k: nat, j: nat, block: seq<T>)
    requires |s| == 4 * (j + k + 1) && |block| == 4
    requires s[4 * j..4 * j + 4] == block
    ensures |Reversed(s)| == |s|
    ensures Reversed(s)[4 * k..4 * k + 4] == [block[3], block[2], block[1], block[0]]
  {
    ReversedIndex(s);
    var r := Reversed(s);
    var quad := r[4 * k..4 * k + 4];
    assert quad[0] == s[4 * j + 3] == block[3];
    assert quad[1] == s[4 * j + 2] == block[2];
    assert quad[2] == s[4 * j + 1] == block[1];
    assert quad[3] == s[4 * j] == block[0];
  }

  /** The sub-pixel buffer of one frame of the window: the snapshot's
      bytes, built per pixel against its maximum intensity, then reversed
      in place. */
  method SubPixelBuffer(image: ImageData<Vec3>, sqrt: real -> real) returns (buffer: array<byte>)
    ensures fresh(buffer)
    ensures buffer[..] == Reversed(SubPixels(image.canvas[..], MaxIntensity(image.canvas[..]), sqrt))
  {
    var pixels := image.Snapshot();
    var maxIntensity := MaxIntensityFrom(pixels);
    var bytes := SubPixels(pixels, maxIntensity, sqrt);
    buffer := new byte[|bytes|](i requires 0 <= i < |bytes| => bytes[i]);
    assert buffer[..] == bytes;
    Reverse(buffer);
  }

  /** The decimal digits of `n`, as `{}` formats an unsigned number. */
  function NatToString(n: nat): string
    decreases n
  {
    if n < 10 then [DigitChar(n)] else NatToString(n / 10) + [DigitChar(n % 10)]
  }

  function DigitChar(d: nat): char
    requires d < 10
  {
    "0123456789"[d]
  }

  /** The number a string of decimal digits denotes. */
  function DigitsValue(s: string): int
    decreases |s|
  {
    if |s| == 0 then 0 else 10 * DigitsValue(s[..|s| - 1]) + DigitValue(s[|s| - 1])
  }

  function DigitValue(c: char): int {
    if '0' <= c <= '9' then (c as int) - ('0' as int) else 0
  }

  /** Reading the digits back gives the number. */
  lemma {:induction false} NatToStringRoundTrip(n: nat)
    ensures DigitsValue(NatToString(n)) == n
    ensures |NatToString(n)| > 0
    decreases n
  {
    if n < 10 {
      DigitRoundTrip(n);
      assert NatToString(n)[..0] == [];
    } else {
      NatToStringRoundTrip(n / 10);
      DigitRoundTrip(n % 10);
      var s := NatToString(n);
      assert s[..|s| - 1] == NatToString(n / 10);
    }
  }

  lemma DigitRoundTrip(d: nat)
    requires d < 10
    ensures DigitValue(DigitChar(d)) == d
  {
  }

  lemma NatToStringExamples()
    ensures NatToString(0) == "0" && NatToString(7) == "7" && NatToString(255) == "255" && NatToString(1920) == "1920"
  {
  }

  /** One pixel line of the PPM output: red, green, blue, space separated. */
  function PixelLine(p: Vec3, maxIntensity: real, sqrt: real -> real): string
    requires maxIntensity != 0.0
  {
    NatToString(ChannelByte(p.x, maxIntensity, sqrt) as nat) + " " +
    NatToString(ChannelByte(p.y, maxIntensity, sqrt) as nat) + " " +
    NatToString(ChannelByte(p.z, maxIntensity, sqrt) as nat)
  }

  function PixelLines(pixels: seq<Vec3>, maxIntensity: real, sqrt: real -> real): (lines: seq<string>)
    requires maxIntensity != 0.0
    ensures |lines| == |pixels|
    ensures forall k :: 0 <= k < |pixels| ==> lines[k] == PixelLine(pixels[k], maxIntensity, sqrt)
  {
    seq(|pixels|, k requires 0 <= k < |pixels| => PixelLine(pixels[k], maxIntensity, sqrt))
  }

  /** What `output_ppm` prints: the magic number, the size, the largest
      value, then the pixels of the reversed snapshot, one per line, with
      the maximum intensity taken before the reversal. */
  function PpmLines(xSize: nat, ySize: nat, pixels: seq<Vec3>, sqrt: real -> real): seq<string> {
    var maxIntensity := MaxIntensity(pixels);
    ["P3", NatToString(xSize) + " " + NatToString(ySize), "255"] + PixelLines(Reversed(pixels), maxIntensity, sqrt)
  }

  /** Three header lines, then the pixels last to first: with `n` pixels,
      line `3 + i` is pixel `n - 1 - i`. */
  lemma PpmLinesLayout(xSize: nat, ySize: nat, pixels: seq<Vec3>, sqrt: real -> real)
    ensures var lines := PpmLines(xSize, ySize, pixels, sqrt);
            var m := MaxIntensity(pixels);
            m >= 1.0 &&
            |lines| == 3 + |pixels| &&
            lines[0] == "P3" && lines[1] == NatToString(xSize) + " " + NatToString(ySize) && lines[2] == "255" &&
            forall k :: 3 <= k < |lines| ==> lines[k] == PixelLine(pixels[|lines| - 1 - k], m, sqrt)
  {
    var lines := PpmLines(xSize, ySize, pixels, sqrt);
    var m := MaxIntensity(pixels);
    var body := PixelLines(Reversed(pixels), m, sqrt);
    ReversedIndex(pixels);
    assert lines == ["P3", NatToString(xSize) + " " + NatToString(ySize), "255"] + body;
    forall k | 3 <= k < |lines|
      ensures lines[k] == PixelLine(pixels[|lines| - 1 - k], m, sqrt)
    {
      assert lines[k] == body[k - 3];
    }
  }

  /** `output_ppm` without the printing: the lines it prints, in order. The
      snapshot is copied into a vector that is reversed in place. */
  method OutputPpm(image: ImageData<Vec3>, sqrt: real -> real) returns (lines: seq<string>)
    ensures lines == PpmLines(image.xSize, image.ySize, image.canvas[..], sqrt)
  {
    lines := ["P3", NatToString(image.xSize) + " " + NatToString(image.ySize), "255"];
    var snapshot := image.Snapshot();
    var maxIntensity := MaxIntensityFrom(snapshot);
    var pixels := new Vec3[|snapshot|](i requires 0 <= i < |snapshot| => snapshot[i]);
    assert pixels[..] == snapshot;
    Reverse(pixels);
    ghost var reversed := pixels[..];
    for i := 0 to pixels.Length
      invariant lines == ["P3", NatToString(image.xSize) + " " + NatToString(image.ySize), "255"] +
                         PixelLines(reversed[..i], maxIntensity, sqrt)
    {
      assert reversed[..i + 1] == reversed[..i] + [pixels[i]];
      lines := lines + [PixelLine(pixels[i], maxIntensity, sqrt)];
    }
    assert reversed[..pixels.Length] == reversed;
  }
}
