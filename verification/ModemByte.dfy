/**
 One byte over the audio line: framing, an ideal tone detector, and the receiver that finds each
 start bit again with half-bit windows.  Sound is a sequence of samples, each of one tone.
 */
module ModemByte {
  import opened Common

  // 100 bits a second; a byte is a start bit, eight data bits and ten stop bits.
  const SAMPLE_RATE: nat := 44100
  const SAMPLES_PER_BIT: nat := 441
  const CHECK_SIZE: nat := 220
  const SAMPLES_PER_BYTE: nat := 8379
  const PREAMBLE_CHECK: nat := 4410

  /** The preamble is the mark tone too. */
  datatype Tone = Mark | Space | Silence

  // ----- Bits -----

  function Pow2(i: nat): (p: nat)
    requires i <= 8
    ensures p > 0
  {
    [1, 2, 4, 8, 16, 32, 64, 128, 256][i]
  }

  predicate Bit(b: nat, i: nat)
    requires i < 8
  {
    b / Pow2(i) % 2 == 1
  }

  /** `*byte |= (1 << i)` */
  function SetBit(b: nat, i: nat): nat
    requires i < 8
  {
    if Bit(b, i) then b else b + Pow2(i)
  }

  lemma MultipleIsFar(y: int, d: int)
    requires y > 0
    ensures d >= 1 ==> y * d >= y
    ensures d <= -1 ==> y * d <= -y
  {
    if d >= 1 {
      assert y * d == y + y * (d - 1);
    } else if d <= -1 {
      assert y * d == -y + y * (d + 1);
    }
  }

  lemma DivUnique(x: nat, y: nat, q: nat, r: nat)
    requires y > 0 && x == y * q + r && r < y
    ensures x / y == q && x % y == r
  {
    assert x == y * (x / y) + x % y;
    assert y * (q - x / y) == x % y - r;
    MultipleIsFar(y, q - x / y);
  }

  /** The bits below `i + 1` are the bits below `i` and bit `i`. */
  lemma LowBits(b: nat, i: nat)
    requires i < 8
    ensures b % Pow2(i + 1) == if Bit(b, i) then SetBit(b % Pow2(i), i) else b % Pow2(i)
  {
    var p := Pow2(i);
    var q, r := b / p, b % p;
    var h, e := q / 2, q % 2;
    assert Pow2(i + 1) == 2 * p;
    DivUnique(r, p, 0, r);
    assert b == (2 * p) * h + (p * e + r) by {
      assert p * q == p * (2 * h + e) == (2 * p) * h + p * e;
    }
    DivUnique(b, 2 * p, h, p * e + r);
  }

  // ----- The sender -----

  function BitTone(b: Byte, i: nat): Tone
    requires i < 8
  {
    if Bit(b, i) then Mark else Space
  }

  /** Sample `k` of a framed byte: a start bit of space, the data bits from the lowest, ten stop bits of mark. */
  function ToneAt(b: Byte, k: nat): Tone {
    if k < SAMPLES_PER_BIT then Space
    else if k < 9 * SAMPLES_PER_BIT then BitTone(b, (k - SAMPLES_PER_BIT) / SAMPLES_PER_BIT)
    else Mark
  }

  function ByteTones(b: Byte): (w: seq<Tone>)
    ensures |w| == SAMPLES_PER_BYTE
  {
    seq(SAMPLES_PER_BYTE, k requires 0 <= k => ToneAt(b, k))
  }

  /**
   Sample by sample, 441 to a bit: the first bit is space, of bits 1 to 8 those of the byte's ones are
   mark, lowest first, and bits 9 to 18 are mark.
   */
  lemma WaveformIs(b: Byte, k: nat)
    requires k < 8379
    ensures |ByteTones(b)| == 8379
    ensures var bit := k / 441;
      ByteTones(b)[k] ==
        if bit == 0 then Space
        else if bit <= 8 && b / [1, 2, 4, 8, 16, 32, 64, 128][bit - 1] % 2 == 0 then Space
        else Mark
  {
    var bit := k / 441;
    assert bit <= 18;
    if 1 <= bit <= 8 {
      assert (k - 441) / 441 == bit - 1;
    }
  }

  /** `generate_tone`, writing at `off`. */
  method GenerateTone(buffer: array<Tone>, off: nat, t: Tone, frames: nat)
    requires off + frames <= buffer.Length
    modifies buffer
    ensures forall k | 0 <= k < buffer.Length ::
      buffer[k] == if off <= k < off + frames then t else old(buffer[k])
  {
    for i := 0 to frames
      invariant forall k | 0 <= k < buffer.Length ::
        buffer[k] == if off <= k < off + i then t else old(buffer[k])
    {
      buffer[off + i] := t;
    }
  }

  /** The frame of a byte fills the buffer, whatever was in it. */
  method ModulateByte(b: Byte, buffer: array<Tone>)
    requires buffer.Length == SAMPLES_PER_BYTE
    modifies buffer
    ensures buffer[..] == ByteTones(b)
  {
    GenerateTone(buffer, 0, Space, SAMPLES_PER_BIT);
    var off := SAMPLES_PER_BIT;
    for i := 0 to 8
      invariant off == SAMPLES_PER_BIT * (i + 1)
      invariant forall k | 0 <= k < off :: buffer[k] == ToneAt(b, k)
    {
      GenerateTone(buffer, off, BitTone(b, i), SAMPLES_PER_BIT);
      off := off + SAMPLES_PER_BIT;
    }
    for i := 0 to 10
      invariant off == SAMPLES_PER_BIT * (i + 9)
      invariant forall k | 0 <= k < off :: buffer[k] == ToneAt(b, k)
    {
      GenerateTone(buffer, off, Mark, SAMPLES_PER_BIT);
      off := off + SAMPLES_PER_BIT;
    }
  }

  // ----- The detector -----

  function Count(w: seq<Tone>, t: Tone): (n: nat)
    ensures n <= |w|
  {
    if w == [] then 0
    else Count(w[..|w| - 1], t) + if w[|w| - 1] == t then 1 else 0
  }

  /** The ideal detector: the square of the number of matching samples, times the gain of the line. */
  function Magnitude(w: seq<Tone>, t: Tone, gain: real): real {
    Energy(Count(w, t), gain)
  }

  function Energy(n: nat, gain: real): real {
    gain * (n * n) as real
  }

  /** Loud enough for a check full of preamble to be heard. */
  predicate Loud(gain: real) {
    Energy(PREAMBLE_CHECK, gain) > 1000000000000.0
  }

  predicate HearsPreamble(w: seq<Tone>, gain: real) {
    Magnitude(w, Mark, gain) > 1000000000000.0
  }

  predicate HearsStart(w: seq<Tone>, gain: real) {
    && Magnitude(w, Space, gain) > 200000000.0
    && Magnitude(w, Space, gain) > Magnitude(w, Mark, gain) * 2.0
  }

  predicate HearsMark(w: seq<Tone>, gain: real) {
    Magnitude(w, Mark, gain) > Magnitude(w, Space, gain)
  }

  lemma {:induction false} CountAppend(a: seq<Tone>, b: seq<Tone>, t: Tone)
    ensures Count(a + b, t) == Count(a, t) + Count(b, t)
  {
    if b == [] {
      assert a + b == a;
    } else {
      assert (a + b)[..|a + b| - 1] == a + b[..|b| - 1];
      CountAppend(a, b[..|b| - 1], t);
    }
  }

  lemma {:induction false} CountAll(w: seq<Tone>, t: Tone)
    requires forall i | 0 <= i < |w| :: w[i] == t
    ensures Count(w, t) == |w| && forall u | u != t :: Count(w, u) == 0
  {
    if w == [] {
    } else {
      CountAll(w[..|w| - 1], t);
    }
  }

  /** A run of one tone inside a window bounds the counts of all tones. */
  lemma CountRun(w: seq<Tone>, c: nat, d: nat, t: Tone)
    requires c <= d <= |w| && forall i | c <= i < d :: w[i] == t
    ensures Count(w, t) >= d - c
    ensures forall u | u != t :: Count(w, u) <= |w| - (d - c)
  {
    var x, y, z := w[..c], w[c..d], w[d..];
    assert w == x + y + z;
    CountAll(y, t);
    forall u
      ensures Count(w, u) == Count(x, u) + Count(y, u) + Count(z, u)
    {
      CountAppend(x + y, z, u);
      CountAppend(x, y, u);
    }
  }

  lemma LoudIsPositive(gain: real)
    requires Loud(gain)
    ensures gain > 51400.0
  {
  }

  lemma GainTimes(gain: real, a: real, b: real)
    requires gain > 0.0
    ensures a >= b ==> gain * a >= gain * b
    ensures a > b ==> gain * a > gain * b
  {
  }

  lemma EnergyGrows(a: nat, b: nat, gain: real)
    requires gain > 0.0
    ensures a <= b ==> Energy(a, gain) <= Energy(b, gain)
    ensures a < b ==> Energy(a, gain) < Energy(b, gain)
  {
    if a < b {
      assert a * a < b * b;
      GainTimes(gain, (b * b) as real, (a * a) as real);
    }
  }

  /** 129 of 220 samples of space are enough for a start bit ... */
  lemma HearsEnough(w: seq<Tone>, gain: real)
    requires Loud(gain) && Count(w, Space) >= 129 && Count(w, Mark) <= 91
    ensures HearsStart(w, gain)
  {
    LoudIsPositive(gain);
    StartThreshold(Count(w, Space), Count(w, Mark), gain);
  }

  /** ... and 128 are not. */
  lemma HearsNotEnough(w: seq<Tone>, gain: real)
    requires Loud(gain) && Count(w, Space) <= 128 && Count(w, Mark) >= 92
    ensures !HearsStart(w, gain)
  {
    LoudIsPositive(gain);
    StartThreshold(Count(w, Space), Count(w, Mark), gain);
  }

  lemma StartThreshold(c: nat, m: nat, gain: real)
    requires gain > 51400.0
    ensures c >= 129 && m <= 91 ==>
      Energy(c, gain) > 200000000.0 && Energy(c, gain) > Energy(m, gain) * 2.0
    ensures c <= 128 && m >= 92 ==> Energy(c, gain) <= Energy(m, gain) * 2.0
  {
    EnergyGrows(129, c, gain);
    EnergyGrows(m, 91, gain);
    EnergyGrows(c, 128, gain);
    EnergyGrows(92, m, gain);
    assert Energy(129, gain) == gain * 16641.0 && Energy(91, gain) == gain * 8281.0;
    assert Energy(128, gain) == gain * 16384.0 && Energy(92, gain) == gain * 8464.0;
  }

  /** How loud the line must be for a window full of the tone to be heard. */
  lemma FullWindowHeard(gain: real)
    ensures HearsPreamble(seq(4410, _ => Mark), gain) <==> gain * 19448100.0 > 1000000000000.0
    ensures HearsStart(seq(220, _ => Space), gain) <==> gain * 48400.0 > 200000000.0
  {
    var marks, spaces := seq(4410, _ => Mark), seq(220, _ => Space);
    CountAll(marks, Mark);
    CountAll(spaces, Space);
    assert Energy(4410, gain) == gain * 19448100.0 && Energy(220, gain) == gain * 48400.0;
    assert Energy(0, gain) == 0.0;
  }

  lemma HearsMajority(w: seq<Tone>, gain: real)
    requires gain > 0.0
    ensures HearsMark(w, gain) <==> Count(w, Mark) > Count(w, Space)
  {
    EnergyGrows(Count(w, Mark), Count(w, Space), gain);
    EnergyGrows(Count(w, Space), Count(w, Mark), gain);
  }

  // ----- The receiver, as a function of the captured samples and the place in them -----

  /** The place after the window in which the start bit is heard. */
  function FindStart(tones: seq<Tone>, pos: nat, gain: real): (r: Option<nat>)
    ensures r.Some? ==> pos + CHECK_SIZE <= r.value <= |tones|
    decreases |tones| - pos
  {
    if pos + CHECK_SIZE > |tones| then None
    else if HearsStart(tones[pos..pos + CHECK_SIZE], gain) then Some(pos + CHECK_SIZE)
    else FindStart(tones, pos + CHECK_SIZE, gain)
  }

  /** The place after reading `n` samples; a read that meets the end of the capture uses up what is left. */
  function Skip(tones: seq<Tone>, pos: nat, n: nat): (r: nat)
    requires pos <= |tones|
    ensures pos <= r <= |tones|
  {
    if pos + n <= |tones| then pos + n else |tones|
  }

  /** The first `n` data bits, read in full-bit windows. */
  function DataBits(tones: seq<Tone>, pos: nat, gain: real, n: nat): (r: nat)
    requires n <= 8 && pos + SAMPLES_PER_BIT * n <= |tones|
  {
    if n == 0 then 0
    else
      var b := DataBits(tones, pos, gain, n - 1);
      var at := pos + SAMPLES_PER_BIT * (n - 1);
      if HearsMark(tones[at..at + SAMPLES_PER_BIT], gain) then SetBit(b, n - 1) else b
  }

  /** The byte, if the capture lasts, and the place in the capture afterwards. */
  function Demodulate(tones: seq<Tone>, pos: nat, gain: real): (r: (Option<nat>, nat))
    requires pos <= |tones|
    ensures pos <= r.1 <= |tones| && (r.0.Some? ==> pos < r.1)
  {
    match FindStart(tones, pos, gain)
    case None => (None, |tones|)
    case Some(e) =>
      var p := Skip(tones, e, SAMPLES_PER_BIT - CHECK_SIZE);
      if p + 8 * SAMPLES_PER_BIT > |tones| then (None, |tones|)
      else (Some(DataBits(tones, p, gain, 8)), p + 8 * SAMPLES_PER_BIT)
  }

  // ----- One byte arrives -----

  /** The frame of `b` starts at sample `s`. */
  ghost predicate ByteAt(tones: seq<Tone>, s: nat, b: Byte) {
    s + SAMPLES_PER_BYTE <= |tones| && forall k | 0 <= k < SAMPLES_PER_BYTE :: tones[s + k] == ToneAt(b, k)
  }

  /**
   Nothing between here and the start bit looks like a start bit: all mark, except that the
   receiver may still be up to 91 samples short of the end of the last data bit.
   */
  ghost predicate Waiting(tones: seq<Tone>, q: nat, s: nat) {
    && q <= s <= |tones|
    && (forall j | q + 91 <= j < s :: tones[j] == Mark)
    && (s - q < CHECK_SIZE ==> forall j | q <= j < s :: tones[j] == Mark)
  }

  /** How late (or early, if negative) the data windows are, from the distance to the start bit. */
  function Offset(distance: nat): (w: int)
    ensures -91 <= w <= 128
  {
    var d := distance % CHECK_SIZE;
    if d <= 91 then -d else CHECK_SIZE - d
  }

  /** A whole window makes no difference. */
  lemma OffsetIsCyclic(distance: nat)
    ensures Offset(distance + CHECK_SIZE) == Offset(distance)
    ensures distance < CHECK_SIZE ==> distance + Offset(distance) == if distance <= 91 then 0 else CHECK_SIZE
  {
    assert (distance + CHECK_SIZE) % CHECK_SIZE == distance % CHECK_SIZE;
  }

  lemma MarkWindow(tones: seq<Tone>, q: nat, s: nat, gain: real)
    requires Loud(gain) && Waiting(tones, q, s) && q + CHECK_SIZE <= s
    ensures !HearsStart(tones[q..q + CHECK_SIZE], gain)
    ensures Waiting(tones, q + CHECK_SIZE, s)
  {
    CountRun(tones[q..q + CHECK_SIZE], 91, CHECK_SIZE, Mark);
    HearsNotEnough(tones[q..q + CHECK_SIZE], gain);
  }

  lemma SpaceWindow(tones: seq<Tone>, q: nat, s: nat, b: Byte, gain: real)
    requires Loud(gain) && ByteAt(tones, s, b) && s <= q <= s + 128
    ensures HearsStart(tones[q..q + CHECK_SIZE], gain)
  {
    var w := tones[q..q + CHECK_SIZE];
    forall i | 0 <= i < CHECK_SIZE
      ensures w[i] == Space
    {
      assert tones[s + (q + i - s)] == ToneAt(b, q + i - s);
    }
    CountAll(w, Space);
    HearsEnough(w, gain);
  }

  /** The window across the edge is taken for the start bit exactly if the edge is at most 91 samples in. */
  lemma EdgeWindow(tones: seq<Tone>, q: nat, s: nat, b: Byte, gain: real)
    requires Loud(gain) && ByteAt(tones, s, b) && q <= s < q + CHECK_SIZE
    requires forall j | q <= j < s :: tones[j] == Mark
    ensures HearsStart(tones[q..q + CHECK_SIZE], gain) <==> s - q <= 91
  {
    var w, d := tones[q..q + CHECK_SIZE], s - q;
    forall i | d <= i < CHECK_SIZE
      ensures w[i] == Space
    {
      assert tones[s + (i - d)] == ToneAt(b, i - d);
    }
    CountRun(w, 0, d, Mark);
    CountRun(w, d, CHECK_SIZE, Space);
    if d <= 91 {
      HearsEnough(w, gain);
    } else {
      HearsNotEnough(w, gain);
    }
  }

  /** Wherever the windows fall, the start bit is found between 91 samples early and 128 late. */
  lemma {:induction false} StartIsFound(tones: seq<Tone>, q: nat, s: nat, b: Byte, gain: real)
    requires Loud(gain) && ByteAt(tones, s, b) && Waiting(tones, q, s)
    ensures FindStart(tones, q, gain) == Some(s + CHECK_SIZE + Offset(s - q))
    decreases s - q
  {
    if q + CHECK_SIZE <= s {
      MarkWindow(tones, q, s, gain);
      StartIsFound(tones, q + CHECK_SIZE, s, b, gain);
      OffsetIsCyclic(s - q - CHECK_SIZE);
    } else {
      OffsetIsCyclic(s - q);
      EdgeWindow(tones, q, s, b, gain);
      if s - q > 91 {
        SpaceWindow(tones, q + CHECK_SIZE, s, b, gain);
      }
    }
  }

  /** Every data window keeps a majority of its own bit. */
  lemma BitIsHeard(tones: seq<Tone>, s: nat, b: Byte, w: int, i: nat, gain: real)
    requires gain > 0.0 && ByteAt(tones, s, b) && -91 <= w <= 128 && i < 8
    ensures var at := s + SAMPLES_PER_BIT * (i + 1) + w;
      HearsMark(tones[at..at + SAMPLES_PER_BIT], gain) <==> Bit(b, i)
  {
    var at := s + SAMPLES_PER_BIT * (i + 1) + w;
    var win := tones[at..at + SAMPLES_PER_BIT];
    var c, d := if w < 0 then -w else 0, if w < 0 then SAMPLES_PER_BIT else SAMPLES_PER_BIT - w;
    forall j | c <= j < d
      ensures win[j] == BitTone(b, i)
    {
      var k := at + j - s;
      assert tones[s + k] == ToneAt(b, k);
      assert (k - SAMPLES_PER_BIT) / SAMPLES_PER_BIT == i;
    }
    CountRun(win, c, d, BitTone(b, i));
    HearsMajority(win, gain);
  }

  lemma {:induction false} DataBitsAreLow(tones: seq<Tone>, s: nat, b: Byte, w: int, n: nat, gain: real)
    requires gain > 0.0 && ByteAt(tones, s, b) && -91 <= w <= 128 && n <= 8
    ensures DataBits(tones, s + SAMPLES_PER_BIT + w, gain, n) == b % Pow2(n)
  {
    if n == 0 {
    } else {
      DataBitsAreLow(tones, s, b, w, n - 1, gain);
      BitIsHeard(tones, s, b, w, n - 1, gain);
      LowBits(b, n - 1);
    }
  }

  /** The byte arrives, and the receiver is again waiting within the stop bits: the error does not add up. */
  lemma ByteArrives(tones: seq<Tone>, q: nat, s: nat, b: Byte, gain: real)
    requires Loud(gain) && ByteAt(tones, s, b) && Waiting(tones, q, s)
    ensures Demodulate(tones, q, gain) == (Some(b), s + 9 * SAMPLES_PER_BIT + Offset(s - q))
    ensures Waiting(tones, s + 9 * SAMPLES_PER_BIT + Offset(s - q), s + SAMPLES_PER_BYTE)
  {
    LoudIsPositive(gain);
    StartIsFound(tones, q, s, b, gain);
    var w := Offset(s - q);
    DataBitsAreLow(tones, s, b, w, 8, gain);
    var q' := s + 9 * SAMPLES_PER_BIT + w;
    forall j | q' + 91 <= j < s + SAMPLES_PER_BYTE
      ensures tones[j] == Mark
    {
      assert tones[s + (j - s)] == ToneAt(b, j - s);
    }
  }

  // ----- The receiver, as a loop over the capture -----

  /** The sound card: what it has captured, and how much of that has been read. */
  class Capture {
    const tones: seq<Tone>
    const gain: real
    var pos: nat

    ghost predicate Valid()
      reads this
    {
      pos <= |tones|
    }

    constructor (tones: seq<Tone>, gain: real)
      ensures Valid() && this.tones == tones && this.gain == gain && pos == 0
    {
      this.tones := tones;
      this.gain := gain;
      pos := 0;
    }

    method Record(n: nat) returns (w: Option<seq<Tone>>)
      requires Valid()
      modifies this`pos
      ensures Valid() && pos == Skip(tones, old(pos), n)
      ensures w == if old(pos) + n <= |tones| then Some(tones[old(pos)..old(pos) + n]) else None
    {
      if pos + n <= |tones| {
        w := Some(tones[pos..pos + n]);
        pos := pos + n;
      } else {
        w := None;
        pos := |tones|;
      }
    }

    /** Half-bit windows until the start bit is heard. */
    method WaitForStart() returns (heard: bool)
      requires Valid()
      modifies this`pos
      ensures Valid() && FindStart(tones, old(pos), gain) == if heard then Some(pos) else None
      ensures !heard ==> pos == |tones|
    {
      heard := false;
      while !heard
        invariant Valid()
        invariant FindStart(tones, old(pos), gain) == if heard then Some(pos) else FindStart(tones, pos, gain)
        decreases !heard, |tones| - pos
      {
        var w := Record(CHECK_SIZE);
        if w.None? {
          return false;
        }
        heard := HearsStart(w.value, gain);
      }
    }

    method ReadDataBits() returns (r: Option<nat>)
      requires Valid()
      modifies this`pos
      ensures Valid()
      ensures r == if old(pos) + 8 * SAMPLES_PER_BIT > |tones| then None else Some(DataBits(tones, old(pos), gain, 8))
      ensures pos == if r.None? then |tones| else old(pos) + 8 * SAMPLES_PER_BIT
    {
      var byte := 0;
      for i := 0 to 8
        invariant pos == old(pos) + SAMPLES_PER_BIT * i <= |tones|
        invariant byte == DataBits(tones, old(pos), gain, i)
      {
        var w := Record(SAMPLES_PER_BIT);
        if w.None? {
          return None;
        }
        if HearsMark(w.value, gain) {
          byte := SetBit(byte, i);
        }
      }
      return Some(byte);
    }

    /** The second read is not checked for failure; if it fails, so will the next one. */
    method DemodulateByte() returns (r: Option<nat>)
      requires Valid()
      modifies this`pos
      ensures Valid() && (r, pos) == Demodulate(tones, old(pos), gain)
    {
      var heard := WaitForStart();
      if !heard {
        return None;
      }
      var rest := Record(SAMPLES_PER_BIT - CHECK_SIZE);
      r := ReadDataBits();
    }
  }
}
