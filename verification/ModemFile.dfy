/**
 A whole file over the audio line: preamble, sync word, size and data, and the two loops that
 send and receive them.
 */
module ModemFile {
  import opened Common
  import opened ModemByte

  const SYNC_HIGH: Byte := 0xAA
  const SYNC_LOW: Byte := 0x55
  const PREAMBLE: nat := 220500
  const UINT32: nat := 0x1_0000_0000
  const SIZE_LEN: nat := 4

  // ----- The frames of a file -----

  /** Byte `i` of the size, highest first. */
  function SizeByte(size: nat, i: nat): Byte
    requires i < 4
  {
    size / (if i == 0 then 0x100_0000 else if i == 1 then 0x1_0000 else if i == 2 then 0x100 else 1) % 256
  }

  function SizeBytes(size: nat): seq<Byte> {
    [SizeByte(size, 0), SizeByte(size, 1), SizeByte(size, 2), SizeByte(size, 3)]
  }

  /** `fsize = (fsize << 8) | byte` on 32 bits. */
  function ShiftIn(size: nat, b: nat): nat {
    size * 256 % UINT32 + b
  }

  function ReadSize(bytes: seq<nat>): nat {
    if bytes == [] then 0 else ShiftIn(ReadSize(bytes[..|bytes| - 1]), bytes[|bytes| - 1])
  }

  lemma SizeRoundTrip(size: nat)
    requires size < UINT32
    ensures ReadSize(SizeBytes(size)) == size
  {
    ReadFourBytes(SizeByte(size, 0), SizeByte(size, 1), SizeByte(size, 2), SizeByte(size, 3));
    NestedDivision(size);
  }

  lemma NestedDivision(x: nat)
    requires x < UINT32
    ensures x / 0x1_0000 / 256 == x / 0x100_0000 < 256 && x / 0x100 / 256 == x / 0x1_0000
  {
  }

  lemma ReadFourBytes(a: Byte, b: Byte, c: Byte, d: Byte)
    ensures ReadSize([a, b, c, d]) == a * 0x100_0000 + b * 0x1_0000 + c * 0x100 + d
  {
    var s: seq<nat> := [a, b, c, d];
    assert s[..3][..2][..1][..0] == [];
    assert s[..3][..2][..1] == s[..1] && s[..3][..2] == s[..2];
    assert ReadSize(s[..1]) == a;
    assert ReadSize(s[..2]) == a * 256 + b;
    assert ReadSize(s[..3]) == a * 0x1_0000 + b * 256 + c;
  }

  /** What the server sends of a file. */
  function Frames(file: seq<Byte>): seq<Byte> {
    [SYNC_HIGH, SYNC_LOW] + SizeBytes(|file| % UINT32) + file
  }

  function Tones(bytes: seq<Byte>): (w: seq<Tone>)
    ensures |w| == SAMPLES_PER_BYTE * |bytes|
  {
    if bytes == [] then [] else ByteTones(bytes[0]) + Tones(bytes[1..])
  }

  function Played(file: seq<Byte>): seq<Tone> {
    seq(PREAMBLE, _ => Mark) + Tones(Frames(file))
  }

  /** Which byte is sent as number `i`: 0xAA, 0x55, the size in 32 bits, highest byte first, and the file. */
  function SentAs(file: seq<Byte>, i: nat): nat
    requires i < 6 + |file|
  {
    if i == 0 then 170
    else if i == 1 then 85
    else if i == 2 then |file| / 16777216 % 256
    else if i == 3 then |file| / 65536 % 256
    else if i == 4 then |file| / 256 % 256
    else if i == 5 then |file| % 256
    else file[i - 6]
  }

  lemma FramesAre(file: seq<Byte>, i: nat)
    requires i < 6 + |file|
    ensures |Frames(file)| == 6 + |file| && Frames(file)[i] as nat == SentAs(file, i)
  {
    var n := |file|;
    var m := n % 0x1_0000_0000;
    LowBytes(n, n / 0x1_0000_0000, m);
    assert Frames(file)[i] ==
      if i < 2 then [SYNC_HIGH, SYNC_LOW][i] else if i < 6 then SizeBytes(m)[i - 2] else file[i - 6];
  }

  lemma LowBytes(n: nat, q: nat, m: nat)
    requires n == q * 0x1_0000_0000 + m
    ensures m / 16777216 % 256 == n / 16777216 % 256 && m / 65536 % 256 == n / 65536 % 256
    ensures m / 256 % 256 == n / 256 % 256 && m % 256 == n % 256
  {
    DivUnique(n, 16777216, q * 256 + m / 16777216, m % 16777216);
    DivUnique(n, 65536, q * 65536 + m / 65536, m % 65536);
    DivUnique(n, 256, q * 16777216 + m / 256, m % 256);
    SameLowByte(n / 16777216, m / 16777216, q);
    SameLowByte(n / 65536, m / 65536, q * 256);
    SameLowByte(n / 256, m / 256, q * 65536);
  }

  lemma SameLowByte(a: nat, b: nat, k: nat)
    requires a == b + 256 * k
    ensures a % 256 == b % 256
  {
    DivUnique(a, 256, k + b / 256, b % 256);
  }

  lemma {:induction false} TonesAt(bytes: seq<Byte>, i: nat, k: nat)
    requires i < |bytes| && k < 8379
    ensures |Tones(bytes)| == 8379 * |bytes| && Tones(bytes)[8379 * i + k] == ByteTones(bytes[i])[k]
  {
    if i == 0 {
    } else {
      TonesAt(bytes[1..], i - 1, k);
    }
  }

  /** All that is played: 220500 samples of mark, which is five seconds, and the bytes sent, 8379 samples each. */
  lemma PlayedIs(file: seq<Byte>, i: nat, k: nat)
    requires i < 6 + |file| && k < 8379
    ensures |Played(file)| == 220500 + 8379 * (6 + |file|)
    ensures forall j | 0 <= j < 220500 :: Played(file)[j] == Mark
    ensures Played(file)[220500 + 8379 * i + k] == ByteTones(SentAs(file, i))[k]
  {
    FramesAre(file, i);
    TonesAt(Frames(file), i, k);
  }

  lemma {:induction false} TonesAppend(a: seq<Byte>, b: seq<Byte>)
    ensures Tones(a + b) == Tones(a) + Tones(b)
  {
    if a == [] {
      assert a + b == b;
    } else {
      assert (a + b)[1..] == a[1..] + b;
      TonesAppend(a[1..], b);
    }
  }

  // ----- The server -----

  /** Five seconds of preamble, the sync word, the size and the file, as handed to the sound card. */
  method ServerMode(file: seq<Byte>) returns (played: seq<Tone>)
    ensures played == Played(file)
  {
    var second := new Tone[SAMPLE_RATE];
    played := [];
    for i := 0 to 5
      invariant played == seq(SAMPLE_RATE * i, _ => Mark)
    {
      GenerateTone(second, 0, Mark, SAMPLE_RATE);
      played := played + second[..];
    }
    var buffer := new Tone[SAMPLES_PER_BYTE];
    played := PlayByte(played, buffer, SYNC_HIGH);
    played := PlayByte(played, buffer, SYNC_LOW);
    var fsize := |file| % UINT32;
    ghost var lead := seq(PREAMBLE, _ => Mark);
    ghost var sent := [SYNC_HIGH, SYNC_LOW];
    assert played == lead + Tones(sent) by {
      TonesAppend([SYNC_HIGH], [SYNC_LOW]);
      assert sent == [SYNC_HIGH] + [SYNC_LOW];
    }
    assert sent + SizeBytes(fsize)[..0] == sent;
    for i := 0 to 4
      invariant played == lead + Tones(sent + SizeBytes(fsize)[..i])
    {
      assert sent + SizeBytes(fsize)[..i + 1] == sent + SizeBytes(fsize)[..i] + [SizeByte(fsize, i)];
      PlayedMore(lead, sent + SizeBytes(fsize)[..i], SizeByte(fsize, i));
      played := PlayByte(played, buffer, SizeByte(fsize, i));
    }
    assert SizeBytes(fsize)[..4] == SizeBytes(fsize);
    sent := sent + SizeBytes(fsize);
    assert sent + file[..0] == sent;
    for i := 0 to |file|
      invariant played == lead + Tones(sent + file[..i])
    {
      assert sent + file[..i + 1] == sent + file[..i] + [file[i]];
      PlayedMore(lead, sent + file[..i], file[i]);
      played := PlayByte(played, buffer, file[i]);
    }
    assert file[..|file|] == file && sent + file == Frames(file);
  }

  method PlayByte(played: seq<Tone>, buffer: array<Tone>, b: Byte) returns (more: seq<Tone>)
    requires buffer.Length == SAMPLES_PER_BYTE
    modifies buffer
    ensures more == played + ByteTones(b)
  {
    ModulateByte(b, buffer);
    more := played + buffer[..];
  }

  lemma PlayedMore(lead: seq<Tone>, sent: seq<Byte>, b: Byte)
    ensures lead + Tones(sent + [b]) == lead + Tones(sent) + ByteTones(b)
  {
    TonesAppend(sent, [b]);
  }

  // ----- The client, as a function of the captured samples -----

  /** The place after the first check in which the preamble is heard. */
  function WaitForPreamble(tones: seq<Tone>, pos: nat, gain: real): (r: Option<nat>)
    ensures r.Some? ==> pos + PREAMBLE_CHECK <= r.value <= |tones|
    decreases |tones| - pos
  {
    if pos + PREAMBLE_CHECK > |tones| then None
    else if HearsPreamble(tones[pos..pos + PREAMBLE_CHECK], gain) then Some(pos + PREAMBLE_CHECK)
    else WaitForPreamble(tones, pos + PREAMBLE_CHECK, gain)
  }

  /** The place after the sync word, or the end of the capture. */
  function FindSync(tones: seq<Tone>, pos: nat, gain: real): (r: nat)
    requires pos <= |tones|
    ensures r <= |tones|
    decreases |tones| - pos
  {
    var (b1, p1) := Demodulate(tones, pos, gain);
    if b1.None? then p1
    else if b1.value != SYNC_HIGH then FindSync(tones, p1, gain)
    else
      var (b2, p2) := Demodulate(tones, p1, gain);
      if b2.None? || b2.value == SYNC_LOW then p2 else FindSync(tones, p2, gain)
  }

  /** Up to `n` bytes, fewer if the capture ends, and the place afterwards. */
  function ReadBytes(tones: seq<Tone>, pos: nat, gain: real, n: nat): (r: (seq<nat>, nat))
    requires pos <= |tones|
    ensures |r.0| <= n && pos <= r.1 <= |tones|
    decreases n
  {
    if n == 0 then ([], pos)
    else
      var (b, p) := Demodulate(tones, pos, gain);
      if b.None? then ([], p)
      else
        var (rest, p') := ReadBytes(tones, p, gain, n - 1);
        ([b.value] + rest, p')
  }

  /** The data, after its size. */
  function ReadFile(tones: seq<Tone>, pos: nat, gain: real): seq<nat>
    requires pos <= |tones|
  {
    var (size, p) := ReadBytes(tones, pos, gain, SIZE_LEN);
    if |size| < SIZE_LEN then [] else ReadBytes(tones, p, gain, ReadSize(size)).0
  }

  /** What ends up in the client's file. */
  function Received(tones: seq<Tone>, gain: real): seq<nat> {
    match WaitForPreamble(tones, 0, gain)
    case None => []
    case Some(p) => ReadFile(tones, FindSync(tones, p, gain), gain)
  }

  /** Bytes before the sync word are skipped, as long as none is its first byte. */
  lemma {:induction false} JunkIsSkipped(tones: seq<Tone>, pos: nat, gain: real, n: nat)
    requires pos <= |tones|
    requires var (bytes, p) := ReadBytes(tones, pos, gain, n);
      |bytes| == n && 170 !in bytes
    ensures FindSync(tones, pos, gain) == FindSync(tones, ReadBytes(tones, pos, gain, n).1, gain)
    decreases n
  {
    if n > 0 {
      var (b, p) := Demodulate(tones, pos, gain);
      assert ReadBytes(tones, pos, gain, n).0[0] == b.value;
      assert ReadBytes(tones, pos, gain, n).0[1..] == ReadBytes(tones, p, gain, n - 1).0;
      JunkIsSkipped(tones, p, gain, n - 1);
    }
  }

  /**
   The first two bytes decide: 0xAA 0x55 is the sync word; 0xAA and another byte are skipped together,
   even if the second is itself the 0xAA of a sync word.
   */
  lemma SyncIs(tones: seq<Tone>, pos: nat, gain: real)
    requires pos <= |tones|
    requires var (bytes, p) := ReadBytes(tones, pos, gain, 2);
      |bytes| == 2 && bytes[0] == 170
    ensures var (bytes, p) := ReadBytes(tones, pos, gain, 2);
      FindSync(tones, pos, gain) == if bytes[1] == 85 then p else FindSync(tones, p, gain)
  {
    var (b, p) := Demodulate(tones, pos, gain);
    var (c, q) := Demodulate(tones, p, gain);
    assert ReadBytes(tones, p, gain, 1) == if c.None? then ([], q) else ([c.value] + [], q);
  }

  // ----- The client, as loops -----

  method AwaitPreamble(mic: Capture) returns (ok: bool)
    requires mic.Valid()
    modifies mic`pos
    ensures mic.Valid()
    ensures WaitForPreamble(mic.tones, old(mic.pos), mic.gain) == if ok then Some(mic.pos) else None
  {
    ok := false;
    while !ok
      invariant mic.Valid()
      invariant WaitForPreamble(mic.tones, old(mic.pos), mic.gain) ==
        if ok then Some(mic.pos) else WaitForPreamble(mic.tones, mic.pos, mic.gain)
      decreases !ok, |mic.tones| - mic.pos
    {
      var w := mic.Record(PREAMBLE_CHECK);
      if w.None? {
        return false;
      }
      ok := HearsPreamble(w.value, mic.gain);
    }
  }

  method AwaitSync(mic: Capture)
    requires mic.Valid()
    modifies mic`pos
    ensures mic.Valid() && mic.pos == FindSync(mic.tones, old(mic.pos), mic.gain)
  {
    var done := false;
    while !done
      invariant mic.Valid()
      invariant FindSync(mic.tones, old(mic.pos), mic.gain) ==
        if done then mic.pos else FindSync(mic.tones, mic.pos, mic.gain)
      decreases !done, |mic.tones| - mic.pos
    {
      var b1 := mic.DemodulateByte();
      if b1.None? {
        done := true;
      } else if b1.value == SYNC_HIGH {
        var b2 := mic.DemodulateByte();
        done := b2.None? || b2.value == SYNC_LOW;
      }
    }
  }

  /** Reading `n` bytes has come as far as `got`, and `m` are missing. */
  ghost predicate SoFar(tones: seq<Tone>, start: nat, gain: real, n: nat, got: seq<nat>, pos: nat, m: nat) {
    && start <= |tones| && pos <= |tones| && |got| + m == n
    && ReadBytes(tones, start, gain, n).0 == got + ReadBytes(tones, pos, gain, m).0
    && ReadBytes(tones, start, gain, n).1 == ReadBytes(tones, pos, gain, m).1
  }

  lemma NothingYet(tones: seq<Tone>, start: nat, gain: real, n: nat)
    requires start <= |tones|
    ensures SoFar(tones, start, gain, n, [], start, n)
  {
    assert [] + ReadBytes(tones, start, gain, n).0 == ReadBytes(tones, start, gain, n).0;
  }

  lemma OneMore(tones: seq<Tone>, start: nat, gain: real, n: nat, got: seq<nat>, pos: nat, m: nat)
    requires SoFar(tones, start, gain, n, got, pos, m) && m > 0
    ensures var (b, p) := Demodulate(tones, pos, gain);
      if b.Some? then SoFar(tones, start, gain, n, got + [b.value], p, m - 1)
      else ReadBytes(tones, start, gain, n) == (got, p)
  {
    var (b, p) := Demodulate(tones, pos, gain);
    if b.Some? {
      var rest := ReadBytes(tones, p, gain, m - 1).0;
      assert got + ([b.value] + rest) == (got + [b.value]) + rest;
    } else {
      assert got + [] == got;
    }
  }

  lemma AllRead(tones: seq<Tone>, start: nat, gain: real, n: nat, got: seq<nat>, pos: nat)
    requires SoFar(tones, start, gain, n, got, pos, 0)
    ensures ReadBytes(tones, start, gain, n) == (got, pos)
  {
    assert got + [] == got;
  }

  /** A big-endian number of `len` bytes. */
  method ReceiveNumber(mic: Capture, len: nat) returns (number: Option<nat>)
    requires mic.Valid()
    modifies mic`pos
    ensures mic.Valid()
    ensures var bytes := ReadBytes(mic.tones, old(mic.pos), mic.gain, len).0;
      number == if |bytes| < len then None else Some(ReadSize(bytes))
    ensures mic.pos == ReadBytes(mic.tones, old(mic.pos), mic.gain, len).1
  {
    var size := 0;
    ghost var start := mic.pos;
    ghost var got: seq<nat> := [];
    NothingYet(mic.tones, start, mic.gain, len);
    for i := 0 to len
      invariant mic.Valid() && size == ReadSize(got)
      invariant SoFar(mic.tones, start, mic.gain, len, got, mic.pos, len - i)
    {
      OneMore(mic.tones, start, mic.gain, len, got, mic.pos, len - i);
      var b := mic.DemodulateByte();
      if b.None? {
        return None;
      }
      assert (got + [b.value])[..i] == got;
      size := ShiftIn(size, b.value);
      got := got + [b.value];
    }
    AllRead(mic.tones, start, mic.gain, len, got, mic.pos);
    return Some(size);
  }

  /** What the client writes; it stops early when the capture ends. */
  method ReceiveData(mic: Capture, fsize: nat) returns (file: seq<nat>)
    requires mic.Valid()
    modifies mic`pos
    ensures mic.Valid() && (file, mic.pos) == ReadBytes(mic.tones, old(mic.pos), mic.gain, fsize)
  {
    file := [];
    ghost var start := mic.pos;
    NothingYet(mic.tones, start, mic.gain, fsize);
    for i := 0 to fsize
      invariant mic.Valid()
      invariant SoFar(mic.tones, start, mic.gain, fsize, file, mic.pos, fsize - i)
    {
      OneMore(mic.tones, start, mic.gain, fsize, file, mic.pos, fsize - i);
      var b := mic.DemodulateByte();
      if b.None? {
        return file;
      }
      file := file + [b.value];
    }
    AllRead(mic.tones, start, mic.gain, fsize, file, mic.pos);
  }

  method ClientMode(mic: Capture) returns (file: seq<nat>)
    requires mic.pos == 0
    modifies mic`pos
    ensures file == Received(mic.tones, mic.gain)
  {
    var ok := AwaitPreamble(mic);
    if !ok {
      return [];
    }
    AwaitSync(mic);
    var fsize := ReceiveNumber(mic, SIZE_LEN);
    if fsize.None? {
      return [];
    }
    file := ReceiveData(mic, fsize.value);
  }

  // ----- A file arrives -----

  /** Where frame `n` starts, counted from a frame that starts at `s`. */
  function FrameStart(s: nat, n: nat): nat
    decreases n
  {
    if n == 0 then s else FrameStart(s + SAMPLES_PER_BYTE, n - 1)
  }

  /** The frames of `bytes` follow one another from sample `s` on. */
  ghost predicate Carries(tones: seq<Tone>, s: nat, bytes: seq<Byte>)
    decreases |bytes|
  {
    s <= |tones| && (bytes == [] || (ByteAt(tones, s, bytes[0]) && Carries(tones, s + SAMPLES_PER_BYTE, bytes[1..])))
  }

  lemma {:induction false} TonesCarry(before: seq<Tone>, bytes: seq<Byte>, after: seq<Tone>)
    ensures Carries(before + Tones(bytes) + after, |before|, bytes)
    decreases |bytes|
  {
    if bytes == [] {
    } else {
      var head, rest := ByteTones(bytes[0]), Tones(bytes[1..]);
      var tones := before + Tones(bytes) + after;
      assert tones == (before + head) + rest + after;
      TonesCarry(before + head, bytes[1..], after);
      forall k | 0 <= k < SAMPLES_PER_BYTE
        ensures tones[|before| + k] == ToneAt(bytes[0], k)
      {
        assert tones[|before| + k] == head[k];
      }
    }
  }

  /** All the bytes arrive, however many, and the receiver is left waiting for the next one. */
  lemma {:induction false} BytesArrive(tones: seq<Tone>, q: nat, s: nat, bytes: seq<Byte>, more: seq<Byte>, gain: real)
    requires Loud(gain) && Waiting(tones, q, s) && Carries(tones, s, bytes + more)
    ensures ReadBytes(tones, q, gain, |bytes|).0 == bytes
    ensures Waiting(tones, ReadBytes(tones, q, gain, |bytes|).1, FrameStart(s, |bytes|))
    ensures Carries(tones, FrameStart(s, |bytes|), more)
    decreases |bytes|
  {
    if bytes == [] {
      assert bytes + more == more;
    } else {
      assert (bytes + more)[0] == bytes[0] && (bytes + more)[1..] == bytes[1..] + more;
      var p := NextByte(tones, q, s, bytes[0], gain);
      var s' := FrameStart(s, 1);
      BytesArrive(tones, p, s', bytes[1..], more, gain);
      assert ReadBytes(tones, p, gain, |bytes| - 1).0 == bytes[1..];
      assert FrameStart(s', |bytes[1..]|) == FrameStart(s, |bytes|);
      assert bytes == [bytes[0]] + bytes[1..];
    }
  }

  lemma NextByte(tones: seq<Tone>, q: nat, s: nat, b: Byte, gain: real) returns (p: nat)
    requires Loud(gain) && Waiting(tones, q, s) && ByteAt(tones, s, b)
    ensures Demodulate(tones, q, gain) == (Some(b), p) && Waiting(tones, p, FrameStart(s, 1))
  {
    ByteArrives(tones, q, s, b, gain);
    p := Demodulate(tones, q, gain).1;
  }

  lemma SyncArrives(tones: seq<Tone>, q: nat, s: nat, more: seq<Byte>, gain: real)
    requires Loud(gain) && Waiting(tones, q, s) && Carries(tones, s, [SYNC_HIGH, SYNC_LOW] + more)
    ensures Waiting(tones, FindSync(tones, q, gain), FrameStart(s, 2))
    ensures Carries(tones, FrameStart(s, 2), more)
  {
    var all := [SYNC_HIGH, SYNC_LOW] + more;
    assert all[1..][0] == SYNC_LOW && all[1..][1..] == more;
    ByteArrives(tones, q, s, SYNC_HIGH, gain);
    ByteArrives(tones, Demodulate(tones, q, gain).1, s + SAMPLES_PER_BYTE, SYNC_LOW, gain);
  }

  /** The first check at or after sample `lead`, of those that follow one another from `pos` on. */
  function NextCheck(pos: nat, lead: nat): (r: nat)
    ensures r >= pos && r >= lead
    decreases lead - pos
  {
    if lead <= pos then pos else NextCheck(pos + PREAMBLE_CHECK, lead)
  }

  /** A check that lies in the preamble hears it, so the waiting ends in the preamble. */
  lemma {:induction false} PreambleIsHeard(tones: seq<Tone>, pos: nat, lead: nat, s: nat, gain: real)
    requires Loud(gain) && lead <= s <= |tones|
    requires forall j | 0 <= j < lead :: tones[j] == Silence
    requires forall j | lead <= j < s :: tones[j] == Mark
    requires NextCheck(pos, lead) + PREAMBLE_CHECK <= s
    ensures WaitForPreamble(tones, pos, gain).Some?
    ensures Waiting(tones, WaitForPreamble(tones, pos, gain).value, s)
    decreases s - pos
  {
    var end := pos + PREAMBLE_CHECK;
    var w := tones[pos..end];
    if lead <= pos {
      CountAll(w, Mark);
    } else if end <= lead {
      CountAll(w, Silence);
      assert Energy(0, gain) == 0.0;
      PreambleIsHeard(tones, end, lead, s, gain);
    } else if HearsPreamble(w, gain) {
    } else {
      PreambleIsHeard(tones, end, lead, s, gain);
    }
  }

  lemma Truncated(n: nat)
    ensures if n < UINT32 then n % UINT32 == n else n % UINT32 < UINT32 <= n
  {
  }

  lemma FramesArrive(tones: seq<Tone>, q: nat, s: nat, file: seq<Byte>, size: nat, gain: real)
    requires Loud(gain) && Waiting(tones, q, s) && Carries(tones, s, Frames(file)) && size == |file| % UINT32
    ensures ReadFile(tones, FindSync(tones, q, gain), gain) == file[..size]
  {
    Truncated(|file|);
    assert Frames(file) == [SYNC_HIGH, SYNC_LOW] + (SizeBytes(size) + file);
    SyncArrives(tones, q, s, SizeBytes(size) + file, gain);
    DataArrives(tones, FindSync(tones, q, gain), FrameStart(s, 2), file, size, gain);
  }

  lemma DataArrives(tones: seq<Tone>, q: nat, s: nat, file: seq<Byte>, size: nat, gain: real)
    requires Loud(gain) && Waiting(tones, q, s) && size <= |file| && size < UINT32
    requires Carries(tones, s, SizeBytes(size) + file)
    ensures ReadFile(tones, q, gain) == file[..size]
  {
    var head := SizeBytes(size);
    assert |head| == SIZE_LEN;
    BytesArrive(tones, q, s, head, file, gain);
    SizeRoundTrip(size);
    assert file == file[..size] + file[size..];
    var q' := ReadBytes(tones, q, gain, |head|).1;
    BytesArrive(tones, q', FrameStart(s, |head|), file[..size], file[size..], gain);
  }

  /** What the microphone hears: silence, the preamble from some point on, the frames, and anything after. */
  function Heard(file: seq<Byte>, lead: nat, skip: nat, tail: seq<Tone>): seq<Tone>
    requires skip <= PREAMBLE
  {
    seq(lead, _ => Silence) + Played(file)[skip..] + tail
  }

  /** The first check that begins in the preamble ends in it. */
  predicate InTime(lead: nat, skip: nat) {
    NextCheck(0, lead) + PREAMBLE_CHECK <= lead + PREAMBLE - skip
  }

  lemma {:induction false} ChecksAre(n: nat, lead: nat)
    requires 4410 * n < lead + 4410
    ensures exists m: nat :: NextCheck(4410 * n, lead) == 4410 * m && lead <= 4410 * m < lead + 4410
    decreases lead - 4410 * n
  {
    if lead <= 4410 * n {
    } else {
      ChecksAre(n + 1, lead);
    }
  }

  /** In samples: of the 220500 of the preamble a capture may miss 211681, wherever its checks fall. */
  lemma InTimeIs(lead: nat, skip: nat)
    ensures InTime(lead, skip) <==> (lead + 4409) / 4410 * 4410 + 4410 <= lead + 220500 - skip
    ensures skip <= 211681 ==> InTime(lead, skip)
  {
    ChecksAre(0, lead);
    var m: nat :| NextCheck(0, lead) == 4410 * m && lead <= 4410 * m < lead + 4410;
    assert (lead + 4409) / 4410 == m;
  }

  /**
   The main theorem.  Whatever the file, the loudness (if a check of preamble can be heard at all)
   and the place in the preamble where the capture starts (or the silence before it), the client
   writes the file the server sent; of a file of 2^32 bytes or more, as many bytes as the 32-bit
   size field says.
   */
  lemma FileArrives(file: seq<Byte>, lead: nat, skip: nat, tail: seq<Tone>, gain: real)
    requires Loud(gain) && InTime(lead, skip)
    ensures Received(Heard(file, lead, skip, tail), gain) == file[..|file| % UINT32]
  {
    var silence, marks := seq(lead, _ => Silence), seq(PREAMBLE - skip, _ => Mark);
    var tones := Heard(file, lead, skip, tail);
    assert Played(file)[skip..] == marks + Tones(Frames(file));
    assert tones == (silence + marks) + Tones(Frames(file)) + tail;
    TonesCarry(silence + marks, Frames(file), tail);
    var s := |silence + marks|;
    PreambleIsHeard(tones, 0, lead, s, gain);
    FramesArrive(tones, WaitForPreamble(tones, 0, gain).value, s, file, |file| % UINT32, gain);
  }

  /** The client's file is the server's exactly if its size fits in 32 bits. */
  lemma FileArrivesIff(file: seq<Byte>, lead: nat, skip: nat, tail: seq<Tone>, gain: real)
    requires Loud(gain) && InTime(lead, skip)
    ensures Received(Heard(file, lead, skip, tail), gain) == file <==> |file| < UINT32
  {
    FileArrives(file, lead, skip, tail, gain);
    Truncated(|file|);
    var size := |file| % UINT32;
    if |file| < UINT32 {
      assert file[..size] == file;
    } else {
      assert |file[..size]| < |file|;
    }
  }
}
