/**
 A capture that ends too early: what the client has written then is the beginning of the file.
 */
module ModemCut {
  import opened Common
  import opened ModemByte
  import opened ModemFile

  // ----- The same sounds, but not as many -----

  lemma SameWindow(tones: seq<Tone>, m: nat, i: nat, j: nat)
    requires i <= j <= m <= |tones|
    ensures tones[..m][i..j] == tones[i..j]
  {
  }

  lemma {:induction false} StartInCut(tones: seq<Tone>, m: nat, pos: nat, gain: real)
    requires pos <= m <= |tones|
    ensures FindStart(tones[..m], pos, gain) == None || FindStart(tones[..m], pos, gain) == FindStart(tones, pos, gain)
    decreases m - pos
  {
    if pos + CHECK_SIZE > m {
    } else {
      SameWindow(tones, m, pos, pos + CHECK_SIZE);
      if !HearsStart(tones[pos..pos + CHECK_SIZE], gain) {
        StartInCut(tones, m, pos + CHECK_SIZE, gain);
      }
    }
  }

  lemma {:induction false} BitsInCut(tones: seq<Tone>, m: nat, pos: nat, gain: real, n: nat)
    requires n <= 8 && pos + SAMPLES_PER_BIT * n <= m <= |tones|
    ensures DataBits(tones[..m], pos, gain, n) == DataBits(tones, pos, gain, n)
  {
    if n == 0 {
    } else {
      var at := pos + SAMPLES_PER_BIT * (n - 1);
      SameWindow(tones, m, at, at + SAMPLES_PER_BIT);
      BitsInCut(tones, m, pos, gain, n - 1);
    }
  }

  /** A byte is the same, or it is not there and the capture is used up. */
  lemma ByteInCut(tones: seq<Tone>, m: nat, pos: nat, gain: real)
    requires pos <= m <= |tones|
    ensures var r := Demodulate(tones[..m], pos, gain);
      r == (None, m) || r == Demodulate(tones, pos, gain)
  {
    var cut := tones[..m];
    StartInCut(tones, m, pos, gain);
    var e := FindStart(cut, pos, gain);
    if e.Some? {
      var p := Skip(cut, e.value, SAMPLES_PER_BIT - CHECK_SIZE);
      if p + 8 * SAMPLES_PER_BIT <= m {
        BitsInCut(tones, m, p, gain, 8);
      }
    }
  }

  /** The same bytes, or fewer than `n` and the capture is used up. */
  predicate CutShort(r: (seq<nat>, nat), whole: (seq<nat>, nat), n: nat, m: nat) {
    r.0 <= whole.0 && (r == whole || (|r.0| < n && r.1 == m))
  }

  lemma BeginsWith(x: nat, rest: (seq<nat>, nat), others: (seq<nat>, nat), r: (seq<nat>, nat), whole: (seq<nat>, nat),
                   n: nat, m: nat)
    requires r == ([x] + rest.0, rest.1) && whole == ([x] + others.0, others.1) && n > 0
    ensures CutShort(rest, others, n - 1, m) ==> CutShort(r, whole, n, m)
  {
  }

  lemma UsedUp(r: (seq<nat>, nat), whole: (seq<nat>, nat), n: nat, m: nat)
    requires r == ([], m) && n > 0
    ensures CutShort(r, whole, n, m)
  {
  }

  lemma FirstByte(tones: seq<Tone>, pos: nat, gain: real, n: nat, b: nat, p: nat)
    requires pos <= |tones| && n > 0 && Demodulate(tones, pos, gain) == (Some(b), p)
    ensures var r := ReadBytes(tones, p, gain, n - 1);
      ReadBytes(tones, pos, gain, n) == ([b] + r.0, r.1)
  {
  }

  lemma NoByte(tones: seq<Tone>, pos: nat, gain: real, n: nat, p: nat)
    requires pos <= |tones| && n > 0 && Demodulate(tones, pos, gain) == (None, p)
    ensures ReadBytes(tones, pos, gain, n) == ([], p)
  {
  }

  lemma {:induction false} BytesInCut(tones: seq<Tone>, m: nat, pos: nat, gain: real, n: nat)
    returns (r: (seq<nat>, nat), whole: (seq<nat>, nat))
    requires pos <= m <= |tones|
    ensures r == ReadBytes(tones[..m], pos, gain, n) && whole == ReadBytes(tones, pos, gain, n)
    ensures CutShort(r, whole, n, m)
    decreases n
  {
    var cut := tones[..m];
    r, whole := ReadBytes(cut, pos, gain, n), ReadBytes(tones, pos, gain, n);
    if n > 0 {
      ByteInCut(tones, m, pos, gain);
      var (b, p) := Demodulate(cut, pos, gain);
      if b.None? {
        NoByte(cut, pos, gain, n, p);
        UsedUp(r, whole, n, m);
      } else {
        var rest, others := BytesInCut(tones, m, p, gain, n - 1);
        FirstByte(cut, pos, gain, n, b.value, p);
        FirstByte(tones, pos, gain, n, b.value, p);
        BeginsWith(b.value, rest, others, r, whole, n, m);
      }
    }
  }

  lemma {:induction false} SyncInCut(tones: seq<Tone>, m: nat, pos: nat, gain: real)
    requires pos <= m <= |tones|
    ensures var r := FindSync(tones[..m], pos, gain);
      r == m || r == FindSync(tones, pos, gain)
    decreases m - pos
  {
    ByteInCut(tones, m, pos, gain);
    var (b1, p1) := Demodulate(tones[..m], pos, gain);
    if b1.Some? {
      if b1.value != SYNC_HIGH {
        SyncInCut(tones, m, p1, gain);
      } else {
        ByteInCut(tones, m, p1, gain);
        var (b2, p2) := Demodulate(tones[..m], p1, gain);
        if b2.Some? && b2.value != SYNC_LOW {
          SyncInCut(tones, m, p2, gain);
        }
      }
    }
  }

  lemma {:induction false} WaitInCut(tones: seq<Tone>, m: nat, pos: nat, gain: real)
    requires pos <= m <= |tones|
    ensures var r := WaitForPreamble(tones[..m], pos, gain);
      r == None || r == WaitForPreamble(tones, pos, gain)
    decreases m - pos
  {
    if pos + PREAMBLE_CHECK > m {
    } else {
      SameWindow(tones, m, pos, pos + PREAMBLE_CHECK);
      if !HearsPreamble(tones[pos..pos + PREAMBLE_CHECK], gain) {
        WaitInCut(tones, m, pos + PREAMBLE_CHECK, gain);
      }
    }
  }

  lemma FileInCut(tones: seq<Tone>, m: nat, pos: nat, gain: real)
    requires pos <= m <= |tones|
    ensures ReadFile(tones[..m], pos, gain) <= ReadFile(tones, pos, gain)
  {
    var size, whole := BytesInCut(tones, m, pos, gain, SIZE_LEN);
    if |size.0| == SIZE_LEN {
      var data, all := BytesInCut(tones, m, size.1, gain, ReadSize(size.0));
    }
  }

  lemma NothingAtTheEnd(tones: seq<Tone>, gain: real)
    ensures ReadFile(tones, |tones|, gain) == []
  {
    assert Demodulate(tones, |tones|, gain) == (None, |tones|);
  }

  /** Whatever was heard, of a shorter capture the client writes a beginning of what it writes of the longer one. */
  lemma CutIsBeginning(tones: seq<Tone>, m: nat, gain: real)
    requires m <= |tones|
    ensures Received(tones[..m], gain) <= Received(tones, gain)
  {
    WaitInCut(tones, m, 0, gain);
    var w := WaitForPreamble(tones[..m], 0, gain);
    if w.Some? {
      SyncInCut(tones, m, w.value, gain);
      if FindSync(tones[..m], w.value, gain) == m {
        NothingAtTheEnd(tones[..m], gain);
      } else {
        FileInCut(tones, m, FindSync(tones, w.value, gain), gain);
      }
    }
  }

  // ----- How much arrives -----

  lemma Extends(x: nat, a: seq<nat>, b: seq<nat>)
    ensures a <= b ==> [x] + a <= [x] + b
  {
  }

  lemma {:induction false} ReadMore(tones: seq<Tone>, pos: nat, gain: real, n: nat, k: nat)
    returns (few: seq<nat>, more: seq<nat>)
    requires pos <= |tones| && n <= k
    ensures few == ReadBytes(tones, pos, gain, n).0 && more == ReadBytes(tones, pos, gain, k).0
    ensures |few| == n ==> few <= more
    decreases n
  {
    var (b, p) := Demodulate(tones, pos, gain);
    if n == 0 || b.None? {
      return [], ReadBytes(tones, pos, gain, k).0;
    }
    few, more := ReadMore(tones, p, gain, n - 1, k - 1);
    Extends(b.value, few, more);
    FirstByte(tones, pos, gain, n, b.value, p);
    FirstByte(tones, pos, gain, k, b.value, p);
    few, more := [b.value] + few, [b.value] + more;
  }

  /** The size and the first `n` bytes of the data have been captured. */
  lemma BeginningArrives(tones: seq<Tone>, q: nat, s: nat, size: nat, start: seq<Byte>, gain: real)
    requires Loud(gain) && Waiting(tones, q, s) && |start| <= size < UINT32
    requires Carries(tones, s, SizeBytes(size) + start)
    ensures start <= ReadFile(tones, q, gain)
  {
    var head := SizeBytes(size);
    assert |head| == SIZE_LEN;
    BytesArrive(tones, q, s, head, start, gain);
    SizeRoundTrip(size);
    var q' := ReadBytes(tones, q, gain, |head|).1;
    assert start + [] == start;
    BytesArrive(tones, q', FrameStart(s, |head|), start, [], gain);
    var few, more := ReadMore(tones, q', gain, |start|, size);
  }

  lemma FirstFrames(file: seq<Byte>, size: nat, n: nat)
    requires size == |file| % UINT32 && n <= size
    ensures n <= |file| && Frames(file)[..6 + n] == [SYNC_HIGH, SYNC_LOW] + (SizeBytes(size) + file[..n])
  {
    Truncated(|file|);
  }

  lemma StartOfTones(a: seq<Byte>, n: nat)
    requires n <= |a|
    ensures Tones(a)[..8379 * n] == Tones(a[..n])
  {
    assert a == a[..n] + a[n..];
    TonesAppend(a[..n], a[n..]);
  }

  lemma UpToFrame(file: seq<Byte>, lead: nat, skip: nat, tail: seq<Tone>, n: nat, s: nat)
    requires skip <= PREAMBLE && n <= |file| && s == lead + (PREAMBLE - skip)
    ensures s + 8379 * (6 + n) <= |Heard(file, lead, skip, tail)|
    ensures Heard(file, lead, skip, tail)[..s + 8379 * (6 + n)] ==
      (seq(lead, _ => Silence) + seq(PREAMBLE - skip, _ => Mark)) + Tones(Frames(file)[..6 + n]) + []
  {
    var marks := seq(PREAMBLE - skip, _ => Mark);
    StartOfTones(Frames(file), 6 + n);
    assert Played(file)[skip..] == marks + Tones(Frames(file));
    assert Heard(file, lead, skip, tail) == (seq(lead, _ => Silence) + marks) + Tones(Frames(file)) + tail;
  }

  lemma SoundsAreRead(cut: seq<Tone>, lead: nat, s: nat, size: nat, start: seq<Byte>, gain: real)
    requires Loud(gain) && lead <= s <= |cut| && NextCheck(0, lead) + PREAMBLE_CHECK <= s
    requires (forall j | 0 <= j < lead :: cut[j] == Silence) && (forall j | lead <= j < s :: cut[j] == Mark)
    requires |start| <= size < UINT32 && Carries(cut, s, [SYNC_HIGH, SYNC_LOW] + (SizeBytes(size) + start))
    ensures start <= Received(cut, gain)
  {
    PreambleIsHeard(cut, 0, lead, s, gain);
    var q := WaitForPreamble(cut, 0, gain).value;
    SyncArrives(cut, q, s, SizeBytes(size) + start, gain);
    BeginningArrives(cut, FindSync(cut, q, gain), FrameStart(s, 2), size, start, gain);
  }

  lemma SoundsBefore(lead: nat, marks: nat, bytes: seq<Byte>)
    ensures var cut := (seq(lead, _ => Silence) + seq(marks, _ => Mark)) + Tones(bytes) + [];
      && lead + marks <= |cut|
      && (forall j | 0 <= j < lead :: cut[j] == Silence) && (forall j | lead <= j < lead + marks :: cut[j] == Mark)
      && Carries(cut, lead + marks, bytes)
  {
    TonesCarry(seq(lead, _ => Silence) + seq(marks, _ => Mark), bytes, []);
  }

  lemma UpToFrameArrives(file: seq<Byte>, lead: nat, skip: nat, tail: seq<Tone>, gain: real, n: nat, end: nat)
    requires Loud(gain) && skip <= PREAMBLE && InTime(lead, skip) && n <= |file| % UINT32
    requires n <= |file| && end == lead + (PREAMBLE - skip) + 8379 * (6 + n)
    ensures end <= |Heard(file, lead, skip, tail)| && file[..n] <= Received(Heard(file, lead, skip, tail)[..end], gain)
  {
    var s, size := lead + (PREAMBLE - skip), |file| % UINT32;
    UpToFrame(file, lead, skip, tail, n, s);
    SoundsBefore(lead, PREAMBLE - skip, Frames(file)[..6 + n]);
    FirstFrames(file, size, n);
    SoundsAreRead(Heard(file, lead, skip, tail)[..end], lead, s, size, file[..n], gain);
  }

  lemma CapturedPartArrives(file: seq<Byte>, lead: nat, skip: nat, tail: seq<Tone>, gain: real, m: nat, n: nat)
    requires Loud(gain) && skip <= PREAMBLE && InTime(lead, skip) && m <= |Heard(file, lead, skip, tail)|
    requires n <= |file| && n <= |file| % UINT32 && lead + (PREAMBLE - skip) + 8379 * (6 + n) <= m
    ensures file[..n] <= Received(Heard(file, lead, skip, tail)[..m], gain)
  {
    var end := lead + (PREAMBLE - skip) + 8379 * (6 + n);
    var cut := Heard(file, lead, skip, tail)[..m];
    UpToFrameArrives(file, lead, skip, tail, gain, n, end);
    assert cut[..end] == Heard(file, lead, skip, tail)[..end];
    CutIsBeginning(cut, end, gain);
  }

  /**
   A capture that ends anywhere: the client writes a beginning of the file, and at least those bytes
   that have been captured whole.
   */
  lemma CutFileArrives(file: seq<Byte>, lead: nat, skip: nat, tail: seq<Tone>, gain: real, m: nat, n: nat)
    requires Loud(gain) && skip <= PREAMBLE && InTime(lead, skip) && m <= |Heard(file, lead, skip, tail)|
    requires n <= |file| % UINT32
    ensures n <= |file| && Received(Heard(file, lead, skip, tail)[..m], gain) <= file[..|file| % UINT32]
    ensures lead + (PREAMBLE - skip) + 8379 * (6 + n) <= m ==>
      file[..n] <= Received(Heard(file, lead, skip, tail)[..m], gain)
  {
    var all := Heard(file, lead, skip, tail);
    Truncated(|file|);
    FileArrives(file, lead, skip, tail, gain);
    CutIsBeginning(all, m, gain);
    if lead + (PREAMBLE - skip) + 8379 * (6 + n) <= m {
      CapturedPartArrives(file, lead, skip, tail, gain, m, n);
    }
  }
}
