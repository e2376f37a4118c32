/**
 The Internet checksum: the loops of `csum` against one's-complement arithmetic.
 Words are read and written in network order, so a stored checksum is a number below 2^16.
 */
module Checksum {
  import opened Common
  type Word16 = w: nat | w < 65536

  function Word(s: seq<Byte>, i: nat): (w: Word16)
    requires i + 1 < |s|
  {
    (s[i] as nat) * 256 + s[i + 1]
  }

  function PutWord(s: seq<Byte>, i: nat, w: Word16): (r: seq<Byte>)
    requires i + 1 < |s|
    ensures |r| == |s| && Word(r, i) == w
    ensures forall j | 0 <= j < |s| && j != i && j != i + 1 :: r[j] == s[j]
  {
    s[i := w / 256][i + 1 := w % 256]
  }

  /** The sum of the 16-bit words; an odd byte at the end is the high byte of a last word. */
  function Sum16(s: seq<Byte>): nat {
    if s == [] then 0
    else if |s| == 1 then (s[0] as nat) * 256
    else Word(s, 0) + Sum16(s[2..])
  }

  /** What end-around carry makes of a sum. */
  function Fold(n: nat): (w: Word16) {
    if n == 0 then 0 else (n - 1) % 65535 + 1
  }

  /** The one's complement of the one's complement sum (section 1 of RFC 1071). */
  function Sum(s: seq<Byte>): (w: Word16) {
    65535 - Fold(Sum16(s))
  }

  // ----- Folding -----

  lemma CongruentRest(a: nat, b: nat, k: int)
    requires a == b + 65535 * k
    ensures a % 65535 == b % 65535
  {
  }

  lemma FoldCarry(n: nat)
    requires n >= 65536
    ensures 0 < n % 65536 + n / 65536 < n && Fold(n % 65536 + n / 65536) == Fold(n)
  {
    CongruentRest(n - 1, n % 65536 + n / 65536 - 1, n / 65536);
  }

  /** The carry loop ends, and ends with the folded sum. */
  method FoldSum(n: nat) returns (sum: nat)
    ensures sum == Fold(n)
  {
    sum := n;
    while sum / 65536 != 0
      invariant Fold(sum) == Fold(n)
      decreases sum
    {
      FoldCarry(sum);
      sum := sum % 65536 + sum / 65536;
    }
  }

  /** Two sums fold to the same word exactly if they differ by a multiple of 65535 and are both zero or both not. */
  lemma FoldIff(a: nat, b: nat)
    ensures Fold(a) == Fold(b) <==> (a == 0 <==> b == 0) && a % 65535 == b % 65535
  {
    if a > 0 {
      FoldRest(a);
    }
    if b > 0 {
      FoldRest(b);
    }
  }

  lemma FoldRest(a: nat)
    requires a > 0
    ensures 0 < Fold(a) && Fold(a) == if a % 65535 == 0 then 65535 else a % 65535
  {
    if a % 65535 == 0 {
      CongruentRest(a - 1, 65534, a / 65535 - 1);
    } else {
      CongruentRest(a - 1, a % 65535 - 1, a / 65535);
    }
  }

  lemma RestOfSum(a: nat, b: nat)
    ensures (a + b) % 65535 == (a % 65535 + b % 65535) % 65535
  {
    CongruentRest(a + b, a % 65535 + b % 65535, a / 65535 + b / 65535);
  }

  /**
   A sum that includes the field folds to 0xFFFF exactly if the field is the complement of the rest;
   but where the rest folds to 0xFFFF, so that its complement is 0, a field of 0xFFFF does as well.
   */
  lemma FoldsToOnes(rest: nat, field: Word16)
    ensures Fold(rest + field) == 65535 <==>
      field == 65535 - Fold(rest) || (Fold(rest) == 65535 && field == 65535)
  {
    RestOfSum(rest, field);
    if rest > 0 {
      FoldRest(rest);
    }
    if rest + field > 0 {
      FoldRest(rest + field);
    }
  }

  // ----- Sums of byte strings -----

  lemma {:induction false} SumAppend(a: seq<Byte>, b: seq<Byte>)
    requires |a| % 2 == 0
    ensures Sum16(a + b) == Sum16(a) + Sum16(b)
    decreases |a|
  {
    if a == [] {
      assert a + b == b;
    } else {
      assert (a + b)[2..] == a[2..] + b;
      SumAppend(a[2..], b);
    }
  }

  lemma SumSnoc(s: seq<Byte>, n: nat)
    requires n + 2 <= |s| && n % 2 == 0
    ensures Sum16(s[..n + 2]) == Sum16(s[..n]) + Word(s, n)
  {
    assert s[..n + 2] == s[..n] + s[n..n + 2];
    SumAppend(s[..n], s[n..n + 2]);
    assert s[n..n + 2][2..] == [];
  }

  lemma SumOdd(s: seq<Byte>)
    requires |s| % 2 == 1
    ensures Sum16(s) == Sum16(s[..|s| - 1]) + (s[|s| - 1] as nat) * 256
  {
    var n := |s| - 1;
    assert s == s[..n] + s[n..];
    SumAppend(s[..n], s[n..]);
  }

  /** Writing an aligned word adds it to the sum. */
  lemma SumPut(s: seq<Byte>, i: nat, w: Word16)
    requires i + 1 < |s| && i % 2 == 0
    ensures Sum16(PutWord(s, i, w)) == Sum16(s[..i]) + w + Sum16(s[i + 2..])
  {
    var r := PutWord(s, i, w);
    assert r == s[..i] + r[i..i + 2] + s[i + 2..];
    SumAppend(s[..i] + r[i..i + 2], s[i + 2..]);
    SumAppend(s[..i], r[i..i + 2]);
    assert r[i..i + 2][2..] == [];
  }

  lemma PutSame(s: seq<Byte>, i: nat)
    requires i + 1 < |s|
    ensures PutWord(s, i, Word(s, i)) == s
  {
    assert Word(s, i) / 256 == s[i] && Word(s, i) % 256 == s[i + 1];
  }

  /** A region that carries its own checksum in an aligned field sums to 0xFFFF. */
  lemma ChecksumCompletes(s: seq<Byte>, i: nat)
    requires i + 1 < |s| && i % 2 == 0
    ensures Fold(Sum16(PutWord(s, i, Sum(PutWord(s, i, 0))))) == 65535
  {
    var field := Sum(PutWord(s, i, 0));
    SumPut(s, i, 0);
    SumPut(s, i, field);
    FoldsToOnes(Sum16(s[..i]) + Sum16(s[i + 2..]), field);
  }

  /**
   The test the receivers use against the sum over everything: they agree, except that the test
   rejects a field of 0xFFFF where the checksum is 0.
   */
  lemma TestAgainstSum(s: seq<Byte>, i: nat)
    requires i + 1 < |s| && i % 2 == 0
    ensures Fold(Sum16(s)) == 65535 <==>
      Word(s, i) == Sum(PutWord(s, i, 0)) || (Sum(PutWord(s, i, 0)) == 0 && Word(s, i) == 65535)
  {
    PutSame(s, i);
    SumPut(s, i, 0);
    SumPut(s, i, Word(s, i));
    var rest := Sum16(s[..i]) + Sum16(s[i + 2..]);
    assert Sum16(s) == rest + Word(s, i) && Sum16(PutWord(s, i, 0)) == rest;
    TestOfParts(rest, Word(s, i), Sum16(s), Sum(PutWord(s, i, 0)));
  }

  /** Four bytes 0xFF: the sum is right, the test rejects them. */
  lemma OnesAreRejected()
    ensures var s := [255, 255, 255, 255];
      Fold(Sum16(s)) == 65535 && Word(s, 0) != Sum(PutWord(s, 0, 0))
  {
    var s := [255, 255, 255, 255];
    assert s[2..] == [255, 255] && [255, 255][2..] == [];
    SumPut(s, 0, 0);
    assert s[..0] == [];
  }

  lemma TestOfParts(rest: nat, field: Word16, whole: nat, check: Word16)
    requires whole == rest + field && check == 65535 - Fold(rest)
    ensures Fold(whole) == 65535 <==> field == check || (check == 0 && field == 65535)
  {
    FoldsToOnes(rest, field);
  }

  /** One of the two words is 0x0000 and the other 0xFFFF. */
  predicate Exchanged(v: Word16, w: Word16) {
    (v == 0 && w == 65535) || (v == 65535 && w == 0)
  }

  /** One changed word goes unnoticed only if 0x0000 and 0xFFFF were exchanged (and not as the only word set). */
  lemma OneWordChanged(s: seq<Byte>, i: nat, w: Word16)
    requires i + 1 < |s| && i % 2 == 0 && w != Word(s, i)
    ensures Sum(PutWord(s, i, w)) == Sum(s) <==>
      Exchanged(Word(s, i), w) && Sum16(s[..i]) + Sum16(s[i + 2..]) > 0
  {
    var v, rest := Word(s, i), Sum16(s[..i]) + Sum16(s[i + 2..]);
    PutSame(s, i);
    SumPut(s, i, v);
    SumPut(s, i, w);
    FoldIff(rest + v, rest + w);
    SameRest(rest, v, w);
  }

  lemma SameRest(rest: nat, v: Word16, w: Word16)
    requires v != w
    ensures (rest + v) % 65535 == (rest + w) % 65535 <==> Exchanged(v, w)
  {
    RestOfSum(rest, v);
    RestOfSum(rest, w);
  }

  /** The receivers' test: the field at `k` is the checksum of everything else. */
  predicate Passes(s: seq<Byte>, k: nat)
    requires k + 1 < |s|
  {
    Word(s, k) == Sum(PutWord(s, k, 0))
  }

  lemma PutCommutes(s: seq<Byte>, j: nat, v: Word16, k: nat, w: Word16)
    requires j + 1 < |s| && k + 1 < |s| && (j + 1 < k || k + 1 < j)
    ensures PutWord(PutWord(s, j, v), k, w) == PutWord(PutWord(s, k, w), j, v)
  {
  }

  /** Some word other than these two is not zero. */
  predicate OthersCount(s: seq<Byte>, k: nat, i: nat)
    requires k + 1 < |s| && i + 1 < |s|
  {
    Sum16(PutWord(PutWord(s, k, 0), i, 0)) > 0
  }

  lemma {:induction false} NonZeroCounts(s: seq<Byte>, j: nat)
    requires j < |s| && s[j] > 0
    ensures Sum16(s) > 0
    decreases |s|
  {
    if j < 2 {
    } else {
      assert s[2..][j - 2] == s[j];
      NonZeroCounts(s[2..], j - 2);
    }
  }

  /**
   Of two regions that differ in one word, the checksum field or another, and one of which passes the
   test, the other passes it exactly if 0x0000 and 0xFFFF were exchanged, not in the field itself, and
   the rest is not all zero.
   */
  lemma OneWordPasses(s: seq<Byte>, k: nat, i: nat, w: Word16)
    requires k + 1 < |s| && i + 1 < |s| && k % 2 == 0 && i % 2 == 0
    requires Passes(s, k) && w != Word(s, i)
    ensures Passes(PutWord(s, i, w), k) <==> i != k && Exchanged(Word(s, i), w) && OthersCount(s, k, i)
  {
    var t := PutWord(s, i, w);
    if i == k {
      assert PutWord(t, k, 0) == PutWord(s, k, 0);
    } else {
      PutCommutes(s, i, w, k, 0);
      var z := PutWord(s, k, 0);
      assert Word(z, i) == Word(s, i) && Word(t, k) == Word(s, k);
      OneWordChanged(z, i, w);
      SumPut(z, i, 0);
    }
  }

  // ----- A word that is counted twice -----

  lemma PutAdds(s: seq<Byte>, i: nat, w: Word16)
    requires i + 1 < |s| && i % 2 == 0
    ensures Sum16(PutWord(s, i, w)) == Sum16(PutWord(s, i, 0)) + w
  {
    SumPut(s, i, w);
    SumPut(s, i, 0);
  }

  lemma PutAddsTwice(s: seq<Byte>, i: nat, j: nat, v: Word16, w: Word16)
    requires i + 1 < j && j + 1 < |s| && i % 2 == 0 && j % 2 == 0
    ensures Sum16(PutWord(PutWord(s, i, v), j, w)) == Sum16(PutWord(PutWord(s, i, 0), j, 0)) + v + w
  {
    PutAdds(PutWord(s, i, v), j, w);
    PutCommutes(s, i, v, j, 0);
    PutCommutes(s, i, 0, j, 0);
    PutAdds(PutWord(s, j, 0), i, v);
  }

  lemma QuotientsDiffer(a: nat, b: nat)
    requires a % 65535 == b % 65535
    ensures a - b == 65535 * (a / 65535 - b / 65535)
  {
  }

  lemma DoubledRest(rest: nat, v: Word16, w: Word16)
    requires v != w
    ensures (rest + v + v) % 65535 == (rest + w + w) % 65535 <==> Exchanged(v, w)
  {
    var a, b := rest + v + v, rest + w + w;
    if a % 65535 == b % 65535 {
      QuotientsDiffer(a, b);
    }
    if v == 65535 && w == 0 {
      CongruentRest(a, b, 2);
    }
    if v == 0 && w == 65535 {
      CongruentRest(b, a, 2);
    }
  }

  lemma TwiceIff(rest: nat, v: Word16, w: Word16)
    requires rest > 0 && v != w
    ensures Fold(rest + v + v) == Fold(rest + w + w) <==> Exchanged(v, w)
  {
    FoldIff(rest + v + v, rest + w + w);
    DoubledRest(rest, v, w);
  }

  /** A field that is the complement of a sum with the field in it makes that sum, with the field added, a multiple. */
  lemma FieldInSum(rest: nat, v: Word16)
    requires rest > 0 && v == 65535 - Fold(rest + v)
    ensures v < 65535 && (rest + v + v) % 65535 == 0
  {
    var n := rest + v - 1;
    assert v == 65535 - (n % 65535 + 1) && n == n % 65535 + 65535 * (n / 65535);
    CongruentRest(rest + v + v, 0, n / 65535 + 1);
  }

  lemma FieldIsFixed(rest: nat, v: Word16, w: Word16)
    requires rest > 0 && v == 65535 - Fold(rest + v) && w == 65535 - Fold(rest + w)
    ensures v == w
  {
    FieldInSum(rest, v);
    FieldInSum(rest, w);
    if v != w {
      DoubledRest(rest, v, w);
    }
  }

  lemma FieldTwicePasses(s: seq<Byte>, k: nat, i: nat, w: Word16, n: nat)
    requires i + 1 < k && k + 1 < |s| && i % 2 == 0 && k % 2 == 0
    requires Word(s, i) == Word(s, k) != w && i + 1 < n < k && s[n] > 0
    ensures !(Passes(s, k) && Passes(PutWord(PutWord(s, i, w), k, w), k))
  {
    var v, t, base := Word(s, k), PutWord(PutWord(s, i, w), k, w), PutWord(PutWord(s, i, 0), k, 0);
    NonZeroCounts(base, n);
    PutSame(s, i);
    PutAddsTwice(s, i, k, v, 0);
    PutAddsTwice(s, i, k, w, 0);
    assert PutWord(t, k, 0) == PutWord(PutWord(s, i, w), k, 0);
    if Passes(s, k) && Passes(t, k) {
      FieldIsFixed(Sum16(base), v, w);
    }
  }

  /** Two words with the value `v` become `w`. */
  lemma BothPut(z: seq<Byte>, i: nat, j: nat, v: Word16, w: Word16, n: nat)
    requires i + 1 < j && j + 1 < |z| && i % 2 == 0 && j % 2 == 0
    requires Word(z, i) == Word(z, j) == v != w && i + 1 < n < j && z[n] > 0
    ensures Sum(PutWord(PutWord(z, i, w), j, w)) == Sum(z) <==> Exchanged(v, w)
  {
    var base := PutWord(PutWord(z, i, 0), j, 0);
    NonZeroCounts(base, n);
    PutSame(z, i);
    PutSame(z, j);
    PutAddsTwice(z, i, j, v, v);
    PutAddsTwice(z, i, j, w, w);
    TwiceIff(Sum16(base), v, w);
  }

  /** The same of a word at `j`, the field or another, that is counted a second time at `i`. */
  lemma TwoWordsPass(s: seq<Byte>, k: nat, i: nat, j: nat, w: Word16, n: nat)
    requires i + 1 < j && j + 1 < |s| && k + 1 < |s| && i + 1 < k && i % 2 == 0 && j % 2 == 0 && k % 2 == 0
    requires Word(s, i) == Word(s, j) != w && i + 1 < n < j && n < k && s[n] > 0
    ensures Passes(s, k) ==> (Passes(PutWord(PutWord(s, i, w), j, w), k) <==> j != k && Exchanged(Word(s, j), w))
  {
    if j == k {
      FieldTwicePasses(s, k, i, w, n);
    } else {
      var t, z := PutWord(PutWord(s, i, w), j, w), PutWord(s, k, 0);
      PutCommutes(s, i, w, k, 0);
      PutCommutes(PutWord(s, i, w), j, w, k, 0);
      assert Word(t, k) == Word(s, k);
      BothPut(z, i, j, Word(s, j), w, n);
    }
  }

  lemma CancelRest(rest: nat, a: nat, b: nat)
    ensures (rest + a) % 65535 == (rest + b) % 65535 <==> a % 65535 == b % 65535
  {
    if (rest + a) % 65535 == (rest + b) % 65535 {
      QuotientsDiffer(rest + a, rest + b);
      CongruentRest(a, b, (rest + a) / 65535 - (rest + b) / 65535);
    } else {
      RestOfSum(rest, a);
      RestOfSum(rest, b);
    }
  }

  /** What a word adds whose high byte is also the odd byte at the end. */
  function WithHigh(w: Word16): nat {
    w + w / 256 * 256
  }

  lemma SumWithHigh(z: seq<Byte>, i: nat, w: Word16, n: nat)
    requires i + 1 < n && |z| == n + 1 && i % 2 == 0 && n % 2 == 0
    ensures Sum16(PutWord(z, i, w)[n := w / 256]) == Sum16(PutWord(z[..n], i, 0)) + WithHigh(w)
  {
    var y := PutWord(z, i, w)[n := w / 256];
    SumOdd(y);
    assert y[..n] == PutWord(z[..n], i, w);
    PutAdds(z[..n], i, w);
  }

  lemma HighIff(rest: nat, v: Word16, w: Word16)
    requires rest > 0
    ensures Fold(rest + WithHigh(v)) == Fold(rest + WithHigh(w)) <==> WithHigh(v) % 65535 == WithHigh(w) % 65535
  {
    FoldIff(rest + WithHigh(v), rest + WithHigh(w));
    CancelRest(rest, WithHigh(v), WithHigh(w));
  }

  /** The same where only its first byte is counted a second time, as the odd byte at the end. */
  lemma HighBytePasses(s: seq<Byte>, k: nat, i: nat, w: Word16, b: nat, n: nat)
    requires i + 1 < k && k + 1 < n && |s| == n + 1 && i % 2 == 0 && k % 2 == 0 && n % 2 == 0
    requires s[n] == s[i] && i + 1 < b < k && s[b] > 0
    ensures Passes(s, k) ==>
      (Passes(PutWord(s, i, w)[n := w / 256], k) <==> WithHigh(Word(s, i)) % 65535 == WithHigh(w) % 65535)
  {
    var v, t, z := Word(s, i), PutWord(s, i, w)[n := w / 256], PutWord(s, k, 0);
    PutCommutes(s, i, w, k, 0);
    assert PutWord(t, k, 0) == PutWord(z, i, w)[n := w / 256] && Word(t, k) == Word(s, k);
    assert Word(z, i) == v && v / 256 == z[n];
    HighByteSums(z, i, w, b, n);
  }

  lemma HighByteSums(z: seq<Byte>, i: nat, w: Word16, b: nat, n: nat)
    requires i + 1 < n && |z| == n + 1 && i % 2 == 0 && n % 2 == 0 && Word(z, i) / 256 == z[n]
    requires i + 1 < b < n && z[b] > 0
    ensures Sum(PutWord(z, i, w)[n := w / 256]) == Sum(z) <==> WithHigh(Word(z, i)) % 65535 == WithHigh(w) % 65535
  {
    var v := Word(z, i);
    PutSame(z, i);
    assert z[n := v / 256] == z;
    SumWithHigh(z, i, v, n);
    SumWithHigh(z, i, w, n);
    NonZeroCounts(PutWord(z[..n], i, 0), b);
    HighIff(Sum16(PutWord(z[..n], i, 0)), v, w);
  }

  // ----- Order of the words -----

  function Words(s: seq<Byte>): seq<Word16> {
    if s == [] then []
    else if |s| == 1 then [(s[0] as nat) * 256]
    else [Word(s, 0)] + Words(s[2..])
  }

  function Total(ws: seq<Word16>): nat {
    if ws == [] then 0 else ws[0] + Total(ws[1..])
  }

  lemma {:induction false} SumIsTotal(s: seq<Byte>)
    ensures Sum16(s) == Total(Words(s))
  {
    if s == [] {
    } else if |s| == 1 {
      assert Words(s)[1..] == [];
    } else {
      SumIsTotal(s[2..]);
      assert Words(s)[1..] == Words(s[2..]);
    }
  }

  lemma {:induction false} TotalTakeOut(ws: seq<Word16>, i: nat)
    requires i < |ws|
    ensures Total(ws) == ws[i] + Total(ws[..i] + ws[i + 1..])
  {
    if i == 0 {
      assert ws[..0] + ws[1..] == ws[1..];
    } else {
      TotalTakeOut(ws[1..], i - 1);
      var rest := ws[..i] + ws[i + 1..];
      assert rest[1..] == ws[1..][..i - 1] + ws[1..][i..];
    }
  }

  lemma TakeOutOfBag(ws: seq<Word16>, i: nat)
    requires i < |ws|
    ensures multiset(ws[..i] + ws[i + 1..]) == multiset(ws) - multiset{ws[i]}
  {
    assert ws == ws[..i] + [ws[i]] + ws[i + 1..];
  }

  lemma SameBagWithout(ws: seq<Word16>, us: seq<Word16>, i: nat)
    requires ws != [] && multiset(ws) == multiset(us) && i < |us| && us[i] == ws[0]
    ensures multiset(ws[1..]) == multiset(us[..i] + us[i + 1..])
  {
    TakeOutOfBag(us, i);
    TakeOutOfBag(ws, 0);
    assert ws[..0] + ws[0 + 1..] == ws[1..];
  }

  lemma FindInBag(w: Word16, us: seq<Word16>) returns (i: nat)
    requires w in multiset(us)
    ensures i < |us| && us[i] == w
  {
    i :| i < |us| && us[i] == w;
  }

  lemma {:induction false} TotalOfPermutation(ws: seq<Word16>, us: seq<Word16>)
    requires multiset(ws) == multiset(us)
    ensures Total(ws) == Total(us)
    decreases |ws|
  {
    if ws == [] {
      assert |multiset(us)| == 0;
    } else {
      assert ws[0] in multiset(ws);
      var i := FindInBag(ws[0], us);
      var us' := us[..i] + us[i + 1..];
      SameBagWithout(ws, us, i);
      TotalOfPermutation(ws[1..], us');
      TotalTakeOut(us, i);
    }
  }

  /** The checksum does not depend on the order of the words. */
  lemma OrderDoesNotMatter(s: seq<Byte>, t: seq<Byte>)
    requires multiset(Words(s)) == multiset(Words(t))
    ensures Sum(s) == Sum(t)
  {
    SumIsTotal(s);
    SumIsTotal(t);
    TotalOfPermutation(Words(s), Words(t));
  }

  // ----- The loops -----

  /** `len` bytes from `off` on; none if `len` is negative. */
  function Segment(s: seq<Byte>, off: nat, len: int): (r: seq<Byte>)
    requires off + len <= |s|
    ensures |r| == if len <= 0 then 0 else len
  {
    if len <= 0 then [] else s[off..off + len]
  }

  /** Adds the words of `count` bytes from `off` on; a count of zero or less adds nothing. */
  method AddBytes(a: array<Byte>, off: nat, count: int, start: nat) returns (sum: nat)
    requires off + count <= a.Length
    ensures sum == start + Sum16(Segment(a[..], off, count))
  {
    sum := start;
    var left, at := count, off;
    ghost var s := Segment(a[..], off, count);
    while left > 1
      invariant 0 <= left || left == count
      invariant at + left == off + count
      invariant count > 0 ==> at >= off && (at - off) % 2 == 0
      invariant count <= 0 ==> at == off
      invariant count > 0 ==> sum == start + Sum16(s[..at - off])
      invariant count <= 0 ==> sum == start
    {
      SumSnoc(s, at - off);
      sum := sum + ((a[at] as nat) * 256 + a[at + 1]);
      left := left - 2;
      at := at + 2;
    }
    if left > 0 {
      SumOdd(s);
      sum := sum + (a[at] as nat) * 256;
    } else {
      assert count > 0 ==> s[..at - off] == s;
    }
  }

  /** `csum`: what is stored in network order. */
  method Csum(a: array<Byte>, off: nat, count: int) returns (c: Word16)
    requires off + count <= a.Length
    ensures c == Sum(Segment(a[..], off, count))
  {
    var sum := AddBytes(a, off, count, 0);
    var folded := FoldSum(sum);
    c := 65535 - folded;
  }
}
