/**
 What the sequential table and the interleaved table share: entry fields, hash lines and the
 bucket searches over lists of entries.  An entry is named by the number of its buffer.
 */
module TabBase {
  import opened Common

  const MAX_HASH_LINE_NUM: nat := 1024
  const ID_SPACE: nat := 0x1_0000
  const UINT32: nat := 0x1_0000_0000

  type Buf = nat

  datatype Key = Key(a: nat, b: nat, c: nat)

  /** The fields that never change while the entry is in use. */
  datatype Rec = Rec(id: nat, key: Key, priv: nat)

  function IdHash(id: nat): (line: nat)
    ensures line < MAX_HASH_LINE_NUM
  {
    id % MAX_HASH_LINE_NUM
  }

  /** The product is taken in 32-bit arithmetic before the line is chosen. */
  function KeyHash(k: Key): (line: nat)
    ensures line < MAX_HASH_LINE_NUM
  {
    (k.a * k.b * k.c) % UINT32 % MAX_HASH_LINE_NUM
  }

  /** `next_id++` on a 16-bit counter; the test against 65535 that follows it can never be true. */
  function BumpId(id: nat): (r: nat)
    ensures r < ID_SPACE
  {
    (id + 1) % ID_SPACE
  }

  predicate InArena(l: seq<Buf>, cap: nat) {
    forall b | b in l :: b < cap
  }

  /** The first entry of a hash line with this id. */
  function FindId(l: seq<Buf>, rec: seq<Rec>, id: nat): (r: Option<Buf>)
    requires InArena(l, |rec|)
    ensures r.Some? ==> r.value in l && rec[r.value].id == id
    ensures r.None? ==> forall b | b in l :: rec[b].id != id
  {
    if l == [] then None
    else
      assert l[0] in l && forall b | b in l[1..] :: b in l;
      if rec[l[0]].id == id then Some(l[0]) else FindId(l[1..], rec, id)
  }

  function FindKey(l: seq<Buf>, rec: seq<Rec>, k: Key): (r: Option<Buf>)
    requires InArena(l, |rec|)
    ensures r.Some? ==> r.value in l && rec[r.value].key == k
    ensures r.None? ==> forall b | b in l :: rec[b].key != k
  {
    if l == [] then None
    else
      assert l[0] in l && forall b | b in l[1..] :: b in l;
      if rec[l[0]].key == k then Some(l[0]) else FindKey(l[1..], rec, k)
  }

  /** Distinct numbers below n: at most n of them, and exactly n only if all are there. */
  lemma {:induction false} NoDupBound(l: seq<nat>, n: nat)
    requires NoDup(l) && forall x | x in l :: x < n
    ensures |l| <= n
    ensures |l| == n ==> forall x: nat | x < n :: x in l
    decreases n
  {
    assert l == [] || l[0] in l;
    if n == 0 {
    } else if (n - 1) in l {
      RemoveFromNoDup<nat>(l, n - 1);
      NoDupBound(Remove<nat>(l, n - 1), n - 1);
    } else {
      NoDupBound(l, n - 1);
    }
  }

  // ----- A hash index over a set of entries -----

  function IdLines(rec: seq<Rec>): (r: seq<nat>)
    ensures |r| == |rec| && forall b | 0 <= b < |rec| :: r[b] == IdHash(rec[b].id)
  {
    seq(|rec|, b requires 0 <= b < |rec| => IdHash(rec[b].id))
  }

  function KeyLines(rec: seq<Rec>): (r: seq<nat>)
    ensures |r| == |rec| && forall b | 0 <= b < |rec| :: r[b] == KeyHash(rec[b].key)
  {
    seq(|rec|, b requires 0 <= b < |rec| => KeyHash(rec[b].key))
  }

  /** The lines hold exactly the members of `members`, each once and in its own line. */
  ghost predicate Indexed(tab: seq<seq<Buf>>, line: seq<nat>, members: set<Buf>) {
    && |tab| == MAX_HASH_LINE_NUM
    && (forall b | b in members :: b < |line| && line[b] < |tab| && b in tab[line[b]])
    && (forall l | 0 <= l < |tab| :: NoDup(tab[l]))
    && (forall l | 0 <= l < |tab| :: forall b | b in tab[l] :: b in members && line[b] == l)
  }

  lemma IndexRemove(tab: seq<seq<Buf>>, line: seq<nat>, members: set<Buf>, b: Buf)
    requires Indexed(tab, line, members) && b in members
    ensures Indexed(tab[line[b] := Remove(tab[line[b]], b)], line, members - {b})
  {
    RemoveFromNoDup(tab[line[b]], b);
  }

  /** The lines of entries outside the index do not matter. */
  lemma IndexFrame(tab: seq<seq<Buf>>, line: seq<nat>, line': seq<nat>, members: set<Buf>)
    requires Indexed(tab, line, members) && |line'| == |line|
    requires forall b | b in members :: line'[b] == line[b]
    ensures Indexed(tab, line', members)
  {
  }

  // ----- The map from keys, or from ids, to entries that a set of entries stands for -----

  function Keys(rec: seq<Rec>): (r: seq<Key>)
    ensures |r| == |rec| && forall b | 0 <= b < |rec| :: r[b] == rec[b].key
  {
    seq(|rec|, b requires 0 <= b < |rec| => rec[b].key)
  }

  function IdNumbers(rec: seq<Rec>): (r: seq<nat>)
    ensures |r| == |rec| && forall b | 0 <= b < |rec| :: r[b] == rec[b].id
  {
    seq(|rec|, b requires 0 <= b < |rec| => rec[b].id)
  }

  /** No two members have the same key. */
  ghost predicate DistinctKeys<K>(keys: seq<K>, members: set<Buf>) {
    && (forall b | b in members :: b < |keys|)
    && (forall b, c | b in members && c in members && b != c :: keys[b] != keys[c])
  }

  ghost function MapOf<K>(keys: seq<K>, members: set<Buf>): (m: map<K, Buf>)
    requires DistinctKeys(keys, members)
    ensures forall k | k in m :: m[k] in members && keys[m[k]] == k
    ensures forall b | b in members :: keys[b] in m && m[keys[b]] == b
  {
    map b | b in members :: keys[b] := b
  }

  lemma MapFrame<K>(keys: seq<K>, keys': seq<K>, members: set<Buf>)
    requires DistinctKeys(keys, members) && |keys'| == |keys| && forall c | c in members :: keys'[c] == keys[c]
    ensures DistinctKeys(keys', members) && MapOf(keys', members) == MapOf(keys, members)
  {
    var m, m' := MapOf(keys, members), MapOf(keys', members);
    forall k
      ensures k in m <==> k in m'
      ensures k in m ==> m'[k] == m[k]
    {
    }
  }

  lemma MapAdds<K>(keys: seq<K>, members: set<Buf>, b: Buf)
    requires DistinctKeys(keys, members) && DistinctKeys(keys, members + {b}) && b !in members
    ensures b < |keys| && keys[b] !in MapOf(keys, members)
    ensures MapOf(keys, members + {b}) == MapOf(keys, members)[keys[b] := b]
  {
    var m, m' := MapOf(keys, members), MapOf(keys, members + {b});
    assert b in members + {b};
    assert keys[b] !in m;
    forall k | k in m
      ensures k in m' && m'[k] == m[k]
    {
      assert m[k] in members + {b};
    }
    forall k | k in m' && k != keys[b]
      ensures k in m
    {
      assert m'[k] in members;
    }
    MapPlus(m, m', keys[b], b);
  }

  lemma MapPlus<K, V>(m: map<K, V>, m': map<K, V>, k: K, v: V)
    requires k in m' && m'[k] == v && forall x :: x in m' && x != k ==> x in m
    requires forall x :: x in m && x != k ==> x in m' && m'[x] == m[x]
    ensures m' == m[k := v]
  {
  }

  lemma MapDrops<K>(keys: seq<K>, members: set<Buf>, b: Buf)
    requires DistinctKeys(keys, members) && b in members
    ensures DistinctKeys(keys, members - {b})
    ensures MapOf(keys, members - {b}) == MapOf(keys, members) - {keys[b]}
  {
    var m, m' := MapOf(keys, members), MapOf(keys, members - {b});
    forall k | k in m && k != keys[b]
      ensures k in m' && m'[k] == m[k]
    {
      assert m[k] in members - {b};
    }
    forall k | k in m'
      ensures k in m && k != keys[b] && m'[k] == m[k]
    {
      assert m'[k] in members && m'[k] != b;
    }
    MapMinus(m, m', keys[b]);
  }

  lemma MapMinus<K, V>(m: map<K, V>, m': map<K, V>, k: K)
    requires forall x :: x in m' <==> x in m && x != k
    requires forall x :: x in m' ==> m'[x] == m[x]
    ensures m' == m - {k}
  {
  }
}
