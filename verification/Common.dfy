/** Small notions that several parts of the model share. */
module Common {
  datatype Option<+T> = None | Some(value: T)

  type Byte = b: nat | b < 256

  ghost predicate NoDup<T>(l: seq<T>) {
    forall i, j | 0 <= i < j < |l| :: l[i] != l[j]
  }

  /** No NUL inside: what a C string can hold. */
  predicate NoNul(s: string) {
    forall j | 0 <= j < |s| :: s[j] != '\0'
  }

  /** The list without the member at `i`. */
  function Cut<T>(l: seq<T>, i: nat): (r: seq<T>)
    requires i < |l|
    ensures |r| == |l| - 1
    ensures forall j | 0 <= j < i :: r[j] == l[j]
    ensures forall j | i <= j < |r| :: r[j] == l[j + 1]
  {
    l[..i] + l[i + 1..]
  }

  lemma CutNoDup<T>(l: seq<T>, k: nat)
    requires NoDup(l) && k < |l|
    ensures NoDup(Cut(l, k)) && l[k] !in Cut(l, k)
    ensures forall x :: x in Cut(l, k) <==> x in l && x != l[k]
  {
    var r := Cut(l, k);
    forall i, j | 0 <= i < j < |r|
      ensures r[i] != r[j]
    {
      assert l[if i < k then i else i + 1] != l[if j < k then j else j + 1];
    }
    forall x | x in r
      ensures x in l && x != l[k]
    {
      var i: nat :| i < |r| && r[i] == x;
      assert l[if i < k then i else i + 1] == x;
    }
    forall x | x in l && x != l[k]
      ensures x in r
    {
      var i: nat :| i < |l| && l[i] == x;
      assert r[if i < k then i else i - 1] == x;
    }
  }

  /** The list with one node unlinked. */
  function Remove<T(==)>(l: seq<T>, x: T): (r: seq<T>)
    ensures forall y :: y in r ==> y in l
    ensures forall y :: y in l && y != x ==> y in r
  {
    if l == [] then []
    else if l[0] == x then l[1..]
    else [l[0]] + Remove(l[1..], x)
  }

  lemma {:induction false} RemoveFromNoDup<T>(l: seq<T>, x: T)
    requires NoDup(l) && x in l
    ensures NoDup(Remove(l, x)) && x !in Remove(l, x) && |Remove(l, x)| == |l| - 1
    ensures forall y :: y in Remove(l, x) <==> y in l && y != x
  {
    if l[0] == x {
    } else {
      RemoveFromNoDup(l[1..], x);
      var r := Remove(l[1..], x);
      assert l[0] !in l[1..];
      assert l[0] !in r;
    }
  }
}
