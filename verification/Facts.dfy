/** Facts about sequences, sets and division that several parts rely on. */
module Facts {
  /** `s` without the first occurrence of `x`. */
  function RemoveFirst<T(==)>(s: seq<T>, x: T): (r: seq<T>)
    ensures x !in s ==> r == s
    ensures x in s ==> |r| == |s| - 1
  {
    if s == [] then [] else if s[0] == x then s[1..] else [s[0]] + RemoveFirst(s[1..], x)
  }

  /** If `k` is the first place of `x`, removing it joins what lies before and after. */
  lemma {:induction false} RemoveFirstAt<T>(s: seq<T>, x: T, k: nat)
    requires k < |s| && s[k] == x && x !in s[..k]
    ensures RemoveFirst(s, x) == s[..k] + s[k + 1..]
  {
    if k > 0 {
      assert s[0] in s[..k];
      assert s[1..][..k - 1] == s[..k][1..];
      RemoveFirstAt(s[1..], x, k - 1);
      assert s[..k] + s[k + 1..] == [s[0]] + (s[1..][..k - 1] + s[1..][k..]);
    }
  }

  ghost predicate Distinct<T>(s: seq<T>) { forall i, j :: 0 <= i < j < |s| ==> s[i] != s[j] }

  /** `s` without place `k`. */
  function Removed<T>(s: seq<T>, k: nat): seq<T>
    requires k < |s|
  {
    s[..k] + s[k + 1..]
  }

  /** Those before place `k` keep theirs, those behind it move down by one. */
  lemma RemovedAt<T>(s: seq<T>, k: nat, i: nat)
    requires k < |s| && i + 1 < |s|
    ensures |Removed(s, k)| == |s| - 1 && Removed(s, k)[i] == if i < k then s[i] else s[i + 1]
  {
  }

  lemma RemovedDistinct<T>(s: seq<T>, k: nat)
    requires Distinct(s) && k < |s|
    ensures Distinct(Removed(s, k)) && |Removed(s, k)| == |s| - 1
  {
    var t := Removed(s, k);
    assert forall i :: 0 <= i < |t| ==> t[i] == if i < k then s[i] else s[i + 1];
  }

  lemma {:induction false} SubsetSize<T>(a: set<T>, b: set<T>)
    requires a <= b
    ensures |a| <= |b|
  {
    if a != {} {
      var x :| x in a;
      SubsetSize(a - {x}, b - {x});
    }
  }

  lemma Monotone(a: int, b: int, w: nat)
    ensures a <= b ==> a * w <= b * w
    ensures (a + 1) * w == a * w + w
  {
  }

  lemma Quotient(x: nat, w: nat, a: int, r: nat)
    requires w > 0 && x == a * w + r && r < w
    ensures x / w == a && x % w == r
  {
    var b := x / w;
    assert x == b * w + x % w;
    Monotone(b + 1, a, w);
    Monotone(a + 1, b, w);
    Monotone(a, b, w);
    Monotone(b, a, w);
  }
}
