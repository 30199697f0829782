/** Small shared vocabulary: optional values and a few facts about sequences, sets and byte order. */
module Basics {

  datatype Option<+T> = None | Some(value: T)

  newtype byte = x: int | 0 <= x < 256

  function Min(a: int, b: int): int {
    if a < b then a else b
  }

  function Pow2(n: nat): (p: nat)
    ensures p > 0
  {
    if n == 0 then 1 else 2 * Pow2(n - 1)
  }

  /** A subset has at most as many elements. */
  lemma SubsetCount<T>(a: set<T>, b: set<T>)
    requires a <= b
    ensures |a| <= |b|
  {
    assert b == a + (b - a);
  }

  lemma AppendAssoc<T>(a: seq<T>, b: seq<T>, c: seq<T>)
    ensures (a + b) + c == a + (b + c)
  {
  }

  lemma AppendEmpty<T>(s: seq<T>)
    ensures [] + s == s && s + [] == s
  {
  }

  lemma AppendTail<T>(s: seq<T>, t: seq<T>)
    requires s != []
    ensures (s + t)[0] == s[0] && (s + t)[1..] == s[1..] + t
  {
  }

  /** The order in which Go compares strings. */
  predicate Less(a: string, b: string)
    decreases |a|
  {
    if b == [] then false
    else if a == [] then true
    else a[0] < b[0] || (a[0] == b[0] && Less(a[1..], b[1..]))
  }

  /** The string order is total: of two different strings exactly one comes first. */
  lemma {:induction false} LessTotal(a: string, b: string)
    ensures a != b ==> Less(a, b) != Less(b, a)
    ensures a == b ==> !Less(a, b)
    decreases |a|
  {
    if a != [] && b != [] && a[0] == b[0] {
      LessTotal(a[1..], b[1..]);
      assert a == [a[0]] + a[1..] && b == [b[0]] + b[1..];
    }
  }

  /** A shorter string comes before its extensions; otherwise the first difference decides. */
  ghost predicate FirstDiffers(a: string, b: string, k: nat) {
    k < |a| && k < |b| && a[..k] == b[..k] && a[k] < b[k]
  }

  lemma {:induction false} LessExact(a: string, b: string)
    ensures Less(a, b) <==> (a != b && a <= b) || exists k: nat :: FirstDiffers(a, b, k)
    decreases |a|
  {
    if a != [] && b != [] && a[0] == b[0] {
      LessExact(a[1..], b[1..]);
      assert a == [a[0]] + a[1..] && b == [b[0]] + b[1..];
      if k: nat :| FirstDiffers(a, b, k) {
        assert a[..k][1..] == a[1..][..k - 1] && b[..k][1..] == b[1..][..k - 1];
        assert FirstDiffers(a[1..], b[1..], k - 1);
      }
      if k: nat :| FirstDiffers(a[1..], b[1..], k) {
        assert a[..k + 1] == [a[0]] + a[1..][..k] && b[..k + 1] == [b[0]] + b[1..][..k];
        assert FirstDiffers(a, b, k + 1);
      }
    } else if a != [] && b != [] && a[0] < b[0] {
      assert FirstDiffers(a, b, 0);
    } else if a != [] && b != [] {
      forall k: nat ensures !FirstDiffers(a, b, k) {
        assert k > 0 && k <= |a| && k <= |b| ==> a[..k][0] == a[0] && b[..k][0] == b[0];
      }
    }
  }
}
