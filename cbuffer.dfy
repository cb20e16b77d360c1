/** Sequence semantics of the circular buffer (`CBuffer`) that the input ring
    is built on. Only the operations the ring uses are modelled, on the live
    contents of the buffer, front first. */
module CBuffer {
  import opened Wrappers

  /** `shift()`: drop the front element; an empty buffer is left alone. */
  function Shift<T>(s: seq<T>): (r: seq<T>)
    ensures s == [] ==> r == []
    ensures s != [] ==> [s[0]] + r == s
  {
    if s == [] then [] else s[1..]
  }

  /** `unshift(x)` on a buffer of capacity `size`: put `x` in front; when the
      buffer is already full the last element is overwritten. */
  function Unshift<T>(x: T, s: seq<T>, size: nat): (r: seq<T>)
    requires 0 < size && |s| <= size
    ensures |r| == if |s| < size then |s| + 1 else size
    ensures r[0] == x
    ensures forall i :: 1 <= i < |r| ==> r[i] == s[i - 1]
  {
    if |s| < size then [x] + s else ([x] + s)[..size]
  }

  /** `rotateLeft(k)`: k times, move the front element to the back. */
  function RotateLeft<T>(s: seq<T>, k: int): (r: seq<T>)
    ensures |r| == |s|
  {
    if s == [] || k <= 0 then s else s[k % |s|..] + s[..k % |s|]
  }

  /** `rotateRight(k)`: k times, move the back element to the front. */
  function RotateRight<T>(s: seq<T>, k: int): (r: seq<T>)
    ensures |r| == |s|
  {
    if s == [] || k <= 0 then s else s[|s| - k % |s|..] + s[..|s| - k % |s|]
  }

  /** `get(i)`: the element at logical index `i`; `None` stands for a slot
      outside the live contents. */
  function Get<T>(s: seq<T>, i: int): (r: Option<T>)
    ensures r.Some? <==> 0 <= i < |s|
    ensures r.Some? ==> r.value == s[i]
  {
    if 0 <= i < |s| then Some(s[i]) else None
  }

  lemma RotateLeftBelowLength<T>(s: seq<T>, k: int)
    requires 0 < k < |s|
    ensures RotateLeft(s, k) == s[k..] + s[..k]
  {
    assert k % |s| == k;
  }

  lemma RotateRightBelowLength<T>(s: seq<T>, k: int)
    requires 0 < k < |s|
    ensures RotateRight(s, k) == s[|s| - k..] + s[..|s| - k]
  {
    assert k % |s| == k;
  }

  lemma RotateRightByLength<T>(s: seq<T>)
    requires s != []
    ensures RotateRight(s, |s|) == s
  {
    assert |s| % |s| == 0;
    assert s[|s|..] == [];
  }

  /** Rotating an index to the front, shifting it off and rotating back
      removes exactly that element and keeps the others in order. */
  lemma RotateShiftRotateRemoves<T>(s: seq<T>, k: int)
    requires 0 < k < |s|
    ensures RotateRight(Shift(RotateLeft(s, k)), k) == s[..k] + s[k + 1..]
  {
    RotateLeftBelowLength(s, k);
    var t := Shift(RotateLeft(s, k));
    assert t == s[k + 1..] + s[..k];
    if k == |s| - 1 {
      RotateRightByLength(t);
      assert s[k + 1..] == [];
    } else {
      RotateRightBelowLength(t, k);
      assert t[|t| - k..] == s[..k];
      assert t[..|t| - k] == s[k + 1..];
    }
  }
}
