/**
  A value model of Python's `collections.deque` created with a `maxlen`, restricted
  to the part the conversation memory uses: appending on the right, clearing and
  reading the items out oldest first. A bounded deque that is full drops its
  leftmost (oldest) item when a new one is appended on the right.
 */
module Deque {

  function Min(a: nat, b: nat): nat {
    if a <= b then a else b
  }

  /** The last `k` elements of `s`, or all of `s` when it is shorter than `k`.
      This is the reference meaning of "the most recent `k` items". */
  function TakeLast<T>(s: seq<T>, k: nat): (r: seq<T>)
    ensures |r| == Min(|s|, k)
    ensures forall i :: 0 <= i < |r| ==> r[i] == s[|s| - |r| + i]
  {
    s[|s| - Min(|s|, k)..]
  }

  /** A bounded deque: `items` oldest first, never more than `maxlen` of them. */
  datatype BoundedDeque<T> = BoundedDeque(maxlen: nat, items: seq<T>) {
    predicate Valid() {
      |items| <= maxlen
    }
  }

  /** `deque(maxlen=maxlen)`: an empty deque. */
  function Empty<T>(maxlen: nat): (d: BoundedDeque<T>)
    ensures d.Valid()
    ensures d.maxlen == maxlen && |d.items| == 0
  {
    BoundedDeque(maxlen, [])
  }

  /** `d.append(x)`: add `x` on the right, discarding the leftmost item when the
      deque is already full. A deque with `maxlen == 0` keeps nothing. */
  function Append<T>(d: BoundedDeque<T>, x: T): (r: BoundedDeque<T>)
    requires d.Valid()
    ensures r.Valid() && r.maxlen == d.maxlen
    ensures r.items == TakeLast(d.items + [x], d.maxlen)
    ensures d.maxlen > 0 ==> r.items[|r.items| - 1] == x
  {
    if |d.items| < d.maxlen then
      BoundedDeque(d.maxlen, d.items + [x])
    else if d.maxlen == 0 then
      d
    else
      BoundedDeque(d.maxlen, d.items[1..] + [x])
  }

  /** `d.clear()`: remove every item; the bound is kept. */
  function Clear<T>(d: BoundedDeque<T>): (r: BoundedDeque<T>)
    ensures r.Valid()
    ensures r.maxlen == d.maxlen && |r.items| == 0
  {
    BoundedDeque(d.maxlen, [])
  }

  /** Appending to the most recent `k` items of `s` and keeping the most recent
      `k` of the result is the same as keeping the most recent `k` of `s + [x]`:
      a bounded deque forgets nothing it would need later. */
  lemma TakeLastAppend<T>(s: seq<T>, x: T, k: nat)
    ensures TakeLast(TakeLast(s, k) + [x], k) == TakeLast(s + [x], k)
  {
    var t := TakeLast(s, k);
    var u := TakeLast(t + [x], k);
    var v := TakeLast(s + [x], k);
    assert |u| == |v|;
    forall i | 0 <= i < |u|
      ensures u[i] == v[i]
    {
      var j := |t| + 1 - |u| + i;
      assert u[i] == (t + [x])[j];
      assert v[i] == (s + [x])[|s| - |t| + j];
      if j < |t| {
        assert t[j] == s[|s| - |t| + j];
      }
    }
  }
}
