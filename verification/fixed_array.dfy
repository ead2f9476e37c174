/** The fixed-capacity array (src/message/array.rs): `S` slots, all filled
    with an initial value at creation, of which the first `count` hold
    elements; a movable `limit` at most `S` caps how many may be pushed. */
module FixedArray {
  import opened Wrappers

  /** `Array<T, S>`: the capacity `S` is the length of `data`. */
  datatype Array<T> = Array(initial: T, count: nat, limit: nat, data: seq<T>)

  /** The invariant every operation keeps: `count <= limit <= S`. */
  predicate Valid<T>(a: Array<T>) {
    a.count <= a.limit <= |a.data|
  }

  /** `new(v)`: no elements, the limit at the capacity, every slot `v`. */
  function New<T>(v: T, capacity: nat): (a: Array<T>)
    ensures Valid(a) && a.count == 0 && a.limit == capacity && a.initial == v
    ensures |a.data| == capacity && forall i :: 0 <= i < capacity ==> a.data[i] == v
  {
    Array(v, 0, capacity, seq(capacity, _ => v))
  }

  /** `is_full`: the count has reached the limit. */
  predicate IsFull<T>(a: Array<T>) {
    a.count == a.limit
  }

  /** `is_empty`. */
  predicate IsEmpty<T>(a: Array<T>) {
    a.count == 0
  }

  /** `space`: the positions left below the limit. */
  function Space<T>(a: Array<T>): (n: nat)
    requires Valid(a)
    ensures a.count + n == a.limit
    ensures n == 0 <==> IsFull(a)
  {
    a.limit - a.count
  }

  /** `get(i)`: the element at `i` when `i` is below the count. */
  function Get<T>(a: Array<T>, i: nat): (r: Option<T>)
    requires Valid(a)
    ensures r.Some? <==> i < a.count
    ensures r.Some? ==> r.value == a.data[i]
  {
    if !IsEmpty(a) && i < a.count then Some(a.data[i]) else None
  }

  /** `first`. */
  function First<T>(a: Array<T>): (r: Option<T>)
    requires Valid(a)
    ensures r.Some? <==> !IsEmpty(a)
    ensures r.Some? ==> r.value == a.data[0]
  {
    Get(a, 0)
  }

  /** `last`: the element at `count - 1`, found through a saturating
      subtraction that makes an empty array ask for index 0. */
  function Last<T>(a: Array<T>): (r: Option<T>)
    requires Valid(a)
    ensures r.Some? <==> !IsEmpty(a)
    ensures r.Some? ==> r.value == a.data[a.count - 1]
  {
    Get(a, if a.count == 0 then 0 else a.count - 1)
  }

  /** `push(v)`: writes at index `count` and counts it, unless full, in which
      case nothing changes. */
  function Push<T>(a: Array<T>, v: T): (r: Array<T>)
    requires Valid(a)
    ensures Valid(r) && r.initial == a.initial && r.limit == a.limit && |r.data| == |a.data|
    ensures IsFull(a) ==> r == a
    ensures !IsFull(a) ==> r.count == a.count + 1 && r.data[a.count] == v
    ensures forall i :: 0 <= i < |a.data| && i != a.count ==> r.data[i] == a.data[i]
  {
    if !IsFull(a) then a.(data := a.data[a.count := v], count := a.count + 1) else a
  }

  /** `resize(v)`: ignored above the capacity; otherwise the limit becomes
      `v` and, when the count exceeds it, the slots from `v` up to the count
      go back to the initial value and the count drops to `v`. */
  function Resize<T>(a: Array<T>, v: nat): (r: Array<T>)
    requires Valid(a)
    ensures Valid(r) && r.initial == a.initial && |r.data| == |a.data|
    ensures v > |a.data| ==> r == a
    ensures v <= |a.data| ==> r.limit == v && r.count == if a.count <= v then a.count else v
    ensures forall i :: 0 <= i < |a.data| ==>
              r.data[i] == if v <= i < a.count then a.initial else a.data[i]
  {
    if v > |a.data| then a
    else if a.count <= v then a.(limit := v)
    else Array(a.initial, v, v,
               seq(|a.data|, i requires 0 <= i < |a.data| => if v <= i < a.count then a.initial else a.data[i]))
  }

  /** `clear`: every slot back to the initial value and no elements; the
      limit stays. */
  function Clear<T>(a: Array<T>): (r: Array<T>)
    requires Valid(a)
    ensures Valid(r) && IsEmpty(r) && r.limit == a.limit && r.initial == a.initial
    ensures |r.data| == |a.data| && forall i :: 0 <= i < |r.data| ==> r.data[i] == a.initial
  {
    Array(a.initial, 0, a.limit, seq(|a.data|, _ => a.initial))
  }

  /** The number of elements of `s` that satisfy `p`. */
  function CountWhere<T>(s: seq<T>, p: T -> bool): (n: nat)
    ensures n <= |s|
  {
    if |s| == 0 then 0 else CountWhere(s[..|s| - 1], p) + (if p(s[|s| - 1]) then 1 else 0)
  }

  /** `count(predicate)`: the slots satisfying the predicate, over all `S`
      slots and not only the first `count`. */
  method Count<T>(a: Array<T>, p: T -> bool) returns (n: nat)
    ensures n == CountWhere(a.data, p)
    ensures n <= |a.data|
  {
    n := 0;
    var i := 0;
    while i < |a.data|
      invariant 0 <= i <= |a.data|
      invariant n == CountWhere(a.data[..i], p)
    {
      assert a.data[..i + 1][..i] == a.data[..i];
      if p(a.data[i]) {
        n := n + 1;
      }
      i := i + 1;
    }
    assert a.data[..i] == a.data;
  }

  /** A push onto an array with room becomes its last element and leaves
      every earlier element where it was. */
  lemma PushThenLast<T>(a: Array<T>, v: T, i: nat)
    requires Valid(a) && !IsFull(a)
    ensures Last(Push(a, v)) == Some(v)
    ensures i < a.count ==> Get(Push(a, v), i) == Get(a, i)
    ensures Space(Push(a, v)) + 1 == Space(a)
  {
  }

  /** Clearing twice is clearing once, and pushing after a clear fills
      index 0. */
  lemma ClearIdempotent<T>(a: Array<T>, v: T)
    requires Valid(a)
    ensures Clear(Clear(a)) == Clear(a)
    ensures a.limit > 0 ==> First(Push(Clear(a), v)) == Some(v)
  {
  }

  /** Resizing to a limit no smaller than the count keeps every element,
      and resizing to the current limit changes nothing at all. */
  lemma ResizeKeeps<T>(a: Array<T>, v: nat, i: nat)
    requires Valid(a) && a.count <= v
    ensures Resize(a, v).count == a.count
    ensures Get(Resize(a, v), i) == Get(a, i)
    ensures v == a.limit ==> Resize(a, v) == a
  {
  }

  /** Counting ranges over unused slots too: a new array whose initial value
      satisfies the predicate counts every slot although it holds nothing. */
  lemma {:induction false} CountSeesUnusedSlots<T>(v: T, capacity: nat, p: T -> bool)
    requires p(v)
    ensures CountWhere(New(v, capacity).data, p) == capacity
    ensures IsEmpty(New(v, capacity))
  {
    AllSatisfy(New(v, capacity).data, p);
  }

  lemma {:induction false} AllSatisfy<T>(s: seq<T>, p: T -> bool)
    requires forall i :: 0 <= i < |s| ==> p(s[i])
    ensures CountWhere(s, p) == |s|
  {
    if |s| > 0 {
      AllSatisfy(s[..|s| - 1], p);
    }
  }

  /** The resize tests of the source: five pushes into ten slots then a
      resize to 2 keep elements 1 and 2 and reset slot 2; a resize to 2, two
      pushes and a resize to 4 keep both elements. */
  lemma ResizeExamples()
    ensures var a := Resize(Push(Push(Push(Push(Push(New(0, 10), 1), 2), 3), 4), 5), 2);
            a.count == 2 && a.limit == 2 && First(a) == Some(1) && Last(a) == Some(2) && a.data[2] == 0
    ensures var a := Resize(Push(Push(Resize(New(0, 10), 2), 1), 2), 4);
            a.count == 2 && a.limit == 4 && First(a) == Some(1) && Last(a) == Some(2)
  {
  }

  /** The push tests of the source: a third push into two slots is lost;
      `get` beyond the count is `None`; a full array is no longer full once
      cleared. */
  lemma PushExamples()
    ensures var a := Push(Push(New(0, 2), 1), 2);
            Push(a, 3) == a && IsFull(a) && Get(a, 0) == Some(1) && Get(a, 1) == Some(2)
            && Get(a, 2) == None && !IsFull(Clear(a)) && IsEmpty(Clear(a))
    ensures !IsFull(New(0, 2)) && IsEmpty(New(0, 3))
  {
  }
}
