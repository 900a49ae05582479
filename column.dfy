/** `BasicColumn`: a growable buffer of column values. A backing array holds
    the values (Java `null` is `None`), and `size` says how many of its slots
    are in use. */
module Column {
  import opened JavaLang
  import opened Outcomes

  /** `INIT_SIZE`: the capacity of a new or cleared column. */
  const InitSize: nat := 128

  /** `(int)(length * GROW_FACTOR)` with `GROW_FACTOR = 1.6`: the product
      rounded down, and saturated at `Integer.MAX_VALUE` by the cast. (The
      `double` product is never close enough to an integer from below for
      its rounding to change the result.) */
  function Grow(length: nat): nat {
    if length * 8 / 5 < IntMax then length * 8 / 5 else IntMax
  }

  /** Growth makes room only from capacity 2 on, and no more once the cast
      saturates: 0, 1 and `Integer.MAX_VALUE` map to themselves. */
  lemma GrowthMakesRoom(length: nat)
    ensures Grow(length) > length <==> 2 <= length < IntMax
    ensures length <= IntMax ==> length <= Grow(length) <= IntMax
  {
  }

  /** `length` null slots, as a freshly allocated array has. */
  function Nulls<T>(length: nat): (r: seq<Option<T>>)
    ensures |r| == length && forall i :: 0 <= i < length ==> r[i] == None
  {
    seq(length, _ => None)
  }

  /** `Arrays.copyOf(slots, length)`: the slots that fit, then nulls. */
  function Resized<T>(slots: seq<Option<T>>, length: nat): (r: seq<Option<T>>)
    ensures |r| == length
    ensures forall i :: 0 <= i < length ==> r[i] == if i < |slots| then slots[i] else None
  {
    seq(length, i requires 0 <= i < length => if i < |slots| then slots[i] else None)
  }

  /** The state of a column: its backing slots and its logical size. */
  datatype Buffer<T> = Buffer(slots: seq<Option<T>>, size: nat)

  /** The representation invariant `0 <= size <= capacity`. */
  ghost predicate Fits<T>(b: Buffer<T>) {
    b.size <= |b.slots|
  }

  /** The values in use. */
  function Used<T>(b: Buffer<T>): seq<Option<T>>
    requires Fits(b)
  {
    b.slots[..b.size]
  }

  /** `append(x)`: when full, reallocate to the grown capacity; then
      `values[size++] = x`. The index expression runs before the store is
      checked, so a store that fails still increments `size`. */
  function AppendStep<T>(b: Buffer<T>, x: Option<T>): (Buffer<T>, Outcome) {
    var slots := if b.size == |b.slots| then Resized(b.slots, Grow(|b.slots|)) else b.slots;
    if b.size < |slots| then (Buffer(slots[b.size := x], b.size + 1), Pass)
    else (Buffer(slots, b.size + 1), Fail(IndexOutOfBounds(b.size)))
  }

  /** `appendAll(xs)`: `append` each element in order, stopping at the first
      that throws. */
  function AppendAllSpec<T>(b: Buffer<T>, xs: seq<Option<T>>): (Buffer<T>, Outcome)
    decreases |xs|
  {
    if xs == [] then (b, Pass)
    else
      var (b1, out) := AppendStep(b, xs[0]);
      if out.Fail? then (b1, out) else AppendAllSpec(b1, xs[1..])
  }

  /** With room, or with a capacity that growth enlarges, `append` stores the
      value at the old size, keeps the earlier values and the invariant, and
      grows a full buffer to `Grow(capacity)`. */
  lemma AppendStores<T>(b: Buffer<T>, x: Option<T>)
    requires Fits(b) && (b.size < |b.slots| || 2 <= |b.slots| < IntMax)
    ensures var (c, out) := AppendStep(b, x);
      && out == Pass && Fits(c)
      && c.size == b.size + 1 && Used(c) == Used(b) + [x]
      && |c.slots| == (if b.size == |b.slots| then Grow(|b.slots|) else |b.slots|)
      && c.slots[c.size..] == (if b.size == |b.slots| then Nulls(|c.slots| - c.size) else b.slots[c.size..])
  {
    var (c, out) := AppendStep(b, x);
    assert Used(c) == Used(b) + [x];
  }

  /** A full buffer of capacity 0 or 1, or of capacity `Integer.MAX_VALUE`,
      cannot grow: `append` throws, and the size it has already incremented
      now exceeds the capacity. */
  lemma AppendFailsWhenStuck<T>(b: Buffer<T>, x: Option<T>)
    requires Fits(b) && b.size == |b.slots| && (|b.slots| < 2 || |b.slots| == IntMax)
    ensures var (c, out) := AppendStep(b, x);
      && out == Fail(IndexOutOfBounds(b.size))
      && c.slots == b.slots && c.size == |c.slots| + 1 && !Fits(c)
  {
  }

  /** After an `append` that did not throw, `contains` finds the value. */
  lemma AppendedIsContained<T>(b: Buffer<T>, x: Option<T>)
    requires AppendStep(b, x).1 == Pass
    ensures x in AppendStep(b, x).0.slots
  {
    var c := AppendStep(b, x).0;
    assert c.slots[b.size] == x;
  }

  /** `appendAll` appends every element in order whenever each `append` can
      make room. */
  lemma {:induction false} AppendAllAppends<T>(b: Buffer<T>, xs: seq<Option<T>>)
    requires Fits(b) && ((|b.slots| >= 2 && b.size + |xs| <= IntMax) || b.size + |xs| <= |b.slots|)
    ensures var (c, out) := AppendAllSpec(b, xs);
      out == Pass && Fits(c) && Used(c) == Used(b) + xs
    decreases |xs|
  {
    if xs != [] {
      AppendStores(b, xs[0]);
      var (b1, _) := AppendStep(b, xs[0]);
      AppendAllAppends(b1, xs[1..]);
      assert Used(b) + [xs[0]] + xs[1..] == Used(b) + xs;
    }
  }

  // ---------------------------------------------------------------------
  // map and reverse

  /** Each value replaced by its image under `f`. */
  function MapAll<T>(f: Option<T> -> Option<T>, s: seq<Option<T>>): seq<Option<T>> {
    if s == [] then [] else MapAll(f, s[..|s| - 1]) + [f(s[|s| - 1])]
  }

  lemma {:induction false} MapAllAt<T>(f: Option<T> -> Option<T>, s: seq<Option<T>>)
    ensures |MapAll(f, s)| == |s|
    ensures forall k :: 0 <= k < |s| ==> MapAll(f, s)[k] == f(s[k])
  {
    if s != [] {
      MapAllAt(f, s[..|s| - 1]);
    }
  }

  /** Mapping with `f` and then with `g` is mapping with their composition. */
  lemma MapAllCompose<T>(f: Option<T> -> Option<T>, g: Option<T> -> Option<T>, s: seq<Option<T>>)
    ensures MapAll(g, MapAll(f, s)) == MapAll(x => g(f(x)), s)
  {
    MapAllAt(f, s);
    MapAllAt(g, MapAll(f, s));
    MapAllAt(x => g(f(x)), s);
  }

  /** The values in reverse order. */
  function Reversed<X>(s: seq<X>): (r: seq<X>)
    ensures |r| == |s|
  {
    if s == [] then [] else [s[|s| - 1]] + Reversed(s[..|s| - 1])
  }

  lemma {:induction false} ReversedAt<X>(s: seq<X>, k: nat)
    requires k < |s|
    ensures Reversed(s)[k] == s[|s| - 1 - k]
  {
    if k > 0 {
      ReversedAt(s[..|s| - 1], k - 1);
    }
  }

  /** Reversing twice restores the original order. */
  lemma ReverseTwice<X>(s: seq<X>)
    ensures Reversed(Reversed(s)) == s
  {
    forall k | 0 <= k < |s|
      ensures Reversed(Reversed(s))[k] == s[k]
    {
      ReversedAt(Reversed(s), k);
      ReversedAt(s, |s| - 1 - k);
    }
  }

  // ---------------------------------------------------------------------
  // sort

  /** What `Comparator` / `Comparable` promise: `sgn(cmp(x, y)) ==
      -sgn(cmp(y, x))`, and "at most" is transitive. Together these are the
      whole contract: "at most" is total, and the sign of `cmp(x, y)` is
      fixed by it. */
  ghost predicate IsComparator<X(!new)>(cmp: (X, X) -> int) {
    && (forall x, y :: cmp(x, y) < 0 <==> cmp(y, x) > 0)
    && (forall x, y, z :: Transitive3(cmp, x, y, z))
  }

  /** A comparator that answers "less" for every pair breaks the sign rule,
      so the sorts' precondition does not admit it. */
  lemma AlwaysLessIsNotComparator()
    ensures !IsComparator((x: int, y: int) => -1)
  {
    var cmp := (x: int, y: int) => -1;
    assert cmp(0, 0) < 0 && !(cmp(0, 0) > 0);
  }

  /** Transitivity at one triple; proofs name the triple they need. */
  ghost predicate Transitive3<X>(cmp: (X, X) -> int, x: X, y: X, z: X) {
    cmp(x, y) <= 0 && cmp(y, z) <= 0 ==> cmp(x, z) <= 0
  }

  ghost predicate SortedBy<X>(cmp: (X, X) -> int, s: seq<X>) {
    forall i, j :: 0 <= i < j < |s| ==> cmp(s[i], s[j]) <= 0
  }

  /** The natural order of the values, with `null` first; only used where no
      `null` takes part, since `compareTo` throws on `null`. */
  function NaturalOrder<T>(compare: (T, T) -> int): (Option<T>, Option<T>) -> int {
    (a: Option<T>, b: Option<T>) =>
      if a.Some? && b.Some? then compare(a.value, b.value)
      else if a.None? && b.None? then 0
      else if a.None? then -1
      else 1
  }

  lemma NaturalOrderIsComparator<T(!new)>(compare: (T, T) -> int)
    requires IsComparator(compare)
    ensures IsComparator(NaturalOrder(compare))
  {
    var cmp := NaturalOrder(compare);
    forall x, y, z
      ensures Transitive3(cmp, x, y, z)
    {
      if x.Some? && y.Some? && z.Some? {
        assert Transitive3(compare, x.value, y.value, z.value);
      }
    }
  }

  /** Exchange two adjacent slots. */
  method SwapDown<X>(a: array<X>, j: nat)
    requires 0 < j < a.Length
    modifies a
    ensures a[j - 1] == old(a[j]) && a[j] == old(a[j - 1])
    ensures forall k :: 0 <= k < a.Length && k != j - 1 && k != j ==> a[k] == old(a[k])
    ensures multiset(a[..]) == multiset(old(a[..]))
  {
    a[j - 1], a[j] := a[j], a[j - 1];
  }

  /** Exchange two slots. */
  method Swap<X>(a: array<X>, i: nat, j: nat)
    requires i < a.Length && j < a.Length
    modifies a
    ensures a[..] == old(a[..])[i := old(a[j])][j := old(a[i])]
  {
    a[i], a[j] := a[j], a[i];
  }

  /** One step of insertion sort: move `a[i]` left past every larger value,
      so that the sorted run `a[..i]` becomes the sorted run `a[..i + 1]`. */
  method InsertAt<X(!new)>(a: array<X>, i: nat, cmp: (X, X) -> int)
    requires i < a.Length && IsComparator(cmp)
    requires forall p, q :: 0 <= p < q < i ==> cmp(a[p], a[q]) <= 0
    modifies a
    ensures forall p, q :: 0 <= p < q <= i ==> cmp(a[p], a[q]) <= 0
    ensures multiset(a[..]) == multiset(old(a[..]))
    ensures forall k :: i < k < a.Length ==> a[k] == old(a[k])
  {
    var j := i;
    while j > 0 && cmp(a[j - 1], a[j]) > 0
      invariant 0 <= j <= i
      invariant forall p, q :: 0 <= p < q <= i && p != j && q != j ==> cmp(a[p], a[q]) <= 0
      invariant forall q :: j < q <= i ==> cmp(a[j], a[q]) <= 0
      invariant multiset(a[..]) == multiset(old(a[..]))
      invariant forall k :: i < k < a.Length ==> a[k] == old(a[k])
    {
      SwapDown(a, j);
      j := j - 1;
    }
    forall p | 0 <= p < j
      ensures cmp(a[p], a[j]) <= 0
    {
      if p < j - 1 {
        assert Transitive3(cmp, a[p], a[j - 1], a[j]);
      }
    }
  }

  /** Two permutations of each other that agree from `n` on are permutations
      of each other up to `n`. */
  lemma SamePrefixMultiset<X>(s: seq<X>, t: seq<X>, n: nat)
    requires n <= |s| == |t| && multiset(s) == multiset(t) && s[n..] == t[n..]
    ensures multiset(s[..n]) == multiset(t[..n])
  {
    assert s == s[..n] + s[n..];
    assert t == t[..n] + t[n..];
    forall x ensures multiset(s[..n])[x] == multiset(t[..n])[x] {
      assert (multiset(s[..n]) + multiset(s[n..]))[x] == (multiset(t[..n]) + multiset(t[n..]))[x];
    }
  }

  /** `s` with the outer `i` pairs of its first `n` elements exchanged: the
      state of an in-place reversal of `s[..n]` after `i` steps. */
  ghost function HalfReversed<X>(s: seq<X>, n: nat, i: nat): (r: seq<X>)
    requires n <= |s|
    ensures |r| == |s|
  {
    seq(|s|, k requires 0 <= k < |s| => if k < n && (k < i || n - i <= k) then s[n - 1 - k] else s[k])
  }

  /** A sequence whose first `n` elements mirror those of another holds the
      reversal of that prefix. */
  lemma ReversedPrefix<X>(s: seq<X>, t: seq<X>, n: nat)
    requires n <= |s| && n <= |t|
    requires forall k :: 0 <= k < n ==> s[k] == t[n - 1 - k]
    ensures s[..n] == Reversed(t[..n])
  {
    forall k | 0 <= k < n
      ensures s[..n][k] == Reversed(t[..n])[k]
    {
      ReversedAt(t[..n], k);
    }
  }

  /** `Arrays.sort(a, 0, n, cmp)`: the first `n` slots become a sorted
      permutation of themselves; the others are untouched. */
  method SortPrefix<X(!new)>(a: array<X>, n: nat, cmp: (X, X) -> int)
    requires n <= a.Length && IsComparator(cmp)
    modifies a
    ensures SortedBy(cmp, a[..n])
    ensures multiset(a[..n]) == multiset(old(a[..n]))
    ensures a[n..] == old(a[n..])
  {
    var i := 0;
    while i < n
      invariant 0 <= i <= n
      invariant forall p, q :: 0 <= p < q < i ==> cmp(a[p], a[q]) <= 0
      invariant multiset(a[..]) == multiset(old(a[..]))
      invariant forall k :: n <= k < a.Length ==> a[k] == old(a[k])
    {
      InsertAt(a, i, cmp);
      i := i + 1;
    }
    assert a[n..] == old(a[n..]);
    SamePrefixMultiset(a[..], old(a[..]), n);
  }

  // ---------------------------------------------------------------------

  class BasicColumn<T(==, !new)> {
    var name: Option<JString>
    var values: array<Option<T>>
    var size: nat
    /** `compareTo` of the element type, the order `sort()` uses. */
    const compare: (T, T) -> int

    ghost function State(): Buffer<T>
      reads this, values
    {
      Buffer(values[..], size)
    }

    ghost predicate Valid()
      reads this
    {
      size <= values.Length
    }

    ghost function Contents(): seq<Option<T>>
      reads this, values
      requires Valid()
    {
      values[..size]
    }

    /** `BasicColumn(name)`: an empty column of capacity `INIT_SIZE`. */
    constructor (name: Option<JString>, compare: (T, T) -> int)
      ensures this.name == name && this.compare == compare
      ensures fresh(values) && State() == Buffer(Nulls(InitSize), 0)
    {
      this.name := name;
      this.compare := compare;
      values := new Option<T>[InitSize](_ => None);
      size := 0;
    }

    /** `BasicColumn(name, values)`: a full column over the given array, which
        it keeps (not a copy). */
    constructor FromArray(name: Option<JString>, values: array<Option<T>>, compare: (T, T) -> int)
      ensures this.name == name && this.compare == compare
      ensures this.values == values && size == values.Length
    {
      this.name := name;
      this.compare := compare;
      this.values := values;
      size := values.Length;
    }

    /** `size()`. */
    function Size(): (r: nat)
      reads this
      ensures Valid() ==> r == |Contents()|
    {
      size
    }

    /** `isEmpty()`. */
    function IsEmpty(): (r: bool)
      reads this
      ensures Valid() ==> (r <==> Contents() == [])
    {
      size == 0
    }

    /** `get(index)`: checked against the array, not against `size`. */
    function Get(index: int): (r: Result<Option<T>>)
      reads this, values
      ensures r.Ok? <==> 0 <= index < values.Length
      ensures r.Err? ==> r.error == IndexOutOfBounds(index)
      ensures Valid() && 0 <= index < size ==> r == Ok(Contents()[index])
    {
      if 0 <= index < values.Length then Ok(values[index]) else Err(IndexOutOfBounds(index))
    }

    /** `set(index, value)`: checked against the array, not against `size`. */
    method Set(index: int, value: Option<T>) returns (r: Outcome)
      modifies values
      ensures 0 <= index < values.Length ==> r == Pass && values[..] == old(values[..])[index := value]
      ensures !(0 <= index < values.Length) ==> r == Fail(IndexOutOfBounds(index)) && values[..] == old(values[..])
    {
      if 0 <= index < values.Length {
        values[index] := value;
        r := Pass;
      } else {
        r := Fail(IndexOutOfBounds(index));
      }
    }

    /** `append(x)`. `Arrays.copyOf` leaves the array it copies alone, so the
        old array is written (at slot `size` only) just when it is kept. */
    method Append(x: Option<T>) returns (r: Outcome)
      requires values.Length <= IntMax
      modifies this, values
      ensures (State(), r) == AppendStep(old(State()), x)
      ensures name == old(name) && (values == old(values) || fresh(values))
      ensures values != old(values) ==> old(values)[..] == old(values[..])
      ensures forall i :: 0 <= i < old(values.Length) && i != old(size) ==> old(values)[i] == old(values[i])
      ensures values != old(values) ==>
                old(size) == old(values.Length) <= values.Length <= IntMax && values[..old(values.Length)] == old(values[..])
    {
      if size == values.Length {
        var old_values := values;
        var length := Grow(values.Length);
        values := new Option<T>[length](i reads old_values => if 0 <= i < old_values.Length then old_values[i] else None);
        assert values[..] == Resized(old_values[..], length);
      }
      var index := size;
      size := size + 1;
      if index < values.Length {
        values[index] := x;
        r := Pass;
      } else {
        r := Fail(IndexOutOfBounds(index));
      }
    }

    /** `appendAll(xs)`. The values in use before the call are never
        overwritten; an array that growth replaces keeps what had been stored
        in it, which is also what its copy starts with. */
    method AppendAll(xs: seq<Option<T>>) returns (r: Outcome)
      requires values.Length <= IntMax
      modifies this, values
      ensures (State(), r) == AppendAllSpec(old(State()), xs)
      ensures name == old(name) && (values == old(values) || fresh(values))
      ensures forall i :: 0 <= i < old(values.Length) && i < old(size) ==> old(values)[i] == old(values[i])
      ensures values != old(values) ==>
                old(values.Length) <= values.Length && old(values)[..] == values[..old(values.Length)]
    {
      var i := 0;
      while i < |xs|
        invariant 0 <= i <= |xs|
        invariant name == old(name) && (values == old(values) || fresh(values))
        invariant old(size) <= size && values.Length <= IntMax
        invariant forall k :: 0 <= k < old(values.Length) && k < old(size) ==> old(values)[k] == old(values[k])
        invariant values != old(values) ==>
                    old(values.Length) <= size && old(values.Length) <= values.Length
                    && old(values)[..] == values[..old(values.Length)]
        invariant AppendAllSpec(old(State()), xs) == AppendAllSpec(State(), xs[i..])
      {
        assert xs[i..][0] == xs[i] && xs[i..][1..] == xs[i + 1..];
        var out := Append(xs[i]);
        if out.Fail? {
          return out;
        }
        i := i + 1;
      }
      return Pass;
    }

    /** `map(f)`: replace each value in use by its image, in place. */
    method Map(f: Option<T> -> Option<T>)
      requires Valid()
      modifies values
      ensures Contents() == MapAll(f, old(Contents()))
      ensures values[size..] == old(values[size..])
    {
      var i := 0;
      while i < size
        invariant 0 <= i <= size
        invariant forall k :: 0 <= k < i ==> values[k] == f(old(values[k]))
        invariant forall k :: i <= k < values.Length ==> values[k] == old(values[k])
      {
        values[i] := f(values[i]);
        i := i + 1;
      }
      MapAllAt(f, old(values[..size]));
    }

    /** `reverse()`: reverse the values in use, in place. When `size` is
        past the capacity, the first swap reads `values[0]` and then
        `values[size - 1]`, and one of them throws before anything moves. */
    method Reverse() returns (r: Outcome)
      modifies values
      ensures Valid() ==> r == Pass && Contents() == Reversed(old(Contents()))
      ensures Valid() ==> values[size..] == old(values[size..])
      ensures !Valid() ==> values[..] == old(values[..])
      ensures !Valid() ==> r == if size / 2 == 0 then Pass
                                else Fail(IndexOutOfBounds(if values.Length == 0 then 0 else size - 1))
    {
      if size > values.Length {
        if size / 2 == 0 {
          return Pass;
        }
        return Fail(IndexOutOfBounds(if values.Length == 0 then 0 else size - 1));
      }
      var a, n := values, size;
      ghost var before := a[..];
      var i := 0;
      while i < n / 2
        invariant 0 <= i <= n / 2 && a == values
        invariant a[..] == HalfReversed(before, n, i)
      {
        Swap(a, i, n - 1 - i);
        assert a[..] == HalfReversed(before, n, i + 1);
        i := i + 1;
      }
      ReversedPrefix(a[..], before, n);
      assert a[n..] == before[n..];
      return Pass;
    }

    /** `sort(comparator)`. `Arrays.sort` first checks the range against the
        array and throws `ArrayIndexOutOfBoundsException(size)` when `size`
        is past the capacity; a `null` comparator means the natural order,
        that is `sort()`. */
    method SortWith(cmp: Option<(Option<T>, Option<T>) -> int>) returns (r: Outcome)
      requires cmp.Some? ==> IsComparator(cmp.value)
      requires cmp.None? ==> IsComparator(compare)
      modifies values
      ensures !Valid() ==> r == Fail(IndexOutOfBounds(size)) && values[..] == old(values[..])
      ensures Valid() && cmp.Some? ==> r == Pass && SortedBy(cmp.value, Contents())
      ensures Valid() && cmp.None? ==> (r.Fail? <==> size >= 2 && None in old(Contents()))
      ensures Valid() && cmp.None? && r.Pass? ==> SortedBy(NaturalOrder(compare), Contents())
      ensures Valid() && r.Fail? ==> r == Fail(NullPointer) && values[..] == old(values[..])
      ensures Valid() ==> multiset(Contents()) == multiset(old(Contents()))
      ensures Valid() ==> values[size..] == old(values[size..])
    {
      if cmp.None? {
        r := Sort();
        return;
      }
      if size > values.Length {
        return Fail(IndexOutOfBounds(size));
      }
      SortPrefix(values, size, cmp.value);
      return Pass;
    }

    /** `sort()`: the natural order, which throws on a `null` once there are
        two values to compare; the range is checked first, as for `sort(c)`. */
    method Sort() returns (r: Outcome)
      requires IsComparator(compare)
      modifies values
      ensures !Valid() ==> r == Fail(IndexOutOfBounds(size)) && values[..] == old(values[..])
      ensures Valid() ==> (r.Fail? <==> size >= 2 && None in old(Contents()))
      ensures Valid() && r.Fail? ==> r == Fail(NullPointer) && values[..] == old(values[..])
      ensures Valid() && r.Pass? ==> SortedBy(NaturalOrder(compare), Contents())
      ensures Valid() ==> multiset(Contents()) == multiset(old(Contents()))
      ensures Valid() ==> values[size..] == old(values[size..])
    {
      if size > values.Length {
        return Fail(IndexOutOfBounds(size));
      }
      if size >= 2 && None in values[..size] {
        return Fail(NullPointer);
      }
      NaturalOrderIsComparator(compare);
      SortPrefix(values, size, NaturalOrder(compare));
      return Pass;
    }

    /** `clear()`: a new empty array of capacity `INIT_SIZE`. */
    method Clear()
      modifies this
      ensures name == old(name) && fresh(values)
      ensures State() == Buffer(Nulls(InitSize), 0)
    {
      values := new Option<T>[InitSize](_ => None);
      size := 0;
    }

    /** `contains(o)`: looks through the whole backing array, so unused slots
        (usually `null`) count too. */
    function Contains(o: Option<T>): (r: bool)
      reads this, values
      ensures r <==> exists i :: 0 <= i < values.Length && values[i] == o
      ensures Valid() ==> (r <==> o in Contents() || o in values[size..])
    {
      assert Valid() ==> values[..] == values[..size] + values[size..];
      o in values[..]
    }

    /** `containsAll(c)`: every element of `c` is somewhere in the backing array. */
    function ContainsAll(c: seq<Option<T>>): (r: bool)
      reads this, values
      ensures r <==> forall o :: o in c ==> Contains(o)
    {
      forall o :: o in c ==> o in values[..]
    }

    /** `iterator()`. */
    method Iterator() returns (it: ColumnIterator<T>)
      ensures fresh(it) && it.column == this && it.index == 0
    {
      it := new ColumnIterator(this);
    }
  }

  /** The iterator `iterator()` returns: it reads the column's current array
      and size at every call. */
  class ColumnIterator<T(==, !new)> {
    const column: BasicColumn<T>
    var index: int

    constructor (column: BasicColumn<T>)
      ensures this.column == column && index == 0
    {
      this.column := column;
      index := 0;
    }

    /** `hasNext()`. */
    function HasNext(): (r: bool)
      reads this, column
      ensures r <==> index < column.size
    {
      index < column.size
    }

    /** `next()`: `values[index++]`, checked against the array only. */
    method Next() returns (r: Result<Option<T>>)
      modifies this
      ensures index == old(index) + 1
      ensures r == column.Get(old(index))
    {
      r := column.Get(index);
      index := index + 1;
    }
  }

  /** What a for-each loop over a column sees: exactly the values in use, in
      order. */
  method Elements<T(==, !new)>(c: BasicColumn<T>) returns (xs: seq<Option<T>>)
    requires c.Valid()
    ensures xs == c.Contents()
  {
    var it := c.Iterator();
    xs := [];
    while it.HasNext()
      invariant 0 <= it.index <= c.size
      invariant xs == c.values[..it.index]
      decreases c.size - it.index
    {
      var v := it.Next();
      xs := xs + [v.value];
    }
  }
}
