/** `DataFrameHeader`: the ordered list of column names of a data frame, with
    a name -> position map and name -> value class / column class maps.

    The Java class keeps four collections in step by hand. `add` does not
    reject a name that is already present, and `remove` renumbers by walking
    the list; both are modelled as written, so a header can reach states in
    which the position map is no longer the inverse of the list. Names may be
    `null`, and `remove` throws when its search meets a `null` entry. */
module Header {
  import opened JavaLang
  import opened Outcomes
  import opened Values

  /** The four collections of a header: `headers`, `headerMap`, `typesMap`, `colTypeMap`. */
  datatype Schema = Schema(
    names: seq<Name>,
    positions: map<Name, int>,
    types: map<Name, Option<ValueClass>>,
    kinds: map<Name, Option<ColumnKind>>)

  const Empty: Schema := Schema([], map[], map[], map[])

  /** The position map is the inverse of the name list (so names are unique). */
  ghost predicate Inverse(names: seq<Name>, positions: map<Name, int>) {
    && (forall i :: 0 <= i < |names| ==> names[i] in positions && positions[names[i]] == i)
    && (forall k :: k in positions ==> 0 <= positions[k] < |names| && names[positions[k]] == k)
  }

  /** The header invariant: every name resolves to its own position, every
      resolvable name has a value class entry, and a column class entry (the
      column class map may also keep entries that `clear` left behind). */
  ghost predicate Valid(s: Schema) {
    && Inverse(s.names, s.positions)
    && (forall k :: k in s.positions <==> k in s.types)
    && (forall k :: k in s.positions ==> k in s.kinds)
  }

  /** `getIndex(name)`: the mapped position, or -1 for an unknown name. */
  function IndexOf(s: Schema, name: Name): int {
    if name in s.positions then s.positions[name] else -1
  }

  /** `getType(name)`: `typesMap.get(name)`, `null` for an unknown name. */
  function TypeOf(s: Schema, name: Name): Option<ValueClass> {
    if name in s.types then s.types[name] else None
  }

  /** `getColumnType(name)`: `colTypeMap.get(name)`, `null` for an unknown name. */
  function KindOf(s: Schema, name: Name): Option<ColumnKind> {
    if name in s.kinds then s.kinds[name] else None
  }

  /** `add(name, colClass, type)`: append the name and point all three maps at it. */
  function AddSpec(s: Schema, name: Name, kind: Option<ColumnKind>, vtype: Option<ValueClass>): Schema {
    Schema(s.names + [name], s.positions[name := |s.names|], s.types[name := vtype], s.kinds[name := kind])
  }

  /** The state of the renumbering loop of `remove`: the position map so far,
      whether the removed name has been passed, and whether the loop threw. */
  datatype Renumbering = Renumbering(positions: map<Name, int>, fixing: bool, failed: bool)

  /** The renumbering loop of `remove(name)`, from list index `i` on: once the
      first occurrence of `name` has been passed, every later entry's mapped
      position is decremented; an entry without a mapped position makes the
      unboxing `headerMap.get(s) - 1` throw. Before that occurrence, a `null`
      entry makes `s.equals(name)` throw. */
  function Renumber(names: seq<Name>, i: nat, acc: Renumbering, name: Name): Renumbering
    requires i <= |names|
    decreases |names| - i
  {
    if i == |names| || acc.failed then acc
    else
      var s := names[i];
      if !acc.fixing && s.None? then
        Renumbering(acc.positions, false, true)
      else if !acc.fixing && s == name then
        Renumber(names, i + 1, Renumbering(acc.positions, true, false), name)
      else if acc.fixing then
        if s in acc.positions then
          Renumber(names, i + 1, Renumbering(acc.positions[s := acc.positions[s] - 1], true, false), name)
        else
          Renumbering(acc.positions, true, true)
      else
        Renumber(names, i + 1, acc, name)
  }

  /** `List.remove(Object)`: drop the first occurrence, if any. */
  function RemoveFirst(names: seq<Name>, name: Name): seq<Name> {
    if names == [] then []
    else if names[0] == name then names[1..]
    else [names[0]] + RemoveFirst(names[1..], name)
  }

  /** `remove(name)`: renumber, then drop the name from the list and all three
      maps; if renumbering threw, only the map updates made so far remain. */
  function RemoveSpec(s: Schema, name: Name): (Schema, Outcome) {
    var r := Renumber(s.names, 0, Renumbering(s.positions, false, false), name);
    if r.failed then
      (Schema(s.names, r.positions, s.types, s.kinds), Fail(NullPointer))
    else
      (Schema(RemoveFirst(s.names, name), r.positions - {name}, s.types - {name}, s.kinds - {name}), Pass)
  }

  /** `clear()`: empties the list, the position map and the value class map,
      but leaves the column class map as it was. */
  function ClearSpec(s: Schema): Schema {
    Schema([], map[], map[], s.kinds)
  }

  /** `clear()` leaves a valid, empty header in which no name resolves and no
      name has a value class, while every column class stays as it was. */
  lemma ClearEmpties(s: Schema)
    ensures var t := ClearSpec(s);
      && Valid(t) && |t.names| == 0
      && (forall n :: IndexOf(t, n) == -1 && TypeOf(t, n) == None)
      && (forall n :: KindOf(t, n) == KindOf(s, n))
  {
  }

  /** The header `equals` compares: same size, and every name of `a` is known
      to `b` with the identical value class; positions and column classes are
      not compared. */
  predicate SchemaEquals(a: Schema, b: Schema) {
    && |a.names| == |b.names|
    && forall i :: 0 <= i < |a.names| ==> a.names[i] in b.positions && TypeOf(a, a.names[i]) == TypeOf(b, a.names[i])
  }

  /** `copy()`: a fresh header to which the first `j` names of `s` are added
      in order, each with the original's column class and value class. */
  function Rebuild(s: Schema, j: nat): Schema
    requires j <= |s.names|
  {
    if j == 0 then Empty
    else
      var n := s.names[j - 1];
      AddSpec(Rebuild(s, j - 1), n, KindOf(s, n), TypeOf(s, n))
  }

  // ---------------------------------------------------------------------
  // add

  /** Adding a new name places it at the old size and keeps the invariant. */
  lemma AddFresh(s: Schema, name: Name, kind: Option<ColumnKind>, vtype: Option<ValueClass>)
    requires Valid(s) && name !in s.positions
    ensures var t := AddSpec(s, name, kind, vtype);
      && Valid(t) && |t.names| == |s.names| + 1
      && t.names[|s.names|] == name && IndexOf(t, name) == |s.names|
      && TypeOf(t, name) == vtype && KindOf(t, name) == kind
      && forall k :: k in s.positions ==> IndexOf(t, k) == IndexOf(s, k)
  {
    var t := AddSpec(s, name, kind, vtype);
    forall i | 0 <= i < |t.names|
      ensures t.names[i] in t.positions && t.positions[t.names[i]] == i
    {
      if i < |s.names| {
        assert t.names[i] == s.names[i];
      }
    }
  }

  /** Adding a name that is already present is not rejected: the list gets a
      second entry, the maps are repointed to it, and the invariant is lost. */
  lemma AddDuplicate(s: Schema, name: Name, kind: Option<ColumnKind>, vtype: Option<ValueClass>)
    requires Valid(s) && name in s.positions
    ensures var t := AddSpec(s, name, kind, vtype);
      && t.names == s.names + [name] && t.names[IndexOf(s, name)] == name
      && IndexOf(t, name) == |s.names|
      && !Valid(t)
  {
    var t := AddSpec(s, name, kind, vtype);
    var p := s.positions[name];
    assert t.names[p] == name && t.positions[name] != p;
  }

  // ---------------------------------------------------------------------
  // remove

  /** The position map after renumbering up to (not including) list index `j`,
      when `name` sits at index `p`: entries strictly between `p` and `j` have
      moved down by one. */
  function Shifted(positions: map<Name, int>, p: int, j: int): map<Name, int> {
    map k | k in positions :: if p < positions[k] < j then positions[k] - 1 else positions[k]
  }

  function Stage(positions: map<Name, int>, p: int, j: int): Renumbering {
    if j <= p then Renumbering(positions, false, false) else Renumbering(Shifted(positions, p, j), true, false)
  }

  lemma {:induction false} RenumberShifts(names: seq<Name>, positions: map<Name, int>, name: Name, p: nat, j: nat)
    requires Inverse(names, positions)
    requires p < |names| && names[p] == name && j <= |names|
    requires forall i :: 0 <= i <= p ==> names[i].Some?
    ensures Renumber(names, j, Stage(positions, p, j), name) == Renumbering(Shifted(positions, p, |names|), true, false)
    decreases |names| - j
  {
    if j < |names| {
      var s := names[j];
      if j < p {
        assert s != name;
      } else if j == p {
        assert Shifted(positions, p, p + 1) == positions;
      } else {
        assert s != name;
        assert Shifted(positions, p, j)[s := j - 1] == Shifted(positions, p, j + 1);
      }
      RenumberShifts(names, positions, name, p, j + 1);
    }
  }

  lemma {:induction false} RemoveFirstAt(names: seq<Name>, name: Name, p: nat)
    requires p < |names| && names[p] == name
    requires forall i :: 0 <= i < p ==> names[i] != name
    ensures RemoveFirst(names, name) == names[..p] + names[p + 1..]
  {
    if p > 0 {
      RemoveFirstAt(names[1..], name, p - 1);
      assert names[1..][..p - 1] == names[1..p];
      assert names[..p] == [names[0]] + names[1..p];
    }
  }

  /** Dropping the entry at `p` and shifting the later positions down keeps
      the position map the inverse of the list. */
  lemma ShiftedRemovedInverse(names: seq<Name>, positions: map<Name, int>, p: nat)
    requires Inverse(names, positions) && p < |names|
    ensures Inverse(names[..p] + names[p + 1..], Shifted(positions, p, |names|) - {names[p]})
  {
    var ns := names[..p] + names[p + 1..];
    var ps := Shifted(positions, p, |names|) - {names[p]};
    forall i | 0 <= i < |ns|
      ensures ns[i] in ps && ps[ns[i]] == i
    {
      if i < p {
        assert ns[i] == names[i];
      } else {
        assert ns[i] == names[i + 1];
      }
    }
    forall k | k in ps
      ensures 0 <= ps[k] < |ns| && ns[ps[k]] == k
    {
      var q := positions[k];
      assert names[q] == k && q != p;
      if q > p {
        assert ns[q - 1] == names[q];
      } else {
        assert ns[q] == names[q];
      }
    }
  }

  /** No list entry up to and including index `p` is `null`. */
  predicate NoNullUpTo(names: seq<Name>, p: int) {
    forall i :: 0 <= i <= p && i < |names| ==> names[i].Some?
  }

  /** What `remove` of a present name does to a valid header, as a state. */
  lemma RemovePresentState(s: Schema, name: Name)
    requires Valid(s) && name in s.positions && NoNullUpTo(s.names, s.positions[name])
    ensures var p := s.positions[name];
      RemoveSpec(s, name) == (Schema(s.names[..p] + s.names[p + 1..], Shifted(s.positions, p, |s.names|) - {name},
                                     s.types - {name}, s.kinds - {name}), Pass)
  {
    var p: nat := s.positions[name];
    RenumberShifts(s.names, s.positions, name, p, 0);
    RemoveFirstAt(s.names, name, p);
  }

  /** `remove` of a present name of a valid header: later positions move down
      by one, earlier ones stay, the name becomes unresolvable, the size drops
      by one, and the position map is still the inverse of the list. */
  lemma RemovePresent(s: Schema, name: Name)
    requires Valid(s) && name in s.positions && NoNullUpTo(s.names, s.positions[name])
    ensures var (t, out) := RemoveSpec(s, name);
      var p := IndexOf(s, name);
      && out == Pass && Valid(t)
      && t.names == s.names[..p] + s.names[p + 1..]
      && |t.names| == |s.names| - 1
      && IndexOf(t, name) == -1 && name !in t.names
      && ClosedUp(t, s, name, p)
  {
    var p: nat := s.positions[name];
    RemovePresentState(s, name);
    RemovedAt(s, p, RemoveSpec(s, name).0);
  }

  /** `t` is `s` with `name`, which sat at position `p`, taken out: the names
      before `p` keep their positions, those after it move down by one, and
      every other name keeps its value class and column class. */
  ghost predicate ClosedUp(t: Schema, s: Schema, name: Name, p: int) {
    && (forall k :: k in s.positions && k != name && IndexOf(s, k) < p ==> IndexOf(t, k) == IndexOf(s, k))
    && (forall k :: k in s.positions && IndexOf(s, k) > p ==> IndexOf(t, k) == IndexOf(s, k) - 1)
    && (forall k :: k != name ==> TypeOf(t, k) == TypeOf(s, k) && KindOf(t, k) == KindOf(s, k))
  }

  /** The state `remove` leaves when the name at `p` goes. */
  lemma RemovedAt(s: Schema, p: nat, t: Schema)
    requires Valid(s) && p < |s.names|
    requires t == Schema(s.names[..p] + s.names[p + 1..], Shifted(s.positions, p, |s.names|) - {s.names[p]},
                         s.types - {s.names[p]}, s.kinds - {s.names[p]})
    ensures Valid(t)
    ensures |t.names| == |s.names| - 1
    ensures IndexOf(t, s.names[p]) == -1 && s.names[p] !in t.names
    ensures ClosedUp(t, s, s.names[p], p)
  {
    ShiftedRemovedInverse(s.names, s.positions, p);
  }

  lemma {:induction false} RenumberAbsent(names: seq<Name>, positions: map<Name, int>, name: Name, j: nat)
    requires j <= |names| && name !in names[j..] && None !in names[j..]
    ensures Renumber(names, j, Renumbering(positions, false, false), name) == Renumbering(positions, false, false)
    decreases |names| - j
  {
    if j < |names| {
      assert names[j] == names[j..][0];
      assert names[j + 1..] == names[j..][1..];
      RenumberAbsent(names, positions, name, j + 1);
    }
  }

  lemma {:induction false} RemoveFirstAbsent(names: seq<Name>, name: Name)
    requires name !in names
    ensures RemoveFirst(names, name) == names
  {
    if names != [] {
      RemoveFirstAbsent(names[1..], name);
    }
  }

  /** `remove` of an unknown name leaves a valid header unchanged, except that
      a column class entry left behind by `clear` is dropped. */
  lemma RemoveAbsent(s: Schema, name: Name)
    requires Valid(s) && name !in s.positions && None !in s.names
    ensures var (t, out) := RemoveSpec(s, name);
      && out == Pass
      && t == s.(kinds := s.kinds - {name})
      && (name !in s.kinds ==> t == s)
  {
    assert name !in s.names;
    assert s.names[0..] == s.names;
    RenumberAbsent(s.names, s.positions, name, 0);
    RemoveFirstAbsent(s.names, name);
  }

  lemma {:induction false} RenumberReachesNull(names: seq<Name>, positions: map<Name, int>, name: Name, q: nat, j: nat)
    requires q < |names| && names[q].None? && j <= q
    requires forall i :: j <= i < q ==> names[i].Some? && names[i] != name
    ensures Renumber(names, j, Renumbering(positions, false, false), name) == Renumbering(positions, false, true)
    decreases q - j
  {
    if j < q {
      RenumberReachesNull(names, positions, name, q, j + 1);
    }
  }

  /** `remove` throws a `NullPointerException` as soon as it meets a `null`
      entry before the first occurrence of the name (or at it, for a `null`
      name), and leaves the header exactly as it was. */
  lemma RemoveMeetsNull(s: Schema, name: Name, q: nat)
    requires q < |s.names| && s.names[q].None?
    requires forall i :: 0 <= i < q ==> s.names[i].Some? && s.names[i] != name
    ensures RemoveSpec(s, name) == (s, Fail(NullPointer))
  {
    RenumberReachesNull(s.names, s.positions, name, q, 0);
  }

  /** A column added under `null` makes every later `remove` throw, whether of
      a present name after it, of an unknown name, or of `null` itself. */
  lemma RemoveAfterNullNameThrows(a: Name, name: Name)
    requires a.Some?
    ensures var s := AddSpec(AddSpec(Empty, None, None, None), a, None, None);
      && Valid(s) && IndexOf(s, a) == 1
      && RemoveSpec(s, name) == (s, Fail(NullPointer))
  {
    var s := AddSpec(AddSpec(Empty, None, None, None), a, None, None);
    assert s.names == [None, a];
    RemoveMeetsNull(s, name, 0);
    forall i | 0 <= i < |s.names|
      ensures s.names[i] in s.positions && s.positions[s.names[i]] == i
    {
    }
  }

  /** Adding a name twice and then removing it leaves one entry in the list
      that the position map no longer resolves. */
  lemma DuplicateThenRemove(a: Name)
    requires a.Some?
    ensures var s := AddSpec(AddSpec(Empty, a, None, None), a, None, None);
      var (t, out) := RemoveSpec(s, a);
      && s.names == [a, a] && IndexOf(s, a) == 1
      && out == Pass && t.names == [a] && IndexOf(t, a) == -1
      && !Valid(t)
  {
    var s := AddSpec(AddSpec(Empty, a, None, None), a, None, None);
    assert s.names == [a, a];
    var r1 := Renumber(s.names, 1, Renumbering(s.positions, true, false), a);
    assert r1 == Renumber(s.names, 2, Renumbering(s.positions[a := 0], true, false), a);
  }

  /** After that, removing a name that precedes the orphaned entry throws a
      `NullPointerException` part-way, with the list left as it was. */
  lemma RemoveAfterOrphanThrows(a: Name, x: Name)
    requires a.Some? && x.Some? && a != x
    ensures var s := AddSpec(AddSpec(AddSpec(Empty, a, None, None), x, None, None), a, None, None);
      var (t, out1) := RemoveSpec(s, a);
      var (u, out2) := RemoveSpec(t, x);
      && out1 == Pass && t.names == [x, a] && a !in t.positions
      && out2 == Fail(NullPointer) && u.names == t.names
  {
    var s := AddSpec(AddSpec(AddSpec(Empty, a, None, None), x, None, None), a, None, None);
    assert s.names == [a, x, a];
    var m := s.positions;
    assert Renumber(s.names, 0, Renumbering(m, false, false), a)
        == Renumber(s.names, 1, Renumbering(m, true, false), a);
    assert Renumber(s.names, 1, Renumbering(m, true, false), a)
        == Renumber(s.names, 2, Renumbering(m[x := 0], true, false), a);
    assert Renumber(s.names, 2, Renumbering(m[x := 0], true, false), a)
        == Renumber(s.names, 3, Renumbering(m[x := 0][a := 1], true, false), a);
    assert RemoveFirst(s.names, a) == [x, a];
    var (t, _) := RemoveSpec(s, a);
    assert t.positions == map[x := 0];
    assert Renumber(t.names, 0, Renumbering(t.positions, false, false), x)
        == Renumber(t.names, 1, Renumbering(t.positions, true, false), x);
  }

  // ---------------------------------------------------------------------
  // equals and copy

  /** A valid header equals a header with the same state. */
  lemma EqualsReflexive(s: Schema)
    requires Valid(s)
    ensures SchemaEquals(s, s)
  {
  }

  lemma {:induction false} DistinctCard(xs: seq<Name>)
    requires forall i, j :: 0 <= i < j < |xs| ==> xs[i] != xs[j]
    ensures |set x | x in xs| == |xs|
  {
    if xs != [] {
      var init := xs[..|xs| - 1];
      DistinctCard(init);
      assert (set x | x in xs) == (set x | x in init) + {xs[|xs| - 1]};
    }
  }

  /** In a valid header there are as many resolvable names as list entries. */
  lemma ResolvableCount(s: Schema)
    requires Valid(s)
    ensures |s.positions.Keys| == |s.names|
  {
    assert s.positions.Keys == set x | x in s.names;
    DistinctCard(s.names);
  }

  lemma SubsetOfSameSize(a: set<Name>, b: set<Name>)
    requires a <= b && |a| == |b|
    ensures a == b
  {
    assert b == a + (b - a);
    assert |b - a| == 0;
  }

  /** Between valid headers the comparison is symmetric: equal sizes and
      unique names make "every name of a is in b" force the converse. */
  lemma EqualsSymmetric(a: Schema, b: Schema)
    requires Valid(a) && Valid(b) && SchemaEquals(a, b)
    ensures SchemaEquals(b, a)
  {
    ResolvableCount(a);
    ResolvableCount(b);
    assert a.positions.Keys <= b.positions.Keys by {
      forall x | x in a.positions ensures x in b.positions {
        assert a.names[a.positions[x]] == x;
      }
    }
    SubsetOfSameSize(a.positions.Keys, b.positions.Keys);
    forall i | 0 <= i < |b.names|
      ensures b.names[i] in a.positions && TypeOf(b, b.names[i]) == TypeOf(a, b.names[i])
    {
      var x := b.names[i];
      assert x in a.positions;
      assert a.names[a.positions[x]] == x;
    }
  }

  /** What `copy()` builds from any header, entry by entry. */
  lemma {:induction false} RebuildNames(s: Schema, j: nat)
    requires j <= |s.names|
    ensures Rebuild(s, j).names == s.names[..j]
  {
    if j > 0 {
      RebuildNames(s, j - 1);
      assert s.names[..j] == s.names[..j - 1] + [s.names[j - 1]];
    }
  }

  /** The three maps of `c` have the same keys. */
  ghost predicate SameKeys(c: Schema) {
    forall n :: (n in c.positions <==> n in c.types) && (n in c.types <==> n in c.kinds)
  }

  /** Every name `c` maps has the value class and column class it has in `s`. */
  ghost predicate ClassesOf(c: Schema, s: Schema) {
    forall n :: n in c.types ==> TypeOf(c, n) == TypeOf(s, n) && KindOf(c, n) == KindOf(s, n)
  }

  /** `c` maps exactly the names `s` maps below position `j`, to the same positions. */
  ghost predicate PositionsBelow(c: Schema, s: Schema, j: int) {
    && (forall n :: n in c.positions <==> n in s.positions && s.positions[n] < j)
    && (forall n :: n in c.positions ==> c.positions[n] == s.positions[n])
  }

  /** Every name in the list of `c` has a position. */
  ghost predicate NamesMapped(c: Schema) {
    forall i :: 0 <= i < |c.names| ==> c.names[i] in c.positions
  }

  lemma {:induction false} RebuildMapped(s: Schema, j: nat)
    requires j <= |s.names|
    ensures NamesMapped(Rebuild(s, j))
  {
    if j > 0 {
      RebuildMapped(s, j - 1);
      var b, c := Rebuild(s, j - 1), Rebuild(s, j);
      forall i | 0 <= i < |c.names|
        ensures c.names[i] in c.positions
      {
        if i < |b.names| {
          assert c.names[i] == b.names[i];
        }
      }
    }
  }

  lemma {:induction false} RebuildKeys(s: Schema, j: nat)
    requires j <= |s.names|
    ensures SameKeys(Rebuild(s, j))
  {
    if j > 0 {
      RebuildKeys(s, j - 1);
    }
  }

  lemma {:induction false} RebuildClasses(s: Schema, j: nat)
    requires j <= |s.names|
    ensures ClassesOf(Rebuild(s, j), s)
  {
    if j > 0 {
      RebuildClasses(s, j - 1);
    }
  }

  /** For a valid header, the partial copy after `j` names holds exactly the
      original's positions below `j`. */
  lemma {:induction false} RebuildPositions(s: Schema, j: nat)
    requires Valid(s) && j <= |s.names|
    ensures PositionsBelow(Rebuild(s, j), s, j)
  {
    if j > 0 {
      RebuildPositions(s, j - 1);
      var last := s.names[j - 1];
      var c := Rebuild(s, j);
      assert c.positions == Rebuild(s, j - 1).positions[last := j - 1];
      forall n | n in s.positions && s.positions[n] == j - 1
        ensures n == last
      {
        assert s.names[s.positions[n]] == n;
      }
    }
  }

  /** `copy()` of any header has the same names in the same order, each with
      the same value class and column class, and equals the original. */
  lemma CopySameNamesAndTypes(s: Schema)
    ensures var c := Rebuild(s, |s.names|);
      && c.names == s.names
      && (forall n :: n in s.names ==> TypeOf(c, n) == TypeOf(s, n) && KindOf(c, n) == KindOf(s, n))
      && SchemaEquals(s, c)
  {
    var c := Rebuild(s, |s.names|);
    RebuildNames(s, |s.names|);
    RebuildMapped(s, |s.names|);
    RebuildKeys(s, |s.names|);
    RebuildClasses(s, |s.names|);
    assert c.names == s.names;
    forall n | n in s.names
      ensures n in c.positions && n in c.types
    {
      var i :| 0 <= i < |s.names| && s.names[i] == n;
      assert c.names[i] == n;
    }
  }

  /** A copy of a valid header is valid, with the original's positions. */
  lemma CopyOfValid(s: Schema)
    requires Valid(s)
    ensures var c := Rebuild(s, |s.names|);
      Valid(c) && c.positions == s.positions
  {
    var c := Rebuild(s, |s.names|);
    RebuildNames(s, |s.names|);
    RebuildKeys(s, |s.names|);
    RebuildPositions(s, |s.names|);
    assert c.names == s.names;
    forall k | k in s.positions
      ensures k in c.positions
    {
      assert s.positions[k] < |s.names|;
    }
    assert c.positions == s.positions;
  }

  // ---------------------------------------------------------------------

  class DataFrameHeader {
    var headerMap: map<Name, int>
    var headers: seq<Name>
    var typesMap: map<Name, Option<ValueClass>>
    var colTypeMap: map<Name, Option<ColumnKind>>

    function State(): Schema
      reads this
    {
      Schema(headers, headerMap, typesMap, colTypeMap)
    }

    constructor ()
      ensures State() == Empty
    {
      headerMap, headers, typesMap, colTypeMap := map[], [], map[], map[];
    }

    /** `size()`: the number of list entries. */
    function Size(): (r: nat)
      reads this
      ensures Valid(State()) ==> r == |headerMap|
    {
      assert Valid(State()) ==> |headerMap| == |headers| by {
        if Valid(State()) {
          ResolvableCount(State());
        }
      }
      |headers|
    }

    /** `add(name, colClass, type)`. */
    method Add(name: Name, kind: Option<ColumnKind>, vtype: Option<ValueClass>)
      modifies this
      ensures State() == AddSpec(old(State()), name, kind, vtype)
    {
      var index := |headers|;
      headers := headers + [name];
      headerMap := headerMap[name := index];
      typesMap := typesMap[name := vtype];
      colTypeMap := colTypeMap[name := kind];
    }

    /** `remove(name)`. */
    method Remove(name: Name) returns (r: Outcome)
      modifies this
      ensures (State(), r) == RemoveSpec(old(State()), name)
    {
      var fix := false;
      var i := 0;
      while i < |headers|
        invariant 0 <= i <= |headers|
        invariant headers == old(headers) && typesMap == old(typesMap) && colTypeMap == old(colTypeMap)
        invariant Renumber(headers, 0, Renumbering(old(headerMap), false, false), name)
               == Renumber(headers, i, Renumbering(headerMap, fix, false), name)
      {
        var s := headers[i];
        if !fix && s.None? {
          // s.equals(name) on a null entry
          return Fail(NullPointer);
        }
        if !fix && s == name {
          fix := true;
        } else if fix {
          if s !in headerMap {
            // headerMap.get(s) is null, and unboxing it throws
            return Fail(NullPointer);
          }
          headerMap := headerMap[s := headerMap[s] - 1];
        }
        i := i + 1;
      }
      headers := RemoveFirst(headers, name);
      headerMap := headerMap - {name};
      typesMap := typesMap - {name};
      colTypeMap := colTypeMap - {name};
      return Pass;
    }

    /** `clear()`. */
    method Clear()
      modifies this
      ensures State() == ClearSpec(old(State()))
    {
      headerMap := map[];
      headers := [];
      typesMap := map[];
    }

    /** `getIndex(name)`. */
    function GetIndex(name: Name): (r: int)
      reads this
      ensures Valid(State()) ==> (r == -1 <==> name !in headers)
      ensures Valid(State()) && r != -1 ==> 0 <= r < |headers| && headers[r] == name
    {
      IndexOf(State(), name)
    }

    /** `contains(name)`. */
    function Contains(name: Name): (r: bool)
      reads this
      ensures Valid(State()) ==> (r <==> GetIndex(name) != -1) && (r <==> name in headers)
    {
      name in headerMap
    }

    /** `get(index)`: the name at a position; an index past the end is
        rejected with "header index out of bounds", a negative one by the list. */
    function Get(index: int): (r: Result<Name>)
      reads this
      ensures r.Ok? <==> 0 <= index < |headers|
      ensures index >= |headers| ==> r == Err(HeaderIndexOutOfBounds(index, |headers| - 1))
      ensures r.Ok? ==> r.value == headers[index]
      ensures r.Ok? && Valid(State()) ==> GetIndex(r.value) == index
    {
      if index >= |headers| then Err(HeaderIndexOutOfBounds(index, |headers| - 1))
      else if index < 0 then Err(IndexOutOfBounds(index))
      else Ok(headers[index])
    }

    /** `getType(name)`. */
    function GetType(name: Name): (r: Option<ValueClass>)
      reads this
      ensures Valid(State()) && name !in headers ==> r == None
    {
      TypeOf(State(), name)
    }

    /** `getType(index)`: the value class of the name at a position. */
    function GetTypeAt(index: int): (r: Result<Option<ValueClass>>)
      reads this
      ensures r.Ok? <==> 0 <= index < |headers|
      ensures r.Ok? ==> r.value == GetType(headers[index])
    {
      match Get(index)
      case Ok(name) => Ok(GetType(name))
      case Err(e) => Err(e)
    }

    /** `getColumnType(name)`. */
    function GetColumnType(name: Name): (r: Option<ColumnKind>)
      reads this
      ensures name !in colTypeMap ==> r == None
    {
      KindOf(State(), name)
    }

    /** `getColumnType(index)`. */
    function GetColumnTypeAt(index: int): (r: Result<Option<ColumnKind>>)
      reads this
      ensures r.Ok? <==> 0 <= index < |headers|
      ensures r.Ok? ==> r.value == GetColumnType(headers[index])
    {
      match Get(index)
      case Ok(name) => Ok(GetColumnType(name))
      case Err(e) => Err(e)
    }

    /** `equals(other)` for another header or `null`, which the Java code
        dereferences (`other.getClass()`) and so throws on. */
    method Equals(other: DataFrameHeader?) returns (r: Result<bool>)
      ensures other == this ==> r == Ok(true)
      ensures other == null ==> r == Err(NullPointer)
      ensures other != null && other != this ==> r == Ok(SchemaEquals(State(), other.State()))
    {
      if other == this {
        return Ok(true);
      }
      if other == null {
        return Err(NullPointer);
      }
      if Size() != other.Size() {
        return Ok(false);
      }
      var i := 0;
      while i < |headers|
        invariant 0 <= i <= |headers|
        invariant forall k :: 0 <= k < i ==> headers[k] in other.headerMap && TypeOf(State(), headers[k]) == TypeOf(other.State(), headers[k])
      {
        var s := headers[i];
        if !other.Contains(s) {
          return Ok(false);
        }
        if GetType(s) != other.GetType(s) {
          return Ok(false);
        }
        i := i + 1;
      }
      return Ok(true);
    }

    /** `copy()`. */
    method Copy() returns (c: DataFrameHeader)
      ensures fresh(c)
      ensures c.State() == Rebuild(State(), |headers|)
    {
      c := new DataFrameHeader();
      var i := 0;
      while i < |headers|
        invariant 0 <= i <= |headers|
        invariant fresh(c)
        invariant c.State() == Rebuild(State(), i)
      {
        var h := headers[i];
        c.Add(h, GetColumnType(h), GetType(h));
        i := i + 1;
      }
    }
  }
}
