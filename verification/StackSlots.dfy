/**
 The slots of a stack frame, counted in bytes from the frame base. Slots are reused first
 fit; free neighbours are joined on the way, and a free end of the frame is cut off.
 */
module StackSlots {
  import opened Options

  /** A stretch of the frame; free when it has no holder. */
  datatype Slot = Slot(holder: Option<nat>, size: nat)

  function Total(slots: seq<Slot>): nat {
    if slots == [] then 0 else slots[0].size + Total(slots[1..])
  }

  /** Who owns byte `x` of the frame. */
  function Owner(slots: seq<Slot>, x: nat): Option<nat> {
    if slots == [] then None
    else if x < slots[0].size then slots[0].holder
    else Owner(slots[1..], x - slots[0].size)
  }

  ghost predicate Free(slots: seq<Slot>, p: nat, size: nat) {
    p + size <= Total(slots) && forall x: nat :: p <= x < p + size ==> Owner(slots, x) == None
  }

  ghost predicate WellFormed(slots: seq<Slot>) {
    && (forall i :: 0 <= i < |slots| ==> slots[i].size > 0)
    && (forall i, j :: 0 <= i < j < |slots| && slots[i].holder.Some? ==> slots[i].holder != slots[j].holder)
  }

  ghost predicate Holds(slots: seq<Slot>, v: nat) {
    exists i :: 0 <= i < |slots| && slots[i].holder == Some(v)
  }

  ghost predicate SameOwners(a: seq<Slot>, b: seq<Slot>) {
    Total(a) == Total(b) && forall x: nat :: Owner(a, x) == Owner(b, x)
  }

  // ---- sums ----

  lemma {:induction false} TotalSum(a: seq<Slot>, b: seq<Slot>)
    ensures Total(a + b) == Total(a) + Total(b)
  {
    if a == [] {
      assert a + b == b;
    } else {
      assert (a + b)[1..] == a[1..] + b;
      TotalSum(a[1..], b);
    }
  }

  lemma {:induction false} OwnerSum(a: seq<Slot>, b: seq<Slot>, x: nat)
    ensures Owner(a + b, x) == if x < Total(a) then Owner(a, x) else Owner(b, x - Total(a))
  {
    if a == [] {
      assert a + b == b;
    } else {
      assert (a + b)[1..] == a[1..] + b;
      if x >= a[0].size {
        OwnerSum(a[1..], b, x - a[0].size);
      }
    }
  }

  lemma TotalOne(a: Slot)
    ensures Total([a]) == a.size
  {
    assert [a][1..] == [];
  }

  lemma TotalTwo(a: Slot, b: Slot)
    ensures Total([a, b]) == a.size + b.size
  {
    assert [a, b][1..] == [b];
    TotalOne(b);
  }

  lemma TotalSplit(slots: seq<Slot>, i: nat)
    requires i < |slots|
    ensures Total(slots[..i + 1]) == Total(slots[..i]) + slots[i].size
    ensures Total(slots) == Total(slots[..i]) + slots[i].size + Total(slots[i + 1..])
  {
    assert slots[..i + 1] == slots[..i] + [slots[i]];
    TotalSum(slots[..i], [slots[i]]);
    assert slots == slots[..i + 1] + slots[i + 1..];
    TotalSum(slots[..i + 1], slots[i + 1..]);
  }

  /** Owners by position of the slot. */
  lemma OwnerAt(slots: seq<Slot>, i: nat, x: nat)
    requires i < |slots|
    ensures Owner(slots, x) ==
            if x < Total(slots[..i]) then Owner(slots[..i], x)
            else if x < Total(slots[..i]) + slots[i].size then slots[i].holder
            else Owner(slots[i + 1..], x - Total(slots[..i]) - slots[i].size)
  {
    assert slots == slots[..i] + slots[i..];
    OwnerSum(slots[..i], slots[i..], x);
    assert slots[i..][1..] == slots[i + 1..];
  }

  lemma {:induction false} OwnerBeyond(slots: seq<Slot>, x: nat)
    requires x >= Total(slots)
    ensures Owner(slots, x) == None
  {
    if slots != [] {
      OwnerBeyond(slots[1..], x - slots[0].size);
    }
  }

  lemma {:induction false} OwnerIsHolder(slots: seq<Slot>, x: nat)
    ensures Owner(slots, x).Some? ==> Holds(slots, Owner(slots, x).value)
  {
    if slots != [] {
      if x < slots[0].size {
        assert slots[0].holder.Some? ==> Holds(slots, slots[0].holder.value);
      } else {
        OwnerIsHolder(slots[1..], x - slots[0].size);
        var o := Owner(slots[1..], x - slots[0].size);
        if o.Some? {
          var i :| 0 <= i < |slots[1..]| && slots[1..][i].holder == o;
          assert slots[i + 1].holder == o;
        }
      }
    }
  }

  // ---- looking up ----

  /** The end of the first slot of `v`. */
  function Lookup(slots: seq<Slot>, v: nat): nat {
    if slots == [] then 0
    else if slots[0].holder == Some(v) then slots[0].size
    else slots[0].size + Lookup(slots[1..], v)
  }

  lemma {:induction false} LookupAt(slots: seq<Slot>, v: nat, i: nat)
    requires i < |slots| && slots[i].holder == Some(v) && forall j :: 0 <= j < i ==> slots[j].holder != Some(v)
    ensures Lookup(slots, v) == Total(slots[..i + 1])
    decreases i
  {
    if i == 0 {
      assert slots[..1][1..] == [];
    } else {
      assert slots[..i + 1][1..] == slots[1..][..i];
      LookupAt(slots[1..], v, i - 1);
    }
  }

  /** The bytes of `v` end at `end`, and have size `size`. */
  ghost predicate Occupies(slots: seq<Slot>, v: nat, end: nat, size: nat) {
    0 < size <= end <= Total(slots) && forall x: nat :: Owner(slots, x) == Some(v) <==> end - size <= x < end
  }

  lemma NotLater(slots: seq<Slot>, v: nat, i: nat)
    requires WellFormed(slots) && i < |slots| && slots[i].holder == Some(v)
    ensures !Holds(slots[i + 1..], v)
  {
    var rest := slots[i + 1..];
    forall j | 0 <= j < |rest|
      ensures rest[j].holder != Some(v)
    {
      assert rest[j] == slots[j + i + 1];
    }
  }

  lemma OccupiesAt(slots: seq<Slot>, v: nat, i: nat)
    requires WellFormed(slots) && i < |slots| && slots[i].holder == Some(v)
    ensures Occupies(slots, v, Total(slots[..i + 1]), slots[i].size) && Lookup(slots, v) == Total(slots[..i + 1])
  {
    TotalSplit(slots, i);
    LookupAt(slots, v, i);
    forall x: nat
      ensures Owner(slots, x) == Some(v) <==> Total(slots[..i]) <= x < Total(slots[..i + 1])
    {
      OwnerAt(slots, i, x);
      if x < Total(slots[..i]) {
        OwnerIsHolder(slots[..i], x);
      } else if x >= Total(slots[..i]) + slots[i].size {
        OwnerIsHolder(slots[i + 1..], x - Total(slots[..i]) - slots[i].size);
        NotLater(slots, v, i);
      }
    }
  }

  /** Where a variable is found depends on the owners only. */
  lemma LookupByOwners(a: seq<Slot>, b: seq<Slot>, v: nat)
    requires WellFormed(a) && WellFormed(b) && Holds(a, v) && Holds(b, v)
    requires forall x: nat :: Owner(a, x) == Some(v) <==> Owner(b, x) == Some(v)
    ensures Lookup(a, v) == Lookup(b, v)
  {
    var i :| 0 <= i < |a| && a[i].holder == Some(v);
    var j :| 0 <= j < |b| && b[j].holder == Some(v);
    OccupiesAt(a, v, i);
    OccupiesAt(b, v, j);
    SameEnds(a, b, v, Lookup(a, v), a[i].size, Lookup(b, v), b[j].size);
  }

  lemma SameEnds(a: seq<Slot>, b: seq<Slot>, v: nat, e: nat, s: nat, e': nat, s': nat)
    requires Occupies(a, v, e, s) && Occupies(b, v, e', s')
    requires forall x: nat :: Owner(a, x) == Some(v) <==> Owner(b, x) == Some(v)
    ensures e == e' && s == s'
  {
    assert Owner(a, e - 1) == Some(v) && Owner(b, e' - 1) == Some(v);
    assert Owner(a, e - s) == Some(v) && Owner(b, e' - s') == Some(v);
  }

  /** Distinct variables never share a byte, and end at distinct places. */
  lemma Disjoint(slots: seq<Slot>, u: nat, v: nat)
    requires WellFormed(slots) && Holds(slots, u) && Holds(slots, v) && u != v
    ensures Lookup(slots, u) != Lookup(slots, v)
  {
    var i :| 0 <= i < |slots| && slots[i].holder == Some(u);
    var j :| 0 <= j < |slots| && slots[j].holder == Some(v);
    OccupiesAt(slots, u, i);
    OccupiesAt(slots, v, j);
    assert Owner(slots, Lookup(slots, u) - 1) == Some(u);
    assert Owner(slots, Lookup(slots, v) - 1) == Some(v);
  }

  // ---- edits ----

  function Replaced(slots: seq<Slot>, i: nat, n: nat, mid: seq<Slot>): seq<Slot>
    requires i + n <= |slots|
  {
    slots[..i] + mid + slots[i + n..]
  }

  /** Replacing neighbours by slots of the same total changes only the bytes in between. */
  lemma ReplacedOwners(slots: seq<Slot>, i: nat, n: nat, mid: seq<Slot>, x: nat)
    requires i + n <= |slots| && Total(mid) == Total(slots[i..i + n])
    ensures Total(Replaced(slots, i, n, mid)) == Total(slots)
    ensures var p, q := Total(slots[..i]), Total(slots[..i]) + Total(mid);
            Owner(Replaced(slots, i, n, mid), x) == if p <= x < q then Owner(mid, x - p) else Owner(slots, x)
  {
    var a, b, c := slots[..i], slots[i..i + n], slots[i + n..];
    assert slots == a + b + c;
    TotalSum(a, b);
    TotalSum(a + b, c);
    TotalSum(a, mid);
    TotalSum(a + mid, c);
    OwnerSum(a + b, c, x);
    OwnerSum(a + mid, c, x);
    OwnerSum(a, b, x);
    OwnerSum(a, mid, x);
  }

  lemma ReplacedWellFormed(slots: seq<Slot>, i: nat, n: nat, mid: seq<Slot>, v: Option<nat>)
    requires WellFormed(slots) && i + n <= |slots| && forall j :: 0 <= j < |mid| ==> mid[j].size > 0
    requires v.Some? ==> !Holds(slots, v.value)
    requires |mid| > 0 && mid[0].holder == v && forall j :: 1 <= j < |mid| ==> mid[j].holder == None
    ensures WellFormed(Replaced(slots, i, n, mid))
  {
    var r := Replaced(slots, i, n, mid);
    forall j | 0 <= j < |r|
      ensures r[j] == if j < i then slots[j] else if j < i + |mid| then mid[j - i] else slots[j - |mid| + n]
    {
    }
    forall j, k | 0 <= j < k < |r| && r[j].holder.Some?
      ensures r[j].holder != r[k].holder
    {
      assert r[j].holder == v || !(i <= j < i + |mid|);
      assert v.Some? ==> forall u :: 0 <= u < |slots| ==> slots[u].holder != v;
    }
  }

  /** In a frame whose free neighbours are joined up to `i`, a short free slot leaves no room. */
  lemma NoRoomIn(slots: seq<Slot>, i: nat, p: nat, size: nat)
    requires WellFormed(slots) && i < |slots| && Total(slots[..i]) <= p < Total(slots[..i + 1]) && size > 0
    requires slots[i].holder.None? ==> slots[i].size < size && (i + 1 < |slots| ==> slots[i + 1].holder.Some?)
    ensures !Free(slots, p, size)
  {
    TotalSplit(slots, i);
    OwnerAt(slots, i, p);
    if slots[i].holder.None? {
      var q := Total(slots[..i + 1]);
      if i + 1 < |slots| {
        TotalSplit(slots, i + 1);
        OwnerAt(slots, i + 1, q);
        assert Owner(slots, q).Some? && p <= q < p + size;
      } else {
        assert slots[..i + 1] == slots;
      }
    }
  }

  /** Giving a free stretch to `v`. */
  ghost predicate Granted(before: seq<Slot>, after: seq<Slot>, v: nat, p: nat, size: nat) {
    && (forall x: nat :: Owner(after, x) == if p <= x < p + size then Some(v) else Owner(before, x))
    && (forall x: nat :: p <= x < p + size ==> Owner(before, x) == None)
  }

  /** Taking everything back from `v`. */
  ghost predicate Revoked(before: seq<Slot>, after: seq<Slot>, v: nat) {
    forall x: nat :: Owner(after, x) == if Owner(before, x) == Some(v) then None else Owner(before, x)
  }

  // ---- holders by owners ----

  lemma OwnsItsEnd(slots: seq<Slot>, v: nat)
    requires WellFormed(slots) && Holds(slots, v)
    ensures Lookup(slots, v) > 0 && Owner(slots, Lookup(slots, v) - 1) == Some(v) && Lookup(slots, v) <= Total(slots)
  {
    var i :| 0 <= i < |slots| && slots[i].holder == Some(v);
    OccupiesAt(slots, v, i);
  }

  lemma HoldsSameOwners(a: seq<Slot>, b: seq<Slot>)
    requires WellFormed(a) && WellFormed(b) && SameOwners(a, b)
    ensures forall v :: Holds(a, v) <==> Holds(b, v)
  {
    forall v
      ensures Holds(a, v) <==> Holds(b, v)
    {
      if Holds(a, v) {
        OwnsItsEnd(a, v);
        OwnerIsHolder(b, Lookup(a, v) - 1);
      }
      if Holds(b, v) {
        OwnsItsEnd(b, v);
        OwnerIsHolder(a, Lookup(b, v) - 1);
      }
    }
  }

  lemma HoldsGranted(before: seq<Slot>, after: seq<Slot>, v: nat, p: nat, size: nat)
    requires WellFormed(before) && WellFormed(after) && Granted(before, after, v, p, size) && !Holds(before, v) && size > 0
    ensures Holds(after, v) && forall u :: u != v ==> (Holds(after, u) <==> Holds(before, u))
  {
    assert Owner(after, p) == Some(v);
    OwnerIsHolder(after, p);
    forall u | u != v
      ensures Holds(after, u) <==> Holds(before, u)
    {
      if Holds(before, u) {
        OwnsItsEnd(before, u);
        OwnerIsHolder(after, Lookup(before, u) - 1);
      }
      if Holds(after, u) {
        OwnsItsEnd(after, u);
        OwnerIsHolder(before, Lookup(after, u) - 1);
      }
    }
  }

  lemma HoldsRevoked(before: seq<Slot>, after: seq<Slot>, v: nat)
    requires WellFormed(before) && WellFormed(after) && Revoked(before, after, v)
    ensures !Holds(after, v) && forall u :: u != v ==> (Holds(after, u) <==> Holds(before, u))
  {
    if Holds(after, v) {
      OwnsItsEnd(after, v);
    }
    forall u | u != v
      ensures Holds(after, u) <==> Holds(before, u)
    {
      if Holds(before, u) {
        OwnsItsEnd(before, u);
        OwnerIsHolder(after, Lookup(before, u) - 1);
      }
      if Holds(after, u) {
        OwnsItsEnd(after, u);
        OwnerIsHolder(before, Lookup(after, u) - 1);
      }
    }
  }

  // ---- steps of the methods ----

  lemma SameOwnersSelf(slots: seq<Slot>)
    ensures SameOwners(slots, slots)
  {
  }

  lemma SameOwnersTransitive(a: seq<Slot>, b: seq<Slot>, c: seq<Slot>)
    requires SameOwners(a, b) && SameOwners(b, c)
    ensures SameOwners(a, c)
  {
  }

  lemma JoinNeighbours(slots: seq<Slot>, i: nat)
    requires WellFormed(slots) && i + 1 < |slots| && slots[i].holder.None? && slots[i + 1].holder.None?
    ensures var after := Replaced(slots, i, 2, [Slot(None, slots[i].size + slots[i + 1].size)]);
            && WellFormed(after) && SameOwners(slots, after) && |after| == |slots| - 1
            && after[..i] == slots[..i] && after[i].holder.None?
            && forall v :: Holds(after, v) <==> Holds(slots, v)
  {
    var mid := [Slot(None, slots[i].size + slots[i + 1].size)];
    var after := Replaced(slots, i, 2, mid);
    var pair := slots[i..i + 2];
    assert pair == [slots[i], slots[i + 1]];
    TotalTwo(slots[i], slots[i + 1]);
    TotalOne(mid[0]);
    ReplacedWellFormed(slots, i, 2, mid, None);
    forall x: nat
      ensures Owner(after, x) == Owner(slots, x)
    {
      ReplacedOwners(slots, i, 2, mid, x);
      ReplacedOwners(slots, i, 2, pair, x);
      assert Replaced(slots, i, 2, pair) == slots;
    }
    ReplacedOwners(slots, i, 2, mid, 0);
    HoldsSameOwners(slots, after);
  }

  lemma NoRoomUpTo(before: seq<Slot>, slots: seq<Slot>, i: nat, size: nat)
    requires WellFormed(slots) && i < |slots| && SameOwners(before, slots) && size > 0
    requires forall q: nat :: q < Total(slots[..i]) ==> !Free(before, q, size)
    requires slots[i].holder.None? ==> slots[i].size < size && (i + 1 < |slots| ==> slots[i + 1].holder.Some?)
    ensures forall q: nat :: q < Total(slots[..i + 1]) ==> !Free(before, q, size)
  {
    forall q: nat | q < Total(slots[..i + 1])
      ensures !Free(before, q, size)
    {
      if q >= Total(slots[..i]) {
        NoRoomIn(slots, i, q, size);
      }
    }
  }

  function Fragment(slots: seq<Slot>, i: nat, v: nat, size: nat): seq<Slot>
    requires i < |slots| && slots[i].size >= size
  {
    if slots[i].size == size then [Slot(Some(v), size)] else [Slot(Some(v), size), Slot(None, slots[i].size - size)]
  }

  lemma OwnerOfOne(a: Slot, x: nat)
    ensures Owner([a], x) == if x < a.size then a.holder else None
  {
    assert [a][1..] == [];
  }

  lemma FragmentOwners(slots: seq<Slot>, i: nat, v: nat, size: nat, x: nat)
    requires i < |slots| && slots[i].size >= size
    ensures Total(Fragment(slots, i, v, size)) == slots[i].size
    ensures Owner(Fragment(slots, i, v, size), x) == if x < size then Some(v) else None
  {
    var mid := Fragment(slots, i, v, size);
    if |mid| == 1 {
      TotalOne(mid[0]);
      OwnerOfOne(mid[0], x);
    } else {
      TotalTwo(mid[0], mid[1]);
      assert mid[1..] == [mid[1]];
      if x >= size {
        OwnerOfOne(mid[1], x - size);
      }
    }
  }

  lemma FragmentGranted(before: seq<Slot>, slots: seq<Slot>, i: nat, v: nat, size: nat)
    requires SameOwners(before, slots) && size > 0
    requires i < |slots| && slots[i].holder.None? && slots[i].size >= size
    ensures var after, p := Replaced(slots, i, 1, Fragment(slots, i, v, size)), Total(slots[..i]);
            Total(after) == Total(before) && Granted(before, after, v, p, size) && Free(before, p, size)
  {
    hide Owner, Fragment, Replaced;
    var mid, p := Fragment(slots, i, v, size), Total(slots[..i]);
    var after := Replaced(slots, i, 1, mid);
    assert slots[i..i + 1] == [slots[i]];
    TotalOne(slots[i]);
    FragmentOwners(slots, i, v, size, 0);
    TotalSplit(slots, i);
    forall x: nat
      ensures Owner(after, x) == if p <= x < p + size then Some(v) else Owner(before, x)
      ensures p <= x < p + size ==> Owner(before, x) == None
    {
      ReplacedOwners(slots, i, 1, mid, x);
      OwnerAt(slots, i, x);
      if p <= x {
        FragmentOwners(slots, i, v, size, x - p);
      }
      assert Owner(slots, x) == Owner(before, x);
    }
    ReplacedOwners(slots, i, 1, mid, 0);
  }

  lemma TakeFragment(before: seq<Slot>, slots: seq<Slot>, i: nat, v: nat, size: nat)
    requires WellFormed(before) && WellFormed(slots) && SameOwners(before, slots) && !Holds(slots, v) && size > 0
    requires i < |slots| && slots[i].holder.None? && slots[i].size >= size
    ensures var after, p := Replaced(slots, i, 1, Fragment(slots, i, v, size)), Total(slots[..i]);
            && WellFormed(after) && Total(after) == Total(before) && Granted(before, after, v, p, size)
            && Holds(after, v) && Lookup(after, v) == p + size && Free(before, p, size)
            && forall u :: u != v ==> (Holds(after, u) <==> Holds(before, u))
  {
    FragmentGranted(before, slots, i, v, size);
    var mid, p := Fragment(slots, i, v, size), Total(slots[..i]);
    var after := Replaced(slots, i, 1, mid);
    ReplacedWellFormed(slots, i, 1, mid, Some(v));
    assert after[i] == Slot(Some(v), size) && after[..i] == slots[..i];
    hide Owner, Holds, Lookup, Replaced, Fragment;
    HoldsSameOwners(before, slots);
    HoldsGranted(before, after, v, p, size);
    OccupiesAt(after, v, i);
    TotalSplit(after, i);
  }

  lemma FreeInside(before: seq<Slot>, slots: seq<Slot>, i: nat, v: nat)
    requires WellFormed(before) && WellFormed(slots) && SameOwners(before, slots) && i + 1 < |slots| && slots[i].holder == Some(v)
    ensures var after := Replaced(slots, i, 1, [Slot(None, slots[i].size)]);
            && WellFormed(after) && Total(after) == Total(before) && Revoked(before, after, v) && !Holds(after, v)
            && forall u :: u != v ==> (Holds(after, u) <==> Holds(before, u))
    ensures Total(before) > 0 && Owner(before, Total(before) - 1) != Some(v)
  {
    var mid, p := [Slot(None, slots[i].size)], Total(slots[..i]);
    var after := Replaced(slots, i, 1, mid);
    assert slots[i..i + 1] == [slots[i]];
    TotalOne(slots[i]);
    TotalOne(mid[0]);
    ReplacedWellFormed(slots, i, 1, mid, None);
    OccupiesAt(slots, v, i);
    TotalSplit(slots, i);
    TotalSplit(slots, i + 1);
    forall x: nat
      ensures Owner(after, x) == if Owner(before, x) == Some(v) then None else Owner(before, x)
    {
      ReplacedOwners(slots, i, 1, mid, x);
      assert Owner(slots, x) == Owner(before, x);
    }
    ReplacedOwners(slots, i, 1, mid, 0);
    HoldsRevoked(before, after, v);
    assert Owner(slots, Total(before) - 1) == Owner(before, Total(before) - 1);
  }

  /** Without the last slot, and without the free slot before it. */
  lemma RemoveFreeLast(slots: seq<Slot>)
    requires WellFormed(slots) && slots != [] && slots[|slots| - 1].holder.None?
    ensures var n := |slots| - 1;
            WellFormed(slots[..n]) && Total(slots) == Total(slots[..n]) + slots[n].size && forall x: nat :: Owner(slots[..n], x) == Owner(slots, x)
  {
    var n := |slots| - 1;
    TotalSplit(slots, n);
    assert slots[n + 1..] == [];
    forall x: nat
      ensures Owner(slots[..n], x) == Owner(slots, x)
    {
      OwnerAt(slots, n, x);
      if x >= Total(slots[..n]) {
        OwnerBeyond(slots[..n], x);
      }
    }
  }

  lemma LastOwnsEnd(slots: seq<Slot>)
    requires WellFormed(slots) && slots != []
    ensures Total(slots) > 0 && Owner(slots, Total(slots) - 1) == slots[|slots| - 1].holder
  {
    var n := |slots| - 1;
    TotalSplit(slots, n);
    assert slots[n + 1..] == [];
    OwnerAt(slots, n, Total(slots) - 1);
  }

  function WithoutEnd(slots: seq<Slot>): seq<Slot>
    requires slots != []
  {
    var i := |slots| - 1;
    if i > 0 && slots[i - 1].holder.None? then slots[..i - 1] else slots[..i]
  }

  lemma CutEnd(before: seq<Slot>, slots: seq<Slot>, i: nat, v: nat)
    requires WellFormed(before) && WellFormed(slots) && SameOwners(before, slots)
    requires i + 1 == |slots| && slots[i].holder == Some(v) && JoinedUpTo(slots, i)
    ensures var after := WithoutEnd(slots);
            && WellFormed(after) && Revoked(before, after, v) && !Holds(after, v)
            && Total(after) + slots[i].size + (if i > 0 && slots[i - 1].holder.None? then slots[i - 1].size else 0) == Total(before)
            && (Total(after) > 0 ==> Owner(after, Total(after) - 1).Some?)
            && forall u :: u != v ==> (Holds(after, u) <==> Holds(before, u))
    ensures Total(before) > 0 && Owner(before, Total(before) - 1) == Some(v)
  {
    hide Owner, Total, Holds;
    var mid, after := slots[..i], WithoutEnd(slots);
    RemoveLast(slots);
    LastOwnsEnd(slots);
    if i > 0 && slots[i - 1].holder.None? {
      RemoveFreeLast(mid);
      assert mid[..i - 1] == after;
    }
    assert forall x: nat :: Owner(after, x) == Owner(mid, x);
    if after != [] {
      assert after[|after| - 1].holder.Some?;
      LastOwnsEnd(after);
    } else {
      EmptyTotal();
    }
    RevokedSame(before, slots, mid, after, v);
    HoldsRevoked(before, after, v);
  }

  lemma EmptyTotal()
    ensures Total([]) == 0
  {
  }

  lemma RevokedSame(before: seq<Slot>, slots: seq<Slot>, mid: seq<Slot>, after: seq<Slot>, v: nat)
    requires SameOwners(before, slots) && Revoked(slots, mid, v) && forall x: nat :: Owner(after, x) == Owner(mid, x)
    ensures Revoked(before, after, v)
  {
    hide Owner;
    forall x: nat
      ensures Owner(after, x) == if Owner(before, x) == Some(v) then None else Owner(before, x)
    {
      assert Owner(before, x) == Owner(slots, x);
    }
  }

  /** Growing a frame in which neighbours have been joined. */
  lemma AppendAfter(before: seq<Slot>, slots: seq<Slot>, v: nat, size: nat)
    requires WellFormed(before) && WellFormed(slots) && SameOwners(before, slots) && !Holds(before, v) && size > 0
    requires forall q: nat :: q < Total(slots) ==> !Free(before, q, size)
    ensures var after := slots + [Slot(Some(v), size)];
            && WellFormed(after) && Holds(after, v) && Total(after) == Total(before) + size
            && Granted(before, after, v, Total(before), size) && Lookup(after, v) == Total(after)
            && forall u :: u != v ==> (Holds(after, u) <==> Holds(before, u))
    ensures forall q: nat :: !Free(before, q, size)
  {
    hide Owner, Holds, Lookup, WellFormed;
    HoldsSameOwners(before, slots);
    Append(slots, v, size);
    forall x: nat
      ensures Owner(slots + [Slot(Some(v), size)], x) == if Total(before) <= x < Total(before) + size then Some(v) else Owner(before, x)
      ensures Total(before) <= x < Total(before) + size ==> Owner(before, x) == None
    {
      assert Owner(before, x) == Owner(slots, x);
    }
    forall q: nat
      ensures !Free(before, q, size)
    {
      if q < Total(slots) {
        assert !Free(before, q, size);
      }
    }
  }

  class Stack {
    var slots: seq<Slot>
    var stackSize: nat
    /** The field `stackpos` of every variable. */
    var stackpos: map<nat, nat>

    ghost predicate Valid()
      reads this
    {
      WellFormed(slots) && stackSize == Total(slots)
    }

    constructor ()
      ensures Valid() && slots == []
    {
      slots, stackSize, stackpos := [], 0, map[];
    }

    method PushVar(v: nat, size: nat)
      requires Valid() && !Holds(slots, v) && size > 0
      modifies this`slots, this`stackSize
      ensures Valid() && Holds(slots, v) && stackSize == old(stackSize) + size
      ensures Granted(old(slots), slots, v, old(stackSize), size)
    {
      Append(slots, v, size);
      slots := slots + [Slot(Some(v), size)];
      stackSize := stackSize + size;
    }

    /** Only the last slot can be popped. */
    method PopVar(v: nat, size: nat)
      requires Valid() && slots != [] && slots[|slots| - 1] == Slot(Some(v), size)
      modifies this`slots, this`stackSize
      ensures Valid() && stackSize == old(stackSize) - size && slots == old(slots)[..|old(slots)| - 1]
      ensures Revoked(old(slots), slots, v)
    {
      RemoveLast(slots);
      slots := slots[..|slots| - 1];
      stackSize := stackSize - size;
    }

    /** Join the free slot `i` with the free slots that follow it. */
    method MergeFragments(i: nat)
      requires Valid() && i < |slots| && slots[i].holder.None?
      modifies this`slots
      ensures Valid() && SameOwners(old(slots), slots) && i < |slots| && slots[..i] == old(slots)[..i]
      ensures slots[i].holder.None? && (i + 1 < |slots| ==> slots[i + 1].holder.Some?)
      ensures forall v :: Holds(slots, v) <==> Holds(old(slots), v)
      ensures |slots| - i <= |old(slots)| - i
    {
      while i + 1 < |slots| && slots[i + 1].holder.None?
        invariant Valid() && SameOwners(old(slots), slots) && i < |slots| <= |old(slots)| && slots[..i] == old(slots)[..i]
        invariant slots[i].holder.None?
        invariant forall v :: Holds(slots, v) <==> Holds(old(slots), v)
        decreases |slots|
      {
        JoinNeighbours(slots, i);
        slots := Replaced(slots, i, 2, [Slot(None, slots[i].size + slots[i + 1].size)]);
      }
    }

    /** First fit: take the first room in the frame, or grow the frame if there is none. */
    method SpillVar(v: nat, size: nat) returns (grew: bool)
      requires Valid() && !Holds(slots, v) && size > 0
      modifies this
      ensures Valid() && Holds(slots, v)
      ensures forall u :: u != v ==> (Holds(slots, u) <==> Holds(old(slots), u))
      ensures grew <==> forall p: nat :: !Free(old(slots), p, size)
      ensures stackpos.Keys == old(stackpos).Keys + {v} && forall u :: u != v && u in stackpos ==> stackpos[u] == old(stackpos)[u]
      ensures size <= stackpos[v] == Lookup(slots, v)
      ensures var p := stackpos[v] - size;
              if grew then p == old(stackSize) && stackSize == p + size
              else stackSize == old(stackSize) && Free(old(slots), p, size) && forall q: nat :: q < p ==> !Free(old(slots), q, size)
      ensures Granted(old(slots), slots, v, stackpos[v] - size, size)
    {
      hide WellFormed, Owner, Free, Holds, Lookup, Granted, SameOwners;
      ghost var before := slots;
      SameOwnersSelf(slots);
      var i, sizecnt := 0, 0;
      while i < |slots|
        invariant Valid() && i <= |slots| && SameOwners(before, slots) && sizecnt == Total(slots[..i]) && stackSize == old(stackSize)
        invariant forall u :: Holds(slots, u) <==> Holds(before, u)
        invariant forall q: nat :: q < sizecnt ==> !Free(before, q, size)
        invariant stackpos == old(stackpos)
        decreases |slots| - i
      {
        if slots[i].holder.None? {
          ghost var unmerged := slots;
          MergeFragments(i);
          SameOwnersTransitive(before, unmerged, slots);
          if slots[i].size >= size {
            TakeFragment(before, slots, i, v, size);
            if slots[i].size == size {
              slots := Replaced(slots, i, 1, [Slot(Some(v), size)]);
            } else {
              slots := Replaced(slots, i, 1, [Slot(Some(v), size), Slot(None, slots[i].size - size)]);
            }
            stackpos := stackpos[v := sizecnt + size];
            return false;
          }
        }
        TotalSplit(slots, i);
        NoRoomUpTo(before, slots, i, size);
        sizecnt := sizecnt + slots[i].size;
        i := i + 1;
      }
      assert slots[..i] == slots;
      AppendAfter(before, slots, v, size);
      slots := slots + [Slot(Some(v), size)];
      stackSize := stackSize + size;
      stackpos := stackpos[v := stackSize];
      return true;
    }

    /** Give the slot of `v` back; the result says by how much the frame shrinks. */
    method ReleaseOnStackVar(v: nat) returns (released: nat)
      requires Valid() && Holds(slots, v)
      modifies this`slots, this`stackSize
      ensures Valid() && !Holds(slots, v)
      ensures forall u :: u != v ==> (Holds(slots, u) <==> Holds(old(slots), u))
      ensures Revoked(old(slots), slots, v)
      ensures released == old(stackSize) - stackSize
      ensures old(stackSize) > 0 && (released > 0 <==> Owner(old(slots), old(stackSize) - 1) == Some(v))
      ensures released > 0 && stackSize > 0 ==> Owner(slots, stackSize - 1).Some?
    {
      ghost var before := slots;
      NotEmpty(slots, v);
      hide WellFormed, Owner, Holds, Revoked, SameOwners;
      SameOwnersSelf(slots);
      var i := 0;
      while slots[i].holder != Some(v)
        invariant Valid() && i < |slots| && SameOwners(before, slots) && stackSize == old(stackSize)
        invariant forall u :: Holds(slots, u) <==> Holds(before, u)
        invariant forall j :: 0 <= j < i ==> slots[j].holder != Some(v)
        invariant JoinedUpTo(slots, i)
        decreases |slots| - i
      {
        if slots[i].holder.None? {
          ghost var unmerged := slots;
          MergeFragments(i);
          SameOwnersTransitive(before, unmerged, slots);
        }
        StillAhead(slots, v, i);
        i := i + 1;
      }
      if i + 1 == |slots| {
        var fragments := if i > 0 && slots[i - 1].holder.None? then slots[i - 1].size else 0;
        released := slots[i].size + fragments;
        CutEnd(before, slots, i, v);
        SizePositive(before, slots, i);
        stackSize := stackSize - released;
        slots := if i > 0 && slots[i - 1].holder.None? then slots[..i - 1] else slots[..i];
      } else {
        FreeInside(before, slots, i, v);
        SizePositive(before, slots, i);
        slots := Replaced(slots, i, 1, [Slot(None, slots[i].size)]);
        released := 0;
      }
    }

    method LookupOnStackVar(v: nat) returns (offset: nat)
      requires Valid() && Holds(slots, v)
      ensures offset == Lookup(slots, v)
    {
      offset := slots[0].size;
      var i := 0;
      assert slots[..1][1..] == [];
      while slots[i].holder != Some(v)
        invariant i < |slots| && offset == Total(slots[..i + 1]) && forall j :: 0 <= j < i ==> slots[j].holder != Some(v)
        decreases |slots| - i
      {
        StillAhead(slots, v, i);
        TotalSplit(slots, i + 1);
        i := i + 1;
        offset := offset + slots[i].size;
      }
      LookupAt(slots, v, i);
    }
  }

  lemma SizePositive(before: seq<Slot>, slots: seq<Slot>, i: nat)
    requires WellFormed(slots) && SameOwners(before, slots) && i < |slots|
    ensures slots[i].size > 0 && Total(before) == Total(slots)
  {
  }

  lemma NotEmpty(slots: seq<Slot>, v: nat)
    requires Holds(slots, v)
    ensures slots != []
  {
  }

  lemma StillAhead(slots: seq<Slot>, v: nat, i: nat)
    requires Holds(slots, v) && i < |slots| && forall j :: 0 <= j <= i ==> slots[j].holder != Some(v)
    ensures i + 1 < |slots|
  {
    var k :| 0 <= k < |slots| && slots[k].holder == Some(v);
  }

  /** No two free neighbours among the first `i + 1` slots. */
  ghost predicate JoinedUpTo(slots: seq<Slot>, i: nat) {
    forall j :: 0 < j <= i < |slots| && slots[j - 1].holder.None? ==> slots[j].holder.Some?
  }

  lemma Append(slots: seq<Slot>, v: nat, size: nat)
    requires WellFormed(slots) && !Holds(slots, v) && size > 0
    ensures var after := slots + [Slot(Some(v), size)];
            && WellFormed(after) && Holds(after, v) && Total(after) == Total(slots) + size
            && Granted(slots, after, v, Total(slots), size) && Lookup(after, v) == Total(after)
            && forall u :: u != v ==> (Holds(after, u) <==> Holds(slots, u))
  {
    var after := slots + [Slot(Some(v), size)];
    var n := |slots|;
    TotalSum(slots, [Slot(Some(v), size)]);
    assert after[n].holder == Some(v) && after[..n + 1] == after;
    assert WellFormed(after);
    LookupAt(after, v, n);
    forall x: nat
      ensures Owner(after, x) == if Total(slots) <= x < Total(slots) + size then Some(v) else Owner(slots, x)
      ensures x >= Total(slots) ==> Owner(slots, x) == None
    {
      TotalOne(Slot(Some(v), size));
      OwnerSum(slots, [Slot(Some(v), size)], x);
      if x >= Total(slots) {
        OwnerBeyond(slots, x);
      }
    }
    HoldsGranted(slots, after, v, Total(slots), size);
  }

  lemma RemoveLast(slots: seq<Slot>)
    requires WellFormed(slots) && slots != [] && slots[|slots| - 1].holder.Some?
    ensures var n := |slots| - 1;
            && WellFormed(slots[..n]) && Total(slots) == Total(slots[..n]) + slots[n].size
            && Revoked(slots, slots[..n], slots[n].holder.value)
  {
    var n := |slots| - 1;
    TotalSplit(slots, n);
    assert slots[n + 1..] == [];
    forall x: nat
      ensures Owner(slots[..n], x) == if Owner(slots, x) == slots[n].holder then None else Owner(slots, x)
    {
      OwnerAt(slots, n, x);
      if x >= Total(slots[..n]) {
        OwnerBeyond(slots[..n], x);
      } else {
        OwnerIsHolder(slots[..n], x);
      }
    }
  }
}
