/**
 Initialisers of arrays: from nested braces to regular lists, and from there to the values
 that a constant subscript, the local stores and the global data directives give.
 */
module ArrayInitialisers {
  import opened Options

  datatype Init = Value(n: int) | List(items: seq<Init>)

  function Volume(dims: seq<nat>): nat {
    if dims == [] then 1 else dims[0] * Volume(dims[1..])
  }

  function Zeros(n: nat): (r: seq<int>)
    ensures |r| == n && forall k :: 0 <= k < n ==> r[k] == 0
  {
    seq(n, _ => 0)
  }

  ghost predicate Positive(dims: seq<nat>) {
    forall k :: 0 <= k < |dims| ==> dims[k] > 0
  }

  // ---- regular lists ----

  /** One level of lists per dimension, none longer than the dimension. */
  ghost predicate Fits(dims: seq<nat>, t: Init)
    decreases |dims|
  {
    if dims == [] then t.Value?
    else t.List? && |t.items| <= dims[0] && forall k :: 0 <= k < |t.items| ==> Fits(dims[1..], t.items[k])
  }

  /** All elements in row-major order; what is not given is zero. */
  ghost function Dense(dims: seq<nat>, t: Init): (r: seq<int>)
    requires Fits(dims, t)
    ensures |r| == Volume(dims)
    decreases |dims|, 1, 0
  {
    if dims == [] then [t.n]
    else
      RowsFit(dims[0], |t.items|, Volume(dims[1..]));
      DenseRows(dims[1..], t.items) + Zeros((dims[0] - |t.items|) * Volume(dims[1..]))
  }

  ghost function DenseRows(dims: seq<nat>, items: seq<Init>): (r: seq<int>)
    requires forall k :: 0 <= k < |items| ==> Fits(dims, items[k])
    ensures |r| == |items| * Volume(dims)
    decreases |dims|, 2, |items|
  {
    hide Volume;
    if items == [] then []
    else
      var n := |items| - 1;
      RowsFit(|items|, n, Volume(dims));
      DenseRows(dims, items[..n]) + Dense(dims, items[n])
  }

  lemma RowsFit(d: nat, n: nat, v: nat)
    requires n <= d
    ensures d * v == n * v + (d - n) * v
  {
  }

  // ---- what braces mean ----

  /** A brace at position `p` starts the largest aligned part of the array. */
  ghost function Aligned(dims: seq<nat>, p: nat): (r: seq<nat>)
    requires dims != []
    ensures |r| < |dims| && r == dims[|dims| - |r|..]
  {
    var rest := dims[1..];
    if rest == [] || (Volume(rest) > 0 && p % Volume(rest) == 0) then rest else Aligned(rest, p)
  }

  lemma ScalarVolume()
    ensures Volume([]) == 1
  {
  }

  ghost function Before(x: seq<int>, r: Option<seq<int>>): Option<seq<int>> {
    if r.None? then None else Some(x + r.value)
  }

  lemma BeforeBoth(x: seq<int>, y: seq<int>, r: Option<seq<int>>)
    ensures Before(x, Before(y, r)) == Before(x + y, r) && Before([], r) == r
  {
    if r.Some? {
      assert x + (y + r.value) == x + y + r.value;
      assert [] + r.value == r.value;
    }
  }

  /**
   The elements from position `p` on, by a cursor that walks over the array (6.7.9 of ISO/IEC 9899:2018). There is no
   reading when braces around a single element are not empty. What finds no room is dropped.
   */
  ghost function Fill(dims: seq<nat>, items: seq<Init>, p: nat): (r: Option<seq<int>>)
    requires dims != [] && Positive(dims) && p <= Volume(dims)
    ensures r.Some? ==> |r.value| == Volume(dims) - p
    decreases items
  {
    ScalarVolume();
    hide Volume, Aligned;
    if items == [] || p == Volume(dims) then Some(Zeros(Volume(dims) - p))
    else
      match items[0]
      case Value(n) => Before([n], Fill(dims, items[1..], p + 1))
      case List(inner) =>
        AlignedFits(dims, p);
        var part := Aligned(dims, p);
        var head := if part != [] then Fill(part, inner, 0) else if inner == [] then Some([0]) else None;
        if head.None? then None else Before(head.value, Fill(dims, items[1..], p + Volume(part)))
  }

  // ---- alignment ----

  lemma {:induction false} VolumePositive(dims: seq<nat>)
    requires Positive(dims)
    ensures Volume(dims) > 0
  {
    if dims != [] {
      VolumePositive(dims[1..]);
    }
  }

  /** The volume of a part divides the volume of the whole. */
  lemma {:induction false} PartDivides(dims: seq<nat>, k: nat) returns (c: nat)
    requires k <= |dims|
    ensures Volume(dims) == c * Volume(dims[k..])
  {
    if k == 0 {
      assert dims[0..] == dims;
      c := 1;
    } else {
      var d := PartDivides(dims[1..], k - 1);
      assert dims[1..][k - 1..] == dims[k..];
      c := dims[0] * d;
      Multiply(dims[0], d, Volume(dims[k..]));
    }
  }

  lemma Multiply(a: int, b: int, c: int)
    ensures a * (b * c) == a * b * c
  {
  }

  lemma SameFactor(x: int, y: int, v: int)
    requires v > 0 && x * v == y * v
    ensures x == y
  {
    Positive1(x - y, v);
    Positive1(y - x, v);
    assert (x - y) * v == x * v - y * v;
    assert (y - x) * v == y * v - x * v;
  }

  lemma Positive1(x: int, v: int)
    requires v > 0
    ensures x > 0 ==> x * v >= v
  {
    if x > 0 {
      assert x * v == (x - 1) * v + v;
    }
  }

  lemma Split(x: int, v: int)
    requires v > 0
    ensures x == (x / v) * v + x % v && 0 <= x % v < v
  {
  }

  lemma Between(d: int, e: int, i: int)
    requires 0 < i < e
    ensures d * e != i
  {
    Positive1(d, e);
    if d <= 0 {
      assert d * e <= 0;
    }
  }

  /** Inside a part one is not at the beginning of anything larger. */
  lemma NotAtStart(a: int, e: int, i: int, v: int, c: int)
    requires 0 < i < e && v > 0 && c * (e * v) > 0
    ensures ((a * e + i) * v) % (c * (e * v)) != 0
  {
    var q, m := (a * e + i) * v, c * (e * v);
    Split(q, m);
    NotTimes(a, e, i, v, c, q / m);
  }

  lemma NotTimes(a: int, e: int, i: int, v: int, c: int, k: int)
    requires 0 < i < e && v > 0
    ensures (a * e + i) * v != k * (c * (e * v))
  {
    Multiply(k, c, e * v);
    Multiply(k * c, e, v);
    Between(k * c - a, e, i);
    assert (k * c - a) * e == k * c * e - a * e;
    if (a * e + i) * v == k * c * e * v {
      SameFactor(a * e + i, k * c * e, v);
    }
  }

  lemma AlignedMultiple(dims: seq<nat>, p: nat)
    requires dims != [] && Positive(dims)
    ensures var v := Volume(Aligned(dims, p)); v > 0 && p % v == 0
  {
    var rest := dims[1..];
    if rest != [] && !(Volume(rest) > 0 && p % Volume(rest) == 0) {
      AlignedMultiple(rest, p);
    }
  }

  /** The part that braces start has room. */
  lemma AlignedFits(dims: seq<nat>, p: nat)
    requires dims != [] && Positive(dims) && p < Volume(dims)
    ensures p + Volume(Aligned(dims, p)) <= Volume(dims)
    ensures Positive(Aligned(dims, p))
  {
    AlignedMultiple(dims, p);
    hide Volume, Aligned;
    var part := Aligned(dims, p);
    var k := |dims| - |part|;
    assert part == dims[k..];
    var c := PartDivides(dims, k);
    MultiplesApart(p / Volume(part), c, Volume(part), p);
  }

  lemma MultiplesApart(m: int, c: int, v: int, p: int)
    requires v > 0 && p % v == 0 && m == p / v && p < c * v
    ensures p + v <= c * v
  {
    Split(p, v);
    Positive1(c - m, v);
    assert (c - m) * v == c * v - m * v;
    Positive1(m - c + 1, v);
    assert (m - c + 1) * v == m * v - c * v + v;
  }

  /** At row `i` of the part `dims[k..]`, braces open a row. */
  lemma {:induction false} AlignedIs(dims: seq<nat>, k: nat, a: nat, i: nat)
    requires Positive(dims) && k < |dims| && i < dims[k] && (k == 0 || i > 0)
    ensures Aligned(dims, (a * dims[k] + i) * Volume(dims[k + 1..])) == dims[k + 1..]
    decreases k
  {
    hide Volume, Aligned;
    var v, e := Volume(dims[k + 1..]), dims[k];
    VolumePositive(dims[k + 1..]);
    var p: nat := (a * e + i) * v;
    if k == 0 {
      RowStart(a * e + i, v);
      AlignedHere(dims, p);
    } else {
      var rest := dims[1..];
      assert rest[k - 1..] == dims[k..] && rest[k..] == dims[k + 1..];
      var c := PartDivides(rest, k - 1);
      VolumeHead(dims, k);
      VolumePositive(rest);
      Multiple(a, e, i, v, c, Volume(rest), Volume(dims[k..]));
      AlignedBelow(dims, p);
      AlignedIs(rest, k - 1, a, i);
    }
  }

  lemma Multiple(a: nat, e: nat, i: nat, v: nat, c: nat, whole: nat, part: nat)
    requires 0 < i < e && v > 0 && whole > 0 && whole == c * part && part == e * v
    ensures ((a * e + i) * v) % whole != 0
  {
    NotAtStart(a, e, i, v, c);
  }

  lemma AlignedHere(dims: seq<nat>, p: nat)
    requires dims != [] && Volume(dims[1..]) > 0 && p % Volume(dims[1..]) == 0
    ensures Aligned(dims, p) == dims[1..]
  {
  }

  lemma AlignedBelow(dims: seq<nat>, p: nat)
    requires |dims| > 1 && Volume(dims[1..]) > 0 && p % Volume(dims[1..]) != 0
    ensures Aligned(dims, p) == Aligned(dims[1..], p)
  {
  }

  lemma VolumeHead(dims: seq<nat>, k: nat)
    requires k < |dims|
    ensures Volume(dims[k..]) == dims[k] * Volume(dims[k + 1..])
  {
    assert dims[k..][1..] == dims[k + 1..];
  }

  lemma RowStart(n: int, v: int)
    requires v > 0
    ensures (n * v) % v == 0
  {
    var x := n * v;
    Split(x, v);
    var d := n - x / v;
    assert d * v == n * v - (x / v) * v;
    if x % v > 0 {
      Between(d, v, x % v);
    }
  }

  // ---- one level of regulation ----

  /** From `start` to `pos` the items have been arranged into `rows` of the part `dims[k..]`, which begins at `p`. */
  ghost predicate Progress(dims: seq<nat>, k: nat, items: seq<Init>, start: nat, p: nat, rows: seq<Init>, pos: nat)
    requires k < |dims| && Positive(dims) && start <= |items| && p <= Volume(dims)
  {
    var part := dims[k + 1..];
    var q := p + |rows| * Volume(part);
    && pos <= |items| && |rows| <= dims[k] && (forall r :: 0 <= r < |rows| ==> Fits(part, rows[r]))
    && q <= Volume(dims)
    && Fill(dims, items[start..], p) == Before(DenseRows(part, rows), Fill(dims, items[pos..], q))
  }

  lemma ProgressStarts(dims: seq<nat>, k: nat, items: seq<Init>, start: nat, p: nat)
    requires k < |dims| && Positive(dims) && start <= |items| && p <= Volume(dims)
    ensures Progress(dims, k, items, start, p, [], start)
  {
    hide Fill, Volume;
    NoRows(dims[k + 1..]);
    BeforeBoth([], [], Fill(dims, items[start..], p));
  }

  lemma NoRows(part: seq<nat>)
    ensures DenseRows(part, []) == [] && 0 * Volume(part) == 0
  {
  }

  /** A row has been filled by what the reference puts there. */
  lemma ProgressRow(dims: seq<nat>, k: nat, items: seq<Init>, start: nat, p: nat, rows: seq<Init>, pos: nat, row: Init, next: nat)
    requires k < |dims| && Positive(dims) && start <= |items| && p <= Volume(dims)
    requires Progress(dims, k, items, start, p, rows, pos) && |rows| < dims[k] && next <= |items|
    requires var part := dims[k + 1..];
             var q := p + |rows| * Volume(part);
             && Fits(part, row) && q + Volume(part) <= Volume(dims)
             && Fill(dims, items[pos..], q) == Before(Dense(part, row), Fill(dims, items[next..], q + Volume(part)))
    ensures Progress(dims, k, items, start, p, rows + [row], next)
  {
    hide Fill, Dense, Fits, Volume, Before;
    var part := dims[k + 1..];
    var all := rows + [row];
    var v := Volume(part);
    MoreRows(part, rows, row);
    assert (|rows| + 1) * v == |rows| * v + v;
    assert forall r :: 0 <= r < |all| ==> Fits(part, all[r]);
    var q := p + |rows| * v;
    BeforeBoth(DenseRows(part, rows), Dense(part, row), Fill(dims, items[next..], q + v));
  }

  lemma MoreRows(part: seq<nat>, rows: seq<Init>, row: Init)
    requires (forall r :: 0 <= r < |rows| ==> Fits(part, rows[r])) && Fits(part, row)
    ensures forall r :: 0 <= r < |rows + [row]| ==> Fits(part, (rows + [row])[r])
    ensures DenseRows(part, rows + [row]) == DenseRows(part, rows) + Dense(part, row)
  {
    var all := rows + [row];
    assert all[..|rows|] == rows;
  }

  /** All rows are there, or nothing is left; missing rows are zero. */
  lemma ProgressEnds(dims: seq<nat>, k: nat, items: seq<Init>, start: nat, p: nat, rows: seq<Init>, pos: nat)
    requires k < |dims| && Positive(dims) && start <= |items| && p + Volume(dims[k..]) <= Volume(dims)
    requires Progress(dims, k, items, start, p, rows, pos) && (|rows| == dims[k] || pos == |items|)
    ensures var t, end := List(rows), p + Volume(dims[k..]);
            Fits(dims[k..], t) && Fill(dims, items[start..], p) == Before(Dense(dims[k..], t), Fill(dims, items[pos..], end))
  {
    hide Fill, Volume, Dense, Fits, Before;
    var part, whole, t := dims[k + 1..], dims[k..], List(rows);
    VolumeHead(dims, k);
    var v, end := Volume(part), p + Volume(whole);
    RowsFit(dims[k], |rows|, v);
    var missing := (dims[k] - |rows|) * v;
    DenseWhole(dims, k, rows);
    var q := p + |rows| * v;
    if |rows| == dims[k] {
      assert missing == 0;
      assert DenseRows(part, rows) + Zeros(0) == DenseRows(part, rows);
    } else {
      assert items[pos..] == [];
      NothingLeft(dims, q);
      NothingLeft(dims, end);
      ZerosSum(missing, Volume(dims) - end);
      BeforeZeros(missing, Volume(dims) - end);
      BeforeBoth(DenseRows(part, rows), Zeros(missing), Fill(dims, items[pos..], end));
    }
  }

  lemma BeforeZeros(m: nat, n: nat)
    ensures Before(Zeros(m), Some(Zeros(n))) == Some(Zeros(m + n))
  {
    ZerosSum(m, n);
  }

  lemma DenseWhole(dims: seq<nat>, k: nat, rows: seq<Init>)
    requires k < |dims| && |rows| <= dims[k] && forall r :: 0 <= r < |rows| ==> Fits(dims[k + 1..], rows[r])
    ensures Fits(dims[k..], List(rows))
    ensures var missing := (dims[k] - |rows|) * Volume(dims[k + 1..]);
            missing >= 0 && Dense(dims[k..], List(rows)) == DenseRows(dims[k + 1..], rows) + Zeros(missing)
  {
    assert dims[k..][1..] == dims[k + 1..];
  }

  lemma NothingLeft(dims: seq<nat>, p: nat)
    requires dims != [] && Positive(dims) && p <= Volume(dims)
    ensures Fill(dims, [], p) == Some(Zeros(Volume(dims) - p))
  {
  }

  lemma ZerosSum(m: nat, n: nat)
    ensures Zeros(m + n) == Zeros(m) + Zeros(n)
  {
  }

  // ---- regulation ----

  /** Where the consumer stands: in the part `dims[k..]` of what the enclosing braces initialise, the `a`-th of its kind. */
  ghost predicate Expects(dims: seq<nat>, k: nat, a: nat, items: seq<Init>, pos: nat)
    requires pos <= |items|
  {
    && k < |dims| && Positive(dims)
    && a * Volume(dims[k..]) + Volume(dims[k..]) <= Volume(dims)
    && (k == 0 || (pos < |items| && items[pos].Value?))
  }

  /** What has been consumed means what the reference says. */
  ghost predicate Consumed(dims: seq<nat>, k: nat, a: nat, items: seq<Init>, start: nat, t: Init, pos: nat)
    requires start <= |items| && pos <= |items| && Expects(dims, k, a, items, start)
  {
    var p := a * Volume(dims[k..]);
    var end := p + Volume(dims[k..]);
    Fits(dims[k..], t) && Fill(dims, items[start..], p) == Before(Dense(dims[k..], t), Fill(dims, items[pos..], end))
  }

  /** Row `i` of the part begins here. */
  lemma RowBegins(dims: seq<nat>, k: nat, a: nat, i: nat)
    requires k < |dims| && i < dims[k]
    ensures var v := Volume(dims[k + 1..]);
            && a * Volume(dims[k..]) + i * v == (a * dims[k] + i) * v
            && a * Volume(dims[k..]) + i * v + v <= a * Volume(dims[k..]) + Volume(dims[k..])
  {
    hide Volume;
    VolumeHead(dims, k);
    var v := Volume(dims[k + 1..]);
    Multiply(a, dims[k], v);
    assert (a * dims[k] + i) * v == a * dims[k] * v + i * v;
    RowsFit(dims[k], i + 1, v);
    assert (i + 1) * v == i * v + v;
  }

  /** The reading fails from the first item on. */
  ghost predicate Fails(dims: seq<nat>, k: nat, a: nat, items: seq<Init>, start: nat)
    requires start <= |items| && Expects(dims, k, a, items, start)
  {
    Fill(dims, items[start..], a * Volume(dims[k..])) == None
  }

  lemma FailsHere(dims: seq<nat>, k: nat, a: nat, items: seq<Init>, start: nat, rows: seq<Init>, pos: nat)
    requires start <= |items| && Expects(dims, k, a, items, start)
    requires Progress(dims, k, items, start, a * Volume(dims[k..]), rows, pos)
    requires var q := a * Volume(dims[k..]) + |rows| * Volume(dims[k + 1..]); q <= Volume(dims) && Fill(dims, items[pos..], q) == None
    ensures Fails(dims, k, a, items, start)
  {
    hide Fill, Volume;
  }

  /** The item at `pos` is a value, or empty braces, and goes to one element; with other braces the reading fails. */
  lemma OneElement(dims: seq<nat>, k: nat, a: nat, items: seq<Init>, start: nat, rows: seq<Init>, pos: nat)
    requires start <= |items| && Expects(dims, k, a, items, start) && k + 1 == |dims|
    requires Progress(dims, k, items, start, a * Volume(dims[k..]), rows, pos) && |rows| < dims[k] && pos < |items|
    requires rows == [] ==> pos == start
    ensures items[pos].List? && items[pos].items != [] ==> Fails(dims, k, a, items, start)
    ensures var row := if items[pos].List? then Value(0) else items[pos];
            (items[pos].List? && items[pos].items != []) || Progress(dims, k, items, start, a * Volume(dims[k..]), rows + [row], pos + 1)
  {
    hide Fill, Aligned, Volume, Progress, Dense, Fits, Before, Fails;
    var i, p, row := |rows|, a * Volume(dims[k..]), if items[pos].List? then Value(0) else items[pos];
    assert dims[k + 1..] == [];
    ScalarVolume();
    RowBegins(dims, k, a, i);
    var q := p + i * Volume(dims[k + 1..]);
    if items[pos].List? {
      AlignedIs(dims, k, a, i);
    }
    OneStep(dims, items, pos, q);
    if items[pos].List? && items[pos].items != [] {
      FailsHere(dims, k, a, items, start, rows, pos);
    } else {
      ScalarDense(row);
      ProgressRow(dims, k, items, start, p, rows, pos, row, pos + 1);
    }
  }

  lemma ScalarDense(row: Init)
    requires row.Value?
    ensures Fits([], row) && Dense([], row) == [row.n]
  {
  }

  lemma OneStep(dims: seq<nat>, items: seq<Init>, pos: nat, q: nat)
    requires dims != [] && Positive(dims) && pos < |items| && q < Volume(dims)
    requires items[pos].List? ==> Aligned(dims, q) == []
    ensures items[pos].List? && items[pos].items != [] ==> Fill(dims, items[pos..], q) == None
    ensures (items[pos].List? && items[pos].items != []) ||
            Fill(dims, items[pos..], q) == Before([if items[pos].List? then 0 else items[pos].n], Fill(dims, items[pos + 1..], q + 1))
  {
    ScalarVolume();
    hide Volume, Aligned, Before;
    var rest := items[pos..];
    assert rest[0] == items[pos] && rest[1..] == items[pos + 1..];
  }

  /** The innermost dimension: take elements as long as there are any and they fit. */
  method ConsumeElements(lengths: seq<nat>, items: seq<Init>, pos0: nat, ghost dims: seq<nat>, ghost k: nat, ghost a: nat)
    returns (t: Option<Init>, pos: nat)
    requires pos0 <= |items| && lengths != [] && Expects(dims, k, a, items, pos0) && dims[k..] == lengths[|lengths| - 1..]
    ensures pos0 <= pos <= |items| && (t.Some? ==> Fits(lengths[|lengths| - 1..], t.value))
    ensures if t.Some? then Consumed(dims, k, a, items, pos0, t.value, pos) else Fails(dims, k, a, items, pos0)
  {
    hide Fill, Volume, Aligned, Dense, Progress, Fits, Fails;
    var length := lengths[|lengths| - 1];
    pos := pos0;
    var result: seq<Init> := [];
    LastLevel(lengths, dims, k);
    ProgressStarts(dims, k, items, pos0, a * Volume(dims[k..]));
    while pos < |items| && |result| < length
      invariant pos0 <= pos <= |items| && |result| <= length && (result == [] ==> pos == pos0)
      invariant forall r :: 0 <= r < |result| ==> result[r].Value?
      invariant Progress(dims, k, items, pos0, a * Volume(dims[k..]), result, pos)
    {
      OneElement(dims, k, a, items, pos0, result, pos);
      if items[pos].List? {
        if items[pos].items != [] {
          return None, pos;
        }
        result := result + [Value(0)];
      } else {
        result := result + [items[pos]];
      }
      pos := pos + 1;
    }
    t := Some(List(result));
    ValuesFit(lengths, result);
    ProgressEnds(dims, k, items, pos0, a * Volume(dims[k..]), result, pos);
  }

  lemma LastLevel(lengths: seq<nat>, dims: seq<nat>, k: nat)
    requires lengths != [] && k < |dims| && dims[k..] == lengths[|lengths| - 1..]
    ensures k + 1 == |dims| && dims[k] == lengths[|lengths| - 1]
  {
    assert |dims[k..]| == 1 && dims[k..][0] == lengths[|lengths| - 1];
  }

  lemma ValuesFit(lengths: seq<nat>, result: seq<Init>)
    requires lengths != [] && |result| <= lengths[|lengths| - 1] && forall r :: 0 <= r < |result| ==> result[r].Value?
    ensures Fits(lengths[|lengths| - 1..], List(result))
  {
    var last := lengths[|lengths| - 1..];
    assert last[1..] == [];
  }

  /** Braces at this level open the next row, and are read on their own. */
  lemma BraceStep(dims: seq<nat>, k: nat, a: nat, items: seq<Init>, start: nat, rows: seq<Init>, pos: nat)
    requires start <= |items| && Expects(dims, k, a, items, start) && k + 1 < |dims| && |rows| < dims[k] && pos < |items| && items[pos].List?
    requires rows == [] ==> pos == start
    ensures Expects(dims[k + 1..], 0, 0, items[pos].items, 0)
    ensures var part, inner := dims[k + 1..], items[pos].items;
            var q := a * Volume(dims[k..]) + |rows| * Volume(part);
            && q + Volume(part) <= Volume(dims)
            && Fill(dims, items[pos..], q) ==
               if Fill(part, inner, 0).None? then None else Before(Fill(part, inner, 0).value, Fill(dims, items[pos + 1..], q + Volume(part)))
  {
    hide Aligned, Volume, Before;
    RowBegins(dims, k, a, |rows|);
    AlignedIs(dims, k, a, |rows|);
    VolumePositive(dims[k + 1..]);
    var rest, part := items[pos..], dims[k + 1..];
    assert rest[0] == items[pos] && rest[1..] == items[pos + 1..];
    assert part[0..] == part;
  }

  /** The braces have been consumed as the next row. */
  lemma BraceGivesRow(dims: seq<nat>, k: nat, a: nat, items: seq<Init>, start: nat, rows: seq<Init>, pos: nat, row: Option<Init>, next: nat)
    requires start <= |items| && Expects(dims, k, a, items, start) && k + 1 < |dims|
    requires Progress(dims, k, items, start, a * Volume(dims[k..]), rows, pos) && |rows| < dims[k] && pos < |items| && items[pos].List?
    requires rows == [] ==> pos == start
    requires Expects(dims[k + 1..], 0, 0, items[pos].items, 0) && next <= |items[pos].items|
    requires if row.Some? then Consumed(dims[k + 1..], 0, 0, items[pos].items, 0, row.value, next) else Fails(dims[k + 1..], 0, 0, items[pos].items, 0)
    ensures if row.Some? then Progress(dims, k, items, start, a * Volume(dims[k..]), rows + [row.value], pos + 1) else Fails(dims, k, a, items, start)
  {
    hide Fill, Aligned, Volume, Progress, Dense, Fits, Before;
    var p, part, inner := a * Volume(dims[k..]), dims[k + 1..], items[pos].items;
    BraceStep(dims, k, a, items, start, rows, pos);
    assert part[0..] == part && inner[0..] == inner;
    if row.Some? {
      NothingMore(part, inner[next..]);
      BeforeNothing(Dense(part, row.value));
      ProgressRow(dims, k, items, start, p, rows, pos, row.value, pos + 1);
    } else {
      FailsHere(dims, k, a, items, start, rows, pos);
    }
  }

  lemma NothingMore(dims: seq<nat>, items: seq<Init>)
    requires dims != [] && Positive(dims)
    ensures Fill(dims, items, Volume(dims)) == Some([])
  {
    assert Zeros(0) == [];
  }

  lemma BeforeNothing(x: seq<int>)
    ensures Before(x, Some([])) == Some(x)
  {
    assert x + [] == x;
  }

  /** A value at this level belongs to the next row, which goes on with the same items. */
  lemma ValueOpensRow(dims: seq<nat>, k: nat, a: nat, items: seq<Init>, start: nat, rows: seq<Init>, pos: nat)
    requires start <= |items| && Expects(dims, k, a, items, start) && k + 1 < |dims| && |rows| < dims[k] && pos < |items| && items[pos].Value?
    ensures Expects(dims, k + 1, a * dims[k] + |rows|, items, pos)
  {
    hide Volume;
    RowBegins(dims, k, a, |rows|);
  }

  lemma ValueGivesRow(dims: seq<nat>, k: nat, a: nat, items: seq<Init>, start: nat, rows: seq<Init>, pos: nat, row: Option<Init>, next: nat)
    requires start <= |items| && Expects(dims, k, a, items, start) && k + 1 < |dims|
    requires Progress(dims, k, items, start, a * Volume(dims[k..]), rows, pos) && |rows| < dims[k] && pos < |items| && items[pos].Value?
    requires Expects(dims, k + 1, a * dims[k] + |rows|, items, pos) && next <= |items|
    requires var i := a * dims[k] + |rows|; if row.Some? then Consumed(dims, k + 1, i, items, pos, row.value, next) else Fails(dims, k + 1, i, items, pos)
    ensures if row.Some? then Progress(dims, k, items, start, a * Volume(dims[k..]), rows + [row.value], next) else Fails(dims, k, a, items, start)
  {
    hide Fill, Aligned, Volume, Progress, Dense, Fits, Before;
    RowBegins(dims, k, a, |rows|);
    if row.Some? {
      ProgressRow(dims, k, items, start, a * Volume(dims[k..]), rows, pos, row.value, next);
    } else {
      FailsHere(dims, k, a, items, start, rows, pos);
    }
  }

  /**
   Take what belongs to one part of the array from the items at hand. Braces are consumed on
   their own; values are taken by the next row from the same items. Nothing is returned
   where an assertion of the compiler fails, and then the initialiser has no reading.
   */
  method ConsumeArrayInitBlock(lengths: seq<nat>, currentDim: nat, items: seq<Init>, pos0: nat, ghost dims: seq<nat>, ghost k: nat, ghost a: nat)
    returns (t: Option<Init>, pos: nat)
    requires 0 < currentDim <= |lengths| && pos0 <= |items|
    requires Expects(dims, k, a, items, pos0) && dims[k..] == lengths[currentDim - 1..]
    ensures pos0 <= pos <= |items| && (t.Some? ==> Fits(lengths[currentDim - 1..], t.value))
    ensures if t.Some? then Consumed(dims, k, a, items, pos0, t.value, pos) else Fails(dims, k, a, items, pos0)
    decreases |lengths| - currentDim
  {
    hide Fill, Volume, Aligned, Dense, Progress, Fits, Expects, Consumed, Fails;
    if currentDim == |lengths| {
      t, pos := ConsumeElements(lengths, items, pos0, dims, k, a);
      return;
    }
    var length := lengths[currentDim - 1];
    pos := pos0;
    var result: seq<Init> := [];
    ExpectsParts(dims, k, a, items, pos0);
    InnerLevel(lengths, currentDim, dims, k);
    ProgressStarts(dims, k, items, pos0, a * Volume(dims[k..]));
    while |result| < length && pos < |items|
      invariant pos0 <= pos <= |items| && |result| <= length && (result == [] ==> pos == pos0)
      invariant forall r :: 0 <= r < |result| ==> Fits(lengths[currentDim..], result[r])
      invariant Progress(dims, k, items, pos0, a * Volume(dims[k..]), result, pos)
      decreases length - |result|
    {
      var row;
      if items[pos].List? {
        BraceStep(dims, k, a, items, pos0, result, pos);
        var inner;
        assert dims[k + 1..][0..] == dims[k + 1..];
        row, inner := ConsumeArrayInitBlock(lengths, currentDim + 1, items[pos].items, 0, dims[k + 1..], 0, 0);
        BraceGivesRow(dims, k, a, items, pos0, result, pos, row, inner);
        pos := pos + 1;
      } else {
        ValueOpensRow(dims, k, a, items, pos0, result, pos);
        ghost var was := pos;
        row, pos := ConsumeArrayInitBlock(lengths, currentDim + 1, items, pos, dims, k + 1, a * dims[k] + |result|);
        ValueGivesRow(dims, k, a, items, pos0, result, was, row, pos);
      }
      if row.None? {
        return None, pos;
      }
      result := result + [row.value];
    }
    t := Some(List(result));
    RowsGiveList(lengths, currentDim, result);
    ProgressEnds(dims, k, items, pos0, a * Volume(dims[k..]), result, pos);
    ItIsConsumed(dims, k, a, items, pos0, List(result), pos);
  }

  lemma InnerLevel(lengths: seq<nat>, currentDim: nat, dims: seq<nat>, k: nat)
    requires 0 < currentDim < |lengths| && k <= |dims| && dims[k..] == lengths[currentDim - 1..]
    ensures k + 1 < |dims| && dims[k] == lengths[currentDim - 1] && dims[k + 1..] == lengths[currentDim..]
  {
    var d, l := dims[k..], lengths[currentDim - 1..];
    assert d[0] == l[0] && d[1..] == l[1..];
    assert d[1..] == dims[k + 1..] && l[1..] == lengths[currentDim..];
  }

  lemma ExpectsParts(dims: seq<nat>, k: nat, a: nat, items: seq<Init>, pos: nat)
    requires pos <= |items| && Expects(dims, k, a, items, pos)
    ensures k < |dims| && Positive(dims) && a * Volume(dims[k..]) + Volume(dims[k..]) <= Volume(dims)
  {
  }

  lemma ItIsConsumed(dims: seq<nat>, k: nat, a: nat, items: seq<Init>, start: nat, t: Init, pos: nat)
    requires start <= |items| && pos <= |items| && Expects(dims, k, a, items, start)
    requires var p := a * Volume(dims[k..]);
             var end := p + Volume(dims[k..]);
             Fits(dims[k..], t) && Fill(dims, items[start..], p) == Before(Dense(dims[k..], t), Fill(dims, items[pos..], end))
    ensures Consumed(dims, k, a, items, start, t, pos)
  {
  }

  lemma RowsGiveList(lengths: seq<nat>, currentDim: nat, result: seq<Init>)
    requires 0 < currentDim <= |lengths| && |result| <= lengths[currentDim - 1] && forall r :: 0 <= r < |result| ==> Fits(lengths[currentDim..], result[r])
    ensures Fits(lengths[currentDim - 1..], List(result))
  {
    assert lengths[currentDim - 1..][1..] == lengths[currentDim..];
  }

  /** An initialiser becomes a regular list that means the same; it fails exactly if the initialiser has no reading. */
  method RegulateInitListForArray(lengths: seq<nat>, list: seq<Init>) returns (t: Option<Init>)
    requires lengths != [] && Positive(lengths)
    ensures t.Some? ==> Fits(lengths, t.value) && Fill(lengths, list, 0) == Some(Dense(lengths, t.value))
    ensures t.None? <==> Fill(lengths, list, 0) == None
  {
    assert lengths[0..] == lengths && list[0..] == list;
    var pos;
    t, pos := ConsumeArrayInitBlock(lengths, 1, list, 0, lengths, 0, 0);
    if t.Some? {
      NothingMore(lengths, list[pos..]);
      BeforeNothing(Dense(lengths, t.value));
    }
  }

  // ---- constant subscripts ----

  predicate InBounds(dims: seq<nat>, indices: seq<int>) {
    |indices| == |dims| && forall k :: 0 <= k < |dims| ==> 0 <= indices[k] < dims[k]
  }

  /** Row-major position. */
  function Offset(dims: seq<nat>, indices: seq<int>): (p: nat)
    requires InBounds(dims, indices)
    ensures p < Volume(dims)
  {
    if dims == [] then 0
    else
      var p := Offset(dims[1..], indices[1..]);
      OffsetFits(dims[0], indices[0], Volume(dims[1..]), p);
      indices[0] * Volume(dims[1..]) + p
  }

  lemma OffsetFits(d: nat, i: int, v: nat, p: nat)
    requires 0 <= i < d && p < v
    ensures 0 <= i * v + p < d * v
  {
    RowsFit(d, i + 1, v);
    assert (i + 1) * v == i * v + v;
  }

  /** One element of a dense array lies in the row that the first index says, or in the zeros. */
  lemma DenseAt(dims: seq<nat>, t: Init, i: nat, p: nat)
    requires dims != [] && Fits(dims, t) && i < dims[0] && p < Volume(dims[1..])
    ensures var q := i * Volume(dims[1..]) + p;
            q < Volume(dims) && Dense(dims, t)[q] == if i < |t.items| then Dense(dims[1..], t.items[i])[p] else 0
  {
    hide Volume, Dense, DenseRows;
    var part, n := dims[1..], |t.items|;
    VolumeHead(dims, 0);
    assert dims[0..] == dims;
    var v := Volume(part);
    OffsetFits(dims[0], i, v, p);
    RowsFit(dims[0], n, v);
    DenseParts(dims, t);
    var given, missing := DenseRows(part, t.items), (dims[0] - n) * v;
    var q := i * v + p;
    if i < n {
      RowAt(part, t.items, i, p);
      ThenZeros(given, missing, q);
    } else {
      RowsFit(i, n, v);
      ThenZeros(given, missing, q);
    }
  }

  lemma ThenZeros(given: seq<int>, missing: nat, q: nat)
    requires q < |given| + missing
    ensures (given + Zeros(missing))[q] == if q < |given| then given[q] else 0
  {
  }

  lemma DenseParts(dims: seq<nat>, t: Init)
    requires dims != [] && Fits(dims, t)
    ensures (dims[0] - |t.items|) * Volume(dims[1..]) >= 0
    ensures Dense(dims, t) == DenseRows(dims[1..], t.items) + Zeros((dims[0] - |t.items|) * Volume(dims[1..]))
  {
    hide Volume, Dense;
    assert dims[0..] == dims && t == List(t.items);
    DenseWhole(dims, 0, t.items);
  }

  lemma {:induction false} RowAt(part: seq<nat>, items: seq<Init>, i: nat, p: nat)
    requires (forall k :: 0 <= k < |items| ==> Fits(part, items[k])) && i < |items| && p < Volume(part)
    ensures i * Volume(part) + p < |items| * Volume(part)
    ensures DenseRows(part, items)[i * Volume(part) + p] == Dense(part, items[i])[p]
  {
    hide Volume, Dense, Fits;
    var n, v := |items| - 1, Volume(part);
    OffsetFits(|items|, i, v, p);
    assert items == items[..n] + [items[n]];
    MoreRows(part, items[..n], items[n]);
    assert |DenseRows(part, items[..n])| == n * v;
    if i < n {
      OffsetFits(n, i, v, p);
      RowAt(part, items[..n], i, p);
    }
  }

  /** The element that the subscripts designate; outside the bounds the answer is zero. */
  ghost function Element(dims: seq<nat>, t: Init, indices: seq<int>): int
    requires Fits(dims, t) && |indices| == |dims|
  {
    if InBounds(dims, indices) then Dense(dims, t)[Offset(dims, indices)] else 0
  }

  /** Subscripts of a constant array: follow the lists, and give zero where a list is too short. */
  method EvaluateSubscript(dims: seq<nat>, t: Init, indices: seq<int>) returns (v: int)
    requires dims != [] && Fits(dims, t) && |indices| == |dims|
    ensures v == Element(dims, t, indices)
  {
    var initval, n := t.items, 0;
    ghost var rest := dims;
    ghost var here := t;
    while true
      invariant 0 <= n < |dims| && rest == dims[n..] && Fits(rest, here) && here.List? && initval == here.items
      invariant Element(dims, t, indices) == Element(rest, here, indices[n..])
      decreases |dims| - n
    {
      var index := indices[n];
      StepDown(rest, here, indices[n..]);
      assert indices[n..][1..] == indices[n + 1..];
      // the comparison is one of unsigned numbers
      if index < 0 || index >= |initval| {
        return 0;
      }
      var expr := initval[index];
      n := n + 1;
      if n < |indices| {
        initval := expr.items;
        rest, here := rest[1..], expr;
      } else {
        LastStep(expr, indices[n..]);
        return expr.n;
      }
    }
  }

  lemma LastStep(row: Init, none: seq<int>)
    requires row.Value? && none == []
    ensures Fits([], row) && Element([], row, none) == row.n
  {
  }

  /** One subscript leads to one item of the list, or to zero. */
  lemma StepDown(dims: seq<nat>, t: Init, indices: seq<int>)
    requires dims != [] && Fits(dims, t) && |indices| == |dims|
    ensures 0 <= indices[0] < |t.items| ==> Fits(dims[1..], t.items[indices[0]])
    ensures Element(dims, t, indices) ==
            if 0 <= indices[0] < |t.items| then Element(dims[1..], t.items[indices[0]], indices[1..]) else 0
  {
    hide Volume, Dense;
    var inner := indices[1..];
    BoundsStep(dims, indices);
    if InBounds(dims, indices) {
      DenseAt(dims, t, indices[0], Offset(dims[1..], inner));
    }
  }

  lemma BoundsStep(dims: seq<nat>, indices: seq<int>)
    requires dims != [] && |indices| == |dims|
    ensures InBounds(dims, indices) <==> 0 <= indices[0] < dims[0] && InBounds(dims[1..], indices[1..])
  {
    forall k | 0 < k < |dims|
      ensures dims[k] == dims[1..][k - 1] && indices[k] == indices[1..][k - 1]
    {
    }
    if 0 <= indices[0] < dims[0] && InBounds(dims[1..], indices[1..]) {
      forall k | 0 <= k < |dims|
        ensures 0 <= indices[k] < dims[k]
      {
        if k > 0 {
          var j := k - 1;
          assert 0 <= indices[1..][j] < dims[1..][j];
        }
      }
    }
  }

  // ---- local arrays ----

  /** A store of `value` to word `offset`. */
  datatype Store = Store(offset: nat, value: int)

  function Apply(code: seq<Store>, mem: seq<int>): (r: seq<int>)
    requires forall k :: 0 <= k < |code| ==> code[k].offset < |mem|
    ensures |r| == |mem|
  {
    if code == [] then mem
    else
      var n := |code| - 1;
      Apply(code[..n], mem)[code[n].offset := code[n].value]
  }

  lemma {:induction false} ApplySum(a: seq<Store>, b: seq<Store>, mem: seq<int>)
    requires forall k :: 0 <= k < |a| ==> a[k].offset < |mem|
    requires forall k :: 0 <= k < |b| ==> b[k].offset < |mem|
    ensures forall k :: 0 <= k < |a + b| ==> (a + b)[k].offset < |mem|
    ensures Apply(a + b, mem) == Apply(b, Apply(a, mem))
  {
    if b == [] {
      assert a + b == a;
    } else {
      var n := |b| - 1;
      assert (a + b)[..|a + b| - 1] == a + b[..n];
      ApplySum(a, b[..n], mem);
    }
  }

  /** Run on memory that is zero from `at` on, the code puts `words` there and changes nothing else. */
  ghost predicate Writes(code: seq<Store>, at: nat, words: seq<int>) {
    && (forall k :: 0 <= k < |code| ==> at <= code[k].offset < at + |words|)
    && forall mem: seq<int> :: WritesTo(code, at, words, mem)
  }

  ghost predicate WritesTo(code: seq<Store>, at: nat, words: seq<int>, mem: seq<int>) {
    (forall k :: 0 <= k < |code| ==> code[k].offset < |mem|) && at + |words| <= |mem| && mem[at..at + |words|] == Zeros(|words|) ==>
      Apply(code, mem) == mem[..at] + words + mem[at + |words|..]
  }

  lemma WritesNothing(at: nat, n: nat)
    ensures Writes([], at, Zeros(n))
  {
    forall mem: seq<int>
      ensures WritesTo([], at, Zeros(n), mem)
    {
      if at + n <= |mem| && mem[at..at + n] == Zeros(n) {
        assert mem == mem[..at] + mem[at..at + n] + mem[at + n..];
      }
    }
  }

  lemma WritesOne(at: nat, v: int)
    ensures Writes([Store(at, v)], at, [v])
  {
    var code := [Store(at, v)];
    assert code[..0] == [];
    forall mem: seq<int>
      ensures WritesTo(code, at, [v], mem)
    {
      if at + 1 <= |mem| {
        assert Apply(code, mem) == mem[at := v];
        assert mem[at := v] == mem[..at] + [v] + mem[at + 1..];
      }
    }
  }

  lemma WritesThen(a: seq<Store>, at: nat, x: seq<int>, b: seq<Store>, y: seq<int>)
    requires Writes(a, at, x) && Writes(b, at + |x|, y)
    ensures Writes(a + b, at, x + y)
  {
    var words := x + y;
    forall mem: seq<int>
      ensures WritesTo(a + b, at, words, mem)
    {
      WritesThenTo(a, at, x, b, y, mem);
    }
  }

  lemma WritesThenTo(a: seq<Store>, at: nat, x: seq<int>, b: seq<Store>, y: seq<int>, mem: seq<int>)
    requires Writes(a, at, x) && Writes(b, at + |x|, y)
    ensures WritesTo(a + b, at, x + y, mem)
  {
    hide Apply;
    var mid, end := at + |x|, at + |x| + |y|;
    if end <= |mem| && mem[at..end] == Zeros(|x + y|) {
      ApplySum(a, b, mem);
      var m := Apply(a, mem);
      assert mem[at..mid] == mem[at..end][..|x|] == Zeros(|x|);
      assert WritesTo(a, at, x, mem);
      assert m == mem[..at] + x + mem[mid..];
      assert m[mid..end] == mem[mid..end] == mem[at..end][|x|..] == Zeros(|y|);
      assert WritesTo(b, mid, y, m);
      assert m[..mid] == mem[..at] + x && m[end..] == mem[end..];
    }
  }

  /**
   The stores that follow the `memset` of a local array. Lists without elements are skipped,
   and what is not given stays zero.
   */
  method TranslateArrayInitAssign(dims: seq<nat>, t: Init, address: nat) returns (code: seq<Store>)
    requires dims != [] && Fits(dims, t)
    ensures Writes(code, address, Dense(dims, t))
    decreases |dims|
  {
    hide Volume, Dense, Writes;
    ghost var part := dims[1..];
    assert dims[0..] == dims && t == List(t.items);
    DenseParts(dims, t);
    NoRows(part);
    code := [];
    WritesNothing(address, 0);
    assert Zeros(0) == [];
    for index := 0 to |t.items|
      invariant Writes(code, address, DenseRows(part, t.items[..index]))
    {
      NextRow(part, t.items, index);
      var e, here := t.items[index], address + index * Volume(dims[1..]);
      var more: seq<Store> := [];
      if |dims| > 1 {
        if |e.items| > 0 {
          more := TranslateArrayInitAssign(dims[1..], e, here);
        } else {
          EmptyIsZero(part, e);
          WritesNothing(here, Volume(part));
        }
      } else {
        ScalarDense(e);
        more := [Store(here, e.n)];
        WritesOne(here, e.n);
      }
      WritesThen(code, address, DenseRows(part, t.items[..index]), more, Dense(part, e));
      code := code + more;
    }
    assert t.items[..|t.items|] == t.items;
    ghost var missing := (dims[0] - |t.items|) * Volume(part);
    WritesNothing(address + |t.items| * Volume(part), missing);
    WritesThen(code, address, DenseRows(part, t.items), [], Zeros(missing));
    assert code + [] == code;
  }

  lemma EmptyIsZero(dims: seq<nat>, t: Init)
    requires dims != [] && Fits(dims, t) && t.items == []
    ensures Dense(dims, t) == Zeros(Volume(dims))
  {
    hide Volume, Dense;
    VolumeHead(dims, 0);
    assert dims[0..] == dims;
    DenseParts(dims, t);
    NoRows(dims[1..]);
  }

  // ---- global data ----

  datatype Directive = Zero(bytes: nat) | Long(value: int)

  /** The words that directives put into the data section. */
  function Words(ds: seq<Directive>): seq<int> {
    if ds == [] then []
    else (if ds[0].Zero? then Zeros(ds[0].bytes / 4) else [ds[0].value]) + Words(ds[1..])
  }

  function Bytes(ds: seq<Directive>): nat {
    if ds == [] then 0 else (if ds[0].Zero? then ds[0].bytes else 4) + Bytes(ds[1..])
  }

  lemma WordsSum(a: seq<Directive>, b: seq<Directive>)
    ensures Words(a + b) == Words(a) + Words(b) && Bytes(a + b) == Bytes(a) + Bytes(b)
  {
    if a == [] {
      assert a + b == b;
    } else {
      assert (a + b)[1..] == a[1..] + b;
      WordsSum(a[1..], b);
      var first := if a[0].Zero? then Zeros(a[0].bytes / 4) else [a[0].value];
      assert first + (Words(a[1..]) + Words(b)) == first + Words(a[1..]) + Words(b);
    }
  }

  lemma OneDirective(d: Directive)
    ensures Words([d]) == (if d.Zero? then Zeros(d.bytes / 4) else [d.value])
    ensures Bytes([d]) == if d.Zero? then d.bytes else 4
  {
    assert [d][1..] == [];
  }

  lemma {:induction false} WordsFillBytes(ds: seq<Directive>)
    requires forall k :: 0 <= k < |ds| && ds[k].Zero? ==> ds[k].bytes % 4 == 0
    ensures Bytes(ds) == 4 * |Words(ds)|
  {
    if ds != [] {
      WordsFillBytes(ds[1..]);
    }
  }

  /** What directives amount to: whole words only, and these. */
  ghost predicate Emits(ds: seq<Directive>, words: seq<int>) {
    Words(ds) == words && forall k :: 0 <= k < |ds| && ds[k].Zero? ==> ds[k].bytes % 4 == 0
  }

  lemma EmitsThen(a: seq<Directive>, x: seq<int>, b: seq<Directive>, y: seq<int>)
    requires Emits(a, x) && Emits(b, y)
    ensures Emits(a + b, x + y)
  {
    WordsSum(a, b);
  }

  lemma NothingEmitted()
    ensures Emits([], [])
  {
  }

  lemma EmitsExactly(ds: seq<Directive>, words: seq<int>)
    requires Emits(ds, words)
    ensures Bytes(ds) == 4 * |words|
  {
    WordsFillBytes(ds);
  }

  lemma NextRow(part: seq<nat>, items: seq<Init>, i: nat)
    requires i < |items| && forall k :: 0 <= k < |items| ==> Fits(part, items[k])
    ensures DenseRows(part, items[..i + 1]) == DenseRows(part, items[..i]) + Dense(part, items[i])
  {
    assert items[..i + 1] == items[..i] + [items[i]];
    MoreRows(part, items[..i], items[i]);
  }

  lemma EmitsZero(words: nat)
    ensures Emits([Zero(4 * words)], Zeros(words))
  {
    OneDirective(Zero(4 * words));
  }

  lemma EmitsLong(v: int)
    ensures Emits([Long(v)], [v])
  {
    OneDirective(Long(v));
  }

  lemma DivideSize(d: nat, v: nat)
    requires 4 * (d * v) > 0
    ensures d > 0 && (4 * (d * v)) / d == 4 * v
  {
    Multiply(4, v, d);
    assert 4 * (d * v) == (4 * v) * d;
    Split((4 * v) * d, d);
    RowStart(4 * v, d);
    SameFactor(((4 * v) * d) / d, 4 * v, d);
  }

  /** The data directives of a global array; `baseSize` is the size of one element of the outermost dimension in bytes. */
  method GenGlobalArrayInitData(dims: seq<nat>, t: Init, baseSize: nat) returns (body: seq<Directive>)
    requires dims != [] && Fits(dims, t) && baseSize == 4 * Volume(dims[1..])
    ensures Emits(body, Dense(dims, t)) && Bytes(body) == 4 * Volume(dims)
    decreases |dims|
  {
    hide *;
    ghost var part, v := dims[1..], Volume(dims[1..]);
    DataParts(dims, t);
    if baseSize == 0 {
      EmptyData(dims, t);
      return [];
    }
    if t.items == [] {
      body := [Zero(baseSize * dims[0])];
      ZeroData(dims, t, baseSize);
      return;
    }
    body := [];
    NoRows(part);
    NothingEmitted();
    for i := 0 to |t.items|
      invariant Emits(body, DenseRows(part, t.items[..i]))
    {
      NextRow(part, t.items, i);
      var more;
      if |dims| > 1 {
        DataBelow(dims, baseSize);
        more := GenGlobalArrayInitData(dims[1..], t.items[i], baseSize / dims[1]);
      } else {
        LastRow(dims, t.items[i]);
        more := [Long(t.items[i].n)];
      }
      EmitsThen(body, DenseRows(part, t.items[..i]), more, Dense(part, t.items[i]));
      body := body + more;
    }
    assert t.items[..|t.items|] == t.items;
    var left := dims[0] - |t.items|;
    RestOfData(dims, t, baseSize, body);
    if left > 0 {
      body := body + [Zero(baseSize * left)];
    }
  }

  // ---- steps of the generator of data ----

  lemma DataParts(dims: seq<nat>, t: Init)
    requires dims != [] && Fits(dims, t)
    ensures t.List? && |t.items| <= dims[0] && forall k :: 0 <= k < |t.items| ==> Fits(dims[1..], t.items[k])
  {
  }

  lemma EmptyData(dims: seq<nat>, t: Init)
    requires dims != [] && Fits(dims, t) && Volume(dims[1..]) == 0
    ensures Emits([], Dense(dims, t)) && Bytes([]) == 4 * Volume(dims)
  {
    assert dims[0..] == dims;
    VolumeHead(dims, 0);
    NothingEmitted();
    assert Volume(dims) == 0;
  }

  lemma ZeroData(dims: seq<nat>, t: Init, baseSize: nat)
    requires dims != [] && Fits(dims, t) && t.items == [] && baseSize == 4 * Volume(dims[1..])
    ensures var body := [Zero(baseSize * dims[0])]; Emits(body, Dense(dims, t)) && Bytes(body) == 4 * Volume(dims)
  {
    hide *;
    var body, v := [Zero(baseSize * dims[0])], Volume(dims[1..]);
    assert dims[0..] == dims;
    VolumeHead(dims, 0);
    EmptyIsZero(dims, t);
    Multiply(4, v, dims[0]);
    EmitsZero(v * dims[0]);
    EmitsExactly(body, Dense(dims, t));
  }

  /** The size of one element a dimension further in. */
  lemma DataBelow(dims: seq<nat>, baseSize: nat)
    requires |dims| > 1 && baseSize == 4 * Volume(dims[1..]) > 0
    ensures dims[1] > 0 && baseSize / dims[1] == 4 * Volume(dims[1..][1..])
  {
    var part := dims[1..];
    assert part[0] == dims[1] && part[0..] == part;
    VolumeHead(part, 0);
    DivideSize(dims[1], Volume(part[1..]));
  }

  lemma LastRow(dims: seq<nat>, row: Init)
    requires |dims| == 1 && Fits(dims[1..], row)
    ensures row.Value? && Emits([Long(row.n)], Dense(dims[1..], row))
  {
    ScalarDense(row);
    EmitsLong(row.n);
  }

  /** What is missing after the given rows is zero. */
  lemma RestOfData(dims: seq<nat>, t: Init, baseSize: nat, body: seq<Directive>)
    requires dims != [] && Fits(dims, t) && t.List? && baseSize == 4 * Volume(dims[1..])
    requires |t.items| <= dims[0] && (forall k :: 0 <= k < |t.items| ==> Fits(dims[1..], t.items[k])) && Emits(body, DenseRows(dims[1..], t.items))
    ensures var left := dims[0] - |t.items|;
            var all := if left > 0 then body + [Zero(baseSize * left)] else body;
            Emits(all, Dense(dims, t)) && Bytes(all) == 4 * Volume(dims)
  {
    hide *;
    var v, left := Volume(dims[1..]), dims[0] - |t.items|;
    var given, missing := DenseRows(dims[1..], t.items), left * v;
    DenseParts(dims, t);
    if left > 0 {
      Multiply(4, v, left);
      EmitsZero(missing);
      EmitsThen(body, given, [Zero(baseSize * left)], Zeros(missing));
      EmitsExactly(body + [Zero(baseSize * left)], Dense(dims, t));
    } else {
      assert missing == 0 && given + Zeros(0) == given;
      EmitsExactly(body, Dense(dims, t));
    }
  }
}
