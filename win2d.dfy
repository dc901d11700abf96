/** Structuring-element windows (win2d): an ordered set of weighted points with
    the statistics that describe its extent, and the standard windows. */
module Win2D {
  import opened Point2D

  /** One element of a window: a point and its weight (`pair<point2d, T>`, with
      T the integer pixel type). */
  datatype Entry = Entry(p: Point2d, weight: int)

  /** A weight-1 entry at (row, col), as the standard windows use. */
  function Unit(row: Coord, col: Coord): Entry
  {
    Entry(Point2d(row, col), 1)
  }

  /** `less<pair<point2d, T>>`: the points in `less<point2d>` order, then the
      weight to break a tie. */
  predicate EntryLess(l: Entry, r: Entry)
  {
    if l.p != r.p then Less(l.p, r.p) else l.weight < r.weight
  }

  /** `EntryLess` is a strict total order on entries. */
  lemma EntryLessIsStrictTotalOrder(a: Entry, b: Entry, c: Entry)
    ensures !EntryLess(a, a)
    ensures EntryLess(a, b) && EntryLess(b, c) ==> EntryLess(a, c)
    ensures a != b ==> EntryLess(a, b) || EntryLess(b, a)
    ensures EntryLess(a, b) ==> !EntryLess(b, a)
  {
  }

  // ---------------------------------------------------------------------------
  // The ordered set as a strictly increasing sequence (its iteration order)
  // ---------------------------------------------------------------------------

  ghost predicate StrictlySorted(s: seq<Entry>)
  {
    forall i, j :: 0 <= i < j < |s| ==> EntryLess(s[i], s[j])
  }

  /** The entries of a window, as a set. */
  function Elems(s: seq<Entry>): set<Entry>
  {
    set x | x in s
  }

  /** In a sorted sequence the head is below every later entry. */
  lemma HeadBelowTail(s: seq<Entry>)
    requires StrictlySorted(s) && |s| > 0
    ensures StrictlySorted(s[1..])
    ensures forall y :: y in s[1..] ==> EntryLess(s[0], y)
  {
    forall y | y in s[1..]
      ensures EntryLess(s[0], y)
    {
      var k :| 0 <= k < |s[1..]| && s[1..][k] == y;
      assert s[k + 1] == y;
    }
  }

  /** Putting an entry below everything in front of a sorted sequence keeps it sorted. */
  lemma ConsSorted(x: Entry, t: seq<Entry>)
    requires StrictlySorted(t)
    requires forall y :: y in t ==> EntryLess(x, y)
    ensures StrictlySorted([x] + t)
  {
    var s := [x] + t;
    forall i, j | 0 <= i < j < |s|
      ensures EntryLess(s[i], s[j])
    {
      assert s[j] == t[j - 1];
      if i == 0 {
        assert t[j - 1] in t;
      } else {
        assert s[i] == t[i - 1];
      }
    }
  }

  /** `set::insert` on the ordered representation: the entry goes at its place
      in the order, and inserting an entry already present changes nothing. */
  function Insert(s: seq<Entry>, e: Entry): (r: seq<Entry>)
    requires StrictlySorted(s)
    ensures StrictlySorted(r)
    ensures Elems(r) == Elems(s) + {e}
    decreases |s|
  {
    if |s| == 0 then
      [e]
    else if EntryLess(e, s[0]) then
      HeadBelowTail(s);
      EntryLessIsStrictTotalOrder(e, s[0], s[0]);
      assert forall y :: y in s ==> y == s[0] || y in s[1..];
      assert forall y :: y in s[1..] ==> EntryLess(s[0], y) && EntryLess(e, y) by {
        forall y | y in s[1..] ensures EntryLess(e, y) {
          EntryLessIsStrictTotalOrder(e, s[0], y);
        }
      }
      ConsSorted(e, s);
      assert Elems([e] + s) == {e} + Elems(s);
      [e] + s
    else if e == s[0] then
      s
    else
      HeadBelowTail(s);
      EntryLessIsStrictTotalOrder(s[0], e, e);
      var t := Insert(s[1..], e);
      assert s == [s[0]] + s[1..];
      assert Elems(s) == {s[0]} + Elems(s[1..]);
      assert forall y :: y in t ==> EntryLess(s[0], y) by {
        forall y | y in t ensures EntryLess(s[0], y) {
          assert y in Elems(t);
        }
      }
      ConsSorted(s[0], t);
      assert Elems([s[0]] + t) == {s[0]} + Elems(t);
      [s[0]] + t
  }

  /** Distinct entries: a sorted sequence has as many entries as its set. */
  lemma {:induction false} SortedCard(s: seq<Entry>)
    requires StrictlySorted(s)
    ensures |Elems(s)| == |s|
  {
    if |s| > 0 {
      HeadBelowTail(s);
      SortedCard(s[1..]);
      EntryLessIsStrictTotalOrder(s[0], s[0], s[0]);
      assert s[0] !in Elems(s[1..]);
      assert s == [s[0]] + s[1..];
      assert Elems(s) == {s[0]} + Elems(s[1..]);
    }
  }

  /** Re-adding an entry that is present leaves the window unchanged. */
  lemma {:induction false} InsertPresent(s: seq<Entry>, e: Entry)
    requires StrictlySorted(s) && e in s
    ensures Insert(s, e) == s
    decreases |s|
  {
    if s[0] != e {
      HeadBelowTail(s);
      assert e in s[1..] by {
        assert s == [s[0]] + s[1..];
      }
      EntryLessIsStrictTotalOrder(e, s[0], e);
      InsertPresent(s[1..], e);
      assert s == [s[0]] + s[1..];
    }
  }

  /** An entry above every present entry is appended at the end. */
  lemma {:induction false} InsertGreatest(s: seq<Entry>, e: Entry)
    requires StrictlySorted(s)
    requires forall x :: x in s ==> EntryLess(x, e)
    ensures Insert(s, e) == s + [e]
    decreases |s|
  {
    if |s| > 0 {
      var head, tail := s[0], s[1..];
      assert head in s;
      EntryLessIsStrictTotalOrder(head, e, e);
      HeadBelowTail(s);
      TailBelow(s, e);
      InsertGreatest(tail, e);
      assert s == [head] + tail;
    }
  }

  /** What every entry of s is below, every entry of its tail is below. */
  lemma TailBelow(s: seq<Entry>, e: Entry)
    requires |s| > 0 && forall x :: x in s ==> EntryLess(x, e)
    ensures forall x :: x in s[1..] ==> EntryLess(x, e)
  {
    forall x | x in s[1..]
      ensures EntryLess(x, e)
    {
      var k :| 0 <= k < |s[1..]| && s[1..][k] == x;
      assert s[k + 1] == x;
    }
  }

  /** `count` grows by one exactly when the entry is new: the same point with
      another weight is another entry. */
  lemma InsertCount(s: seq<Entry>, e: Entry)
    requires StrictlySorted(s)
    ensures |Insert(s, e)| == if e in s then |s| else |s| + 1
  {
    SortedCard(s);
    SortedCard(Insert(s, e));
    if e !in s {
      assert e !in Elems(s);
    } else {
      assert Elems(s) + {e} == Elems(s);
    }
  }

  // ---------------------------------------------------------------------------
  // Extent statistics
  // ---------------------------------------------------------------------------

  /** The smallest coordinate of dimension d over the entries. */
  function MinOf(es: seq<Entry>, d: nat): (m: Coord)
    requires |es| > 0 && d < 2
    ensures exists i :: 0 <= i < |es| && es[i].p.At(d) == m
    ensures forall i :: 0 <= i < |es| ==> m <= es[i].p.At(d)
    decreases |es|
  {
    if |es| == 1 then
      es[0].p.At(d)
    else
      var rest := MinOf(es[1..], d);
      var j :| 0 <= j < |es[1..]| && es[1..][j].p.At(d) == rest;
      assert es[j + 1].p.At(d) == rest;
      assert forall i :: 1 <= i < |es| ==> es[i] == es[1..][i - 1];
      if es[0].p.At(d) <= rest then es[0].p.At(d) else rest
  }

  /** The largest coordinate of dimension d over the entries. */
  function MaxOf(es: seq<Entry>, d: nat): (m: Coord)
    requires |es| > 0 && d < 2
    ensures exists i :: 0 <= i < |es| && es[i].p.At(d) == m
    ensures forall i :: 0 <= i < |es| ==> es[i].p.At(d) <= m
    decreases |es|
  {
    if |es| == 1 then
      es[0].p.At(d)
    else
      var rest := MaxOf(es[1..], d);
      var j :| 0 <= j < |es[1..]| && es[1..][j].p.At(d) == rest;
      assert es[j + 1].p.At(d) == rest;
      assert forall i :: 1 <= i < |es| ==> es[i] == es[1..][i - 1];
      if es[0].p.At(d) >= rest then es[0].p.At(d) else rest
  }

  /** A coordinate that is attained and below every entry is `MinOf`. */
  lemma MinOfUnique(es: seq<Entry>, d: nat, m: Coord)
    requires |es| > 0 && d < 2
    requires exists i :: 0 <= i < |es| && es[i].p.At(d) == m
    requires forall i :: 0 <= i < |es| ==> m <= es[i].p.At(d)
    ensures MinOf(es, d) == m
  {
    var i :| 0 <= i < |es| && es[i].p.At(d) == m;
    var j :| 0 <= j < |es| && es[j].p.At(d) == MinOf(es, d);
    assert m <= es[j].p.At(d);
  }

  /** A coordinate that is attained and above every entry is `MaxOf`. */
  lemma MaxOfUnique(es: seq<Entry>, d: nat, m: Coord)
    requires |es| > 0 && d < 2
    requires exists i :: 0 <= i < |es| && es[i].p.At(d) == m
    requires forall i :: 0 <= i < |es| ==> es[i].p.At(d) <= m
    ensures MaxOf(es, d) == m
  {
    var i :| 0 <= i < |es| && es[i].p.At(d) == m;
    var j :| 0 <= j < |es| && es[j].p.At(d) == MaxOf(es, d);
    assert es[j].p.At(d) <= m;
  }

  /** The number of rows (d = 0) or columns (d = 1) the window spans. */
  function SpanOf(es: seq<Entry>, d: nat): (n: nat)
    requires |es| > 0 && d < 2
    ensures n >= 1
  {
    assert MinOf(es, d) <= es[0].p.At(d) <= MaxOf(es, d);
    MaxOf(es, d) - MinOf(es, d) + 1
  }

  // ---------------------------------------------------------------------------
  // Building a window from a table of triples
  // ---------------------------------------------------------------------------

  /** Triple i of a coordinate table: (c[3i], c[3i+1]) with weight c[3i+2]. */
  function Triple(c: seq<Coord>, i: nat): Entry
    requires 3 * i + 2 < |c|
  {
    Entry(Point2d(c[3 * i], c[3 * i + 1]), c[3 * i + 2])
  }

  /** The window obtained by adding triples 0 .. n-1 in turn. */
  function Built(c: seq<Coord>, n: nat): (r: seq<Entry>)
    requires 3 * n <= |c|
    ensures StrictlySorted(r)
  {
    if n == 0 then [] else Insert(Built(c, n - 1), Triple(c, n - 1))
  }

  /** The triples of a table, in table order. */
  function Triples(c: seq<Coord>, n: nat): seq<Entry>
    requires 3 * n <= |c|
  {
    if n == 0 then [] else Triples(c, n - 1) + [Triple(c, n - 1)]
  }

  /** The triples 0 .. n-1 of a table, as a set. */
  function TripleSet(c: seq<Coord>, n: nat): set<Entry>
    requires 3 * n <= |c|
  {
    if n == 0 then {} else TripleSet(c, n - 1) + {Triple(c, n - 1)}
  }

  /** The window built from a table holds exactly its n triples. */
  lemma {:induction false} BuiltMembers(c: seq<Coord>, n: nat)
    requires 3 * n <= |c|
    ensures Elems(Built(c, n)) == TripleSet(c, n)
  {
    if n > 0 {
      BuiltMembers(c, n - 1);
    }
  }

  /** The first n triples of the table are listed in increasing window order. */
  predicate IncreasingTriples(c: seq<Coord>, n: nat)
    requires 3 * n <= |c|
  {
    n <= 1 || (IncreasingTriples(c, n - 1) && EntryLess(Triple(c, n - 2), Triple(c, n - 1)))
  }

  /** Consecutive increase gives increase between any two triples. */
  lemma {:induction false} TriplesIncrease(c: seq<Coord>, n: nat, i: nat, j: nat)
    requires 3 * n <= |c| && IncreasingTriples(c, n)
    requires i < j < n
    ensures EntryLess(Triple(c, i), Triple(c, j))
  {
    if j < n - 1 {
      TriplesIncrease(c, n - 1, i, j);
    } else if i < n - 2 {
      TriplesIncrease(c, n - 1, i, n - 2);
      EntryLessIsStrictTotalOrder(Triple(c, i), Triple(c, n - 2), Triple(c, n - 1));
    }
  }

  /** In an increasing table, triple j is above every triple before it. */
  lemma {:induction false} TripleSetBelow(c: seq<Coord>, n: nat, j: nat)
    requires 3 * n <= |c| && IncreasingTriples(c, n) && j < n
    ensures Above(TripleSet(c, j), Triple(c, j))
  {
    if j > 0 {
      TripleSetBelow(c, n, j - 1);
      TriplesIncrease(c, n, j - 1, j);
      forall x | x in TripleSet(c, j)
        ensures EntryLess(x, Triple(c, j))
      {
        EntryLessIsStrictTotalOrder(x, Triple(c, j - 1), Triple(c, j));
      }
    }
  }

  /** e is above every entry of the set. */
  ghost predicate Above(elems: set<Entry>, e: Entry)
  {
    forall x :: x in elems ==> EntryLess(x, e)
  }

  /** An entry above every element of a sequence's set is above every entry of it. */
  lemma BelowAll(s: seq<Entry>, elems: set<Entry>, e: Entry)
    requires Elems(s) == elems && Above(elems, e)
    ensures forall x :: x in s ==> EntryLess(x, e)
  {
    forall x | x in s
      ensures EntryLess(x, e)
    {
      assert x in Elems(s);
    }
  }

  /** When the table lists its triples in increasing window order, the window
      holds them in table order, so it has n entries. */
  lemma {:induction false} BuiltIncreasing(c: seq<Coord>, n: nat)
    requires 3 * n <= |c| && IncreasingTriples(c, n)
    ensures Built(c, n) == Triples(c, n)
  {
    if n > 0 {
      var k := n - 1;
      var prev, t := Built(c, k), Triple(c, k);
      BuiltIncreasing(c, k);
      BuiltMembers(c, k);
      TripleSetBelow(c, n, k);
      AppendGreatest(prev, TripleSet(c, k), t);
    }
  }

  /** Inserting an entry above a whole sorted sequence appends it. */
  lemma AppendGreatest(s: seq<Entry>, elems: set<Entry>, e: Entry)
    requires StrictlySorted(s) && Elems(s) == elems && Above(elems, e)
    ensures Insert(s, e) == s + [e]
  {
    BelowAll(s, elems, e);
    InsertGreatest(s, e);
  }

  // ---------------------------------------------------------------------------
  // The window object
  // ---------------------------------------------------------------------------

  /** win2d: the ordered set of entries, updated in place by `add`. */
  class Window {
    var entries: seq<Entry>

    ghost predicate Valid()
      reads this
    {
      StrictlySorted(entries)
    }

    /** The empty window. */
    constructor Empty()
      ensures Valid() && entries == []
    {
      entries := [];
    }

    /** The array constructor: adds the n triples of the table in turn. */
    constructor FromTriples(n: nat, c: seq<Coord>)
      requires 3 * n <= |c|
      ensures Valid() && entries == Built(c, n)
    {
      entries := [];
      new;
      var k := 0;
      while k < n
        invariant 0 <= k <= n
        invariant Valid() && entries == Built(c, k)
      {
        AddTriple(c, k);
        k := k + 1;
      }
    }

    /** The body of the array constructor's loop: adds triple k of the table. */
    method AddTriple(c: seq<Coord>, k: nat)
      requires 3 * k + 3 <= |c| && Valid() && entries == Built(c, k)
      modifies this
      ensures Valid() && entries == Built(c, k + 1)
    {
      AddAt(c[3 * k], c[3 * k + 1], c[3 * k + 2]);
    }

    /** `add(p, weight)`: inserts the entry into the ordered set. */
    method Add(p: Point2d, weight: int)
      requires Valid()
      modifies this
      ensures Valid()
      ensures entries == Insert(old(entries), Entry(p, weight))
      ensures Elems(entries) == old(Elems(entries)) + {Entry(p, weight)}
    {
      entries := Insert(entries, Entry(p, weight));
    }

    /** `add(row, col, weight)`. */
    method AddAt(row: Coord, col: Coord, weight: int)
      requires Valid()
      modifies this
      ensures Valid()
      ensures entries == Insert(old(entries), Entry(Point2d(row, col), weight))
      ensures Elems(entries) == old(Elems(entries)) + {Entry(Point2d(row, col), weight)}
    {
      Add(Point2d(row, col), weight);
    }

    /** `count`: the number of distinct (point, weight) entries. */
    function Count(): (n: nat)
      reads this
      requires Valid()
      ensures n == |Elems(entries)|
    {
      SortedCard(entries);
      |entries|
    }

    /** `mindim(d)`: the smallest coordinate of dimension d. */
    method MinDim(d: nat) returns (m: Coord)
      requires Valid() && |entries| > 0 && d < 2
      ensures exists i :: 0 <= i < |entries| && entries[i].p.At(d) == m
      ensures forall i :: 0 <= i < |entries| ==> m <= entries[i].p.At(d)
      ensures m == MinOf(entries, d)
    {
      m := entries[0].p.At(d);
      var k := 1;
      while k < |entries|
        invariant 1 <= k <= |entries|
        invariant exists i :: 0 <= i < k && entries[i].p.At(d) == m
        invariant forall i :: 0 <= i < k ==> m <= entries[i].p.At(d)
      {
        if entries[k].p.At(d) < m {
          m := entries[k].p.At(d);
        }
        k := k + 1;
      }
      MinOfUnique(entries, d, m);
    }

    /** `maxdim(d)`: the largest coordinate of dimension d. */
    method MaxDim(d: nat) returns (m: Coord)
      requires Valid() && |entries| > 0 && d < 2
      ensures exists i :: 0 <= i < |entries| && entries[i].p.At(d) == m
      ensures forall i :: 0 <= i < |entries| ==> entries[i].p.At(d) <= m
      ensures m == MaxOf(entries, d)
    {
      m := entries[0].p.At(d);
      var k := 1;
      while k < |entries|
        invariant 1 <= k <= |entries|
        invariant exists i :: 0 <= i < k && entries[i].p.At(d) == m
        invariant forall i :: 0 <= i < k ==> entries[i].p.At(d) <= m
      {
        if m < entries[k].p.At(d) {
          m := entries[k].p.At(d);
        }
        k := k + 1;
      }
      MaxOfUnique(entries, d, m);
    }

    method MinRow() returns (m: Coord)
      requires Valid() && |entries| > 0
      ensures m == MinOf(entries, 0)
    {
      m := MinDim(0);
    }

    method MaxRow() returns (m: Coord)
      requires Valid() && |entries| > 0
      ensures m == MaxOf(entries, 0)
    {
      m := MaxDim(0);
    }

    method MinCol() returns (m: Coord)
      requires Valid() && |entries| > 0
      ensures m == MinOf(entries, 1)
    {
      m := MinDim(1);
    }

    method MaxCol() returns (m: Coord)
      requires Valid() && |entries| > 0
      ensures m == MaxOf(entries, 1)
    {
      m := MaxDim(1);
    }

    /** `nrows`: maxrow - minrow + 1, at least 1. */
    method NRows() returns (n: nat)
      requires Valid() && |entries| > 0
      ensures n == MaxOf(entries, 0) - MinOf(entries, 0) + 1
      ensures n >= 1
    {
      var hi := MaxRow();
      var lo := MinRow();
      n := hi - lo + 1;
    }

    /** `ncols`: maxcol - mincol + 1, at least 1. */
    method NCols() returns (n: nat)
      requires Valid() && |entries| > 0
      ensures n == MaxOf(entries, 1) - MinOf(entries, 1) + 1
      ensures n >= 1
    {
      var hi := MaxCol();
      var lo := MinCol();
      n := hi - lo + 1;
    }
  }

  // ---------------------------------------------------------------------------
  // Standard windows
  // ---------------------------------------------------------------------------

  /** The table of `win_c4p`: the origin and its four axis neighbours. */
  const C4pTable: seq<Coord> := [-1, 0, 1,  0, -1, 1,  0, 0, 1,  0, 1, 1,  1, 0, 1]

  /** The table of `win_c8p`: the full 3x3 block. */
  const C8pTable: seq<Coord> :=
    [-1, -1, 1,  -1, 0, 1,  -1, 1, 1,  0, -1, 1,  0, 0, 1,  0, 1, 1,  1, -1, 1,  1, 0, 1,  1, 1, 1]

  /** `win_c4p`: five weight-1 entries. */
  method WinC4p() returns (w: Window)
    ensures fresh(w) && w.Valid()
    ensures w.entries == [Unit(-1, 0), Unit(0, -1), Unit(0, 0), Unit(0, 1), Unit(1, 0)]
    ensures w.Count() == 5
  {
    w := new Window.FromTriples(5, C4pTable);
    C4pTriples();
    C4pIncreasing();
    BuiltIncreasing(C4pTable, 5);
  }

  /** `win_c8p`: nine weight-1 entries covering rows and columns -1 .. 1. */
  method WinC8p() returns (w: Window)
    ensures fresh(w) && w.Valid()
    ensures w.entries == [Unit(-1, -1), Unit(-1, 0), Unit(-1, 1),
                          Unit(0, -1), Unit(0, 0), Unit(0, 1),
                          Unit(1, -1), Unit(1, 0), Unit(1, 1)]
    ensures w.Count() == 9
  {
    w := new Window.FromTriples(9, C8pTable);
    C8pTriples();
    C8pIncreasing();
    BuiltIncreasing(C8pTable, 9);
  }

  /** The `win_c4p` table, read as triples. */
  lemma C4pTriples()
    ensures Triples(C4pTable, 5) == [Unit(-1, 0), Unit(0, -1), Unit(0, 0), Unit(0, 1), Unit(1, 0)]
  {
    var c := C4pTable;
    assert Triples(c, 1) == [Unit(-1, 0)];
    assert Triples(c, 2) == [Unit(-1, 0), Unit(0, -1)];
    assert Triples(c, 3) == [Unit(-1, 0), Unit(0, -1), Unit(0, 0)];
    assert Triples(c, 4) == [Unit(-1, 0), Unit(0, -1), Unit(0, 0), Unit(0, 1)];
  }

  /** The `win_c4p` table is listed in window order. */
  lemma C4pIncreasing()
    ensures IncreasingTriples(C4pTable, 5)
  {
    var c := C4pTable;
    assert IncreasingTriples(c, 2);
    assert IncreasingTriples(c, 3);
    assert IncreasingTriples(c, 4);
  }

  /** The `win_c8p` table, read as triples: its first row. */
  lemma C8pTriplesTop()
    ensures Triples(C8pTable, 3) == [Unit(-1, -1), Unit(-1, 0), Unit(-1, 1)]
  {
    var c := C8pTable;
    assert Triples(c, 1) == [Unit(-1, -1)];
    assert Triples(c, 2) == [Unit(-1, -1), Unit(-1, 0)];
  }

  /** The `win_c8p` table, read as triples: its first two rows. */
  lemma C8pTriplesMiddle()
    ensures Triples(C8pTable, 6) == [Unit(-1, -1), Unit(-1, 0), Unit(-1, 1),
                                     Unit(0, -1), Unit(0, 0), Unit(0, 1)]
  {
    var c := C8pTable;
    C8pTriplesTop();
    assert Triples(c, 4) == Triples(c, 3) + [Unit(0, -1)];
    assert Triples(c, 5) == Triples(c, 4) + [Unit(0, 0)];
  }

  /** The `win_c8p` table, read as triples. */
  lemma C8pTriples()
    ensures Triples(C8pTable, 9) == [Unit(-1, -1), Unit(-1, 0), Unit(-1, 1),
                                     Unit(0, -1), Unit(0, 0), Unit(0, 1),
                                     Unit(1, -1), Unit(1, 0), Unit(1, 1)]
  {
    var c := C8pTable;
    C8pTriplesMiddle();
    assert Triples(c, 7) == Triples(c, 6) + [Unit(1, -1)];
    assert Triples(c, 8) == Triples(c, 7) + [Unit(1, 0)];
  }

  /** The `win_c8p` table is listed in window order: its first two rows. */
  lemma C8pIncreasingTop()
    ensures IncreasingTriples(C8pTable, 5)
  {
    var c := C8pTable;
    assert IncreasingTriples(c, 2);
    assert IncreasingTriples(c, 3);
    assert IncreasingTriples(c, 4);
  }

  /** The `win_c8p` table is listed in window order. */
  lemma C8pIncreasing()
    ensures IncreasingTriples(C8pTable, 9)
  {
    var c := C8pTable;
    C8pIncreasingTop();
    assert IncreasingTriples(c, 6);
    assert IncreasingTriples(c, 7);
    assert IncreasingTriples(c, 8);
  }

  /** Row `row` of a rectangle: columns lo .. hi-1, weight 1, left to right. */
  function RowSeg(row: Coord, lo: Coord, hi: Coord): seq<Entry>
    decreases hi - lo
  {
    if hi <= lo then [] else RowSeg(row, lo, hi - 1) + [Unit(row, hi - 1)]
  }

  /** Rows lo .. hi-1 of a rectangle whose columns are -hc .. hc. */
  function RectRows(lo: Coord, hi: Coord, hc: Coord): seq<Entry>
    decreases hi - lo
  {
    if hi <= lo then [] else RectRows(lo, hi - 1, hc) + RowSeg(hi - 1, -hc, hc + 1)
  }

  /** The entries of `win_rect(2*hr+1, 2*hc+1)`, in window order. */
  function Rect(hr: Coord, hc: Coord): seq<Entry>
  {
    RectRows(-hr, hr + 1, hc)
  }

  lemma {:induction false} RowSegMembers(row: Coord, lo: Coord, hi: Coord, x: Entry)
    ensures x in RowSeg(row, lo, hi) <==> x.weight == 1 && x.p.row == row && lo <= x.p.col < hi
    decreases hi - lo
  {
    if lo < hi {
      RowSegMembers(row, lo, hi - 1, x);
    }
  }

  lemma {:induction false} RowSegLength(row: Coord, lo: Coord, hi: Coord)
    requires lo <= hi
    ensures |RowSeg(row, lo, hi)| == hi - lo
    decreases hi - lo
  {
    if lo < hi {
      RowSegLength(row, lo, hi - 1);
    }
  }

  lemma {:induction false} RectRowsMembers(lo: Coord, hi: Coord, hc: Coord, x: Entry)
    ensures x in RectRows(lo, hi, hc) <==>
      x.weight == 1 && lo <= x.p.row < hi && -hc <= x.p.col <= hc
    decreases hi - lo
  {
    if lo < hi {
      RectRowsMembers(lo, hi - 1, hc, x);
      RowSegMembers(hi - 1, -hc, hc + 1, x);
    }
  }

  lemma {:induction false} RectRowsLength(lo: Coord, hi: Coord, hc: Coord)
    requires lo <= hi && hc >= 0
    ensures |RectRows(lo, hi, hc)| == (hi - lo) * (2 * hc + 1)
    decreases hi - lo
  {
    if lo < hi {
      RectRowsLength(lo, hi - 1, hc);
      RowSegLength(hi - 1, -hc, hc + 1);
      assert (hi - lo) * (2 * hc + 1) == (hi - 1 - lo) * (2 * hc + 1) + (2 * hc + 1);
    }
  }

  /** Every entry added before (row, col) in row-by-row order is below it. */
  lemma RectPrefixBelow(lo: Coord, hc: Coord, row: Coord, col: Coord)
    requires lo <= row
    ensures forall x :: x in RectRows(lo, row, hc) + RowSeg(row, -hc, col) ==> EntryLess(x, Unit(row, col))
  {
    forall x | x in RectRows(lo, row, hc) + RowSeg(row, -hc, col)
      ensures EntryLess(x, Unit(row, col))
    {
      RectRowsMembers(lo, row, hc, x);
      RowSegMembers(row, -hc, col, x);
    }
  }

  /** `win_rect`: adds (row, col, 1) for every row in -nrows/2 .. nrows/2 and
      every column in -ncols/2 .. ncols/2, row by row. */
  method WinRect(nrows: nat, ncols: nat) returns (w: Window)
    requires nrows >= 1 && nrows % 2 == 1
    requires ncols >= 1 && ncols % 2 == 1
    ensures fresh(w) && w.Valid()
    ensures w.entries == Rect(nrows / 2, ncols / 2)
  {
    w := new Window.Empty();
    var halfRows: Coord := nrows / 2;
    var halfCols: Coord := ncols / 2;
    var row := -halfRows;
    while row <= halfRows
      invariant -halfRows <= row <= halfRows + 1
      invariant w.Valid() && w.entries == RectRows(-halfRows, row, halfCols)
    {
      AddRectRow(w, -halfRows, row, halfCols);
      row := row + 1;
    }
  }

  /** The inner loop of `win_rect`: adds row `row` of the rectangle, column by
      column, after the rows lo .. row-1. */
  method AddRectRow(w: Window, lo: Coord, row: Coord, hc: Coord)
    requires w.Valid() && lo <= row && hc >= 0
    requires w.entries == RectRows(lo, row, hc)
    modifies w
    ensures w.Valid() && w.entries == RectRows(lo, row + 1, hc)
  {
    ghost var prefix := RectRows(lo, row, hc);
    var col := -hc;
    while col <= hc
      invariant -hc <= col <= hc + 1
      invariant w.Valid()
      invariant w.entries == prefix + RowSeg(row, -hc, col)
    {
      AddRectCell(w, lo, hc, row, col);
      col := col + 1;
    }
    RectRowsStep(lo, row, hc);
  }

  /** The body of `win_rect`'s inner loop: adds (row, col, 1), the greatest
      entry so far. */
  method AddRectCell(w: Window, lo: Coord, hc: Coord, row: Coord, col: Coord)
    requires lo <= row && -hc <= col
    requires w.Valid() && w.entries == RectRows(lo, row, hc) + RowSeg(row, -hc, col)
    modifies w
    ensures w.Valid() && w.entries == RectRows(lo, row, hc) + RowSeg(row, -hc, col + 1)
  {
    RectStep(lo, hc, row, col);
    w.AddAt(row, col, 1);
  }

  /** Rows lo .. row are rows lo .. row-1 followed by row `row`. */
  lemma RectRowsStep(lo: Coord, row: Coord, hc: Coord)
    requires lo <= row
    ensures RectRows(lo, row + 1, hc) == RectRows(lo, row, hc) + RowSeg(row, -hc, hc + 1)
  {
  }

  /** Adding (row, col, 1) to the rectangle built up to just before it
      appends it: it is the greatest entry so far. */
  lemma RectStep(lo: Coord, hc: Coord, row: Coord, col: Coord)
    requires lo <= row && -hc <= col
    ensures var before := RectRows(lo, row, hc) + RowSeg(row, -hc, col);
      StrictlySorted(before) ==>
      Insert(before, Unit(row, col)) == RectRows(lo, row, hc) + RowSeg(row, -hc, col + 1)
  {
    var before := RectRows(lo, row, hc) + RowSeg(row, -hc, col);
    if StrictlySorted(before) {
      RectPrefixBelow(lo, hc, row, col);
      InsertGreatest(before, Unit(row, col));
      assert RowSeg(row, -hc, col + 1) == RowSeg(row, -hc, col) + [Unit(row, col)];
    }
  }

  /** The rectangle with half-sizes hr, hc holds (2hr+1)(2hc+1) entries. */
  lemma RectSize(hr: Coord, hc: Coord)
    requires hr >= 0 && hc >= 0
    ensures |Rect(hr, hc)| == (2 * hr + 1) * (2 * hc + 1)
  {
    RectRowsLength(-hr, hr + 1, hc);
  }

  /** The rectangle's entries are the weight-1 points with |row| <= hr, |col| <= hc. */
  lemma RectMembers(hr: Coord, hc: Coord)
    ensures forall x :: x in Rect(hr, hc) <==>
      x.weight == 1 && -hr <= x.p.row <= hr && -hc <= x.p.col <= hc
  {
    forall x
      ensures x in Rect(hr, hc) <==> x.weight == 1 && -hr <= x.p.row <= hr && -hc <= x.p.col <= hc
    {
      RectRowsMembers(-hr, hr + 1, hc, x);
    }
  }

  /** The rectangle's extent: rows -hr .. hr and columns -hc .. hc. */
  lemma RectExtent(hr: Coord, hc: Coord)
    requires hr >= 0 && hc >= 0
    ensures |Rect(hr, hc)| > 0
    ensures MinOf(Rect(hr, hc), 0) == -hr && MaxOf(Rect(hr, hc), 0) == hr
    ensures MinOf(Rect(hr, hc), 1) == -hc && MaxOf(Rect(hr, hc), 1) == hc
  {
    var es := Rect(hr, hc);
    RectMembers(hr, hc);
    forall i | 0 <= i < |es|
      ensures -hr <= es[i].p.At(0) <= hr && -hc <= es[i].p.At(1) <= hc
    {
      assert es[i] in es;
    }
    assert Unit(-hr, -hc) in es;
    assert Unit(hr, hc) in es;
    var lo :| 0 <= lo < |es| && es[lo] == Unit(-hr, -hc);
    var hi :| 0 <= hi < |es| && es[hi] == Unit(hr, hc);
    assert es[lo].p.At(0) == -hr && es[lo].p.At(1) == -hc;
    assert es[hi].p.At(0) == hr && es[hi].p.At(1) == hc;
    MinOfUnique(es, 0, -hr);
    MaxOfUnique(es, 0, hr);
    MinOfUnique(es, 1, -hc);
    MaxOfUnique(es, 1, hc);
  }

  /** The rectangle with half-sizes hr, hc spans 2hr+1 rows and 2hc+1 columns. */
  lemma RectSpan(hr: Coord, hc: Coord)
    requires hr >= 0 && hc >= 0
    ensures |Rect(hr, hc)| > 0
    ensures SpanOf(Rect(hr, hc), 0) == 2 * hr + 1 && SpanOf(Rect(hr, hc), 1) == 2 * hc + 1
  {
    RectExtent(hr, hc);
  }
}
