/** Model of Hash_Table.py: an open-addressing table from string keys to
    integer values, with linear probing and growth by doubling. There is no
    deletion. The table object is a class whose `data` (the Python list of
    cells), `cells` and `checkSize` fields are updated in place. */
module HashTable {

  /** TOO_FULL: update grows the table first when check_size / cells reaches it. */
  const TooFull: real := 0.5
  /** GROWTH_RATIO: rehash multiplies `cells` by this factor. */
  const GrowthRatio: nat := 2

  /** A cell of the table. In the source an empty cell holds the default
      value and an occupied cell holds a (key, value) tuple. A tuple never
      compares equal to the integer default, so `cell == defval` is exactly
      `cell == Empty`. */
  datatype Cell = Empty | Occupied(key: string, value: int)

  /** `key in cell` for an occupied cell: tuple membership, which for a string key
      and an int value is equality with the tuple's first component. */
  predicate Holds(c: Cell, key: string) {
    c.Occupied? && c.key == key
  }

  /** The guard of the probe loop in find_slot: the cell is occupied by another key. */
  predicate ProbeContinues(c: Cell, key: string) {
    c != Empty && c.key != key
  }

  /** sum(ord(l) for l in string) */
  function CodeSum(s: string): nat {
    if s == [] then 0 else (s[0] as int) + CodeSum(s[1..])
  }

  /** create_hash: 37 times the code-point sum, reduced modulo the current size. */
  function CreateHash(key: string, cells: nat): (h: nat)
    requires cells > 0
    ensures h < cells
  {
    (CodeSum(key) * 37) % cells
  }

  /** The grow test of update, in the source's own real division. */
  predicate IsTooFull(checkSize: nat, cells: nat)
    requires cells > 0
  {
    (checkSize as real) / (cells as real) >= TooFull
  }

  /** The grow test is the integer condition 2 * check_size >= cells. */
  lemma TooFullIff(checkSize: nat, cells: nat)
    requires cells > 0
    ensures IsTooFull(checkSize, cells) <==> 2 * checkSize >= cells
  {
    var q := (checkSize as real) / (cells as real);
    assert q * (cells as real) == checkSize as real;
    if q >= TooFull {
      assert q * (cells as real) >= TooFull * (cells as real);
    } else {
      assert q * (cells as real) < TooFull * (cells as real);
    }
  }

  lemma {:induction false} CodeSumAppend(a: string, b: string)
    ensures CodeSum(a + b) == CodeSum(a) + CodeSum(b)
  {
    if a == [] {
      assert a + b == b;
    } else {
      assert (a + b)[1..] == a[1..] + b;
      CodeSumAppend(a[1..], b);
    }
  }

  /** The home slot depends only on the characters, not their order: a key and
      any rotation of it collide, in every table size. */
  lemma RotationsCollide(a: string, b: string, cells: nat)
    requires cells > 0
    ensures CreateHash(a + b, cells) == CreateHash(b + a, cells)
  {
    CodeSumAppend(a, b);
    CodeSumAppend(b, a);
  }

  /** Index i lies on the cyclic probe run that starts at h and stops just
      before t, wrapping past the last cell. */
  predicate InRun(h: nat, t: nat, i: nat) {
    if h <= t then h <= i < t else h <= i || i < t
  }

  /** Number of probe steps from h forward to t in a table of c cells. */
  function Distance(h: nat, t: nat, c: nat): nat
    requires h < c && t < c
  {
    if h <= t then t - h else t + c - h
  }

  /** The step `(i + 1) % cells` of the probe loops. */
  lemma NextIndex(i: nat, c: nat)
    requires i < c
    ensures (i + 1) % c == if i + 1 == c then 0 else i + 1
  {
  }

  /** Number of occupied cells. */
  function Occupancy(s: seq<Cell>): nat {
    if s == [] then 0 else Occupancy(s[..|s| - 1]) + (if s[|s| - 1].Occupied? then 1 else 0)
  }

  lemma {:induction false} OccupancyNone(s: seq<Cell>)
    requires forall i :: 0 <= i < |s| ==> s[i] == Empty
    ensures Occupancy(s) == 0
  {
    if s != [] {
      OccupancyNone(s[..|s| - 1]);
    }
  }

  /** Writing cell c at index j changes the occupancy by the change at j. */
  lemma {:induction false} OccupancyWrite(s: seq<Cell>, j: nat, c: Cell)
    requires j < |s|
    ensures Occupancy(s[j := c]) + (if s[j].Occupied? then 1 else 0)
         == Occupancy(s) + (if c.Occupied? then 1 else 0)
  {
    var n := |s| - 1;
    if j < n {
      assert s[j := c][..n] == s[..n][j := c];
      OccupancyWrite(s[..n], j, c);
    } else {
      assert s[j := c][..n] == s[..n];
    }
  }

  /** A table with fewer occupied cells than cells has an empty cell. */
  lemma {:induction false} EmptyCell(s: seq<Cell>) returns (i: nat)
    requires Occupancy(s) < |s|
    ensures i < |s| && s[i] == Empty
  {
    var n := |s| - 1;
    if s[n] == Empty {
      i := n;
    } else {
      i := EmptyCell(s[..n]);
    }
  }

  /** Every cell on the cyclic run from h up to t is occupied. */
  ghost predicate RunOccupied(s: seq<Cell>, h: nat, t: nat) {
    forall i {:trigger InRun(h, t, i)} :: 0 <= i < |s| && InRun(h, t, i) ==> s[i].Occupied?
  }

  /** Each stored key sits, with its value, in its slot. */
  ghost predicate SlotsHold(s: seq<Cell>, contents: map<string, int>, slot: map<string, nat>) {
    && (forall k :: k in contents ==> k in slot)
    && (forall k :: k in slot ==> k in contents && slot[k] < |s| && s[slot[k]] == Occupied(k, contents[k]))
  }

  /** Every occupied cell is the slot of its own key, so no key occupies two cells. */
  ghost predicate CellsOwned(s: seq<Cell>, slot: map<string, nat>) {
    forall i :: 0 <= i < |s| && s[i].Occupied? ==> s[i].key in slot && slot[s[i].key] == i
  }

  /** Every key is reached from its home slot through occupied cells only. */
  ghost predicate Reachable(s: seq<Cell>, slot: map<string, nat>) {
    |s| > 0 && forall k {:trigger RunOccupied(s, CreateHash(k, |s|), slot[k])} :: k in slot ==> RunOccupied(s, CreateHash(k, |s|), slot[k])
  }

  /** The layout invariant of an open-addressing table: `slot` says which cell
      holds each key of `contents`, and the occupancy is the number of keys. */
  ghost predicate Layout(s: seq<Cell>, contents: map<string, int>, slot: map<string, nat>) {
    && SlotsHold(s, contents, slot)
    && CellsOwned(s, slot)
    && Reachable(s, slot)
    && Occupancy(s) == |contents|
  }

  lemma LayoutEmpty(s: seq<Cell>)
    requires |s| > 0 && forall i :: 0 <= i < |s| ==> s[i] == Empty
    ensures Layout(s, map[], map[])
  {
    OccupancyNone(s);
  }

  /** Occupying more cells keeps every run occupied. */
  lemma ReachableGrow(s: seq<Cell>, s': seq<Cell>, slot: map<string, nat>)
    requires |s| > 0 && |s'| == |s| && Reachable(s, slot)
    requires forall i :: 0 <= i < |s| && s[i].Occupied? ==> s'[i].Occupied?
    ensures Reachable(s', slot)
  {
    forall k | k in slot
      ensures RunOccupied(s', CreateHash(k, |s|), slot[k])
    {
      assert RunOccupied(s, CreateHash(k, |s|), slot[k]);
    }
  }

  /** Filling an empty cell j that the key reaches from its home slot keeps the layout. */
  lemma LayoutInsert(s: seq<Cell>, contents: map<string, int>, slot: map<string, nat>,
                     key: string, val: int, j: nat)
    requires Layout(s, contents, slot)
    requires j < |s| && s[j] == Empty && key !in contents
    requires RunOccupied(s, CreateHash(key, |s|), j)
    ensures Layout(s[j := Occupied(key, val)], contents[key := val], slot[key := j])
  {
    var s', c', sl' := s[j := Occupied(key, val)], contents[key := val], slot[key := j];
    assert SlotsHold(s', c', sl') by {
      forall k | k in sl'
        ensures sl'[k] < |s'| && s'[sl'[k]] == Occupied(k, c'[k])
      {
        if k != key {
          assert s[slot[k]] == Occupied(k, contents[k]);
        }
      }
    }
    assert CellsOwned(s', sl') by {
      forall i | 0 <= i < |s'| && s'[i].Occupied?
        ensures s'[i].key in sl' && sl'[s'[i].key] == i
      {
        if i != j {
          assert s[i].key in slot && slot[s[i].key] == i;
        }
      }
    }
    ReachableGrow(s, s', slot);
    assert Reachable(s', sl') by {
      forall k | k in sl'
        ensures RunOccupied(s', CreateHash(k, |s|), sl'[k])
      {
        if k != key {
          assert RunOccupied(s', CreateHash(k, |s|), slot[k]);
        } else {
          assert RunOccupied(s, CreateHash(key, |s|), j);
        }
      }
    }
    OccupancyWrite(s, j, Occupied(key, val));
  }

  /** Overwriting the value of a stored key in its own slot keeps the layout. */
  lemma LayoutOverwrite(s: seq<Cell>, contents: map<string, int>, slot: map<string, nat>,
                        key: string, val: int)
    requires Layout(s, contents, slot) && key in contents
    ensures Layout(s[slot[key] := Occupied(key, val)], contents[key := val], slot)
  {
    var j := slot[key];
    var s', c' := s[j := Occupied(key, val)], contents[key := val];
    assert c'.Keys == contents.Keys;
    assert SlotsHold(s', c', slot) by {
      forall k | k in slot
        ensures slot[k] < |s'| && s'[slot[k]] == Occupied(k, c'[k])
      {
        if k != key {
          assert s[slot[k]] == Occupied(k, contents[k]);
        }
      }
    }
    assert CellsOwned(s', slot) by {
      forall i | 0 <= i < |s'| && s'[i].Occupied?
        ensures s'[i].key in slot && slot[s'[i].key] == i
      {
        if i != j {
          assert s[i].key in slot && slot[s[i].key] == i;
        }
      }
    }
    ReachableGrow(s, s', slot);
    OccupancyWrite(s, j, Occupied(key, val));
  }

  /** The keys whose slot is cell i: none when it is empty, its own key otherwise. */
  lemma SlotAt(s: seq<Cell>, contents: map<string, int>, slot: map<string, nat>, i: nat)
    requires Layout(s, contents, slot) && i < |s|
    ensures s[i].Occupied? ==> s[i].key in slot && slot[s[i].key] == i
    ensures forall k :: k in slot && slot[k] == i ==> s[i] == Occupied(k, contents[k])
  {
  }

  /** A probe from the key's home slot that meets an empty cell before meeting
      the key proves the key absent. */
  lemma ProbeAbsent(s: seq<Cell>, contents: map<string, int>, slot: map<string, nat>,
                    key: string, idx: nat)
    requires Layout(s, contents, slot)
    requires idx < |s| && s[idx] == Empty
    requires forall i :: 0 <= i < |s| && InRun(CreateHash(key, |s|), idx, i) ==> !Holds(s[i], key)
    ensures key !in contents
  {
    if key in contents {
      var h, t := CreateHash(key, |s|), slot[key];
      assert RunOccupied(s, h, t);
      assert !InRun(h, idx, t);
      assert InRun(h, t, idx);
    }
  }

  /** After one insert into a table of a single cell, no cell is empty and the
      only key is a different one: the find_slot guard holds at every index,
      so a lookup of "b" probes forever. (The constructor below requires
      at least two cells.) */
  lemma OneCellTableFull()
    ensures !IsTooFull(0, 1)
    ensures CreateHash("a", 1) == 0
    ensures forall i :: 0 <= i < 1 ==> ProbeContinues([Occupied("a", 1)][i], "b")
  {
    TooFullIff(0, 1);
  }

  class Table {
    var defval: int
    var cells: nat
    var data: seq<Cell>
    var checkSize: nat
    /** The mapping the table represents. */
    ghost var Contents: map<string, int>
    /** The cell that holds each stored key. */
    ghost var Slot: map<string, nat>

    /** Occupied cells stay fewer than cells, so probing always meets an empty
        cell; check_size never undercounts the stored keys. */
    ghost predicate Valid()
      reads this
    {
      && cells == |data|
      && cells >= 2
      && Layout(data, Contents, Slot)
      && |Contents| < cells
      && |Contents| <= checkSize
    }

    /** What lookup returns for a key. */
    ghost function Value(key: string): int
      reads this
    {
      if key in Contents then Contents[key] else defval
    }

    constructor (cells: nat, defval: int)
      requires cells >= 2
      ensures Valid()
      ensures this.cells == cells && this.defval == defval && checkSize == 0
      ensures Contents == map[]
    {
      this.defval := defval;
      this.cells := cells;
      data := seq(cells, _ => Empty);
      checkSize := 0;
      Contents := map[];
      Slot := map[];
      new;
      LayoutEmpty(data);
    }

    /** find_slot: probe forward from `start` to the first cell that is empty or holds the key. */
    method FindSlot(key: string, start: nat) returns (idx: nat)
      requires Valid() && start < cells
      ensures idx < cells && !ProbeContinues(data[idx], key)
      ensures forall i :: 0 <= i < cells && InRun(start, idx, i) ==> ProbeContinues(data[i], key)
    {
      ghost var stop := EmptyCell(data);
      idx := start;
      while ProbeContinues(data[idx], key)
        invariant idx < cells
        invariant forall i :: 0 <= i < cells && InRun(start, idx, i) ==> ProbeContinues(data[i], key)
        invariant !InRun(start, idx, stop)
        decreases Distance(idx, stop, cells)
      {
        NextIndex(idx, cells);
        idx := (idx + 1) % cells;
      }
    }

    /** lookup: the stored value of the key, or the default when it was never stored. */
    method Lookup(key: string) returns (v: int)
      requires Valid()
      ensures v == Value(key)
    {
      var hashIndex := CreateHash(key, cells);
      if data[hashIndex] == Empty {
        ProbeAbsent(data, Contents, Slot, key, hashIndex);
        return defval;
      } else if Holds(data[hashIndex], key) {
        return data[hashIndex].value;
      } else {
        hashIndex := FindSlot(key, hashIndex);
        if data[hashIndex] != Empty {
          return data[hashIndex].value;
        }
        ProbeAbsent(data, Contents, Slot, key, hashIndex);
      }
      return defval;
    }

    /** update: grow first when too full (even when the key is already
        stored), then store the pair. */
    method Update(key: string, val: int)
      requires Valid()
      modifies this
      ensures Valid()
      ensures Contents == old(Contents)[key := val]
      ensures defval == old(defval) && cells >= old(cells)
      ensures checkSize >= old(checkSize) + (if key in old(Contents) then 0 else 1)
      ensures !old(IsTooFull(checkSize, cells)) ==>
                && cells == old(cells)
                && checkSize == old(checkSize) + (if old(Holds(data[CreateHash(key, cells)], key)) then 0 else 1)
      ensures old(IsTooFull(checkSize, cells)) ==>
                && cells >= 2 * old(cells)
                && checkSize >= old(checkSize) + |old(Contents)| + (if key in old(Contents) then 0 else 1)
      decreases |Contents|, 3
    {
      TooFullIff(checkSize, cells);
      if IsTooFull(checkSize, cells) {
        Rehash();
      }
      Store(key, val);
    }

    /** The body of update after the grow test: write the pair into the home
        slot, or overwrite the key there, or probe. check_size rises by one
        unless the key sat in its home slot, so an overwrite found by probing
        over-counts. */
    method Store(key: string, val: int)
      requires Valid() && |Contents| + 1 < cells
      modifies this`data, this`checkSize, this`Contents, this`Slot
      ensures Valid()
      ensures Contents == old(Contents)[key := val]
      ensures checkSize == old(checkSize) + (if old(Holds(data[CreateHash(key, cells)], key)) then 0 else 1)
      ensures key !in old(Contents) ==> checkSize == old(checkSize) + 1
    {
      var hashIndex := CreateHash(key, cells);
      if data[hashIndex] == Empty {
        ProbeAbsent(data, Contents, Slot, key, hashIndex);
        checkSize := checkSize + 1;
        PutNew(key, val, hashIndex);
      } else if Holds(data[hashIndex], key) {
        Overwrite(key, val, hashIndex);
      } else {
        var newIndex := FindSlot(key, hashIndex);
        checkSize := checkSize + 1;
        if data[newIndex] == Empty {
          ProbeAbsent(data, Contents, Slot, key, newIndex);
          PutNew(key, val, newIndex);
        } else {
          Overwrite(key, val, newIndex);
        }
      }
    }

    /** `self.data[j] = (key, value)` for an empty cell j that the key reaches
        from its home slot through occupied cells; the caller has already
        counted the new key in check_size. */
    method PutNew(key: string, val: int, j: nat)
      requires Valid() && |Contents| + 1 < cells && |Contents| < checkSize
      requires j < cells && data[j] == Empty && key !in Contents
      requires RunOccupied(data, CreateHash(key, cells), j)
      modifies this`data, this`Contents, this`Slot
      ensures Valid()
      ensures data == old(data)[j := Occupied(key, val)]
      ensures Contents == old(Contents)[key := val]
    {
      LayoutInsert(data, Contents, Slot, key, val, j);
      MapUpdateCard(Contents, key, val);
      data := data[j := Occupied(key, val)];
      Contents, Slot := Contents[key := val], Slot[key := j];
    }

    /** `self.data[j] = (key, value)` for the cell j that already holds the key. */
    method Overwrite(key: string, val: int, j: nat)
      requires Valid() && j < cells && Holds(data[j], key)
      modifies this`data, this`Contents
      ensures Valid()
      ensures data == old(data)[j := Occupied(key, val)]
      ensures Contents == old(Contents)[key := val]
    {
      SlotAt(data, Contents, Slot, j);
      LayoutOverwrite(data, Contents, Slot, key, val);
      MapUpdateCard(Contents, key, val);
      data := data[j := Occupied(key, val)];
      Contents := Contents[key := val];
    }

    /** rehash: double the cells and re-insert every stored pair through update.
        check_size is not reset, so every re-insertion counts again, and an
        inner update may rehash once more. */
    method Rehash()
      requires Valid()
      modifies this
      ensures Valid()
      ensures Contents == old(Contents) && defval == old(defval)
      ensures cells >= 2 * old(cells)
      ensures checkSize >= old(checkSize) + |Contents|
      decreases |Contents|, 2
    {
      var holdData := data;
      ghost var held, heldSlot := Contents, Slot;
      assert Layout(holdData, held, heldSlot);
      Clear(cells * GrowthRatio);
      ReinsertedAll(holdData, held, heldSlot);
      Refill(holdData, held, heldSlot, old(checkSize), old(defval), 2 * old(cells));
    }

    /** The second half of rehash: re-insert the pair of every old cell. */
    method Refill(holdData: seq<Cell>, ghost held: map<string, int>, ghost heldSlot: map<string, nat>,
                  ghost base: nat, ghost dv: int, ghost minCells: nat)
      requires Layout(holdData, held, heldSlot)
      requires Refilling(held, heldSlot, 0, base, dv, minCells)
      modifies this
      ensures Refilling(held, heldSlot, |holdData|, base, dv, minCells)
      decreases |held|, 1
    {
      for i := 0 to |holdData|
        invariant Refilling(held, heldSlot, i, base, dv, minCells)
      {
        RefillStep(holdData, held, heldSlot, i, base, dv, minCells);
      }
    }

    /** One pass of the rehash loop: old cell i re-inserts its pair through
        update, and an empty old cell nothing. */
    method RefillStep(holdData: seq<Cell>, ghost held: map<string, int>, ghost heldSlot: map<string, nat>,
                      i: nat, ghost base: nat, ghost dv: int, ghost minCells: nat)
      requires Layout(holdData, held, heldSlot) && i < |holdData|
      requires Refilling(held, heldSlot, i, base, dv, minCells)
      modifies this
      ensures Refilling(held, heldSlot, i + 1, base, dv, minCells)
      decreases |held|, 0
    {
      var d := holdData[i];
      ReinsertStep(holdData, held, heldSlot, i);
      if d != Empty {
        MapUpdateCard(Contents, d.key, d.value);
        Update(d.key, d.value);
      }
    }

    /** The state of the rehash loop after the old cells 0 .. i-1: a valid
        table holding exactly their pairs, each counted in check_size. */
    ghost predicate Refilling(held: map<string, int>, heldSlot: map<string, nat>, i: nat,
                              base: nat, dv: int, minCells: nat)
      reads this
    {
      && Valid()
      && defval == dv && cells >= minCells
      && Contents == Reinserted(held, heldSlot, i)
      && checkSize >= base + |Contents|
    }

    /** The first half of rehash: a table of n empty cells, keeping
        defval and check_size. */
    method Clear(n: nat)
      requires n >= 2
      modifies this`cells, this`data, this`Contents, this`Slot
      ensures Valid()
      ensures cells == n && Contents == map[]
    {
      cells := n;
      data := seq(n, _ => Empty);
      LayoutEmpty(data);
      Contents, Slot := map[], map[];
    }
  }

  /** The pairs of `held` whose old slot lies before cell i: what rehash has
      re-inserted after visiting the old cells 0 .. i-1. */
  ghost function Reinserted(held: map<string, int>, heldSlot: map<string, nat>, i: nat): map<string, int>
  {
    map k | k in held && k in heldSlot && heldSlot[k] < i :: held[k]
  }

  /** One step of the rehash loop over the old cells: an empty cell adds no
      pair, an occupied cell adds its own pair, whose key is new, so fewer
      keys are in than were held. */
  lemma ReinsertStep(s: seq<Cell>, held: map<string, int>, heldSlot: map<string, nat>, i: nat)
    requires Layout(s, held, heldSlot) && i < |s|
    ensures s[i] == Empty ==> Reinserted(held, heldSlot, i + 1) == Reinserted(held, heldSlot, i)
    ensures s[i] != Empty ==>
              && s[i].key !in Reinserted(held, heldSlot, i)
              && |Reinserted(held, heldSlot, i)| < |held|
              && Reinserted(held, heldSlot, i + 1) == Reinserted(held, heldSlot, i)[s[i].key := s[i].value]
  {
    SlotAt(s, held, heldSlot, i);
    var now := Reinserted(held, heldSlot, i);
    if s[i] != Empty {
      var key := s[i].key;
      assert now.Keys <= held.Keys - {key};
      SubsetCard(now.Keys, held.Keys - {key});
    }
  }

  /** Rehash visits every old cell, so it re-inserts every pair. */
  lemma ReinsertedAll(s: seq<Cell>, held: map<string, int>, heldSlot: map<string, nat>)
    requires Layout(s, held, heldSlot)
    ensures Reinserted(held, heldSlot, 0) == map[]
    ensures Reinserted(held, heldSlot, |s|) == held
  {
  }

  lemma MapUpdateCard<K, V>(m: map<K, V>, k: K, v: V)
    ensures |m[k := v]| == if k in m then |m| else |m| + 1
  {
    if k in m {
      assert m[k := v].Keys == m.Keys;
    } else {
      assert m[k := v].Keys == m.Keys + {k};
    }
  }

  lemma {:induction false} SubsetCard<T>(a: set<T>, b: set<T>)
    requires a <= b
    ensures |a| <= |b|
    decreases b
  {
    if a != {} {
      var x :| x in a;
      SubsetCard(a - {x}, b - {x});
    }
  }
}
