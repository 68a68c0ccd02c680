/** Linear probing in the frozen primary-key index, on cells: src/store/frozen_primary_key_index.cc without bytes. */
module FrozenTable {
  import opened Basics
  import opened Counting

  /** A slot: a control byte other than kEmptyControl, with the key and row offset stored beside it. */
  datatype Cell = Vacant | Full(control: byte, key: u64, row: u64)

  datatype Entry = Entry(key: u64, row: u64)

  type KeyHash = u64 -> u64

  /** (hash >> 57) & 0x7f */
  function H2(hash: u64): (c: byte)
    ensures c < 0x80
  {
    hash / 0x200_0000_0000_0000
  }

  /** d slots after the home slot `hash & mask`, cyclically. */
  function At(hash: u64, d: nat, n: nat): (i: nat)
    requires n > 0
    ensures i < n
  {
    (hash + d) % n
  }

  lemma {:induction false} AtNext(hash: u64, d: nat, n: nat)
    requires n > 0
    ensures At(hash, d + 1, n) == (At(hash, d, n) + 1) % n
  {
    var q := (hash + d) / n;
    ModAddMultiple(At(hash, d, n) + 1, q, n);
    assert hash + d == q * n + At(hash, d, n);
  }

  /** How far slot i lies behind the home slot. */
  function Distance(hash: u64, i: nat, n: nat): (d: nat)
    requires i < n
    ensures d < n && At(hash, d, n) == i
  {
    var home, lap := hash % n, hash / n;
    if i >= home then
      ModUnique(hash + (i - home), n, lap, i);
      i - home
    else
      assert (lap + 1) * n == lap * n + n;
      ModUnique(hash + (i + n - home), n, lap + 1, i);
      i + n - home
  }

  predicate IsFull(c: Cell) {
    c.Full?
  }

  /** No vacant cell among the first d probes. */
  ghost predicate Reach(cells: seq<Cell>, hash: u64, d: nat)
    requires |cells| > 0
  {
    forall e :: 0 <= e < d ==> Busy(cells, hash, e)
  }

  predicate Busy(cells: seq<Cell>, hash: u64, e: nat)
    requires |cells| > 0
  {
    cells[At(hash, e, |cells|)].Full?
  }

  ghost predicate CellOk(h: KeyHash, cells: seq<Cell>, i: nat)
    requires i < |cells|
  {
    cells[i].Full? ==>
      && cells[i].control == H2(h(cells[i].key))
      && Reach(cells, h(cells[i].key), Distance(h(cells[i].key), i, |cells|))
  }

  ghost predicate DistinctKeys(cells: seq<Cell>) {
    forall i, j :: 0 <= i < j < |cells| && cells[i].Full? && cells[j].Full? ==> cells[i].key != cells[j].key
  }

  /** Every key can be found from its home slot, and a probe that finds nothing meets a vacant cell. */
  ghost predicate TableOk(h: KeyHash, cells: seq<Cell>) {
    && |cells| > 0
    && (forall i :: 0 <= i < |cells| ==> CellOk(h, cells, i))
    && DistinctKeys(cells)
    && Count(IsFull, cells) < |cells|
  }

  /** The lookup loop with `left` slots still to scan. */
  function FindFrom(cells: seq<Cell>, hash: u64, key: u64, d: nat): Result<Option<u64>>
    requires |cells| > 0 && d <= |cells|
    decreases |cells| - d
  {
    if d == |cells| then Err(InvalidArgument)
    else
      var cell := cells[At(hash, d, |cells|)];
      if cell.Vacant? then Ok(None)
      else if cell.control == H2(hash) && cell.key == key then Ok(Some(cell.row))
      else FindFrom(cells, hash, key, d + 1)
  }

  function Find(h: KeyHash, cells: seq<Cell>, key: u64): Result<Option<u64>>
    requires |cells| > 0
  {
    FindFrom(cells, h(key), key, 0)
  }

  lemma {:induction false} FindReaches(h: KeyHash, cells: seq<Cell>, i: nat, d: nat)
    requires TableOk(h, cells) && i < |cells| && cells[i].Full? && d <= Distance(h(cells[i].key), i, |cells|)
    ensures FindFrom(cells, h(cells[i].key), cells[i].key, d) == Ok(Some(cells[i].row))
    decreases |cells| - d
  {
    hide Distance;
    var hash := h(cells[i].key);
    assert CellOk(h, cells, i);
    var j := At(hash, d, |cells|);
    if d < Distance(hash, i, |cells|) {
      assert Busy(cells, hash, d);
      FindReaches(h, cells, i, d + 1);
      assert j != i ==> cells[j].key != cells[i].key;
    }
  }

  lemma {:induction false} FindEnds(h: KeyHash, cells: seq<Cell>, key: u64, i: nat, d: nat)
    requires |cells| > 0 && i < |cells| && cells[i].Vacant? && d <= Distance(h(key), i, |cells|)
    requires forall j :: 0 <= j < |cells| && cells[j].Full? ==> cells[j].key != key
    ensures FindFrom(cells, h(key), key, d) == Ok(None)
    decreases |cells| - d
  {
    hide Distance;
    if d < Distance(h(key), i, |cells|) {
      FindEnds(h, cells, key, i, d + 1);
    }
  }

  /** Lookup never errors, never exhausts the table, and hits exactly the stored keys, with their row offsets. */
  lemma {:induction false} FindIsExact(h: KeyHash, cells: seq<Cell>, key: u64)
    requires TableOk(h, cells)
    ensures Find(h, cells, key).Ok?
    ensures forall i :: 0 <= i < |cells| && cells[i].Full? && cells[i].key == key ==>
      Find(h, cells, key) == Ok(Some(cells[i].row))
    ensures Find(h, cells, key).get.Some? ==>
      exists i :: 0 <= i < |cells| && cells[i] == Full(H2(h(key)), key, Find(h, cells, key).get.value)
  {
    if i :| 0 <= i < |cells| && cells[i].Full? && cells[i].key == key {
      forall j | 0 <= j < |cells| && cells[j].Full? && cells[j].key == key
        ensures Find(h, cells, key) == Ok(Some(cells[j].row))
      {
        FindReaches(h, cells, j, 0);
      }
      assert CellOk(h, cells, i);
      assert cells[i] == Full(H2(h(key)), key, cells[i].row);
    } else {
      var i := SomeMiss(IsFull, cells);
      FindEnds(h, cells, key, i, 0);
    }
  }

  // ---- Filling ---------------------------------------------------------------------------------

  /** The cell of an entry put into the first vacant slot of its probe sequence. */
  lemma {:induction false} InsertKeepsTable(h: KeyHash, cells: seq<Cell>, e: Entry, d: nat)
    requires |cells| > 0 && d < |cells| && (forall i :: 0 <= i < |cells| ==> CellOk(h, cells, i)) && DistinctKeys(cells)
    requires Reach(cells, h(e.key), d) && cells[At(h(e.key), d, |cells|)].Vacant?
    requires forall i :: 0 <= i < |cells| && cells[i].Full? ==> cells[i].key != e.key
    ensures var i := At(h(e.key), d, |cells|);
      var more := cells[i := Full(H2(h(e.key)), e.key, e.row)];
      && (forall j :: 0 <= j < |more| ==> CellOk(h, more, j)) && DistinctKeys(more)
      && Count(IsFull, more) == Count(IsFull, cells) + 1
  {
    hide Distance, At;
    var i := At(h(e.key), d, |cells|);
    var more := cells[i := Full(H2(h(e.key)), e.key, e.row)];
    CountUpdate(IsFull, cells, i, more[i]);
    forall j | 0 <= j < |more|
      ensures CellOk(h, more, j)
    {
      if j == i {
        DistanceWithin(cells, h(e.key), i, d);
        ReachGrows(cells, more, h(e.key), Distance(h(e.key), i, |cells|));
      } else if more[j].Full? {
        assert CellOk(h, cells, j);
        ReachGrows(cells, more, h(cells[j].key), Distance(h(cells[j].key), j, |cells|));
      }
    }
  }

  lemma {:induction false} ReachGrows(cells: seq<Cell>, more: seq<Cell>, hash: u64, d: nat)
    requires |cells| == |more| > 0 && Reach(cells, hash, d)
    requires forall i :: 0 <= i < |cells| && cells[i].Full? ==> more[i].Full?
    ensures Reach(more, hash, d)
  {
    hide At;
    forall e | 0 <= e < d
      ensures Busy(more, hash, e)
    {
      assert Busy(cells, hash, e);
    }
  }

  /** If slot i is d probes from home then its canonical distance is no further. */
  lemma {:induction false} DistanceWithin(cells: seq<Cell>, hash: u64, i: nat, d: nat)
    requires i < |cells| && d < |cells| && At(hash, d, |cells|) == i && Reach(cells, hash, d)
    ensures Reach(cells, hash, Distance(hash, i, |cells|))
  {
    SameDistance(hash, d, Distance(hash, i, |cells|), |cells|);
  }

  /** Fewer than n probes never meet a slot twice. */
  lemma {:induction false} SameDistance(hash: u64, a: nat, b: nat, n: nat)
    requires a < n && b < n && At(hash, a, n) == At(hash, b, n)
    ensures a == b
  {
    var qa, qb, r := (hash + a) / n, (hash + b) / n, At(hash, a, n);
    assert hash + a == qa * n + r && hash + b == qb * n + r;
    assert a - b == (qa - qb) * n;
    Multiples(qa - qb, n);
  }

  /** While a cell is vacant, the probing loop comes nearer to it with every step. */
  lemma {:induction false} VacantAhead(cells: seq<Cell>, hash: u64, d: nat) returns (stop: nat)
    requires |cells| > 0 && Count(IsFull, cells) < |cells| && d <= |cells| && Reach(cells, hash, d)
    ensures d <= stop < |cells| && cells[At(hash, stop, |cells|)].Vacant?
  {
    hide At;
    var i := SomeMiss(IsFull, cells);
    stop := Distance(hash, i, |cells|);
    var taken := if stop < d then Busy(cells, hash, stop) else true;
  }

  // ---- Entries ---------------------------------------------------------------------------------

  function Entries(cells: seq<Cell>): (r: seq<Entry>)
    ensures |r| == Count(IsFull, cells)
  {
    if cells == [] then []
    else (if cells[0].Full? then [Entry(cells[0].key, cells[0].row)] else []) + Entries(cells[1..])
  }

  lemma {:induction false} EntriesInsert(cells: seq<Cell>, i: nat, e: Entry, control: byte)
    requires i < |cells| && cells[i].Vacant?
    ensures multiset(Entries(cells[i := Full(control, e.key, e.row)])) == multiset(Entries(cells)) + multiset{e}
  {
    var more := cells[i := Full(control, e.key, e.row)];
    if i == 0 {
      assert more[1..] == cells[1..];
      assert Entries(more) == [e] + Entries(cells[1..]);
      assert Entries(cells) == Entries(cells[1..]);
    } else {
      assert more[1..] == cells[1..][i - 1 := more[i]];
      EntriesInsert(cells[1..], i - 1, e, control);
      var head := if cells[0].Full? then [Entry(cells[0].key, cells[0].row)] else [];
      assert Entries(more) == head + Entries(more[1..]) && Entries(cells) == head + Entries(cells[1..]);
    }
  }

  lemma {:induction false} EntriesMembers(cells: seq<Cell>, e: Entry)
    ensures e in Entries(cells) <==>
      exists i :: 0 <= i < |cells| && cells[i].Full? && cells[i].key == e.key && cells[i].row == e.row
  {
    if cells != [] {
      EntriesMembers(cells[1..], e);
      if i :| 0 <= i < |cells| && cells[i].Full? && cells[i].key == e.key && cells[i].row == e.row {
        if i > 0 {
          assert cells[1..][i - 1] == cells[i];
        }
      }
      if j :| 0 <= j < |cells[1..]| && cells[1..][j].Full? && cells[1..][j].key == e.key && cells[1..][j].row == e.row {
        assert cells[j + 1] == cells[1..][j];
      }
    }
  }

  lemma {:induction false} EntriesAppend(cells: seq<Cell>, c: Cell)
    ensures Entries(cells + [c]) == Entries(cells) + (if c.Full? then [Entry(c.key, c.row)] else [])
  {
    if cells == [] {
      assert cells + [c] == [c];
    } else {
      var head := if cells[0].Full? then [Entry(cells[0].key, cells[0].row)] else [];
      var last := if c.Full? then [Entry(c.key, c.row)] else [];
      assert (cells + [c])[1..] == cells[1..] + [c] && (cells + [c])[0] == cells[0];
      EntriesAppend(cells[1..], c);
      assert head + (Entries(cells[1..]) + last) == head + Entries(cells[1..]) + last;
    }
  }

  lemma {:induction false} NoEntries(cells: seq<Cell>)
    requires forall i :: 0 <= i < |cells| ==> cells[i].Vacant?
    ensures Entries(cells) == [] && Count(IsFull, cells) == 0
  {
    if cells != [] {
      NoEntries(cells[1..]);
    }
  }

  /** Lookup returns an offset exactly for the keys that Entries lists, and the same offset. */
  lemma {:induction false} FindListsEntries(h: KeyHash, cells: seq<Cell>, key: u64, row: u64)
    requires TableOk(h, cells)
    ensures Find(h, cells, key) == Ok(Some(row)) <==> Entry(key, row) in Entries(cells)
  {
    FindIsExact(h, cells, key);
    EntriesMembers(cells, Entry(key, row));
  }

  lemma {:induction false} EntriesDistinct(cells: seq<Cell>)
    requires DistinctKeys(cells)
    ensures forall i, j :: 0 <= i < j < |Entries(cells)| ==> Entries(cells)[i].key != Entries(cells)[j].key
  {
    if cells != [] {
      var rest := Entries(cells[1..]);
      assert DistinctKeys(cells[1..]);
      EntriesDistinct(cells[1..]);
      if cells[0].Full? {
        forall j | 0 <= j < |rest|
          ensures rest[j].key != cells[0].key
        {
          EntriesMembers(cells[1..], rest[j]);
        }
      }
    }
  }
}
