/**
 * The ordered key-value tree behind every service (`src/db/sqlite.rs`).
 *
 * A tree is a map from byte strings to byte strings. `Listing` is the answer
 * of `SELECT key, value ... ORDER BY key ASC`; the scan and range loops are
 * proved to return listings of the rows they are meant to return.
 */
module Store {
  import opened Wrappers
  import opened Bytes

  type Row = (bytes, bytes)

  type Rows = map<bytes, bytes>

  // ---- ordered listings ----

  ghost predicate Ascending(items: seq<Row>) {
    forall i, j | 0 <= i < j < |items| :: Less(items[i].0, items[j].0)
  }

  /** `items` holds every row once, in ascending key order, and nothing else. */
  ghost predicate Lists(items: seq<Row>, rows: Rows) {
    && Ascending(items)
    && (forall i | 0 <= i < |items| :: items[i].0 in rows && rows[items[i].0] == items[i].1)
    && (forall k | k in rows :: (k, rows[k]) in items)
  }

  lemma {:induction false} LeastExists(keys: set<bytes>)
    requires keys != {}
    ensures exists least :: least in keys && forall k | k in keys :: AtMost(least, k)
  {
    var some :| some in keys;
    if keys == {some} {
      assert forall k | k in keys :: AtMost(some, k);
    } else {
      LeastExists(keys - {some});
      var rest :| rest in keys - {some} && forall k | k in keys - {some} :: AtMost(rest, k);
      LessTotal(some, rest);
      var least := if AtMost(some, rest) then some else rest;
      forall k | k in keys
        ensures AtMost(least, k)
      {
        if k != some {
          assert k in keys - {some};
          AtMostTransitive(least, rest, k);
        }
      }
    }
  }

  function Least(keys: set<bytes>): (least: bytes)
    requires keys != {}
    ensures least in keys && forall k | k in keys :: AtMost(least, k)
  {
    LeastExists(keys);
    LeastIsUnique(keys);
    var least :| least in keys && forall k | k in keys :: AtMost(least, k);
    least
  }

  lemma LeastIsUnique(keys: set<bytes>)
    ensures forall a, b | && a in keys && (forall k | k in keys :: AtMost(a, k))
                          && b in keys && (forall k | k in keys :: AtMost(b, k)) :: a == b
  {
    forall a, b | && a in keys && (forall k | k in keys :: AtMost(a, k))
                  && b in keys && (forall k | k in keys :: AtMost(b, k))
      ensures a == b
    {
      if a != b {
        LessAsymmetric(a, b);
      }
    }
  }

  function Listing(rows: Rows): (items: seq<Row>)
    ensures Lists(items, rows)
    decreases rows.Keys
  {
    if rows == map[] then
      []
    else
      var first := Least(rows.Keys);
      var rest := rows - {first};
      var items := [(first, rows[first])] + Listing(rest);
      ListingExtends(rows, first, Listing(rest));
      items
  }

  lemma ListingExtends(rows: Rows, first: bytes, tail: seq<Row>)
    requires first in rows && (forall k | k in rows :: AtMost(first, k))
    requires Lists(tail, rows - {first})
    ensures Lists([(first, rows[first])] + tail, rows)
  {
    var items := [(first, rows[first])] + tail;
    forall i, j | 0 <= i < j < |items|
      ensures Less(items[i].0, items[j].0)
    {
      assert items[j] == tail[j - 1];
      if i > 0 {
        assert items[i] == tail[i - 1];
      }
    }
    forall k | k in rows
      ensures (k, rows[k]) in items
    {
      if k == first {
        assert items[0] == (k, rows[k]);
      } else {
        var rest := rows - {first};
        assert k in rest && rest[k] == rows[k];
        assert (k, rest[k]) in tail;
      }
    }
  }

  lemma FirstIsLeast(items: seq<Row>, rows: Rows)
    requires Lists(items, rows) && rows != map[]
    ensures |items| > 0 && items[0].0 == Least(rows.Keys)
  {
    var first := Least(rows.Keys);
    assert (first, rows[first]) in items;
    if items[0].0 != first {
      var i :| 0 <= i < |items| && items[i] == (first, rows[first]);
      LessAsymmetric(items[0].0, items[i].0);
    }
  }

  lemma TailLists(items: seq<Row>, rows: Rows)
    requires Lists(items, rows) && |items| > 0
    ensures Lists(items[1..], rows - {items[0].0})
  {
    var rest, tail := rows - {items[0].0}, items[1..];
    forall i | 0 <= i < |tail|
      ensures tail[i].0 in rest && rest[tail[i].0] == tail[i].1
    {
      assert tail[i] == items[i + 1];
      LessAsymmetric(items[0].0, items[i + 1].0);
    }
    forall k | k in rest
      ensures (k, rest[k]) in tail
    {
      assert (k, rows[k]) in items;
      var i :| 0 <= i < |items| && items[i] == (k, rows[k]);
      assert tail[i - 1] == items[i];
    }
  }

  lemma RowsHaveItems(items: seq<Row>, rows: Rows, key: bytes)
    requires Lists(items, rows) && key in rows
    ensures |items| > 0
  {
    assert (key, rows[key]) in items;
  }

  /** A set of rows has only one listing. */
  lemma {:induction false} ListingIsUnique(items: seq<Row>, rows: Rows)
    requires Lists(items, rows)
    ensures items == Listing(rows)
    decreases |items|
  {
    hide Less;
    if |items| == 0 {
      forall key
        ensures key !in rows
      {
        if key in rows {
          RowsHaveItems(items, rows, key);
        }
      }
      assert rows.Keys == {};
    } else {
      assert items[0].0 in rows;
      FirstIsLeast(items, rows);
      var first := items[0].0;
      TailLists(items, rows);
      ListingIsUnique(items[1..], rows - {first});
      assert items == [(first, rows[first])] + items[1..];
    }
  }

  lemma ListingHasKey(rows: Rows, key: bytes)
    ensures (exists i | 0 <= i < |Listing(rows)| :: Listing(rows)[i].0 == key) <==> key in rows
  {
    var items := Listing(rows);
    if key in rows {
      assert (key, rows[key]) in items;
    }
  }

  // ---- what the queries select ----

  function RowsFrom(rows: Rows, start: bytes): Rows {
    map k | k in rows && AtMost(start, k) :: rows[k]
  }

  function WithPrefix(rows: Rows, prefix: bytes): Rows {
    map k | k in rows && prefix <= k :: rows[k]
  }

  function Between(rows: Rows, start: bytes, end: bytes): Rows {
    map k | k in rows && AtMost(start, k) && AtMost(k, end) :: rows[k]
  }

  function WithoutPrefix(rows: Rows, prefix: bytes): Rows {
    map k | k in rows && !(prefix <= k) :: rows[k]
  }

  // ---- batches ----

  type Update = (bytes, Option<bytes>)

  function Written(rows: Rows, update: Update): Rows {
    if update.1.Some? then rows[update.0 := update.1.value] else rows - {update.0}
  }

  function Applied(rows: Rows, batch: seq<Update>): Rows {
    if |batch| == 0 then rows else Written(Applied(rows, batch[..|batch| - 1]), batch[|batch| - 1])
  }

  /** The last update of `key` in the batch, if any. */
  function LastUpdate(batch: seq<Update>, key: bytes): (last: Option<Option<bytes>>)
    ensures last.None? <==> forall i | 0 <= i < |batch| :: batch[i].0 != key
    ensures last.Some? ==> (key, last.value) in batch
  {
    if |batch| == 0 then None
    else if batch[|batch| - 1].0 == key then Some(batch[|batch| - 1].1)
    else LastUpdate(batch[..|batch| - 1], key)
  }

  function Lookup(rows: Rows, key: bytes): Option<bytes> {
    if key in rows then Some(rows[key]) else None
  }

  /** A batch acts key by key: the last update wins, other keys keep their value. */
  lemma {:induction false} AppliedLookup(rows: Rows, batch: seq<Update>, key: bytes)
    ensures Lookup(Applied(rows, batch), key)
         == match LastUpdate(batch, key) { case Some(v) => v case None => Lookup(rows, key) }
  {
    if |batch| > 0 {
      AppliedLookup(rows, batch[..|batch| - 1], key);
    }
  }

  function Removals(items: seq<Row>): (batch: seq<Update>)
    ensures |batch| == |items|
    ensures forall i | 0 <= i < |items| :: batch[i] == (items[i].0, None)
  {
    seq(|items|, i requires 0 <= i < |items| => (items[i].0, None))
  }

  /** Removing every scanned key deletes exactly the keys under the prefix. */
  lemma RemovePrefix(rows: Rows, prefix: bytes)
    ensures Applied(rows, Removals(Listing(WithPrefix(rows, prefix)))) == WithoutPrefix(rows, prefix)
  {
    var items := Listing(WithPrefix(rows, prefix));
    var batch := Removals(items);
    var left := Applied(rows, batch);
    forall k: bytes
      ensures Lookup(left, k) == Lookup(WithoutPrefix(rows, prefix), k)
    {
      AppliedLookup(rows, batch, k);
      if k in rows && prefix <= k {
        var found := WithPrefix(rows, prefix);
        assert k in found && found[k] == rows[k];
        assert (k, found[k]) in items;
        var i :| 0 <= i < |items| && items[i] == (k, rows[k]);
        assert batch[i].0 == k;
      } else {
        forall i | 0 <= i < |batch|
          ensures batch[i].0 != k
        {
          assert items[i].0 in WithPrefix(rows, prefix);
        }
      }
    }
    SameLookups(left, WithoutPrefix(rows, prefix));
  }

  lemma SameLookups(a: Rows, b: Rows)
    requires forall k: bytes :: Lookup(a, k) == Lookup(b, k)
    ensures a == b
  {
    forall k: bytes
      ensures k in a <==> k in b
      ensures k in a ==> a[k] == b[k]
    {
      assert Lookup(a, k) == Lookup(b, k);
    }
    assert a.Keys == b.Keys;
  }

  // ---- why the loops may stop early ----

  /** Cutting a listing where a downward-closed selection ends lists the selection. */
  lemma CutListing(all: seq<Row>, n: nat, source: Rows, selected: Rows)
    requires Lists(all, source) && n <= |all|
    requires forall i | 0 <= i < n :: all[i].0 in selected
    requires forall i | n <= i < |all| :: all[i].0 !in selected
    requires forall k | k in selected :: k in source && source[k] == selected[k]
    ensures all[..n] == Listing(selected)
  {
    var items := all[..n];
    forall k | k in selected
      ensures (k, selected[k]) in items
    {
      assert (k, source[k]) in all;
      var i :| 0 <= i < |all| && all[i] == (k, source[k]);
      assert items[i] == (k, selected[k]);
    }
    ListingIsUnique(items, selected);
  }

  lemma ScanStops(all: seq<Row>, rows: Rows, prefix: bytes, n: nat)
    requires Lists(all, RowsFrom(rows, prefix)) && n <= |all|
    requires forall i | 0 <= i < n :: prefix <= all[i].0
    requires n < |all| ==> !(prefix <= all[n].0)
    ensures all[..n] == Listing(WithPrefix(rows, prefix))
  {
    forall k | k in WithPrefix(rows, prefix)
      ensures k in RowsFrom(rows, prefix)
    {
      PrefixAtMost(prefix, k);
    }
    forall i | n <= i < |all|
      ensures all[i].0 !in WithPrefix(rows, prefix)
    {
      assert all[n].0 in RowsFrom(rows, prefix);
      if prefix <= all[i].0 {
        PrefixConvex(prefix, all[n].0, all[i].0);
      }
    }
    CutListing(all, n, RowsFrom(rows, prefix), WithPrefix(rows, prefix));
  }

  lemma RangeStops(all: seq<Row>, rows: Rows, start: bytes, end: bytes, n: nat)
    requires Lists(all, RowsFrom(rows, start)) && n <= |all|
    requires forall i | 0 <= i < n :: AtMost(all[i].0, end)
    requires n < |all| ==> !AtMost(all[n].0, end)
    ensures all[..n] == Listing(Between(rows, start, end))
  {
    forall i | n <= i < |all|
      ensures all[i].0 !in Between(rows, start, end)
    {
      if AtMost(all[i].0, end) {
        AtMostTransitive(all[n].0, all[i].0, end);
      }
    }
    CutListing(all, n, RowsFrom(rows, start), Between(rows, start, end));
  }

  // ---- the tree ----

  class Tree {
    var rows: Rows

    constructor ()
      ensures rows == map[]
    {
      rows := map[];
    }

    method Get(key: bytes) returns (value: Option<bytes>)
      ensures value == Lookup(rows, key)
    {
      value := if key in rows then Some(rows[key]) else None;
    }

    method ContainsKey(key: bytes) returns (found: bool)
      ensures found <==> key in rows
    {
      found := key in rows;
    }

    method Insert(key: bytes, value: bytes)
      modifies this
      ensures rows == old(rows)[key := value]
    {
      rows := rows[key := value];
    }

    method Remove(key: bytes)
      modifies this
      ensures rows == old(rows) - {key}
    {
      rows := rows - {key};
    }

    method ApplyBatch(batch: seq<Update>)
      modifies this
      ensures rows == Applied(old(rows), batch)
    {
      for i := 0 to |batch|
        invariant rows == Applied(old(rows), batch[..i])
      {
        var (key, value) := batch[i];
        if value.Some? {
          rows := rows[key := value.value];
        } else {
          rows := rows - {key};
        }
        assert batch[..i + 1][..i] == batch[..i];
      }
      assert batch[..|batch|] == batch;
    }

    /** `scan_prefix`: read from the prefix on, stop at the first other key. */
    method ScanPrefix(prefix: bytes) returns (items: seq<Row>)
      ensures items == Listing(WithPrefix(rows, prefix))
    {
      var stream := Listing(RowsFrom(rows, prefix));
      items := [];
      var next := 0;
      while next < |stream|
        invariant 0 <= next <= |stream|
        invariant items == stream[..next]
        invariant forall i | 0 <= i < next :: prefix <= stream[i].0
      {
        if prefix <= stream[next].0 {
          items := items + [stream[next]];
          next := next + 1;
        } else {
          break;
        }
      }
      ScanStops(stream, rows, prefix, next);
    }

    /** `range` over an inclusive interval of keys. */
    method Range(start: bytes, end: bytes) returns (items: seq<Row>)
      ensures items == Listing(Between(rows, start, end))
    {
      var stream := Listing(RowsFrom(rows, start));
      items := [];
      var next := 0;
      while next < |stream|
        invariant 0 <= next <= |stream|
        invariant items == stream[..next]
        invariant forall i | 0 <= i < next :: AtMost(stream[i].0, end)
      {
        if AtMost(stream[next].0, end) {
          items := items + [stream[next]];
          next := next + 1;
        } else {
          break;
        }
      }
      RangeStops(stream, rows, start, end, next);
    }

    /** `batch_delete_prefix`. */
    method DeletePrefix(prefix: bytes)
      modifies this
      ensures rows == WithoutPrefix(old(rows), prefix)
    {
      var items := ScanPrefix(prefix);
      RemovePrefix(rows, prefix);
      ApplyBatch(Removals(items));
    }
  }
}
