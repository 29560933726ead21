/**
 * The chat tree's channel and message writers, run on the byte-level store
 * (`ChatTree` in `src/impls/chat/mod.rs` and its callers). Each method is
 * proved to be one `Channels.Step` on the view of the store.
 */
module ChatTrees {
  import opened Wrappers
  import opened Bytes
  import opened Store
  import opened ChatKeys
  import opened ChatStore
  import opened Ordering
  import opened Channels

  datatype Error = BadItemPosition | NoSuchChannel | UnderSpecifiedChannels

  class ChatTree {
    const tree: Tree

    constructor (tree: Tree)
      ensures this.tree == tree
    {
      this.tree := tree;
    }

    ghost function Now(): Typed
      reads tree
    {
      View(tree.rows)
    }

    method Has(k: ChatKey) returns (found: bool)
      ensures found <==> k in Now()
    {
      ViewLookup(tree.rows, k);
      found := tree.ContainsKey(Encode(k));
    }

    method GetList(k: ChatKey) returns (list: seq<u64>)
      ensures list == ListAt(Now(), k)
    {
      ViewLookup(tree.rows, k);
      var raw := tree.Get(Encode(k));
      list := if raw.Some? then DecodeIds(raw.value) else [];
    }

    method Put(k: ChatKey, value: bytes)
      modifies tree
      ensures Now() == old(Now())[k := value]
      ensures forall prefix | old(Keyed(tree.rows, prefix)) :: Keyed(tree.rows, prefix)
    {
      ViewInsert(tree.rows, k, value);
      KeyedPreserved(tree.rows, k, value);
      tree.Insert(Encode(k), value);
    }

    method Drop(k: ChatKey)
      modifies tree
      ensures Now() == old(Now()) - {k}
    {
      ViewRemove(tree.rows, k);
      tree.Remove(Encode(k));
    }

    /** The closure of `update_order_logic`: placeholder in, id out, placeholder overwritten. */
    static method ReplaceWith(list: seq<u64>, id: u64, index: nat) returns (ordering: seq<u64>)
      requires index <= |list|
      requires id != 0 || 0 in list
      ensures ordering == Moved(list, id, index)
    {
      PlaceholderFound(list, id, index);
      ordering := list[..index] + [0] + list[index..];
      var old_ := IndexOf(ordering, id);
      if old_.Some? {
        ordering := ordering[..old_.value] + ordering[old_.value + 1..];
      }
      var hole := IndexOf(ordering, 0);
      ordering := ordering[hole.value := id];
    }

    /** `update_order_logic`. */
    method UpdateOrder(k: ChatKey, id: u64, position: Option<Position>)
      requires position.Some? && position.value.item in ListAt(Now(), k) ==> id != 0 || 0 in ListAt(Now(), k)
      modifies tree
      ensures Now() == old(Now())[k := EncodeIds(Reordered(old(ListAt(Now(), k)), id, position))]
      ensures forall prefix | old(Keyed(tree.rows, prefix)) :: Keyed(tree.rows, prefix)
    {
      var ordering := GetList(k);
      match position {
        case Some(p) =>
          var at := IndexOf(ordering, p.item);
          match p.side {
            case After =>
              if at.Some? {
                ordering := ReplaceWith(ordering, id, at.value + 1);
              }
            case Before =>
              if at.Some? {
                ordering := ReplaceWith(ordering, id, at.value);
              }
          }
        case None =>
          ordering := ordering + [id];
      }
      Put(k, EncodeIds(ordering));
    }

    method InsertChannelRows(g: u64, c: u64, channel: bytes)
      modifies tree
      ensures Now() == old(Now())[Channel(g, c) := channel][NextId(g, c) := Id(1)]
    {
      TwoInserts(tree.rows, Channel(g, c), channel, NextId(g, c), Id(1));
      tree.ApplyBatch([(Encode(Channel(g, c)), Some(channel)), (Encode(NextId(g, c)), Some(Id(1)))]);
    }

    /** The position check of the handler and the existence check of the logic. */
    method CheckPosition(g: u64, position: Option<Position>) returns (problem: Option<Error>)
      ensures problem.None? <==>
                (position.Some? ==> position.value.item != 0 && Channel(g, position.value.item) in Now())
    {
      if position.Some? {
        if position.value.item == 0 {
          return Some(BadItemPosition);
        }
        var found := Has(Channel(g, position.value.item));
        if !found {
          return Some(NoSuchChannel);
        }
      }
      problem := None;
    }

    method PlaceChannel(g: u64, c: u64, channel: bytes, position: Option<Position>)
      requires Accepted(Now(), Op.CreateChannel(g, c, channel, position))
      modifies tree
      ensures Now() == Performed(old(Now()), Op.CreateChannel(g, c, channel, position))
    {
      InsertChannelRows(g, c, channel);
      assert Order(Now(), g) == old(Order(Now(), g));
      UpdateOrder(ChannelOrder(g), c, position);
    }

    /** `create_channel_logic` behind the handler's position check; `c` is the drawn id. */
    method CreateChannel(g: u64, c: u64, channel: bytes, position: Option<Position>) returns (r: Result<u64, Error>)
      requires c != 0 && Channel(g, c) !in Now()
      modifies tree
      ensures Some(Now()) == Step(old(Now()), Op.CreateChannel(g, c, channel, position))
      ensures r.Ok? <==> Accepted(old(Now()), Op.CreateChannel(g, c, channel, position))
      ensures r.Ok? ==> r.value == c
      ensures old(Consistent(Now())) ==> Consistent(Now())
      ensures r.Ok? && old(Consistent(Now())) ==>
                && Without(Order(Now(), g), c) == old(Order(Now(), g))
                && (position.None? ==> Order(Now(), g) == old(Order(Now(), g)) + [c])
                && (position.Some? ==> Adjacent(Order(Now(), g), c, position.value))
    {
      hide Consistent, Adjacent, Without, Reordered, DecodeIds;
      ghost var op := Op.CreateChannel(g, c, channel, position);
      if Consistent(Now()) {
        StepKeepsIff(Now(), op);
        if Accepted(Now(), op) {
          CreatePlaces(Now(), op);
          CreatedIsLeftOut(Now(), op);
        }
      }
      var problem := CheckPosition(g, position);
      if problem.Some? {
        return Err(problem.value);
      }
      PlaceChannel(g, c, channel, position);
      r := Ok(c);
    }

    /** `delete_channel.rs`: every row under the channel's key, and the ordering entry, in one batch. */
    method DeleteChannel(g: u64, c: u64) returns (r: Result<(), Error>)
      modifies tree
      ensures Some(Now()) == Step(old(Now()), Op.DeleteChannel(g, c))
      ensures r.Ok? <==> Channel(g, c) in old(Now())
      ensures old(Consistent(Now())) ==> Consistent(Now())
      ensures r.Ok? ==> tree.rows == WithoutPrefix(old(tree.rows), ChanKey(g, c))[
                          Encode(ChannelOrder(g)) := EncodeIds(Order(Now(), g))]
    {
      hide View, Consistent, Decode, DecodeIds, EncodeIds, Without, DropChannel, Applied, Removals, WithPrefix, WithoutPrefix;
      if Consistent(Now()) {
        StepKeepsIff(Now(), Op.DeleteChannel(g, c));
      }
      var found := Has(Channel(g, c));
      if !found {
        return Err(NoSuchChannel);
      }
      var data := tree.ScanPrefix(ChanKey(g, c));
      var ordering := GetList(ChannelOrder(g));
      var at := IndexOf(ordering, c);
      if at.Some? {
        ordering := ordering[..at.value] + ordering[at.value + 1..];
      }
      DroppedAndReordered(tree.rows, g, c, ordering);
      tree.ApplyBatch(Removals(data) + [(Encode(ChannelOrder(g)), Some(EncodeIds(ordering)))]);
      r := Ok(());
    }

    /** `update_channel_order.rs` with a position; a serviceable store keeps its unchecked unwrap defined. */
    method MoveChannel(g: u64, c: u64, to: Position) returns (r: Result<(), Error>)
      requires Serviceable(Now())
      modifies tree
      ensures Some(Now()) == Step(old(Now()), Op.MoveChannel(g, c, to))
      ensures r.Ok? <==> Channel(g, c) in old(Now())
      ensures Serviceable(Now())
      ensures old(Consistent(Now())) ==> Consistent(Now())
      ensures r.Ok? && old(Consistent(Now())) ==>
                if Channel(g, to.item) in old(Now()) && to.item != c then
                  && Adjacent(Order(Now(), g), c, to)
                  && Without(Order(Now(), g), c) == Without(old(Order(Now(), g)), c)
                else
                  Order(Now(), g) == old(Order(Now(), g))
    {
      hide Consistent, Adjacent, Without, Reordered, DecodeIds;
      StepKeepsServiceable(Now(), Op.MoveChannel(g, c, to));
      if Consistent(Now()) {
        StepKeepsIff(Now(), Op.MoveChannel(g, c, to));
        if Channel(g, c) in Now() {
          MovePlaces(Now(), g, c, to);
        }
      }
      var found := Has(Channel(g, c));
      if !found {
        return Err(NoSuchChannel);
      }
      UpdateOrder(ChannelOrder(g), c, Some(to));
      r := Ok(());
    }

    /** The ids of the guild's channel rows, as `update_all_channel_order.rs` collects them. */
    method ChannelIds(g: u64) returns (ids: seq<u64>)
      ensures forall c: u64 :: c in ids <==> Channel(g, c) in Now()
    {
      var prefix := GuildChanPrefix(g);
      var items := tree.ScanPrefix(prefix);
      ids := [];
      for i := 0 to |items|
        invariant ids == RowIds(items[..i])
      {
        assert items[..i + 1][..i] == items[..i];
        var key := items[i].0;
        if |key| == |prefix| + 8 {
          ids := ids + [ReadId(key[|prefix|..])];
        }
      }
      assert items[..|items|] == items;
      ChannelIdsExact(tree.rows, g);
    }

    method AllExist(g: u64, ids: seq<u64>) returns (all: bool)
      ensures all <==> forall c | c in ids :: Channel(g, c) in Now()
    {
      for i := 0 to |ids|
        invariant forall j | 0 <= j < i :: Channel(g, ids[j]) in Now()
      {
        var found := Has(Channel(g, ids[i]));
        if !found {
          return false;
        }
      }
      all := true;
    }

    static method AllNamed(channels: seq<u64>, ids: seq<u64>) returns (all: bool)
      ensures all <==> forall c | c in channels :: c in ids
    {
      for i := 0 to |channels|
        invariant forall j | 0 <= j < i :: channels[j] in ids
      {
        if channels[i] !in ids {
          return false;
        }
      }
      all := true;
    }

    /** `update_all_channel_order.rs`. A list naming a channel twice is accepted, and spoils the ordering row. */
    method UpdateAllChannelOrder(g: u64, ids: seq<u64>) returns (r: Result<(), Error>)
      modifies tree
      ensures Some(Now()) == Step(old(Now()), ReorderChannels(g, ids))
      ensures r.Ok? <==> Accepted(old(Now()), ReorderChannels(g, ids))
      ensures old(Consistent(Now())) ==> (Consistent(Now()) <==> r.Err? || Distinct(ids))
    {
      if Consistent(Now()) {
        StepKeepsIff(Now(), ReorderChannels(g, ids));
      }
      var exist := AllExist(g, ids);
      if !exist {
        return Err(NoSuchChannel);
      }
      var channels := ChannelIds(g);
      var named := AllNamed(channels, ids);
      if !named {
        return Err(UnderSpecifiedChannels);
      }
      Put(ChannelOrder(g), EncodeIds(ids));
      r := Ok(());
    }

    /** `get_next_message_id`: hand out the stored counter and store its successor. */
    method GetNextMessageId(g: u64, c: u64) returns (id: u64)
      requires HasCounter(Now(), g, c)
      modifies tree
      ensures id == Counter(old(Now()), g, c)
      ensures Now() == old(Now())[NextId(g, c) := Id(NextCounter(id))]
    {
      ViewLookup(tree.rows, NextId(g, c));
      var raw := tree.Get(Encode(NextId(g, c)));
      id := ReadId(raw.value);
      Put(NextId(g, c), Id(NextCounter(id)));
    }

    /** `send_message_logic` behind the handler's channel check. */
    method SendMessage(g: u64, c: u64, message: bytes) returns (r: Result<u64, Error>)
      requires Serviceable(Now())
      modifies tree
      ensures Some(Now()) == Step(old(Now()), Op.SendMessage(g, c, message))
      ensures r.Ok? <==> Channel(g, c) in old(Now())
      ensures r.Ok? ==> HasCounter(old(Now()), g, c) && r.value == Counter(old(Now()), g, c)
      ensures r.Ok? && old(Consistent(Now())) ==> Message(g, c, r.value) !in old(Now())
      ensures Serviceable(Now())
    {
      StepKeepsServiceable(Now(), Op.SendMessage(g, c, message));
      var found := Has(Channel(g, c));
      if !found {
        return Err(NoSuchChannel);
      }
      var id := GetNextMessageId(g, c);
      Put(Message(g, c, id), message);
      r := Ok(id);
    }
  }

  /** The ids at the end of the 17-byte keys of a scan. */
  function RowIds(items: seq<Row>): seq<u64> {
    if |items| == 0 then []
    else
      var (key, _) := items[|items| - 1];
      var before := RowIds(items[..|items| - 1]);
      if |key| == 17 then before + [ReadId(key[9..])] else before
  }

  lemma {:induction false} RowIdsExact(items: seq<Row>, prefix: bytes, c: u64)
    requires |prefix| == 9 && forall i | 0 <= i < |items| :: prefix <= items[i].0
    ensures c in RowIds(items) <==> exists i | 0 <= i < |items| :: items[i].0 == prefix + Id(c)
  {
    if |items| > 0 {
      RowIdsExact(items[..|items| - 1], prefix, c);
      var key := items[|items| - 1].0;
      if |key| == 17 {
        ReadIdInverse(key[9..]);
        assert key == prefix + key[9..];
        assert key == prefix + Id(c) <==> ReadId(key[9..]) == c by {
          assert (prefix + Id(c))[9..] == Id(c);
        }
      }
    }
  }

  lemma ScannedIds(rows: Rows, prefix: bytes, c: u64)
    requires |prefix| == 9
    ensures c in RowIds(Listing(WithPrefix(rows, prefix))) <==> prefix + Id(c) in rows
  {
    var selected := WithPrefix(rows, prefix);
    var items := Listing(selected);
    assert forall i | 0 <= i < |items| :: items[i].0 in selected;
    RowIdsExact(items, prefix, c);
    ListingHasKey(selected, prefix + Id(c));
    assert prefix <= prefix + Id(c);
  }

  lemma ChannelRowsListed(rows: Rows, g: u64, c: u64)
    ensures c in RowIds(Listing(WithPrefix(rows, GuildChanPrefix(g)))) <==> ChanKey(g, c) in rows
  {
    ScannedIds(rows, GuildChanPrefix(g), c);
  }

  lemma ChannelIdsExact(rows: Rows, g: u64)
    ensures var ids := RowIds(Listing(WithPrefix(rows, GuildChanPrefix(g))));
            forall c: u64 :: c in ids <==> Channel(g, c) in View(rows)
  {
    hide View, RowIds, WithPrefix;
    forall c: u64
      ensures c in RowIds(Listing(WithPrefix(rows, GuildChanPrefix(g)))) <==> Channel(g, c) in View(rows)
    {
      ChannelRowsListed(rows, g, c);
      ViewLookup(rows, Channel(g, c));
    }
  }

  /** The batch of a channel's deletion: its rows go, the ordering row is rewritten. */
  lemma DroppedAndReordered(rows: Rows, g: u64, c: u64, ordering: seq<u64>)
    ensures var batch := Removals(Listing(WithPrefix(rows, ChanKey(g, c))))
                         + [(Encode(ChannelOrder(g)), Some(EncodeIds(ordering)))];
            && Applied(rows, batch) == WithoutPrefix(rows, ChanKey(g, c))[Encode(ChannelOrder(g)) := EncodeIds(ordering)]
            && View(Applied(rows, batch)) == DropChannel(View(rows), g, c)[ChannelOrder(g) := EncodeIds(ordering)]
    ensures ListAt(DropChannel(View(rows), g, c)[ChannelOrder(g) := EncodeIds(ordering)], ChannelOrder(g)) == ordering
  {
    hide View, DropChannel, DecodeIds, EncodeIds;
    var removals := Removals(Listing(WithPrefix(rows, ChanKey(g, c))));
    var batch := removals + [(Encode(ChannelOrder(g)), Some(EncodeIds(ordering)))];
    RemovePrefix(rows, ChanKey(g, c));
    ViewDropChannel(rows, g, c);
    ViewInsert(WithoutPrefix(rows, ChanKey(g, c)), ChannelOrder(g), EncodeIds(ordering));
    IdsRoundTrip(ordering);
    assert batch[..|batch| - 1] == removals;
  }

  lemma TwoInserts(rows: Rows, j: ChatKey, a: bytes, k: ChatKey, b: bytes)
    ensures var batch := [(Encode(j), Some(a)), (Encode(k), Some(b))];
            View(Applied(rows, batch)) == View(rows)[j := a][k := b]
  {
    var first, batch := [(Encode(j), Some(a))], [(Encode(j), Some(a)), (Encode(k), Some(b))];
    assert batch[..1] == first && first[..0] == [];
    assert Applied(rows, first) == rows[Encode(j) := a];
    assert Applied(rows, batch) == rows[Encode(j) := a][Encode(k) := b];
    ViewInsert(rows, j, a);
    ViewInsert(rows[Encode(j) := a], k, b);
  }
}
