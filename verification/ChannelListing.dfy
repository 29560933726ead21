/**
 * Listing a guild's channels for a user (`get_guild_channels_logic`): scan the
 * channel rows, keep the visible ones, and swap them into the stored order.
 */
module ChannelListing {
  import opened Wrappers
  import opened Bytes
  import opened Store
  import opened ChatKeys
  import opened ChatStore
  import opened Ordering
  import opened Channels

  /** What the permission check says about a channel; anything but a missing permission fails the request. */
  datatype Check = Shown | Hidden | Failed

  type Checker = u64 -> Check

  type Visibility = u64 -> bool

  function ShownBy(check: Checker): Visibility {
    (c: u64) => check(c) == Shown
  }

  function VisibleRows(items: seq<Row>, allowed: Visibility): seq<ChannelWithId> {
    if |items| == 0 then []
    else
      var (key, value) := items[|items| - 1];
      var before := VisibleRows(items[..|items| - 1], allowed);
      if |key| == 17 && allowed(ReadId(key[9..])) then before + [ChannelWithId(ReadId(key[9..]), value)] else before
  }

  function ChannelRows(rows: Rows, g: u64): seq<Row> {
    Listing(WithPrefix(rows, GuildChanPrefix(g)))
  }

  /** Every kept channel comes from its own row, and every visible row is kept. */
  lemma {:induction false} VisibleFromRows(items: seq<Row>, g: u64, allowed: Visibility)
    requires Ascending(items) && forall i | 0 <= i < |items| :: GuildChanPrefix(g) <= items[i].0
    ensures forall x | x in VisibleRows(items, allowed) :: (ChanKey(g, x.id), x.channel) in items && allowed(x.id)
    ensures forall c: u64, v | (ChanKey(g, c), v) in items && allowed(c) :: ChannelWithId(c, v) in VisibleRows(items, allowed)
    ensures DistinctIds(VisibleRows(items, allowed))
  {
    if |items| > 0 {
      var before := items[..|items| - 1];
      VisibleFromRows(before, g, allowed);
      var (key, value) := items[|items| - 1];
      LastRow(items, g);
      assert forall row :: row in items <==> row in before || row == (key, value);
      if |key| == 17 {
        var c := ReadId(key[9..]);
        forall x | x in VisibleRows(before, allowed)
          ensures x.id != c
        {
          var i :| 0 <= i < |before| && before[i] == (ChanKey(g, x.id), x.channel);
          assert Less(items[i].0, key);
          LessAsymmetric(items[i].0, key);
        }
      }
    }
  }

  lemma LastRow(items: seq<Row>, g: u64)
    requires |items| > 0 && GuildChanPrefix(g) <= items[|items| - 1].0
    ensures var key := items[|items| - 1].0;
            forall c: u64 :: key == ChanKey(g, c) <==> |key| == 17 && ReadId(key[9..]) == c
  {
    var key := items[|items| - 1].0;
    if |key| == 17 {
      ReadIdInverse(key[9..]);
      assert key == GuildChanPrefix(g) + key[9..];
    }
    forall c: u64
      ensures key == ChanKey(g, c) <==> |key| == 17 && ReadId(key[9..]) == c
    {
      assert ChanKey(g, c)[9..] == Id(c);
    }
  }

  /** The channels a user is allowed to see, as the store has them. */
  ghost predicate ShowsExactly(visible: seq<ChannelWithId>, typed: Typed, g: u64, allowed: Visibility) {
    && DistinctIds(visible)
    && (forall x | x in visible :: allowed(x.id) && Channel(g, x.id) in typed && typed[Channel(g, x.id)] == x.channel)
    && (forall c: u64 | Channel(g, c) in typed && allowed(c) :: c in IdSet(visible))
  }

  /** The scan lists a channel's row with the value the store has. */
  lemma ChannelIsListed(rows: Rows, g: u64, c: u64, value: bytes)
    ensures (ChanKey(g, c), value) in ChannelRows(rows, g) <==>
              Channel(g, c) in View(rows) && View(rows)[Channel(g, c)] == value
  {
    var selected, key := WithPrefix(rows, GuildChanPrefix(g)), ChanKey(g, c);
    ViewLookup(rows, Channel(g, c));
    assert GuildChanPrefix(g) <= key;
    if key in rows {
      assert (key, selected[key]) in ChannelRows(rows, g);
    }
  }

  lemma VisibleExact(rows: Rows, g: u64, allowed: Visibility)
    ensures ShowsExactly(VisibleRows(ChannelRows(rows, g), allowed), View(rows), g, allowed)
  {
    var items := ChannelRows(rows, g);
    assert forall i | 0 <= i < |items| :: items[i].0 in WithPrefix(rows, GuildChanPrefix(g));
    VisibleFromRows(items, g, allowed);
    forall c: u64, v
      ensures (ChanKey(g, c), v) in items <==> Channel(g, c) in View(rows) && View(rows)[Channel(g, c)] == v
    {
      ChannelIsListed(rows, g, c, v);
    }
    ShowsWhatIsStored(items, View(rows), g, allowed, VisibleRows(items, allowed));
  }

  lemma ShowsWhatIsStored(items: seq<Row>, typed: Typed, g: u64, allowed: Visibility, visible: seq<ChannelWithId>)
    requires forall c: u64, v :: (ChanKey(g, c), v) in items <==> Channel(g, c) in typed && typed[Channel(g, c)] == v
    requires DistinctIds(visible)
    requires forall x | x in visible :: (ChanKey(g, x.id), x.channel) in items && allowed(x.id)
    requires forall c: u64, v | (ChanKey(g, c), v) in items && allowed(c) :: ChannelWithId(c, v) in visible
    ensures ShowsExactly(visible, typed, g, allowed)
  {
    forall c: u64 | Channel(g, c) in typed && allowed(c)
      ensures c in IdSet(visible)
    {
      assert (ChanKey(g, c), typed[Channel(g, c)]) in items;
      assert ChannelWithId(c, typed[Channel(g, c)]) in visible;
    }
  }

  /** In a consistent store the visible channels are among the ordered ones. */
  lemma VisibleIsSortable(visible: seq<ChannelWithId>, typed: Typed, g: u64, allowed: Visibility)
    requires ShowsExactly(visible, typed, g, allowed) && Consistent(typed)
    ensures Sortable(visible, Order(typed, g))
  {
    assert OrderExact(typed, g);
  }

  /** No channel the user may see is ordered after one that is hidden. */
  ghost predicate SeesLeadingChannels(typed: Typed, g: u64, allowed: Visibility) {
    forall i, j | 0 <= i < j < |Order(typed, g)| :: allowed(Order(typed, g)[j]) ==> allowed(Order(typed, g)[i])
  }

  function LeadingAllowed(order: seq<u64>, allowed: Visibility): (n: nat)
    ensures n <= |order|
    ensures forall i | 0 <= i < n :: allowed(order[i])
    ensures n < |order| ==> !allowed(order[n])
  {
    if |order| == 0 || !allowed(order[0]) then 0 else 1 + LeadingAllowed(order[1..], allowed)
  }

  lemma VisibleIffAllowed(visible: seq<ChannelWithId>, typed: Typed, g: u64, allowed: Visibility, i: nat)
    requires ShowsExactly(visible, typed, g, allowed) && Consistent(typed) && i < |Order(typed, g)|
    ensures Order(typed, g)[i] in IdSet(visible) <==> allowed(Order(typed, g)[i])
  {
    assert OrderExact(typed, g);
    assert Order(typed, g)[i] in Order(typed, g);
  }

  /** For a consistent store, the listing works exactly when the hidden channels come last in the ordering. */
  lemma SwapInBoundsIff(visible: seq<ChannelWithId>, typed: Typed, g: u64, allowed: Visibility)
    requires ShowsExactly(visible, typed, g, allowed) && Consistent(typed)
    ensures !SwapOutOfBounds(visible, Order(typed, g)) <==> SeesLeadingChannels(typed, g, allowed)
  {
    var order := Order(typed, g);
    VisibleIsSortable(visible, typed, g, allowed);
    forall i | 0 <= i < |order|
      ensures order[i] in IdSet(visible) <==> allowed(order[i])
    {
      VisibleIffAllowed(visible, typed, g, allowed, i);
    }
    if !SwapOutOfBounds(visible, order) {
      InBoundsIsLeading(visible, order);
    }
    if SeesLeadingChannels(typed, g, allowed) {
      LeadingCount(visible, order, LeadingAllowed(order, allowed));
    }
  }

  lemma InBoundsIsLeading(visible: seq<ChannelWithId>, order: seq<u64>)
    requires Sortable(visible, order) && !SwapOutOfBounds(visible, order)
    ensures forall i | 0 <= i < |order| :: order[i] in IdSet(visible) <==> i < |visible|
  {
    SwapStaysInBoundsIff(visible, order);
    forall i | 0 <= i < |order|
      ensures order[i] in IdSet(visible) <==> i < |visible|
    {
      if i < |visible| {
        assert order[..|visible|][i] in Elements(order[..|visible|]);
      }
    }
  }

  lemma LeadingCount(visible: seq<ChannelWithId>, order: seq<u64>, m: nat)
    requires Sortable(visible, order) && m <= |order|
    requires forall i | 0 <= i < |order| :: order[i] in IdSet(visible) <==> i < m
    ensures |visible| == m && !SwapOutOfBounds(visible, order)
  {
    forall x
      ensures x in IdSet(visible) <==> x in Elements(order[..m])
    {
      if x in IdSet(visible) {
        var i :| 0 <= i < |order| && order[i] == x;
        assert order[..m][i] == x;
      }
    }
    assert IdSet(visible) == Elements(order[..m]);
    DistinctCount(order[..m]);
    DistinctIdsCount(visible);
  }

  /** Some channel row's check fails for another reason than a missing permission. */
  ghost predicate CheckFails(items: seq<Row>, check: Checker) {
    exists i | 0 <= i < |items| :: |items[i].0| == 17 && check(ReadId(items[i].0[9..])) == Failed
  }

  /** That is: of some channel of the guild. */
  lemma ChecksFailIff(rows: Rows, g: u64, check: Checker)
    ensures CheckFails(ChannelRows(rows, g), check) <==> exists c: u64 | Channel(g, c) in View(rows) :: check(c) == Failed
  {
    hide View;
    var items := ChannelRows(rows, g);
    assert forall i | 0 <= i < |items| :: items[i].0 in WithPrefix(rows, GuildChanPrefix(g));
    if i :| 0 <= i < |items| && |items[i].0| == 17 && check(ReadId(items[i].0[9..])) == Failed {
      var (key, value) := items[i];
      var c := ReadId(key[9..]);
      LastRow([items[i]], g);
      assert key == ChanKey(g, c) && (key, value) in items;
      ChannelIsListed(rows, g, c, value);
    }
    if c: u64 :| Channel(g, c) in View(rows) && check(c) == Failed {
      ChannelIsListed(rows, g, c, View(rows)[Channel(g, c)]);
      var i :| 0 <= i < |items| && items[i] == (ChanKey(g, c), View(rows)[Channel(g, c)]);
      assert ChanKey(g, c)[9..] == Id(c);
    }
  }

  method CollectVisible(items: seq<Row>, check: Checker) returns (visible: Option<seq<ChannelWithId>>)
    ensures visible.None? <==> CheckFails(items, check)
    ensures visible.Some? ==> visible.value == VisibleRows(items, ShownBy(check))
  {
    var kept: seq<ChannelWithId> := [];
    for i := 0 to |items|
      invariant kept == VisibleRows(items[..i], ShownBy(check))
      invariant !CheckFails(items[..i], check)
    {
      assert items[..i + 1][..i] == items[..i];
      var (key, value) := items[i];
      if |key| == 17 {
        var c := ReadId(key[9..]);
        match check(c) {
          case Shown => kept := kept + [ChannelWithId(c, value)];
          case Hidden =>
          case Failed => return None;
        }
      }
    }
    assert items[..|items|] == items;
    visible := Some(kept);
  }

  datatype Listed = Panicked | CheckError | Channels(channels: seq<ChannelWithId>)

  /**
   * `get_guild_channels_logic` on any store. `Panicked` is the out-of-bounds
   * panic of the swap. On a consistent store the user otherwise gets all
   * visible channels, in the stored order.
   */
  method GetGuildChannels(tree: Tree, g: u64, check: Checker) returns (r: Listed)
    ensures r.CheckError? <==> exists c: u64 | Channel(g, c) in View(tree.rows) :: check(c) == Failed
    ensures var typed, visible := View(tree.rows), VisibleRows(ChannelRows(tree.rows, g), ShownBy(check));
            !r.CheckError? ==>
              && (r.Panicked? <==> SwapOutOfBounds(visible, Order(typed, g)))
              && (r.Channels? ==> multiset(r.channels) == multiset(visible))
    ensures Consistent(View(tree.rows)) && !r.CheckError? ==>
              (r.Channels? <==> SeesLeadingChannels(View(tree.rows), g, ShownBy(check)))
    ensures Consistent(View(tree.rows)) && r.Channels? ==>
              var typed := View(tree.rows);
              && ShowsExactly(r.channels, typed, g, ShownBy(check))
              && |r.channels| <= |Order(typed, g)|
              && forall i | 0 <= i < |r.channels| :: r.channels[i].id == Order(typed, g)[i]
  {
    ghost var typed, allowed := View(tree.rows), ShownBy(check);
    var items := tree.ScanPrefix(GuildChanPrefix(g));
    var collected := CollectVisible(items, check);
    ChecksFailIff(tree.rows, g, check);
    if collected.None? {
      return CheckError;
    }
    var visible := collected.value;
    VisibleExact(tree.rows, g, allowed);
    if Consistent(typed) {
      SwapInBoundsIff(visible, typed, g, allowed);
      VisibleIsSortable(visible, typed, g, allowed);
    }
    if visible == [] {
      assert !SwapOutOfBounds(visible, Order(typed, g));
      return Channels([]);
    }
    var ordering := ReadOrdering(tree, g);
    var sorted := SortVisible(visible, ordering);
    if sorted.None? {
      return Panicked;
    }
    r := Channels(sorted.value);
    if Consistent(typed) {
      SortedShowsExactly(visible, sorted.value, typed, g, allowed);
    }
  }

  method ReadOrdering(tree: Tree, g: u64) returns (ordering: seq<u64>)
    ensures ordering == Order(View(tree.rows), g)
  {
    ViewLookup(tree.rows, ChannelOrder(g));
    var raw := tree.Get(Encode(ChannelOrder(g)));
    ordering := if raw.Some? then DecodeIds(raw.value) else [];
  }

  method SortVisible(visible: seq<ChannelWithId>, ordering: seq<u64>) returns (r: Option<seq<ChannelWithId>>)
    ensures r.None? <==> SwapOutOfBounds(visible, ordering)
    ensures r.Some? ==> multiset(r.value) == multiset(visible)
    ensures r.Some? && Sortable(visible, ordering) ==>
              |r.value| <= |ordering| && forall i | 0 <= i < |r.value| :: r.value[i].id == ordering[i]
  {
    var channels := new ChannelWithId[|visible|](i requires 0 <= i < |visible| => visible[i]);
    assert channels[..] == visible;
    var panicked := SortBySwaps(channels, ordering);
    r := if panicked then None else Some(channels[..]);
  }

  lemma SortedShowsExactly(visible: seq<ChannelWithId>, sorted: seq<ChannelWithId>, typed: Typed, g: u64, allowed: Visibility)
    requires ShowsExactly(visible, typed, g, allowed) && Consistent(typed)
    requires multiset(sorted) == multiset(visible)
    requires |sorted| <= |Order(typed, g)| && forall i | 0 <= i < |sorted| :: sorted[i].id == Order(typed, g)[i]
    ensures ShowsExactly(sorted, typed, g, allowed)
  {
    SameIdSet(sorted, visible);
    assert OrderExact(typed, g);
    forall x | x in sorted
      ensures x in visible
    {
      assert x in multiset(sorted);
    }
  }

  // ---- what an accepted reorder can do to the listing ----

  lemma {:induction false} ElementsCount(list: seq<u64>)
    ensures |Elements(list)| <= |list|
    ensures |Elements(list)| == |list| <==> Distinct(list)
  {
    if |list| > 0 {
      var tail := list[1..];
      ElementsCount(tail);
      assert Elements(list) == {list[0]} + Elements(tail);
      if list[0] in tail {
        var j :| 0 <= j < |tail| && tail[j] == list[0];
        assert list[0] == list[j + 1];
        assert Elements(list) == Elements(tail);
      } else {
        assert Distinct(tail) ==> Distinct(list);
      }
    }
  }

  /** For whoever sees every channel, the listing after an accepted reorder panics exactly when the request named a channel twice. */
  lemma ReorderPanicsIff(typed: Typed, g: u64, ids: seq<u64>, visible: seq<ChannelWithId>, allowed: Visibility)
    requires Accepted(typed, ReorderChannels(g, ids)) && forall c: u64 :: allowed(c)
    requires ShowsExactly(visible, Performed(typed, ReorderChannels(g, ids)), g, allowed)
    ensures SwapOutOfBounds(visible, Order(Performed(typed, ReorderChannels(g, ids)), g)) <==> !Distinct(ids)
  {
    var after := Performed(typed, ReorderChannels(g, ids));
    IdsRoundTrip(ids);
    assert Order(after, g) == ids;
    assert forall c: u64 :: Channel(g, c) in after <==> Channel(g, c) in typed;
    assert IdSet(visible) == Elements(ids);
    DistinctIdsCount(visible);
    ElementsCount(ids);
    if |visible| < |ids| {
      assert ids[|visible|] in IdSet(visible);
    }
  }

  // ---- such stores and requests exist ----

  /** The store after channel 5 of guild 1 was created. */
  ghost function OneChannel(): Typed {
    map[Channel(1, 5) := [], NextId(1, 5) := Id(1), ChannelOrder(1) := EncodeIds([5])]
  }

  ghost function TwoChannels(): Typed {
    OneChannel()[Channel(1, 6) := []][NextId(1, 6) := Id(1)][ChannelOrder(1) := EncodeIds([5, 6])]
  }

  lemma TwoChannelsReached()
    ensures Reaches(map[], [Op.CreateChannel(1, 5, [], None)], OneChannel())
    ensures Reaches(map[], [Op.CreateChannel(1, 5, [], None), Op.CreateChannel(1, 6, [], None)], TwoChannels())
  {
    var first, second := Op.CreateChannel(1, 5, [], None), Op.CreateChannel(1, 6, [], None);
    var start: Typed := map[];
    assert Order(start, 1) == [];
    assert Performed(start, first) == OneChannel();
    IdsRoundTrip([5]);
    assert Order(OneChannel(), 1) == [5];
    assert [5] + [6] == [5, 6];
    assert Performed(OneChannel(), second) == TwoChannels();
    assert Reaches(TwoChannels(), [], TwoChannels()) && Reaches(OneChannel(), [], OneChannel());
    assert [first, second][1..] == [second] && [second][1..] == [] && [first][1..] == [];
    assert Reaches(OneChannel(), [second], TwoChannels());
  }

  /** Two channels, the first one hidden: the user who sees only the second cannot list the guild. */
  lemma HiddenFirstPanics()
    ensures Reaches(map[], [Op.CreateChannel(1, 5, [], None), Op.CreateChannel(1, 6, [], None)], TwoChannels())
    ensures ShowsExactly([ChannelWithId(6, [])], TwoChannels(), 1, c => c == 6)
    ensures SwapOutOfBounds([ChannelWithId(6, [])], Order(TwoChannels(), 1))
  {
    TwoChannelsReached();
    IdsRoundTrip([5, 6]);
    var order, visible := Order(TwoChannels(), 1), [ChannelWithId(6, [])];
    assert order == [5, 6];
    assert visible[0].id in IdSet(visible);
    assert |visible| <= 1 < |order| && order[1] in IdSet(visible);
  }

  lemma DuplicateReorderAccepted()
    ensures Consistent(OneChannel())
    ensures Accepted(OneChannel(), ReorderChannels(1, [5, 5]))
  {
    TwoChannelsReached();
    EmptyStoreConsistent();
    RunsStayConsistent(map[], [Op.CreateChannel(1, 5, [], None)], OneChannel());
  }

  lemma OnlyChannelShown(typed: Typed)
    requires forall c: u64 :: Channel(1, c) in typed <==> c == 5
    requires typed[Channel(1, 5)] == []
    ensures ShowsExactly([ChannelWithId(5, [])], typed, 1, c => true)
  {
    var visible := [ChannelWithId(5, [])];
    assert visible[0].id in IdSet(visible);
  }

  /** Naming the only channel twice is accepted, spoils the ordering and makes the next listing panic. */
  lemma DuplicateReorderPanics()
    ensures Reaches(map[], [Op.CreateChannel(1, 5, [], None)], OneChannel())
    ensures Accepted(OneChannel(), ReorderChannels(1, [5, 5]))
    ensures var after := Performed(OneChannel(), ReorderChannels(1, [5, 5]));
            && !Consistent(after)
            && ShowsExactly([ChannelWithId(5, [])], after, 1, c => true)
            && SwapOutOfBounds([ChannelWithId(5, [])], Order(after, 1))
  {
    TwoChannelsReached();
    DuplicateReorderAccepted();
    var ids: seq<u64> := [5, 5];
    assert ids[0] == ids[1];
    ReorderKeepsIff(OneChannel(), ReorderChannels(1, ids));
    OnlyChannelShown(Performed(OneChannel(), ReorderChannels(1, ids)));
    ReorderPanicsIff(OneChannel(), 1, ids, [ChannelWithId(5, [])], c => true);
  }
}
