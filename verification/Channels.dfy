/**
 * Channels of a guild, their stored ordering and their message counters
 * (`src/impls/chat/mod.rs` and the handlers in `src/impls/chat/channels`).
 *
 * `Step` is one request on the typed store. `Consistent` is what every reader
 * relies on: the ordering row lists exactly the channels, every channel has a
 * next-message-id row, and stored message ids lie below it.
 */
module Channels {
  import opened Wrappers
  import opened Bytes
  import opened ChatKeys
  import opened ChatStore
  import opened Ordering

  // ---- reading the typed store ----

  function ListAt(typed: Typed, k: ChatKey): seq<u64> {
    if k in typed then DecodeIds(typed[k]) else []
  }

  function Order(typed: Typed, g: u64): seq<u64> {
    ListAt(typed, ChannelOrder(g))
  }

  predicate HasCounter(typed: Typed, g: u64, c: u64) {
    NextId(g, c) in typed && |typed[NextId(g, c)]| == 8
  }

  function Counter(typed: Typed, g: u64, c: u64): u64
    requires HasCounter(typed, g, c)
  {
    ReadId(typed[NextId(g, c)])
  }

  // ---- the invariant ----

  /** The ordering row is a duplicate-free list of exactly the guild's channels. */
  ghost predicate OrderExact(typed: Typed, g: u64) {
    && Distinct(Order(typed, g))
    && 0 !in Order(typed, g)
    && forall c: u64 :: c in Order(typed, g) <==> Channel(g, c) in typed
  }

  ghost predicate CountersPresent(typed: Typed) {
    forall g: u64, c: u64 | Channel(g, c) in typed :: HasCounter(typed, g, c) && 1 <= Counter(typed, g, c)
  }

  ghost predicate MessagesCounted(typed: Typed) {
    forall g: u64, c: u64, m: u64 | Message(g, c, m) in typed ::
      Channel(g, c) in typed && HasCounter(typed, g, c) && 1 <= m < Counter(typed, g, c)
  }

  ghost predicate Consistent(typed: Typed) {
    && (forall g: u64 :: OrderExact(typed, g))
    && CountersPresent(typed)
    && MessagesCounted(typed)
  }

  // ---- requests ----

  datatype Op =
    | CreateChannel(g: u64, c: u64, channel: bytes, position: Option<Position>) // c is the drawn id
    | EditChannel(g: u64, c: u64, channel: bytes)
    | DeleteChannel(g: u64, c: u64)
    | MoveChannel(g: u64, c: u64, to: Position)
    | ReorderChannels(g: u64, ids: seq<u64>)
    | SendMessage(g: u64, c: u64, message: bytes)
    | EditMessage(g: u64, c: u64, m: u64, message: bytes)
    | DeleteMessage(g: u64, c: u64, m: u64)
    | DeleteGuild(g: u64)
    | WriteOther(k: ChatKey, value: Option<bytes>)

  /** Row families no channel or message request owns. */
  predicate Unrelated(k: ChatKey) {
    !k.Channel? && !k.ChannelOrder? && !k.NextId? && !k.Message?
  }

  /** The checks a request passes before it writes. */
  ghost predicate Accepted(typed: Typed, op: Op) {
    match op
    case CreateChannel(g, c, _, position) =>
      && c != 0
      && Channel(g, c) !in typed
      && (position.Some? ==> position.value.item != 0 && Channel(g, position.value.item) in typed)
    case EditChannel(g, c, _) => Channel(g, c) in typed
    case DeleteChannel(g, c) => Channel(g, c) in typed
    case MoveChannel(g, c, _) => Channel(g, c) in typed
    case ReorderChannels(g, ids) => forall c: u64 :: c in ids <==> Channel(g, c) in typed
    case SendMessage(g, c, _) => Channel(g, c) in typed
    case EditMessage(g, c, m, _) => Channel(g, c) in typed && Message(g, c, m) in typed
    case DeleteMessage(g, c, m) => Channel(g, c) in typed && Message(g, c, m) in typed
    case DeleteGuild(_) => true
    case WriteOther(k, _) => Unrelated(k)
  }

  /**
   * Where the source would panic or run into undefined behaviour: the
   * unchecked unwrap of the placeholder, and the missing or malformed counter.
   */
  predicate Crashes(typed: Typed, op: Op) {
    match op
    case MoveChannel(g, c, to) => to.item in Order(typed, g) && c == 0 && 0 !in Order(typed, g)
    case SendMessage(g, c, _) => !HasCounter(typed, g, c)
    case _ => false
  }

  function Rewritten(typed: Typed, g: u64, list: seq<u64>): Typed {
    typed[ChannelOrder(g) := EncodeIds(list)]
  }

  /** `id + 1` in release arithmetic. */
  function NextCounter(id: u64): u64 {
    (id + 1) % TWO_64
  }

  ghost function Performed(typed: Typed, op: Op): Typed
    requires Accepted(typed, op) && !Crashes(typed, op)
  {
    match op
    case CreateChannel(g, c, channel, position) =>
      var created := typed[Channel(g, c) := channel][NextId(g, c) := Id(1)];
      Rewritten(created, g, Reordered(Order(typed, g), c, position))
    case EditChannel(g, c, channel) => typed[Channel(g, c) := channel]
    case DeleteChannel(g, c) => Rewritten(DropChannel(typed, g, c), g, RemovedFirst(Order(typed, g), c))
    case MoveChannel(g, c, to) => Rewritten(typed, g, Reordered(Order(typed, g), c, Some(to)))
    case ReorderChannels(g, ids) => Rewritten(typed, g, ids)
    case SendMessage(g, c, message) =>
      var id := Counter(typed, g, c);
      typed[NextId(g, c) := Id(NextCounter(id))][Message(g, c, id) := message]
    case EditMessage(g, c, m, message) => typed[Message(g, c, m) := message]
    case DeleteMessage(g, c, m) => typed - {Message(g, c, m)}
    case DeleteGuild(g) => DropRoot(typed, g)
    case WriteOther(k, value) => if value.Some? then typed[k := value.value] else typed - {k}
  }

  /** One request: a refused request leaves the store alone, a crash has no result. */
  ghost function Step(typed: Typed, op: Op): Option<Typed> {
    if !Accepted(typed, op) then Some(typed)
    else if Crashes(typed, op) then None
    else Some(Performed(typed, op))
  }

  // ---- one step ----

  lemma SameOrderRow(typed: Typed, after: Typed, g: u64)
    requires OrderExact(typed, g)
    requires ChannelOrder(g) in typed <==> ChannelOrder(g) in after
    requires ChannelOrder(g) in typed ==> typed[ChannelOrder(g)] == after[ChannelOrder(g)]
    requires forall c: u64 :: Channel(g, c) in typed <==> Channel(g, c) in after
    ensures OrderExact(after, g)
  {
  }

  /** Writing a guild's ordering row is right when the list is exactly its channels. */
  lemma NewOrderRow(typed: Typed, g: u64, list: seq<u64>)
    requires CountersPresent(typed) && MessagesCounted(typed)
    requires forall h: u64 | h != g :: OrderExact(typed, h)
    requires Distinct(list) && 0 !in list
    requires forall c: u64 :: c in list <==> Channel(g, c) in typed
    ensures Consistent(Rewritten(typed, g, list))
  {
    var after := Rewritten(typed, g, list);
    IdsRoundTrip(list);
    forall h: u64
      ensures OrderExact(after, h)
    {
      if h != g {
        SameOrderRow(typed, after, h);
      }
    }
  }

  lemma CreateKeeps(typed: Typed, op: Op)
    requires Consistent(typed) && Accepted(typed, op) && op.CreateChannel?
    ensures Consistent(Performed(typed, op))
  {
    var CreateChannel(g, c, channel, position) := op;
    assert OrderExact(typed, g);
    CreatedOrder(Order(typed, g), c, position);
    var created := typed[Channel(g, c) := channel][NextId(g, c) := Id(1)];
    CreatedRows(typed, created, op);
    NewOrderRow(created, g, Reordered(Order(typed, g), c, position));
  }

  lemma CreatedOrder(list: seq<u64>, c: u64, position: Option<Position>)
    requires Distinct(list) && 0 !in list && c != 0 && c !in list
    requires position.Some? ==> position.value.item in list
    ensures var added := Reordered(list, c, position);
            Distinct(added) && 0 !in added && forall x :: x in added <==> x in list || x == c
  {
    ReorderedKeepsDistinct(list, c, position);
    if position.None? {
      assert forall x :: x in list + [c] <==> x in list || x == c;
    }
  }

  lemma CreatedRows(typed: Typed, created: Typed, op: Op)
    requires Consistent(typed) && Accepted(typed, op) && op.CreateChannel?
    requires created == typed[Channel(op.g, op.c) := op.channel][NextId(op.g, op.c) := Id(1)]
    ensures CountersPresent(created) && MessagesCounted(created)
    ensures forall h: u64 | h != op.g :: OrderExact(created, h)
  {
    assert ReadId(Id(1)) == 1;
    assert Channel(op.g, op.c) !in typed;
    forall h: u64 | h != op.g
      ensures OrderExact(created, h)
    {
      assert OrderExact(typed, h);
      SameOrderRow(typed, created, h);
    }
  }

  lemma DeleteChannelKeeps(typed: Typed, op: Op)
    requires Consistent(typed) && Accepted(typed, op) && op.DeleteChannel?
    ensures Consistent(Performed(typed, op))
  {
    var DeleteChannel(g, c) := op;
    var dropped := DropChannel(typed, g, c);
    var list := Order(typed, g);
    assert OrderExact(typed, g);
    RemovedFirstIsWithout(list, c);
    forall x: u64
      ensures x in Without(list, c) <==> Channel(g, x) in dropped
    {
      if x != c {
        WithoutMember(list, c, x);
      }
    }
    WithoutMember(list, c, 0);
    forall h: u64 | h != g
      ensures OrderExact(dropped, h)
    {
      assert OrderExact(typed, h);
      SameOrderRow(typed, dropped, h);
    }
    NewOrderRow(dropped, g, Without(list, c));
  }

  lemma MoveKeeps(typed: Typed, op: Op)
    requires Consistent(typed) && Accepted(typed, op) && !Crashes(typed, op) && op.MoveChannel?
    ensures Consistent(Performed(typed, op))
  {
    var MoveChannel(g, c, to) := op;
    assert OrderExact(typed, g);
    ReorderedKeepsDistinct(Order(typed, g), c, Some(to));
    NewOrderRow(typed, g, Reordered(Order(typed, g), c, Some(to)));
  }

  /** Reordering everything is safe exactly when the request names no channel twice. */
  lemma ReorderKeepsIff(typed: Typed, op: Op)
    requires Consistent(typed) && Accepted(typed, op) && op.ReorderChannels?
    ensures Consistent(Performed(typed, op)) <==> Distinct(op.ids)
  {
    var ReorderChannels(g, ids) := op;
    var after := Performed(typed, op);
    IdsRoundTrip(ids);
    assert Order(after, g) == ids;
    assert OrderExact(typed, g);
    if Distinct(ids) {
      NewOrderRow(typed, g, ids);
    } else {
      assert !OrderExact(after, g);
    }
  }

  /** Rows other than the ordering row and the channels do not matter to an exact ordering. */
  lemma OrderRowsKept(typed: Typed, after: Typed)
    requires forall h: u64 :: OrderExact(typed, h)
    requires forall k: ChatKey | k.Channel? || k.ChannelOrder? :: k in after <==> k in typed
    requires forall k | k in typed && k.ChannelOrder? :: after[k] == typed[k]
    ensures forall h: u64 :: OrderExact(after, h)
  {
    forall h: u64
      ensures OrderExact(after, h)
    {
      assert OrderExact(typed, h);
      SameOrderRow(typed, after, h);
    }
  }

  /** The rows a sent message leaves behind. */
  lemma SentRows(typed: Typed, g: u64, c: u64, message: bytes, after: Typed)
    requires CountersPresent(typed) && MessagesCounted(typed) && Channel(g, c) in typed
    requires var id := Counter(typed, g, c);
             after == typed[NextId(g, c) := Id(NextCounter(id))][Message(g, c, id) := message]
    ensures HasCounter(after, g, c) && Counter(after, g, c) == NextCounter(Counter(typed, g, c))
    ensures CountersPresent(after) && MessagesCounted(after) <==> Counter(typed, g, c) + 1 < TWO_64
  {
    var id := Counter(typed, g, c);
    assert Counter(after, g, c) == NextCounter(id);
    if id + 1 < TWO_64 {
      assert forall h: u64, d: u64 | Channel(h, d) in after && (h, d) != (g, c) :: after[NextId(h, d)] == typed[NextId(h, d)];
    } else {
      assert Channel(g, c) in after && Counter(after, g, c) == 0;
    }
  }

  /** Sending is safe exactly when the counter does not wrap. */
  lemma SendKeepsIff(typed: Typed, op: Op)
    requires Consistent(typed) && Accepted(typed, op) && !Crashes(typed, op) && op.SendMessage?
    ensures Consistent(Performed(typed, op)) <==> Counter(typed, op.g, op.c) + 1 < TWO_64
  {
    SentRows(typed, op.g, op.c, op.message, Performed(typed, op));
    OrderRowsKept(typed, Performed(typed, op));
  }

  lemma DeleteGuildKeeps(typed: Typed, g: u64)
    requires Consistent(typed)
    ensures Consistent(DropRoot(typed, g))
  {
    DroppedCounters(typed, g);
    forall h: u64
      ensures OrderExact(DropRoot(typed, g), h)
    {
      DroppedOrder(typed, g, h);
    }
  }

  lemma DroppedCounters(typed: Typed, g: u64)
    requires CountersPresent(typed) && MessagesCounted(typed)
    ensures CountersPresent(DropRoot(typed, g)) && MessagesCounted(DropRoot(typed, g))
  {
    var after := DropRoot(typed, g);
    forall h: u64, c: u64 | Channel(h, c) in after
      ensures HasCounter(after, h, c) && after[NextId(h, c)] == typed[NextId(h, c)] && 1 <= Counter(after, h, c)
    {
      assert Channel(h, c) in typed && h != g;
    }
    forall h: u64, c: u64, m: u64 | Message(h, c, m) in after
      ensures Channel(h, c) in after && HasCounter(after, h, c) && 1 <= m < Counter(after, h, c)
    {
      assert Message(h, c, m) in typed && h != g;
    }
  }

  lemma DroppedOrder(typed: Typed, g: u64, h: u64)
    requires OrderExact(typed, h)
    ensures OrderExact(DropRoot(typed, g), h)
  {
    var after := DropRoot(typed, g);
    if g != h {
      SameOrderRow(typed, after, h);
    } else {
      assert Order(after, h) == [];
    }
  }

  /** Writes that leave the ordering and counter rows alone and add no message or channel. */
  lemma OtherKeeps(typed: Typed, after: Typed)
    requires Consistent(typed)
    requires forall k: ChatKey | k.Channel? || k.ChannelOrder? || k.NextId? :: k in after <==> k in typed
    requires forall k | k in typed && (k.ChannelOrder? || k.NextId?) :: after[k] == typed[k]
    requires forall k | k in after && k.Message? :: k in typed
    ensures Consistent(after)
  {
    forall h: u64
      ensures OrderExact(after, h)
    {
      assert OrderExact(typed, h);
      SameOrderRow(typed, after, h);
    }
    forall g: u64, c: u64, m: u64 | Message(g, c, m) in after
      ensures Channel(g, c) in after && HasCounter(after, g, c) && 1 <= m < Counter(after, g, c)
    {
      assert Message(g, c, m) in typed;
      assert NextId(g, c) in typed && after[NextId(g, c)] == typed[NextId(g, c)];
    }
    forall g: u64, c: u64 | Channel(g, c) in after
      ensures HasCounter(after, g, c) && 1 <= Counter(after, g, c)
    {
      assert NextId(g, c) in typed && after[NextId(g, c)] == typed[NextId(g, c)];
    }
  }

  /** The two requests whose own arguments can spoil the store. */
  ghost predicate WellFormed(typed: Typed, op: Op) {
    match op
    case ReorderChannels(_, ids) => Distinct(ids)
    case SendMessage(g, c, _) => HasCounter(typed, g, c) ==> Counter(typed, g, c) + 1 < TWO_64
    case _ => true
  }

  /** Every stored channel has a usable id and can number a message; all that a request needs not to crash. */
  ghost predicate Serviceable(typed: Typed) {
    forall g: u64, c: u64 | Channel(g, c) in typed :: c != 0 && HasCounter(typed, g, c)
  }

  lemma ConsistentIsServiceable(typed: Typed)
    requires Consistent(typed)
    ensures Serviceable(typed)
  {
    forall g: u64, c: u64 | Channel(g, c) in typed
      ensures c != 0
    {
      assert OrderExact(typed, g);
    }
  }

  /** No request crashes on a serviceable store. */
  lemma StepNeverCrashes(typed: Typed, op: Op)
    requires Serviceable(typed)
    ensures Step(typed, op).Some?
  {
  }

  /** Every request leaves a serviceable store serviceable, whatever it does to the ordering. */
  lemma StepKeepsServiceable(typed: Typed, op: Op)
    requires Serviceable(typed)
    ensures Step(typed, op).Some? && Serviceable(Step(typed, op).value)
  {
    StepNeverCrashes(typed, op);
    var after := Step(typed, op).value;
    forall g: u64, c: u64 | Channel(g, c) in after
      ensures c != 0 && HasCounter(after, g, c)
    {
      assert NextId(g, c) in after && |after[NextId(g, c)]| == 8;
    }
  }

  /** A request keeps the store consistent exactly when it is refused or well formed. */
  lemma StepKeepsIff(typed: Typed, op: Op)
    requires Consistent(typed)
    ensures Step(typed, op).Some?
    ensures Consistent(Step(typed, op).value) <==> !Accepted(typed, op) || WellFormed(typed, op)
  {
    hide Consistent, Serviceable;
    ConsistentIsServiceable(typed);
    StepNeverCrashes(typed, op);
    if Accepted(typed, op) {
      match op
      case CreateChannel(_, _, _, _) => CreateKeeps(typed, op);
      case DeleteChannel(_, _) => DeleteChannelKeeps(typed, op);
      case MoveChannel(_, _, _) => MoveKeeps(typed, op);
      case ReorderChannels(_, _) => ReorderKeepsIff(typed, op);
      case SendMessage(_, _, _) => SendKeepsIff(typed, op);
      case DeleteGuild(g) => DeleteGuildKeeps(typed, g);
      case _ => OtherKeeps(typed, Performed(typed, op));
    }
  }

  // ---- what each request changes ----

  /** The rows a request may write or remove. */
  predicate Touches(op: Op, k: ChatKey) {
    match op
    case CreateChannel(g, c, _, _) => k == Channel(g, c) || k == NextId(g, c) || k == ChannelOrder(g)
    case EditChannel(g, c, _) => k == Channel(g, c)
    case DeleteChannel(g, c) => k.InChannel(g, c) || k == ChannelOrder(g)
    case MoveChannel(g, _, _) => k == ChannelOrder(g)
    case ReorderChannels(g, _) => k == ChannelOrder(g)
    case SendMessage(g, c, _) => k == NextId(g, c) || (k.Message? && k.InChannel(g, c))
    case EditMessage(g, c, m, _) => k == Message(g, c, m)
    case DeleteMessage(g, c, m) => k == Message(g, c, m)
    case DeleteGuild(g) => k.g == g
    case WriteOther(other, _) => k == other
  }

  lemma OtherRowsKept(typed: Typed, op: Op, k: ChatKey)
    requires Step(typed, op).Some? && !Touches(op, k)
    ensures var after := Step(typed, op).value;
            (k in after <==> k in typed) && (k in typed ==> after[k] == typed[k])
  {
  }

  /** A moved channel ends up on the asked side of the other one, and the rest keeps its order. */
  lemma MovePlaces(typed: Typed, g: u64, c: u64, to: Position)
    requires Consistent(typed) && Channel(g, c) in typed
    ensures Step(typed, Op.MoveChannel(g, c, to)).Some?
    ensures var after := Step(typed, Op.MoveChannel(g, c, to)).value;
            if Channel(g, to.item) in typed && to.item != c then
              && Adjacent(Order(after, g), c, to)
              && Without(Order(after, g), c) == Without(Order(typed, g), c)
            else
              Order(after, g) == Order(typed, g)
  {
    hide Reordered, Adjacent, Without, DecodeIds;
    var list := Order(typed, g);
    assert OrderExact(typed, g);
    IdsRoundTrip(Reordered(list, c, Some(to)));
    if to.item == c {
      MoveNextToItself(list, c, to.side);
    } else if to.item in list {
      MoveCorrect(list, c, to);
    } else {
      ReorderedKeepsDistinct(list, c, Some(to));
    }
  }

  /** A new channel is stored as given, numbers its messages from 1, and is listed where asked, or else last. */
  lemma CreatePlaces(typed: Typed, op: Op)
    requires Consistent(typed) && op.CreateChannel? && Accepted(typed, op)
    ensures var CreateChannel(g, c, channel, position) := op;
            var after := Performed(typed, op);
            && Channel(g, c) in after && after[Channel(g, c)] == channel
            && HasCounter(after, g, c) && Counter(after, g, c) == 1
            && (position.None? ==> Order(after, g) == Order(typed, g) + [c])
            && (position.Some? ==>
                  Adjacent(Order(after, g), c, position.value) && Without(Order(after, g), c) == Order(typed, g))
  {
    hide Reordered, Adjacent, Without, DecodeIds;
    var CreateChannel(g, c, channel, position) := op;
    var list := Order(typed, g);
    assert OrderExact(typed, g);
    assert ReadId(Id(1)) == 1;
    IdsRoundTrip(Reordered(list, c, position));
    if position.Some? {
      MoveCorrect(list, c, position.value);
      WithoutAbsent(list, c);
    } else {
      AppendedLast(list, c);
    }
  }

  /** Take the new channel out again and the order is the old one. */
  lemma CreatedIsLeftOut(typed: Typed, op: Op)
    requires Consistent(typed) && op.CreateChannel? && Accepted(typed, op)
    ensures Without(Order(Performed(typed, op), op.g), op.c) == Order(typed, op.g)
  {
    hide Consistent, Reordered, Adjacent, DecodeIds;
    CreatePlaces(typed, op);
    if op.position.None? {
      assert op.c !in Order(typed, op.g) by {
        NotListedYet(typed, op.g, op.c);
      }
      WithoutConcat(Order(typed, op.g), [op.c], op.c);
      WithoutAbsent(Order(typed, op.g), op.c);
      assert Without([op.c], op.c) == [];
    }
  }

  lemma NotListedYet(typed: Typed, g: u64, c: u64)
    requires Consistent(typed) && Channel(g, c) !in typed
    ensures c !in Order(typed, g)
  {
    assert OrderExact(typed, g);
  }

  lemma AppendedLast(list: seq<u64>, id: u64)
    ensures Reordered(list, id, None) == list + [id]
  {
  }

  /** Nothing of a deleted channel remains, and the others keep their order. */
  lemma DeleteDrops(typed: Typed, g: u64, c: u64)
    requires Consistent(typed) && Channel(g, c) in typed
    ensures Step(typed, Op.DeleteChannel(g, c)).Some?
    ensures var after := Step(typed, Op.DeleteChannel(g, c)).value;
            && (forall k | k in after :: !k.InChannel(g, c))
            && Order(after, g) == Without(Order(typed, g), c)
  {
    hide DecodeIds, RemovedFirst, Without;
    assert OrderExact(typed, g);
    RemovedFirstIsWithout(Order(typed, g), c);
    IdsRoundTrip(RemovedFirst(Order(typed, g), c));
  }

  /** An accepted reorder stores the list it was given. */
  lemma ReorderSets(typed: Typed, g: u64, ids: seq<u64>)
    requires Accepted(typed, ReorderChannels(g, ids))
    ensures Order(Performed(typed, ReorderChannels(g, ids)), g) == ids
  {
    hide DecodeIds;
    IdsRoundTrip(ids);
  }

  /** A sent message is stored as given under the next id, which no stored message has, and the other messages stay. */
  lemma SendStores(typed: Typed, g: u64, c: u64, message: bytes)
    requires Consistent(typed) && Channel(g, c) in typed
    ensures HasCounter(typed, g, c) && Step(typed, Op.SendMessage(g, c, message)).Some?
    ensures var after, id := Step(typed, Op.SendMessage(g, c, message)).value, Counter(typed, g, c);
            && Message(g, c, id) !in typed
            && Message(g, c, id) in after && after[Message(g, c, id)] == message
            && HasCounter(after, g, c) && Counter(after, g, c) == (if id + 1 < TWO_64 then id + 1 else 0)
            && forall m: u64 | m != id ::
                 && (Message(g, c, m) in after <==> Message(g, c, m) in typed)
                 && (Message(g, c, m) in typed ==> after[Message(g, c, m)] == typed[Message(g, c, m)])
  {
    SentRows(typed, g, c, message, Performed(typed, Op.SendMessage(g, c, message)));
  }

  /** Editing and deleting do that to the one row they name, and deleting a guild leaves nothing under its id. */
  lemma RowsWritten(typed: Typed, op: Op)
    requires Accepted(typed, op) && !Crashes(typed, op)
    ensures var after := Performed(typed, op);
            match op
            case EditChannel(g, c, channel) => Channel(g, c) in after && after[Channel(g, c)] == channel
            case EditMessage(g, c, m, message) => Message(g, c, m) in after && after[Message(g, c, m)] == message
            case DeleteMessage(g, c, m) => Message(g, c, m) !in after
            case DeleteGuild(g) => forall k | k in after :: k.g != g
            case WriteOther(k, Some(value)) => k in after && after[k] == value
            case WriteOther(k, None) => k !in after
            case _ => true
  {
  }

  // ---- whole runs ----

  /** `end` is the store after handling well-formed requests one after the other. */
  ghost predicate Reaches(start: Typed, ops: seq<Op>, end: Typed)
    decreases |ops|
  {
    if |ops| == 0 then
      start == end
    else
      && WellFormed(start, ops[0])
      && Step(start, ops[0]).Some?
      && Reaches(Step(start, ops[0]).value, ops[1..], end)
  }

  lemma EmptyStoreConsistent()
    ensures Consistent(map[])
  {
    forall g: u64
      ensures OrderExact(map[], g)
    {
      assert Order(map[], g) == [];
    }
  }

  lemma {:induction false} RunsStayConsistent(start: Typed, ops: seq<Op>, end: Typed)
    requires Consistent(start) && Reaches(start, ops, end)
    ensures Consistent(end)
    decreases |ops|
  {
    if |ops| > 0 {
      StepKeepsIff(start, ops[0]);
      RunsStayConsistent(Step(start, ops[0]).value, ops[1..], end);
    }
  }

  /** In every store reached by well-formed requests the ordering row is exactly the channels. */
  lemma ChannelsOverRuns(ops: seq<Op>, end: Typed, g: u64)
    requires Reaches(map[], ops, end)
    ensures Distinct(Order(end, g))
    ensures forall c: u64 :: c in Order(end, g) <==> Channel(g, c) in end
    ensures forall c: u64 :: Channel(g, c) in end ==> HasCounter(end, g, c)
  {
    EmptyStoreConsistent();
    RunsStayConsistent(map[], ops, end);
    assert OrderExact(end, g);
  }

  /** The store after any requests at all; `None` once one has crashed. */
  ghost function RunAll(start: Typed, ops: seq<Op>): Option<Typed>
    decreases |ops|
  {
    if |ops| == 0 then Some(start)
    else
      match Step(start, ops[0])
      case None => None
      case Some(next) => RunAll(next, ops[1..])
  }

  lemma {:induction false} RunsStayServiceable(start: Typed, ops: seq<Op>)
    requires Serviceable(start)
    ensures RunAll(start, ops).Some? && Serviceable(RunAll(start, ops).value)
    decreases |ops|
  {
    if |ops| > 0 {
      StepKeepsServiceable(start, ops[0]);
      RunsStayServiceable(Step(start, ops[0]).value, ops[1..]);
    }
  }

  /** From an empty store no run of these writing requests crashes, not even one that spoils the ordering on its way. */
  lemma NoRunCrashes(ops: seq<Op>, op: Op)
    ensures RunAll(map[], ops).Some?
    ensures Step(RunAll(map[], ops).value, op).Some?
  {
    RunsStayServiceable(map[], ops);
    StepNeverCrashes(RunAll(map[], ops).value, op);
  }
}
