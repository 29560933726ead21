/**
 * Paging through a channel (`get_channel_messages_logic` in
 * `src/impls/chat/mod.rs`): the window arithmetic, the range scan it turns
 * into, and what a client that pages backwards receives.
 */
module Messages {
  import opened Wrappers
  import opened Bytes
  import opened Store
  import opened ChatKeys
  import opened ChatStore
  import opened Channels

  datatype Direction = Before | After | Around

  type Numbered = (u64, bytes)

  datatype Page = Page(messages: seq<Numbered>, reachedTop: bool, reachedBottom: bool)

  /** `deser_id` panics on a key whose tail is not eight bytes long; a channel without a counter panics too. */
  datatype PageError = BadIdLength | NoNextId

  // ---- the window ----

  function CountOr(direction: Direction, count: Option<u64>): u64 {
    if count.Some? then count.value else if direction.Around? then 12 else 25
  }

  /** The id the window is measured from: one below the cursor, never below 1. */
  function Pivot(cursor: Option<u64>, next: u64): u64 {
    var to := if cursor.Some? then cursor.value else next;
    if to > 1 then to - 1 else 1
  }

  function WindowStart(pivot: u64, count: u64): u64 {
    if pivot > count then pivot - count else 1
  }

  /** `to + count` in release arithmetic, capped by the counter. */
  function WindowEnd(pivot: u64, count: u64, next: u64): u64 {
    var sum := (pivot + count) % TWO_64;
    if sum < next then sum else next
  }

  function Window(direction: Direction, cursor: Option<u64>, count: u64, next: u64): (u64, u64) {
    var pivot := Pivot(cursor, next);
    match direction
    case Before => (WindowStart(pivot, count), pivot)
    case After => (pivot, WindowEnd(pivot, count, next))
    case Around => (WindowStart(pivot, count), WindowEnd(pivot, count, next))
  }

  // ---- the messages of a window, newest first ----

  function MessagesDown(typed: Typed, g: u64, c: u64, from: nat, to: int): seq<Numbered>
    requires to < TWO_64
    decreases 1 + to - from
  {
    if to < from then []
    else (if Message(g, c, to) in typed then [(to, typed[Message(g, c, to)])] else [])
         + MessagesDown(typed, g, c, from, to - 1)
  }

  ghost predicate Descending(messages: seq<Numbered>) {
    forall i, j | 0 <= i < j < |messages| :: messages[i].0 > messages[j].0
  }

  ghost predicate ExactlyStored(typed: Typed, g: u64, c: u64, from: int, to: int, messages: seq<Numbered>) {
    forall m: u64, v :: (m, v) in messages <==>
      from <= m <= to && Message(g, c, m) in typed && typed[Message(g, c, m)] == v
  }

  lemma {:induction false} MessagesDownBounds(typed: Typed, g: u64, c: u64, from: nat, to: int)
    requires to < TWO_64
    ensures |MessagesDown(typed, g, c, from, to)| <= if from <= to then to - from + 1 else 0
    ensures forall i | 0 <= i < |MessagesDown(typed, g, c, from, to)| ::
              from <= MessagesDown(typed, g, c, from, to)[i].0 <= to
    decreases 1 + to - from
  {
    if from <= to {
      MessagesDownBounds(typed, g, c, from, to - 1);
    }
  }

  lemma {:induction false} MessagesDownDescends(typed: Typed, g: u64, c: u64, from: nat, to: int)
    requires to < TWO_64
    ensures Descending(MessagesDown(typed, g, c, from, to))
    decreases 1 + to - from
  {
    if from <= to {
      MessagesDownDescends(typed, g, c, from, to - 1);
      MessagesDownBounds(typed, g, c, from, to - 1);
    }
  }

  /** Exactly the stored messages with an id in the window. */
  lemma {:induction false} MessagesDownExact(typed: Typed, g: u64, c: u64, from: nat, to: int)
    requires to < TWO_64
    ensures ExactlyStored(typed, g, c, from, to, MessagesDown(typed, g, c, from, to))
    decreases 1 + to - from
  {
    if from <= to {
      MessagesDownExact(typed, g, c, from, to - 1);
      var rest := MessagesDown(typed, g, c, from, to - 1);
      if Message(g, c, to) in typed {
        var page := [(to as u64, typed[Message(g, c, to)])] + rest;
        assert forall x :: x in page <==> x == page[0] || x in rest;
      }
    }
  }

  lemma {:induction false} MessagesDownSplit(typed: Typed, g: u64, c: u64, from: nat, mid: int, to: int)
    requires from <= mid + 1 && mid <= to < TWO_64
    ensures MessagesDown(typed, g, c, from, to)
         == MessagesDown(typed, g, c, mid + 1, to) + MessagesDown(typed, g, c, from, mid)
    decreases -mid + to
  {
    if mid < to {
      MessagesDownSplit(typed, g, c, from, mid, to - 1);
    }
  }

  lemma {:induction false} NothingStored(typed: Typed, g: u64, c: u64, from: nat, to: int)
    requires to < TWO_64
    requires forall m: u64 | from <= m <= to :: Message(g, c, m) !in typed
    ensures MessagesDown(typed, g, c, from, to) == []
    decreases 1 + to - from
  {
    if from <= to {
      NothingStored(typed, g, c, from, to - 1);
    }
  }

  // ---- from the byte range to the messages ----

  /** What a byte range between two message keys of a channel contains. */
  lemma RangeCovers(g: u64, c: u64, from: u64, to: u64, k: ChatKey)
    ensures AtMost(MsgKey(g, c, from), Encode(k)) && AtMost(Encode(k), MsgKey(g, c, to))
       <==> k.InChannel(g, c) && ((k.Message? && from <= k.m <= to) || (k.Reaction? && from <= k.m < to))
  {
    var lo, hi, s := MsgKey(g, c, from), MsgKey(g, c, to), Encode(k);
    if AtMost(lo, s) && AtMost(s, hi) {
      PrefixAtMost(MsgPrefix(g, c), lo);
      AtMostTransitive(MsgPrefix(g, c), lo, s);
      PrefixConvex(MsgPrefix(g, c), s, hi);
      MsgPrefixCovers(g, c, k);
    }
    if k.InChannel(g, c) && k.Message? {
      MsgKeysInIdOrder(g, c, from, k.m);
      MsgKeysInIdOrder(g, c, k.m, to);
    } else if k.InChannel(g, c) && k.Reaction? {
      ReactionBetween(g, c, from, to, k);
    }
  }

  /** A reaction key sorts right after its message's key and before the next message. */
  lemma ReactionBetween(g: u64, c: u64, from: u64, to: u64, k: ChatKey)
    requires k.Reaction? && k.InChannel(g, c)
    ensures AtMost(MsgKey(g, c, from), Encode(k)) <==> from <= k.m
    ensures AtMost(Encode(k), MsgKey(g, c, to)) <==> k.m < to
  {
    var own, tail := MsgKey(g, c, k.m), [0] + Id(k.user) + k.image;
    var lo, hi := MsgKey(g, c, from), MsgKey(g, c, to);
    assert Encode(k) == own + tail && lo + [] == lo && hi + [] == hi;
    LessByHead(lo, own, [], tail);
    LessByHead(own, hi, tail, []);
    MsgKeysInIdOrder(g, c, from, k.m);
    MsgKeysInIdOrder(g, c, k.m, to);
    assert !Less(tail, []) && Less([], tail);
    assert |Encode(k)| > |hi| && |Encode(k)| > |lo|;
  }

  /** The rows of the window, as the range scan lists them. */
  function MessageRows(typed: Typed, g: u64, c: u64, from: nat, to: int): seq<Row>
    requires to < TWO_64
    decreases 1 + to - from
  {
    if to < from then []
    else MessageRows(typed, g, c, from, to - 1)
         + (if Message(g, c, to) in typed then [(MsgKey(g, c, to), typed[Message(g, c, to)])] else [])
  }

  ghost predicate RowOf(typed: Typed, g: u64, c: u64, from: int, to: int, row: Row) {
    exists m: u64 | from <= m <= to :: Message(g, c, m) in typed && row == (MsgKey(g, c, m), typed[Message(g, c, m)])
  }

  lemma {:induction false} MessageRowsAscend(typed: Typed, g: u64, c: u64, from: nat, to: int)
    requires to < TWO_64
    ensures Ascending(MessageRows(typed, g, c, from, to))
    ensures forall x | x in MessageRows(typed, g, c, from, to) :: RowOf(typed, g, c, from, to, x)
    ensures forall m: u64 | from <= m <= to && Message(g, c, m) in typed ::
              (MsgKey(g, c, m), typed[Message(g, c, m)]) in MessageRows(typed, g, c, from, to)
    decreases 1 + to - from
  {
    if from <= to {
      MessageRowsAscend(typed, g, c, from, to - 1);
      var items, before := MessageRows(typed, g, c, from, to), MessageRows(typed, g, c, from, to - 1);
      if Message(g, c, to) in typed {
        forall i | 0 <= i < |before|
          ensures Less(before[i].0, MsgKey(g, c, to))
        {
          assert RowOf(typed, g, c, from, to - 1, before[i]);
          var m: u64 :| from <= m <= to - 1 && before[i].0 == MsgKey(g, c, m);
          MsgKeysInIdOrder(g, c, m, to);
        }
      }
      forall m: u64 | from <= m <= to && Message(g, c, m) in typed
        ensures (MsgKey(g, c, m), typed[Message(g, c, m)]) in items
      {
        if m < to {
          assert (MsgKey(g, c, m), typed[Message(g, c, m)]) in before;
        } else {
          assert items[|items| - 1].0 == MsgKey(g, c, m);
        }
      }
    }
  }

  ghost predicate ReactionInside(typed: Typed, g: u64, c: u64, from: u64, to: u64) {
    exists k | k in typed :: k.Reaction? && k.InChannel(g, c) && from <= k.m < to
  }

  function Scanned(rows: Rows, g: u64, c: u64, from: u64, to: u64): Rows {
    Between(rows, MsgKey(g, c, from), MsgKey(g, c, to))
  }

  /** A key in the scanned range that is too long for a message key. */
  ghost predicate OddKeyInside(rows: Rows, g: u64, c: u64, from: u64, to: u64) {
    exists s | s in Scanned(rows, g, c, from, to) :: |s| != 26
  }

  lemma ScannedHasPrefix(rows: Rows, g: u64, c: u64, from: u64, to: u64, s: bytes)
    requires s in Scanned(rows, g, c, from, to)
    ensures MsgPrefix(g, c) <= s
  {
    PrefixAtMost(MsgPrefix(g, c), MsgKey(g, c, from));
    AtMostTransitive(MsgPrefix(g, c), MsgKey(g, c, from), s);
    PrefixConvex(MsgPrefix(g, c), s, MsgKey(g, c, to));
  }

  lemma OddKeyIsReaction(rows: Rows, g: u64, c: u64, from: u64, to: u64, s: bytes) returns (k: ChatKey)
    requires s in Scanned(rows, g, c, from, to) && |s| != 26 && Decode(s).Some?
    ensures k in View(rows) && k.Reaction? && k.InChannel(g, c) && from <= k.m < to
  {
    k := Decode(s).value;
    EncodeDecode(s);
    ViewLookup(rows, k);
    RangeCovers(g, c, from, to, k);
  }

  lemma ReactionIsOddKey(rows: Rows, g: u64, c: u64, from: u64, to: u64, k: ChatKey)
    requires k in View(rows) && k.Reaction? && k.InChannel(g, c) && from <= k.m < to
    ensures Encode(k) in Scanned(rows, g, c, from, to) && |Encode(k)| != 26
  {
    ViewLookup(rows, k);
    RangeCovers(g, c, from, to, k);
  }

  /** Where only built keys are stored under the channel's message prefix, the odd keys are the reactions. */
  lemma OddKeysAreReactions(rows: Rows, g: u64, c: u64, from: u64, to: u64)
    requires Keyed(rows, MsgPrefix(g, c))
    ensures OddKeyInside(rows, g, c, from, to) <==> ReactionInside(View(rows), g, c, from, to)
  {
    if s :| s in Scanned(rows, g, c, from, to) && |s| != 26 {
      ScannedHasPrefix(rows, g, c, from, to, s);
      var k := OddKeyIsReaction(rows, g, c, from, to, s);
    }
    if k :| k in View(rows) && k.Reaction? && k.InChannel(g, c) && from <= k.m < to {
      ReactionIsOddKey(rows, g, c, from, to, k);
    }
  }

  lemma KeyIsScanned(rows: Rows, g: u64, c: u64, from: u64, to: u64, m: u64)
    requires from <= m <= to && MsgKey(g, c, m) in rows
    ensures var selected := Scanned(rows, g, c, from, to);
            MsgKey(g, c, m) in selected && selected[MsgKey(g, c, m)] == rows[MsgKey(g, c, m)]
  {
    MsgKeysInIdOrder(g, c, from, m);
    MsgKeysInIdOrder(g, c, m, to);
  }

  lemma MessageIsSelected(rows: Rows, g: u64, c: u64, from: u64, to: u64, m: u64)
    requires from <= m <= to && Message(g, c, m) in View(rows)
    ensures var selected := Scanned(rows, g, c, from, to);
            MsgKey(g, c, m) in selected && selected[MsgKey(g, c, m)] == View(rows)[Message(g, c, m)]
  {
    hide View, Scanned, MsgKey;
    ViewLookup(rows, Message(g, c, m));
    KeyIsScanned(rows, g, c, from, to, m);
  }

  lemma SelectedIsMessage(rows: Rows, g: u64, c: u64, from: u64, to: u64, s: bytes) returns (m: u64)
    requires s in Scanned(rows, g, c, from, to) && |s| == 26
    ensures from <= m <= to && Message(g, c, m) in View(rows)
    ensures (s, rows[s]) == (MsgKey(g, c, m), View(rows)[Message(g, c, m)])
  {
    ScannedHasPrefix(rows, g, c, from, to, s);
    ReadIdInverse(s[18..]);
    m := ReadId(s[18..]);
    assert s == MsgKey(g, c, m);
    MsgKeysInIdOrder(g, c, from, m);
    MsgKeysInIdOrder(g, c, m, to);
    assert Encode(Message(g, c, m)) == s;
    ViewLookup(rows, Message(g, c, m));
  }

  /** Without odd keys inside, the scanned range is exactly the window's message rows. */
  lemma RangeIsMessageRows(rows: Rows, g: u64, c: u64, from: u64, to: u64)
    requires !OddKeyInside(rows, g, c, from, to)
    ensures Listing(Scanned(rows, g, c, from, to)) == MessageRows(View(rows), g, c, from, to)
  {
    var selected, typed := Scanned(rows, g, c, from, to), View(rows);
    var items := MessageRows(typed, g, c, from, to);
    MessageRowsAscend(typed, g, c, from, to);
    forall i | 0 <= i < |items|
      ensures items[i].0 in selected && selected[items[i].0] == items[i].1
    {
      assert RowOf(typed, g, c, from, to, items[i]);
      var m: u64 :| && from <= m <= to && Message(g, c, m) in typed
                    && items[i] == (MsgKey(g, c, m), typed[Message(g, c, m)]);
      MessageIsSelected(rows, g, c, from, to, m);
    }
    forall s | s in selected
      ensures (s, selected[s]) in items
    {
      var m := SelectedIsMessage(rows, g, c, from, to, s);
    }
    ListingIsUnique(items, selected);
  }

  // ---- reading the scanned rows ----

  /** The fold over the reversed range: newest first, `None` where `deser_id` panics. */
  function ReadDown(items: seq<Row>): Option<seq<Numbered>> {
    if |items| == 0 then Some([])
    else
      var (key, value) := items[|items| - 1];
      if |key| != 26 then None
      else
        match ReadDown(items[..|items| - 1])
        case None => None
        case Some(rest) => Some([(ReadId(key[18..]), value)] + rest)
  }

  lemma {:induction false} ReadMessageRows(typed: Typed, g: u64, c: u64, from: nat, to: int)
    requires to < TWO_64
    ensures ReadDown(MessageRows(typed, g, c, from, to)) == Some(MessagesDown(typed, g, c, from, to))
    decreases 1 + to - from
  {
    if from <= to {
      ReadMessageRows(typed, g, c, from, to - 1);
      var items, before := MessageRows(typed, g, c, from, to), MessageRows(typed, g, c, from, to - 1);
      if Message(g, c, to) in typed {
        assert items[..|items| - 1] == before;
        assert MsgKey(g, c, to)[18..] == Id(to);
      } else {
        assert items == before;
        assert MessagesDown(typed, g, c, from, to) == MessagesDown(typed, g, c, from, to - 1);
      }
    }
  }

  lemma {:induction false} ReadFails(items: seq<Row>, i: nat)
    requires i < |items| && |items[i].0| != 26
    ensures ReadDown(items).None?
  {
    if i < |items| - 1 {
      ReadFails(items[..|items| - 1], i);
    }
  }

  /** Paging fails exactly when an odd key lies inside the window; else it reads the window. */
  lemma ReadRange(rows: Rows, g: u64, c: u64, from: u64, to: u64)
    ensures var read := ReadDown(Listing(Scanned(rows, g, c, from, to)));
            && (read.None? <==> OddKeyInside(rows, g, c, from, to))
            && (read.Some? ==> read.value == MessagesDown(View(rows), g, c, from, to))
  {
    var items := Listing(Scanned(rows, g, c, from, to));
    if s :| s in Scanned(rows, g, c, from, to) && |s| != 26 {
      ListingHasKey(Scanned(rows, g, c, from, to), s);
      var i :| 0 <= i < |items| && items[i].0 == s;
      ReadFails(items, i);
    } else {
      RangeIsMessageRows(rows, g, c, from, to);
      ReadMessageRows(View(rows), g, c, from, to);
    }
  }

  method ReadRowsDown(items: seq<Row>) returns (read: Option<seq<Numbered>>)
    ensures read == ReadDown(items)
  {
    var messages: seq<Numbered> := [];
    var left := |items|;
    assert items[..left] == items;
    while left > 0
      invariant 0 <= left <= |items|
      invariant ReadDown(items).None? <==> ReadDown(items[..left]).None?
      invariant ReadDown(items).Some? ==> ReadDown(items).value == messages + ReadDown(items[..left]).value
    {
      assert items[..left][..left - 1] == items[..left - 1];
      var (key, value) := items[left - 1];
      if |key| != 26 {
        return None;
      }
      messages := messages + [(ReadId(key[18..]), value)];
      left := left - 1;
    }
    assert messages + [] == messages;
    read := Some(messages);
  }

  // ---- one page ----

  function PageAt(typed: Typed, g: u64, c: u64, cursor: Option<u64>, direction: Direction, count: u64): Page
    requires HasCounter(typed, g, c)
  {
    var next := Counter(typed, g, c);
    if next == 1 then
      Page([], true, true)
    else
      var (from, to) := Window(direction, cursor, count, next);
      Page(MessagesDown(typed, g, c, from, to), from == 1, to == next)
  }

  /** `get_last_message_id`, which in fact reads the next id to be used; it panics without a readable one. */
  method GetLastMessageId(tree: Tree, g: u64, c: u64) returns (next: Option<u64>)
    ensures next.Some? <==> HasCounter(View(tree.rows), g, c)
    ensures next.Some? ==> next.value == Counter(View(tree.rows), g, c)
  {
    ViewLookup(tree.rows, NextId(g, c));
    var raw := tree.Get(Encode(NextId(g, c)));
    if raw.None? || |raw.value| != 8 {
      return None;
    }
    next := Some(ReadId(raw.value));
  }

  method ComputeWindow(direction: Direction, cursor: Option<u64>, count: u64, next: u64) returns (from: u64, to: u64)
    ensures (from, to) == Window(direction, cursor, count, next)
  {
    to := if cursor.Some? then cursor.value else next;
    to := if to > 1 then to - 1 else 1;
    match direction {
      case Before => from := WindowStart(to, count);
      case After => from, to := to, WindowEnd(to, count, next);
      case Around => from, to := WindowStart(to, count), WindowEnd(to, count, next);
    }
  }

  method ReadWindow(tree: Tree, g: u64, c: u64, from: u64, to: u64) returns (read: Option<seq<Numbered>>)
    ensures read.None? <==> OddKeyInside(tree.rows, g, c, from, to)
    ensures read.Some? ==> read.value == MessagesDown(View(tree.rows), g, c, from, to)
  {
    ReadRange(tree.rows, g, c, from, to);
    var items := tree.Range(MsgKey(g, c, from), MsgKey(g, c, to));
    read := ReadRowsDown(items);
  }

  /** What a request for a page gets from the stored rows; the errors are the two panics. */
  ghost function Answered(rows: Rows, g: u64, c: u64, cursor: Option<u64>, direction: Direction, count: u64)
    : Result<Page, PageError>
  {
    var typed := View(rows);
    if !HasCounter(typed, g, c) then Err(NoNextId)
    else
      var next := Counter(typed, g, c);
      var (from, to) := Window(direction, cursor, count, next);
      if next != 1 && OddKeyInside(rows, g, c, from, to) then Err(BadIdLength)
      else Ok(PageAt(typed, g, c, cursor, direction, count))
  }

  /** `get_channel_messages_logic` on any store. */
  method GetChannelMessages(tree: Tree, g: u64, c: u64, cursor: Option<u64>, direction: Direction, limit: Option<u64>)
    returns (r: Result<Page, PageError>)
    ensures r == Answered(tree.rows, g, c, cursor, direction, CountOr(direction, limit))
    ensures r == Err(NoNextId) <==> !HasCounter(View(tree.rows), g, c)
    ensures r.Ok? && MessagesCounted(View(tree.rows)) ==>
              var typed := View(tree.rows);
              && Descending(r.value.messages)
              && forall m: u64, v :: (m, v) in r.value.messages <==>
                   && Message(g, c, m) in typed && typed[Message(g, c, m)] == v
                   && AskedFor(direction, cursor, limit, Counter(typed, g, c), m)
    ensures HasCounter(View(tree.rows), g, c) ==>
              var typed, count := View(tree.rows), CountOr(direction, limit);
              var next := Counter(typed, g, c);
              var (from, to) := Window(direction, cursor, count, next);
              && (r.Err? <==> next != 1 && OddKeyInside(tree.rows, g, c, from, to))
              && (r.Ok? ==> r.value == PageAt(typed, g, c, cursor, direction, count))
  {
    hide AskedFor, View, MessagesCounted, Window, OddKeyInside, MessagesDown, CountOr, Encode;
    var last := GetLastMessageId(tree, g, c);
    if last.None? {
      return Err(NoNextId);
    }
    if MessagesCounted(View(tree.rows)) {
      PageIsWhatWasAsked(View(tree.rows), g, c, cursor, direction, limit);
    }
    var next := last.value;
    if next == 1 {
      return Ok(Page([], true, true));
    }
    var count := CountOr(direction, limit);
    var from, to := ComputeWindow(direction, cursor, count, next);
    var read := ReadWindow(tree, g, c, from, to);
    r := match read {
      case None => Err(BadIdLength)
      case Some(messages) => Ok(Page(messages, from == 1, to == next))
    };
  }

  function PageLimit(direction: Direction, count: u64): nat {
    if direction.Around? then 2 * count + 1 else count + 1
  }

  /** The messages of a page are the stored ones of its window, even on the early return. */
  lemma PageMessages(typed: Typed, g: u64, c: u64, cursor: Option<u64>, direction: Direction, count: u64)
    requires HasCounter(typed, g, c) && MessagesCounted(typed)
    ensures var (from, to) := Window(direction, cursor, count, Counter(typed, g, c));
            PageAt(typed, g, c, cursor, direction, count).messages == MessagesDown(typed, g, c, from, to)
  {
    var (from, to) := Window(direction, cursor, count, Counter(typed, g, c));
    if Counter(typed, g, c) == 1 {
      NothingStored(typed, g, c, from, to);
    }
  }

  /** What one page means to the client, for every cursor and count, even when `to + count` wraps. */
  lemma PageExact(typed: Typed, g: u64, c: u64, cursor: Option<u64>, direction: Direction, count: u64)
    requires HasCounter(typed, g, c) && MessagesCounted(typed)
    ensures var page := PageAt(typed, g, c, cursor, direction, count);
            var (from, to) := Window(direction, cursor, count, Counter(typed, g, c));
            && Descending(page.messages)
            && ExactlyStored(typed, g, c, from, to, page.messages)
            && |page.messages| <= PageLimit(direction, count)
            && (page.reachedTop ==> forall m: u64 | Message(g, c, m) in typed :: m >= from)
            && (page.reachedBottom ==> forall m: u64 | Message(g, c, m) in typed :: m <= to)
  {
    var (from, to) := Window(direction, cursor, count, Counter(typed, g, c));
    PageMessages(typed, g, c, cursor, direction, count);
    MessagesDownExact(typed, g, c, from, to);
    MessagesDownDescends(typed, g, c, from, to);
    MessagesDownBounds(typed, g, c, from, to);
  }

  /**
   * The ids a request asks for: as many as it says, before, after or on both
   * sides of the message in front of its cursor; 25 unless it says how many, or
   * 12 on each side. Without a cursor that message is the newest one. An upper
   * end beyond the width of an id starts again at 0.
   */
  predicate AskedFor(direction: Direction, cursor: Option<u64>, limit: Option<u64>, next: u64, m: int) {
    var start := match cursor case None => next - 1 case Some(k) => if k < 2 then 1 else k - 1;
    var many := match limit case Some(n) => n as int case None => (match direction case Around => 12 case _ => 25);
    var end := if start + many < TWO_64 then start + many else start + many - TWO_64;
    && (if direction.After? then start <= m else start - many <= m)
    && (if direction.Before? then m <= start else m <= end)
  }

  lemma WrappedEnd(pivot: u64, count: u64, next: u64, m: u64)
    requires m < next
    ensures var end := if pivot + count < TWO_64 then pivot + count else pivot + count - TWO_64;
            m <= WindowEnd(pivot, count, next) <==> m <= end
  {
    assert pivot + count < TWO_64 || (pivot + count) % TWO_64 == pivot + count - TWO_64;
  }

  lemma WindowIsAskedFor(direction: Direction, cursor: Option<u64>, limit: Option<u64>, next: u64, m: u64)
    requires 1 <= m < next
    ensures var (from, to) := Window(direction, cursor, CountOr(direction, limit), next);
            from <= m <= to <==> AskedFor(direction, cursor, limit, next, m)
  {
    hide WindowEnd;
    WrappedEnd(Pivot(cursor, next), CountOr(direction, limit), next, m);
    match direction
    case Before =>
    case After =>
    case Around =>
  }

  /** A page holds exactly the stored messages that were asked for, newest first. */
  lemma PageIsWhatWasAsked(typed: Typed, g: u64, c: u64, cursor: Option<u64>, direction: Direction, limit: Option<u64>)
    requires HasCounter(typed, g, c) && MessagesCounted(typed)
    ensures var page := PageAt(typed, g, c, cursor, direction, CountOr(direction, limit));
            && Descending(page.messages)
            && forall m: u64, v :: (m, v) in page.messages <==>
                 && Message(g, c, m) in typed && typed[Message(g, c, m)] == v
                 && AskedFor(direction, cursor, limit, Counter(typed, g, c), m)
  {
    hide PageAt, Window, AskedFor;
    var next, count := Counter(typed, g, c), CountOr(direction, limit);
    PageExact(typed, g, c, cursor, direction, count);
    var (from, to) := Window(direction, cursor, count, next);
    forall m: u64 | Message(g, c, m) in typed
      ensures from <= m <= to <==> AskedFor(direction, cursor, limit, next, m)
    {
      WindowIsAskedFor(direction, cursor, limit, next, m);
    }
  }

  /** When the two flags are set. */
  lemma FlagsSetIff(typed: Typed, g: u64, c: u64, cursor: Option<u64>, direction: Direction, count: u64)
    requires HasCounter(typed, g, c)
    ensures var page := PageAt(typed, g, c, cursor, direction, count);
            var next := Counter(typed, g, c);
            var pivot := Pivot(cursor, next);
            && (page.reachedTop <==> next == 1 || pivot == 1 || (!direction.After? && pivot <= count + 1))
            && (page.reachedBottom <==>
                  next == 1 || (if direction.Before? then pivot == next else (pivot + count) % TWO_64 >= next))
  {
  }
}
