/**
 * A client that pages backwards through a channel: what it receives, when one
 * of its requests panics, and when it misses something.
 */
module Walks {
  import opened Wrappers
  import opened Bytes
  import opened Store
  import opened ChatKeys
  import opened ChatStore
  import opened Channels
  import opened ChannelHistories
  import opened Messages

  // ---- the walk ----

  datatype Walked = Walked(messages: seq<Numbered>, pages: nat, low: nat, top: bool)

  function CursorRank(cursor: Option<u64>): nat {
    if cursor.Some? then cursor.value else TWO_64
  }

  function PageThen(messages: seq<Numbered>, rest: Walked): Walked {
    Walked(messages + rest.messages, 1 + rest.pages, rest.low, rest.top)
  }

  /**
   * A client asks for the page before its cursor, moves the cursor to the
   * smallest id received, and stops at the top or at an empty page. `None` is a
   * request that panics on the way.
   */
  ghost function Walk(rows: Rows, g: u64, c: u64, count: u64, cursor: Option<u64>): Option<Walked>
    requires HasCounter(View(rows), g, c) && Counter(View(rows), g, c) > 1
    decreases CursorRank(cursor)
  {
    var typed := View(rows);
    var (from, to) := Window(Before, cursor, count, Counter(typed, g, c));
    match Answered(rows, g, c, cursor, Before, count)
    case Err(_) => None
    case Ok(page) =>
      if page.reachedTop || page.messages == [] then
        Some(Walked(page.messages, 1, from, page.reachedTop))
      else
        MessagesDownBounds(typed, g, c, from, to);
        match Walk(rows, g, c, count, Some(page.messages[|page.messages| - 1].0))
        case None => None
        case Some(rest) => Some(PageThen(page.messages, rest))
  }

  /**
   * What such a client receives if no request fails, by the stored messages.
   * `low` is where the last window started.
   */
  function Plan(typed: Typed, g: u64, c: u64, count: u64, cursor: Option<u64>): Walked
    requires HasCounter(typed, g, c) && Counter(typed, g, c) > 1
    decreases CursorRank(cursor)
  {
    var (from, to) := Window(Before, cursor, count, Counter(typed, g, c));
    var page := PageAt(typed, g, c, cursor, Before, count);
    if page.reachedTop || page.messages == [] then
      Walked(page.messages, 1, from, page.reachedTop)
    else
      MessagesDownBounds(typed, g, c, from, to);
      var rest := Plan(typed, g, c, count, Some(page.messages[|page.messages| - 1].0));
      PageThen(page.messages, rest)
  }

  /** One page of the walk, with the cursor replaced by its pivot. */
  lemma PlanUnfolds(typed: Typed, g: u64, c: u64, count: u64, cursor: Option<u64>)
    requires HasCounter(typed, g, c) && Counter(typed, g, c) > 1
    ensures var to := Pivot(cursor, Counter(typed, g, c));
            var from := WindowStart(to, count);
            var messages := MessagesDown(typed, g, c, from, to);
            Plan(typed, g, c, count, cursor) ==
              if from == 1 || messages == [] then
                Walked(messages, 1, from, from == 1)
              else
                var rest := Plan(typed, g, c, count, Some(messages[|messages| - 1].0));
                PageThen(messages, rest)
  {
  }

  lemma NextPivot(typed: Typed, g: u64, c: u64, from: nat, to: int, next: u64)
    requires 1 < from && to < TWO_64
    ensures var messages := MessagesDown(typed, g, c, from, to);
            messages != [] ==>
              var last := messages[|messages| - 1].0;
              Pivot(Some(last), next) == last as int - 1 && from <= last <= to
  {
    MessagesDownBounds(typed, g, c, from, to);
  }

  lemma LastOfPage(typed: Typed, g: u64, c: u64, from: u64, to: u64)
    ensures var page := MessagesDown(typed, g, c, from, to);
            page != [] ==>
              && from <= page[|page| - 1].0 <= to
              && forall m: u64 | from <= m < page[|page| - 1].0 :: Message(g, c, m) !in typed
  {
    MessagesDownExact(typed, g, c, from, to);
    MessagesDownBounds(typed, g, c, from, to);
    MessagesDownDescends(typed, g, c, from, to);
    var page := MessagesDown(typed, g, c, from, to);
    if page != [] {
      assert page[|page| - 1] in page;
      assert forall m: u64 | from <= m <= to && Message(g, c, m) in typed :: (m, typed[Message(g, c, m)]) in page;
    }
  }

  /** A page and whatever follows below its last message join without a gap. */
  lemma PagesJoin(typed: Typed, g: u64, c: u64, from: u64, to: u64, last: int, low: nat)
    requires from <= last <= to && low < last
    requires forall m: u64 | from <= m <= last - 1 :: Message(g, c, m) !in typed
    ensures MessagesDown(typed, g, c, from, to) + MessagesDown(typed, g, c, low, last - 1)
         == MessagesDown(typed, g, c, low, to)
  {
    NothingStored(typed, g, c, from, last - 1);
    MessagesDownSplit(typed, g, c, from, last - 1, to);
    MessagesDownSplit(typed, g, c, low, last - 1, to);
    assert MessagesDown(typed, g, c, last, to) + [] == MessagesDown(typed, g, c, last, to);
  }

  /** Whatever is stored, the client has received every message from `low` up, once, newest first. */
  lemma {:induction false} PlanHasNoHoles(typed: Typed, g: u64, c: u64, count: u64, cursor: Option<u64>)
    requires HasCounter(typed, g, c) && Counter(typed, g, c) > 1
    ensures var walked := Plan(typed, g, c, count, cursor);
            var pivot := Pivot(cursor, Counter(typed, g, c));
            && 1 <= walked.low
            && walked.low <= pivot
            && walked.messages == MessagesDown(typed, g, c, walked.low, pivot)
            && (walked.top <==> walked.low == 1)
    decreases CursorRank(cursor)
  {
    hide Plan, MessagesDown;
    PlanUnfolds(typed, g, c, count, cursor);
    var to := Pivot(cursor, Counter(typed, g, c));
    var from := WindowStart(to, count);
    var messages := MessagesDown(typed, g, c, from, to);
    if from != 1 && messages != [] {
      NextPivot(typed, g, c, from, to, Counter(typed, g, c));
      LastOfPage(typed, g, c, from, to);
      var last := messages[|messages| - 1].0;
      PlanHasNoHoles(typed, g, c, count, Some(last));
      PagesJoin(typed, g, c, from, to, last, Plan(typed, g, c, count, Some(last)).low);
    }
  }

  /**
   * Every message up to the pivot is in the first window, or less than a window
   * below another one.
   */
  ghost predicate WithinReach(typed: Typed, g: u64, c: u64, count: u64, pivot: int) {
    forall m: u64 | 1 <= m <= pivot && Message(g, c, m) in typed ::
      m + count >= pivot || exists n: u64 | m < n <= pivot && n <= m + count + 1 :: Message(g, c, n) in typed
  }

  /** A message below too wide a gap is never reached. */
  lemma {:induction false} PlanStopsAboveGap(typed: Typed, g: u64, c: u64, count: u64, cursor: Option<u64>, m: u64)
    requires HasCounter(typed, g, c) && Counter(typed, g, c) > 1
    requires 1 <= m && m + count < Pivot(cursor, Counter(typed, g, c))
    requires forall n: u64 | m < n <= Pivot(cursor, Counter(typed, g, c)) && n <= m + count + 1 :: Message(g, c, n) !in typed
    ensures Plan(typed, g, c, count, cursor).low > m
    decreases CursorRank(cursor)
  {
    hide Plan, MessagesDown;
    PlanUnfolds(typed, g, c, count, cursor);
    var to := Pivot(cursor, Counter(typed, g, c));
    var from := WindowStart(to, count);
    var messages := MessagesDown(typed, g, c, from, to);
    if messages != [] {
      NextPivot(typed, g, c, from, to, Counter(typed, g, c));
      var last := LastIsStored(typed, g, c, from, to);
      PlanStopsAboveGap(typed, g, c, count, Some(last), m);
    }
  }

  lemma LastIsStored(typed: Typed, g: u64, c: u64, from: nat, to: int) returns (last: u64)
    requires to < TWO_64 && MessagesDown(typed, g, c, from, to) != []
    ensures var page := MessagesDown(typed, g, c, from, to); last == page[|page| - 1].0
    ensures from <= last <= to && Message(g, c, last) in typed
  {
    var page := MessagesDown(typed, g, c, from, to);
    last := page[|page| - 1].0;
    MessagesDownExact(typed, g, c, from, to);
    MessagesDownBounds(typed, g, c, from, to);
    assert (last, page[|page| - 1].1) in page;
  }

  lemma PageHolds(typed: Typed, g: u64, c: u64, from: nat, to: u64, m: u64)
    requires from <= m <= to && Message(g, c, m) in typed
    ensures (m, typed[Message(g, c, m)]) in MessagesDown(typed, g, c, from, to)
  {
    MessagesDownExact(typed, g, c, from, to);
  }

  lemma {:induction false} NothingBelowEmptyPage(typed: Typed, g: u64, c: u64, count: u64, pivot: u64, m: int)
    requires WithinReach(typed, g, c, count, pivot)
    requires MessagesDown(typed, g, c, WindowStart(pivot, count), pivot) == []
    requires 1 <= m <= pivot + 1
    ensures forall n: u64 | m <= n <= pivot :: Message(g, c, n) !in typed
    decreases 1 + pivot - m
  {
    if m <= pivot {
      NothingBelowEmptyPage(typed, g, c, count, pivot, m + 1);
      if Message(g, c, m) in typed && m + count >= pivot {
        PageHolds(typed, g, c, WindowStart(pivot, count), pivot, m);
      }
    }
  }

  /** With every message within reach the walk leaves none behind. */
  lemma {:induction false} PlanReachesAll(typed: Typed, g: u64, c: u64, count: u64, cursor: Option<u64>)
    requires HasCounter(typed, g, c) && Counter(typed, g, c) > 1
    requires WithinReach(typed, g, c, count, Pivot(cursor, Counter(typed, g, c)))
    ensures forall m: u64 | 1 <= m < Plan(typed, g, c, count, cursor).low :: Message(g, c, m) !in typed
    decreases CursorRank(cursor)
  {
    hide Plan, MessagesDown;
    PlanUnfolds(typed, g, c, count, cursor);
    var to := Pivot(cursor, Counter(typed, g, c));
    var from := WindowStart(to, count);
    var messages := MessagesDown(typed, g, c, from, to);
    if from != 1 {
      if messages == [] {
        NothingBelowEmptyPage(typed, g, c, count, to, 1);
      } else {
        NextPivot(typed, g, c, from, to, Counter(typed, g, c));
        LastOfPage(typed, g, c, from, to);
        var last := messages[|messages| - 1].0;
        ReachBelowPage(typed, g, c, count, to, last);
        PlanReachesAll(typed, g, c, count, Some(last));
      }
    }
  }

  lemma ReachBelowPage(typed: Typed, g: u64, c: u64, count: u64, to: u64, last: u64)
    requires WithinReach(typed, g, c, count, to) && WindowStart(to, count) <= last <= to
    requires forall m: u64 | WindowStart(to, count) <= m < last :: Message(g, c, m) !in typed
    ensures WithinReach(typed, g, c, count, last - 1)
  {
    forall m: u64 | 1 <= m <= last - 1 && Message(g, c, m) in typed
      ensures m + count >= last - 1
           || exists n: u64 | m < n <= last - 1 && n <= m + count + 1 :: Message(g, c, n) in typed
    {
      var n: u64 :| m < n <= to && n <= m + count + 1 && Message(g, c, n) in typed;
    }
  }

  /** The walk delivers everything exactly when no message lies below a gap wider than a page. */
  lemma PlanDeliversAllIff(typed: Typed, g: u64, c: u64, count: u64, cursor: Option<u64>)
    requires HasCounter(typed, g, c) && Counter(typed, g, c) > 1
    ensures var pivot := Pivot(cursor, Counter(typed, g, c));
            (Plan(typed, g, c, count, cursor).messages == MessagesDown(typed, g, c, 1, pivot)
             <==> WithinReach(typed, g, c, count, pivot))
  {
    hide Plan, MessagesDown;
    var pivot, low := Pivot(cursor, Counter(typed, g, c)), Plan(typed, g, c, count, cursor).low;
    PlanHasNoHoles(typed, g, c, count, cursor);
    if WithinReach(typed, g, c, count, pivot) {
      PlanReachesAll(typed, g, c, count, cursor);
      NothingStored(typed, g, c, 1, low - 1);
      MessagesDownSplit(typed, g, c, 1, low - 1, pivot);
      assert MessagesDown(typed, g, c, low, pivot) + [] == MessagesDown(typed, g, c, low, pivot);
    } else {
      var m: u64 :| && 1 <= m <= pivot && Message(g, c, m) in typed && m + count < pivot
                    && forall n: u64 | m < n <= pivot && n <= m + count + 1 :: Message(g, c, n) !in typed;
      PlanStopsAboveGap(typed, g, c, count, cursor, m);
      PageHolds(typed, g, c, 1, pivot, m);
      MessagesDownExact(typed, g, c, low, pivot);
      assert (m, typed[Message(g, c, m)]) !in MessagesDown(typed, g, c, low, pivot);
    }
  }

  // ---- a channel without gaps ----

  ghost predicate Dense(typed: Typed, g: u64, c: u64)
    requires HasCounter(typed, g, c)
  {
    forall m: u64 :: Message(g, c, m) in typed <==> 1 <= m < Counter(typed, g, c)
  }

  lemma {:induction false} DensePage(typed: Typed, g: u64, c: u64, from: nat, to: int)
    requires HasCounter(typed, g, c) && Dense(typed, g, c)
    requires 1 <= from <= to < Counter(typed, g, c)
    ensures var page := MessagesDown(typed, g, c, from, to);
            |page| == to - from + 1 && page[|page| - 1].0 == from
    decreases 0 + to - from
  {
    if from < to {
      DensePage(typed, g, c, from, to - 1);
    } else {
      assert MessagesDown(typed, g, c, from, from - 1) == [];
    }
  }

  lemma LastOfDensePage(typed: Typed, g: u64, c: u64, from: nat, to: int)
    requires HasCounter(typed, g, c) && Dense(typed, g, c)
    requires 1 <= from <= to < Counter(typed, g, c)
    ensures MessagesDown(typed, g, c, from, to) != []
    ensures var page := MessagesDown(typed, g, c, from, to); page[|page| - 1].0 == from
  {
    DensePage(typed, g, c, from, to);
  }

  function PagesFor(n: nat, size: nat): nat
    requires size > 0
  {
    if n <= size then 1 else 1 + PagesFor(n - size, size)
  }

  /** Rounding up: the fewest pages of the given size that hold `n` messages. */
  lemma {:induction false} PagesForIsCeiling(n: nat, size: nat)
    requires size > 0 && n > 0
    ensures (PagesFor(n, size) - 1) * size < n
    ensures n <= PagesFor(n, size) * size
  {
    if n > size {
      PagesForIsCeiling(n - size, size);
      var before := PagesFor(n - size, size);
      assert (before + 1) * size == before * size + size;
      assert before * size == (before - 1) * size + size;
    }
  }

  lemma {:induction false} DensePlanPages(typed: Typed, g: u64, c: u64, count: u64, cursor: Option<u64>)
    requires HasCounter(typed, g, c) && Counter(typed, g, c) > 1 && Dense(typed, g, c)
    requires Pivot(cursor, Counter(typed, g, c)) < Counter(typed, g, c)
    ensures var walked := Plan(typed, g, c, count, cursor);
            walked.top && walked.pages == PagesFor(Pivot(cursor, Counter(typed, g, c)), count + 1)
    decreases CursorRank(cursor)
  {
    hide Plan, MessagesDown;
    PlanUnfolds(typed, g, c, count, cursor);
    var to := Pivot(cursor, Counter(typed, g, c));
    var from := WindowStart(to, count);
    LastOfDensePage(typed, g, c, from, to);
    if from != 1 {
      assert Pivot(Some(from), Counter(typed, g, c)) == to - (count + 1);
      DensePlanPages(typed, g, c, count, Some(from));
    }
  }

  /** Without gaps, paging back delivers everything in as few pages as the page size allows. */
  lemma DensePlan(typed: Typed, g: u64, c: u64, count: u64)
    requires HasCounter(typed, g, c) && Counter(typed, g, c) > 1 && Dense(typed, g, c)
    ensures var walked := Plan(typed, g, c, count, None);
            var sent := Counter(typed, g, c) - 1;
            && walked.top
            && walked.messages == MessagesDown(typed, g, c, 1, sent)
            && (walked.pages - 1) * (count + 1) < sent
            && sent <= walked.pages * (count + 1)
  {
    hide Plan, MessagesDown;
    DensePlanPages(typed, g, c, count, None);
    PlanHasNoHoles(typed, g, c, count, None);
    PagesForIsCeiling(Counter(typed, g, c) - 1, count + 1);
  }

  // ---- when the walk panics ----

  /** The windows the client asks for, by the stored messages, from the pivot down. */
  function Windows(typed: Typed, g: u64, c: u64, count: u64, pivot: u64): seq<(u64, u64)>
    requires pivot >= 1
    decreases pivot
  {
    var from := WindowStart(pivot, count);
    var messages := MessagesDown(typed, g, c, from, pivot);
    if from == 1 || messages == [] then
      [(from, pivot)]
    else
      MessagesDownBounds(typed, g, c, from, pivot);
      [(from, pivot)] + Windows(typed, g, c, count, messages[|messages| - 1].0 - 1)
  }

  ghost predicate Covered(windows: seq<(u64, u64)>, m: u64) {
    exists i | 0 <= i < |windows| :: windows[i].0 <= m < windows[i].1
  }

  ghost predicate OddWindow(rows: Rows, g: u64, c: u64, windows: seq<(u64, u64)>) {
    exists i | 0 <= i < |windows| :: OddKeyInside(rows, g, c, windows[i].0, windows[i].1)
  }

  lemma OddWindowHead(rows: Rows, g: u64, c: u64, window: (u64, u64), rest: seq<(u64, u64)>)
    ensures OddWindow(rows, g, c, [window] + rest)
       <==> OddKeyInside(rows, g, c, window.0, window.1) || OddWindow(rows, g, c, rest)
  {
    hide OddKeyInside;
    var all := [window] + rest;
    if i :| 0 <= i < |rest| && OddKeyInside(rows, g, c, rest[i].0, rest[i].1) {
      assert all[i + 1] == rest[i];
    }
    if OddKeyInside(rows, g, c, window.0, window.1) {
      assert all[0] == window;
    }
  }

  /** One request of the walk, with the cursor replaced by its pivot. */
  lemma WalkUnfolds(rows: Rows, g: u64, c: u64, count: u64, cursor: Option<u64>)
    requires HasCounter(View(rows), g, c) && Counter(View(rows), g, c) > 1
    ensures var to := Pivot(cursor, Counter(View(rows), g, c));
            var from := WindowStart(to, count);
            var messages := MessagesDown(View(rows), g, c, from, to);
            Walk(rows, g, c, count, cursor) ==
              if OddKeyInside(rows, g, c, from, to) then None
              else if from == 1 || messages == [] then Some(Walked(messages, 1, from, from == 1))
              else
                match Walk(rows, g, c, count, Some(messages[|messages| - 1].0))
                case None => None
                case Some(rest) => Some(PageThen(messages, rest))
  {
    hide OddKeyInside, HasCounter, View;
  }

  /**
   * The walk panics exactly when one of the windows it comes to holds a key
   * that is too long, and otherwise delivers what the stored messages promise.
   */
  lemma {:induction false} WalkPanicsIff(rows: Rows, g: u64, c: u64, count: u64, cursor: Option<u64>)
    requires HasCounter(View(rows), g, c) && Counter(View(rows), g, c) > 1
    ensures var windows := Windows(View(rows), g, c, count, Pivot(cursor, Counter(View(rows), g, c)));
            && (Walk(rows, g, c, count, cursor).None? <==> OddWindow(rows, g, c, windows))
            && (Walk(rows, g, c, count, cursor).Some? ==>
                  Walk(rows, g, c, count, cursor).value == Plan(View(rows), g, c, count, cursor))
    decreases CursorRank(cursor)
  {
    hide Walk, Plan, MessagesDown, OddWindow, OddKeyInside, View, HasCounter;
    var typed := View(rows);
    WalkUnfolds(rows, g, c, count, cursor);
    PlanUnfolds(typed, g, c, count, cursor);
    var to := Pivot(cursor, Counter(typed, g, c));
    var from := WindowStart(to, count);
    var messages := MessagesDown(typed, g, c, from, to);
    OddWindowHead(rows, g, c, (from, to), []);
    assert [(from, to)] + [] == [(from, to)];
    NoOddWindow(rows, g, c);
    if from != 1 && messages != [] {
      NextPivot(typed, g, c, from, to, Counter(typed, g, c));
      var last := messages[|messages| - 1].0;
      OddWindowHead(rows, g, c, (from, to), Windows(typed, g, c, count, last - 1));
      WalkPanicsIff(rows, g, c, count, Some(last));
    }
  }

  lemma NoOddWindow(rows: Rows, g: u64, c: u64)
    ensures !OddWindow(rows, g, c, [])
  {
  }

  /** Where only built keys are stored, what a window must not hold is a reaction below its upper end. */
  lemma WalkPanicsOnReactionIff(rows: Rows, g: u64, c: u64, count: u64, cursor: Option<u64>)
    requires HasCounter(View(rows), g, c) && Counter(View(rows), g, c) > 1 && Keyed(rows, MsgPrefix(g, c))
    ensures var windows := Windows(View(rows), g, c, count, Pivot(cursor, Counter(View(rows), g, c)));
            Walk(rows, g, c, count, cursor).None? <==>
              exists i | 0 <= i < |windows| :: ReactionInside(View(rows), g, c, windows[i].0, windows[i].1)
  {
    hide Walk, View, HasCounter, Keyed, OddKeyInside, ReactionInside, Windows;
    WalkPanicsIff(rows, g, c, count, cursor);
    var windows := Windows(View(rows), g, c, count, Pivot(cursor, Counter(View(rows), g, c)));
    forall i | 0 <= i < |windows|
      ensures OddKeyInside(rows, g, c, windows[i].0, windows[i].1)
         <==> ReactionInside(View(rows), g, c, windows[i].0, windows[i].1)
    {
      OddKeysAreReactions(rows, g, c, windows[i].0, windows[i].1);
    }
  }

  // ---- what the walk delivers ----

  /** A walk that finishes has received every message from `low` up, once, newest first, whatever is stored. */
  lemma WalkHasNoHoles(rows: Rows, g: u64, c: u64, count: u64, cursor: Option<u64>)
    requires HasCounter(View(rows), g, c) && Counter(View(rows), g, c) > 1
    requires Walk(rows, g, c, count, cursor).Some?
    ensures var walked := Walk(rows, g, c, count, cursor).value;
            var pivot := Pivot(cursor, Counter(View(rows), g, c));
            && 1 <= walked.low
            && walked.low <= pivot
            && walked.messages == MessagesDown(View(rows), g, c, walked.low, pivot)
            && (walked.top <==> walked.low == 1)
  {
    hide Walk, Plan, MessagesDown, View, HasCounter, OddWindow, Windows;
    WalkPanicsIff(rows, g, c, count, cursor);
    PlanHasNoHoles(View(rows), g, c, count, cursor);
  }

  /**
   * The client receives every message exactly when none lies below a gap wider
   * than a page and no window it comes to holds a key that is too long.
   */
  lemma WalkDeliversAllIff(rows: Rows, g: u64, c: u64, count: u64, cursor: Option<u64>)
    requires HasCounter(View(rows), g, c) && Counter(View(rows), g, c) > 1
    ensures var typed := View(rows);
            var pivot := Pivot(cursor, Counter(typed, g, c));
            var walk := Walk(rows, g, c, count, cursor);
            (walk.Some? && walk.value.messages == MessagesDown(typed, g, c, 1, pivot)
             <==> WithinReach(typed, g, c, count, pivot) && !OddWindow(rows, g, c, Windows(typed, g, c, count, pivot)))
  {
    hide Walk, Plan, MessagesDown, View, HasCounter, OddWindow, Windows, WithinReach;
    WalkPanicsIff(rows, g, c, count, cursor);
    PlanDeliversAllIff(View(rows), g, c, count, cursor);
  }

  /** In a channel without gaps the windows lie side by side, so what they cover is a matter of counting. */
  lemma {:induction false} DenseWindows(typed: Typed, g: u64, c: u64, count: u64, pivot: u64, m: u64)
    requires HasCounter(typed, g, c) && Dense(typed, g, c) && 1 <= pivot < Counter(typed, g, c)
    ensures var windows := Windows(typed, g, c, count, pivot);
            Covered(windows, m) <==> 1 <= m < pivot && (pivot - m) % (count + 1) != 0
    decreases pivot
  {
    hide MessagesDown, HasCounter;
    var from := WindowStart(pivot, count);
    LastOfDensePage(typed, g, c, from, pivot);
    var windows := Windows(typed, g, c, count, pivot);
    if from == 1 {
      assert windows == [(from, pivot)];
      SmallRemainder(pivot - m, count + 1);
      assert windows[0].0 <= m < windows[0].1 <==> 1 <= m < pivot;
    } else {
      var rest := Windows(typed, g, c, count, from - 1);
      assert windows == [(from, pivot)] + rest;
      DenseWindows(typed, g, c, count, from - 1, m);
      SmallRemainder(pivot - m, count + 1);
      SameRemainder(from - 1 - m, count + 1);
      if i :| 0 <= i < |rest| && rest[i].0 <= m < rest[i].1 {
        assert windows[i + 1] == rest[i];
      }
      assert windows[0] == (from, pivot);
    }
  }

  lemma SmallRemainder(d: int, size: nat)
    requires size > 0
    ensures 0 < d < size ==> d % size != 0
    ensures d == size ==> d % size == 0
  {
  }

  lemma SameRemainder(d: int, size: nat)
    requires size > 0
    ensures (d + size) % size == d % size
  {
    var q, r := d / size, d % size;
    assert d + size == (q + 1) * size + r;
    RemainderIsUnique(d + size, size, q + 1, r);
  }

  lemma {:induction false} MultipleAtLeast(k: nat, size: nat)
    requires k >= 1
    ensures k * size >= size
  {
    if k > 1 {
      MultipleAtLeast(k - 1, size);
    }
  }

  lemma BigMultiple(k: int, size: nat)
    requires size > 0 && k != 0
    ensures k * size >= size || (0 - k) * size >= size
  {
    MultipleAtLeast(if k > 0 then k else -k, size);
  }

  lemma RemainderIsUnique(d: int, size: nat, q: int, r: nat)
    requires size > 0 && r < size && d == q * size + r
    ensures d % size == r
  {
    var q', r' := d / size, d % size;
    assert d == q' * size + r' && 0 <= r' < size;
    if q != q' {
      BigMultiple(q - q', size);
    }
  }

  /**
   * In a channel without gaps the walk panics exactly when some message has a
   * reaction and is not the newest one of the page it comes on.
   */
  lemma DenseWalkPanicsIff(rows: Rows, g: u64, c: u64, count: u64, cursor: Option<u64>)
    requires HasCounter(View(rows), g, c) && Counter(View(rows), g, c) > 1 && Keyed(rows, MsgPrefix(g, c))
    requires Dense(View(rows), g, c) && Pivot(cursor, Counter(View(rows), g, c)) < Counter(View(rows), g, c)
    ensures var pivot := Pivot(cursor, Counter(View(rows), g, c));
            Walk(rows, g, c, count, cursor).None? <==>
              exists k | k in View(rows) ::
                k.Reaction? && k.InChannel(g, c) && 1 <= k.m < pivot && (pivot - k.m) % (count + 1) != 0
  {
    hide Walk, View, HasCounter, Keyed, Windows, Dense;
    var typed, pivot := View(rows), Pivot(cursor, Counter(View(rows), g, c));
    var windows := Windows(typed, g, c, count, pivot);
    WalkPanicsOnReactionIff(rows, g, c, count, cursor);
    if i :| 0 <= i < |windows| && ReactionInside(typed, g, c, windows[i].0, windows[i].1) {
      var k :| k in typed && k.Reaction? && k.InChannel(g, c) && windows[i].0 <= k.m < windows[i].1;
      assert Covered(windows, k.m);
      DenseWindows(typed, g, c, count, pivot, k.m);
    }
    if k :| k in typed && k.Reaction? && k.InChannel(g, c) && 1 <= k.m < pivot && (pivot - k.m) % (count + 1) != 0 {
      DenseWindows(typed, g, c, count, pivot, k.m);
      var i :| 0 <= i < |windows| && windows[i].0 <= k.m < windows[i].1;
      assert ReactionInside(typed, g, c, windows[i].0, windows[i].1);
    }
  }

  /** Without gaps and panics, paging back delivers everything in as few pages as the page size allows. */
  lemma DenseWalk(rows: Rows, g: u64, c: u64, count: u64)
    requires HasCounter(View(rows), g, c) && Counter(View(rows), g, c) > 1 && Dense(View(rows), g, c)
    requires Walk(rows, g, c, count, None).Some?
    ensures var walked := Walk(rows, g, c, count, None).value;
            var sent := Counter(View(rows), g, c) - 1;
            && walked.top
            && walked.messages == MessagesDown(View(rows), g, c, 1, sent)
            && (walked.pages - 1) * (count + 1) < sent
            && sent <= walked.pages * (count + 1)
  {
    hide Walk, Plan, MessagesDown, View, HasCounter, Dense, OddWindow, Windows;
    WalkPanicsIff(rows, g, c, count, None);
    DensePlan(View(rows), g, c, count);
  }

  // ---- channels where paging goes wrong ----

  lemma SentIsDense(g: u64, c: u64, n: u64)
    requires n + 1 < TWO_64
    ensures HasCounter(Holding(g, c, n + 1, UpTo(n)), g, c) && Counter(Holding(g, c, n + 1, UpTo(n)), g, c) == n + 1
    ensures Dense(Holding(g, c, n + 1, UpTo(n)), g, c)
  {
    hide Holding;
    HoldingCounter(g, c, n + 1, UpTo(n));
    forall m: u64
      ensures Message(g, c, m) in Holding(g, c, n + 1, UpTo(n)) <==> 1 <= m < n + 1
    {
      HoldingHas(g, c, n + 1, UpTo(n), Message(g, c, m));
    }
  }

  /** An unset flag says nothing: after one message was sent, the newest page holds it and still denies the bottom. */
  lemma NewestPageDeniesBottom(g: u64, c: u64)
    requires c != 0
    ensures Reachable(Holding(g, c, 2, UpTo(1)))
    ensures Channel(g, c) in Holding(g, c, 2, UpTo(1))
    ensures HasCounter(Holding(g, c, 2, UpTo(1)), g, c)
    ensures PageAt(Holding(g, c, 2, UpTo(1)), g, c, None, Before, 25) == Page([(1, [])], true, false)
  {
    hide Holding, HasCounter, Reachable;
    SendsHold(g, c, 1);
    HoldingCounter(g, c, 2, UpTo(1));
    HoldingHas(g, c, 2, UpTo(1), Channel(g, c));
    HoldingHas(g, c, 2, UpTo(1), Message(g, c, 1));
    assert MessagesDown(Holding(g, c, 2, UpTo(1)), g, c, 1, 0) == [];
  }

  /** After n messages were sent and somebody reacted to the last but one. */
  ghost function Reacted(g: u64, c: u64, n: u64, user: u64, image: bytes): Typed
    requires 2 <= n && n + 1 < TWO_64
  {
    Holding(g, c, n + 1, UpTo(n))[Reaction(g, c, n - 1, user, image) := []]
  }

  lemma ReactedFacts(g: u64, c: u64, n: u64, user: u64, image: bytes)
    requires c != 0 && 2 <= n && n + 1 < TWO_64
    ensures var typed := Reacted(g, c, n, user, image);
            && Reachable(typed) && Channel(g, c) in typed && Reaction(g, c, n - 1, user, image) in typed
            && HasCounter(typed, g, c) && Counter(typed, g, c) == n + 1 && Dense(typed, g, c)
  {
    hide Holding, Reachable;
    SendsHold(g, c, n);
    SentIsDense(g, c, n);
    HoldingHas(g, c, n + 1, UpTo(n), Channel(g, c));
    ReactionHolds(Holding(g, c, n + 1, UpTo(n)), g, c, n - 1, user, image);
  }

  /** Then asking for the newest page panics, whoever reacted and with whatever, unless a page is a single message. */
  lemma ReactionPanics(g: u64, c: u64, n: u64, user: u64, image: bytes, count: u64)
    requires c != 0 && 2 <= n && n + 1 < TWO_64 && count >= 1
    ensures Reachable(Reacted(g, c, n, user, image)) && Channel(g, c) in Reacted(g, c, n, user, image)
    ensures View(RowsOf(Reacted(g, c, n, user, image))) == Reacted(g, c, n, user, image)
    ensures Answered(RowsOf(Reacted(g, c, n, user, image)), g, c, None, Before, count) == Err(BadIdLength)
  {
    hide Holding, Reachable, View, RowsOf, HasCounter, Dense;
    var typed, k := Reacted(g, c, n, user, image), Reaction(g, c, n - 1, user, image);
    ReactedFacts(g, c, n, user, image);
    ViewOfRows(typed);
    ReactionIsOddKey(RowsOf(typed), g, c, WindowStart(n, count), n, k);
    assert OddKeyInside(RowsOf(typed), g, c, WindowStart(n, count), n);
  }

  /** The messages of that channel are within reach without a gap, and still the walk ends in a panic. */
  lemma ReactedWalkPanics(g: u64, c: u64, n: u64, user: u64, image: bytes, count: u64)
    requires c != 0 && 2 <= n && n + 1 < TWO_64 && count >= 1
    ensures var rows := RowsOf(Reacted(g, c, n, user, image));
            && Reachable(View(rows)) && HasCounter(View(rows), g, c) && Counter(View(rows), g, c) == n + 1
            && WithinReach(View(rows), g, c, count, n)
            && Walk(rows, g, c, count, None).None?
  {
    hide Reachable, View, RowsOf, HasCounter, Keyed, Walk, Holding;
    var typed, k := Reacted(g, c, n, user, image), Reaction(g, c, n - 1, user, image);
    ReactedFacts(g, c, n, user, image);
    ViewOfRows(typed);
    assert k.InChannel(g, c) && 1 % (count + 1) != 0;
    DenseWalkPanicsIff(RowsOf(typed), g, c, count, None);
    DenseIsWithinReach(typed, g, c, count, n);
  }

  lemma DenseIsWithinReach(typed: Typed, g: u64, c: u64, count: u64, pivot: u64)
    requires HasCounter(typed, g, c) && Dense(typed, g, c) && pivot < Counter(typed, g, c)
    ensures WithinReach(typed, g, c, count, pivot)
  {
    hide HasCounter;
    forall m: u64 | 1 <= m <= pivot && Message(g, c, m) in typed
      ensures m + count >= pivot || exists n: u64 | m < n <= pivot && n <= m + count + 1 :: Message(g, c, n) in typed
    {
      if m < pivot {
        var n: u64 := m + 1;
        assert Message(g, c, n) in typed;
      }
    }
  }

  function GappedIds(count: u64): (ids: set<u64>)
    requires count + 4 < TWO_64
    ensures forall m: u64 :: m in ids <==> m == 1 || m == count + 3
  {
    {1} + (UpTo(count + 3) - UpTo(count + 2))
  }

  /** The first and the last of `count + 3` sent messages, after everything between them was deleted. */
  ghost function Gapped(g: u64, c: u64, count: u64): Typed
    requires count + 4 < TWO_64
  {
    Holding(g, c, count + 4, GappedIds(count))
  }

  lemma GappedFacts(g: u64, c: u64, count: u64)
    requires c != 0 && count + 4 < TWO_64
    ensures var typed := Gapped(g, c, count);
            && Reachable(typed) && HasCounter(typed, g, c) && Counter(typed, g, c) == count + 4
            && (forall m: u64 :: Message(g, c, m) in typed <==> m == 1 || m == count + 3)
            && (forall k | k in typed :: !k.Reaction?)
  {
    hide Holding, Reachable, HasCounter, Counter, UpTo;
    var ids := GappedIds(count);
    DeletionsHold(g, c, count + 3, count + 2);
    HoldingCounter(g, c, count + 4, ids);
    forall m: u64
      ensures Message(g, c, m) in Gapped(g, c, count) <==> m == 1 || m == count + 3
    {
      HoldingHas(g, c, count + 4, ids, Message(g, c, m));
    }
    forall k | k in Gapped(g, c, count)
      ensures !k.Reaction?
    {
      HoldingHas(g, c, count + 4, ids, k);
    }
  }

  /** For every page size: the walk through such a channel finishes and misses the first message. */
  lemma GapStopsWalk(g: u64, c: u64, count: u64)
    requires c != 0 && count + 4 < TWO_64
    ensures var rows := RowsOf(Gapped(g, c, count));
            && Reachable(View(rows)) && HasCounter(View(rows), g, c) && Counter(View(rows), g, c) == count + 4
            && Message(g, c, 1) in View(rows)
            && Walk(rows, g, c, count, None).Some?
            && Walk(rows, g, c, count, None).value.low > 1
  {
    hide Reachable, View, RowsOf, HasCounter, Keyed, Walk, Plan, Holding, Gapped, Windows;
    var typed := Gapped(g, c, count);
    GappedFacts(g, c, count);
    ViewOfRows(typed);
    WalkPanicsOnReactionIff(RowsOf(typed), g, c, count, None);
    WalkPanicsIff(RowsOf(typed), g, c, count, None);
    PlanStopsAboveGap(typed, g, c, count, None, 1);
  }
}
