/**
 * Channels that requests lead to from an empty store: one channel in which
 * messages were sent and some of them deleted.
 */
module ChannelHistories {
  import opened Wrappers
  import opened Bytes
  import opened ChatKeys
  import opened ChatStore
  import opened Channels

  /** Well-formed requests lead from the empty store to this one. */
  ghost predicate Reachable(typed: Typed) {
    exists ops :: Reaches(map[], ops, typed)
  }

  lemma {:induction false} ReachesThen(start: Typed, ops: seq<Op>, mid: Typed, op: Op, end: Typed)
    requires Reaches(start, ops, mid) && WellFormed(mid, op) && Step(mid, op) == Some(end)
    ensures Reaches(start, ops + [op], end)
    decreases |ops|
  {
    hide WellFormed, Step;
    if |ops| == 0 {
      assert ops + [op] == [op] && [op][1..] == [];
      assert Reaches(end, [], end);
    } else {
      assert (ops + [op])[0] == ops[0] && (ops + [op])[1..] == ops[1..] + [op];
      ReachesThen(Step(start, ops[0]).value, ops[1..], mid, op, end);
    }
  }

  lemma StepReaches(typed: Typed, op: Op, end: Typed)
    requires Reachable(typed) && WellFormed(typed, op) && Step(typed, op) == Some(end)
    ensures Reachable(end)
  {
    hide WellFormed, Step;
    var ops :| Reaches(map[], ops, typed);
    ReachesThen(map[], ops, typed, op, end);
  }

  /** The only channel of the store, with the next id `next` and the messages `ids`. */
  ghost function Holding(g: u64, c: u64, next: u64, ids: set<u64>): Typed {
    map[Channel(g, c) := [], ChannelOrder(g) := EncodeIds([c]), NextId(g, c) := Id(next)]
    + map m: u64 | m in ids :: Message(g, c, m) := []
  }

  lemma HoldingHas(g: u64, c: u64, next: u64, ids: set<u64>, k: ChatKey)
    ensures var typed := Holding(g, c, next, ids);
            && (k in typed <==> k == Channel(g, c) || k == ChannelOrder(g) || k == NextId(g, c)
                                || (k.Message? && k.g == g && k.c == c && k.m in ids))
            && (k in typed && (k.Message? || k.Channel?) ==> typed[k] == [])
            && (k == NextId(g, c) ==> typed[k] == Id(next))
            && (k == ChannelOrder(g) ==> typed[k] == EncodeIds([c]))
  {
  }

  lemma HoldingCounter(g: u64, c: u64, next: u64, ids: set<u64>)
    ensures HasCounter(Holding(g, c, next, ids), g, c) && Counter(Holding(g, c, next, ids), g, c) == next
  {
    HoldingHas(g, c, next, ids, NextId(g, c));
  }

  lemma CreationHolds(g: u64, c: u64)
    requires c != 0
    ensures Reachable(Holding(g, c, 1, {}))
  {
    var op := Op.CreateChannel(g, c, [], None);
    var start: Typed := map[];
    assert Order(start, g) == [] && [] + [c] == [c];
    assert Performed(start, op) == Holding(g, c, 1, {});
    assert Reaches(start, [], start) && Reachable(start);
    StepReaches(start, op, Holding(g, c, 1, {}));
  }

  lemma SentRowsHold(g: u64, c: u64, next: u64, ids: set<u64>)
    requires next + 1 < TWO_64
    ensures Holding(g, c, next, ids)[NextId(g, c) := Id(next + 1)][Message(g, c, next) := []]
         == Holding(g, c, next + 1, ids + {next})
  {
    hide Holding;
    var after := Holding(g, c, next, ids)[NextId(g, c) := Id(next + 1)][Message(g, c, next) := []];
    var end := Holding(g, c, next + 1, ids + {next});
    forall k
      ensures k in after <==> k in end
      ensures k in after ==> after[k] == end[k]
    {
      HoldingHas(g, c, next, ids, k);
      HoldingHas(g, c, next + 1, ids + {next}, k);
      HoldingRows(g, c, next, ids, next + 1, ids + {next}, k);
    }
  }

  /** Rows other than the counter do not depend on it. */
  lemma HoldingRows(g: u64, c: u64, next: u64, ids: set<u64>, next': u64, ids': set<u64>, k: ChatKey)
    ensures var one, other := Holding(g, c, next, ids), Holding(g, c, next', ids');
            k in one && k in other && k != NextId(g, c) ==> one[k] == other[k]
  {
    HoldingHas(g, c, next, ids, k);
    HoldingHas(g, c, next', ids', k);
  }

  lemma SendHolds(g: u64, c: u64, next: u64, ids: set<u64>)
    requires next + 1 < TWO_64
    ensures WellFormed(Holding(g, c, next, ids), Op.SendMessage(g, c, []))
    ensures Step(Holding(g, c, next, ids), Op.SendMessage(g, c, [])) == Some(Holding(g, c, next + 1, ids + {next}))
  {
    hide Holding, HasCounter, Counter, Id, ReadId;
    HoldingCounter(g, c, next, ids);
    HoldingHas(g, c, next, ids, Channel(g, c));
    SentRowsHold(g, c, next, ids);
    assert NextCounter(next) == next + 1;
  }

  lemma DeletedRowsHold(g: u64, c: u64, next: u64, ids: set<u64>, m: u64)
    requires m in ids
    ensures Holding(g, c, next, ids) - {Message(g, c, m)} == Holding(g, c, next, ids - {m})
  {
    hide Holding;
    var after, end := Holding(g, c, next, ids) - {Message(g, c, m)}, Holding(g, c, next, ids - {m});
    forall k
      ensures k in after <==> k in end
      ensures k in after ==> after[k] == end[k]
    {
      HoldingHas(g, c, next, ids, k);
      HoldingHas(g, c, next, ids - {m}, k);
      HoldingRows(g, c, next, ids, next, ids - {m}, k);
    }
  }

  lemma DeletionHolds(g: u64, c: u64, next: u64, ids: set<u64>, m: u64)
    requires m in ids
    ensures WellFormed(Holding(g, c, next, ids), Op.DeleteMessage(g, c, m))
    ensures Step(Holding(g, c, next, ids), Op.DeleteMessage(g, c, m)) == Some(Holding(g, c, next, ids - {m}))
  {
    hide Holding;
    HoldingHas(g, c, next, ids, Channel(g, c));
    HoldingHas(g, c, next, ids, Message(g, c, m));
    DeletedRowsHold(g, c, next, ids, m);
  }

  function UpTo(n: u64): (ids: set<u64>)
    ensures forall m: u64 :: m in ids <==> 1 <= m <= n
  {
    if n == 0 then {} else UpTo(n - 1) + {n}
  }

  /** Sending n messages leads to the channel with the ids 1 to n. */
  lemma {:induction false} SendsHold(g: u64, c: u64, n: u64)
    requires c != 0 && n + 1 < TWO_64
    ensures Reachable(Holding(g, c, n + 1, UpTo(n)))
    decreases n
  {
    hide Reachable, Holding, WellFormed, Step;
    if n == 0 {
      assert UpTo(0) == {};
      CreationHolds(g, c);
    } else {
      SendsHold(g, c, n - 1);
      SendHolds(g, c, n, UpTo(n - 1));
      assert UpTo(n - 1) + {n} == UpTo(n);
      StepReaches(Holding(g, c, n, UpTo(n - 1)), Op.SendMessage(g, c, []), Holding(g, c, n + 1, UpTo(n)));
    }
  }

  /** Deleting all but the first and the last of them leads to a channel with a gap. */
  lemma {:induction false} DeletionsHold(g: u64, c: u64, n: u64, k: u64)
    requires c != 0 && n + 1 < TWO_64 && 1 <= k < n
    ensures Reachable(Holding(g, c, n + 1, {1} + (UpTo(n) - UpTo(k))))
    decreases k
  {
    hide Reachable, Holding, WellFormed, Step;
    if k == 1 {
      SendsHold(g, c, n);
      assert {1} + (UpTo(n) - UpTo(1)) == UpTo(n);
    } else {
      DeletionsHold(g, c, n, k - 1);
      var ids := {1} + (UpTo(n) - UpTo(k - 1));
      assert k in ids && ids - {k} == {1} + (UpTo(n) - UpTo(k));
      DeletionHolds(g, c, n + 1, ids, k);
      StepReaches(Holding(g, c, n + 1, ids), Op.DeleteMessage(g, c, k), Holding(g, c, n + 1, ids - {k}));
    }
  }

  /** A reaction row is written next to the messages. */
  lemma ReactionHolds(typed: Typed, g: u64, c: u64, m: u64, user: u64, image: bytes)
    requires Reachable(typed)
    ensures Reachable(typed[Reaction(g, c, m, user, image) := []])
  {
    var op := WriteOther(Reaction(g, c, m, user, image), Some([]));
    StepReaches(typed, op, typed[Reaction(g, c, m, user, image) := []]);
  }
}
