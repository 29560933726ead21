/**
 * Ordering lists of channels and roles (`src/impls/chat/mod.rs`).
 *
 * `Reordered` is the placeholder edit of `update_order_logic`: insert a 0 at
 * the target, take the moved id out, overwrite the first 0 found with the id.
 * `Placed` says what a move is meant to do. The two agree exactly when no
 * other 0 gets in the way, which matters because 0 is also a real role.
 */
module Ordering {
  import opened Wrappers
  import opened Bytes

  datatype Side = Before | After

  datatype Position = Position(item: u64, side: Side)

  // ---- lists ----

  ghost predicate Distinct<T(!new)>(list: seq<T>) {
    forall i, j | 0 <= i < j < |list| :: list[i] != list[j]
  }

  /** `iter().position(..)`. */
  function IndexOf(list: seq<u64>, x: u64): (index: Option<nat>)
    ensures index.None? <==> x !in list
    ensures index.Some? ==> index.value < |list| && list[index.value] == x
    ensures index.Some? ==> forall j | 0 <= j < index.value :: list[j] != x
  {
    if |list| == 0 then None
    else if list[0] == x then Some(0)
    else
      match IndexOf(list[1..], x)
      case None => None
      case Some(i) => Some(i + 1)
  }

  function Inserted(list: seq<u64>, index: nat, x: u64): seq<u64>
    requires index <= |list|
  {
    list[..index] + [x] + list[index..]
  }

  function RemovedAt(list: seq<u64>, index: nat): seq<u64>
    requires index < |list|
  {
    list[..index] + list[index + 1..]
  }

  function RemovedFirst(list: seq<u64>, x: u64): seq<u64> {
    match IndexOf(list, x)
    case None => list
    case Some(i) => RemovedAt(list, i)
  }

  function Without(list: seq<u64>, x: u64): (rest: seq<u64>)
    ensures x !in rest
  {
    if |list| == 0 then []
    else if list[0] == x then Without(list[1..], x)
    else [list[0]] + Without(list[1..], x)
  }

  lemma {:induction false} WithoutMember(list: seq<u64>, x: u64, y: u64)
    requires y != x
    ensures y in Without(list, x) <==> y in list
  {
    if |list| > 0 {
      WithoutMember(list[1..], x, y);
    }
  }

  lemma {:induction false} WithoutConcat(a: seq<u64>, b: seq<u64>, x: u64)
    ensures Without(a + b, x) == Without(a, x) + Without(b, x)
  {
    if |a| == 0 {
      assert a + b == b;
    } else {
      assert (a + b)[1..] == a[1..] + b;
      WithoutConcat(a[1..], b, x);
    }
  }

  lemma {:induction false} WithoutAbsent(list: seq<u64>, x: u64)
    requires x !in list
    ensures Without(list, x) == list
  {
    if |list| > 0 {
      WithoutAbsent(list[1..], x);
    }
  }

  // ---- lists split around one element ----

  lemma SplitAt(list: seq<u64>, x: u64) returns (front: seq<u64>, back: seq<u64>)
    requires x in list
    ensures list == front + [x] + back && x !in front
    ensures IndexOf(list, x) == Some(|front|)
    ensures Distinct(list) ==> x !in back
  {
    var i := IndexOf(list, x).value;
    front, back := list[..i], list[i + 1..];
  }

  lemma PositionInConcat(front: seq<u64>, back: seq<u64>, x: u64)
    requires x !in front
    ensures IndexOf(front + [x] + back, x) == Some(|front|)
  {
    var list := front + [x] + back;
    assert list[|front|] == x;
    assert forall j | 0 <= j < |front| :: list[j] == front[j];
  }

  lemma RemovedFirstConcat(front: seq<u64>, back: seq<u64>, x: u64)
    requires x !in front
    ensures RemovedFirst(front + [x] + back, x) == front + back
  {
    PositionInConcat(front, back, x);
    assert (front + [x] + back)[|front| + 1..] == back;
  }

  lemma {:induction false} WithoutSplit(front: seq<u64>, back: seq<u64>, x: u64)
    requires x !in front && x !in back
    ensures Without(front + [x] + back, x) == front + back
  {
    var list := front + [x] + back;
    if |front| == 0 {
      assert list[1..] == back;
      WithoutAbsent(back, x);
    } else {
      assert list[1..] == front[1..] + [x] + back;
      WithoutSplit(front[1..], back, x);
    }
  }

  /** In a duplicate-free list, removing the first occurrence removes the id. */
  lemma RemovedFirstIsWithout(list: seq<u64>, x: u64)
    requires Distinct(list)
    ensures RemovedFirst(list, x) == Without(list, x)
    ensures Distinct(Without(list, x))
  {
    if x in list {
      var front, back := SplitAt(list, x);
      RemovedFirstConcat(front, back, x);
      WithoutSplit(front, back, x);
      DistinctParts(front, [x], back);
    } else {
      WithoutAbsent(list, x);
    }
  }

  lemma DistinctParts(a: seq<u64>, b: seq<u64>, c: seq<u64>)
    requires Distinct(a + b + c)
    ensures Distinct(a + c) && Distinct(a + b) && Distinct(b + c)
    ensures forall x | x in b :: x !in a && x !in c
    ensures forall x | x in a :: x !in c
  {
    var list := a + b + c;
    forall i | 0 <= i < |list|
      ensures i < |a| ==> list[i] == a[i]
      ensures |a| <= i < |a| + |b| ==> list[i] == b[i - |a|]
      ensures |a| + |b| <= i ==> list[i] == c[i - |a| - |b|]
    {
    }
    assert a + b == list[..|a| + |b|];
    assert b + c == list[|a|..];
    forall i, j | 0 <= i < j < |a + c|
      ensures (a + c)[i] != (a + c)[j]
    {
      var i' := if i < |a| then i else i + |b|;
      var j' := if j < |a| then j else j + |b|;
      assert (a + c)[i] == list[i'] && (a + c)[j] == list[j'];
    }
    forall x | x in b
      ensures x !in a && x !in c
    {
      var k :| 0 <= k < |b| && b[k] == x;
      assert list[|a| + k] == x;
    }
    forall x | x in a
      ensures x !in c
    {
      var k :| 0 <= k < |a| && a[k] == x;
      assert list[k] == x;
    }
  }

  // ---- the placeholder edit ----

  /** The list after the placeholder went in and the moved id came out. */
  function Pulled(list: seq<u64>, id: u64, index: nat): seq<u64>
    requires index <= |list|
  {
    RemovedFirst(Inserted(list, index, 0), id)
  }

  /** The unchecked unwrap in the source is defined exactly when this holds. */
  lemma PlaceholderFound(list: seq<u64>, id: u64, index: nat)
    requires index <= |list|
    ensures 0 in Pulled(list, id, index) <==> id != 0 || 0 in list
  {
    var held := Inserted(list, index, 0);
    assert held[index] == 0;
    if IndexOf(held, id).Some? {
      var i := IndexOf(held, id).value;
      var pulled := RemovedAt(held, i);
      if id != 0 {
        assert pulled[if i < index then index - 1 else index] == 0;
      } else if 0 in list {
        var z :| 0 <= z < |list| && list[z] == 0;
        assert held[if z < index then z else z + 1] == 0;
        var other := if z < index then index else z + 1;
        assert held[other] == 0 && i < other;
        assert pulled[other - 1] == 0;
      } else {
        forall j | 0 <= j < |pulled|
          ensures pulled[j] != 0
        {
          assert i == index;
          assert pulled[j] == list[j];
        }
      }
    }
  }

  function Moved(list: seq<u64>, id: u64, index: nat): seq<u64>
    requires index <= |list|
    requires id != 0 || 0 in list
  {
    PlaceholderFound(list, id, index);
    var pulled := Pulled(list, id, index);
    pulled[IndexOf(pulled, 0).value := id]
  }

  function Target(list: seq<u64>, position: Position): (index: Option<nat>)
    ensures index.Some? ==> index.value <= |list|
  {
    match IndexOf(list, position.item)
    case None => None
    case Some(i) => Some(if position.side.After? then i + 1 else i)
  }

  /** `update_order_logic` on the list; the requirement is what its unchecked unwrap needs. */
  function Reordered(list: seq<u64>, id: u64, position: Option<Position>): seq<u64>
    requires position.Some? && position.value.item in list ==> id != 0 || 0 in list
  {
    match position
    case None => list + [id]
    case Some(p) =>
      match Target(list, p)
      case None => list
      case Some(index) => Moved(list, id, index)
  }

  // ---- what the edit does ----

  lemma InsertedMultiset(list: seq<u64>, index: nat, x: u64)
    requires index <= |list|
    ensures multiset(Inserted(list, index, x)) == multiset(list) + multiset{x}
  {
    assert list == list[..index] + list[index..];
  }

  lemma RemovedAtMultiset(list: seq<u64>, index: nat)
    requires index < |list|
    ensures multiset(RemovedAt(list, index)) == multiset(list) - multiset{list[index]}
  {
    assert list == list[..index] + [list[index]] + list[index + 1..];
  }

  lemma RemovedFirstMultiset(list: seq<u64>, x: u64)
    ensures multiset(RemovedFirst(list, x)) == multiset(list) - multiset{x}
  {
    if x in list {
      RemovedAtMultiset(list, IndexOf(list, x).value);
    } else {
      assert x !in multiset(list);
    }
  }

  lemma UpdateMultiset(list: seq<u64>, i: nat, x: u64)
    requires i < |list|
    ensures multiset(list[i := x]) == multiset(list) - multiset{list[i]} + multiset{x}
  {
    assert list == list[..i] + [list[i]] + list[i + 1..];
    assert list[i := x] == list[..i] + [x] + list[i + 1..];
  }

  /** Nothing is lost or duplicated by a move, in any list, role lists included. */
  lemma MoveKeepsMultiset(list: seq<u64>, id: u64, index: nat)
    requires index <= |list|
    requires id != 0 || 0 in list
    ensures id in list ==> multiset(Moved(list, id, index)) == multiset(list)
    ensures id !in list ==> multiset(Moved(list, id, index)) == multiset(list) + multiset{id}
  {
    PlaceholderFound(list, id, index);
    var held, pulled := Inserted(list, index, 0), Pulled(list, id, index);
    var h, p, m := multiset(held), multiset(pulled), multiset(Moved(list, id, index));
    assert h == multiset(list) + multiset{0} by {
      InsertedMultiset(list, index, 0);
    }
    assert p == h - multiset{id} by {
      RemovedFirstMultiset(held, id);
    }
    assert m == p - multiset{0} + multiset{id} by {
      UpdateMultiset(pulled, IndexOf(pulled, 0).value, id);
    }
    MultisetSteps(multiset(list), h, p, m, id);
  }

  lemma MultisetSteps(l: multiset<u64>, h: multiset<u64>, p: multiset<u64>, m: multiset<u64>, id: u64)
    requires h == l + multiset{0} && p == h - multiset{id} && m == p - multiset{0} + multiset{id}
    requires id != 0 || 0 in l
    ensures m == if id in l then l else l + multiset{id}
  {
  }

  // ---- role orderings over runs ----

  datatype RoleOp = AddRole(id: u64) | MoveRole(id: u64, to: Position)

  /** A role request on the role ordering; `None` is the unchecked unwrap gone wrong. */
  function RolesAfter(list: seq<u64>, op: RoleOp): Option<seq<u64>> {
    match op
    case AddRole(id) => Some(Reordered(list, id, None))
    case MoveRole(id, to) =>
      if to.item in list && id == 0 && 0 !in list then None else Some(Reordered(list, id, Some(to)))
  }

  function RolesRun(list: seq<u64>, ops: seq<RoleOp>): Option<seq<u64>>
    decreases |ops|
  {
    if |ops| == 0 then Some(list)
    else
      match RolesAfter(list, ops[0])
      case None => None
      case Some(next) => RolesRun(next, ops[1..])
  }

  /** The default role is never lost from the ordering, wherever it is moved. */
  lemma ReorderedKeepsZero(list: seq<u64>, id: u64, position: Option<Position>)
    requires 0 in list
    ensures 0 in Reordered(list, id, position)
  {
    if position.Some? && Target(list, position.value).Some? {
      var index := Target(list, position.value).value;
      MoveKeepsMultiset(list, id, index);
      assert 0 in multiset(list);
      assert 0 in multiset(Moved(list, id, index));
    }
  }

  /** From a guild's creation on, when the ordering holds the default role alone, no role request goes wrong. */
  lemma NoRoleRunCrashes(ops: seq<RoleOp>, op: RoleOp)
    ensures RolesRun([0], ops).Some? && 0 in RolesRun([0], ops).value
    ensures RolesAfter(RolesRun([0], ops).value, op).Some?
  {
    RoleRunKeepsZero([0], ops);
  }

  lemma {:induction false} RoleRunKeepsZero(list: seq<u64>, ops: seq<RoleOp>)
    requires 0 in list
    ensures RolesRun(list, ops).Some? && 0 in RolesRun(list, ops).value
    decreases |ops|
  {
    if |ops| > 0 {
      ReorderedKeepsZero(list, ops[0].id, if ops[0].AddRole? then None else Some(ops[0].to));
      RoleRunKeepsZero(RolesAfter(list, ops[0]).value, ops[1..]);
    }
  }

  // ---- what a move is for ----

  /** What a move is for: the id alone at the target, everyone else in the old order. */
  function Placed(list: seq<u64>, id: u64, index: nat): seq<u64>
    requires index <= |list|
  {
    Without(list[..index], id) + [id] + Without(list[index..], id)
  }

  lemma PulledFromFront(f1: seq<u64>, f2: seq<u64>, back: seq<u64>, id: u64)
    requires id !in f1
    ensures RemovedFirst((f1 + [id] + f2) + [0] + back, id) == (f1 + f2) + [0] + back
  {
    Assoc(f1 + [id], f2, [0]);
    Assoc(f1 + [id], f2 + [0], back);
    Assoc(f1, f2, [0]);
    Assoc(f1, f2 + [0], back);
    RemovedFirstConcat(f1, f2 + [0] + back, id);
  }

  lemma Assoc(a: seq<u64>, b: seq<u64>, c: seq<u64>)
    ensures (a + b) + c == a + (b + c)
  {
  }

  lemma PulledFromBack(front: seq<u64>, b1: seq<u64>, b2: seq<u64>, id: u64)
    requires id !in front && id !in b1 && id != 0
    ensures RemovedFirst(front + [0] + (b1 + [id] + b2), id) == front + [0] + (b1 + b2)
  {
    var held := front + [0];
    Assoc(held, b1 + [id], b2);
    Assoc(held, b1, [id]);
    Assoc(held, b1, b2);
    assert id !in held + b1;
    RemovedFirstConcat(held + b1, b2, id);
  }

  lemma Disjoint(front: seq<u64>, back: seq<u64>, x: u64)
    requires Distinct(front + back) && x in front
    ensures x !in back
  {
    var i :| 0 <= i < |front| && front[i] == x;
    assert (front + back)[i] == x;
    assert forall j | 0 <= j < |back| :: (front + back)[|front| + j] == back[j];
  }

  lemma DistinctFront(front: seq<u64>, back: seq<u64>)
    requires Distinct(front + back)
    ensures Distinct(front) && Distinct(back)
  {
    assert front == (front + back)[..|front|];
    assert back == (front + back)[|front|..];
  }

  /** What precedes and follows the placeholder once the moved id is out. */
  lemma PulledShape(front: seq<u64>, back: seq<u64>, id: u64)
    requires Distinct(front + back) && id != 0
    ensures RemovedFirst(front + [0] + back, id) == Without(front, id) + [0] + Without(back, id)
  {
    DistinctFront(front, back);
    if id in front {
      Disjoint(front, back, id);
      var f1, f2 := SplitAt(front, id);
      PulledFromFront(f1, f2, back, id);
      WithoutSplit(f1, f2, id);
      WithoutAbsent(back, id);
    } else {
      WithoutAbsent(front, id);
      if id in back {
        var b1, b2 := SplitAt(back, id);
        PulledFromBack(front, b1, b2, id);
        WithoutSplit(b1, b2, id);
      } else {
        WithoutAbsent(back, id);
      }
    }
  }

  /** The first 0 of `front + [0] + back` is the placeholder unless `front` has one. */
  lemma PlaceholderOverwritten(front: seq<u64>, back: seq<u64>, id: u64)
    ensures var held := front + [0] + back;
            && IndexOf(held, 0).Some?
            && var written := held[IndexOf(held, 0).value := id];
            && |written| == |held|
            && (0 !in front ==> written == front + [id] + back)
            && (0 in front ==> written[|front|] == 0)
  {
    var held := front + [0] + back;
    assert held[|front|] == 0;
    if 0 in front {
      var i :| 0 <= i < |front| && front[i] == 0;
      assert held[i] == 0;
    } else {
      PositionInConcat(front, back, 0);
    }
  }

  /** For any id but 0, the edit is the intended move exactly when no 0 is listed before the target. */
  lemma MoveIsExactIff(list: seq<u64>, id: u64, index: nat)
    requires index <= |list| && Distinct(list) && id != 0
    ensures Moved(list, id, index) == Placed(list, id, index) <==> 0 !in list[..index]
  {
    var front, back := Without(list[..index], id), Without(list[index..], id);
    assert list[..index] + list[index..] == list;
    PulledShape(list[..index], list[index..], id);
    PlaceholderOverwritten(front, back, id);
    WithoutMember(list[..index], id, 0);
    assert Placed(list, id, index)[|front|] == id;
  }

  /** Moving 0 itself works exactly when it moves towards the end or stays. */
  lemma MoveOfZeroIsExactIff(list: seq<u64>, index: nat)
    requires index <= |list| && Distinct(list) && 0 in list
    ensures Moved(list, 0, index) == Placed(list, 0, index) <==> IndexOf(list, 0).value <= index
  {
    var front, back := list[..index], list[index..];
    assert list == front + back;
    DistinctFront(front, back);
    if 0 in front {
      Disjoint(front, back, 0);
      var f1, f2 := SplitAt(front, 0);
      MoveOfEarlierZero(f1, f2, back);
    } else {
      var b1, b2 := SplitAt(back, 0);
      MoveOfLaterZero(front, b1, b2);
      assert front + (b1 + [0] + b2) == list;
    }
  }

  lemma MoveOfEarlierZero(f1: seq<u64>, f2: seq<u64>, back: seq<u64>)
    requires 0 !in f1 && 0 !in f2 && 0 !in back
    ensures var list := f1 + [0] + f2 + back;
            var index := |f1| + 1 + |f2|;
            && 0 in list
            && Moved(list, 0, index) == Placed(list, 0, index)
            && IndexOf(list, 0).value < index
  {
    var list, index := f1 + [0] + f2 + back, |f1| + 1 + |f2|;
    assert list[|f1|] == 0;
    assert list[..index] == f1 + [0] + f2 && list[index..] == back;
    PulledFromFront(f1, f2, back, 0);
    PlaceholderOverwritten(f1 + f2, back, 0);
    WithoutSplit(f1, f2, 0);
    WithoutAbsent(back, 0);
  }

  lemma MoveOfLaterZero(front: seq<u64>, b1: seq<u64>, b2: seq<u64>)
    requires 0 !in front && 0 !in b1 && 0 !in b2
    ensures var list := front + (b1 + [0] + b2);
            && 0 in list
            && Moved(list, 0, |front|) == list
            && IndexOf(list, 0) == Some(|front| + |b1|)
            && (list == Placed(list, 0, |front|) <==> b1 == [])
  {
    var back := b1 + [0] + b2;
    var list := front + back;
    assert IndexOf(list, 0) == Some(|front| + |b1|) by {
      assert list == (front + b1) + [0] + b2;
      PositionInConcat(front + b1, b2, 0);
    }
    PlaceholderPulledAgain(front, back);
    assert Placed(list, 0, |front|) == front + [0] + (b1 + b2) by {
      assert list[..|front|] == front && list[|front|..] == back;
      WithoutAbsent(front, 0);
      WithoutSplit(b1, b2, 0);
    }
    ZeroAfter(front, b1, b2);
  }

  /** With no 0 before it, the placeholder itself is the first 0 and comes straight out again. */
  lemma PlaceholderPulledAgain(front: seq<u64>, back: seq<u64>)
    requires 0 !in front && 0 in front + back
    ensures Moved(front + back, 0, |front|) == front + back
  {
    var list := front + back;
    assert list[..|front|] == front && list[|front|..] == back;
    RemovedFirstConcat(front, back, 0);
  }

  lemma ZeroAfter(front: seq<u64>, b1: seq<u64>, b2: seq<u64>)
    requires 0 !in b1
    ensures front + (b1 + [0] + b2) == front + [0] + (b1 + b2) <==> b1 == []
  {
    var list, placed := front + (b1 + [0] + b2), front + [0] + (b1 + b2);
    if b1 != [] {
      assert list[|front|] == b1[0] && placed[|front|] == 0;
    }
  }

  /** `id` stands directly on the asked side of the anchor. */
  ghost predicate Adjacent(list: seq<u64>, id: u64, position: Position) {
    exists j | 0 <= j < |list| - 1 ::
      if position.side.After? then list[j] == position.item && list[j + 1] == id
      else list[j] == id && list[j + 1] == position.item
  }

  /** A placed id is there once, and the others keep their order. */
  lemma PlacedCorrect(list: seq<u64>, id: u64, index: nat)
    requires index <= |list| && Distinct(list)
    ensures var placed := Placed(list, id, index);
            && Distinct(placed)
            && Without(placed, id) == Without(list, id)
            && (forall x :: x in placed <==> x in list || x == id)
  {
    var front, back := Without(list[..index], id), Without(list[index..], id);
    assert list == list[..index] + list[index..];
    WithoutConcat(list[..index], list[index..], id);
    WithoutSplit(front, back, id);
    RemovedFirstIsWithout(list, id);
    DistinctInsert(front, back, id);
    var placed := front + [id] + back;
    forall x
      ensures x in placed <==> x in list || x == id
    {
      if x != id {
        WithoutMember(list, id, x);
        assert x in placed <==> x in front + back;
      } else {
        assert placed[|front|] == id;
      }
    }
  }

  /** A move next to a listed anchor does what was asked and nothing else. */
  lemma MoveCorrect(list: seq<u64>, id: u64, position: Position)
    requires Distinct(list) && 0 !in list && id != 0
    requires position.item in list && position.item != id
    ensures var moved := Reordered(list, id, Some(position));
            && Distinct(moved)
            && Adjacent(moved, id, position)
            && Without(moved, id) == Without(list, id)
            && (forall x :: x in moved <==> x in list || x == id)
  {
    hide Moved;
    var before, after := SplitAt(list, position.item);
    var index := Target(list, position).value;
    MoveIsExactIff(list, id, index);
    PlacedCorrect(list, id, index);
    var placed := Placed(list, id, index);
    var front := Without(list[..index], id);
    if position.side.After? {
      assert list[..index] == before + [position.item];
      WithoutConcat(before, [position.item], id);
      assert placed[|front| - 1] == position.item && placed[|front|] == id;
    } else {
      assert list[index..] == [position.item] + after;
      WithoutConcat([position.item], after, id);
      assert placed[|front|] == id && placed[|front| + 1] == position.item;
    }
  }

  lemma DistinctInsert(front: seq<u64>, back: seq<u64>, x: u64)
    requires Distinct(front + back) && x !in front && x !in back
    ensures Distinct(front + [x] + back)
  {
    var list, rest := front + [x] + back, front + back;
    forall i, j | 0 <= i < j < |list|
      ensures list[i] != list[j]
    {
      var i' := if i < |front| then i else i - 1;
      var j' := if j < |front| then j else j - 1;
      if i != |front| {
        assert list[i] == rest[i'];
      }
      if j != |front| {
        assert list[j] == rest[j'];
      }
    }
  }

  lemma RoleMoveSteps(a: u64, b: u64)
    requires a != 0 && b != 0 && a != b
    ensures Pulled([0, a, b], b, 1) == [0, 0, a]
    ensures Placed([0, a, b], b, 1) == [0, b, a]
  {
    var list: seq<u64> := [0, a, b];
    assert list[..1] == [0] && list[1..] == [a, b] && [0] + [a, b] == list;
    PulledShape([0], [a, b], b);
    WithoutAbsent([0], b);
    WithoutAbsent([a], b);
    assert [a, b] == [a] + [b] + [];
    WithoutSplit([a], [], b);
  }

  /**
   * In a guild with the default role 0 and two more, moving the last one before
   * the other overwrites role 0 and leaves the placeholder in its stead: the
   * moved role comes out first instead of second.
   */
  lemma RoleMoveMisplaces(a: u64, b: u64)
    requires a != 0 && b != 0 && a != b
    ensures Reordered([0, a, b], b, Some(Position(a, Before))) == [b, 0, a]
    ensures Target([0, a, b], Position(a, Before)) == Some(1) && Placed([0, a, b], b, 1) == [0, b, a]
  {
    RoleMoveSteps(a, b);
    var list: seq<u64> := [0, a, b];
    assert list == [0] + [a] + [b];
    PositionInConcat([0], [b], a);
    var pulled: seq<u64> := [0, 0, a];
    assert IndexOf(pulled, 0) == Some(0);
    assert pulled[0 := b] == [b, 0, a];
  }

  /** Asking for a position next to itself leaves a duplicate-free list as it was. */
  lemma MoveNextToItself(list: seq<u64>, id: u64, side: Side)
    requires Distinct(list) && 0 !in list && id in list
    ensures Reordered(list, id, Some(Position(id, side))) == list
  {
    var front, back := SplitAt(list, id);
    var index := if side.After? then |front| + 1 else |front|;
    MoveIsExactIff(list, id, index);
    PlacedBesideItself(front, back, id);
  }

  lemma PlacedBesideItself(front: seq<u64>, back: seq<u64>, id: u64)
    requires id !in front && id !in back
    ensures var list := front + [id] + back;
            Placed(list, id, |front|) == Placed(list, id, |front| + 1) == list
  {
    var list := front + [id] + back;
    assert list[..|front|] == front && list[|front|..] == [id] + back;
    assert list[..|front| + 1] == front + [id] && list[|front| + 1..] == back;
    assert Without(front, id) == front && Without(back, id) == back by {
      WithoutAbsent(front, id);
      WithoutAbsent(back, id);
    }
    assert Without([id] + back, id) == back;
    assert Without(front + [id], id) == front by {
      WithoutSplit(front, [], id);
      assert front + [id] + [] == front + [id];
    }
  }

  /** Duplicate-freeness and membership, for every request a channel list can get. */
  lemma ReorderedKeepsDistinct(list: seq<u64>, id: u64, position: Option<Position>)
    requires Distinct(list) && 0 !in list && id != 0
    requires position.None? ==> id !in list
    ensures Distinct(Reordered(list, id, position))
    ensures position.None? || position.value.item in list ==>
              forall x :: x in Reordered(list, id, position) <==> x in list || x == id
    ensures position.Some? && position.value.item !in list ==> Reordered(list, id, position) == list
  {
    if position.Some? && position.value.item in list {
      if position.value.item == id {
        MoveNextToItself(list, id, position.value.side);
      } else {
        MoveCorrect(list, id, position.value);
      }
    }
  }

  // ---- the swap sort of get_guild_channels_logic ----

  datatype ChannelWithId = ChannelWithId(id: u64, channel: bytes)

  ghost function IdSet(channels: seq<ChannelWithId>): set<u64> {
    set c | c in channels :: c.id
  }

  ghost predicate DistinctIds(channels: seq<ChannelWithId>) {
    forall i, j | 0 <= i < j < |channels| :: channels[i].id != channels[j].id
  }

  ghost function Elements(list: seq<u64>): set<u64> {
    set x | x in list
  }

  lemma {:induction false} DistinctCount(list: seq<u64>)
    requires Distinct(list)
    ensures |Elements(list)| == |list|
  {
    if |list| > 0 {
      DistinctCount(list[1..]);
      assert Elements(list) == {list[0]} + Elements(list[1..]);
    }
  }

  lemma {:induction false} DistinctIdsCount(channels: seq<ChannelWithId>)
    requires DistinctIds(channels)
    ensures |IdSet(channels)| == |channels|
  {
    if |channels| > 0 {
      DistinctIdsCount(channels[1..]);
      assert IdSet(channels) == {channels[0].id} + IdSet(channels[1..]);
    }
  }

  lemma SubsetOfSameSize(a: set<u64>, b: set<u64>)
    requires a <= b && |b| <= |a|
    ensures a == b
  {
    if x :| x in b && x !in a {
      assert |b - {x}| < |b|;
      SubsetSize(a, b - {x});
    }
  }

  lemma {:induction false} SubsetSize(a: set<u64>, b: set<u64>)
    requires a <= b
    ensures |a| <= |b|
  {
    if a != {} {
      var x :| x in a;
      SubsetSize(a - {x}, b - {x});
    }
  }

  /** A listed channel standing past the end of the visible ones: the swap would be out of bounds. */
  ghost predicate SwapOutOfBounds(visible: seq<ChannelWithId>, ordering: seq<u64>) {
    exists k | |visible| <= k < |ordering| :: ordering[k] in IdSet(visible)
  }

  /** The loop stays in bounds exactly when the visible channels are the first ones of the ordering. */
  lemma SwapStaysInBoundsIff(visible: seq<ChannelWithId>, ordering: seq<u64>)
    requires Sortable(visible, ordering)
    ensures |visible| <= |ordering|
    ensures !SwapOutOfBounds(visible, ordering) <==> IdSet(visible) == Elements(ordering[..|visible|])
  {
    DistinctIdsCount(visible);
    DistinctCount(ordering);
    SubsetSize(IdSet(visible), Elements(ordering));
    var head := ordering[..|visible|];
    DistinctCount(head);
    if !SwapOutOfBounds(visible, ordering) {
      forall x | x in IdSet(visible)
        ensures x in Elements(head)
      {
        var k :| 0 <= k < |ordering| && ordering[k] == x;
        assert head[k] == x;
      }
      SubsetOfSameSize(IdSet(visible), Elements(head));
    }
  }

  /**
   * Puts the visible channels into the stored order by swapping, in place.
   * `panicked` is the out-of-bounds panic of `channels.swap`.
   */
  method SortBySwaps(channels: array<ChannelWithId>, ordering: seq<u64>) returns (panicked: bool)
    modifies channels
    ensures panicked <==> SwapOutOfBounds(old(channels[..]), ordering)
    ensures multiset(channels[..]) == multiset(old(channels[..]))
    ensures !panicked && Sortable(old(channels[..]), ordering) ==>
              && channels.Length <= |ordering|
              && forall i | 0 <= i < channels.Length :: channels[i].id == ordering[i]
  {
    ghost var visible := channels[..];
    ghost var sortable := Sortable(visible, ordering) && !SwapOutOfBounds(visible, ordering);
    if sortable {
      SwapStaysInBoundsIff(visible, ordering);
    }
    var next := 0;
    while next < |ordering|
      invariant 0 <= next <= |ordering|
      invariant multiset(channels[..]) == multiset(visible)
      invariant forall k | channels.Length <= k < next :: ordering[k] !in IdSet(visible)
      invariant sortable ==> forall i | 0 <= i < next && i < channels.Length :: channels[i].id == ordering[i]
    {
      if sortable && next < channels.Length {
        HeadIsVisible(visible, ordering, next);
      }
      var found := FindChannel(channels, ordering[next]);
      SameIdSet(channels[..], visible);
      if found.Some? {
        if next >= channels.Length {
          return true;
        }
        assert sortable ==> next <= found.value;
        SwapChannels(channels, next, found.value);
      }
      next := next + 1;
    }
    panicked := false;
  }

  ghost predicate Sortable(visible: seq<ChannelWithId>, ordering: seq<u64>) {
    Distinct(ordering) && DistinctIds(visible) && IdSet(visible) <= Elements(ordering)
  }

  lemma HeadIsVisible(visible: seq<ChannelWithId>, ordering: seq<u64>, k: nat)
    requires Sortable(visible, ordering) && !SwapOutOfBounds(visible, ordering)
    requires k < |visible| && k < |ordering|
    ensures ordering[k] in IdSet(visible)
  {
    SwapStaysInBoundsIff(visible, ordering);
    assert ordering[..|visible|][k] in Elements(ordering[..|visible|]);
  }

  method SwapChannels(channels: array<ChannelWithId>, i: nat, j: nat)
    requires i < channels.Length && j < channels.Length
    modifies channels
    ensures channels[i] == old(channels[j]) && channels[j] == old(channels[i])
    ensures forall k | 0 <= k < channels.Length && k != i && k != j :: channels[k] == old(channels[k])
    ensures multiset(channels[..]) == multiset(old(channels[..]))
  {
    channels[i], channels[j] := channels[j], channels[i];
  }

  method FindChannel(channels: array<ChannelWithId>, id: u64) returns (index: Option<nat>)
    ensures index.Some? ==> index.value < channels.Length && channels[index.value].id == id
    ensures index.Some? <==> id in IdSet(channels[..])
  {
    for i := 0 to channels.Length
      invariant forall j | 0 <= j < i :: channels[j].id != id
    {
      if channels[i].id == id {
        assert channels[..][i].id in IdSet(channels[..]);
        return Some(i);
      }
    }
    index := None;
  }

  lemma SameIdSet(a: seq<ChannelWithId>, b: seq<ChannelWithId>)
    requires multiset(a) == multiset(b)
    ensures IdSet(a) == IdSet(b)
  {
    forall c: ChannelWithId
      ensures c in a <==> c in b
    {
      assert c in a <==> c in multiset(a);
      assert c in b <==> c in multiset(b);
    }
  }
}
