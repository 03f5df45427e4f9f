/**
 * The three priority queues of the weighted searches. Each keeps its items
 * in a sequence, appends on enqueue and then sorts the whole sequence with
 * the JavaScript `Array.prototype.sort`, which is stable; dequeue removes
 * the head. A stable sort has exactly one result, the one insertion sort
 * gives, so the sort is modelled as insertion sort.
 */
module PriorityQueues {
  import opened Types

  /** A sort key: compared on `primary` first, then on `secondary`. */
  datatype Key = Key(primary: Score, secondary: int)

  /** `Infinity` is above every finite score and equal to itself. */
  predicate ScoreLt(a: Score, b: Score) {
    match (a, b)
    case (Finite(x), Finite(y)) => x < y
    case (Finite(_), Infinity) => true
    case (Infinity, _) => false
  }

  /** The comparator: `a` sorts strictly before `b`. */
  predicate KeyLt(a: Key, b: Key) {
    ScoreLt(a.primary, b.primary) || (a.primary == b.primary && a.secondary < b.secondary)
  }

  /** `a` may sort before `b`. */
  predicate KeyLe(a: Key, b: Key) {
    !KeyLt(b, a)
  }

  /** The comparator is a strict weak order: irreflexive, transitive, total up to ties. */
  lemma KeyOrder(a: Key, b: Key, c: Key)
    ensures !KeyLt(a, a)
    ensures KeyLt(a, b) && KeyLt(b, c) ==> KeyLt(a, c)
    ensures KeyLe(a, b) && KeyLe(b, c) ==> KeyLe(a, c)
    ensures KeyLe(a, b) || KeyLe(b, a)
  {
  }

  ghost predicate SortedBy<T>(s: seq<T>, key: T -> Key) {
    forall i, j :: 0 <= i < j < |s| ==> KeyLe(key(s[i]), key(s[j]))
  }

  /** Insert `x` in front of the first item that sorts strictly after it. */
  function Insert<T>(s: seq<T>, x: T, key: T -> Key): (r: seq<T>)
    ensures multiset(r) == multiset(s) + multiset{x}
  {
    if s == [] then [x]
    else if KeyLt(key(x), key(s[0])) then [x] + s
    else
      assert s == [s[0]] + s[1..];
      [s[0]] + Insert(s[1..], x, key)
  }

  /** Where `Insert` puts `x`: after every item it does not sort strictly before. */
  function InsertionPoint<T>(s: seq<T>, x: T, key: T -> Key): (k: nat)
    ensures k <= |s|
    ensures forall i :: 0 <= i < k ==> KeyLe(key(s[i]), key(x))
  {
    if s == [] || KeyLt(key(x), key(s[0])) then 0 else 1 + InsertionPoint(s[1..], x, key)
  }

  /** `Insert` puts `x` at the insertion point and shifts the items after it by one. */
  lemma {:induction false} InsertAt<T>(s: seq<T>, x: T, key: T -> Key)
    ensures var r, k := Insert(s, x, key), InsertionPoint(s, x, key);
      && |r| == |s| + 1 && r[k] == x
      && (forall i :: 0 <= i < k ==> r[i] == s[i])
      && (forall i :: k < i < |r| ==> r[i] == s[i - 1])
  {
    if s == [] {
    } else if KeyLt(key(x), key(s[0])) {
      var r := Insert(s, x, key);
      assert r == [x] + s;
      assert forall i :: 0 < i < |r| ==> r[i] == s[i - 1];
    } else {
      var t := s[1..];
      InsertAt(t, x, key);
      var r, r' := Insert(s, x, key), Insert(t, x, key);
      assert r == [s[0]] + r';
      assert InsertionPoint(s, x, key) == 1 + InsertionPoint(t, x, key);
      assert forall i :: 0 < i < |r| ==> r[i] == r'[i - 1];
      assert forall i :: 0 < i < |s| ==> s[i] == t[i - 1];
    }
  }

  /** `Insert` adds `x` and keeps every item. */
  lemma InsertMembers<T>(s: seq<T>, x: T, key: T -> Key)
    ensures forall y :: y in Insert(s, x, key) <==> y == x || y in s
  {
    var r := Insert(s, x, key);
    forall y ensures y in r <==> y == x || y in s {
      assert y in r <==> y in multiset(r);
      assert y in s <==> y in multiset(s);
    }
  }

  /** `Insert` splits the sequence at the insertion point. */
  lemma InsertSplits<T>(s: seq<T>, x: T, key: T -> Key)
    ensures Insert(s, x, key) == s[..InsertionPoint(s, x, key)] + [x] + s[InsertionPoint(s, x, key)..]
  {
    InsertAt(s, x, key);
  }

  /** In a sorted sequence every item from the insertion point on sorts strictly after `x`. */
  lemma {:induction false} InsertionPointTies<T>(s: seq<T>, x: T, key: T -> Key)
    requires SortedBy(s, key)
    ensures forall i :: InsertionPoint(s, x, key) <= i < |s| ==> KeyLt(key(x), key(s[i]))
  {
    if s != [] {
      if KeyLt(key(x), key(s[0])) {
        forall i | 0 <= i < |s| ensures KeyLt(key(x), key(s[i])) {
          KeyOrder(key(x), key(s[0]), key(s[i]));
          assert KeyLe(key(s[0]), key(s[i]));
        }
      } else {
        InsertionPointTies(s[1..], x, key);
      }
    }
  }

  /** Inserting into a sorted sequence keeps it sorted. */
  lemma InsertSorted<T>(s: seq<T>, x: T, key: T -> Key)
    requires SortedBy(s, key)
    ensures SortedBy(Insert(s, x, key), key)
  {
    var k := InsertionPoint(s, x, key);
    InsertAt(s, x, key);
    InsertionPointTies(s, x, key);
    var r := Insert(s, x, key);
    forall i, j | 0 <= i < j < |r| ensures KeyLe(key(r[i]), key(r[j])) {
      if i < k && k < j {
        KeyOrder(key(r[i]), key(x), key(r[j]));
      }
    }
  }

  /** Stable insertion sort on `key`. */
  function SortBy<T>(s: seq<T>, key: T -> Key): (r: seq<T>)
    ensures multiset(r) == multiset(s)
    ensures SortedBy(r, key)
  {
    if s == [] then []
    else
      assert s == s[..|s| - 1] + [s[|s| - 1]];
      InsertSorted(SortBy(s[..|s| - 1], key), s[|s| - 1], key);
      Insert(SortBy(s[..|s| - 1], key), s[|s| - 1], key)
  }

  /** Sorting keeps exactly the items it was given. */
  lemma SortByMembers<T>(s: seq<T>, key: T -> Key)
    ensures forall y :: y in SortBy(s, key) <==> y in s
  {
    var r := SortBy(s, key);
    forall y ensures y in r <==> y in s {
      assert y in r <==> y in multiset(r);
      assert y in s <==> y in multiset(s);
    }
  }

  /** A sequence already sorted is left as it is. */
  lemma {:induction false} SortBySorted<T>(s: seq<T>, key: T -> Key)
    requires SortedBy(s, key)
    ensures SortBy(s, key) == s
  {
    if s != [] {
      var front, x := s[..|s| - 1], s[|s| - 1];
      SortBySorted(front, key);
      InsertAtEnd(front, x, key);
      assert front + [x] == s;
    }
  }

  lemma {:induction false} InsertAtEnd<T>(s: seq<T>, x: T, key: T -> Key)
    requires forall i :: 0 <= i < |s| ==> KeyLe(key(s[i]), key(x))
    ensures Insert(s, x, key) == s + [x]
    decreases |s|
  {
    if s != [] {
      InsertAtEnd(s[1..], x, key);
      assert s == [s[0]] + s[1..];
    }
  }

  /** Enqueueing onto a sorted queue: the new item joins behind every item it ties with. */
  lemma EnqueueSorted<T>(s: seq<T>, x: T, key: T -> Key)
    requires SortedBy(s, key)
    ensures SortBy(s + [x], key) == Insert(s, x, key)
  {
    assert (s + [x])[..|s|] == s;
    SortBySorted(s, key);
  }

  // ---------------------------------------------------------------------
  // The queue of `dijkstra`: node and priority, sorted by priority.
  // ---------------------------------------------------------------------

  datatype Entry = Entry(node: Pos, priority: nat)

  function PriorityKey(e: Entry): Key {
    Key(Finite(e.priority), 0)
  }

  /** `PriorityQueue` of dijkstra.ts. */
  class PriorityQueue {
    var items: seq<Entry>

    ghost predicate Valid()
      reads this
    {
      SortedBy(items, PriorityKey)
    }

    constructor ()
      ensures items == [] && Valid()
    {
      items := [];
    }

    /** Push, then stable-sort by priority. */
    method Enqueue(node: Pos, priority: nat)
      modifies this
      ensures items == SortBy(old(items) + [Entry(node, priority)], PriorityKey)
      ensures Valid()
      ensures old(Valid()) ==> items == Insert(old(items), Entry(node, priority), PriorityKey)
    {
      if Valid() {
        EnqueueSorted(items, Entry(node, priority), PriorityKey);
      }
      items := SortBy(items + [Entry(node, priority)], PriorityKey);
    }

    /** Remove and return the head, or nothing when the queue is empty. */
    method Dequeue() returns (node: Option<Pos>)
      modifies this
      ensures old(items) == [] ==> node == None && items == []
      ensures old(items) != [] ==> node == Some(old(items)[0].node) && items == old(items)[1..]
      ensures old(Valid()) ==> Valid()
    {
      if items == [] {
        node := None;
      } else {
        node := Some(items[0].node);
        items := items[1..];
      }
    }

    function IsEmpty(): (b: bool)
      reads this
      ensures b <==> items == []
    {
      |items| == 0
    }
  }

  // ---------------------------------------------------------------------
  // The queues of `astar` and `greedy`: cells, sorted by fields read at
  // sort time.
  // ---------------------------------------------------------------------

  /**
   * The A* comparator on the current `fScore` and `heuristic` fields;
   * a cell without an `fScore` has the reset value `Infinity`, one without
   * a `heuristic` the reset value 0.
   */
  function FScoreKey(fScore: map<Pos, nat>, heuristic: map<Pos, nat>): (key: Pos -> Key)
    ensures forall p :: key(p).primary == (if p in fScore then Finite(fScore[p]) else Infinity)
  {
    p => Key(if p in fScore then Finite(fScore[p]) else Infinity,
             if p in heuristic then heuristic[p] else 0)
  }

  /** The greedy comparator on the current `heuristic` field. */
  function HeuristicKey(heuristic: map<Pos, nat>): (key: Pos -> Key)
    ensures forall p :: key(p).secondary == 0
  {
    p => Key(Finite(if p in heuristic then heuristic[p] else 0), 0)
  }

  /** `AStarPriorityQueue` of astar.ts. */
  class AStarQueue {
    var items: seq<Pos>

    constructor ()
      ensures items == []
    {
      items := [];
    }

    /** Push, then stable-sort on the fields as they are now. */
    method Enqueue(node: Pos, fScore: map<Pos, nat>, heuristic: map<Pos, nat>)
      modifies this
      ensures items == SortBy(old(items) + [node], FScoreKey(fScore, heuristic))
      ensures forall y :: y in items <==> y == node || y in old(items)
    {
      SortByMembers(items + [node], FScoreKey(fScore, heuristic));
      items := SortBy(items + [node], FScoreKey(fScore, heuristic));
    }

    method Dequeue() returns (node: Option<Pos>)
      modifies this
      ensures old(items) == [] ==> node == None && items == []
      ensures old(items) != [] ==> node == Some(old(items)[0]) && items == old(items)[1..]
    {
      if items == [] {
        node := None;
      } else {
        node := Some(items[0]);
        items := items[1..];
      }
    }

    function IsEmpty(): (b: bool)
      reads this
      ensures b <==> items == []
    {
      |items| == 0
    }

    /** Whether a queued item has the coordinates of `node`. */
    method Contains(node: Pos) returns (b: bool)
      ensures b <==> node in items
    {
      b := false;
      for i := 0 to |items|
        invariant b <==> node in items[..i]
      {
        if items[i].row == node.row && items[i].col == node.col {
          b := true;
        }
      }
      assert items[..|items|] == items;
    }
  }

  /** `GreedyPriorityQueue` of greedy.ts. */
  class GreedyQueue {
    var items: seq<Pos>

    constructor ()
      ensures items == []
    {
      items := [];
    }

    /** Push, then stable-sort on the `heuristic` field. */
    method Enqueue(node: Pos, heuristic: map<Pos, nat>)
      modifies this
      ensures items == SortBy(old(items) + [node], HeuristicKey(heuristic))
      ensures forall y :: y in items <==> y == node || y in old(items)
    {
      SortByMembers(items + [node], HeuristicKey(heuristic));
      items := SortBy(items + [node], HeuristicKey(heuristic));
    }

    method Dequeue() returns (node: Option<Pos>)
      modifies this
      ensures old(items) == [] ==> node == None && items == []
      ensures old(items) != [] ==> node == Some(old(items)[0]) && items == old(items)[1..]
    {
      if items == [] {
        node := None;
      } else {
        node := Some(items[0]);
        items := items[1..];
      }
    }

    function IsEmpty(): (b: bool)
      reads this
      ensures b <==> items == []
    {
      |items| == 0
    }
  }
}
