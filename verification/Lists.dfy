/** list.c: circular doubly linked lists threaded through the objects they hold. */
module Lists {

  /** struct list_head, as head of a list or embedded in an element. `owner` plays container_of. */
  class ListHead<T> {
    var next: ListHead?<T>
    var prev: ListHead?<T>
    const owner: T

    constructor (owner: T)
      ensures this.owner == owner && next == null && prev == null
    {
      this.owner := owner;
      next, prev := null, null;
    }
  }

  /** `ring` is a closed circle: the head first, then the elements in list order. */
  ghost predicate Circle<T>(ring: seq<ListHead<T>>)
    reads ring
  {
    && |ring| > 0
    && (forall i, j :: 0 <= i < j < |ring| ==> ring[i] != ring[j])
    && (forall i {:trigger ring[i].next} :: 0 <= i < |ring| - 1 ==> ring[i].next == ring[i + 1])
    && ring[|ring| - 1].next == ring[0]
    && (forall i {:trigger ring[i].prev} :: 1 <= i < |ring| ==> ring[i].prev == ring[i - 1])
    && ring[0].prev == ring[|ring| - 1]
  }

  method HeadInit<T>(head: ListHead<T>)
    modifies head
    ensures Circle([head])
  {
    head.next, head.prev := head, head;
  }

  method IsEmpty<T>(head: ListHead<T>, ghost ring: seq<ListHead<T>>) returns (empty: bool)
    requires Circle(ring) && ring[0] == head
    ensures empty <==> |ring| == 1
  {
    empty := head.next == head;
    assert |ring| > 1 ==> ring[0].next == ring[1] != ring[0];
  }

  /** list_add puts the new entry at the end. */
  method Add<T>(entry: ListHead<T>, head: ListHead<T>, ghost ring: seq<ListHead<T>>)
    requires Circle(ring) && ring[0] == head && entry !in ring
    modifies ring, entry
    ensures Circle(ring + [entry])
  {
    ghost var last := ring[|ring| - 1];
    entry.next := head;
    entry.prev := head.prev;
    entry.prev.next := entry;
    head.prev := entry;
    ghost var r := ring + [entry];
    assert forall i :: 0 <= i < |ring| ==> r[i] == ring[i];
  }

  function Without<T>(s: seq<T>, k: nat): seq<T>
    requires k < |s|
  {
    s[..k] + s[k + 1..]
  }

  /** list_del unlinks one element wherever it stands. */
  method Del<T>(entry: ListHead<T>, ghost ring: seq<ListHead<T>>, ghost k: nat)
    requires Circle(ring) && 1 <= k < |ring| && ring[k] == entry
    modifies ring
    ensures Circle(Without(ring, k))
    ensures entry.next == null && entry.prev == null
  {
    ghost var n := |ring|;
    assert entry.prev == ring[k - 1] && entry.next == if k + 1 < n then ring[k + 1] else ring[0];
    entry.next.prev := entry.prev;
    entry.prev.next := entry.next;
    entry.prev, entry.next := null, null;
    ghost var r := Without(ring, k);
    assert forall i :: 0 <= i < |r| ==> r[i] == if i < k then ring[i] else ring[i + 1];
  }

  /** The elements of `ring` that stay when those in `doomed` are deleted. */
  function Kept<T>(ring: seq<ListHead<T>>, doomed: set<ListHead<T>>): (r: seq<ListHead<T>>)
    ensures forall i :: 0 <= i < |r| ==> r[i] in ring && r[i] !in doomed
    ensures forall i :: 0 <= i < |ring| ==> ring[i] in doomed || ring[i] in r
    ensures |r| <= |ring|
  {
    if ring == [] then []
    else
      var rest := Kept(ring[1..], doomed);
      if ring[0] in doomed then rest else [ring[0]] + rest
  }

  lemma {:induction false} KeptAppend<T>(a: seq<ListHead<T>>, b: seq<ListHead<T>>, doomed: set<ListHead<T>>)
    ensures Kept(a + b, doomed) == Kept(a, doomed) + Kept(b, doomed)
  {
    if a == [] {
      assert a + b == b;
    } else {
      assert (a + b)[1..] == a[1..] + b;
      KeptAppend(a[1..], b, doomed);
    }
  }

  /** A loop body that may delete the entry it is given. */
  method Body<T>(iter: ListHead<T>, doomed: set<ListHead<T>>, ghost kept: seq<ListHead<T>>,
                 ghost rest: seq<ListHead<T>>, ghost ring: seq<ListHead<T>>)
      returns (ghost kept': seq<ListHead<T>>)
    requires |kept| >= 1 && |rest| >= 1 && Circle(kept + rest) && rest[0] == iter && Inside(kept + rest, ring)
    modifies ring
    ensures kept' == kept + Kept([iter], doomed) && Circle(kept' + rest[1..])
  {
    ghost var left, k := kept + rest, |kept|;
    if iter in doomed {
      Del(iter, left, k);
      kept' := kept;
      assert Without(left, k) == kept' + rest[1..];
    } else {
      kept' := kept + [iter];
      assert left == kept' + rest[1..];
    }
  }

  lemma FirstOfRest<T>(kept: seq<ListHead<T>>, rest: seq<ListHead<T>>)
    requires |kept| >= 1 && Circle(kept + rest)
    ensures kept[|kept| - 1].next == (if rest == [] then kept[0] else rest[0])
    ensures |rest| >= 1 ==> rest[0].next == (if |rest| == 1 then kept[0] else rest[1]) && rest[0] != kept[0]
  {
    var left, k := kept + rest, |kept|;
    assert left[k - 1] == kept[k - 1] && left[0] == kept[0];
    if |rest| >= 1 { assert left[k] == rest[0]; }
    if |rest| >= 2 { assert left[k + 1] == rest[1]; }
  }

  /** list_for_each_entry_safe with a body that deletes some of the entries it is given: every element is
      visited once, in list order, and exactly those deleted are gone at the end. */
  method ForEachSafe<T>(head: ListHead<T>, doomed: set<ListHead<T>>, ghost ring: seq<ListHead<T>>)
      returns (visited: seq<ListHead<T>>, ghost left: seq<ListHead<T>>)
    requires Circle(ring) && ring[0] == head && head !in doomed
    modifies ring
    ensures visited == ring[1..]
    ensures left == Kept(ring, doomed) && Circle(left)
  {
    hide Circle, Kept, Inside;
    CircleHasHead(ring);
    visited := [];
    ghost var kept, rest := [head], ring[1..];
    assert ring == kept + rest;
    FirstOfRest(kept, rest);
    KeptAppend([head], rest, doomed);
    KeptOne(head, doomed);
    InsideItself(ring);
    var iter := head.next;
    var next := iter.next;
    while iter != head
      invariant |kept| >= 1 && kept[0] == head && Circle(kept + rest)
      invariant Inside(kept + rest, ring)
      invariant ring[1..] == visited + rest
      invariant Kept(ring, doomed) == kept + Kept(rest, doomed)
      invariant iter == (if rest == [] then head else rest[0]) && (rest != [] ==> iter != head)
      invariant iter != null && next == iter.next && next != null
      decreases |rest|
    {
      Turn(ring, visited, kept, rest, doomed);
      visited := visited + [iter];
      kept := Body(iter, doomed, kept, rest, ring);
      rest := rest[1..];
      FirstOfRest(kept, rest);
      iter := next;
      next := iter.next;
    }
    left := kept;
    assert rest == [] && kept + [] == kept;
    KeptOne(head, doomed);
  }

  lemma KeptOne<T>(x: ListHead<T>, doomed: set<ListHead<T>>)
    ensures Kept([x], doomed) == if x in doomed then [] else [x]
    ensures Kept<T>([], doomed) == []
  {}

  lemma InsideItself<T>(ring: seq<ListHead<T>>)
    ensures Inside(ring, ring)
  {}

  lemma CircleHasHead<T>(ring: seq<ListHead<T>>)
    requires Circle(ring)
    ensures |ring| > 0
  {}

  ghost predicate Inside<T>(a: seq<ListHead<T>>, ring: seq<ListHead<T>>) {
    forall i :: 0 <= i < |a| ==> a[i] in ring
  }

  /** The bookkeeping of one turn of the traversal. */
  lemma Turn<T>(ring: seq<ListHead<T>>, visited: seq<ListHead<T>>, kept: seq<ListHead<T>>, rest: seq<ListHead<T>>,
                doomed: set<ListHead<T>>)
    requires |kept| >= 1 && |rest| >= 1 && Circle(kept + rest) && Inside(kept + rest, ring)
    ensures rest[0].next == (if |rest| == 1 then kept[0] else rest[1]) && rest[0] != kept[0]
    ensures kept + Kept(rest, doomed) == (kept + Kept([rest[0]], doomed)) + Kept(rest[1..], doomed)
    ensures visited + rest == (visited + [rest[0]]) + rest[1..]
    ensures Inside((kept + Kept([rest[0]], doomed)) + rest[1..], ring)
  {
    hide Circle, Inside;
    FirstOfRest(kept, rest);
    KeptAppend([rest[0]], rest[1..], doomed);
    KeptOne(rest[0], doomed);
    assert [rest[0]] + rest[1..] == rest;
    StillInside(kept, rest, ring, rest[0] in doomed);
  }

  lemma StillInside<T>(kept: seq<ListHead<T>>, rest: seq<ListHead<T>>, ring: seq<ListHead<T>>, deleted: bool)
    requires |rest| >= 1 && Inside(kept + rest, ring)
    ensures Inside((kept + if deleted then [] else [rest[0]]) + rest[1..], ring)
  {
    var after := (kept + if deleted then [] else [rest[0]]) + rest[1..];
    forall i | 0 <= i < |after| ensures after[i] in ring {
      assert after[i] == (kept + rest)[if i < |kept| || !deleted then i else i + 1];
    }
  }
}
