/** rand.c: a pool of random bytes topped up from the system's source, and exactly when it hands out a byte
    twice. A byte is identified by its position in the source stream. */
module RandPool {

  const SIZE := 256

  /** The pool's buffer, its window, and how far the source has been read. */
  datatype Pool = Pool(slots: seq<nat>, start: nat, length: nat, next: nat)

  predicate Shaped(p: Pool) {
    |p.slots| == SIZE && p.start + p.length <= SIZE
  }

  function Positions(from: nat, n: nat): (s: seq<nat>)
    ensures |s| == n && forall i :: 0 <= i < n ==> s[i] == from + i
  {
    seq(n, i requires 0 <= i < n => from + i)
  }

  /** rand_init. */
  function Initial(): (p: Pool)
    ensures Shaped(p)
  {
    Pool(Positions(0, SIZE), 0, SIZE, SIZE)
  }

  /** rand_fill: from the window if it holds enough, else one readv that refills the consumed front of the
      buffer and then the caller's memory. */
  function Request(p: Pool, size: nat): (r: (Pool, seq<nat>))
    requires Shaped(p)
    ensures Shaped(r.0) && |r.1| == size
  {
    if size <= p.length then
      (if size < p.length then p.(start := p.start + size, length := p.length - size) else p.(start := 0, length := 0),
       p.slots[p.start..p.start + size])
    else
      (Pool(Positions(p.next, p.start) + p.slots[p.start..], 0, SIZE, p.next + p.start + size),
       Positions(p.next + p.start, size))
  }

  class Rand {
    const data: array<nat>
    var start: nat
    var length: nat
    var next: nat

    ghost predicate Valid() reads this { data.Length == SIZE && start + length <= SIZE }

    ghost function View(): (p: Pool)
      reads this, data
      requires Valid()
      ensures Shaped(p)
    {
      Pool(data[..], start, length, next)
    }

    constructor ()
      ensures Valid() && fresh(data) && View() == Initial()
    {
      data := new nat[SIZE](i => i);
      start, length, next := 0, SIZE, SIZE;
    }

    /** read(): the next `n` bytes of the source. */
    method Read(out: array<nat>, n: nat)
      requires n <= out.Length && Valid()
      modifies this`next, out
      ensures next == old(next) + n && out[..n] == Positions(old(next), n)
      ensures forall k :: n <= k < out.Length ==> out[k] == old(out[k])
    {
      for i := 0 to n
        invariant next == old(next) + i
        invariant forall k :: 0 <= k < i ==> out[k] == old(next) + k
        invariant forall k :: i <= k < out.Length ==> out[k] == old(out[k])
      {
        out[i] := next;
        next := next + 1;
      }
    }

    method Fill(value: array<nat>, size: nat)
      requires Valid() && size <= value.Length && value != data
      modifies this, data, value
      ensures Valid() && (View(), value[..size]) == Request(old(View()), size)
      ensures forall i :: 0 <= i < size ==>
                value[i] == if size <= old(length) then old(data[start + i]) else old(next + start) + i
      ensures next == old(next) + if size <= old(length) then 0 else old(start) + size
    {
      ghost var p := View();
      if size <= length {
        for i := 0 to size
          modifies value
          invariant forall k :: 0 <= k < i ==> value[k] == p.slots[p.start + k]
        {
          value[i] := data[start + i];
        }
        assert value[..size] == p.slots[p.start..p.start + size];
        length := length - size;
        start := if length > 0 then start + size else 0;
        assert data[..] == p.slots;
        return;
      }
      Read(data, start);
      assert data[..] == data[..p.start] + data[p.start..];
      assert data[p.start..] == p.slots[p.start..];
      Read(value, size);
      assert data[..] == Positions(p.next, p.start) + p.slots[p.start..];
      start := 0;
      length := SIZE;
    }
  }

  // ---------------------------------------------------------------- freshness over a whole run

  /** All bytes handed out by a run of requests. */
  function Issue(p: Pool, sizes: seq<nat>): seq<nat>
    requires Shaped(p)
    decreases |sizes|
  {
    if sizes == [] then [] else Request(p, sizes[0]).1 + Issue(Request(p, sizes[0]).0, sizes[1..])
  }

  predicate Distinct(s: seq<nat>) { forall i, j :: 0 <= i < j < |s| ==> s[i] != s[j] }

  /** FRESH: every byte in the window is still to be handed out. DRAINED: a request took exactly the rest,
      so the window is empty and starts over at the front. STALE: the next request found nothing to refill,
      yet the pool counts as full. */
  datatype Phase = FRESH | DRAINED | STALE

  function Next(phase: Phase, p: Pool, size: nat): Phase {
    match phase
    case FRESH => if 0 < size == p.length then DRAINED else FRESH
    case DRAINED => if size > 0 then STALE else DRAINED
    case STALE => STALE
  }

  /** Some request is served out of a pool that an exact drain left stale. */
  predicate ServesStale(phase: Phase, p: Pool, sizes: seq<nat>)
    requires Shaped(p)
    decreases |sizes|
  {
    sizes != [] &&
    ((phase == STALE && 0 < sizes[0] <= SIZE) ||
     ServesStale(Next(phase, p, sizes[0]), Request(p, sizes[0]).0, sizes[1..]))
  }

  predicate Used(p: Pool, issued: seq<nat>, n: nat)
    requires n <= |p.slots|
  {
    forall i :: 0 <= i < n ==> p.slots[i] in issued
  }

  /** What holds of the pool and the bytes issued so far. */
  predicate Books(phase: Phase, p: Pool, issued: seq<nat>) {
    && Shaped(p) && Distinct(issued)
    && (forall i :: 0 <= i < |issued| ==> issued[i] < p.next)
    && (forall i :: 0 <= i < SIZE ==> p.slots[i] < p.next)
    && match phase
       case FRESH =>
         && p.start + p.length == SIZE && p.length > 0 && Used(p, issued, p.start)
         && Distinct(p.slots[p.start..])
         && forall i :: p.start <= i < SIZE ==> p.slots[i] !in issued
       case DRAINED => p.start == 0 && p.length == 0 && Used(p, issued, SIZE)
       case STALE => p.start == 0 && p.length == SIZE && Used(p, issued, SIZE)
  }

  lemma BooksStep(phase: Phase, p: Pool, issued: seq<nat>, size: nat)
    requires Books(phase, p, issued) && !(phase == STALE && 0 < size <= SIZE)
    ensures Books(Next(phase, p, size), Request(p, size).0, issued + Request(p, size).1)
  {
    var (q, out) := Request(p, size);
    var all := issued + out;
    if size <= p.length {
      assert out == p.slots[p.start..p.start + size];
      forall i | 0 <= i < |out| ensures out[i] == p.slots[p.start + i] {}
      if phase == FRESH {
        WindowIssued(p, issued, size);
      } else {
        assert out == [] && all == issued;
      }
    } else {
      forall i | 0 <= i < |out| ensures out[i] >= p.next {}
      if phase == FRESH { Refilled(p, issued, size); }
      if phase != FRESH { assert q.slots == p.slots; }
    }
  }

  /** Bytes moved from a window of fresh ones to those issued. */
  lemma TakeDistinct(issued: seq<nat>, w: seq<nat>, n: nat)
    requires Distinct(issued) && Distinct(w) && n <= |w| && forall i :: 0 <= i < |w| ==> w[i] !in issued
    ensures Distinct(issued + w[..n]) && Distinct(w[n..])
    ensures forall i :: n <= i < |w| ==> w[i] !in issued + w[..n]
  {
    var all := issued + w[..n];
    forall i, j | 0 <= i < j < |all| ensures all[i] != all[j] {
      if j >= |issued| {
        assert all[j] == w[j - |issued|];
        if i >= |issued| { assert all[i] == w[i - |issued|]; }
      }
    }
    forall i | n <= i < |w| ensures w[i] !in w[..n] {}
  }

  /** A fresh pool whose first `size` bytes have been handed out. */
  lemma WindowMoved(p: Pool, issued: seq<nat>, size: nat)
    requires Books(FRESH, p, issued) && size <= p.length
    ensures var all := issued + p.slots[p.start..p.start + size];
            && Distinct(all) && Used(p, all, p.start + size) && Distinct(p.slots[p.start + size..])
            && (forall i :: 0 <= i < |all| ==> all[i] < p.next)
            && forall i :: p.start + size <= i < SIZE ==> p.slots[i] !in all
  {
    hide Distinct;
    var w := p.slots[p.start..];
    var out, all := w[..size], issued + w[..size];
    assert out == p.slots[p.start..p.start + size] && w[size..] == p.slots[p.start + size..];
    forall i | 0 <= i < |w| ensures w[i] !in issued { assert w[i] == p.slots[p.start + i]; }
    TakeDistinct(issued, w, size);
    forall i | 0 <= i < p.start + size ensures p.slots[i] in all {
      if i >= p.start { assert p.slots[i] == out[i - p.start] && out[i - p.start] in all; }
    }
    forall i | p.start + size <= i < SIZE ensures p.slots[i] !in all { assert p.slots[i] == w[i - p.start]; }
  }

  lemma WindowIssued(p: Pool, issued: seq<nat>, size: nat)
    requires Books(FRESH, p, issued) && size <= p.length
    ensures Books(Next(FRESH, p, size), Request(p, size).0, issued + Request(p, size).1)
  {
    WindowMoved(p, issued, size);
    hide Distinct;
  }

  /** Bytes of the source not read before are distinct from everything below them. */
  lemma DistinctTogether(s: seq<nat>, t: seq<nat>)
    requires Distinct(s) && Distinct(t) && forall i, j :: 0 <= i < |s| && 0 <= j < |t| ==> s[i] != t[j]
    ensures Distinct(s + t)
  {
    var all := s + t;
    forall i, j | 0 <= i < j < |all| ensures all[i] != all[j] {
      if i >= |s| { assert all[i] == t[i - |s|] && all[j] == t[j - |s|]; }
    }
  }

  lemma Refilled(p: Pool, issued: seq<nat>, size: nat)
    requires Books(FRESH, p, issued) && size > p.length
    ensures Books(FRESH, Request(p, size).0, issued + Request(p, size).1)
  {
    var (q, out) := Request(p, size);
    var front, back := Positions(p.next, p.start), p.slots[p.start..];
    assert Distinct(front) && Distinct(out);
    hide Distinct;
    DistinctTogether(issued, out);
    forall j | 0 <= j < |back| ensures back[j] < p.next && back[j] !in issued {
      assert back[j] == p.slots[p.start + j];
    }
    DistinctTogether(front, back);
    assert q.slots == front + back && q.slots[0..] == q.slots;
    forall i | 0 <= i < SIZE ensures q.slots[i] !in issued + out {
      assert q.slots[i] == if i < p.start then front[i] else back[i - p.start];
    }
  }

  lemma {:induction false} IssueBooks(phase: Phase, p: Pool, issued: seq<nat>, sizes: seq<nat>)
    requires Books(phase, p, issued)
    ensures Distinct(issued + Issue(p, sizes)) <==> !ServesStale(phase, p, sizes)
    decreases |sizes|
  {
    if sizes == [] {
      assert issued + [] == issued;
    } else {
      var (q, out) := Request(p, sizes[0]);
      var rest := Issue(q, sizes[1..]);
      assert issued + (out + rest) == (issued + out) + rest;
      if phase == STALE && 0 < sizes[0] <= SIZE {
        Reissued(p, issued, out, rest);
      } else {
        BooksStep(phase, p, issued, sizes[0]);
        IssueBooks(Next(phase, p, sizes[0]), q, issued + out, sizes[1..]);
      }
    }
  }

  lemma Reissued(p: Pool, issued: seq<nat>, out: seq<nat>, rest: seq<nat>)
    requires Books(STALE, p, issued) && |out| > 0 && out[0] == p.slots[0]
    ensures !Distinct(issued + (out + rest))
  {
    var k :| 0 <= k < |issued| && issued[k] == p.slots[0];
    var all := issued + (out + rest);
    assert all[k] == all[|issued|];
  }

  /** No byte of the source is handed out twice if and only if no request is served from a stale pool. */
  lemma FreshIff(sizes: seq<nat>)
    ensures Distinct(Issue(Initial(), sizes)) <==> !ServesStale(FRESH, Initial(), sizes)
  {
    var p := Initial();
    assert p.slots[0..] == p.slots;
    IssueBooks(FRESH, p, [], sizes);
    assert [] + Issue(p, sizes) == Issue(p, sizes);
  }

  /** Some request takes exactly what the window still holds. */
  predicate ExactDrain(p: Pool, sizes: seq<nat>)
    requires Shaped(p)
    decreases |sizes|
  {
    sizes != [] && (0 < sizes[0] == p.length || ExactDrain(Request(p, sizes[0]).0, sizes[1..]))
  }

  lemma {:induction false} NoDrainNoStale(p: Pool, sizes: seq<nat>)
    requires Shaped(p) && !ExactDrain(p, sizes)
    ensures !ServesStale(FRESH, p, sizes)
    decreases |sizes|
  {
    if sizes != [] { NoDrainNoStale(Request(p, sizes[0]).0, sizes[1..]); }
  }

  /** Runs in which no request exactly drains the pool are fresh throughout. */
  lemma FreshWithoutExactDrain(sizes: seq<nat>)
    requires !ExactDrain(Initial(), sizes)
    ensures Distinct(Issue(Initial(), sizes))
  {
    NoDrainNoStale(Initial(), sizes);
    FreshIff(sizes);
  }

  function After(p: Pool, sizes: seq<nat>): (q: Pool)
    requires Shaped(p)
    ensures Shaped(q)
    decreases |sizes|
  {
    if sizes == [] then p else After(Request(p, sizes[0]).0, sizes[1..])
  }

  function Sum(sizes: seq<nat>): nat { if sizes == [] then 0 else sizes[0] + Sum(sizes[1..]) }

  lemma {:induction false} IssuedFromWindow(p: Pool, sizes: seq<nat>)
    requires Shaped(p) && Sum(sizes) <= p.length
    ensures Issue(p, sizes) == p.slots[p.start..p.start + Sum(sizes)]
    decreases |sizes|
  {
    if sizes != [] {
      var q, n := Request(p, sizes[0]).0, Sum(sizes[1..]);
      IssuedFromWindow(q, sizes[1..]);
      assert p.slots[p.start..p.start + sizes[0] + n] ==
             p.slots[p.start..p.start + sizes[0]] + p.slots[p.start + sizes[0]..p.start + sizes[0] + n];
      if n > 0 { assert q.start == p.start + sizes[0]; }
    }
  }

  /** The pool's first 256 bytes are handed out in the order of the source, however they are asked for. */
  lemma InOrder(sizes: seq<nat>)
    requires Sum(sizes) <= 256
    ensures |Issue(Initial(), sizes)| == Sum(sizes)
    ensures forall i :: 0 <= i < Sum(sizes) ==> Issue(Initial(), sizes)[i] == i
  {
    IssuedFromWindow(Initial(), sizes);
  }

  lemma {:induction false} NothingLost(p: Pool, sizes: seq<nat>)
    requires Shaped(p) && p.start + p.length == SIZE && p.length > 0 && !ExactDrain(p, sizes)
    ensures var q := After(p, sizes);
            && q.start + q.length == SIZE && q.length > 0
            && q.next - p.next == |Issue(p, sizes)| + q.length - p.length
    decreases |sizes|
  {
    if sizes != [] { NothingLost(Request(p, sizes[0]).0, sizes[1..]); }
  }

  /** Without an exact drain no byte of the source is lost either: those read are those handed out and those in the
      window. */
  lemma EveryByteAccountedFor(sizes: seq<nat>)
    requires !ExactDrain(Initial(), sizes)
    ensures var q := After(Initial(), sizes); q.next == |Issue(Initial(), sizes)| + q.length
  {
    NothingLost(Initial(), sizes);
  }

  function Sixteens(n: nat): (s: seq<nat>)
    ensures |s| == n && forall i :: 0 <= i < n ==> s[i] == 16
  {
    seq(n, i => 16)
  }

  lemma {:induction false} AfterSixteens(p: Pool, n: nat)
    requires Shaped(p) && 16 * n < p.length
    ensures After(p, Sixteens(n)) == p.(start := p.start + 16 * n, length := p.length - 16 * n)
    decreases n
  {
    if n > 0 {
      assert Sixteens(n)[1..] == Sixteens(n - 1);
      AfterSixteens(Request(p, 16).0, n - 1);
    }
  }

  /** The exact drain happens: identifiers take 16 bytes and 16 of them empty the pool. Asked for nothing
      but identifiers, it gives the eighteenth the bytes of the first. */
  lemma EighteenthIdentifier()
    ensures Request(After(Initial(), Sixteens(15) + [16, 16]), 16).1 == Request(Initial(), 16).1
  {
    hide Positions, After, Request, Sixteens;
    var p := Initial();
    AfterSixteens(p, 15);
    AfterAppend(p, Sixteens(15), [16, 16]);
    var q := p.(start := 240, length := 16);
    AfterTwo(q, 16, 16);
    DrainedTwice(p);
  }

  lemma AfterTwo(p: Pool, a: nat, b: nat)
    requires Shaped(p)
    ensures After(p, [a, b]) == Request(Request(p, a).0, b).0
  {
    assert [a, b][1..] == [b];
    assert After(Request(p, a).0, [b]) == After(Request(Request(p, a).0, b).0, []);
  }

  lemma DrainedTwice(p: Pool)
    requires Shaped(p) && p.start == 0 && p.length == SIZE
    ensures var q := p.(start := 240, length := 16);
            Request(Request(Request(q, 16).0, 16).0, 16).1 == Request(p, 16).1
  {}

  lemma {:induction false} AfterAppend(p: Pool, a: seq<nat>, b: seq<nat>)
    requires Shaped(p)
    ensures After(p, a + b) == After(After(p, a), b)
    decreases |a|
  {
    if a == [] {
      assert a + b == b;
    } else {
      assert (a + b)[1..] == a[1..] + b;
      AfterAppend(Request(p, a[0]).0, a[1..], b);
    }
  }
}
