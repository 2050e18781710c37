/** buf.c: a sliding window over a fixed array, fed by read(). */
module Buffer {
  import opened Bytes

  const BUF_LEN_MAX := 256

  class Buf {
    const data: array<byte>
    var start: nat
    var length: nat

    ghost predicate Valid()
      reads this
    {
      data.Length == BUF_LEN_MAX && start + length <= BUF_LEN_MAX && (length == 0 ==> start == 0)
    }

    /** The unread bytes, oldest first: the queue this window implements. */
    ghost function Window(): (w: seq<byte>)
      reads this, data
      requires Valid()
      ensures |w| == length
    {
      data[start..start + length]
    }

    constructor ()
      ensures Valid() && fresh(data) && Window() == []
    {
      data := new byte[BUF_LEN_MAX](i => 0);
      start, length := 0, 0;
    }

    function Chr(at: nat): (c: byte)
      reads this, data
      requires Valid() && at < length
      ensures c == Window()[at]
    {
      data[start + at]
    }

    function Slice(lo: nat, hi: nat): (s: seq<byte>)
      reads this, data
      requires Valid() && lo <= hi <= length
      ensures s == Window()[lo..hi]
    {
      assert forall i :: 0 <= i < hi - lo ==> data[start + lo..start + hi][i] == Window()[lo..hi][i];
      data[start + lo..start + hi]
    }

    /** memmove(buf, buf + start, length). */
    method Compact()
      requires Valid()
      modifies this`start, data
      ensures Valid() && start == 0 && Window() == old(Window())
    {
      ghost var w := Window();
      for i := 0 to length
        modifies data
        invariant data[..i] == w[..i]
        invariant data[start + i..start + length] == w[i..]
      {
        assert data[start + i] == w[i];
        data[i] := data[start + i];
      }
      start := 0;
    }

    /** read(): the kernel stores `chunk` at index `at`. */
    method Store(at: nat, chunk: seq<byte>)
      requires at + |chunk| <= data.Length
      modifies data
      ensures data[at..at + |chunk|] == chunk
      ensures forall k :: 0 <= k < at || at + |chunk| <= k < data.Length ==> data[k] == old(data[k])
    {
      for i := 0 to |chunk|
        invariant forall k :: 0 <= k < i ==> data[at + k] == chunk[k]
        invariant forall k :: 0 <= k < at || at + |chunk| <= k < data.Length ==> data[k] == old(data[k])
      {
        data[at + i] := chunk[i];
      }
    }

    /** buf_fill. `avail` is what the descriptor holds (empty at end of file) and `cut` how much the kernel
        chooses to hand over, so any split of a stream into reads that fit is some choice of cuts; cut 0
        stands for a failed read. The precondition is the source's own assertion. */
    method Fill(avail: seq<byte>, cut: nat) returns (n: nat)
      requires Valid()
      requires start + length == BUF_LEN_MAX ==> start > 0
      modifies this, data
      ensures Valid()
      ensures n <= cut && n <= |avail| && Window() == old(Window()) + avail[..n]
      ensures n == 0 <==> avail == [] || cut == 0
      ensures avail != [] && cut > 0 && n < Min(cut, |avail|) ==> start + length == BUF_LEN_MAX
    {
      if start + length == BUF_LEN_MAX {
        assert start > 0;
        Compact();
      }
      var space := BUF_LEN_MAX - length - start;
      n := Min(space, Min(cut, |avail|));
      Receive(avail[..n]);
    }

    /** The bytes read join the window. */
    method Receive(chunk: seq<byte>)
      requires Valid() && start + length + |chunk| <= BUF_LEN_MAX
      modifies this`length, data
      ensures Valid() && Window() == old(Window()) + chunk
    {
      var at := start + length;
      ghost var w := Window();
      Store(at, chunk);
      assert data[start..at] == w;
      assert data[start..at + |chunk|] == data[start..at] + data[at..at + |chunk|];
      length := length + |chunk|;
    }

    /** buf_consume. */
    method Consume(n: nat)
      requires Valid() && n <= length
      modifies this
      ensures Valid() && Window() == old(Window())[n..]
    {
      length := length - n;
      if length > 0 {
        start := start + n;
      } else {
        start := 0;
      }
    }
  }
}
