/** A pipe: a ring buffer between readers and writers that yield to each other. */
module Pipe {
  import opened Words

  const CAP: nat := 4096   // KPIPE_BUF

  function Wrap(i: nat): nat { i % CAP }

  /** The bytes in the ring, oldest first. */
  ghost function Contents(b: seq<u8>, tail: nat, count: nat): seq<u8>
    requires |b| == CAP
  {
    seq(count, j requires j >= 0 => b[Wrap(tail + j)])
  }

  lemma WrapAdd(t: nat, i: nat)
    ensures Wrap(Wrap(t) + i) == Wrap(t + i)
  {
  }

  lemma ContentsTake(b: seq<u8>, tail: nat, count: nat)
    requires |b| == CAP && tail < CAP && count > 0
    ensures Contents(b, tail, count)[0] == b[tail]
    ensures Contents(b, Wrap(tail + 1), count - 1) == Contents(b, tail, count)[1..]
  {
    assert Wrap(tail + 0) == tail;
    var c := Contents(b, Wrap(tail + 1), count - 1);
    forall j | 0 <= j < |c|
      ensures c[j] == Contents(b, tail, count)[1..][j]
    {
      WrapAdd(tail + 1, j);
    }
  }

  lemma ContentsStore(b: seq<u8>, tail: nat, count: nat, x: u8)
    requires |b| == CAP && count < CAP
    ensures Contents(b[Wrap(tail + count) := x], tail, count + 1) == Contents(b, tail, count) + [x]
  {
    var c, d := Contents(b[Wrap(tail + count) := x], tail, count + 1), Contents(b, tail, count) + [x];
    forall j | 0 <= j < |c|
      ensures c[j] == d[j]
    {
      if j < count { WrapDistinct(tail, j, count); }
    }
  }

  lemma WrapDistinct(t: nat, i: nat, j: nat)
    requires i < j < CAP
    ensures Wrap(t + i) != Wrap(t + j)
  {
  }

  /** What another task does between two of its own yields: one stretch of a read or write of its
      own, or a change of the references. */
  datatype Act = Reads(n: nat) | Writes(data: seq<u8>) | Closes(writeEnd: bool) | Refs(writeEnd: bool)

  /** data went into the stream in order: byte j of it is byte at[j] of the stream. */
  ghost predicate InOrder(stream: seq<u8>, data: seq<u8>, at: seq<nat>)
  {
    && |at| == |data|
    && (forall j :: 0 <= j < |at| ==> at[j] < |stream| && stream[at[j]] == data[j])
    && (forall i, j :: 0 <= i < j < |at| ==> at[i] < at[j])
  }

  /** The references to the two ends of a pipe. */
  datatype Ends = Ends(used: bool, readers: nat, writers: nat)

  /** pipe_close */
  function CloseEnd(e: Ends, writeEnd: bool): Ends
  {
    if !e.used then e
    else
      var f := if writeEnd then e.(writers := if e.writers > 0 then e.writers - 1 else 0)
               else e.(readers := if e.readers > 0 then e.readers - 1 else 0);
      f.(used := !(f.readers == 0 && f.writers == 0))
  }

  /** pipe_ref */
  function RefEnd(e: Ends, writeEnd: bool): Ends
  {
    if !e.used then e else if writeEnd then e.(writers := e.writers + 1) else e.(readers := e.readers + 1)
  }

  class Pipe {
    const buf: array<u8>
    var head: nat
    var tail: nat
    var count: nat
    var ends: Ends
    ghost var accepted: seq<u8>    // every byte written so far
    ghost var delivered: seq<u8>   // every byte read so far

    /** What was delivered is a prefix of what was accepted, and the ring holds the rest. */
    ghost predicate Valid()
      reads this, buf
    {
      && buf.Length == CAP && head < CAP && tail < CAP && count <= CAP && head == Wrap(tail + count)
      && accepted == delivered + Contents(buf[..], tail, count)
    }

    /** pipe_create */
    constructor ()
      ensures Valid() && fresh(buf) && ends == Ends(true, 1, 1) && accepted == [] == delivered
    {
      buf := new u8[CAP](_ => 0);
      head, tail, count, ends := 0, 0, 0, Ends(true, 1, 1);
      accepted, delivered := [], [];
    }

    method Take() returns (b: u8)
      requires Valid() && count > 0
      modifies this
      ensures Valid() && accepted == old(accepted) && delivered == old(delivered) + [b] && count == old(count) - 1
      ensures ends == old(ends)
    {
      ContentsTake(buf[..], tail, count);
      b := buf[tail];
      WrapAdd(tail + 1, count - 1);
      tail := (tail + 1) % CAP;
      count := count - 1;
      delivered := delivered + [b];
    }

    method Store(b: u8)
      requires Valid() && count < CAP
      modifies this, buf
      ensures Valid() && delivered == old(delivered) && accepted == old(accepted) + [b] && count == old(count) + 1
      ensures ends == old(ends)
    {
      ghost var m := buf[..];
      ContentsStore(m, tail, count, b);
      WrapAdd(tail + count, 1);
      buf[head] := b;
      assert buf[..] == m[head := b];
      head := (head + 1) % CAP;
      count := count + 1;
      accepted := accepted + [b];
    }

    // ----- the other tasks -----

    // What another reader takes between two yields.
    method ReadSegment(n: nat)
      requires Valid()
      modifies this
      ensures Valid() && accepted == old(accepted) && old(delivered) <= delivered
    {
      var i := 0;
      while i < n && count > 0
        invariant Valid() && accepted == old(accepted) && old(delivered) <= delivered
        decreases count
      {
        var b := Take();
        i := i + 1;
      }
    }

    // What another writer puts in between two yields.
    method WriteSegment(data: seq<u8>)
      requires Valid()
      modifies this, buf
      ensures Valid() && delivered == old(delivered) && old(accepted) <= accepted
    {
      var i := 0;
      while i < |data| && ends.readers > 0 && count < CAP
        invariant Valid() && delivered == old(delivered) && old(accepted) <= accepted
        decreases CAP - count
      {
        Store(data[i]);
        i := i + 1;
      }
    }

    // One stretch of one other task.
    method Step(a: Act)
      requires Valid()
      modifies this, buf
      ensures Valid() && old(accepted) <= accepted && old(delivered) <= delivered
    {
      match a
      case Reads(n) => ReadSegment(n);
      case Writes(data) => WriteSegment(data);
      case Closes(w) => ends := CloseEnd(ends, w);
      case Refs(w) => ends := RefEnd(ends, w);
    }

    /** sched_yield: the other tasks run, any number of stretches in any order, until the caller is
        picked again. */
    method Yield(acts: seq<Act>)
      requires Valid()
      modifies this, buf
      ensures Valid() && old(accepted) <= accepted && old(delivered) <= delivered
    {
      for k := 0 to |acts|
        invariant Valid() && old(accepted) <= accepted && old(delivered) <= delivered
      {
        Step(acts[k]);
      }
    }

    // ----- the calls -----

    /** pipe_read, with what the other tasks do at each yield; not done if it still waits when they
        have nothing more to do.  The call's bytes are the next ones of the stream: no other reader
        gets between them. */
    method Read(n: nat, acts: seq<seq<Act>>) returns (done: bool, rc: int, out: seq<u8>, ghost others: seq<u8>)
      requires Valid()
      modifies this, buf
      ensures Valid() && old(accepted) <= accepted && delivered == old(delivered) + others + out
      ensures !old(ends).used ==>
                done && rc == -1 && out == [] && accepted == old(accepted) && delivered == old(delivered)
      ensures old(ends).used && done ==>
                rc == |out| <= n && (|out| < n ==> count == 0) && (|out| == 0 < n ==> ends.writers == 0)
      ensures !done ==> out == [] && n > 0 && count == 0 && ends.writers > 0
    {
      out, others := [], [];
      if !ends.used { return true, -1, out, others; }
      var k := 0;
      while |out| < n
        invariant Valid() && |out| <= n && k <= |acts| && old(accepted) <= accepted
        invariant delivered == old(delivered) + others + out
        decreases |acts| - k, n - |out|
      {
        if count == 0 {
          if |out| > 0 { break; }
          if ends.writers == 0 { break; }
          if k == |acts| { return false, 0, out, others; }
          Yield(acts[k]);
          others := delivered[|old(delivered)|..];
          k := k + 1;
          continue;
        }
        var b := Take();
        out := out + [b];
      }
      done, rc := true, |out|;
    }

    /** pipe_write, likewise; byte j of the data becomes byte at[j] of the stream. */
    method Write(data: seq<u8>, acts: seq<seq<Act>>) returns (done: bool, rc: int, ghost at: seq<nat>)
      requires Valid()
      modifies this, buf
      ensures Valid() && old(accepted) <= accepted && old(delivered) <= delivered
      ensures |at| <= |data| && InOrder(accepted, data[..|at|], at) && forall j :: 0 <= j < |at| ==>
                at[j] >= |old(accepted)|
      ensures !old(ends).used ==>
                done && rc == -1 && at == [] && accepted == old(accepted) && delivered == old(delivered)
      ensures old(ends).used && done ==> (rc == |data| == |at|) || (rc == -1 && ends.readers == 0 && |at| < |data|)
      ensures !done ==> count == CAP && ends.readers > 0 && |at| < |data|
    {
      at := [];
      if !ends.used { return true, -1, at; }
      var k, i := 0, 0;
      while i < |data|
        invariant Valid() && i <= |data| && k <= |acts| && |at| == i && old(accepted) <= accepted
        invariant old(delivered) <= delivered
        invariant InOrder(accepted, data[..i], at) && forall j :: 0 <= j < |at| ==> at[j] >= |old(accepted)|
        decreases |acts| - k, |data| - i
      {
        if ends.readers == 0 { return true, -1, at; }
        if count == CAP {
          if k == |acts| { return false, 0, at; }
          Yield(acts[k]);
          k := k + 1;
          continue;
        }
        OrderNext(accepted, data, i, at);
        at := at + [|accepted|];
        Store(data[i]);
        i := i + 1;
      }
      done, rc := true, |data|;
    }
  }

  lemma OrderNext(s: seq<u8>, data: seq<u8>, i: nat, at: seq<nat>)
    requires i < |data| && InOrder(s, data[..i], at)
    ensures InOrder(s + [data[i]], data[..i + 1], at + [|s|])
  {
  }
}
