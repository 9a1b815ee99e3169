/** kernel/tty.c: the ring buffers and the line discipline. */
module Tty {

  type Char = c: int | 0 <= c < 256

  const BUF_SIZE: nat := 2048
  const BACKSPACE: Char := 8
  const NEWLINE: Char := 10

  /** The characters from head up to tail, going round. */
  ghost function Ring(b: seq<Char>, head: nat, tail: nat): seq<Char>
    requires |b| == BUF_SIZE && head < BUF_SIZE && tail < BUF_SIZE
  {
    if head <= tail then b[head..tail] else b[head..] + b[..tail]
  }

  function After(i: nat): nat
    requires i < BUF_SIZE
  {
    if i == BUF_SIZE - 1 then 0 else i + 1
  }

  lemma RingLength(b: seq<Char>, head: nat, tail: nat)
    requires |b| == BUF_SIZE && head < BUF_SIZE && tail < BUF_SIZE
    ensures |Ring(b, head, tail)| == (tail - head + BUF_SIZE) % BUF_SIZE
    ensures |Ring(b, head, tail)| == if head <= tail then tail - head else tail - head + BUF_SIZE
  {
  }

  lemma RingPop(b: seq<Char>, head: nat, tail: nat)
    requires |b| == BUF_SIZE && head < BUF_SIZE && tail < BUF_SIZE && head != tail
    ensures Ring(b, head, tail) == [b[head]] + Ring(b, After(head), tail)
  {
    if head < tail {
      assert b[head..tail] == [b[head]] + b[head + 1..tail];
    } else if head < BUF_SIZE - 1 {
      PopFront(b, head, b[..tail]);
    } else {
      PopFront(b, head, b[..tail]);
      assert b[head + 1..] + b[..tail] == b[0..tail];
    }
  }

  lemma PopFront(b: seq<Char>, head: nat, rest: seq<Char>)
    requires head < |b|
    ensures b[head..] + rest == [b[head]] + (b[head + 1..] + rest)
  {
  }

  lemma RingPush(b: seq<Char>, head: nat, tail: nat, c: Char)
    requires |b| == BUF_SIZE && head < BUF_SIZE && tail < BUF_SIZE && After(tail) != head
    ensures Ring(b[tail := c], head, After(tail)) == Ring(b, head, tail) + [c]
  {
    var d := b[tail := c];
    if head <= tail {
      if tail == BUF_SIZE - 1 {
        assert d[head..] == b[head..tail] + [c] && d[..0] == [];
      } else {
        assert d[head..tail + 1] == b[head..tail] + [c];
      }
    } else {
      assert d[head..] == b[head..] && d[..tail + 1] == b[..tail] + [c];
    }
  }

  class TtyBuffer {
    var head: nat
    var tail: nat
    const buffer: array<Char>

    ghost predicate Valid()
      reads this
    {
      buffer.Length == BUF_SIZE && head < BUF_SIZE && tail < BUF_SIZE
    }

    ghost function Contents(): (q: seq<Char>)
      requires Valid()
      reads this, buffer
    {
      Ring(buffer[..], head, tail)
    }

    constructor ()
      ensures Valid() && Contents() == [] && fresh(buffer)
    {
      head, tail := 0, 0;
      buffer := new Char[BUF_SIZE](_ => 0);
    }

    /** The one position at which FULL, which compares without the modulus, misses a full ring. */
    predicate Overflows()
      reads this
    {
      head == 0 && tail == BUF_SIZE - 1
    }

    /** Appends c, or drops it when full; but at the missed position the ring wraps onto
        itself and everything queued is gone. */
    method Enqueue(c: Char) returns (ok: bool)
      requires Valid()
      modifies this`tail, buffer
      ensures Valid()
      ensures ok <==> !(|old(Contents())| == BUF_SIZE - 1 && !old(Overflows()))
      ensures !ok ==> Contents() == old(Contents())
      ensures ok ==> (Contents() == old(Contents()) + [c] <==> !old(Overflows()))
      ensures old(Overflows()) ==> Contents() == []
    {
      RingLength(buffer[..], head, tail);
      if head == tail + 1 {
        return false;
      }
      if After(tail) != head {
        RingPush(buffer[..], head, tail, c);
      }
      ghost var b := buffer[..];
      buffer[tail] := c;
      assert buffer[..] == b[tail := c];
      tail := (tail + 1) % BUF_SIZE;
      ok := true;
    }

    lemma NotFull()
      requires Valid() && |Contents()| < BUF_SIZE - 1
      ensures !Overflows()
    {
      RingLength(buffer[..], head, tail);
    }

    method Dequeue() returns (c: Char)
      requires Valid()
      modifies this`head
      ensures Valid()
      ensures old(Contents()) == [] ==> c == 0 && Contents() == []
      ensures old(Contents()) != [] ==> c == old(Contents())[0] && Contents() == old(Contents())[1..]
    {
      RingLength(buffer[..], head, tail);
      if head == tail {
        return 0;
      }
      RingPop(buffer[..], head, tail);
      var h := head;
      head := (h + 1) % BUF_SIZE;
      c := buffer[h];
    }

    /** Takes back the character enqueued last. */
    method Restore() returns (c: Char)
      requires Valid()
      modifies this`tail
      ensures Valid()
      ensures old(Contents()) == [] ==> c == 0 && Contents() == []
      ensures var q := old(Contents());
        q != [] ==> c == q[|q| - 1] && Contents() == q[..|q| - 1]
    {
      RingLength(buffer[..], head, tail);
      if head == tail {
        return 0;
      }
      tail := if tail == 0 then BUF_SIZE - 1 else tail - 1; // 2^32 is a multiple of BUF_SIZE
      c := buffer[tail];
      assert buffer[..][tail := c] == buffer[..];
      RingPush(buffer[..], head, tail, c);
    }

    method QueueLength() returns (n: nat)
      requires Valid()
      ensures n == |Contents()|
    {
      RingLength(buffer[..], head, tail);
      n := (tail - head + BUF_SIZE) % BUF_SIZE;
    }
  }

  lemma RingBound(b: TtyBuffer)
    requires b.Valid()
    ensures |b.Contents()| < BUF_SIZE
  {
    RingLength(b.buffer[..], b.head, b.tail);
  }

  /** Empties the first queue, and appends it to the second if and only if that has room. */
  method MoveQueue(from: TtyBuffer, to: TtyBuffer)
    requires from.Valid() && to.Valid() && from != to && from.buffer != to.buffer
    modifies from, to, to.buffer
    ensures from.Valid() && to.Valid() && from.Contents() == []
    ensures to.Contents() == old(to.Contents()) + old(from.Contents())
       <==> |old(from.Contents())| + |old(to.Contents())| < BUF_SIZE
  {
    hide TtyBuffer.Contents;
    var nr := from.QueueLength();
    ghost var both := to.Contents() + from.Contents();
    while nr > 0
      invariant from.Valid() && to.Valid() && nr == |from.Contents()|
      invariant |both| < BUF_SIZE ==> to.Contents() + from.Contents() == both
    {
      ghost var f, t := from.Contents(), to.Contents();
      var c := from.Dequeue();
      if |both| < BUF_SIZE {
        to.NotFull();
      }
      var ok := to.Enqueue(c);
      nr := nr - 1;
      assert f == [f[0]] + f[1..];
      assert |both| < BUF_SIZE ==> to.Contents() + from.Contents() == t + ([c] + f[1..]);
    }
    RingBound(to);
  }

  /** The first element may as well be the last of what goes before. */
  lemma Shift(done: seq<Char>, q: seq<Char>)
    requires q != []
    ensures done + q == (done + [q[0]]) + q[1..]
  {
  }

  // ----- line editing on values

  /** What the keys typed so far have submitted, and the line being edited. */
  datatype Edit = Edit(submitted: seq<Char>, line: seq<Char>)

  function Key(e: Edit, c: Char): Edit {
    if c == BACKSPACE then (if e.line == [] then e else e.(line := e.line[..|e.line| - 1]))
    else if c == NEWLINE then Edit(e.submitted + e.line + [c], [])
    else e.(line := e.line + [c])
  }

  function Typed(keys: seq<Char>): Edit {
    if keys == [] then Edit([], []) else Key(Typed(keys[..|keys| - 1]), keys[|keys| - 1])
  }

  lemma TypedNext(keys: seq<Char>, c: Char)
    ensures Typed(keys + [c]) == Key(Typed(keys), c)
  {
    assert (keys + [c])[..|keys|] == keys;
  }

  /** Earlier submissions do not matter to a key. */
  lemma KeyAppends(pre: seq<Char>, e: Edit, c: Char)
    ensures Key(Edit(pre + e.submitted, e.line), c) == Edit(pre + Key(e, c).submitted, Key(e, c).line)
  {
    assert pre + e.submitted + e.line + [c] == pre + (e.submitted + e.line + [c]);
  }

  lemma {:induction false} TypedMore(keys: seq<Char>, more: seq<Char>)
    ensures Typed(keys).submitted <= Typed(keys + more).submitted
    decreases |more|
  {
    if more == [] {
      assert keys + more == keys;
    } else {
      var n := |more| - 1;
      TypedMore(keys, more[..n]);
      assert (keys + more)[..|keys + more| - 1] == keys + more[..n];
    }
  }

  /** A character and a backspace after it cancel out, but a submitted line stays submitted. */
  lemma BackspaceUndoes(keys: seq<Char>, c: Char)
    requires c != BACKSPACE
    ensures Typed(keys + [c, BACKSPACE]) == if c == NEWLINE then Typed(keys + [c]) else Typed(keys)
  {
    var ks := keys + [c, BACKSPACE];
    assert ks[..|ks| - 1] == keys + [c];
    assert (keys + [c])[..|keys|] == keys;
  }

  /** With nothing on the line a backspace does nothing; so this, BackspaceUndoes and
      PlainTyping determine what any keys amount to. */
  lemma BackspaceOnEmpty(keys: seq<Char>)
    requires Typed(keys).line == []
    ensures Typed(keys + [BACKSPACE]) == Typed(keys)
  {
    TypedNext(keys, BACKSPACE);
  }

  /** Without backspaces, typing is the identity: nothing is lost, doubled or moved. */
  lemma {:induction false} PlainTyping(keys: seq<Char>)
    requires BACKSPACE !in keys
    ensures Typed(keys).submitted + Typed(keys).line == keys
    decreases |keys|
  {
    if keys != [] {
      var ks, c := keys[..|keys| - 1], keys[|keys| - 1];
      PlainTyping(ks);
      var e := Typed(ks);
      assert Typed(keys) == Key(e, c);
      hide Typed;
      assert c in keys && keys == ks + [c];
      assert Key(e, c).submitted + Key(e, c).line == e.submitted + e.line + [c];
    }
  }

  /** What is submitted is whole lines, and what is not yet submitted holds no newline. */
  lemma {:induction false} WholeLines(keys: seq<Char>)
    ensures var e := Typed(keys);
      NEWLINE !in e.line && (e.submitted == [] || e.submitted[|e.submitted| - 1] == NEWLINE)
    decreases |keys|
  {
    if keys != [] {
      WholeLines(keys[..|keys| - 1]);
    }
  }

  class Terminal {
    const input: TtyBuffer
    const line: TtyBuffer

    ghost predicate Valid()
      reads this, input, line
    {
      input.Valid() && line.Valid() && input != line && input.buffer != line.buffer
    }

    constructor ()
      ensures Valid() && input.Contents() == [] && line.Contents() == []
      ensures fresh(input) && fresh(line) && fresh(input.buffer) && fresh(line.buffer)
    {
      input := new TtyBuffer();
      line := new TtyBuffer();
    }

    /** The queues have room for what c causes: a backspace needs none. */
    ghost predicate Room(c: Char)
      requires Valid()
      reads this, input, line, input.buffer, line.buffer
    {
      if c == BACKSPACE then true
      else if c == NEWLINE then |input.Contents()| + |line.Contents()| <= BUF_SIZE - 2
      else |line.Contents()| <= BUF_SIZE - 2
    }

    /** tty_input, without the echo and the wakeup: it edits the line as it should if and only
        if there is room. Without room an ordinary character is dropped, or, at the position
        that FULL misses, the line is; a newline always ends the line. */
    method TtyInput(c: Char)
      requires Valid()
      modifies input, line, input.buffer, line.buffer
      ensures Valid()
      ensures Edit(input.Contents(), line.Contents()) == Key(Edit(old(input.Contents()), old(line.Contents())), c)
         <==> old(Room(c))
      ensures c == NEWLINE ==> line.Contents() == []
      ensures c != NEWLINE ==> input.Contents() == old(input.Contents())
      ensures !old(Room(c)) && c != NEWLINE ==>
        line.Contents() == if old(line.Overflows()) then [] else old(line.Contents())
    {
      RingBound(line);
      RingBound(input);
      if c == BACKSPACE {
        var r := line.Restore();
      } else if c == NEWLINE {
        var ok := line.Enqueue(c);
        MoveQueue(line, input);
        RingBound(input);
      } else {
        var ok := line.Enqueue(c);
        RingBound(line);
      }
    }

    /** One pass of do_read's loop on descriptor 0. Without input the caller goes to sleep, and
        does this again when it is woken; otherwise it gets as many characters as asked for, or
        all there are. */
    method Read(nbytes: nat) returns (waits: bool, data: seq<Char>)
      requires Valid()
      modifies input
      ensures Valid() && line.Contents() == old(line.Contents())
      ensures waits <==> old(input.Contents()) == []
      ensures |data| == if |old(input.Contents())| > nbytes then nbytes else |old(input.Contents())|
      ensures data + input.Contents() == old(input.Contents())
    {
      hide TtyBuffer.Contents;
      var len := input.QueueLength();
      data := [];
      if len == 0 {
        return true, data;
      }
      waits := false;
      var n := if len > nbytes then nbytes else len;
      while |data| < n
        invariant Valid() && line.Contents() == old(line.Contents())
        invariant |data| <= n && data + input.Contents() == old(input.Contents())
      {
        ghost var q := input.Contents();
        var c := input.Dequeue();
        Shift(data, q);
        data := data + [c];
      }
    }
  }
}
