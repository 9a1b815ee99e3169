/** libc/lib/stdio/_fillbuf.c and getc, on top of the terminal. */
module Stdio {
  import opened Tty

  const BUFSIZ: nat := 1024
  const EOF := -1

  /** (int) of a char, which is signed on this machine. */
  function SignExtend(c: Char): int {
    if c < 128 then c else c - 256
  }

  class File {
    var cnt: int
    var ptr: nat
    var base: array?<Char>

    ghost predicate Valid()
      reads this
    {
      && cnt <= BUFSIZ && (base != null ==> base.Length == BUFSIZ)
      && (cnt >= 1 ==> base != null && ptr + cnt - 1 <= BUFSIZ)
    }

    /** What is left in the buffer. The getc macro counts down before it tests, so a count
        of one means that nothing is left. */
    ghost function Rest(): seq<Char>
      requires Valid()
      reads this, base
    {
      if cnt >= 1 then base[ptr..ptr + cnt - 1] else []
    }

    constructor ()
      ensures Valid() && Rest() == [] && base == null
    {
      cnt, ptr, base := 0, 0, null;
    }

    /** The buffer is no part of the terminal. */
    ghost predicate Apart(t: Terminal)
      reads this
    {
      base != t.input.buffer && base != t.line.buffer
    }

    /** The submitted characters the program has not got yet. */
    ghost function Ahead(t: Terminal): seq<Char>
      requires Valid() && t.Valid()
      reads this, base, t, t.input, t.line, t.input.buffer
    {
      Rest() + t.input.Contents()
    }

    /** _fillbuf. mallocOk says whether malloc would succeed; c is the character that was next.
        When there is no input, read puts the caller to sleep; to go on after that is to run
        _fillbuf again, which finds its buffer in place. */
    method FillBuf(t: Terminal, mallocOk: bool) returns (waits: bool, r: int, ghost c: Char)
      requires Valid() && t.Valid() && Apart(t) && Rest() == []
      modifies this, t.input, base
      ensures Valid() && t.Valid() && Apart(t) && t.line.Contents() == old(t.line.Contents())
      ensures base == old(base) || fresh(base)
      ensures waits <==> (old(base) != null || mallocOk) && old(Ahead(t)) == []
      ensures waits ==> Ahead(t) == [] && base != null
      ensures old(base) == null && !mallocOk ==> r == EOF && Ahead(t) == old(Ahead(t))
      ensures (old(base) != null || mallocOk) && !waits ==> r == SignExtend(c) && old(Ahead(t)) == [c] + Ahead(t)
    {
      hide TtyBuffer.Contents;
      c, r, waits := 0, EOF, false;
      if base == null {
        if !mallocOk {
          return;
        }
        base := new Char[BUFSIZ](_ => 0);
      }
      ptr := 0;
      var data;
      waits, data := t.Read(BUFSIZ);
      if waits {
        return;
      }
      forall i | 0 <= i < |data| {
        base[i] := data[i];
      }
      cnt := |data|;
      if cnt <= 0 {
        return;
      }
      r := SignExtend(base[ptr]);
      ptr := ptr + 1;
      c := data[0];
      assert base[..|data|] == data;
      assert data == [c] + Rest();
      assert data + t.input.Contents() == [c] + (Rest() + t.input.Contents());
    }

    /** getc. The character comes back as an unsigned value from the buffer, but sign-extended
        when _fillbuf had to fetch it. */
    method Getc(t: Terminal, mallocOk: bool) returns (waits: bool, r: int, ghost c: Char)
      requires Valid() && t.Valid() && Apart(t)
      modifies this, t.input, base
      ensures Valid() && t.Valid() && Apart(t) && t.line.Contents() == old(t.line.Contents())
      ensures base == old(base) || fresh(base)
      ensures waits <==> (old(base) != null || mallocOk) && old(Ahead(t)) == []
      ensures waits ==> Ahead(t) == [] && base != null
      ensures old(base) == null && !mallocOk ==> r == EOF && Ahead(t) == old(Ahead(t))
      ensures (old(base) != null || mallocOk) && !waits ==>
        old(Ahead(t)) == [c] + Ahead(t) && r == if old(Rest()) != [] then c else SignExtend(c)
    {
      hide TtyBuffer.Contents;
      ghost var rest := Rest();
      cnt := cnt - 1;
      if cnt > 0 {
        waits := false;
        r := base[ptr];
        c := base[ptr];
        ptr := ptr + 1;
        assert rest == [c] + Rest();
        assert rest + t.input.Contents() == [c] + (Rest() + t.input.Contents());
      } else {
        waits, r, c := FillBuf(t, mallocOk);
      }
    }
  }

  /** So what getc returns is the character itself if and only if the character is below 128
      or came out of the buffer. */
  lemma CharOrSignExtended(c: Char, buffered: bool)
    ensures (if buffered then c else SignExtend(c)) == c <==> buffered || c < 128
    ensures SignExtend(c) == EOF <==> c == 255
  {
  }

  /** A terminal and a program that reads it with getchar. keys and delivered record what was
      typed and what the program got. */
  class Console {
    const terminal: Terminal
    const stdin: File
    ghost var keys: seq<Char>
    ghost var delivered: seq<Char>

    ghost predicate Parts()
      reads this, terminal, terminal.input, terminal.line, stdin
    {
      terminal.Valid() && stdin.Valid() && stdin.Apart(terminal)
    }

    /** The characters delivered, those still in the stdio buffer and those still in input_buf
        are together exactly what was submitted, and line_buf is the line being edited. */
    ghost predicate Valid()
      reads this, terminal, terminal.input, terminal.line, stdin
      reads terminal.input.buffer, terminal.line.buffer, stdin.base
    {
      && Parts()
      && delivered + stdin.Rest() + terminal.input.Contents() == Typed(keys).submitted
      && terminal.line.Contents() == Typed(keys).line
    }

    constructor ()
      ensures Valid() && keys == [] && delivered == []
    {
      terminal := new Terminal();
      stdin := new File();
      keys, delivered := [], [];
    }

    /** A key keeps the console in order if and only if the queues have room for it. */
    method Press(c: Char)
      requires Valid()
      modifies this`keys, terminal.input, terminal.line, terminal.input.buffer, terminal.line.buffer
      ensures Parts() && keys == old(keys) + [c] && delivered == old(delivered)
      ensures Valid() <==> old(terminal.Room(c))
    {
      hide TtyBuffer.Contents, Typed, Key;
      ghost var got := delivered + stdin.Rest();
      ghost var e := Edit(terminal.input.Contents(), terminal.line.Contents());
      KeyAppends(got, e, c);
      terminal.TtyInput(c);
      keys := keys + [c];
      TypedNext(old(keys), c);
      SamePrefix(got, terminal.input.Contents(), Key(e, c).submitted);
    }

    /** getchar delivers the next submitted character, over any interleaving with typing: as it
        is from the stdio buffer, sign-extended when it had to be fetched. It waits if and only
        if there is none; EOF, with nothing taken, when there is no buffer and malloc fails. */
    method GetChar(mallocOk: bool) returns (waits: bool, r: int)
      requires Valid()
      modifies this`delivered, stdin, terminal.input, stdin.base
      ensures Valid() && keys == old(keys)
      ensures var fails := old(stdin.base) == null && !mallocOk;
        && (waits <==> !fails && old(delivered) == Typed(keys).submitted)
        && (fails ==> r == EOF)
        && (fails || waits ==> delivered == old(delivered))
        && (!fails && !waits ==>
              && |delivered| == |old(delivered)| + 1 && old(delivered) < delivered <= Typed(keys).submitted
              && var c := delivered[|old(delivered)|]; r == if old(stdin.Rest()) != [] then c else SignExtend(c))
    {
      hide TtyBuffer.Contents, Typed;
      ghost var q := stdin.Ahead(terminal);
      assert delivered + q == delivered + stdin.Rest() + terminal.input.Contents();
      ghost var fails := stdin.base == null && !mallocOk;
      ghost var c;
      waits, r, c := stdin.Getc(terminal, mallocOk);
      if !fails && !waits {
        Delivered(delivered, c, stdin.Ahead(terminal));
        delivered := delivered + [c];
      }
      assert delivered + stdin.Rest() + terminal.input.Contents() == delivered + stdin.Ahead(terminal);
    }
  }

  lemma SamePrefix(a: seq<Char>, b: seq<Char>, c: seq<Char>)
    ensures a + b == a + c <==> b == c
  {
    assert (a + b)[|a|..] == b && (a + c)[|a|..] == c;
  }

  lemma Delivered(d: seq<Char>, c: Char, rest: seq<Char>)
    ensures d + ([c] + rest) == (d + [c]) + rest
  {
  }
}
