/** The line reading of sun.security.util.Password.readPassword when no
    console is used: octets are read one at a time up to a line terminator
    into a growable char buffer, and every buffer that held the password is
    overwritten before the method returns. */
module Passwords {
  import opened Bytes
  import opened Wrappers

  const LF: byte := 10
  const CR: byte := 13

  /** The size of the first buffer and the step by which a full buffer grows. */
  const CHUNK: nat := 128

  // ---------------------------------------------------------------------
  // What a line is

  /** The characters `readPassword` keeps from the octets `s`: those before
      the first `\n` or the end of the stream, where a `\r` right before the
      `\n` or right before the end is dropped. */
  function Line(s: seq<byte>): seq<byte>
    decreases |s|
  {
    if s == [] || s[0] == LF then []
    else if s[0] == CR && (|s| == 1 || s[1] == LF) then []
    else [s[0]] + Line(s[1..])
  }

  /** How many octets `readPassword` takes from the stream: the line and
      its terminator. */
  function Consumed(s: seq<byte>): (n: nat)
    ensures n <= |s|
    decreases |s|
  {
    if s == [] then 0
    else if s[0] == LF then 1
    else if s[0] == CR && |s| == 1 then 1
    else if s[0] == CR && s[1] == LF then 2
    else 1 + Consumed(s[1..])
  }

  /** What the stream holds once the line has been read. */
  function After(s: seq<byte>): seq<byte> {
    s[Consumed(s)..]
  }

  /** The line is the start of the input and holds no `\n`; at least every
      octet of the line was consumed. */
  lemma {:induction false} LineIsPrefix(s: seq<byte>)
    ensures |Line(s)| <= Consumed(s) && Line(s) == s[..|Line(s)|]
    ensures LF !in Line(s)
    decreases |s|
  {
    if s != [] && s[0] != LF && !(s[0] == CR && (|s| == 1 || s[1] == LF)) {
      LineIsPrefix(s[1..]);
    }
  }

  /** A line ended by `\n` reads back as itself, with the terminator
      consumed, as long as it holds no `\n` and does not end in `\r`. */
  lemma {:induction false} LineBeforeLF(p: seq<byte>, rest: seq<byte>)
    requires LF !in p && (p == [] || p[|p| - 1] != CR)
    ensures Line(p + [LF] + rest) == p
    ensures Consumed(p + [LF] + rest) == |p| + 1
    decreases |p|
  {
    if p != [] {
      var s := p + [LF] + rest;
      assert s[1..] == p[1..] + [LF] + rest;
      if |p| == 1 {
        assert s[1] == LF && p[0] != CR;
      } else {
        assert s[1] == p[1];
      }
      LineBeforeLF(p[1..], rest);
      assert p == [p[0]] + p[1..];
    }
  }

  /** A line ended by `\r\n` reads back as itself, with both terminator
      octets consumed, as long as it holds no `\n`. */
  lemma {:induction false} LineBeforeCRLF(p: seq<byte>, rest: seq<byte>)
    requires LF !in p
    ensures Line(p + [CR, LF] + rest) == p
    ensures Consumed(p + [CR, LF] + rest) == |p| + 2
    decreases |p|
  {
    if p != [] {
      var s := p + [CR, LF] + rest;
      assert s[1..] == p[1..] + [CR, LF] + rest;
      assert s[1] != LF by {
        if |p| > 1 {
          assert s[1] == p[1];
        }
      }
      LineBeforeCRLF(p[1..], rest);
      assert p == [p[0]] + p[1..];
    }
  }

  /** A `\r` followed by an octet other than `\n` belongs to the line. */
  lemma LoneCR(b: byte, rest: seq<byte>)
    requires b != LF
    ensures Line([CR, b] + rest) == [CR] + Line([b] + rest)
    ensures After([CR, b] + rest) == After([b] + rest)
  {
    assert ([CR, b] + rest)[1..] == [b] + rest;
  }

  /** The characters `(char) c` of the octets. */
  function Chars(s: seq<byte>): (t: seq<char>)
    ensures |t| == |s| && forall i :: 0 <= i < |s| ==> t[i] == s[i] as char
  {
    seq(|s|, i requires 0 <= i < |s| => s[i] as char)
  }

  lemma CharsAppend(s: seq<byte>, b: byte)
    ensures Chars(s + [b]) == Chars(s) + [b as char]
  {
  }

  // ---------------------------------------------------------------------
  // The stream

  /** An `InputStream` read one octet at a time, with the one-octet buffer of
      the `PushbackInputStream` that `readPassword` wraps it in when it has
      to put an octet back. */
  class LineInput {
    /** The octets the underlying stream has still to deliver. */
    var rest: seq<byte>
    /** The octet pushed back and not read again yet. */
    var pushed: Option<byte>

    constructor (data: seq<byte>)
      ensures rest == data && pushed.None?
    {
      rest := data;
      pushed := None;
    }

    /** The octets the next reads deliver. */
    function Pending(): seq<byte>
      reads this
    {
      (if pushed.Some? then [pushed.value] else []) + rest
    }

    /** `read()`: the next octet, or -1 at the end of the stream. */
    method Read() returns (c: int)
      modifies this
      ensures pushed.None?
      ensures old(Pending()) == [] ==> c == -1 && Pending() == []
      ensures old(Pending()) != [] ==> c == old(Pending())[0] as int && Pending() == old(Pending())[1..]
    {
      if pushed.Some? {
        c := pushed.value;
        pushed := None;
        assert old(Pending()) == [c as byte] + rest;
      } else if rest == [] {
        c := -1;
      } else {
        c := rest[0];
        rest := rest[1..];
      }
    }

    /** `unread(b)`: the buffer holds one octet, so it must be empty. */
    method Unread(b: byte)
      requires pushed.None?
      modifies this
      ensures pushed == Some(b) && rest == old(rest)
      ensures Pending() == [b] + old(Pending())
    {
      pushed := Some(b);
    }
  }

  // ---------------------------------------------------------------------
  // Buffers

  /** `System.arraycopy(src, 0, dst, 0, n)`. */
  method CopyPrefix(src: array<char>, dst: array<char>, n: nat)
    requires n <= src.Length && n <= dst.Length && src != dst
    modifies dst
    ensures dst[..n] == src[..n]
    ensures forall j :: n <= j < dst.Length ==> dst[j] == old(dst[j])
  {
    forall j | 0 <= j < n {
      dst[j] := src[j];
    }
  }

  /** `Arrays.fill(a, c)`. */
  method Fill(a: array<char>, c: char)
    modifies a
    ensures forall j :: 0 <= j < a.Length ==> a[j] == c
  {
    forall j | 0 <= j < a.Length {
      a[j] := c;
    }
  }

  /** The working buffers in the order they were allocated, the last one
      `buf` holding `offset` characters: sizes grow by 128 each time, a new
      one is taken only once the old one is full, the unused part of `buf`
      is untouched, and every earlier buffer was overwritten with `' '`. */
  ghost predicate BuffersOk(buf: array<char>, offset: nat, buffers: seq<array<char>>)
    reads set i | 0 <= i < |buffers| :: buffers[i]
  {
    buffers != [] && buf == buffers[|buffers| - 1] && offset <= buf.Length &&
    (forall j :: offset <= j < buf.Length ==> buf[j] == '\0') &&
    (|buffers| > 1 ==> CHUNK * (|buffers| - 1) < offset) &&
    (forall i :: 0 <= i < |buffers| ==> buffers[i].Length == CHUNK * (i + 1)) &&
    (forall i :: 0 <= i < |buffers| - 1 ==> buffers[i] != buf) &&
    (forall i, j :: 0 <= i < |buffers| - 1 && 0 <= j < buffers[i].Length ==> buffers[i][j] == ' ')
  }

  /** The `default:` arm of the switch: `buf[offset++] = (char) c`, after
      moving to a buffer 128 characters longer than `offset` and wiping the
      old one when `--room < 0`. */
  method Store(buf: array<char>, offset: nat, room: int, c: char, ghost buffers: seq<array<char>>)
    returns (newBuf: array<char>, newRoom: int, ghost newBuffers: seq<array<char>>)
    requires BuffersOk(buf, offset, buffers) && room == buf.Length - offset
    modifies buf
    ensures BuffersOk(newBuf, offset + 1, newBuffers) && newRoom == newBuf.Length - (offset + 1)
    ensures newBuf[..offset + 1] == old(buf[..offset]) + [c]
    ensures newBuffers == buffers || (newBuffers == buffers + [newBuf] && fresh(newBuf))
  {
    var lineBuffer := buf;
    newBuf, newRoom, newBuffers := buf, room - 1, buffers;
    if newRoom < 0 {
      newBuf := new char[offset + 128](_ => '\0');
      newRoom := newBuf.Length - offset - 1;
      CopyPrefix(lineBuffer, newBuf, offset);
      Fill(lineBuffer, ' ');
      newBuffers := buffers + [newBuf];
    }
    newBuf[offset] := c;
    assert newBuf[..offset + 1] == newBuf[..offset] + [c];
  }

  /** One turn of the `switch (c = in.read())`: either an octet of the line
      (a `\r` followed by another octet, which goes back to the stream, or
      any octet but `\n`), or the end of the line, with its terminator
      consumed. */
  method NextOctet(input: LineInput) returns (c: int, store: bool)
    modifies input
    ensures var s := old(input.Pending());
      if store then
        s != [] && c == s[0] as int && |input.Pending()| < |s| &&
        Line(s) == [s[0]] + Line(input.Pending()) && After(s) == After(input.Pending())
      else
        Line(s) == [] && input.Pending() == After(s) && input.pushed.None?
  {
    ghost var before := input.Pending();
    c := input.Read();
    store := false;
    if c == -1 || c == LF as int {
    } else if c == CR as int {
      var c2 := input.Read();
      if c2 != LF as int && c2 != -1 {
        LoneCR(c2, input.Pending());
        input.Unread(c2);
        store := true;
      }
    } else {
      store := true;
      assert before == [c as byte] + input.Pending();
    }
  }

  /** The final `Arrays.fill(buf, ' ')`: with it every working buffer is wiped. */
  method WipeLast(buf: array<char>, offset: nat, ghost buffers: seq<array<char>>)
    requires BuffersOk(buf, offset, buffers)
    modifies buf
    ensures forall i, j :: 0 <= i < |buffers| && 0 <= j < buffers[i].Length ==> buffers[i][j] == ' '
  {
    Fill(buf, ' ');
  }

  /** The state of the working buffer: `buf[0..offset)` holds the octets
      `seen` kept so far, and `room` counts the free places after them. */
  ghost predicate Holding(buf: array<char>, offset: nat, room: int, buffers: seq<array<char>>, seen: seq<byte>)
    reads set i | 0 <= i < |buffers| :: buffers[i]
  {
    BuffersOk(buf, offset, buffers) && room == buf.Length - offset &&
    |seen| == offset && buf[..offset] == Chars(seen)
  }

  /** One turn of the `while (!done)` loop: the `switch` on the next octet,
      then keeping that octet in the buffer unless the line has ended. */
  method Turn(input: LineInput, buf: array<char>, offset: nat, room: int,
              ghost buffers: seq<array<char>>, ghost seen: seq<byte>, ghost line: seq<byte>)
    returns (done: bool, newBuf: array<char>, newOffset: nat, newRoom: int,
             ghost newBuffers: seq<array<char>>, ghost newSeen: seq<byte>)
    requires Holding(buf, offset, room, buffers, seen)
    requires line == seen + Line(input.Pending())
    modifies input, buf
    ensures Holding(newBuf, newOffset, newRoom, newBuffers, newSeen)
    ensures newBuffers == buffers || (newBuffers == buffers + [newBuf] && fresh(newBuf))
    ensures !done ==>
      line == newSeen + Line(input.Pending()) && After(old(input.Pending())) == After(input.Pending()) &&
      |input.Pending()| < |old(input.Pending())|
    ensures done ==> line == newSeen && input.Pending() == After(old(input.Pending())) && input.pushed.None?
  {
    var c, store := NextOctet(input);
    done := !store;
    newBuf, newOffset, newRoom, newBuffers, newSeen := buf, offset, room, buffers, seen;
    if store {
      newBuf, newRoom, newBuffers := Keep(buf, offset, room, c as byte, buffers, seen);
      newOffset := offset + 1;
      newSeen := seen + [c as byte];
      assert line == newSeen + Line(input.Pending());
    }
  }

  /** Storing one octet of the line keeps the buffer holding what was seen. */
  method Keep(buf: array<char>, offset: nat, room: int, c: byte,
              ghost buffers: seq<array<char>>, ghost seen: seq<byte>)
    returns (newBuf: array<char>, newRoom: int, ghost newBuffers: seq<array<char>>)
    requires Holding(buf, offset, room, buffers, seen)
    modifies buf
    ensures Holding(newBuf, offset + 1, newRoom, newBuffers, seen + [c])
    ensures newBuffers == buffers || (newBuffers == buffers + [newBuf] && fresh(newBuf))
  {
    newBuf, newRoom, newBuffers := Store(buf, offset, room, c as char, buffers);
    CharsAppend(seen, c);
  }

  /** The `while (!done)` loop of `readPassword`: the line ends up in
      `buf[0..offset)`, and `buf` is the last of the working buffers. */
  method ReadLine(input: LineInput) returns (buf: array<char>, offset: nat, ghost buffers: seq<array<char>>)
    modifies input
    ensures BuffersOk(buf, offset, buffers) && buffers[0].Length == CHUNK
    ensures forall i :: 0 <= i < |buffers| ==> fresh(buffers[i])
    ensures buf[..offset] == Chars(Line(old(input.Pending())))
    ensures input.Pending() == After(old(input.Pending())) && input.pushed.None?
  {
    ghost var s0 := input.Pending();
    buf := new char[128](_ => '\0');
    buffers := [buf];
    var room := buf.Length;
    offset := 0;
    var done := false;
    ghost var seen: seq<byte> := [];
    while !done
      invariant Holding(buf, offset, room, buffers, seen)
      invariant forall i :: 0 <= i < |buffers| ==> fresh(buffers[i])
      invariant !done ==> Line(s0) == seen + Line(input.Pending()) && After(s0) == After(input.Pending())
      invariant done ==> Line(s0) == seen && input.Pending() == After(s0) && input.pushed.None?
      decreases if done then 0 else |input.Pending()| + 1
    {
      done, buf, offset, room, buffers, seen := Turn(input, buf, offset, room, buffers, seen, Line(s0));
    }
  }

  /** `readPassword(in, isEchoOn)` without a console. It returns the line
      as characters, or null when the line is empty; it consumes the line
      and its terminator. `buffers` are the working buffers in the order
      they were allocated: their sizes grow by 128 each time, and none
      still holds a character of the password when the method returns. */
  method ReadPassword(input: LineInput) returns (ret: array?<char>, ghost buffers: seq<array<char>>)
    modifies input
    ensures ret == null <==> Line(old(input.Pending())) == []
    ensures ret != null ==> fresh(ret) && ret[..] == Chars(Line(old(input.Pending())))
    ensures input.Pending() == After(old(input.Pending())) && input.pushed.None?
    ensures |buffers| >= 1
    ensures forall i :: 0 <= i < |buffers| ==> fresh(buffers[i]) && buffers[i] != ret && buffers[i].Length == CHUNK * (i + 1)
    ensures ret != null ==> CHUNK * (|buffers| - 1) < ret.Length <= CHUNK * |buffers|
    ensures forall i, j :: 0 <= i < |buffers| && 0 <= j < buffers[i].Length ==>
      buffers[i][j] == (if ret == null then '\0' else ' ')
  {
    var buf, offset;
    buf, offset, buffers := ReadLine(input);
    if offset == 0 {
      assert |buffers| == 1;
      assert forall j :: 0 <= j < buf.Length ==> buf[j] == '\0';
      return null, buffers;
    }
    ret := new char[offset](_ => '\0');
    CopyPrefix(buf, ret, offset);
    WipeLast(buf, offset, buffers);
  }
}
