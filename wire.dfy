/** What client and server share: the protocol's fixed strings, the connection
    as a pair of byte streams, the line framing of readLine and the two send
    helpers. Both programs carry identical copies of readLine, sendSimple and
    sendLine; they are modelled once here. */
module Wire {
  import opened CLib

  /** readLine stores at most BUFFER_LEN - 1 characters. */
  const MaxLine: nat := BufferLen - 1

  /** Text that readLine gives back unchanged when it is sent as a line:
      no NUL, no newline, shorter than the bound. */
  type LineText = s: CStr | '\n' !in s && |s| < MaxLine witness []

  /** PROTOCOL_HEAD: the handshake line. */
  const ProtocolHead: LineText := "< Martinu Protocol version 1.0 >"
  /** PROTOCOL_END: the line that closes every response. */
  const ProtocolEnd: LineText := "< Martinu protocol -- End >"

  /** One end of a TCP connection. `pending` holds what the peer has sent and
      this end has not read yet; `sent` is everything this end has written.
      Each `char` stands for one byte of the stream, so the bounds below
      (BufferLen and the MaxLine stored characters) count bytes. */
  class Connection {
    var pending: seq<char>
    var sent: seq<char>

    constructor (input: seq<char>)
      ensures pending == input && sent == []
    {
      pending := input;
      sent := [];
    }

    /** read(fd, &c, 1). An exhausted input is a failed read (-1). */
    method ReadChar() returns (ret: int, c: char)
      modifies this`pending
      ensures old(pending) == [] ==> ret < 0 && pending == []
      ensures old(pending) != [] ==> ret == 1 && c == old(pending)[0] && pending == old(pending)[1..]
    {
      if pending == [] {
        ret, c := -1, '\0';
      } else {
        ret, c := 1, pending[0];
        pending := pending[1..];
      }
    }

    /** read(fd, data, count): takes whatever is pending, up to `count` characters,
        into the front of `data` and returns how many it took. */
    method ReadInto(data: array<char>, count: nat) returns (n: nat)
      requires count <= data.Length
      modifies this`pending, data
      ensures n == Min(count, |old(pending)|)
      ensures data[..] == old(pending)[..n] + old(data[..])[n..]
      ensures pending == old(pending)[n..]
    {
      n := Min(count, |pending|);
      var src := pending;
      forall i | 0 <= i < n {
        data[i] := src[i];
      }
      pending := pending[n..];
    }

    /** write(fd, s, |s|), assumed to succeed. */
    method Write(s: seq<char>)
      modifies this`sent
      ensures sent == old(sent) + s
    {
      sent := sent + s;
    }
  }

  /** How a call to readLine ended. */
  datatype Outcome =
    | EndOfLine    // met '\n': the newline is consumed, not stored
    | ReadFailed   // the read failed (input exhausted) before any newline
    | Truncated    // MaxLine characters stored, no newline among them

  /** What one readLine does to the input: the characters it stores, why it
      stopped and the input left for the next read. */
  datatype Framed = Framed(text: seq<char>, outcome: Outcome, rest: seq<char>)

  /** The number of leading non-newline characters of `s`, but at most `cap`. */
  function LineSpan(s: seq<char>, cap: nat): (k: nat)
    ensures k <= cap && k <= |s|
    ensures '\n' !in s[..k]
    ensures k < cap && k < |s| ==> s[k] == '\n'
  {
    if cap == 0 || s == [] || s[0] == '\n' then 0
    else
      var k := LineSpan(s[1..], cap - 1);
      assert s[..k + 1] == [s[0]] + s[1..][..k];
      k + 1
  }

  /** The framing rule of readLine (ipk-server.c and ipk-client.c alike). */
  function Frame(input: seq<char>): (f: Framed)
    ensures |f.text| <= MaxLine
    ensures input != [] ==> |f.rest| < |input|
  {
    var k := LineSpan(input, MaxLine);
    if k == MaxLine then Framed(input[..k], Truncated, input[k..])
    else if k == |input| then Framed(input, ReadFailed, [])
    else Framed(input[..k], EndOfLine, input[k + 1..])
  }

  /** readLine consumes exactly the stored text, plus the newline when it met
      one; it never stores a newline, and it stops short of the bound unless
      it truncated. */
  lemma FrameSplits(input: seq<char>)
    ensures var f := Frame(input);
      && '\n' !in f.text
      && input == f.text + (if f.outcome == EndOfLine then "\n" else "") + f.rest
      && (f.outcome == Truncated <==> |f.text| == MaxLine)
      && (f.outcome == ReadFailed ==> f.rest == [])
      && |input| - |f.rest| <= MaxLine
  {
    var k := LineSpan(input, MaxLine);
    if k == MaxLine {
      assert input == input[..k] + input[k..];
    } else if k == |input| {
      assert input[..k] == input;
    } else {
      assert input == input[..k] + "\n" + input[k + 1..];
    }
  }

  /** A newline among the first MaxLine characters ends the line: the text
      before it is stored, the newline consumed, nothing after it. */
  lemma FrameAtNewline(input: seq<char>, i: nat)
    requires i < MaxLine && i < |input| && input[i] == '\n' && '\n' !in input[..i]
    ensures Frame(input) == Framed(input[..i], EndOfLine, input[i + 1..])
  {
  }

  /** MaxLine characters without a newline: all of them are stored, and the
      rest of the physical line, newline included, is left for the next call. */
  lemma FrameAtBoundary(input: seq<char>)
    requires |input| >= MaxLine && '\n' !in input[..MaxLine]
    ensures Frame(input) == Framed(input[..MaxLine], Truncated, input[MaxLine..])
  {
  }

  /** Input exhausted before any newline and before the bound: all of it is stored. */
  lemma FrameAtFailure(input: seq<char>)
    requires |input| < MaxLine && '\n' !in input
    ensures Frame(input) == Framed(input, ReadFailed, [])
  {
  }

  /** A line sent with sendLine and read back with readLine comes out unchanged. */
  lemma FrameSentLine(line: seq<char>, tail: seq<char>)
    requires '\n' !in line && |line| < MaxLine
    ensures Frame(line + "\n" + tail) == Framed(line, EndOfLine, tail)
  {
    var input := line + "\n" + tail;
    assert input[..|line|] == line;
    assert input[|line| + 1..] == tail;
    FrameAtNewline(input, |line|);
  }

  /** The buffer after readLine over `buf`: the stored text, then the NUL it
      writes unless it stopped at the bound, then the old contents. */
  function Stored(buf: seq<char>, f: Framed): seq<char>
    requires |buf| == BufferLen && |f.text| < BufferLen
  {
    if f.outcome == Truncated then f.text + buf[|f.text|..]
    else f.text + ['\0'] + buf[|f.text| + 1..]
  }

  /** readLine never touches the last cell of the buffer: the characters it
      stores and the NUL it writes all lie below index MaxLine. */
  lemma StoredKeepsLastCell(buf: seq<char>, input: seq<char>)
    requires |buf| == BufferLen
    ensures Stored(buf, Frame(input))[MaxLine] == buf[MaxLine]
  {
    FrameSplits(input);
  }

  /** What readLine returns: the stored length, or 0 at the bound. */
  function Returned(f: Framed): nat
  {
    if f.outcome == Truncated then 0 else |f.text|
  }

  /** A bzero'd buffer of BUFFER_LEN characters. */
  function Zeros(): (z: seq<char>)
    ensures |z| == BufferLen && forall i :: 0 <= i < |z| ==> z[i] == '\0'
  {
    seq(BufferLen, _ => '\0')
  }

  /** A bzero'd buffer holds the empty C string. */
  lemma ZeroedHoldsEmpty(data: array<char>)
    requires data.Length == BufferLen && forall i :: 0 <= i < data.Length ==> data[i] == '\0'
    ensures CString(data[..]) == []
  {
    assert data[..][0] == '\0';
  }

  /** What a caller that bzero'd the buffer sees as the line: the C string of
      the stored text. At the bound this is all MaxLine characters, because
      the last cell of the buffer still holds bzero's NUL. */
  lemma SeenAfterBzero(f: Framed)
    requires |f.text| < BufferLen
    ensures CString(Stored(Zeros(), f)) == CString(f.text)
  {
    var z := Zeros();
    if f.outcome == Truncated {
      assert Stored(z, f) == f.text + z[|f.text|..];
      CStringStopsAtNul(f.text, z[|f.text|..]);
    } else {
      assert Stored(z, f) == f.text + (['\0'] + z[|f.text| + 1..]);
      CStringStopsAtNul(f.text, ['\0'] + z[|f.text| + 1..]);
    }
  }

  /** readLine(fd, data): copies characters into `data` until a newline, a
      failed read or MaxLine characters. */
  method ReadLine(conn: Connection, data: array<char>) returns (ret: nat)
    requires data.Length == BufferLen
    modifies conn`pending, data
    ensures conn.pending == Frame(old(conn.pending)).rest
    ensures ret == Returned(Frame(old(conn.pending)))
    ensures data[..] == Stored(old(data[..]), Frame(old(conn.pending)))
  {
    ghost var input := conn.pending;
    ghost var buf := data[..];
    var len := 0;
    while len < MaxLine
      invariant len <= MaxLine && len <= |input|
      invariant conn.pending == input[len..]
      invariant '\n' !in input[..len]
      invariant forall j :: 0 <= j < len ==> data[j] == input[j]
      invariant forall j :: len <= j < BufferLen ==> data[j] == buf[j]
    {
      var r, c := conn.ReadChar();
      if r < 0 {
        assert input[..len] == input;
        FrameAtFailure(input);
        data[len] := '\0';
        assert data[..] == Stored(buf, Frame(input));
        return len;
      }
      if c == '\n' {
        FrameAtNewline(input, len);
        data[len] := '\0';
        assert data[..] == Stored(buf, Frame(input));
        return len;
      }
      assert input[..len + 1] == input[..len] + [c];
      data[len] := c;
      len := len + 1;
    }
    FrameAtBoundary(input);
    assert data[..] == Stored(buf, Frame(input));
    return 0;
  }

  /** sendSimple(fd, s): writes the C string `s`, without a newline. */
  method SendSimple(conn: Connection, s: seq<char>)
    modifies conn`sent
    ensures conn.sent == old(conn.sent) + CString(s)
  {
    conn.Write(CString(s));
  }

  /** A line on the wire: the text and its newline. */
  function Line(s: CStr): seq<char>
  {
    s + "\n"
  }

  /** Lines sent one after the other. */
  function Lines(ls: seq<CStr>): seq<char>
  {
    if ls == [] then [] else Line(ls[0]) + Lines(ls[1..])
  }

  lemma {:induction false} LinesAppend(a: seq<CStr>, b: seq<CStr>)
    ensures Lines(a + b) == Lines(a) + Lines(b)
  {
    if a != [] {
      assert (a + b)[1..] == a[1..] + b;
      LinesAppend(a[1..], b);
    } else {
      assert a + b == b;
    }
  }

  /** One more line sent after `ls`. */
  lemma LinesSnoc(ls: seq<CStr>, x: CStr)
    ensures Lines(ls + [x]) == Lines(ls) + Line(x)
  {
    LinesAppend(ls, [x]);
    assert Lines([x]) == Line(x) + Lines([]);
  }

  /** sendLine(fd, s): sendSimple of `s`, then of NEWLINE. */
  method SendLine(conn: Connection, s: seq<char>)
    modifies conn`sent
    ensures conn.sent == old(conn.sent) + Line(CString(s))
  {
    SendSimple(conn, s);
    SendSimple(conn, "\n");
  }
}
