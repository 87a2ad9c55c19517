/** The client (ipk-client.c): it chooses the request from its options, sends
    it and prints the response lines up to PROTOCOL_END. */
module Client {
  import opened CLib
  import opened Wire
  import opened Server

  datatype Result<T> = Ok(value: T) | Err(msg: seq<char>)

  /** ARG_ERR: reported for every option list the client refuses. */
  const ArgErr: CStr := "Error Wrong arguments"

  /** One option as getopt hands it over: its letter and its argument. */
  datatype Opt = Opt(letter: char, arg: CStr)

  /** What the client sends after the handshake line: the command token
      (`type` in the C code) and the login payload. */
  datatype Request = Request(token: CStr, login: CStr)

  /** The options that choose the query in the seven-argument form. */
  predicate IsLookupLetter(c: char)
  {
    c == 'n' || c == 'f' || c == 'l'
  }

  /** The letters of the option string "p:h:n:f:l:". */
  predicate SevenFormLetter(c: char)
  {
    c == 'p' || c == 'h' || IsLookupLetter(c)
  }

  /** The letters of the option string "p:h:l". */
  predicate SixFormLetter(c: char)
  {
    c == 'p' || c == 'h' || c == 'l'
  }

  /** The token a lookup option puts on the wire: its own spelling. */
  function TokenOf(c: char): (t: CStr)
    requires IsLookupLetter(c)
    ensures TakesPayload(t) && t[1] == c
  {
    ['-', c]
  }

  /** The lookup options, in the order given. */
  function Lookups(opts: seq<Opt>): (found: seq<Opt>)
    ensures |found| <= |opts|
    ensures forall k :: 0 <= k < |found| ==> IsLookupLetter(found[k].letter)
  {
    if opts == [] then []
    else (if IsLookupLetter(opts[0].letter) then [opts[0]] else []) + Lookups(opts[1..])
  }

  lemma {:induction false} LookupsAppend(a: seq<Opt>, b: seq<Opt>)
    ensures Lookups(a + b) == Lookups(a) + Lookups(b)
  {
    if a == [] {
      assert a + b == b;
    } else {
      assert (a + b)[0] == a[0] && (a + b)[1..] == a[1..] + b;
      LookupsAppend(a[1..], b);
    }
  }

  /** An option list in which the option at index `i` is the only lookup option. */
  predicate OnlyLookupAt(opts: seq<Opt>, i: nat)
  {
    i < |opts| && IsLookupLetter(opts[i].letter) &&
    forall j :: 0 <= j < |opts| && j != i ==> !IsLookupLetter(opts[j].letter)
  }

  /** The lookup options are exactly the option at `i` when it is the only one. */
  lemma {:induction false} LookupsOfOnly(opts: seq<Opt>, i: nat)
    requires OnlyLookupAt(opts, i)
    ensures Lookups(opts) == [opts[i]]
  {
    if i == 0 {
      NoLookups(opts[1..]);
    } else {
      assert OnlyLookupAt(opts[1..], i - 1) by {
        forall j | 0 <= j < |opts[1..]| && j != i - 1
          ensures !IsLookupLetter(opts[1..][j].letter)
        {
          assert opts[1..][j] == opts[j + 1];
        }
      }
      LookupsOfOnly(opts[1..], i - 1);
    }
  }

  lemma {:induction false} NoLookups(opts: seq<Opt>)
    requires forall j :: 0 <= j < |opts| ==> !IsLookupLetter(opts[j].letter)
    ensures Lookups(opts) == []
  {
    if opts != [] {
      NoLookups(opts[1..]);
    }
  }

  /** Two lookup options at different places leave at least two lookup options. */
  lemma {:induction false} LookupsOfTwo(opts: seq<Opt>, i: nat, j: nat)
    requires i < j < |opts| && IsLookupLetter(opts[i].letter) && IsLookupLetter(opts[j].letter)
    ensures |Lookups(opts)| >= 2
  {
    assert opts == opts[..j] + opts[j..];
    LookupsAppend(opts[..j], opts[j..]);
    assert opts[..j] == opts[..i] + opts[i..j];
    LookupsAppend(opts[..i], opts[i..j]);
    assert opts[i..j][0] == opts[i];
    assert opts[j..][0] == opts[j];
  }

  /** The option-to-request rule of the client's main, over the options
      getopt delivers; `argc` counts the program name too. */
  function Select(argc: int, opts: seq<Opt>): Result<Request>
  {
    if argc == 7 then
      var found := Lookups(opts);
      if (forall j :: 0 <= j < |opts| ==> SevenFormLetter(opts[j].letter)) && |found| == 1 then
        Ok(Request(TokenOf(found[0].letter), found[0].arg))
      else Err(ArgErr)
    else if argc == 6 then
      if (forall j :: 0 <= j < |opts| ==> SixFormLetter(opts[j].letter)) &&
         exists j :: 0 <= j < |opts| && opts[j].letter == 'l'
      then Ok(Request("-L", []))
      else Err(ArgErr)
    else Err(ArgErr)
  }

  /** Seven arguments with exactly one of -n, -f, -l: that option's token and argument. */
  lemma SelectOneLookup(opts: seq<Opt>, i: nat)
    requires forall j :: 0 <= j < |opts| ==> SevenFormLetter(opts[j].letter)
    requires OnlyLookupAt(opts, i)
    ensures Select(7, opts) == Ok(Request(TokenOf(opts[i].letter), opts[i].arg))
  {
    LookupsOfOnly(opts, i);
  }

  /** Seven arguments with two lookup options, or with none, are refused. */
  lemma SelectRefusesTwoLookups(opts: seq<Opt>, i: nat, j: nat)
    requires i < j < |opts| && IsLookupLetter(opts[i].letter) && IsLookupLetter(opts[j].letter)
    ensures Select(7, opts) == Err(ArgErr)
  {
    LookupsOfTwo(opts, i, j);
  }

  lemma SelectRefusesNoLookup(opts: seq<Opt>)
    requires forall j :: 0 <= j < |opts| ==> !IsLookupLetter(opts[j].letter)
    ensures Select(7, opts) == Err(ArgErr)
  {
    NoLookups(opts);
  }

  /** Every request the client accepts is one the server knows: the
      seven-argument form names a lookup that takes a payload, the
      six-argument form is -L with an empty login, and only -L goes without
      a payload. */
  lemma SelectedIsCommand(argc: int, opts: seq<Opt>)
    requires Select(argc, opts).Ok?
    ensures IsCommand(Select(argc, opts).value.token)
    ensures argc == 7 ==> TakesPayload(Select(argc, opts).value.token)
    ensures argc == 6 ==> Select(argc, opts).value == Request("-L", [])
    ensures !TakesPayload(Select(argc, opts).value.token) ==>
              Select(argc, opts).value == Request("-L", [])
  {
  }

  /** The argument check of main: the getopt loop counting the lookup options
      in `flags`, each one overwriting `type` and `login`. */
  method SelectRequest(argc: int, opts: seq<Opt>) returns (r: Result<Request>)
    ensures r == Select(argc, opts)
  {
    if argc == 7 {
      var flags := 0;
      var token: CStr := [];
      var login: CStr := [];
      var i := 0;
      while i < |opts|
        invariant i <= |opts|
        invariant forall j :: 0 <= j < i ==> SevenFormLetter(opts[j].letter)
        invariant flags == |Lookups(opts[..i])|
        invariant flags == 1 ==> token == TokenOf(Lookups(opts[..i])[0].letter) &&
                                 login == Lookups(opts[..i])[0].arg
      {
        var o := opts[i];
        assert opts[..i + 1] == opts[..i] + [o];
        LookupsAppend(opts[..i], [o]);
        if o.letter == 'p' || o.letter == 'h' {
        } else if IsLookupLetter(o.letter) {
          login := o.arg;
          token := TokenOf(o.letter);
          flags := flags + 1;
        } else {
          return Err(ArgErr);
        }
        i := i + 1;
      }
      assert opts[..i] == opts;
      if flags != 1 {
        return Err(ArgErr);
      }
      r := Ok(Request(token, login));
    } else if argc == 6 {
      var chosen := false;
      var i := 0;
      while i < |opts|
        invariant i <= |opts|
        invariant forall j :: 0 <= j < i ==> SixFormLetter(opts[j].letter)
        invariant chosen <==> exists j :: 0 <= j < i && opts[j].letter == 'l'
      {
        var o := opts[i];
        if o.letter == 'l' {
          chosen := true;
        } else if o.letter != 'p' && o.letter != 'h' {
          return Err(ArgErr);
        }
        i := i + 1;
      }
      if !chosen {
        return Err(ArgErr);
      }
      r := Ok(Request("-L", []));
    } else {
      r := Err(ArgErr);
    }
  }

  /** The bytes of a request: the handshake line, the token line, then the
      login with no newline after it. */
  function Encode(req: Request): seq<char>
  {
    Line(ProtocolHead) + Line(req.token) + req.login
  }

  /** The sending sequence of main: sendLine of PROTOCOL_HEAD and of the
      token, sendSimple of the login. */
  method SendRequest(conn: Connection, req: Request, buffer: array<char>)
    modifies conn`sent, buffer
    ensures conn.sent == old(conn.sent) + Encode(req)
    ensures forall i :: 0 <= i < buffer.Length ==> buffer[i] == '\0'
  {
    ghost var before := conn.sent;
    var head: CStr := ProtocolHead;
    Bzero(buffer);
    SendLine(conn, head);
    Bzero(buffer);
    SendLine(conn, req.token);
    Bzero(buffer);
    SendSimple(conn, req.login);
    Regroup(before, Line(head), Line(req.token), req.login);
  }

  /** Concatenation regrouped. */
  lemma Associate<T>(a: seq<T>, b: seq<T>, c: seq<T>)
    ensures a + (b + c) == a + b + c
  {
  }

  lemma Regroup<T>(s: seq<T>, a: seq<T>, b: seq<T>, c: seq<T>)
    ensures s + a + b + c == s + (a + b + c)
  {
  }

  /** What the server makes of a sent token line and login, when the whole
      login arrives in its one raw read. */
  lemma ReadSentCommand(token: CStr, login: CStr)
    requires IsCommand(token) && |login| <= MaxLine
    ensures ReadCommand(Line(token) + login)
         == Command(token, if TakesPayload(token) then login else [], if TakesPayload(token) then [] else login)
  {
    FrameSentLine(token, login);
    assert Line(token) + login == token + "\n" + login;
    assert login[..Min(MaxLine, |login|)] == login;
  }

  /** Client encode, server decode: the server sees the correct header and
      the token as sent, and, when the login fits the buffer, the login as
      the payload of -n, -f and -l. After -L the login stays unread. */
  lemma RequestParsed(req: Request)
    requires IsCommand(req.token) && |req.login| <= MaxLine
    requires TakesPayload(req.token) ==> req.login != []
    ensures ParseRequest(Encode(req)) == Received(ProtocolHead,
              if TakesPayload(req.token) then Command(req.token, req.login, [])
              else Command(req.token, [], req.login))
  {
    var rest := Line(req.token) + req.login;
    assert Encode(req) == ProtocolHead + "\n" + rest;
    ParseSentHeader(ProtocolHead, rest);
    ReadSentCommand(req.token, req.login);
  }

  /** An empty login for `-n`, `-f` or `-l` puts nothing on the wire after the
      token line, so once the server has read its two lines nothing is left
      for the raw read of the login; the program's read then waits for ever. */
  lemma EmptyLoginLeavesNothingPending(req: Request)
    requires IsCommand(req.token) && TakesPayload(req.token) && req.login == []
    ensures Frame(Frame(Encode(req)).rest).rest == []
  {
    var head: CStr := ProtocolHead;
    assert Encode(req) == head + "\n" + Line(req.token);
    FrameSentLine(head, Line(req.token));
    assert Line(req.token) == req.token + "\n" + [];
    FrameSentLine(req.token, []);
  }

  /** A login longer than the buffer allows reaches the server cut after
      MaxLine characters; the remainder stays unread. */
  lemma LongLoginTruncated(req: Request)
    requires TakesPayload(req.token) && |req.login| > MaxLine
    ensures var c := ParseRequest(Encode(req)).command;
      c.payload == req.login[..MaxLine] && c.rest == req.login[MaxLine..]
  {
    var rest := Line(req.token) + req.login;
    assert Encode(req) == ProtocolHead + "\n" + rest;
    ParseSentHeader(ProtocolHead, rest);
    FrameSentLine(req.token, req.login);
    assert rest == req.token + "\n" + req.login;
  }

  /** What the client prints: the lines it saw before the terminator, and the
      input it left unread. */
  datatype Printout = Printout(lines: seq<CStr>, rest: seq<char>)

  /** The line the client compares after bzero and readLine. */
  function Seen(input: seq<char>): (s: CStr)
    ensures '\n' !in s && |s| <= MaxLine
  {
    FrameSplits(input);
    CString(Frame(input).text)
  }

  /** The receive loop ends: some line it reads is PROTOCOL_END. On an
      exhausted input readLine keeps returning the empty line, so the loop
      cannot end there. */
  predicate TerminatorArrives(input: seq<char>)
    decreases |input|
  {
    Seen(input) == ProtocolEnd || (input != [] && TerminatorArrives(Frame(input).rest))
  }

  /** The receive loop of main: every line up to the first PROTOCOL_END. */
  function Receive(input: seq<char>): (p: Printout)
    requires TerminatorArrives(input)
    ensures forall k :: 0 <= k < |p.lines| ==> p.lines[k] != ProtocolEnd && '\n' !in p.lines[k]
    ensures |p.rest| < |input|
    decreases |input|
  {
    var f := Frame(input);
    if Seen(input) == ProtocolEnd then Printout([], f.rest)
    else
      var p := Receive(f.rest);
      Printout([Seen(input)] + p.lines, p.rest)
  }

  /** One turn of the receive loop: a line other than PROTOCOL_END is printed
      and the loop goes on from what follows it. */
  lemma ReceiveStep(input: seq<char>)
    requires TerminatorArrives(input) && Seen(input) != ProtocolEnd
    ensures TerminatorArrives(Frame(input).rest)
    ensures Receive(input) == Printout([Seen(input)] + Receive(Frame(input).rest).lines,
                                      Receive(Frame(input).rest).rest)
  {
  }

  /** Text that the client reads back unchanged and does not take for the terminator. */
  predicate Printable(s: CStr)
  {
    '\n' !in s && |s| < MaxLine && s != ProtocolEnd
  }

  /** Lines sent one after the other and closed by PROTOCOL_END are printed
      one for one, and nothing after the terminator is read. */
  lemma ReceiveLines(ls: seq<CStr>, tail: seq<char>)
    requires forall l :: l in ls ==> Printable(l)
    ensures TerminatorArrives(Lines(ls) + (Line(ProtocolEnd) + tail))
    ensures Receive(Lines(ls) + (Line(ProtocolEnd) + tail)) == Printout(ls, tail)
  {
    ReceiveTerminator(tail);
    ReceiveLinesBefore(ls, Line(ProtocolEnd) + tail, tail);
  }

  /** Printable lines in front of an input on which the loop prints nothing
      are printed one for one. */
  lemma {:induction false} ReceiveLinesBefore(ls: seq<CStr>, end: seq<char>, tail: seq<char>)
    requires forall l :: l in ls ==> Printable(l)
    requires TerminatorArrives(end) && Receive(end) == Printout([], tail)
    ensures TerminatorArrives(Lines(ls) + end)
    ensures Receive(Lines(ls) + end) == Printout(ls, tail)
  {
    if ls == [] {
      assert Lines(ls) + end == end;
    } else {
      assert forall l :: l in ls[1..] ==> l in ls;
      ReceiveLinesBefore(ls[1..], end, tail);
      ReceiveCons(ls, end, tail);
    }
  }

  lemma ReceiveCons(ls: seq<CStr>, end: seq<char>, tail: seq<char>)
    requires ls != [] && Printable(ls[0]) && TerminatorArrives(Lines(ls[1..]) + end)
    requires Receive(Lines(ls[1..]) + end) == Printout(ls[1..], tail)
    ensures TerminatorArrives(Lines(ls) + end)
    ensures Receive(Lines(ls) + end) == Printout(ls, tail)
  {
    var after := Lines(ls[1..]) + end;
    ReceivePrintable(ls[0], after);
    Associate(Line(ls[0]), Lines(ls[1..]), end);
    assert [ls[0]] + ls[1..] == ls;
  }

  /** The terminator line stops the loop at once; what follows it is not read. */
  lemma ReceiveTerminator(tail: seq<char>)
    ensures TerminatorArrives(Line(ProtocolEnd) + tail)
    ensures Receive(Line(ProtocolEnd) + tail) == Printout([], tail)
  {
    var e: LineText := ProtocolEnd;
    assert Line(e) + tail == e + "\n" + tail;
    FrameSentLine(e, tail);
  }

  /** A printable line is printed, and the loop goes on after it. */
  lemma ReceivePrintable(x: CStr, after: seq<char>)
    requires Printable(x) && TerminatorArrives(after)
    ensures TerminatorArrives(Line(x) + after)
    ensures Receive(Line(x) + after) == Printout([x] + Receive(after).lines, Receive(after).rest)
  {
    assert Line(x) + after == x + "\n" + after;
    FrameSentLine(x, after);
  }

  /** An account database whose fields all come back intact: none holds a
      newline, none fills the buffer, none is PROTOCOL_END. */
  predicate WellFormed(dir: Directory)
  {
    forall i :: 0 <= i < |dir| ==> Printable(dir[i].name) && Printable(dir[i].gecos) && Printable(dir[i].home)
  }

  lemma ReplyLinesPrintable(token: CStr, payload: CStr, dir: Directory)
    requires IsCommand(token) && WellFormed(dir)
    ensures forall l :: l in ReplyLines(token, payload, dir) ==> Printable(l)
  {
    var ls := ReplyLines(token, payload, dir);
    if token == "-l" {
      forall l | l in ls
        ensures Printable(l)
      {
        NamesWithPrefixHas(dir, payload, l);
        var i :| 0 <= i < |dir| && Names(dir)[i] == l;
      }
    } else if token == "-n" || token == "-f" {
      assert LoginUnknown != ProtocolEnd by {
        assert |LoginUnknown| != |ProtocolEnd|;
      }
    }
  }

  /** Client and server end to end: over a well-formed database the client
      prints exactly the reply lines of the request it sent, and every
      character the server wrote is read. */
  lemma EndToEnd(req: Request, dir: Directory)
    requires IsCommand(req.token) && |req.login| <= MaxLine && WellFormed(dir)
    requires !TakesPayload(req.token) ==> req.login == []
    requires TakesPayload(req.token) ==> req.login != []
    ensures TerminatorArrives(SessionOutput(Encode(req), dir))
    ensures Receive(SessionOutput(Encode(req), dir)) == Printout(ReplyLines(req.token, req.login, dir), [])
  {
    var c := Command(req.token, req.login, []);
    RequestParsed(req);
    GoodRequestAnswered(Encode(req), c, dir);
    var e := Line(ProtocolEnd);
    assert e + [] == e;
    ReplyLinesPrintable(req.token, req.login, dir);
    ReceiveLines(ReplyLines(req.token, req.login, dir), []);
  }

  /** From the command line to the screen: whatever options the client
      accepts, when the login fits the server's buffer, it prints the reply
      lines of the query they name. */
  lemma SelectedRequestAnswered(argc: int, opts: seq<Opt>, dir: Directory)
    requires Select(argc, opts).Ok? && |Select(argc, opts).value.login| <= MaxLine && WellFormed(dir)
    requires TakesPayload(Select(argc, opts).value.token) ==> Select(argc, opts).value.login != []
    ensures var req := Select(argc, opts).value;
      TerminatorArrives(SessionOutput(Encode(req), dir)) &&
      Receive(SessionOutput(Encode(req), dir)).lines == ReplyLines(req.token, req.login, dir)
  {
    SelectedIsCommand(argc, opts);
    EndToEnd(Select(argc, opts).value, dir);
  }

  /** Text sent without a newline runs into the line that follows it. */
  lemma MergedLine(w: LineText, e: LineText)
    requires |w| + |e| < MaxLine
    ensures Seen(w + Line(e)) == w + e && Frame(w + Line(e)).rest == []
  {
    assert w + Line(e) == (w + e) + "\n" + [];
    FrameSentLine(w + e, []);
  }

  /** On an exhausted input the client reads empty lines for ever. */
  lemma ExhaustedNeverEnds()
    ensures !TerminatorArrives([])
  {
    assert Seen([]) == [];
  }

  /** A SERVER_WARNING has no newline, so with nothing after it but the
      terminator the two share a line: the client never sees PROTOCOL_END. */
  lemma WarningHidesTerminator(w: LineText)
    requires w != [] && |w| + |ProtocolEnd| < MaxLine
    ensures !TerminatorArrives(w + Line(ProtocolEnd))
  {
    var e: LineText := ProtocolEnd;
    MergedLine(w, e);
    ExhaustedNeverEnds();
    assert |w + e| != |e|;
  }

  /** An unknown command token gets a response the client cannot finish
      reading, whatever the header: one SERVER_WARNING, or two after a wrong
      header, and in both cases no newline before the terminator. */
  lemma UnknownCommandHangsClient(input: seq<char>, dir: Directory)
    requires !IsCommand(ParseRequest(input).command.token)
    ensures !TerminatorArrives(SessionOutput(input, dir))
  {
    var p := ParseRequest(input);
    SessionOutputOf(input, p, dir);
    if p.header == ProtocolHead {
      UnknownCommandOnlyWarns(input, dir);
      WarningHidesTerminator(ServerWarning);
    } else {
      assert SessionOutput(input, dir) == ServerWarning + ServerWarning + Line(ProtocolEnd);
      WarningTwiceHidesTerminator(ServerWarning);
    }
  }

  /** Two warnings in a row still carry no newline, so they hide the terminator too. */
  lemma WarningTwiceHidesTerminator(w: LineText)
    requires w != [] && |w| + |w| + |ProtocolEnd| < MaxLine
    ensures !TerminatorArrives(w + w + Line(ProtocolEnd))
  {
    var ww: LineText := w + w;
    WarningHidesTerminator(ww);
  }

  /** bzero, then readLine: the buffer holds the line the client compares. */
  method NextLine(conn: Connection, buffer: array<char>) returns (line: CStr)
    requires buffer.Length == BufferLen
    modifies conn`pending, buffer
    ensures line == Seen(old(conn.pending)) && CString(buffer[..]) == line
    ensures conn.pending == Frame(old(conn.pending)).rest
  {
    ghost var before := conn.pending;
    Bzero(buffer);
    assert buffer[..] == Zeros();
    var len := ReadLine(conn, buffer);
    SeenAfterBzero(Frame(before));
    line := CString(buffer[..]);
  }

  /** Where the receive loop stands: `shown` has been printed, and reading on
      from `pending` prints the remaining lines and stops where the loop over
      all of `input` stops. */
  ghost predicate Pending(input: seq<char>, shown: seq<CStr>, pending: seq<char>)
  {
    TerminatorArrives(input) && TerminatorArrives(pending) &&
    shown + Receive(pending).lines == Receive(input).lines &&
    Receive(pending).rest == Receive(input).rest
  }

  /** The receive loop has stopped where reading `input` stops. */
  ghost predicate Finished(input: seq<char>, shown: seq<CStr>, pending: seq<char>)
  {
    TerminatorArrives(input) && shown == Receive(input).lines && pending == Receive(input).rest
  }

  lemma PendingStep(input: seq<char>, shown: seq<CStr>, pending: seq<char>)
    requires Pending(input, shown, pending) && Seen(pending) != ProtocolEnd
    ensures Pending(input, shown + [Seen(pending)], Frame(pending).rest)
  {
    ReceiveStep(pending);
    Associate(shown, [Seen(pending)], Receive(Frame(pending).rest).lines);
  }

  lemma PendingLast(input: seq<char>, shown: seq<CStr>, pending: seq<char>)
    requires Pending(input, shown, pending) && Seen(pending) == ProtocolEnd
    ensures Finished(input, shown, Frame(pending).rest)
  {
    assert Receive(pending) == Printout([], Frame(pending).rest);
    assert shown + [] == shown;
  }

  /** strcmp(line, PROTOCOL_END) == 0. */
  method IsTerminator(line: CStr) returns (b: bool)
    ensures b <==> line == ProtocolEnd
  {
    b := Strcmp(line, ProtocolEnd) == 0;
  }

  /** The receive loop: bzero, readLine, and print the line unless it is
      PROTOCOL_END, until the buffer holds PROTOCOL_END. */
  method ReceiveResponse(conn: Connection, buffer: array<char>) returns (printed: seq<char>)
    requires buffer.Length == BufferLen && TerminatorArrives(conn.pending)
    requires forall i :: 0 <= i < buffer.Length ==> buffer[i] == '\0'
    modifies conn`pending, buffer
    ensures printed == Lines(Receive(old(conn.pending)).lines)
    ensures conn.pending == Receive(old(conn.pending)).rest
  {
    ghost var input := conn.pending;
    ghost var shown: seq<CStr> := [];
    printed := [];
    ZeroedHoldsEmpty(buffer);
    var atEnd := IsTerminator(CString(buffer[..]));
    while !atEnd
      invariant printed == Lines(shown)
      invariant !atEnd ==> Pending(input, shown, conn.pending)
      invariant atEnd ==> Finished(input, shown, conn.pending)
      decreases |conn.pending|
    {
      ghost var before := conn.pending;
      ExhaustedNeverEnds();
      var line := NextLine(conn, buffer);
      atEnd := IsTerminator(line);
      if !atEnd {
        PendingStep(input, shown, before);
        LinesSnoc(shown, line);
        printed := printed + Line(line);
        shown := shown + [line];
      } else {
        PendingLast(input, shown, before);
      }
    }
  }

  /** The client's exchange after connecting: send the request, then print
      the response. */
  method RunClient(conn: Connection, req: Request, buffer: array<char>) returns (printed: seq<char>)
    requires buffer.Length == BufferLen && TerminatorArrives(conn.pending)
    modifies conn, buffer
    ensures conn.sent == old(conn.sent) + Encode(req)
    ensures printed == Lines(Receive(old(conn.pending)).lines)
    ensures conn.pending == Receive(old(conn.pending)).rest
  {
    SendRequest(conn, req, buffer);
    printed := ReceiveResponse(conn, buffer);
  }
}
