/** The server of one connection (ipk-server.c): it checks the handshake
    line, reads one command and its payload, answers from the account
    database and closes the response with PROTOCOL_END. */
module Server {
  import opened CLib
  import opened Wire

  /** SERVER_WARNING: sent, without a newline, for a bad header or command.
      Written in pieces because Dafny cannot check the LineText constraint
      on the 51-character literal in one step. */
  const ServerWarning: LineText := "Server: Wrong " + "protocol header" + " or client " + "arguments!"
  /** LOGIN_UNKNOWN: the reply line for a login the database does not know. */
  const LoginUnknown: LineText := "Server: Login unknown"

  datatype Option<T> = None | Some(value: T)

  /** A passwd entry as getpwnam and getpwent return it: pw_name, pw_gecos, pw_dir. */
  datatype Entry = Entry(name: CStr, gecos: CStr, home: CStr)

  /** The account database, in the order getpwent enumerates it. */
  type Directory = seq<Entry>

  /** startsWith(pre, str): compares strlen(pre) characters unless `str` is shorter. */
  function StartsWith(pre: CStr, str: CStr): (r: bool)
    ensures r <==> pre <= str
  {
    var lenpre, lenstr := |pre|, |str|;
    if lenstr < lenpre then false else Strncmp(pre, str, lenpre) == 0
  }

  /** The index of the first entry named `login`, or |dir| when none is. */
  function FirstNamed(dir: Directory, login: CStr): (i: nat)
    ensures i <= |dir|
    ensures forall j :: 0 <= j < i ==> dir[j].name != login
    ensures i < |dir| ==> dir[i].name == login
  {
    if dir == [] || dir[0].name == login then 0 else 1 + FirstNamed(dir[1..], login)
  }

  /** getpwnam(login): the first entry with that name. */
  function Lookup(dir: Directory, login: CStr): (r: Option<Entry>)
    ensures r.None? <==> forall j :: 0 <= j < |dir| ==> dir[j].name != login
    ensures r.Some? ==> exists i :: 0 <= i < |dir| && dir[i] == r.value && r.value.name == login &&
                                  forall j :: 0 <= j < i ==> dir[j].name != login
  {
    var i := FirstNamed(dir, login);
    if i < |dir| then Some(dir[i]) else None
  }

  /** Every login name, in enumeration order. */
  function Names(dir: Directory): (ns: seq<CStr>)
    ensures |ns| == |dir| && forall i :: 0 <= i < |dir| ==> ns[i] == dir[i].name
  {
    if dir == [] then [] else [dir[0].name] + Names(dir[1..])
  }

  lemma {:induction false} NamesAppend(a: Directory, b: Directory)
    ensures Names(a + b) == Names(a) + Names(b)
  {
    if a == [] {
      assert a + b == b;
    } else {
      assert (a + b)[0] == a[0] && (a + b)[1..] == a[1..] + b;
      NamesAppend(a[1..], b);
    }
  }

  /** The login names that start with `prefix`, in enumeration order. */
  function NamesWithPrefix(dir: Directory, prefix: CStr): seq<CStr>
  {
    if dir == [] then []
    else (if StartsWith(prefix, dir[0].name) then [dir[0].name] else []) + NamesWithPrefix(dir[1..], prefix)
  }

  /** Listing a database split in two lists the first part, then the second:
      the listing keeps enumeration order. */
  lemma {:induction false} NamesWithPrefixAppend(a: Directory, b: Directory, prefix: CStr)
    ensures NamesWithPrefix(a + b, prefix) == NamesWithPrefix(a, prefix) + NamesWithPrefix(b, prefix)
  {
    if a == [] {
      assert a + b == b;
    } else {
      assert (a + b)[0] == a[0] && (a + b)[1..] == a[1..] + b;
      NamesWithPrefixAppend(a[1..], b, prefix);
    }
  }

  /** A name is listed for `prefix` exactly when some entry has it and it starts with `prefix`. */
  lemma {:induction false} NamesWithPrefixHas(dir: Directory, prefix: CStr, n: CStr)
    ensures n in NamesWithPrefix(dir, prefix) <==> n in Names(dir) && prefix <= n
  {
    if dir != [] {
      NamesWithPrefixHas(dir[1..], prefix, n);
      assert Names(dir) == [dir[0].name] + Names(dir[1..]);
    }
  }

  /** The listing never has more names than the database has entries. */
  lemma {:induction false} NamesWithPrefixBound(dir: Directory, prefix: CStr)
    ensures |NamesWithPrefix(dir, prefix)| <= |dir|
  {
    if dir != [] {
      NamesWithPrefixBound(dir[1..], prefix);
    }
  }

  /** The empty prefix matches every name: sendUsersByPrefix with an empty
    * prefix lists what sendAllUsers lists. */
  lemma {:induction false} EmptyPrefixListsAll(dir: Directory)
    ensures NamesWithPrefix(dir, []) == Names(dir)
  {
    if dir != [] {
      EmptyPrefixListsAll(dir[1..]);
    }
  }

  /** The four command tokens the server knows. */
  predicate IsCommand(token: CStr)
  {
    token == "-n" || token == "-f" || token == "-l" || token == "-L"
  }

  /** The commands that are followed by a payload. */
  predicate TakesPayload(token: CStr)
  {
    token == "-n" || token == "-f" || token == "-l"
  }

  /** The result lines of a known command, before the terminator. */
  function ReplyLines(token: CStr, payload: CStr, dir: Directory): seq<CStr>
    requires IsCommand(token)
  {
    if token == "-n" then
      [match Lookup(dir, payload) case Some(e) => e.gecos case None => LoginUnknown]
    else if token == "-f" then
      [match Lookup(dir, payload) case Some(e) => e.home case None => LoginUnknown]
    else if token == "-l" then NamesWithPrefix(dir, payload)
    else Names(dir)
  }

  /** What the session reads after the handshake line: the command line and
      the payload as the server's C code sees them, and the unread rest. */
  datatype Command = Command(token: CStr, payload: CStr, rest: seq<char>)

  /** A line read, then for -n, -f and -l one raw read of at most
      BUFFER_LEN - 1 characters, each into a freshly bzero'd buffer. */
  function ReadCommand(input: seq<char>): (c: Command)
  {
    var f := Frame(input);
    var token := CString(f.text);
    if TakesPayload(token) then
      var n := Min(MaxLine, |f.rest|);
      Command(token, CString(f.rest[..n]), f.rest[n..])
    else
      Command(token, [], f.rest)
  }

  /** No field the server reads is longer than the buffer allows; a command
      without payload reads nothing past its own line. */
  lemma ReadCommandBounds(input: seq<char>)
    ensures var c := ReadCommand(input);
      && |c.token| <= MaxLine && |c.payload| <= MaxLine && |c.rest| <= |input|
      && (!TakesPayload(c.token) ==> c.payload == [] && c.rest == Frame(input).rest)
  {
    var f := Frame(input);
    FrameSplits(input);
    if TakesPayload(CString(f.text)) {
      var n := Min(MaxLine, |f.rest|);
      assert |CString(f.rest[..n])| <= n;
    }
  }

  /** What the whole session reads: the handshake line, then the command. */
  datatype Received = Received(header: CStr, command: Command)

  function ParseRequest(input: seq<char>): (p: Received)
  {
    var h := Frame(input);
    Received(CString(h.text), ReadCommand(h.rest))
  }

  /** The response to a command, before the terminator. */
  function Respond(c: Command, dir: Directory): seq<char>
  {
    if IsCommand(c.token) then Lines(ReplyLines(c.token, c.payload, dir)) else ServerWarning
  }

  /** Everything one session writes, given what the client sent and the database. */
  function SessionOutput(input: seq<char>, dir: Directory): seq<char>
  {
    var p := ParseRequest(input);
    var response := Respond(p.command, dir) + Line(ProtocolEnd);
    if p.header == ProtocolHead then response else ServerWarning + response
  }

  /** The server reads a line sent with sendLine as the handshake line and
      everything after it as the command. */
  lemma ParseSentHeader(header: CStr, rest: seq<char>)
    requires '\n' !in header && |header| < MaxLine
    ensures ParseRequest(header + "\n" + rest) == Received(header, ReadCommand(rest))
  {
    FrameSentLine(header, rest);
  }

  lemma SessionOutputOf(input: seq<char>, p: Received, dir: Directory)
    requires ParseRequest(input) == p
    ensures p.header == ProtocolHead ==> SessionOutput(input, dir) == Respond(p.command, dir) + Line(ProtocolEnd)
    ensures p.header != ProtocolHead ==>
              SessionOutput(input, dir) == ServerWarning + (Respond(p.command, dir) + Line(ProtocolEnd))
  {
  }

  /** Every session, whatever it read, closes with one PROTOCOL_END line. */
  lemma SessionEndsWithTerminator(input: seq<char>, dir: Directory)
    ensures var out := SessionOutput(input, dir);
      |out| >= |Line(ProtocolEnd)| && out[|out| - |Line(ProtocolEnd)|..] == Line(ProtocolEnd)
  {
    var p := ParseRequest(input);
    SessionOutputOf(input, p, dir);
    var r := Respond(p.command, dir);
    var e := Line(ProtocolEnd);
    if p.header == ProtocolHead {
      SuffixOf([], r, e);
    } else {
      SuffixOf(ServerWarning, r, e);
    }
  }

  lemma SuffixOf(w: seq<char>, r: seq<char>, e: seq<char>)
    ensures var out := w + (r + e); out[|out| - |e|..] == e
  {
    var out := w + (r + e);
    assert out == (w + r) + e;
  }

  /** A correct header and a known command: the reply lines, then the terminator. */
  lemma GoodRequestAnswered(input: seq<char>, c: Command, dir: Directory)
    requires ParseRequest(input) == Received(ProtocolHead, c) && IsCommand(c.token)
    ensures SessionOutput(input, dir) == Lines(ReplyLines(c.token, c.payload, dir)) + Line(ProtocolEnd)
  {
    SessionOutputOf(input, Received(ProtocolHead, c), dir);
  }

  /** A wrong handshake line costs a SERVER_WARNING with no newline in front
      of the response, which is otherwise the one a correct header gets. */
  lemma BadHeaderWarnsAndContinues(header: CStr, rest: seq<char>, dir: Directory)
    requires '\n' !in header && |header| < MaxLine && header != ProtocolHead
    ensures SessionOutput(header + "\n" + rest, dir)
         == ServerWarning + SessionOutput(ProtocolHead + "\n" + rest, dir)
  {
    var c := ReadCommand(rest);
    ParseSentHeader(header, rest);
    ParseSentHeader(ProtocolHead, rest);
    SessionOutputOf(header + "\n" + rest, Received(header, c), dir);
    SessionOutputOf(ProtocolHead + "\n" + rest, Received(ProtocolHead, c), dir);
  }

  /** An unknown command token gets only SERVER_WARNING, without a newline,
      before the terminator; no payload is read and nothing is looked up. */
  lemma UnknownCommandOnlyWarns(input: seq<char>, dir: Directory)
    requires ParseRequest(input).header == ProtocolHead && !IsCommand(ParseRequest(input).command.token)
    ensures SessionOutput(input, dir) == ServerWarning + Line(ProtocolEnd)
    ensures ParseRequest(input).command.rest == Frame(Frame(input).rest).rest
  {
  }

  /** sendUserIdInfo / sendUserDirInfo: the gecos or home field of the first
      entry named `login`, else LOGIN_UNKNOWN, as exactly one line. */
  lemma LookupReplyIsOneLine(token: CStr, login: CStr, dir: Directory)
    requires token == "-n" || token == "-f"
    ensures |ReplyLines(token, login, dir)| == 1
    ensures (forall j :: 0 <= j < |dir| ==> dir[j].name != login) ==> ReplyLines(token, login, dir) == [LoginUnknown]
    ensures forall i :: 0 <= i < |dir| && dir[i].name == login && (forall j :: 0 <= j < i ==> dir[j].name != login) ==>
              ReplyLines(token, login, dir) == [if token == "-n" then dir[i].gecos else dir[i].home]
  {
    forall i | 0 <= i < |dir| && dir[i].name == login && (forall j :: 0 <= j < i ==> dir[j].name != login)
      ensures Lookup(dir, login) == Some(dir[i])
    {
    }
  }

  /** checkProtocolHeader: warns, without a newline, unless the line is PROTOCOL_HEAD. */
  method CheckProtocolHeader(conn: Connection, line: CStr)
    modifies conn`sent
    ensures conn.sent == old(conn.sent) + (if line == ProtocolHead then [] else ServerWarning)
  {
    if Strcmp(line, ProtocolHead) != 0 {
      SendSimple(conn, ServerWarning);
    }
  }

  /** sendUserIdInfo. */
  method SendUserIdInfo(conn: Connection, login: CStr, dir: Directory)
    modifies conn`sent
    ensures conn.sent == old(conn.sent) + Lines(ReplyLines("-n", login, dir))
  {
    var pswd := Lookup(dir, login);
    if pswd.Some? {
      assert ReplyLines("-n", login, dir) == [pswd.value.gecos];
      assert Lines([pswd.value.gecos]) == Line(pswd.value.gecos);
      SendLine(conn, pswd.value.gecos);
    } else {
      assert ReplyLines("-n", login, dir) == [LoginUnknown];
      assert Lines([LoginUnknown]) == Line(LoginUnknown);
      SendLine(conn, LoginUnknown);
    }
  }

  /** sendUserDirInfo. */
  method SendUserDirInfo(conn: Connection, login: CStr, dir: Directory)
    modifies conn`sent
    ensures conn.sent == old(conn.sent) + Lines(ReplyLines("-f", login, dir))
  {
    var pswd := Lookup(dir, login);
    if pswd.Some? {
      assert ReplyLines("-f", login, dir) == [pswd.value.home];
      assert Lines([pswd.value.home]) == Line(pswd.value.home);
      SendLine(conn, pswd.value.home);
    } else {
      assert ReplyLines("-f", login, dir) == [LoginUnknown];
      assert Lines([LoginUnknown]) == Line(LoginUnknown);
      SendLine(conn, LoginUnknown);
    }
  }

  /** sendAllUsers: one line per getpwent entry, until the enumeration ends. */
  method SendAllUsers(conn: Connection, dir: Directory)
    modifies conn`sent
    ensures conn.sent == old(conn.sent) + Lines(Names(dir))
  {
    var i := 0;
    while i < |dir|
      invariant i <= |dir|
      invariant conn.sent == old(conn.sent) + Lines(Names(dir[..i]))
    {
      assert dir[..i + 1] == dir[..i] + [dir[i]];
      NamesAppend(dir[..i], [dir[i]]);
      assert Names([dir[i]]) == [dir[i].name];
      LinesAppend(Names(dir[..i]), [dir[i].name]);
      assert Lines([dir[i].name]) == Line(dir[i].name);
      assert CString(dir[i].name) == dir[i].name;
      SendLine(conn, dir[i].name);
      i := i + 1;
    }
    assert dir[..i] == dir;
  }

  /** sendUsersByPrefix: a line for each getpwent entry whose name starts with `prefix`. */
  method SendUsersByPrefix(conn: Connection, prefix: CStr, dir: Directory)
    modifies conn`sent
    ensures conn.sent == old(conn.sent) + Lines(NamesWithPrefix(dir, prefix))
  {
    var i := 0;
    while i < |dir|
      invariant i <= |dir|
      invariant conn.sent == old(conn.sent) + Lines(NamesWithPrefix(dir[..i], prefix))
    {
      assert dir[..i + 1] == dir[..i] + [dir[i]];
      NamesWithPrefixAppend(dir[..i], [dir[i]], prefix);
      var matched := if StartsWith(prefix, dir[i].name) then [dir[i].name] else [];
      assert NamesWithPrefix([dir[i]], prefix) == matched;
      LinesAppend(NamesWithPrefix(dir[..i], prefix), matched);
      if StartsWith(prefix, dir[i].name) {
        assert Lines(matched) == Line(dir[i].name);
        SendLine(conn, dir[i].name);
      } else {
        assert Lines(matched) == [];
      }
      i := i + 1;
    }
    assert dir[..i] == dir;
  }

  /** sendEndOfProtocol. */
  method SendEndOfProtocol(conn: Connection)
    modifies conn`sent
    ensures conn.sent == old(conn.sent) + Line(ProtocolEnd)
  {
    SendLine(conn, ProtocolEnd);
  }

  /** bzero, then one raw read of at most BUFFER_LEN - 1 characters: the
      payload is the C string of what that read delivered. */
  method ReadPayload(conn: Connection, buffer: array<char>) returns (payload: CStr)
    requires buffer.Length == BufferLen
    modifies conn`pending, buffer
    ensures var n := Min(MaxLine, |old(conn.pending)|);
      payload == CString(old(conn.pending)[..n]) && conn.pending == old(conn.pending)[n..]
  {
    ghost var input := conn.pending;
    Bzero(buffer);
    ghost var z := buffer[..];
    assert z == Zeros();
    var n := conn.ReadInto(buffer, MaxLine);
    assert buffer[..] == input[..n] + z[n..];
    CStringStopsAtNul(input[..n], z[n..]);
    payload := CString(buffer[..]);
  }

  /** The command dispatch of the session (after the handshake check): reads
      the command line, then the payload when the command takes one, and answers. */
  method ServeCommand(conn: Connection, dir: Directory, buffer: array<char>)
    requires buffer.Length == BufferLen
    modifies conn, buffer
    ensures conn.sent == old(conn.sent) + Respond(ReadCommand(old(conn.pending)), dir)
    ensures conn.pending == ReadCommand(old(conn.pending)).rest
  {
    ghost var input := conn.pending;
    ghost var f := Frame(input);
    ghost var cmd := ReadCommand(input);

    Bzero(buffer);
    assert buffer[..] == Zeros();
    var len := ReadLine(conn, buffer);
    SeenAfterBzero(f);
    var command := CString(buffer[..]);
    assert command == cmd.token;

    if Strcmp(command, "-n") == 0 || Strcmp(command, "-f") == 0 || Strcmp(command, "-l") == 0 {
      var login := ReadPayload(conn, buffer);
      assert login == cmd.payload;
      if Strcmp(command, "-n") == 0 {
        SendUserIdInfo(conn, login, dir);
      } else if Strcmp(command, "-f") == 0 {
        SendUserDirInfo(conn, login, dir);
      } else {
        SendUsersByPrefix(conn, login, dir);
      }
    } else if Strcmp(command, "-L") == 0 {
      Bzero(buffer);
      SendAllUsers(conn, dir);
    } else {
      SendSimple(conn, ServerWarning);
    }
  }

  /** The pieces the session writes one after the other add up to its output. */
  lemma SessionPieces(before: seq<char>, warning: seq<char>, response: seq<char>, out: seq<char>)
    requires warning == [] ==> out == response + Line(ProtocolEnd)
    requires warning != [] ==> out == warning + (response + Line(ProtocolEnd))
    ensures before + warning + response + Line(ProtocolEnd) == before + out
  {
  }

  /** The body of the child process for one accepted connection. */
  method ServeSession(conn: Connection, dir: Directory, buffer: array<char>)
    requires buffer.Length == BufferLen
    modifies conn, buffer
    ensures conn.sent == old(conn.sent) + SessionOutput(old(conn.pending), dir)
    ensures conn.pending == ParseRequest(old(conn.pending)).command.rest
  {
    ghost var input := conn.pending;
    ghost var before := conn.sent;
    ghost var h := Frame(input);
    ghost var p := ParseRequest(input);

    Bzero(buffer);
    assert buffer[..] == Zeros();
    var len := ReadLine(conn, buffer);
    SeenAfterBzero(h);
    CheckProtocolHeader(conn, CString(buffer[..]));
    ghost var warning := conn.sent[|before|..];
    assert conn.sent == before + warning;
    assert warning == (if p.header == ProtocolHead then [] else ServerWarning);
    ServeCommand(conn, dir, buffer);
    Bzero(buffer);
    SendEndOfProtocol(conn);
    SessionOutputOf(input, p, dir);
    SessionPieces(before, warning, Respond(p.command, dir), SessionOutput(input, dir));
  }
}
