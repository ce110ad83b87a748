/**
 The text protocol of the traffic-generator proxy, as
 src/wrtmtester/N2xInterface.py speaks it: command lines
 `invoke <interface> <method> <args>`, replies framed by CRLF and read as
 `<status> <message>`, the brace lists the instrument answers with, and the
 `[list ...]` form of list arguments. The socket is a connection whose
 future input is given as a script of received chunks.
 */
module Instrument {
  import opened Text

  /** The instrument operations the tester issues around a test. */
  datatype Command = StartCapture | StopCapture | StartTest | StopTest | CloseSession | DisconnectFromProxy

  // ---------------------------------------------------------------------
  // Framing
  // ---------------------------------------------------------------------

  predicate CrlfAt(s: string, i: int) {
    0 <= i && i + 1 < |s| && s[i] == '\r' && s[i + 1] == '\n'
  }

  predicate HasCrlf(s: string) {
    exists i | 0 <= i < |s| :: CrlfAt(s, i)
  }

  /** The first CRLF at or after `from`, or -1. */
  function FindCrlf(s: string, from: nat): (k: int)
    ensures k == -1 || (from <= k && CrlfAt(s, k))
    ensures k == -1 ==> forall i :: from <= i ==> !CrlfAt(s, i)
    ensures k != -1 ==> forall i :: from <= i < k ==> !CrlfAt(s, i)
    decreases |s| - from
  {
    if from + 1 >= |s| then -1
    else if CrlfAt(s, from) then from
    else FindCrlf(s, from + 1)
  }

  /** The concatenation of received chunks. */
  function Concat(chunks: seq<string>): string
    decreases |chunks|
  {
    if |chunks| == 0 then "" else chunks[0] + Concat(chunks[1..])
  }

  /** A line taken off the buffer, the new buffer, and the chunks not yet read. */
  datatype Frame = Frame(line: string, rest: string, unread: seq<string>)

  /** `_readWrapper`'s loop and `partition("\r\n")`: receive until the buffer
      holds a CRLF, then split at the first one. `None` when the chunks run
      out first (the call would block). */
  function ReadFrame(buffer: string, chunks: seq<string>): (r: Option<Frame>)
    ensures r.Some? ==> !HasCrlf(r.value.line)
    ensures r.Some? ==>
      (|r.value.unread| <= |chunks|
       && r.value.unread == chunks[|chunks| - |r.value.unread|..]
       && buffer + Concat(chunks[..|chunks| - |r.value.unread|]) == r.value.line + "\r\n" + r.value.rest)
    ensures r.None? <==> !HasCrlf(buffer + Concat(chunks))
    decreases |chunks|
  {
    if HasCrlf(buffer) then
      var k := FindCrlf(buffer, 0);
      assert buffer == buffer[..k] + "\r\n" + buffer[k + 2..];
      assert !HasCrlf(buffer[..k]) by {
        forall i | CrlfAt(buffer[..k], i) ensures false {
          assert CrlfAt(buffer, i);
        }
      }
      CrlfGrows(buffer, Concat(chunks));
      assert chunks[..0] == [];
      Some(Frame(buffer[..k], buffer[k + 2..], chunks))
    else if |chunks| == 0 then
      assert buffer + Concat(chunks) == buffer;
      None
    else
      var r := ReadFrame(buffer + chunks[0], chunks[1..]);
      assert buffer + chunks[0] + Concat(chunks[1..]) == buffer + Concat(chunks);
      if r.Some? then
        var n := |chunks| - |r.value.unread|;
        assert chunks[1..][..n - 1] == chunks[1..n];
        assert Concat(chunks[..n]) == chunks[0] + Concat(chunks[1..n]) by {
          assert chunks[..n][1..] == chunks[1..n];
        }
        r
      else r
  }

  lemma CrlfGrows(a: string, b: string)
    requires HasCrlf(a)
    ensures HasCrlf(a + b)
  {
    var i :| 0 <= i < |a| && CrlfAt(a, i);
    assert (a + b)[i] == a[i] && (a + b)[i + 1] == a[i + 1];
    assert CrlfAt(a + b, i);
  }

  /** A buffer written as a line, CRLF and more reads back as that line and
      that remainder, without receiving anything. */
  lemma FrameRoundTrip(line: string, rest: string, chunks: seq<string>)
    requires !HasCrlf(line)
    ensures ReadFrame(line + "\r\n" + rest, chunks) == Some(Frame(line, rest, chunks))
  {
    var b := line + "\r\n" + rest;
    assert CrlfAt(b, |line|);
    forall i | 0 <= i < |line| ensures !CrlfAt(b, i) {
      if i + 1 < |line| {
        assert b[i] == line[i] && b[i + 1] == line[i + 1];
        assert !CrlfAt(line, i);
      } else {
        assert b[i + 1] == '\r';
      }
    }
    assert b[..|line|] == line;
    assert b[|line| + 2..] == rest;
  }

  /** `str(b)` of a received byte string: `b'...'`, each byte written as
      itself when printable and as an escape otherwise; double quotes
      delimit it when it holds a single quote and no double quote. */
  function BytesRepr(b: seq<int>): (s: string)
    requires forall i :: 0 <= i < |b| ==> 0 <= b[i] < 256
    ensures '\r' !in s && '\n' !in s
    ensures |s| >= 3 && s[0] == 'b' && s[1] == s[|s| - 1] == ReprQuote(b)
  {
    var q := ReprQuote(b);
    "b" + [q] + ReprBody(b, q) + [q]
  }

  /** The delimiter CPython picks for a bytes repr. */
  function ReprQuote(b: seq<int>): (q: char)
    ensures q == '"' <==> 39 in b && 34 !in b
  {
    if 39 in b && 34 !in b then '"' else '\''
  }

  function ReprBody(b: seq<int>, q: char): (s: string)
    requires forall i :: 0 <= i < |b| ==> 0 <= b[i] < 256
    requires q == '\'' || q == '"'
    ensures '\r' !in s && '\n' !in s
    decreases |b|
  {
    if |b| == 0 then "" else ByteRepr(b[0], q) + ReprBody(b[1..], q)
  }

  function HexDigit(d: int): (c: char)
    requires 0 <= d < 16
    ensures c != '\r' && c != '\n'
  {
    if d < 10 then (('0' as int) + d) as char else (('a' as int) + d - 10) as char
  }

  /** One byte inside the quotes `q`: the backslash and the delimiter are
      escaped, tab, LF and CR by name, other unprintable bytes in hex. */
  function ByteRepr(x: int, q: char): (s: string)
    requires 0 <= x < 256
    requires q == '\'' || q == '"'
    ensures '\r' !in s && '\n' !in s
    ensures 32 <= x < 127 && x != 92 && x != q as int <==> s == [x as char]
  {
    if x == 92 then "\\\\"
    else if x == q as int then "\\" + [q]
    else if x == 9 then "\\t"
    else if x == 10 then "\\n"
    else if x == 13 then "\\r"
    else if 32 <= x < 127 then [x as char]
    else "\\x" + [HexDigit(x / 16), HexDigit(x % 16)]
  }

  /** `_readWrapper` as written: each received byte string is appended as
      its `str()`, which never holds a line break, so a buffer without a
      CRLF never yields a line, whatever the instrument sends: the read
      loop does not end. */
  function ReadFrameAsWritten(buffer: string, chunks: seq<seq<int>>): (r: Option<Frame>)
    requires forall j, i :: 0 <= j < |chunks| && 0 <= i < |chunks[j]| ==> 0 <= chunks[j][i] < 256
    ensures !HasCrlf(buffer) ==> r == None
    ensures HasCrlf(buffer) ==>
      r.Some? && buffer == r.value.line + "\r\n" + r.value.rest && !HasCrlf(r.value.line)
    decreases |chunks|
  {
    if HasCrlf(buffer) then
      var k := FindCrlf(buffer, 0);
      assert buffer == buffer[..k] + "\r\n" + buffer[k + 2..];
      assert !HasCrlf(buffer[..k]) by {
        forall i | CrlfAt(buffer[..k], i) ensures false {
          assert CrlfAt(buffer, i);
        }
      }
      Some(Frame(buffer[..k], buffer[k + 2..], []))
    else if |chunks| == 0 then None
    else
      var s := BytesRepr(chunks[0]);
      NoNewlineAppend(buffer, s);
      assert forall j, i :: 0 <= j < |chunks[1..]| && 0 <= i < |chunks[1..][j]| ==>
        chunks[1..][j][i] == chunks[j + 1][i];
      ReadFrameAsWritten(buffer + s, chunks[1..])
  }

  /** The reply `0 ok\r\n` as a byte string: read as written it is never framed;
      as text it is. */
  lemma ReplyNeverFramedAsWritten()
    ensures ReadFrameAsWritten("", [[48, 32, 111, 107, 13, 10]]) == None
    ensures ReadFrame("", ["0 ok\r\n"]) == Some(Frame("0 ok", "", []))
  {
    assert !HasCrlf("") by {
      forall i | CrlfAt("", i) ensures false { }
    }
    assert !HasCrlf("0 ok") by {
      forall i | CrlfAt("0 ok", i) ensures false { }
    }
    assert "" + "0 ok\r\n" == "0 ok" + "\r\n" + "";
    FrameRoundTrip("0 ok", "", []);
    assert ReadFrame("" + "0 ok\r\n", []) == Some(Frame("0 ok", "", []));
  }

  lemma NoNewlineAppend(a: string, b: string)
    requires !HasCrlf(a) && '\n' !in b
    ensures !HasCrlf(a + b)
  {
    forall i | 0 <= i < |a + b| ensures !CrlfAt(a + b, i) {
      if i + 1 < |a| {
        assert (a + b)[i] == a[i] && (a + b)[i + 1] == a[i + 1];
        assert !CrlfAt(a, i);
      } else if i + 1 < |a + b| {
        assert (a + b)[i + 1] == b[i + 1 - |a|];
      }
    }
  }

  // ---------------------------------------------------------------------
  // Replies and commands
  // ---------------------------------------------------------------------

  /** `s.partition(c)`: the text before the first `c`, whether there was one,
      and the text after it. */
  function Partition(s: string, c: char): (r: (string, bool, string))
    ensures c !in r.0
    ensures r.0 + (if r.1 then [c] else []) + r.2 == s
    ensures !r.1 ==> r.2 == ""
    decreases |s|
  {
    if |s| == 0 then ("", false, "")
    else if s[0] == c then ("", true, s[1..])
    else
      var p := Partition(s[1..], c);
      assert [s[0]] + s[1..] == s;
      ([s[0]] + p.0, p.1, p.2)
  }

  /** The text before the first `c` and the text after it are determined
      by their concatenation when the first part holds no `c`. */
  lemma {:induction false} PartitionAt(a: string, c: char, b: string)
    requires c !in a
    ensures Partition(a + [c] + b, c) == (a, true, b)
    decreases |a|
  {
    if |a| == 0 {
      assert a + [c] + b == [c] + b;
      assert ([c] + b)[1..] == b;
    } else {
      assert (a + [c] + b)[1..] == a[1..] + [c] + b;
      PartitionAt(a[1..], c, b);
      assert [a[0]] + a[1..] == a;
    }
  }

  /** The status word and the message of a reply line; `None` where `int()`
      raises `ValueError`. */
  function ParseResponse(line: string): (r: Option<(int, string)>)
    ensures r.Some? <==> ParseInt(Partition(line, ' ').0).Some?
    ensures r.Some? ==> r.value.1 == Partition(line, ' ').2
  {
    var p := Partition(line, ' ');
    match ParseInt(p.0)
    case None => None
    case Some(status) => Some((status, p.2))
  }

  /** A reply written as a status, a space and a message reads back as both. */
  lemma ParseResponseRoundTrip(status: int, message: string)
    ensures ParseResponse(IntToString(status) + " " + message) == Some((status, message))
  {
    NoSpaceInDigits(status);
    PartitionAt(IntToString(status), ' ', message);
    ParseIntToString(status);
  }

  lemma NoSpaceInDigits(n: int)
    ensures ' ' !in IntToString(n)
  {
    var s := IntToString(n);
    if n < 0 {
      assert s == "-" + NatDigits(-n);
      assert AllDigits(NatDigits(-n));
    } else {
      assert AllDigits(NatDigits(n));
    }
  }

  /** The line `invoke` sends. */
  function CommandText(iface: string, meth: string, args: string): (s: string)
    ensures |s| == 7 + |iface| + 1 + |meth| + 1 + |args|
  {
    "invoke " + iface + " " + meth + " " + args
  }

  /** Split back on single spaces, a command line gives its words in order,
      when the interface and method names hold no space. */
  lemma CommandWords(iface: string, meth: string, args: string)
    requires ' ' !in iface && ' ' !in meth
    ensures Split(CommandText(iface, meth, args), ' ') == ["invoke", iface, meth] + Split(args, ' ')
  {
    var y := meth + (" " + args);
    var x := iface + (" " + y);
    CommandTextWords(iface, meth, args);
    assert Split(y, ' ') == [meth] + Split(args, ' ') by {
      SplitLead(meth, args);
    }
    assert Split(x, ' ') == [iface] + Split(y, ' ') by {
      SplitLead(iface, y);
    }
    assert Split("invoke" + (" " + x), ' ') == ["invoke"] + Split(x, ' ') by {
      assert ' ' !in "invoke";
      SplitLead("invoke", x);
    }
  }

  /** The command line is its four parts, each after a single space. */
  lemma CommandTextWords(iface: string, meth: string, args: string)
    ensures CommandText(iface, meth, args) == "invoke" + (" " + (iface + (" " + (meth + (" " + args)))))
  {
    assert "invoke " == "invoke" + " ";
  }

  /** A leading word without a space splits off as the first piece. */
  lemma SplitLead(w: string, tail: string)
    requires ' ' !in w
    ensures Split(w + (" " + tail), ' ') == [w] + Split(tail, ' ')
  {
    assert w + (" " + tail) == w + [' '] + tail;
    SplitAtFirst(w, tail, ' ');
  }

  datatype InvokeError =
    | StatusError(message: string)   // RuntimeError for a non-zero status
    | StatusNotANumber               // ValueError from int()
    | NoSuchAttribute                // AttributeError

  datatype Reply = Returned(output: string) | Raised(error: InvokeError) | NoReply

  /** The proxy connection: the unread part of the receive buffer and the
      chunks the instrument will send. */
  datatype Conn = Conn(buffer: string, incoming: seq<string>)

  /** One call: the line sent (empty when nothing was sent), its reply, and
      the connection afterwards. */
  datatype Call = Call(sent: string, reply: Reply, conn: Conn)

  /** `invoke`: send the command line, read one reply line, and return its
      message when the status is 0; a non-zero status raises `RuntimeError`
      naming the message and the command. */
  function Invoke(c: Conn, iface: string, meth: string, args: string): (r: Call)
    ensures r.sent == CommandText(iface, meth, args)
    ensures r.reply.NoReply? <==> ReadFrame(c.buffer, c.incoming).None?
    ensures r.reply.NoReply? ==> r.conn == c
    ensures var f := ReadFrame(c.buffer, c.incoming);
      f.Some? ==> r.conn == Conn(f.value.rest, f.value.unread)
    ensures var f := ReadFrame(c.buffer, c.incoming);
      r.reply.Returned? <==> f.Some? && ParseResponse(f.value.line).Some? && ParseResponse(f.value.line).value.0 == 0
    ensures var f := ReadFrame(c.buffer, c.incoming);
      r.reply.Returned? ==> ParseResponse(f.value.line) == Some((0, r.reply.output))
    ensures var f := ReadFrame(c.buffer, c.incoming);
      r.reply == Raised(StatusNotANumber) <==> f.Some? && ParseResponse(f.value.line).None?
    ensures var f := ReadFrame(c.buffer, c.incoming);
      f.Some? && ParseResponse(f.value.line).Some? && ParseResponse(f.value.line).value.0 != 0 ==>
        r.reply == Raised(StatusError("Error: \"" + ParseResponse(f.value.line).value.1
                                      + "\" while executing command: " + CommandText(iface, meth, args)))
    ensures r.reply != Raised(NoSuchAttribute)
  {
    var data := CommandText(iface, meth, args);
    match ReadFrame(c.buffer, c.incoming)
    case None => Call(data, NoReply, c)
    case Some(f) =>
      var next := Conn(f.rest, f.unread);
      match ParseResponse(f.line)
      case None => Call(data, Raised(StatusNotANumber), next)
      case Some((status, output)) =>
        if status != 0 then
          Call(data, Raised(StatusError("Error: \"" + output + "\" while executing command: " + data)), next)
        else Call(data, Returned(output), next)
  }

  /** A reply line `<status> <message>` waiting in the buffer answers the
      call: status 0 returns the message, any other status raises with it. */
  lemma InvokeAnswered(status: int, message: string, rest: string, chunks: seq<string>,
                       iface: string, meth: string, args: string)
    requires !HasCrlf(message)
    ensures var r := Invoke(Conn(IntToString(status) + " " + message + "\r\n" + rest, chunks), iface, meth, args);
      r.conn == Conn(rest, chunks) &&
      r.reply == if status == 0 then Returned(message)
        else Raised(StatusError("Error: \"" + message + "\" while executing command: "
          + CommandText(iface, meth, args)))
  {
    var head := IntToString(status) + " ";
    var line := head + message;
    assert '\r' !in head && '\n' !in head by {
      NoBreakInDigits(status);
    }
    NoBreakPrefix(head, message);
    FrameRoundTrip(line, rest, chunks);
    ParseResponseRoundTrip(status, message);
    assert line + "\r\n" + rest == IntToString(status) + " " + message + "\r\n" + rest;
  }

  lemma NoBreakInDigits(n: int)
    ensures '\r' !in IntToString(n) && '\n' !in IntToString(n)
  {
    if n < 0 {
      assert AllDigits(NatDigits(-n));
    } else {
      assert AllDigits(NatDigits(n));
    }
  }

  /** Text without line-break characters in front of a line keeps it free of CRLF. */
  lemma NoBreakPrefix(a: string, b: string)
    requires '\r' !in a && '\n' !in a && !HasCrlf(b)
    ensures !HasCrlf(a + b)
  {
    forall i | 0 <= i < |a + b| ensures !CrlfAt(a + b, i) {
      if i >= |a| {
        if i + 1 < |a + b| {
          assert (a + b)[i] == b[i - |a|] && (a + b)[i + 1] == b[i + 1 - |a|];
          assert !CrlfAt(b, i - |a|);
        }
      } else {
        assert (a + b)[i] == a[i];
      }
    }
  }

  /** `smInvoke`: `invoke` on the session manager's side of an interface. */
  function SmInvoke(c: Conn, iface: string, meth: string, args: string): (r: Call)
    ensures r.sent == "invoke sm " + iface + " " + meth + " " + args
  {
    SmCommandText(iface, meth, args);
    Invoke(c, "sm " + iface, meth, args)
  }

  lemma SmCommandText(iface: string, meth: string, args: string)
    ensures CommandText("sm " + iface, meth, args) == "invoke sm " + iface + " " + meth + " " + args
  {
    assert "invoke " + ("sm " + iface) == "invoke sm " + iface;
  }

  /** `invoke` as written: the misspelt `self.proxySsocket` raises
      `AttributeError` before anything is sent or read. */
  function InvokeAsWritten(c: Conn, iface: string, meth: string, args: string): (r: Call)
    ensures r.sent == "" && r.conn == c
  {
    Call("", Raised(NoSuchAttribute), c)
  }

  /** As written no call reaches the instrument; the repaired call sends its
      command line whatever the connection holds. */
  lemma InvokeAsWrittenNeverSends(c: Conn, iface: string, meth: string, args: string)
    ensures InvokeAsWritten(c, iface, meth, args).reply == Raised(NoSuchAttribute)
    ensures Invoke(c, iface, meth, args).sent != InvokeAsWritten(c, iface, meth, args).sent
  {
  }

  /** The `AgtTestController`/`AgtCaptureControl` call behind each
      start/stop command; closing the session and disconnecting are not a
      single call. */
  function CommandCall(cmd: Command): (r: Option<(string, string)>)
    ensures r.Some? <==> cmd in {StartCapture, StopCapture, StartTest, StopTest}
    ensures r.Some? ==> CommandOf(r.value.0, r.value.1) == Some(cmd)
    ensures r.Some? ==> (r.value.0 == "AgtCaptureControl" <==> cmd in {StartCapture, StopCapture})
  {
    match cmd
    case StartCapture => Some(("AgtCaptureControl", "StartCapture"))
    case StopCapture => Some(("AgtCaptureControl", "StopCapture"))
    case StartTest => Some(("AgtTestController", "StartTest"))
    case StopTest => Some(("AgtTestController", "StopTest"))
    case _ => None
  }

  /** The command an interface/method pair carries out, if any. */
  function CommandOf(iface: string, meth: string): Option<Command> {
    if iface == "AgtCaptureControl" && meth == "StartCapture" then Some(StartCapture)
    else if iface == "AgtCaptureControl" && meth == "StopCapture" then Some(StopCapture)
    else if iface == "AgtTestController" && meth == "StartTest" then Some(StartTest)
    else if iface == "AgtTestController" && meth == "StopTest" then Some(StopTest)
    else None
  }

  /** The call table is one-to-one: a pair names a command exactly when that
      command is carried out by that pair. */
  lemma CommandCallInverse(cmd: Command, iface: string, meth: string)
    ensures CommandCall(cmd) == Some((iface, meth)) <==> CommandOf(iface, meth) == Some(cmd)
  {
  }

  // ---------------------------------------------------------------------
  // Lists
  // ---------------------------------------------------------------------

  /** `listFromReponse` with its argument in place of the undefined `output`:
      the text strictly between the first `{` and the last `}`, split on
      single spaces. */
  function ListFromResponse(response: string): (r: seq<string>)
    ensures |r| >= 1
  {
    Split(BraceContents(response), ' ')
  }

  /** The text strictly between the first `{` and the last `}`, with
      Python's reading of a missing brace (-1) as a slice bound. */
  function BraceContents(response: string): (inner: string)
    ensures |inner| <= |response|
  {
    Slice(response, Find(response, '{', 0) + 1, RFind(response, '}'))
  }

  /** A brace list preceded by text without `{` and followed by text
      without `}` gives back its words. */
  lemma ListFromResponseRoundTrip(pre: string, xs: seq<string>, post: string)
    requires '{' !in pre && '}' !in post
    requires |xs| >= 1 && forall i :: 0 <= i < |xs| ==> ' ' !in xs[i]
    ensures ListFromResponse(pre + "{" + Join(xs, ' ') + "}" + post) == xs
  {
    BraceBody(pre, Join(xs, ' '), post);
    SplitJoin(xs, ' ');
  }

  /** The text between the outermost braces is what `listFromReponse` splits. */
  lemma BraceBody(pre: string, body: string, post: string)
    requires '{' !in pre && '}' !in post
    ensures ListFromResponse(pre + "{" + body + "}" + post) == Split(body, ' ')
  {
    BraceContentsOf(pre, body, post);
  }

  lemma BraceContentsOf(pre: string, body: string, post: string)
    requires '{' !in pre && '}' !in post
    ensures BraceContents(pre + "{" + body + "}" + post) == body
  {
    var s := pre + "{" + body + "}" + post;
    var l := |pre|;
    var r := |pre| + 1 + |body|;
    assert |s| == r + 1 + |post|;
    SliceBetween(s, l, r);
    OpenBraceAt(pre, body, post);
    CloseBraceAt(pre, body, post);
    BodyAt(pre, body, post);
  }

  lemma OpenBraceAt(pre: string, body: string, post: string)
    requires '{' !in pre
    ensures Find(pre + "{" + body + "}" + post, '{', 0) == |pre|
  {
    var s := pre + "{" + body + "}" + post;
    assert forall m :: 0 <= m < |pre| ==> s[m] == pre[m];
    FindFirst(s, '{', 0, |pre|);
  }

  lemma CloseBraceAt(pre: string, body: string, post: string)
    requires '}' !in post
    ensures RFind(pre + "{" + body + "}" + post, '}') == |pre| + 1 + |body|
  {
    assert pre + "{" + body + "}" + post == (pre + "{" + body) + ['}'] + post;
    RFindBefore(pre + "{" + body, '}', post);
  }

  /** The last `c` of a text is right before a suffix without one. */
  lemma {:induction false} RFindBefore(x: string, c: char, y: string)
    requires c !in y
    ensures RFind(x + [c] + y, c) == |x|
    decreases |y|
  {
    var s := x + [c] + y;
    if |y| > 0 {
      assert s[|s| - 1] == y[|y| - 1];
      assert s[..|s| - 1] == x + [c] + y[..|y| - 1];
      RFindBefore(x, c, y[..|y| - 1]);
    }
  }

  lemma BodyAt(pre: string, body: string, post: string)
    ensures (pre + "{" + body + "}" + post)[|pre| + 1..|pre| + 1 + |body|] == body
  {
    var s := pre + "{" + body + "}" + post;
    assert forall m :: 0 <= m < |body| ==> s[|pre| + 1 + m] == body[m];
  }

  /** `listFromReponse` as written: the name `output` is not defined. */
  function ListFromResponseAsWritten(response: string): Result<seq<string>, string> {
    Failure("NameError")
  }

  /** As written no response yields a list; the repaired function reads the
      words of `{101/1 101/2}`. */
  lemma ListFromResponseAsWrittenFails()
    ensures ListFromResponseAsWritten("{101/1 101/2}").Failure?
    ensures ListFromResponse("{101/1 101/2}") == ["101/1", "101/2"]
  {
    var xs := ["101/1", "101/2"];
    assert Join(xs, ' ') == "101/1 101/2" by {
      assert Join(xs[1..], ' ') == "101/2";
    }
    assert "" + "{" + Join(xs, ' ') + "}" + "" == "{101/1 101/2}";
    ListFromResponseRoundTrip("", xs, "");
  }

  /** The contents of the first two brace groups of `addStreamGroupToProfile`'s
      reply, found with `find` exactly as the method chains them. */
  function BraceGroups(output: string): (string, string) {
    var l1 := Find(output, '{', 0);
    var r1 := Find(output, '}', l1);
    var l2 := Find(output, '{', r1);
    var r2 := Find(output, '}', l2);
    (Slice(output, l1 + 1, r1), Slice(output, l2 + 1, r2))
  }

  /** A reply with two brace groups gives their contents: the first group
      is the stream group, the second the PDU. */
  lemma BraceGroupsOf(pre: string, g: string, mid: string, p: string, post: string)
    requires '{' !in pre && '}' !in g && '{' !in mid && '}' !in p
    ensures BraceGroups(pre + "{" + g + "}" + mid + "{" + p + "}" + post) == (g, p)
  {
    var s := pre + "{" + g + "}" + mid + "{" + p + "}" + post;
    GroupMarks(pre, g, mid, p, post);
    BraceGroupsAt(s, |pre|, |pre| + 1 + |g|, |pre| + 1 + |g| + 1 + |mid|, |pre| + 1 + |g| + 1 + |mid| + 1 + |p|, g, p);
  }

  /** The groups `BraceGroups` finds, in terms of where the braces sit. */
  lemma BraceGroupsAt(s: string, l1: nat, r1: nat, l2: nat, r2: nat, g: string, p: string)
    requires l1 < r1 < l2 < r2 < |s|
    requires s[l1] == '{' && s[r1] == '}' && s[l2] == '{' && s[r2] == '}'
    requires forall m :: 0 <= m < l1 ==> s[m] != '{'
    requires forall m :: l1 <= m < r1 ==> s[m] != '}'
    requires forall m :: r1 <= m < l2 ==> s[m] != '{'
    requires forall m :: l2 <= m < r2 ==> s[m] != '}'
    requires s[l1 + 1..r1] == g && s[l2 + 1..r2] == p
    ensures BraceGroups(s) == (g, p)
  {
    FindFirst(s, '{', 0, l1);
    FindFirst(s, '}', l1, r1);
    FindFirst(s, '{', r1, l2);
    FindFirst(s, '}', l2, r2);
    SliceBetween(s, l1, r1);
    SliceBetween(s, l2, r2);
  }

  /** Where the braces and the groups of a two-group reply sit. */
  lemma GroupMarks(pre: string, g: string, mid: string, p: string, post: string)
    requires '{' !in pre && '}' !in g && '{' !in mid && '}' !in p
    ensures var s := pre + "{" + g + "}" + mid + "{" + p + "}" + post;
      var l1 := |pre|; var r1 := l1 + 1 + |g|; var l2 := r1 + 1 + |mid|; var r2 := l2 + 1 + |p|;
      r2 < |s| && s[l1] == '{' && s[r1] == '}' && s[l2] == '{' && s[r2] == '}'
      && (forall m :: 0 <= m < l1 ==> s[m] != '{')
      && (forall m :: l1 <= m < r1 ==> s[m] != '}')
      && (forall m :: r1 <= m < l2 ==> s[m] != '{')
      && (forall m :: l2 <= m < r2 ==> s[m] != '}')
      && s[l1 + 1..r1] == g && s[l2 + 1..r2] == p
  {
    var s := pre + "{" + g + "}" + mid + "{" + p + "}" + post;
    var l1 := |pre|;
    var r1 := l1 + 1 + |g|;
    var l2 := r1 + 1 + |mid|;
    var r2 := l2 + 1 + |p|;
    assert forall m :: 0 <= m < l1 ==> s[m] == pre[m];
    assert forall m :: 0 <= m < |g| ==> s[l1 + 1 + m] == g[m];
    assert forall m :: 0 <= m < |mid| ==> s[r1 + 1 + m] == mid[m];
    assert forall m :: 0 <= m < |p| ==> s[l2 + 1 + m] == p[m];
    forall m | l1 < m < r1 ensures s[m] != '}' {
      assert s[m] == g[m - l1 - 1];
    }
    forall m | r1 < m < l2 ensures s[m] != '{' {
      assert s[m] == mid[m - r1 - 1];
    }
    forall m | l2 < m < r2 ensures s[m] != '}' {
      assert s[m] == p[m - l2 - 1];
    }
  }

  lemma SliceBetween(s: string, l: int, r: int)
    requires 0 <= l < r <= |s|
    ensures Slice(s, l + 1, r) == s[l + 1..r]
  {
  }

  /** Where a piece sits in a three-part concatenation. */


  /** `find` stops at the first occurrence at or after a non-negative start. */
  lemma FindFirst(s: string, c: char, start: nat, k: nat)
    requires start <= k < |s| && s[k] == c
    requires forall m :: start <= m < k ==> s[m] != c
    ensures Find(s, c, start) == k
  {
  }


  /** The handles the interface has collected. */
  datatype Handles = Handles(streamGroups: seq<string>, pdus: seq<string>)

  /** `addStreamGroupToProfile`: one call, then one stream group and one PDU
      appended from the reply; a raised call appends nothing. */
  function AddStreamGroupToProfile(h: Handles, c: Conn, profile: string): (r: (Handles, Call))
    ensures r.1.sent == CommandText("AgtStreamGroupList", "AddStreamGroupsWithExistingProfile",
      profile + " AGT_PACKET_STREAM_GROUP 1")
    ensures r.1.reply.Returned? ==>
      r.0 == Handles(h.streamGroups + [BraceGroups(r.1.reply.output).0],
                     h.pdus + [BraceGroups(r.1.reply.output).1])
    ensures !r.1.reply.Returned? ==> r.0 == h
  {
    var call := Invoke(c, "AgtStreamGroupList", "AddStreamGroupsWithExistingProfile",
      profile + " AGT_PACKET_STREAM_GROUP 1");
    match call.reply
    case Returned(output) =>
      var (sg, pdu) := BraceGroups(output);
      (Handles(h.streamGroups + [sg], h.pdus + [pdu]), call)
    case _ => (h, call)
  }

  /** An argument: a list, rendered as `[list a b ...]`, or text passed as is. */
  datatype Arg = ListArg(items: seq<string>) | TextArg(text: string)

  /** An argument as the command line carries it: a Python list becomes
      `[list a b …]`, anything else is passed as it is. */
  function RenderArg(a: Arg): (s: string)
    ensures a.TextArg? ==> s == a.text
    ensures a.ListArg? ==> ParseListArg(s) == Some(Split(Join(a.items, ' '), ' '))
  {
    match a
    case ListArg(xs) =>
      var s := "[list " + Join(xs, ' ') + "]";
      assert s[..6] == "[list ";
      assert s[6..|s| - 1] == Join(xs, ' ');
      s
    case TextArg(s) => s
  }

  /** The instrument's reading of a `[list ...]` argument. */
  function ParseListArg(s: string): (r: Option<seq<string>>)
    ensures r.Some? <==> |s| >= 7 && s[..6] == "[list " && s[|s| - 1] == ']'
  {
    if |s| >= 7 && s[..6] == "[list " && s[|s| - 1] == ']' then Some(Split(s[6..|s| - 1], ' '))
    else None
  }

  /** A rendered list reads back as its items when none holds a space. */
  lemma RenderListRoundTrip(xs: seq<string>)
    requires |xs| >= 1 && forall i :: 0 <= i < |xs| ==> ' ' !in xs[i]
    ensures ParseListArg(RenderArg(ListArg(xs))) == Some(xs)
  {
    SplitJoin(xs, ' ');
  }
}
