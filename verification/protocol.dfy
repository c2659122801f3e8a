/**
 * The varnishadm CLI protocol as VarnishAdminSocket reads and writes it, and
 * the effect of each of the client's operations on an abstract session, as
 * pure functions. The class in module AdminSocket is proved against these.
 *
 * The stream is abstract: `replies` are the strings successive
 * `fgets($fp, 1024)` calls return (an empty string stands for a read that
 * returned false, e.g. on timeout) and the end of the sequence is `feof`;
 * `room` is how many more bytes `fputs` accepts; `sent` logs every byte
 * `fputs` delivered.
 */
module AdminProtocol {
  import opened Results
  import opened Text

  /** The status code and declared body length of a response header. */
  datatype Header = Header(code: nat, len: nat)

  /**
   * `preg_match('/^(\d{3}) (\d+)/', $line)`: three digits at the very start,
   * one space, then at least one digit; the length is the whole digit run.
   */
  function ParseHeader(line: string): (h: Option<Header>)
    ensures h.Some? ==> h.value.code < 1000
  {
    if 5 <= |line| && IsDigit(line[0]) && IsDigit(line[1]) && IsDigit(line[2]) && line[3] == ' ' && IsDigit(line[4]) then
      ThreeDigitValue(line[..3]);
      Some(Header(DecimalValue(line[..3]), DecimalValue(PrefixWhile(line[4..], IsDigit))))
    else
      None
  }

  lemma ThreeDigitValue(s: string)
    requires |s| == 3 && AllDigits(s)
    ensures DecimalValue(s) == DigitValue(s[0]) * 100 + DigitValue(s[1]) * 10 + DigitValue(s[2])
  {
    assert s[..3] == s;
    assert s[..2][..1] == s[..1] && s[..2][1] == s[1];
    assert s[..1][..0] == [] && s[..1][0] == s[0];
    assert DecimalValue(s[..1]) == DigitValue(s[0]);
    assert DecimalValue(s[..2]) == DigitValue(s[0]) * 10 + DigitValue(s[1]);
  }

  /** A code as three digits, zero-padded. */
  function ThreeDigits(code: nat): (s: string)
    requires code < 1000
    ensures |s| == 3 && AllDigits(s)
  {
    [DigitChar(code / 10 / 10), DigitChar(code / 10 % 10), DigitChar(code % 10)]
  }

  /** The header line a server writes before a body: "<code> <len>". */
  function FormatHeader(h: Header): string
    requires h.code < 1000
  {
    ThreeDigits(h.code) + " " + Decimal(h.len)
  }

  /** Three zero-padded digits read back as the code. */
  lemma ThreeDigitsValue(code: nat)
    requires code < 1000
    ensures DecimalValue(ThreeDigits(code)) == code
  {
    var q := code / 10;
    assert code == q * 10 + code % 10;
    assert q == q / 10 * 10 + q % 10;
    ThreeDigitValue(ThreeDigits(code));
  }

  /** A header the server formats is read back as the same code and length. */
  lemma HeaderRoundTrip(h: Header, tail: string)
    requires h.code < 1000
    requires tail == [] || !IsDigit(tail[0])
    ensures ParseHeader(FormatHeader(h) + tail) == Some(h)
  {
    var code, digits := ThreeDigits(h.code), Decimal(h.len);
    var line := FormatHeader(h) + tail;
    assert line == code + (" " + (digits + tail));
    assert line[..3] == code && line[3] == ' ' && line[4..] == digits + tail;
    ThreeDigitsValue(h.code);
    PrefixWhileExact(digits, tail, IsDigit);
    DecimalRoundTrip(h.len);
  }

  /** The first chunk at or after `from` that is a header line: the first read loop. */
  function HeaderFrom(chunks: seq<string>, from: nat): (h: Option<nat>)
    requires from <= |chunks|
    ensures h.Some? ==> from <= h.value < |chunks| && ParseHeader(chunks[h.value]).Some?
    ensures forall j :: from <= j < |chunks| && (h.None? || j < h.value) ==> ParseHeader(chunks[j]).None?
    decreases |chunks| - from
  {
    if from == |chunks| then None
    else if ParseHeader(chunks[from]).Some? then Some(from)
    else HeaderFrom(chunks, from + 1)
  }

  /**
   * How many body chunks the second read loop takes, starting from `k` taken:
   * it stops at the first count whose text reaches the declared length, or
   * at the end of the stream, and never reads a chunk once the length is reached.
   */
  function BodyEndFrom(chunks: seq<string>, len: nat, k: nat): (e: nat)
    requires k <= |chunks|
    ensures k <= e <= |chunks|
    ensures e == |chunks| || |Concat(chunks[..e])| >= len
    ensures forall j :: k <= j < e ==> |Concat(chunks[..j])| < len
    decreases |chunks| - k
  {
    if k == |chunks| || |Concat(chunks[..k])| >= len then k else BodyEndFrom(chunks, len, k + 1)
  }

  /** The count where the loop stops is the first one that reaches the length, or the end. */
  lemma {:induction false} BodyEndIs(chunks: seq<string>, len: nat, from: nat, k: nat)
    requires from <= k <= |chunks|
    requires forall j :: from <= j < k ==> |Concat(chunks[..j])| < len
    requires k == |chunks| || |Concat(chunks[..k])| >= len
    ensures BodyEndFrom(chunks, len, from) == k
    decreases k - from
  {
    if from < k {
      BodyEndIs(chunks, len, from + 1, k);
    }
  }

  /** What one `read` returns: the code, the accumulated body, and the chunks left unread. */
  datatype Reply = Reply(code: nat, body: string, rest: seq<string>)

  /**
   * `read($code)` on a stream that delivers `chunks`. Without a header line the
   * whole stream is consumed and the code stays 0 with an empty body (the
   * `isset($code)` guard cannot fire, since the code was preset to 0).
   */
  function Receive(chunks: seq<string>): (r: Reply)
    ensures r.code < 1000
    ensures |r.rest| <= |chunks| && r.rest == chunks[|chunks| - |r.rest|..]
  {
    match HeaderFrom(chunks, 0)
    case None => Reply(0, "", [])
    case Some(h) =>
      var hd := ParseHeader(chunks[h]).value;
      var tail := chunks[h + 1..];
      var k := BodyEndFrom(tail, hd.len, 0);
      assert tail[k..] == chunks[h + 1 + k..];
      Reply(hd.code, Concat(tail[..k]), tail[k..])
  }

  /** Once the header is at `h` and the body loop took `k` chunks, that is what `read` returns. */
  lemma ReceiveAfterHeader(chunks: seq<string>, h: nat, k: nat)
    requires HeaderFrom(chunks, 0) == Some(h)
    requires k == BodyEndFrom(chunks[h + 1..], ParseHeader(chunks[h]).value.len, 0)
    ensures Receive(chunks) == Reply(ParseHeader(chunks[h]).value.code, Concat(chunks[h + 1..][..k]), chunks[h + 1..][k..])
  {
  }

  /** A stream with no header line yields code 0, an empty body, and is read to its end. */
  lemma ReceiveWithoutHeader(chunks: seq<string>)
    requires forall j :: 0 <= j < |chunks| ==> ParseHeader(chunks[j]).None?
    ensures Receive(chunks) == Reply(0, "", [])
  {
  }

  /** Lines before the header that do not match it are skipped and discarded. */
  lemma ReceiveSkipsNoise(noise: seq<string>, tail: seq<string>)
    requires forall j :: 0 <= j < |noise| ==> ParseHeader(noise[j]).None?
    ensures Receive(noise + tail) == Receive(tail)
  {
    var chunks := noise + tail;
    HeaderFromShift(noise, tail, 0);
    match HeaderFrom(tail, 0)
    case None =>
    case Some(h) =>
      assert chunks[|noise| + h] == tail[h];
      assert chunks[|noise| + h + 1..] == tail[h + 1..];
  }

  lemma {:induction false} HeaderFromShift(noise: seq<string>, tail: seq<string>, from: nat)
    requires from <= |tail|
    requires forall j :: 0 <= j < |noise| ==> ParseHeader(noise[j]).None?
    ensures HeaderFrom(noise + tail, |noise| + from) ==
            match HeaderFrom(tail, from) case None => None case Some(h) => Some(|noise| + h)
    decreases |tail| - from
  {
    var chunks := noise + tail;
    if from < |tail| {
      assert chunks[|noise| + from] == tail[from];
      HeaderFromShift(noise, tail, from + 1);
    }
  }

  lemma {:induction false} HeaderFromSkip(chunks: seq<string>, from: nat)
    requires from <= |chunks|
    requires forall j :: 0 <= j < from ==> ParseHeader(chunks[j]).None?
    ensures HeaderFrom(chunks, 0) == HeaderFrom(chunks, from)
  {
    if from > 0 {
      HeaderFromSkip(chunks, from - 1);
    }
  }

  /**
   * Framing: after discarded chatter, a header "<code> <L>" and a body of
   * exactly L bytes however the transport split it into non-empty chunks,
   * `read` returns that code and body and leaves the next chunks unread.
   */
  lemma ReceiveFrame(noise: seq<string>, line: string, parts: seq<string>, rest: seq<string>)
    requires forall j :: 0 <= j < |noise| ==> ParseHeader(noise[j]).None?
    requires ParseHeader(line).Some? && ParseHeader(line).value.len == |Concat(parts)|
    requires forall j :: 0 <= j < |parts| ==> parts[j] != ""
    ensures Receive(noise + ([line] + parts + rest)) == Reply(ParseHeader(line).value.code, Concat(parts), rest)
  {
    ReceiveSkipsNoise(noise, [line] + parts + rest);
    ReceiveHeaderFirst(line, parts, rest);
  }

  /** A stream that starts with the header: the body is exactly the parts that make up its length. */
  lemma ReceiveHeaderFirst(line: string, parts: seq<string>, rest: seq<string>)
    requires ParseHeader(line).Some? && ParseHeader(line).value.len == |Concat(parts)|
    requires forall j :: 0 <= j < |parts| ==> parts[j] != ""
    ensures Receive([line] + parts + rest) == Reply(ParseHeader(line).value.code, Concat(parts), rest)
  {
    var chunks := [line] + (parts + rest);
    assert chunks == [line] + parts + rest;
    assert chunks[0] == line && chunks[1..] == parts + rest;
    assert HeaderFrom(chunks, 0) == Some(0);
    BodyOfParts(parts, rest);
    ReceiveAfterHeader(chunks, 0, |parts|);
    assert (parts + rest)[..|parts|] == parts && (parts + rest)[|parts|..] == rest;
  }

  /** Non-empty chunks whose text is exactly the declared length are all taken, and no more. */
  lemma BodyOfParts(parts: seq<string>, rest: seq<string>)
    requires forall j :: 0 <= j < |parts| ==> parts[j] != ""
    ensures BodyEndFrom(parts + rest, |Concat(parts)|, 0) == |parts|
  {
    var tail := parts + rest;
    var len := |Concat(parts)|;
    assert tail[..|parts|] == parts;
    forall j | 0 <= j < |parts| ensures |Concat(tail[..j])| < len {
      ConcatShorter(parts, j);
      assert tail[..j] == parts[..j];
    }
    BodyEndIs(tail, len, 0, |parts|);
  }

  /** A proper prefix of non-empty chunks is strictly shorter than all of them. */
  lemma ConcatShorter(parts: seq<string>, k: nat)
    requires k < |parts|
    requires forall j :: 0 <= j < |parts| ==> parts[j] != ""
    ensures |Concat(parts[..k])| < |Concat(parts)|
  {
    ConcatAppend(parts[..k], parts[k..]);
    assert parts[..k] + parts[k..] == parts;
    ConcatAppend(parts[k..k + 1], parts[k + 1..]);
    assert parts[k..k + 1] + parts[k + 1..] == parts[k..];
    assert Concat(parts[k..k + 1]) == Concat([]) + parts[k];
  }

  /** What fsockopen() connected to: the chunks fgets() will return and the bytes fputs() accepts. */
  datatype Peer = Peer(replies: seq<string>, room: nat)

  /**
   * A VarnishAdminSocket object as a value: `host` and `port` from the
   * constructor; `open` is `is_resource($this->fp)`; `replies`, `room` and
   * `sent` describe the stream; `fcloses` counts fclose() calls; `notices`
   * logs the E_USER_NOTICE messages raised by `start` and `stop`.
   */
  datatype Session = Session(
    host: string, port: string,
    open: bool, replies: seq<string>, room: nat, sent: string,
    fcloses: nat, notices: seq<string>)

  /** The session after an operation, and what the operation returned. */
  datatype Step<+T> = Step(session: Session, out: T)

  function Where(s: Session): string
  {
    s.host + ":" + s.port
  }

  function ConnectFailure(s: Session): string { "Failed to connect to varnishadm on " + Where(s) }
  function BadResponse(s: Session): string { "Bad response from varnishadm on " + Where(s) }
  function WriteFailure(s: Session): string { "Failed to write to varnishadm on " + Where(s) }
  function AlreadyStopped(s: Session): string { "varnish host already stopped on " + Where(s) }
  function AlreadyStarted(s: Session): string { "varnish host already started on " + Where(s) }

  const Responded: string := "\n - Command responded "
  const Marker: string := ":\n > "

  /** The body lines of a failed command, trimmed and joined by "\n > ". */
  function Quoted(body: string): string
  {
    Join(Explode(Trim(body), '\n'), "\n > ")
  }

  /** The message of the exception `command` throws when the code is not the expected one. */
  function CommandFailure(cmd: string, code: nat, body: string): (m: string)
    ensures cmd <= m && |m| > |cmd| + |Responded| + |Marker|
  {
    cmd + Responded + Decimal(code) + Marker + Quoted(body)
  }

  /** The failure message starts with the command, carries the code in decimal, and ends with the quoted body. */
  lemma CommandFailureCarries(cmd: string, code: nat, body: string)
    ensures var m := CommandFailure(cmd, code, body);
            var at := |cmd| + |Responded|;
            && m[..|cmd|] == cmd
            && PrefixWhile(m[at..], IsDigit) == Decimal(code)
            && DecimalValue(PrefixWhile(m[at..], IsDigit)) == code
            && m[|m| - |Quoted(body)|..] == Quoted(body)
  {
    var d, q := Decimal(code), Quoted(body);
    MessageLayout(cmd, d, q);
    PrefixWhileExact(d, Marker + q, IsDigit);
    DecimalRoundTrip(code);
  }

  lemma MessageLayout(cmd: string, d: string, q: string)
    ensures var m := cmd + Responded + d + Marker + q;
            && m[..|cmd|] == cmd
            && m[|cmd| + |Responded|..] == d + (Marker + q)
            && m[|m| - |q|..] == q
            && (Marker + q)[0] == ':'
  {
    var m := cmd + Responded + d + Marker + q;
    assert m == cmd + (Responded + (d + (Marker + q)));
  }

  /** Replaces every newline of `t` with the continuation marker "\n > ". */
  function Indented(t: string): (r: string)
    ensures |r| >= |t|
  {
    if t == [] then [] else (if t[0] == '\n' then "\n > " else [t[0]]) + Indented(t[1..])
  }

  /** Joining the exploded lines with the marker is the same as indenting each line break. */
  lemma {:induction false} QuotedIndents(t: string)
    ensures Join(Explode(t, '\n'), "\n > ") == Indented(t)
  {
    if t != [] {
      var rest := Explode(t[1..], '\n');
      QuotedIndents(t[1..]);
      ExplodeStep(t, '\n');
      if t[0] == '\n' {
        JoinEmptyHead(rest, "\n > ");
      } else {
        JoinConsHead(t[0], rest, "\n > ");
      }
    }
  }

  /** `write($data)`: fputs() then the check that every byte went out. */
  function WriteOn(s: Session, data: string): (r: Step<Result<bool>>)
    ensures r.out.Ok? <==> s.open && |data| <= s.room
    ensures r.out.Ok? ==> r.out.value && r.session == s.(room := s.room - |data|, sent := s.sent + data)
    ensures r.out.Err? ==> (r.out.message == WriteFailure(s) &&
      exists n :: 0 <= n <= s.room && n <= |data| && r.session == s.(room := s.room - n, sent := s.sent + data[..n]))
  {
    if !s.open then
      assert s == s.(room := s.room - 0, sent := s.sent + data[..0]);
      Step(s, Err(WriteFailure(s)))
    else
      var n := if |data| <= s.room then |data| else s.room;
      assert data[..|data|] == data;
      Step(s.(room := s.room - n, sent := s.sent + data[..n]),
           if n == |data| then Ok(true) else Err(WriteFailure(s)))
  }

  /** `read($code)` on an open session: the reply is taken off the stream. */
  function ReadOn(s: Session): (r: Step<(nat, string)>)
    requires s.open
  {
    var f := Receive(s.replies);
    Step(s.(replies := f.rest), (f.code, f.body))
  }

  /** What `command` writes: the command unless it is falsy, then a line break. */
  function CommandLine(cmd: string): string
  {
    (if Falsy(cmd) then "" else cmd) + "\n"
  }

  /**
   * `command($cmd, $code, $ok)`: when both writes go through, the reply is
   * read and the call fails exactly when its code is not `ok`, returning the
   * body unchanged otherwise; when a write fails nothing is read.
   */
  function CommandOn(s: Session, cmd: string, ok: nat): (r: Step<Result<string>>)
    ensures s.open && |CommandLine(cmd)| <= s.room ==>
      var f := Receive(s.replies);
      && r.session == s.(room := s.room - |CommandLine(cmd)|, sent := s.sent + CommandLine(cmd), replies := f.rest)
      && r.out == if f.code == ok then Ok(f.body) else Err(CommandFailure(cmd, f.code, f.body))
    ensures !(s.open && |CommandLine(cmd)| <= s.room) ==>
      && r.out == Err(WriteFailure(s))
      && r.session.replies == s.replies
      && exists n :: 0 <= n < |CommandLine(cmd)| && r.session.sent == s.sent + CommandLine(cmd)[..n]
    ensures r.session.host == s.host && r.session.port == s.port && r.session.open == s.open
    ensures r.session.fcloses == s.fcloses && r.session.notices == s.notices
  {
    var w1 := if Falsy(cmd) then Step(s, Ok(true)) else WriteOn(s, cmd);
    if w1.out.Err? then
      assert forall n :: 0 <= n <= |cmd| ==> CommandLine(cmd)[..n] == cmd[..n];
      Step(w1.session, Err(w1.out.message))
    else
      var w2 := WriteOn(w1.session, "\n");
      if w2.out.Err? then
        assert w2.session.sent == s.sent + CommandLine(cmd)[..|CommandLine(cmd)| - 1];
        Step(w2.session, Err(w2.out.message))
      else
        var rd := ReadOn(w2.session);
        Step(rd.session, if rd.out.0 == ok then Ok(rd.out.1) else Err(CommandFailure(cmd, rd.out.0, rd.out.1)))
  }

  /** The child state word: `preg_match('/Child in state (\w+)/', $body)`. */
  const ChildState: string := "Child in state "

  predicate StateMatchAt(body: string, i: nat)
  {
    i + |ChildState| < |body| && body[i..i + |ChildState|] == ChildState && IsWordChar(body[i + |ChildState|])
  }

  /** The leftmost position at or after `from` where the pattern matches. */
  function StateMatchFrom(body: string, from: nat): (m: Option<nat>)
    requires from <= |body|
    ensures m.Some? ==> from <= m.value < |body| && StateMatchAt(body, m.value)
    ensures forall j :: from <= j < |body| && (m.None? || j < m.value) ==> !StateMatchAt(body, j)
    decreases |body| - from
  {
    if from == |body| then None
    else if StateMatchAt(body, from) then Some(from)
    else StateMatchFrom(body, from + 1)
  }

  /** The captured word: the maximal run of word characters after the leftmost "Child in state ". */
  function StatusWord(body: string): (w: Option<string>)
    ensures w.Some? ==> w.value != "" && forall i :: 0 <= i < |w.value| ==> IsWordChar(w.value[i])
  {
    match StateMatchFrom(body, 0)
    case None => None
    case Some(i) => Some(PrefixWhile(body[i + |ChildState|..], IsWordChar))
  }

  /** A report "Child in state <w>" names the whole word w as the child's state. */
  lemma StatusWordOf(w: string, tail: string)
    requires w != [] && forall i :: 0 <= i < |w| ==> IsWordChar(w[i])
    requires tail == [] || !IsWordChar(tail[0])
    ensures StatusWord(ChildState + w + tail) == Some(w)
  {
    var body := ChildState + w + tail;
    assert body[..|ChildState|] == ChildState && body[|ChildState|] == w[0];
    assert StateMatchAt(body, 0);
    assert body[|ChildState|..] == w + tail;
    PrefixWhileExact(w, tail, IsWordChar);
  }

  /** Only the state word "running" itself counts: "runningx" or "stopped" do not. */
  lemma RunningWordOnly(w: string, tail: string)
    requires w != [] && forall i :: 0 <= i < |w| ==> IsWordChar(w[i])
    requires tail == [] || !IsWordChar(tail[0])
    ensures ReportsRunning(ChildState + w + tail) <==> w == "running"
  {
    StatusWordOf(w, tail);
  }

  /** A body reports a running child: the leftmost state word is exactly "running". */
  predicate ReportsRunning(body: string)
  {
    StatusWord(body) == Some("running")
  }

  /** `status()`: the probe never throws; any failure of the command reads as false. */
  function StatusOn(s: Session): (r: Step<bool>)
    ensures r.out ==> s.open && Receive(s.replies).code == 200 && ReportsRunning(Receive(s.replies).body)
    ensures r.session.open == s.open && r.session.fcloses == s.fcloses && r.session.notices == s.notices
  {
    var c := CommandOn(s, "status", 200);
    Step(c.session, c.out.Ok? && ReportsRunning(c.out.value))
  }

  /**
   * The probe is true exactly when "status\n" goes out and the reply has
   * code 200 and a body reporting a running child; otherwise false.
   */
  lemma StatusProbe(s: Session)
    ensures var f := Receive(s.replies);
            StatusOn(s).out <==> s.open && 7 <= s.room && f.code == 200 && ReportsRunning(f.body)
    ensures s.open && 7 <= s.room ==> StatusOn(s).session.sent == s.sent + "status\n"
  {
  }

  /** `stop()`: a no-op with a notice when the child is not running, otherwise "stop" expecting 200. */
  function StopOn(s: Session): (r: Step<Result<bool>>)
    ensures r.out.Ok? ==> r.out.value
  {
    var st := StatusOn(s);
    if !st.out then
      Step(st.session.(notices := st.session.notices + [AlreadyStopped(s)]), Ok(true))
    else
      var c := CommandOn(st.session, "stop", 200);
      Step(c.session, if c.out.Ok? then Ok(true) else Err(c.out.message))
  }

  /** `start()`: a no-op with a notice when the child is running, otherwise "start" expecting 200. */
  function StartOn(s: Session): (r: Step<Result<bool>>)
    ensures r.out.Ok? ==> r.out.value
  {
    var st := StatusOn(s);
    if st.out then
      Step(st.session.(notices := st.session.notices + [AlreadyStarted(s)]), Ok(true))
    else
      var c := CommandOn(st.session, "start", 200);
      Step(c.session, if c.out.Ok? then Ok(true) else Err(c.out.message))
  }

  /**
   * Stopping a child that is not running sends nothing after the probe and
   * succeeds with one notice; stopping a running one sends "stop\n" and
   * succeeds exactly when the reply code is 200.
   */
  lemma StopIdempotent(s: Session)
    ensures var st := StatusOn(s).session;
            !StatusOn(s).out ==>
              StopOn(s) == Step(st.(notices := s.notices + [AlreadyStopped(s)]), Ok(true))
    ensures var st := StatusOn(s).session;
            StatusOn(s).out && 5 <= st.room ==>
              && StopOn(s).session.sent == st.sent + "stop\n"
              && (StopOn(s).out.Ok? <==> Receive(st.replies).code == 200)
  {
    var probe := StatusOn(s);
    if probe.out {
      assert |CommandLine("stop")| == 5;
    }
  }

  /**
   * Starting a running child sends nothing after the probe and succeeds
   * with one notice; starting a stopped one sends "start\n" and succeeds
   * exactly when the reply code is 200.
   */
  lemma StartIdempotent(s: Session)
    ensures var st := StatusOn(s).session;
            StatusOn(s).out ==>
              StartOn(s) == Step(st.(notices := s.notices + [AlreadyStarted(s)]), Ok(true))
    ensures var st := StatusOn(s).session;
            !StatusOn(s).out && st.open && 6 <= st.room ==>
              && StartOn(s).session.sent == st.sent + "start\n"
              && (StartOn(s).out.Ok? <==> Receive(st.replies).code == 200)
  {
    var probe := StatusOn(s);
    if probe.out {
      assert |CommandLine("start")| == 6;
    }
  }

  /** `purge($expr)`: the command "purge <expr>" expecting 200. */
  function PurgeOn(s: Session, expr: string): (r: Step<Result<string>>)
    ensures r.out.Ok? ==> s.open && Receive(s.replies).code == 200 && r.out.value == Receive(s.replies).body
    ensures r.session.open == s.open && r.session.fcloses == s.fcloses
  {
    CommandOn(s, "purge " + expr, 200)
  }

  /** `purge_url($expr)`: the command "purge.url <expr>" expecting 200. */
  function PurgeUrlOn(s: Session, expr: string): (r: Step<Result<string>>)
    ensures r.out.Ok? ==> s.open && Receive(s.replies).code == 200 && r.out.value == Receive(s.replies).body
    ensures r.session.open == s.open && r.session.fcloses == s.fcloses
  {
    CommandOn(s, "purge.url " + expr, 200)
  }

  /** The shortcut puts exactly "purge", one space and the expression on the wire. */
  lemma PurgeSends(s: Session, expr: string)
    requires s.open && |expr| + 7 <= s.room
    ensures PurgeOn(s, expr).session.sent == s.sent + "purge " + expr + "\n"
    ensures PurgeOn(s, expr).out.Ok? <==> Receive(s.replies).code == 200
  {
    VerbLine("purge ", expr);
  }

  /** The shortcut puts exactly "purge.url", one space and the pattern on the wire. */
  lemma PurgeUrlSends(s: Session, expr: string)
    requires s.open && |expr| + 11 <= s.room
    ensures PurgeUrlOn(s, expr).session.sent == s.sent + "purge.url " + expr + "\n"
    ensures PurgeUrlOn(s, expr).out.Ok? <==> Receive(s.replies).code == 200
  {
    VerbLine("purge.url ", expr);
  }

  lemma VerbLine(verb: string, arg: string)
    requires |verb| >= 2
    ensures CommandLine(verb + arg) == verb + arg + "\n"
  {
    assert |verb + arg| >= 2;
  }

  /** The listing: the trimmed body exploded at line breaks, in server order. */
  function PurgeListOf(body: string): (lines: seq<string>)
    ensures |lines| >= 1
    ensures forall i :: 0 <= i < |lines| ==> '\n' !in lines[i]
  {
    Explode(Trim(body), '\n')
  }

  /** The listed lines glued with line breaks give back the trimmed body; an empty body lists one empty line. */
  lemma PurgeListLines(body: string)
    ensures Join(PurgeListOf(body), "\n") == Trim(body)
    ensures Trim(body) == "" ==> PurgeListOf(body) == [""]
  {
    JoinExplode(Trim(body), '\n');
  }

  /** `purge_list()`: the command "purge.list" expecting 200, its body split into lines. */
  function PurgeListOn(s: Session): (r: Step<Result<seq<string>>>)
    ensures r.out.Ok? ==> s.open && Receive(s.replies).code == 200
    ensures r.out.Ok? ==> r.out.value == PurgeListOf(Receive(s.replies).body)
    ensures r.out.Ok? ==> |r.out.value| >= 1 && Join(r.out.value, "\n") == Trim(Receive(s.replies).body)
    ensures r.session.open == s.open && r.session.fcloses == s.fcloses
  {
    var c := CommandOn(s, "purge.list", 200);
    PurgeListLines(Receive(s.replies).body);
    Step(c.session, if c.out.Ok? then Ok(PurgeListOf(c.out.value)) else Err(c.out.message))
  }

  /** The listing puts exactly "purge.list" on the wire and succeeds iff the reply code is 200. */
  lemma PurgeListSends(s: Session)
    requires s.open && 11 <= s.room
    ensures PurgeListOn(s).session.sent == s.sent + "purge.list\n"
    ensures PurgeListOn(s).out.Ok? <==> Receive(s.replies).code == 200
    ensures PurgeListOn(s).out.Ok? ==> PurgeListOn(s).out.value == PurgeListOf(Receive(s.replies).body)
  {
    assert |CommandLine("purge.list")| == 11;
  }

  /**
   * `connect()`: `peer` is what fsockopen() opened, or None when it failed.
   * The banner is returned only when the first reply has code 200.
   */
  function ConnectOn(s: Session, peer: Option<Peer>): (r: Step<Result<string>>)
    ensures r.out.Ok? <==> peer.Some? && Receive(peer.value.replies).code == 200
    ensures r.out.Ok? ==> r.out.value == Receive(peer.value.replies).body
    ensures r.session.open == peer.Some?
    ensures r.session.sent == s.sent && r.session.fcloses == s.fcloses
  {
    if peer.None? then
      Step(s.(open := false, replies := [], room := 0), Err(ConnectFailure(s)))
    else
      var rd := ReadOn(s.(open := true, replies := peer.value.replies, room := peer.value.room));
      Step(rd.session, if rd.out.0 == 200 then Ok(rd.out.1) else Err(BadResponse(s)))
  }

  /** `close()`: fclose() only when the handle is open; the handle is always left unset. */
  function CloseOn(s: Session): (t: Session)
    ensures !t.open && t.replies == [] && t.room == 0
    ensures t.fcloses == s.fcloses + (if s.open then 1 else 0)
    ensures t.sent == s.sent && t.notices == s.notices
  {
    s.(open := false, replies := [], room := 0, fcloses := s.fcloses + (if s.open then 1 else 0))
  }

  /** Closing twice is closing once. */
  lemma CloseIdempotent(s: Session)
    ensures CloseOn(CloseOn(s)) == CloseOn(s)
  {
  }

  /** `quit()`: "quit" expecting 500, then close() only if that did not throw. */
  function QuitOn(s: Session): (r: Step<Result<()>>)
    ensures r.out.Ok? ==> !r.session.open
    ensures r.out.Err? ==> r.session.open == s.open && r.session.fcloses == s.fcloses
  {
    var c := CommandOn(s, "quit", 500);
    if c.out.Ok? then Step(CloseOn(c.session), Ok(())) else Step(c.session, Err(c.out.message))
  }

  /** `quit()` puts "quit" and a line break on the wire, and succeeds exactly when the reply code is 500. */
  lemma QuitSends(s: Session)
    requires s.open && 5 <= s.room
    ensures QuitOn(s).session.sent == s.sent + "quit\n"
    ensures QuitOn(s).out.Ok? <==> Receive(s.replies).code == 500
  {
    assert |CommandLine("quit")| == 5;
  }
}
