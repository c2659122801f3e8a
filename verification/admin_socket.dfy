/**
 * The varnishadm connection class. Its fields are the object's state; the
 * stream `$fp` is abstract (see module AdminProtocol): the chunks fgets()
 * will return, the bytes fputs() still accepts, and a log of what was sent.
 * Every method is proved to change the object exactly as the matching
 * function of AdminProtocol says, where the client's properties are proved.
 */
module AdminSocket {
  import opened Results
  import opened Text
  import opened AdminProtocol

  class VarnishAdminSocket {
    const host: string
    const port: string

    /** is_resource($this->fp) */
    var fp: bool
    /** What successive fgets() calls on the stream return; [] is feof. */
    var replies: seq<string>
    /** How many more bytes fputs() accepts on the stream. */
    var room: nat
    /** Every byte fputs() delivered, in order. */
    var sent: string
    /** How many times fclose() was called. */
    var fcloses: nat
    /** The E_USER_NOTICE messages raised so far. */
    var notices: seq<string>

    /** The object as a value of the protocol model. */
    function Value(): Session
      reads this
    {
      Session(host, port, fp, replies, room, sent, fcloses, notices)
    }

    constructor (host: string := "127.0.0.1", port: string := "6082")
      ensures Value() == Session(host, port, false, [], 0, "", 0, [])
    {
      this.host := host;
      this.port := port;
      fp := false;
      replies, room, sent := [], 0, "";
      fcloses, notices := 0, [];
    }

    /** `peer` is the stream fsockopen() opened, or None when it could not connect. */
    method Connect(peer: Option<Peer>) returns (r: Result<string>)
      modifies this
      ensures Step(Value(), r) == ConnectOn(old(Value()), peer)
    {
      fp := peer.Some?;
      if !fp {
        replies, room := [], 0;
        return Err(ConnectFailure(Value()));
      }
      replies, room := peer.value.replies, peer.value.room;
      var code, banner := Read();
      if code != 200 {
        return Err(BadResponse(Value()));
      }
      return Ok(banner);
    }

    method Write(data: string) returns (r: Result<bool>)
      modifies this
      ensures Step(Value(), r) == WriteOn(old(Value()), data)
    {
      if !fp {
        return Err(WriteFailure(Value()));
      }
      var bytes := if |data| <= room then |data| else room;
      sent := sent + data[..bytes];
      room := room - bytes;
      if bytes != |data| {
        return Err(WriteFailure(Value()));
      }
      return Ok(true);
    }

    method Command(cmd: string, ok: nat := 200) returns (r: Result<string>)
      modifies this
      ensures Step(Value(), r) == CommandOn(old(Value()), cmd, ok)
    {
      if !Falsy(cmd) {
        var w := Write(cmd);
        if w.Err? {
          return Err(w.message);
        }
      }
      var w := Write("\n");
      if w.Err? {
        return Err(w.message);
      }
      var code, response := Read();
      if code != ok {
        return Err(CommandFailure(cmd, code, response));
      }
      return Ok(response);
    }

    method Read() returns (code: nat, body: string)
      requires fp
      modifies this`replies
      ensures Step(Value(), (code, body)) == ReadOn(old(Value()))
    {
      ghost var chunks := replies;
      code := 0;
      // the declared length; never consulted when no header arrives, since the stream is then at its end
      var len := 0;
      var header := ReadHeader();
      if header.Some? {
        code, len := header.value.code, header.value.len;
      }
      ghost var tail := replies;
      body := ReadBody(len);
      match HeaderFrom(chunks, 0)
      case None =>
        ReceiveWithoutHeader(chunks);
      case Some(h) =>
        ReceiveAfterHeader(chunks, h, BodyEndFrom(tail, len, 0));
    }

    /** The first loop of `read`: lines are taken until one matches the header pattern, or the stream ends. */
    method ReadHeader() returns (header: Option<Header>)
      modifies this`replies
      ensures match HeaderFrom(old(replies), 0)
              case None => header.None? && replies == []
              case Some(h) => header == ParseHeader(old(replies)[h]) && replies == old(replies)[h + 1..]
    {
      ghost var chunks := replies;
      ghost var h := 0;
      header := None;
      while replies != []
        invariant h <= |chunks| && replies == chunks[h..]
        invariant forall j :: 0 <= j < h ==> ParseHeader(chunks[j]).None?
        invariant header.None?
      {
        var line := replies[0];
        replies := replies[1..];
        header := ParseHeader(line);
        if header.Some? {
          HeaderFromSkip(chunks, h);
          assert line == chunks[h] && HeaderFrom(chunks, h) == Some(h);
          return;
        }
        h := h + 1;
      }
      HeaderFromSkip(chunks, h);
    }

    /** The second loop of `read`: chunks are appended until the body reaches `len` bytes, or the stream ends. */
    method ReadBody(len: nat) returns (body: string)
      modifies this`replies
      ensures var k := BodyEndFrom(old(replies), len, 0);
              body == Concat(old(replies)[..k]) && replies == old(replies)[k..]
    {
      body := "";
      ghost var tail := replies;
      ghost var k := 0;
      while replies != [] && |body| < len
        invariant k <= |tail| && replies == tail[k..]
        invariant body == Concat(tail[..k])
        invariant forall j :: 0 <= j < k ==> |Concat(tail[..j])| < len
      {
        assert tail[..k + 1][..k] == tail[..k];
        body := body + replies[0];
        replies := replies[1..];
        k := k + 1;
      }
      BodyEndIs(tail, len, 0, k);
    }

    /** Brutal close: fclose() only if the handle is a resource, and always unset it. */
    method Close()
      modifies this
      ensures Value() == CloseOn(old(Value()))
    {
      if fp {
        fcloses := fcloses + 1;
      }
      fp, replies, room := false, [], 0;
    }

    /** Graceful close: "quit" expecting 500, then close() if that did not throw. */
    method Quit() returns (r: Result<()>)
      modifies this
      ensures Step(Value(), r) == QuitOn(old(Value()))
    {
      var c := Command("quit", 500);
      if c.Err? {
        return Err(c.message);
      }
      Close();
      return Ok(());
    }

    method Purge(expr: string) returns (r: Result<string>)
      modifies this
      ensures Step(Value(), r) == PurgeOn(old(Value()), expr)
    {
      r := Command("purge " + expr);
    }

    method PurgeUrl(expr: string) returns (r: Result<string>)
      modifies this
      ensures Step(Value(), r) == PurgeUrlOn(old(Value()), expr)
    {
      r := Command("purge.url " + expr);
    }

    method PurgeList() returns (r: Result<seq<string>>)
      modifies this
      ensures Step(Value(), r) == PurgeListOn(old(Value()))
    {
      var c := Command("purge.list");
      if c.Err? {
        return Err(c.message);
      }
      return Ok(PurgeListOf(c.value));
    }

    /** Whether the child is alive; any exception from the command reads as false. */
    method Status() returns (running: bool)
      modifies this
      ensures Step(Value(), running) == StatusOn(old(Value()))
    {
      var r := Command("status");
      running := r.Ok? && ReportsRunning(r.value);
    }

    method Stop() returns (r: Result<bool>)
      modifies this
      ensures Step(Value(), r) == StopOn(old(Value()))
    {
      var running := Status();
      if !running {
        notices := notices + [AlreadyStopped(Value())];
        return Ok(true);
      }
      var c := Command("stop");
      if c.Err? {
        return Err(c.message);
      }
      return Ok(true);
    }

    method Start() returns (r: Result<bool>)
      modifies this
      ensures Step(Value(), r) == StartOn(old(Value()))
    {
      var running := Status();
      if running {
        notices := notices + [AlreadyStarted(Value())];
        return Ok(true);
      }
      var c := Command("start");
      if c.Err? {
        return Err(c.message);
      }
      return Ok(true);
    }
  }
}
