/**
 * The plugin's saved settings: wpv_get_clients() reads the list of
 * varnishadm servers ("host:port:version" per line) and wpv_get_secrets()
 * the list of rawurlencoded secrets. The character classes of their
 * preg_split() patterns are written out as predicates.
 */
module ClientConfig {
  import opened Results
  import opened Text
  import opened UrlCoding

  /** `[a-z0-9\.\:\- ]` under the case-insensitive flag: what a client line is made of. */
  predicate IsListChar(c: char)
  {
    IsAlnum(c) || c == '.' || c == ':' || c == '-' || c == ' '
  }

  /** `[a-z0-9\.]` under the case-insensitive flag: what a host, port or version is made of. */
  predicate IsFieldChar(c: char)
  {
    IsAlnum(c) || c == '.'
  }

  /** `[a-z0-9_\-\.~\%]` under the case-insensitive flag: what an encoded secret is made of. */
  predicate IsSecretChar(c: char)
  {
    IsWordChar(c) || c == '-' || c == '.' || c == '~' || c == '%'
  }

  /** `[^a-z0-9\.\:\- ]`: a character that separates client lines. */
  predicate SplitsLines(c: char)
  {
    !IsListChar(c)
  }

  /** `[^a-z0-9_\-\.~\%]`: a character that separates secrets. */
  predicate SplitsSecrets(c: char)
  {
    !IsSecretChar(c)
  }

  /**
   * Every character of `s` is in the class `p`. The character classes here
   * are several, so they are passed in; the digit case keeps its own
   * first-order `AllDigits` in Text (AllOfDigits), which the header and
   * decimal proofs use without a function value in their quantifiers.
   */
  predicate AllOf(s: string, p: char -> bool)
  {
    forall j :: 0 <= j < |s| ==> p(s[j])
  }

  lemma AllOfDigits(s: string)
    ensures AllOf(s, IsDigit) <==> AllDigits(s)
  {
  }

  /**
   * The client lines: the trimmed text split at every run of characters
   * outside IsListChar, empty pieces dropped (PREG_SPLIT_NO_EMPTY).
   */
  function ClientLines(raw: string): (lines: seq<string>)
    ensures forall i :: 0 <= i < |lines| ==> lines[i] != "" && AllOf(lines[i], IsListChar)
  {
    var parts := SplitWhere(Trim(raw), SplitsLines);
    var lines := RemoveEmpty(parts);
    assert forall i :: 0 <= i < |lines| ==> exists k :: 0 <= k < |parts| && lines[i] == parts[k];
    lines
  }

  /**
   * preg_split() of `s` at every single character outside IsFieldChar, with
   * PREG_SPLIT_NO_EMPTY and limit `n`: empty pieces are skipped without
   * counting towards the limit, and once n - 1 pieces are out the rest of
   * the text after the last separator is the final piece, separators and all.
   * `piece` is the text read since the last separator.
   */
  function FieldsFrom(s: string, piece: string, n: nat): (fields: seq<string>)
    requires n >= 1 && AllOf(piece, IsFieldChar)
    ensures |fields| <= n
    ensures forall i :: 0 <= i < |fields| ==> fields[i] != ""
    ensures forall i :: 0 <= i < |fields| && i < n - 1 ==> AllOf(fields[i], IsFieldChar)
    decreases |s|
  {
    if n == 1 || s == [] then
      if piece + s == "" then [] else [piece + s]
    else if !IsFieldChar(s[0]) then
      if piece == "" then FieldsFrom(s[1..], "", n) else [piece] + FieldsFrom(s[1..], "", n - 1)
    else
      FieldsFrom(s[1..], piece + [s[0]], n)
  }

  /** preg_split('/[^a-z0-9\.]/i', $line, 3, PREG_SPLIT_NO_EMPTY) */
  function Fields(line: string): (fields: seq<string>)
    ensures |fields| <= 3
    ensures forall i :: 0 <= i < |fields| ==> fields[i] != ""
    ensures forall i :: 0 <= i < |fields| && i < 2 ==> AllOf(fields[i], IsFieldChar)
  {
    FieldsFrom(line, "", 3)
  }

  /** One configured server; `host` is None when the line held no field at all. */
  datatype Client = Client(host: Option<string>, port: string, version: string)

  /** A client line: port and version default to "6082" and "2.1" when missing or empty(). */
  function ParseClient(line: string): (c: Client)
    ensures !Falsy(c.port) && !Falsy(c.version)
    ensures c.host.Some? <==> Fields(line) != []
    ensures c.host.Some? ==> c.host.value != "" && AllOf(c.host.value, IsFieldChar)
  {
    var f := Fields(line);
    Client(if |f| >= 1 then Some(f[0]) else None,
           if |f| >= 2 && !Falsy(f[1]) then f[1] else "6082",
           if |f| >= 3 && !Falsy(f[2]) then f[2] else "2.1")
  }

  /** The foreach of wpv_get_clients(): each line parsed into its client, in order. */
  method ParseClients(lines: seq<string>) returns (clients: seq<Client>)
    ensures |clients| == |lines|
    ensures forall i :: 0 <= i < |clients| ==> clients[i] == ParseClient(lines[i])
  {
    clients := [];
    for i := 0 to |lines|
      invariant |clients| == i
      invariant forall j :: 0 <= j < i ==> clients[j] == ParseClient(lines[j])
    {
      var client := ParseClient(lines[i]);
      clients := clients + [client];
    }
  }

  /** wpv_get_clients($raw): nothing for a falsy setting, else one client per line, in order. */
  method GetClients(raw: string) returns (clients: Option<seq<Client>>)
    ensures clients.None? <==> Falsy(raw)
    ensures clients.Some? ==> |clients.value| == |ClientLines(raw)|
    ensures clients.Some? ==> forall i :: 0 <= i < |clients.value| ==> clients.value[i] == ParseClient(ClientLines(raw)[i])
  {
    if Falsy(raw) {
      return None;
    }
    var parsed := ParseClients(ClientLines(raw));
    return Some(parsed);
  }

  /** Field characters before a separator are all part of the current piece. */
  lemma {:induction false} FieldsAbsorb(w: string, s: string, piece: string, n: nat)
    requires n >= 2 && AllOf(piece, IsFieldChar) && AllOf(w, IsFieldChar)
    ensures FieldsFrom(w + s, piece, n) == FieldsFrom(s, piece + w, n)
    decreases |w|
  {
    if w != [] {
      assert (w + s)[1..] == w[1..] + s;
      assert piece + w == (piece + [w[0]]) + w[1..];
      FieldsAbsorb(w[1..], s, piece + [w[0]], n);
    } else {
      assert w + s == s && piece + w == piece;
    }
  }

  /** A field followed by a separator is a field of its own, counted against the limit. */
  lemma FieldThen(w: string, sep: char, s: string, n: nat)
    requires n >= 2 && w != [] && AllOf(w, IsFieldChar) && !IsFieldChar(sep)
    ensures FieldsFrom(w + ([sep] + s), "", n) == [w] + FieldsFrom(s, "", n - 1)
  {
    FieldsAbsorb(w, [sep] + s, "", n);
    assert "" + w == w;
    assert ([sep] + s)[1..] == s;
  }

  /** Three plain fields with a separator between each pair are the three fields of the line. */
  lemma ThreeFields(h: string, a: char, p: string, b: char, v: string)
    requires h != "" && AllOf(h, IsFieldChar) && !IsFieldChar(a)
    requires p != "" && AllOf(p, IsFieldChar) && !IsFieldChar(b)
    requires v != ""
    ensures Fields(h + [a] + p + [b] + v) == [h, p, v]
  {
    assert h + [a] + p + [b] + v == h + ([a] + (p + ([b] + v)));
    FieldThen(h, a, p + ([b] + v), 3);
    FieldThen(p, b, v, 2);
    assert FieldsFrom(v, "", 1) == [v] by {
      assert "" + v == v;
    }
  }

  /** "host:port:version" with plain fields reads back as that client. */
  lemma ClientRoundTrip(h: string, p: string, v: string)
    requires h != "" && AllOf(h, IsFieldChar)
    requires !Falsy(p) && AllOf(p, IsFieldChar)
    requires !Falsy(v)
    ensures ParseClient(h + ":" + p + ":" + v) == Client(Some(h), p, v)
  {
    ThreeFields(h, ':', p, ':', v);
    assert h + ":" + p + ":" + v == h + [':'] + p + [':'] + v;
  }

  /** "host:port" with plain fields gets the default version. */
  lemma MissingVersion(h: string, p: string)
    requires h != "" && AllOf(h, IsFieldChar)
    requires !Falsy(p) && AllOf(p, IsFieldChar)
    ensures ParseClient(h + ":" + p) == Client(Some(h), p, "2.1")
  {
    assert h + ":" + p == h + ([':'] + p);
    FieldThen(h, ':', p, 3);
    FieldsAbsorb(p, "", "", 2);
    assert p + "" == p && "" + p == p;
    assert FieldsFrom(p, "", 2) == [p];
  }

  /** empty() holds for the port "0", so "host:0:version" gets the default port. */
  lemma ZeroPort(h: string, v: string)
    requires h != "" && AllOf(h, IsFieldChar)
    requires !Falsy(v)
    ensures ParseClient(h + ":0:" + v) == Client(Some(h), "6082", v)
  {
    assert AllOf("0", IsFieldChar);
    ThreeFields(h, ':', "0", ':', v);
    assert h + ":0:" + v == h + [':'] + "0" + [':'] + v;
  }

  /** A bare host gets the default port and version. */
  lemma BareHost(h: string)
    requires h != "" && AllOf(h, IsFieldChar)
    ensures ParseClient(h) == Client(Some(h), "6082", "2.1")
  {
    FieldsAbsorb(h, "", "", 3);
    assert h + "" == h && "" + h == h;
    assert Fields(h) == [h];
  }

  /** Text made of line characters, with no space at either end, is a single client line. */
  lemma OneLine(line: string)
    requires line != "" && AllOf(line, IsListChar)
    requires line[0] != ' ' && line[|line| - 1] != ' '
    ensures ClientLines(line) == [line]
  {
    assert !IsTrimmed(line[0]) && !IsTrimmed(line[|line| - 1]);
    TrimKeeps(line);
    SplitWhereFree(line, SplitsLines);
    RemoveEmptyKeeps([line]);
  }

  /** A space is a line character, so two servers written on one line stay one line. */
  lemma SpaceKeepsLine()
    ensures ClientLines("a:1 b:2") == ["a:1 b:2"]
  {
    var line := "a:1 b:2";
    forall j | 0 <= j < |line| ensures IsListChar(line[j]) {
      assert line[j] in "a:1 b2";
    }
    OneLine(line);
  }

  /** As a field separator, the space then makes the second server the first one's version. */
  lemma SpaceSeparatesFields()
    ensures ParseClient("a:1 b:2") == Client(Some("a"), "1", "b:2")
  {
    assert "a:1 b:2" == "a" + [':'] + "1" + [' '] + "b:2";
    ThreeFields("a", ':', "1", ' ', "b:2");
  }

  /**
   * A list of servers separated by spaces is one server line whose third
   * field is everything after the first port: the first server is kept with
   * that text as its version, and every later server is lost.
   */
  lemma SpaceListIsOneClient(h: string, p: string, rest: string)
    requires h != "" && AllOf(h, IsFieldChar)
    requires !Falsy(p) && AllOf(p, IsFieldChar)
    requires !Falsy(rest) && AllOf(rest, IsListChar) && rest[|rest| - 1] != ' '
    ensures ClientLines(h + ":" + p + " " + rest) == [h + ":" + p + " " + rest]
    ensures ParseClient(h + ":" + p + " " + rest) == Client(Some(h), p, rest)
  {
    var line := h + ":" + p + " " + rest;
    assert line == h + [':'] + p + [' '] + rest;
    forall j | 0 <= j < |line| ensures IsListChar(line[j]) {
      if j < |h| {
        assert line[j] == h[j];
      } else if j == |h| {
      } else if j < |h| + 1 + |p| {
        assert line[j] == p[j - |h| - 1];
      } else if j == |h| + 1 + |p| {
      } else {
        assert line[j] == rest[j - |h| - 2 - |p|];
      }
    }
    assert line[0] == h[0] && line[|line| - 1] == rest[|rest| - 1];
    OneLine(line);
    ThreeFields(h, ':', p, ' ', rest);
  }

  /** "-" separates fields, so a hyphenated host name is cut in two. */
  lemma HyphenSplitsHost()
    ensures ParseClient("my-host:6082") == Client(Some("my"), "host", "6082")
  {
    ThreeFields("my", '-', "host", ':', "6082");
    assert "my-host:6082" == "my" + ['-'] + "host" + [':'] + "6082";
  }

  /** Server lines written one per line come back as those lines. */
  lemma ClientLinesOfJoin(lines: seq<string>)
    requires |lines| >= 1
    requires forall i :: 0 <= i < |lines| ==> lines[i] != "" && AllOf(lines[i], IsListChar)
    requires lines[0][0] != ' ' && lines[|lines| - 1][|lines[|lines| - 1]| - 1] != ' '
    ensures ClientLines(Join(lines, "\n")) == lines
  {
    var raw := Join(lines, "\n");
    JoinEnds(lines, "\n");
    var first, last := lines[0], lines[|lines| - 1];
    assert IsListChar(first[0]) && IsListChar(last[|last| - 1]);
    assert !IsTrimmed(raw[0]) && !IsTrimmed(raw[|raw| - 1]);
    TrimKeeps(raw);
    assert forall i, j :: 0 <= i < |lines| && 0 <= j < |lines[i]| ==> IsListChar(lines[i][j]);
    SplitWhereJoin(lines, '\n', SplitsLines);
    RemoveEmptyKeeps(lines);
  }

  /** Server lines separated by "\r\n" in the stored setting come back as those lines. */
  lemma ClientLinesOfCrlf(lines: seq<string>)
    requires |lines| >= 1
    requires forall i :: 0 <= i < |lines| ==> lines[i] != "" && AllOf(lines[i], IsListChar)
    requires lines[0][0] != ' ' && lines[|lines| - 1][|lines[|lines| - 1]| - 1] != ' '
    ensures ClientLines(Join(lines, "\r\n")) == lines
  {
    var raw := Join(lines, "\r\n");
    JoinEnds(lines, "\r\n");
    var first, last := lines[0], lines[|lines| - 1];
    assert IsListChar(first[0]) && IsListChar(last[|last| - 1]);
    assert !IsTrimmed(raw[0]) && !IsTrimmed(raw[|raw| - 1]);
    TrimKeeps(raw);
    assert forall i, j :: 0 <= i < |lines| && 0 <= j < |lines[i]| ==> IsListChar(lines[i][j]);
    SplitWhereJoinTwo(lines, '\r', '\n', SplitsLines);
    RemoveEmptyKeeps(lines);
  }

  /** A glued list of non-empty strings starts with the first one's first character and ends with the last one's last. */
  lemma {:induction false} JoinEnds(parts: seq<string>, glue: string)
    requires |parts| >= 1 && forall i :: 0 <= i < |parts| ==> parts[i] != ""
    ensures var s := Join(parts, glue); |s| >= 1 && s[0] == parts[0][0] && s[|s| - 1] == parts[|parts| - 1][|parts[|parts| - 1]| - 1]
  {
    if |parts| > 1 {
      JoinEnds(parts[1..], glue);
    }
  }

  /**
   * The secret pieces: preg_split() at every run of characters outside
   * IsSecretChar, empty pieces kept. A run makes one cut, so an empty piece
   * can only come first or last.
   */
  function SecretPieces(raw: string): (pieces: seq<string>)
    ensures |pieces| >= 1
    ensures forall i :: 0 <= i < |pieces| ==> AllOf(pieces[i], IsSecretChar)
    ensures forall i :: 0 < i < |pieces| - 1 ==> pieces[i] != ""
  {
    var parts := SplitWhere(raw, SplitsSecrets);
    if |parts| == 1 then parts
    else
      var middle := RemoveEmpty(parts[1..|parts| - 1]);
      assert forall i :: 0 <= i < |middle| ==> exists k :: 0 <= k < |parts| && middle[i] == parts[k];
      [parts[0]] + middle + [parts[|parts| - 1]]
  }

  /** The foreach of wpv_get_secrets(): each piece rawurldecode()d, in order. */
  method DecodeSecrets(pieces: seq<string>) returns (secrets: seq<string>)
    ensures |secrets| == |pieces|
    ensures forall i :: 0 <= i < |secrets| ==> secrets[i] == RawUrlDecode(pieces[i])
  {
    secrets := [];
    for i := 0 to |pieces|
      invariant |secrets| == i
      invariant forall j :: 0 <= j < i ==> secrets[j] == RawUrlDecode(pieces[j])
    {
      secrets := secrets + [RawUrlDecode(pieces[i])];
    }
  }

  /** wpv_get_secrets($raw): nothing for a falsy setting, else each piece rawurldecode()d, in order. */
  method GetSecrets(raw: string) returns (secrets: Option<seq<string>>)
    ensures secrets.None? <==> Falsy(raw)
    ensures secrets.Some? ==> |secrets.value| == |SecretPieces(raw)|
    ensures secrets.Some? ==> forall i :: 0 <= i < |secrets.value| ==> secrets.value[i] == RawUrlDecode(SecretPieces(raw)[i])
  {
    if Falsy(raw) {
      return None;
    }
    var decoded := DecodeSecrets(SecretPieces(raw));
    return Some(decoded);
  }

  /** rawurlencode() output is made of secret characters only. */
  lemma {:induction false} EncodedIsSecret(s: string)
    requires IsBytes(s)
    ensures AllOf(Encode(s, false), IsSecretChar)
  {
    if s != [] {
      EncodedIsSecret(s[1..]);
      var c := s[0];
      if !Unreserved(c, false) {
        assert IsSecretChar(HexChar(c as int / 16)) && IsSecretChar(HexChar(c as int % 16));
      }
      assert AllOf(EncodeByte(c, false), IsSecretChar);
    }
  }

  /** An assumed format for the secrets setting: each secret rawurlencoded, comma-separated. */
  function EncodeSecrets(ss: seq<string>): string
    requires forall i :: 0 <= i < |ss| ==> IsBytes(ss[i])
  {
    Join(seq(|ss|, i requires 0 <= i < |ss| => Encode(ss[i], false)), ",")
  }

  /** When the split gives no empty piece, the pieces are exactly the split. */
  lemma SecretPiecesKeep(raw: string)
    requires forall i :: 0 <= i < |SplitWhere(raw, SplitsSecrets)| ==> SplitWhere(raw, SplitsSecrets)[i] != ""
    ensures SecretPieces(raw) == SplitWhere(raw, SplitsSecrets)
  {
    var parts := SplitWhere(raw, SplitsSecrets);
    if |parts| > 1 {
      EndsAroundMiddle(parts);
    }
  }

  /** Keeping the ends and the non-empty middle of non-empty pieces keeps them all. */
  lemma EndsAroundMiddle(parts: seq<string>)
    requires |parts| > 1
    requires forall i :: 0 <= i < |parts| ==> parts[i] != ""
    ensures [parts[0]] + RemoveEmpty(parts[1..|parts| - 1]) + [parts[|parts| - 1]] == parts
  {
    var middle := parts[1..|parts| - 1];
    forall i | 0 <= i < |middle| ensures middle[i] != "" {
      assert middle[i] == parts[i + 1];
    }
    RemoveEmptyKeeps(middle);
    var n := |parts|;
    assert parts[..1] == [parts[0]] && parts[n - 1..] == [parts[n - 1]];
    assert parts == parts[..1] + parts[1..n - 1] + parts[n - 1..];
  }

  /** One secret, rawurlencoded: a non-empty run of secret characters that decodes back. */
  lemma EncodedSecret(s: string)
    requires s != "" && IsBytes(s)
    ensures Encode(s, false) != "" && AllOf(Encode(s, false), IsSecretChar)
    ensures RawUrlDecode(Encode(s, false)) == s
  {
    EncodedIsSecret(s);
    DecodeEncode(s, false);
  }

  /** Non-empty secrets, rawurlencoded and comma-separated, are read back one for one and in order. */
  lemma SecretsRoundTrip(ss: seq<string>)
    requires |ss| >= 1
    requires forall i :: 0 <= i < |ss| ==> ss[i] != "" && IsBytes(ss[i])
    ensures |SecretPieces(EncodeSecrets(ss))| == |ss|
    ensures forall i :: 0 <= i < |ss| ==> RawUrlDecode(SecretPieces(EncodeSecrets(ss))[i]) == ss[i]
  {
    var enc := seq(|ss|, i requires 0 <= i < |ss| => Encode(ss[i], false));
    forall i | 0 <= i < |ss|
      ensures enc[i] != "" && AllOf(enc[i], IsSecretChar) && RawUrlDecode(enc[i]) == ss[i]
    {
      EncodedSecret(ss[i]);
    }
    SplitWhereJoin(enc, ',', SplitsSecrets);
    SecretPiecesKeep(EncodeSecrets(ss));
  }

  /**
   * A left-out secret in the middle leaves no empty piece: the secrets after
   * it move up one place and no longer line up with their clients.
   */
  lemma EmptySecretShifts()
    ensures SecretPieces("a,,b") == ["a", "b"]
  {
    var sep := SplitsSecrets;
    SplitWhereFree("b", sep);
    SplitWhereThrough("", ',', "b", sep);
    SplitWhereThrough("a", ',', ",b", sep);
    assert "a,,b" == "a" + ([','] + ",b");
    assert ",b" == "" + ([','] + "b");
    assert SplitWhere("a,,b", sep) == ["a", "", "b"];
  }
}
