/**
 * What the plugin queues for purging when a post or a comment changes, and
 * the purge expression it sends for each queued pattern. The queue is the
 * global array keyed by pattern; PHP arrays keep insertion order, so it is
 * a duplicate-free sequence threaded through the calls.
 */
module PurgeRules {
  import opened Results
  import opened Text

  predicate NoDuplicates(s: seq<string>)
  {
    forall i, j :: 0 <= i < j < |s| ==> s[i] != s[j]
  }

  /** `$wpv_to_purge[$p] = true`: a new pattern goes last, a known one stays where it is. */
  function Add(acc: seq<string>, p: string): (r: seq<string>)
    ensures acc <= r
    ensures forall x :: x in r <==> x in acc || x == p
    ensures NoDuplicates(acc) ==> NoDuplicates(r)
  {
    if p in acc then acc else acc + [p]
  }

  /** Each pattern added in turn. */
  function AddAll(acc: seq<string>, ps: seq<string>): (r: seq<string>)
    ensures acc <= r
    ensures forall x :: x in r <==> x in acc || x in ps
    ensures NoDuplicates(acc) ==> NoDuplicates(r)
    decreases |ps|
  {
    if ps == [] then acc else AddAll(Add(acc, ps[0]), ps[1..])
  }

  /** Adding patterns in two batches is adding them all in one. */
  lemma {:induction false} AddAllAppend(acc: seq<string>, a: seq<string>, b: seq<string>)
    ensures AddAll(acc, a + b) == AddAll(AddAll(acc, a), b)
    decreases |a|
  {
    if a != [] {
      assert (a + b)[1..] == a[1..] + b;
      AddAllAppend(Add(acc, a[0]), a[1..], b);
    } else {
      assert a + b == b;
    }
  }

  /** Two patterns added as a batch are the two added in turn. */
  lemma AddAllPair(acc: seq<string>, a: string, b: string)
    ensures AddAll(acc, [a, b]) == Add(Add(acc, a), b)
  {
    var q := Add(acc, a);
    assert [a, b][0] == a && [a, b][1..] == [b];
    assert AddAll(acc, [a, b]) == AddAll(q, [b]);
    assert [b][0] == b && [b][1..] == [];
    assert AddAll(q, [b]) == AddAll(Add(q, b), []);
  }

  /** Patterns already queued change nothing. */
  lemma {:induction false} AddAllKnown(acc: seq<string>, ps: seq<string>)
    requires forall x :: x in ps ==> x in acc
    ensures AddAll(acc, ps) == acc
    decreases |ps|
  {
    if ps != [] {
      assert ps[0] in ps;
      assert forall x :: x in ps[1..] ==> x in ps;
      AddAllKnown(acc, ps[1..]);
    }
  }

  /** Queuing the same patterns twice queues them once: the duplicate avoidance the queue is for. */
  lemma AddAllIdempotent(acc: seq<string>, ps: seq<string>)
    ensures AddAll(AddAll(acc, ps), ps) == AddAll(acc, ps)
  {
    AddAllKnown(AddAll(acc, ps), ps);
  }

  /** preg_split('!/!', $uri, -1, PREG_SPLIT_NO_EMPTY): the path segments. */
  function Segments(uri: string): (bits: seq<string>)
    ensures forall i :: 0 <= i < |bits| ==> bits[i] != "" && '/' !in bits[i]
  {
    var parts := Explode(uri, '/');
    var bits := RemoveEmpty(parts);
    assert forall i :: 0 <= i < |bits| ==> exists k :: 0 <= k < |parts| && bits[i] == parts[k];
    bits
  }

  /** A path written with its segments between slashes has those segments back. */
  lemma SegmentsOfPath(bits: seq<string>)
    requires |bits| >= 1
    requires forall i :: 0 <= i < |bits| ==> bits[i] != "" && '/' !in bits[i]
    ensures Segments("/" + Join(bits, "/")) == bits
  {
    ExplodeJoin([""] + bits, '/');
    assert Join([""] + bits, "/") == "/" + Join(bits, "/") by {
      assert ([""] + bits)[1..] == bits;
    }
    RemoveEmptyKeeps(bits);
  }

  /** A permalink with a trailing slash, the usual WordPress form, has the same segments. */
  lemma SegmentsOfDirPath(bits: seq<string>)
    requires |bits| >= 1
    requires forall i :: 0 <= i < |bits| ==> bits[i] != "" && '/' !in bits[i]
    ensures Segments("/" + Join(bits, "/") + "/") == bits
  {
    var parts := [""] + bits + [""];
    JoinEmptyLast([""] + bits, "/");
    JoinEmptyHead(bits, "/");
    assert Join(parts, "/") == "/" + Join(bits, "/") + "/";
    ExplodeJoin(parts, '/');
    RemoveEmptyFramed(bits);
  }

  /** The page of a directory and its paginated pages; a falsy path is the site root. */
  function DirPatterns(path: string): seq<string>
  {
    if Falsy(path) then ["^/$", "^/page/.*"]
    else ["^/" + path + "/?$", "^/" + path + "/page/.*"]
  }

  /**
   * What the `while (array_pop($bits))` loop queues: the last segment is
   * popped and, while it is truthy, the directory of what is left is queued.
   * array_pop() of an empty array gives null, which ends the loop too.
   */
  function AncestorPatterns(bits: seq<string>): (ps: seq<string>)
    ensures |ps| % 2 == 0 && |ps| <= 2 * |bits|
    ensures forall i :: 0 <= i < |ps| ==> "^/" <= ps[i]
  {
    if bits == [] || Falsy(bits[|bits| - 1]) then []
    else
      var rest := bits[..|bits| - 1];
      DirPatterns(Join(rest, "/")) + AncestorPatterns(rest)
  }

  /** Every pattern the post action queues for a post whose permalink path is `uri`. */
  function PostPatterns(uri: string, comment: bool): (ps: seq<string>)
    ensures ps == [] <==> Falsy(uri)
    ensures ps != [] ==> ps[0] == "^" + uri + "?"
    ensures comment ==> |ps| <= 1
    ensures !comment && !Falsy(uri) ==> "^/feed" in ps && |ps| <= 2 + 2 * |Segments(uri)|
  {
    if Falsy(uri) then []
    else if comment then ["^" + uri + "?"]
    else ["^" + uri + "?", "^/feed"] + AncestorPatterns(Segments(uri))
  }

  /**
   * wpv_edit_post_action() after the permalink path `uri` has been looked
   * up: the path-derived patterns added to the queue `acc`.
   */
  method EditPostAction(acc: seq<string>, uri: string, comment: bool := false) returns (queue: seq<string>)
    ensures queue == AddAll(acc, PostPatterns(uri, comment))
  {
    if Falsy(uri) {
      return acc;
    }
    queue := Add(acc, "^" + uri + "?");
    if comment {
      return;
    }
    queue := Add(queue, "^/feed");
    var bits := Segments(uri);
    AddAllAppend(acc, ["^" + uri + "?", "^/feed"], AncestorPatterns(bits));
    AddAllPair(acc, "^" + uri + "?", "^/feed");
    while bits != [] && !Falsy(bits[|bits| - 1])
      invariant AddAll(queue, AncestorPatterns(bits)) == AddAll(acc, PostPatterns(uri, comment))
      decreases |bits|
    {
      bits := bits[..|bits| - 1];
      var path := Join(bits, "/");
      AddAllAppend(queue, DirPatterns(path), AncestorPatterns(bits));
      AddAllPair(queue, DirPatterns(path)[0], DirPatterns(path)[1]);
      queue := Add(queue, if !Falsy(path) then "^/" + path + "/?$" else "^/$");
      queue := Add(queue, if !Falsy(path) then "^/" + path + "/page/.*" else "^/page/.*");
    }
  }

  /** wpv_edit_comment_action(): `postId` is 0 when the comment or its post could not be found. */
  method EditCommentAction(acc: seq<string>, commentId: nat, postId: nat, uri: string) returns (queue: seq<string>)
    ensures commentId == 0 || postId == 0 ==> queue == acc
    ensures commentId != 0 && postId != 0 ==> queue == Add(AddAll(acc, PostPatterns(uri, true)), "^/comments/feed")
  {
    if commentId == 0 || postId == 0 {
      return acc;
    }
    queue := EditPostAction(acc, uri, true);
    queue := Add(queue, "^/comments/feed");
  }

  /** A comment queues only the post's own page: nothing about feeds or directories. */
  lemma CommentQueuesPage(acc: seq<string>, uri: string)
    ensures !Falsy(uri) ==> AddAll(acc, PostPatterns(uri, true)) == Add(acc, "^" + uri + "?")
    ensures Falsy(uri) ==> AddAll(acc, PostPatterns(uri, true)) == acc
  {
  }

  /**
   * With no "0" segment, every proper ancestor directory of the post,
   * down to the site root, is queued with its pagination, and nothing else.
   */
  lemma {:induction false} AncestorsCovered(bits: seq<string>, p: string)
    requires forall i :: 0 <= i < |bits| ==> !Falsy(bits[i])
    ensures p in AncestorPatterns(bits) <==> exists k :: 0 <= k < |bits| && p in DirPatterns(Join(bits[..k], "/"))
  {
    if bits != [] {
      var rest := bits[..|bits| - 1];
      AncestorsCovered(rest, p);
      assert forall k :: 0 <= k < |rest| ==> rest[..k] == bits[..k];
      if p in DirPatterns(Join(rest, "/")) {
        assert p in DirPatterns(Join(bits[..|bits| - 1], "/"));
      }
    }
  }

  /** Any post below the root queues the root page and its pagination. */
  lemma RootQueued(uri: string)
    requires !Falsy(uri) && Segments(uri) != []
    requires forall i :: 0 <= i < |Segments(uri)| ==> !Falsy(Segments(uri)[i])
    ensures "^/$" in PostPatterns(uri, false) && "^/page/.*" in PostPatterns(uri, false)
  {
    var bits := Segments(uri);
    assert Join(bits[..0], "/") == "";
    AncestorsCovered(bits, "^/$");
    AncestorsCovered(bits, "^/page/.*");
  }

  /**
   * A "0" segment is falsy: the loop stops when it pops one, so the
   * directories above it are never queued, and a directory path that is
   * just "0" is taken for the root.
   */
  lemma ZeroSegmentStops()
    ensures AncestorPatterns(["a", "0", "b"]) == DirPatterns("a/0")
    ensures AncestorPatterns(["0", "b"]) == ["^/$", "^/page/.*"]
  {
    assert ["a", "0", "b"][..2] == ["a", "0"];
    assert ["a", "0"][..1] == ["a"];
    assert Join(["a", "0"], "/") == "a/0";
    assert ["0", "b"][..1] == ["0"];
  }

  /** The opening of every purge expression. */
  const UrlOpen := "req.url ~ \""
  /** The opening of the host clause. */
  const HostOpen := " && req.http.host ~ \""

  /**
   * The expression wpv_purge_urls() hands to purge() for one queued
   * pattern: a match on the URL, and on the host when the host pattern is truthy.
   */
  function PurgeExpression(url: string, hostPattern: string): (e: string)
    ensures UrlOpen <= e && e[|e| - 1] == '"'
    ensures Falsy(hostPattern) <==> |e| == |UrlOpen| + |url| + 1
  {
    UrlOpen + url + "\"" + (if Falsy(hostPattern) then "" else HostOpen + hostPattern + "\"")
  }

  predicate NotQuote(c: char)
  {
    c != '"'
  }

  /** Reads a purge expression back into its URL pattern and its host pattern, if any. */
  function ParsePurgeExpression(e: string): Option<(string, Option<string>)>
  {
    if !(UrlOpen <= e) then None
    else
      var rest := e[|UrlOpen|..];
      var url := PrefixWhile(rest, NotQuote);
      if |url| == |rest| then None
      else
        match ParseHostClause(rest[|url| + 1..])
        case None => None
        case Some(host) => Some((url, host))
  }

  /** What follows the URL pattern: nothing, or the host clause. */
  function ParseHostClause(tail: string): Option<Option<string>>
  {
    if tail == "" then Some(None)
    else if HostOpen <= tail && |tail| > |HostOpen| && tail[|tail| - 1] == '"' then
      Some(Some(tail[|HostOpen|..|tail| - 1]))
    else None
  }

  /** The host clause is read back as the host pattern, or as no host when the pattern is falsy. */
  lemma HostClauseRoundTrip(hostPattern: string)
    ensures ParseHostClause(if Falsy(hostPattern) then "" else HostOpen + hostPattern + "\"")
         == Some(if Falsy(hostPattern) then None else Some(hostPattern))
  {
    if !Falsy(hostPattern) {
      var tail := HostOpen + hostPattern + "\"";
      assert tail[..|HostOpen|] == HostOpen;
      assert tail[|HostOpen|..|tail| - 1] == hostPattern;
    }
  }

  /** The longest quote-free prefix of a quote-free text and a quote is that text. */
  lemma QuoteFreePrefix(url: string, tail: string)
    requires '"' !in url
    ensures PrefixWhile(url + "\"" + tail, NotQuote) == url
  {
    var s := url + "\"" + tail;
    var r := PrefixWhile(s, NotQuote);
    assert s[|url|] == '"';
  }

  /**
   * For a URL pattern without a double quote, the expression carries the
   * URL pattern, and the host pattern exactly when it is truthy.
   */
  lemma PurgeExpressionRoundTrip(url: string, hostPattern: string)
    requires '"' !in url
    ensures ParsePurgeExpression(PurgeExpression(url, hostPattern))
         == Some((url, if Falsy(hostPattern) then None else Some(hostPattern)))
  {
    var host := if Falsy(hostPattern) then "" else HostOpen + hostPattern + "\"";
    var e := PurgeExpression(url, hostPattern);
    assert e == UrlOpen + (url + "\"" + host);
    assert e[..|UrlOpen|] == UrlOpen;
    assert e[|UrlOpen|..] == url + "\"" + host;
    QuoteFreePrefix(url, host);
    assert (url + "\"" + host)[|url| + 1..] == host;
    HostClauseRoundTrip(hostPattern);
  }
}
