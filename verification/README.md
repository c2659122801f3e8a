# php-varnish: the varnishadm client and the WordPress plugin's purge logic, in Dafny

This project models two parts of php-varnish.

**The varnishadm CLI client (`VarnishAdminSocket`).** The class keeps its connection in its fields:
- whether the handle is open;
- the replies the stream will still deliver;
- how many bytes the stream still accepts;
- a log of what was written, a count of `fclose()` calls and a log of notices.

The stream is abstract. `replies` is the sequence of strings that successive `fgets($fp, 1024)` calls return. The end of the sequence is `feof`, and an empty string stands for a read that returned `false`. `room` is the number of bytes `fputs()` still accepts.

Each method of the class (`AdminSocket.VarnishAdminSocket`) is proved to change the object exactly as a pure step function of module `AdminProtocol` says. The client's properties are proved about those step functions:
- response framing;
- code checking and the failure message;
- the `status` probe;
- `start`/`stop` idempotence;
- the purge shortcuts;
- `close`/`quit`.

**The plugin's string logic (`wordpress-plugin.php`).**
- `wpv_postdata` is a urlencoded body parser in which repeated keys become lists (module `FormData`).
- `wpv_get_clients` and `wpv_get_secrets` parse the saved server list and secret list (module `ClientConfig`).
- The purge queue collects regular expressions for a changed post or comment. The global queue is threaded through the calls as a duplicate-free sequence, because PHP arrays keep insertion order. The queue and the purge expression are in module `PurgeRules`.

PHP's primitives are written out in modules `Text` and `UrlCoding`:
- truthiness of strings, where `""` and `"0"` are falsy;
- `trim`, `explode`/`implode`, and `preg_split` over one-character classes;
- `(int)` casts and `%d`;
- `urldecode`/`rawurldecode`.

The model follows the code in these places:
- **No authentication, no protocol versions.** The class has a two-argument constructor, no `set_auth` and no `ban` verb, although the plugin passes a version and calls `set_auth` (wordpress-plugin.php:142, wordpress-plugin.php:163).
- **Body length.** `read` stops at the first chunk count whose text reaches the declared length. The body can be longer than declared, because a chunk is appended whole. It can also be shorter, because the stream may end first.
- **No header line.** `read` returns code 0 and an empty body after consuming the whole stream. The "failed to get numeric code" exception can never be thrown.
- **`purge_list` of an empty body** is the one-element list `[""]`.
- **`quit`** does not close the handle when the `quit` command itself fails.
- **`command("0")`** writes only the line break, since `"0"` is falsy.
- **Secrets can misalign with clients.** The secret split cuts at runs of separators, so an empty secret between two others disappears and the later secrets move up one place (`ClientConfig.EmptySecretShifts`).
- **Spaces in the server list.** The admin page asks for the clients separated by spaces, in a single-line text field (wordpress-plugin/wordpress-admin.php:92-93). But a space is allowed inside a server line and separates fields there. So `"h1:6082 h2:6082"` is one client, host `"h1"` with version `"h2:6082"`, and every server after the first is lost (`ClientConfig.SpaceListIsOneClient`, `ClientConfig.SpaceKeepsLine`, `ClientConfig.SpaceSeparatesFields`).
- **Hyphens in host names.** A `-` separates fields, so a hyphenated host name is cut in two (`ClientConfig.HyphenSplitsHost`).
- **A `"0"` path segment** ends the ancestor-directory loop, and a directory path equal to `"0"` is taken for the site root (`PurgeRules.ZeroSegmentStops`).
- **A host pattern of `"0"`** is falsy, so the purge expression then has no host clause.

## Model

| member | source | states |
|---|---|---|
| AdminSocket.VarnishAdminSocket.constructor | VarnishAdminSocket.php:63-66 | The new object holds the given host and port (defaults 127.0.0.1 and 6082) and no open handle. |
| AdminSocket.VarnishAdminSocket.Connect | VarnishAdminSocket.php:75-90 | The object changes exactly as `ConnectOn` says: the handle is opened from the peer and the banner read off the stream. |
| AdminSocket.VarnishAdminSocket.Write | VarnishAdminSocket.php:99-105 | The object changes exactly as `WriteOn` says: the bytes that fit are logged as sent, and a short write is an error. |
| AdminSocket.VarnishAdminSocket.Command | VarnishAdminSocket.php:114-123 | The object changes exactly as `CommandOn` says. |
| AdminSocket.VarnishAdminSocket.Read | VarnishAdminSocket.php:131-151 | The two read loops take off the stream exactly the chunks `Receive` consumes, and return its code and body. |
| AdminSocket.VarnishAdminSocket.ReadHeader | VarnishAdminSocket.php:135-142 | The first loop consumes the stream up to and including the line `HeaderFrom` finds, and returns its parsed header. Without one it consumes everything and returns none. |
| AdminSocket.VarnishAdminSocket.ReadBody | VarnishAdminSocket.php:147-149 | The second loop appends exactly the `BodyEndFrom` chunks and leaves the rest on the stream. |
| Text.ConcatIsJoin | VarnishAdminSocket.php:146-149 | Appending the chunks one at a time with `.=` builds the same string as imploding them with no glue. |
| AdminSocket.VarnishAdminSocket.Close | VarnishAdminSocket.php:159-162 | The object becomes `CloseOn` of its old value. |
| AdminSocket.VarnishAdminSocket.Quit | VarnishAdminSocket.php:170-173 | The object changes exactly as `QuitOn` says. |
| AdminSocket.VarnishAdminSocket.Purge | VarnishAdminSocket.php:183-185 | The object changes exactly as `PurgeOn` says. |
| AdminSocket.VarnishAdminSocket.PurgeUrl | VarnishAdminSocket.php:195-197 | The object changes exactly as `PurgeUrlOn` says. |
| AdminSocket.VarnishAdminSocket.PurgeList | VarnishAdminSocket.php:206-209 | The object changes exactly as `PurgeListOn` says. |
| AdminSocket.VarnishAdminSocket.Status | VarnishAdminSocket.php:217-228 | The object changes exactly as `StatusOn` says, and the method never fails (on PHP 5/7, see "## Left out"). |
| AdminSocket.VarnishAdminSocket.Stop | VarnishAdminSocket.php:235-242 | The object changes exactly as `StopOn` says. |
| AdminSocket.VarnishAdminSocket.Start | VarnishAdminSocket.php:249-256 | The object changes exactly as `StartOn` says. |
| AdminProtocol.ParseHeader | VarnishAdminSocket.php:137-139 | The code read from a header line is below 1000; HeaderRoundTrip is its partner. |
| AdminProtocol.HeaderRoundTrip | VarnishAdminSocket.php:137-139 | A formatted "<code> <len>" line, followed by anything that is not a digit, parses back to the same code and length. |
| AdminProtocol.HeaderFrom | VarnishAdminSocket.php:135-142 | The first read loop stops at the leftmost header line. Every line before it fails to match. |
| AdminProtocol.BodyEndFrom | VarnishAdminSocket.php:147-149 | The body loop stops at the first count of chunks whose text reaches the declared length, or at the end of the stream. No chunk is read once the length is reached. |
| AdminProtocol.BodyEndIs | VarnishAdminSocket.php:147-149 | The first count that reaches the length, or the end of the stream, is where the body loop stops. |
| AdminProtocol.Receive | VarnishAdminSocket.php:131-151 | `read` returns a code below 1000 and consumes the stream only from the front: what is left unread is a suffix of it. |
| AdminProtocol.ReceiveWithoutHeader | VarnishAdminSocket.php:132-150 | A stream with no header line gives code 0 and an empty body, and is consumed entirely. |
| AdminProtocol.ReceiveSkipsNoise | VarnishAdminSocket.php:135-142 | Non-matching lines before the header are discarded and do not change the reply. |
| AdminProtocol.ReceiveFrame | VarnishAdminSocket.php:131-151 | After discarded lines, a header declaring L and non-empty chunks totalling L bytes: `read` returns that code and exactly that body, and leaves the following chunks unread. |
| AdminProtocol.ReceiveHeaderFirst | VarnishAdminSocket.php:135-149 | A header declaring L followed by non-empty chunks totalling L bytes gives that code and exactly that body, and leaves the following chunks unread. |
| AdminProtocol.BodyOfParts | VarnishAdminSocket.php:147-149 | Non-empty chunks whose text is exactly the declared length are all taken by the body loop, and no more. |
| AdminProtocol.WriteOn | VarnishAdminSocket.php:99-105 | A write succeeds iff the handle is open and every byte fits. On failure the message names host:port and at most the bytes that fit were sent. |
| AdminProtocol.CommandOn | VarnishAdminSocket.php:114-123 | When both writes go through, the bytes sent are the command (omitted when falsy) plus "\n". The call fails iff the reply code differs from `ok`, returns the body unchanged on success, and gives the failure message otherwise. If a write fails, nothing is read and only a proper prefix of the line is sent. |
| AdminProtocol.CommandFailure | VarnishAdminSocket.php:119-120 | The exception message starts with the command and is longer than the command and the fixed text around the code. |
| AdminProtocol.CommandFailureCarries | VarnishAdminSocket.php:119-120 | The failure message begins with the command, carries the code in decimal (reading it back gives the code), and ends with the quoted body. |
| AdminProtocol.QuotedIndents | VarnishAdminSocket.php:119 | Joining the body's lines with "\n > " is the same as replacing each line break by "\n > ". |
| AdminProtocol.StateMatchFrom | VarnishAdminSocket.php:220 | Gives the leftmost position where "Child in state " is followed by a word character. No earlier position matches. |
| AdminProtocol.StatusWord | VarnishAdminSocket.php:220-223 | The captured state word is a non-empty run of word characters. |
| AdminProtocol.StatusWordOf | VarnishAdminSocket.php:220-223 | In "Child in state <w>" followed by a non-word character, the state is the whole word w. |
| AdminProtocol.RunningWordOnly | VarnishAdminSocket.php:223 | Such a report counts as running iff the word is exactly "running". |
| AdminProtocol.StatusOn | VarnishAdminSocket.php:217-228 | `status()` is true only if the handle was open and the reply had code 200 and reported a running child. It never opens or closes the handle and raises no notice. |
| AdminProtocol.StatusProbe | VarnishAdminSocket.php:217-228 | `status()` is true iff "status\n" could be sent and the reply has code 200 and reports a running child. Every other outcome, including a failed command, is false. |
| AdminProtocol.StopOn | VarnishAdminSocket.php:235-242 | Whenever `stop()` succeeds it returns true. |
| AdminProtocol.StartOn | VarnishAdminSocket.php:249-256 | Whenever `start()` succeeds it returns true. |
| AdminProtocol.StopIdempotent | VarnishAdminSocket.php:235-242 | When the child is not running, `stop()` sends nothing after the probe and returns true with one notice. When it is running and the line "stop\n" fits the room left after the probe, `stop()` sends that line and succeeds iff the reply code is 200. |
| AdminProtocol.StartIdempotent | VarnishAdminSocket.php:249-256 | When the child is running, `start()` sends nothing after the probe and returns true with one notice. When it is not running, the handle is still open after the probe and the line "start\n" fits the room left, `start()` sends that line and succeeds iff the reply code is 200. |
| AdminProtocol.PurgeOn | VarnishAdminSocket.php:183-185 | `purge()` returns a body only if the handle was open and the reply code was 200, and then it is the reply's body. The handle is neither opened nor closed. |
| AdminProtocol.PurgeUrlOn | VarnishAdminSocket.php:195-197 | `purge_url()` returns a body only if the handle was open and the reply code was 200, and then it is the reply's body. The handle is neither opened nor closed. |
| AdminProtocol.PurgeSends | VarnishAdminSocket.php:183-185 | When the handle is open and the line fits, `purge(e)` sends exactly "purge " + e + "\n" and succeeds iff the reply code is 200. |
| AdminProtocol.PurgeUrlSends | VarnishAdminSocket.php:195-197 | When the handle is open and the line fits, `purge_url(e)` sends exactly "purge.url " + e + "\n" and succeeds iff the reply code is 200. |
| AdminProtocol.PurgeListOf | VarnishAdminSocket.php:208 | The listing has at least one line, and no line contains a line break. |
| AdminProtocol.PurgeListLines | VarnishAdminSocket.php:208 | The lines glued with "\n" give back the trimmed body, in server order. An empty body lists `[""]`. |
| AdminProtocol.PurgeListOn | VarnishAdminSocket.php:206-209 | `purge_list()` succeeds only on a 200 reply, and then gives the reply body trimmed and exploded at "\n": at least one line, and the lines glued with "\n" are the trimmed body. |
| AdminProtocol.PurgeListSends | VarnishAdminSocket.php:206-209 | When the handle is open and the line fits, `purge_list()` sends exactly "purge.list\n", succeeds iff the reply code is 200, and then lists the lines of the reply body. |
| AdminProtocol.ConnectOn | VarnishAdminSocket.php:75-90 | `connect()` succeeds iff a peer was reached and its first reply has code 200, and then returns that reply's body. Nothing is sent. |
| AdminProtocol.CloseOn | VarnishAdminSocket.php:159-162 | `close()` calls fclose() once iff the handle was open, and always leaves it unset. |
| AdminProtocol.CloseIdempotent | VarnishAdminSocket.php:159-162 | Closing twice is closing once. |
| AdminProtocol.QuitOn | VarnishAdminSocket.php:170-173 | After a successful `quit` the handle is closed. After a failed one, the handle and the fclose count are untouched. |
| AdminProtocol.QuitSends | VarnishAdminSocket.php:171 | When the handle is open and the line fits, `quit()` sends exactly "quit\n" and succeeds iff the reply code is 500. |
| Text.Decimal | VarnishAdminSocket.php:120 | "%d" of a number is a digit string without leading zeros. |
| Text.DecimalRoundTrip | VarnishAdminSocket.php:138-139 | An `(int)` cast of what "%d" printed gives the number back. |
| Text.Trim | VarnishAdminSocket.php:119 | trim() leaves no trimmed character at either end. |
| Text.TrimLeft | VarnishAdminSocket.php:119 | No trimmed character is left at the front. |
| Text.TrimLeftCuts | VarnishAdminSocket.php:119 | The left trim is a suffix of its input, and everything cut from the front is a trimmed character. |
| Text.TrimRight | VarnishAdminSocket.php:119 | The result is a prefix, and no trimmed character is left at the end. |
| Text.TrimRightCuts | VarnishAdminSocket.php:119 | Everything the right trim cuts from the end is a trimmed character. |
| Text.Explode | VarnishAdminSocket.php:208 | explode() gives at least one piece, and no piece contains the separator. |
| Text.JoinExplode | VarnishAdminSocket.php:208 | Gluing exploded pieces with the separator gives the string back. |
| Text.ExplodeJoin | wordpress-plugin.php:71 | Exploding pieces glued with a separator they do not contain gives the pieces back. |
| Text.SplitWhere | wordpress-plugin.php:102 | Splitting at a character class gives at least one piece, none containing a separator. |
| Text.SplitWhereJoin | wordpress-plugin.php:102 | Splitting separator-free pieces glued with a separator gives the pieces back. |
| Text.RemoveEmpty | wordpress-plugin.php:102 | PREG_SPLIT_NO_EMPTY keeps only non-empty pieces, each one from the input. |
| Text.RemoveEmptyMembers | wordpress-plugin.php:102 | A string is kept iff it is a non-empty piece of the input: no non-empty piece is lost. |
| Text.RemoveEmptyAppend | wordpress-plugin.php:102 | Filtering two runs of pieces is filtering each and concatenating: the kept pieces stay in order. |
| Text.RemoveEmptyOne | wordpress-plugin.php:102 | A single piece is kept iff it is not empty. |
| Text.SplitWhereJoinTwo | wordpress-plugin.php:102 | Pieces glued with two separator characters are split back into those pieces once empty ones are dropped. |
| Text.RemoveEmptyKeeps | wordpress-plugin.php:102 | Pieces that are all non-empty are all kept, in order. |
| Text.PrefixWhile | VarnishAdminSocket.php:137 | Gives the longest prefix whose characters all satisfy the class. |
| Text.PrefixWhileExact | VarnishAdminSocket.php:137 | A run of class characters followed by a character outside the class, or by nothing, is exactly the prefix taken. |
| UrlCoding.Decode | wordpress-plugin.php:73-74 | Decoding never lengthens the text. |
| UrlCoding.DecodeEncode | wordpress-plugin.php:73-74 | urldecode undoes urlencode, and rawurldecode undoes rawurlencode, on every byte string. |
| UrlCoding.DecodePlain | wordpress-plugin.php:124 | Text without "%" (and, for urldecode, without "+") decodes to itself. |
| FormData.KeysOf | wordpress-plugin.php:75-83 | The keys are distinct, and a key is among them iff some pair carries it. |
| FormData.ValuesOf | wordpress-plugin.php:75-83 | A key has no values iff no pair carries it. |
| FormData.Appended | wordpress-plugin.php:76-79 | A repeated key turns into a list whose values are the old ones followed by the new one. |
| FormData.CollectedDescribes | wordpress-plugin.php:75-83 | One more pair keeps the fields describing everything seen so far. |
| FormData.PostData | wordpress-plugin.php:69-86 | The fields are the distinct keys in order of first appearance. Each holds all values given for its key, in order, and is a scalar iff the key came once. |
| FormData.ValuesOfAppend | wordpress-plugin.php:79 | Values from later pairs come after those from earlier pairs. |
| FormData.ExtraPartsIgnored | wordpress-plugin.php:72 | Only the first two `=`-parts count: "k=v=x" reads as key k and value v. |
| FormData.MissingValue | wordpress-plugin.php:72-74 | A pair without "=" is a key with the empty value. |
| FormData.DecodeEncodedPair | wordpress-plugin.php:72-74 | A pair written as urlencode(key) "=" urlencode(value) decodes back to that key and value. |
| FormData.PairsOfEncodeForm | wordpress-plugin.php:69-74 | A body of urlencode()d pairs joined with "&" is read back pair for pair. |
| ClientConfig.ClientLines | wordpress-plugin.php:102 | Every client line is non-empty and made of letters, digits, ".", ":", "-" and spaces. |
| ClientConfig.FieldsFrom | wordpress-plugin.php:103 | Gives at most `limit` fields, all non-empty; all but the last are made of field characters. |
| ClientConfig.Fields | wordpress-plugin.php:103 | A line gives at most three fields, all non-empty; the host and port are made of field characters. |
| ClientConfig.ParseClient | wordpress-plugin.php:103-106 | The port and version are never falsy (default "6082" and "2.1"). A host is present iff the line has a field. |
| ClientConfig.ParseClients | wordpress-plugin.php:102-107 | The foreach gives one client per line, in order, each the parse of its line. |
| ClientConfig.GetClients | wordpress-plugin.php:94-109 | Returns nothing iff the setting is falsy. Otherwise returns one client per line, in order. |
| ClientConfig.ClientRoundTrip | wordpress-plugin.php:103-106 | "host:port:version" with plain fields reads back as that client. |
| ClientConfig.MissingVersion | wordpress-plugin.php:103-105 | "host:port" with plain fields gets version "2.1". |
| ClientConfig.ZeroPort | wordpress-plugin.php:104 | A port of "0" is empty() and is replaced by "6082". |
| ClientConfig.BareHost | wordpress-plugin.php:104-105 | A bare host gets port "6082" and version "2.1". |
| ClientConfig.ClientLinesOfJoin | wordpress-plugin.php:102 | Non-empty server lines made only of list characters, written one per line with no space at the very start or end, are read back as those lines. |
| ClientConfig.ClientLinesOfCrlf | wordpress-plugin.php:102 | Non-empty server lines made only of list characters, separated by "\r\n" in the stored setting with no space at the very start or end, are read back as those lines. The admin page's single-line field cannot produce them, so this covers a setting stored by other means. |
| ClientConfig.SpaceKeepsLine | wordpress-plugin.php:102 | "a:1 b:2" is a single server line. |
| ClientConfig.SpaceSeparatesFields | wordpress-plugin.php:103-106 | The line "a:1 b:2" is one client with host "a", port "1" and version "b:2". |
| ClientConfig.SpaceListIsOneClient | wordpress-plugin.php:102-106 | A space-separated server list `h:p rest` is a single line, read as one client with host h, port p and version rest: every server after the first is lost. |
| ClientConfig.HyphenSplitsHost | wordpress-plugin.php:103 | "my-host:6082" reads as host "my", port "host", version "6082". |
| ClientConfig.SecretPieces | wordpress-plugin.php:123 | At least one piece, each made of secret characters. Only the first and last piece can be empty. |
| ClientConfig.DecodeSecrets | wordpress-plugin.php:123-125 | The foreach gives each piece rawurldecoded, one for one and in order. |
| ClientConfig.SecretPiecesKeep | wordpress-plugin.php:123 | When the split has no empty piece, the secret pieces are exactly the split. |
| ClientConfig.GetSecrets | wordpress-plugin.php:115-127 | Returns nothing iff the setting is falsy. Otherwise returns each piece rawurldecoded, in order. |
| ClientConfig.SecretsRoundTrip | wordpress-plugin.php:123-124 | Non-empty secrets, rawurlencoded and comma-separated, are read back one for one, in order. That format is assumed: the admin page has no secrets field. |
| ClientConfig.EmptySecretShifts | wordpress-plugin.php:123 | "a,,b" gives two secrets, not three. |
| PurgeRules.Add | wordpress-plugin.php:208 | Adding a pattern keeps the queue's order and its freedom from duplicates. The pattern is then in the queue. |
| PurgeRules.AddAll | wordpress-plugin.php:215-226 | The queue afterwards holds exactly the old and the new patterns, without duplicates, with the old ones first. |
| PurgeRules.AddAllIdempotent | wordpress-plugin.php:290 | Queuing the same patterns twice queues them once. |
| PurgeRules.AddAllPair | wordpress-plugin.php:222-226 | Queuing a directory's two patterns as a batch is queuing them one after the other. |
| PurgeRules.AddAllAppend | wordpress-plugin.php:219-227 | Adding patterns in two batches is adding them all in one. |
| PurgeRules.Segments | wordpress-plugin.php:218 | The path segments are non-empty and contain no "/". |
| PurgeRules.SegmentsOfPath | wordpress-plugin.php:218 | A path written with its segments between slashes gives those segments back. |
| PurgeRules.SegmentsOfDirPath | wordpress-plugin.php:218 | A permalink path with a trailing slash gives the same segments. |
| PurgeRules.AncestorPatterns | wordpress-plugin.php:219-227 | The loop queues two patterns per popped segment at most, each a root-anchored "^/" expression. |
| PurgeRules.PostPatterns | wordpress-plugin.php:198-227 | A post queues nothing iff its path is falsy; otherwise its page pattern first. A comment queues at most that pattern; a post also queues "^/feed" and at most two patterns per segment. |
| PurgeRules.EditPostAction | wordpress-plugin.php:198-227 | The queue becomes the old queue with the post's patterns added: its page, and unless it is a comment "^/feed" and every ancestor directory with its pagination. A falsy path adds nothing. |
| PurgeRules.EditCommentAction | wordpress-plugin.php:248-262 | A zero comment id, or no post, leaves the queue alone. Otherwise the post's comment-mode patterns and then "^/comments/feed" are added. |
| PurgeRules.CommentQueuesPage | wordpress-plugin.php:208-213 | For a comment, only the post's own page pattern is queued. |
| PurgeRules.AncestorsCovered | wordpress-plugin.php:218-227 | With no "0" segment, a pattern is queued by the loop iff it is the page or pagination pattern of a proper ancestor directory, root included. |
| PurgeRules.RootQueued | wordpress-plugin.php:222-225 | A post below the root with no `"0"` path segment queues "^/$" and "^/page/.*". |
| PurgeRules.ZeroSegmentStops | wordpress-plugin.php:219-225 | A "0" segment stops the loop, and a directory path "0" is taken for the root. |
| PurgeRules.HostClauseRoundTrip | wordpress-plugin.php:173-174 | The host clause is read back as the host pattern, or as no host when the pattern is falsy. |
| PurgeRules.PurgeExpression | wordpress-plugin.php:172-175 | The expression starts with `req.url ~ "` and ends with a quote; it has no host clause iff the host pattern is falsy. |
| PurgeRules.PurgeExpressionRoundTrip | wordpress-plugin.php:172-175 | For a URL pattern without a double quote, the expression carries the URL pattern, and it carries the host pattern iff that pattern is truthy. |

## Left out

- Socket I/O is not modelled: `fsockopen`, `stream_set_blocking`, `stream_set_timeout`, and the `$timeout` parameter of `connect`. The stream is the abstract reply sequence plus a byte budget and a log; no clock is modelled.
- Authentication and protocol versions are not modelled, because the class has none.
- The by-reference `$code` out-parameter of `command` is not modelled. `CommandOn` uses the code internally, and the shortcuts discard it as the class does.
- PHP integer overflow of a huge declared length in `(int)` is not modelled; lengths are unbounded naturals.
- Exceptions are modelled as `Err` results carrying the message. Notices from `stop`/`start` are modelled as a log; the plugin's own `trigger_error` notices are left out.
- The per-server fan-out of `wpv_purge_urls` (wordpress-plugin.php:150-191) is not modelled: it is socket orchestration inside try/catch. Only its expression formatting is kept.
- WordPress glue is not modelled: hooks, `get_option`, `get_permalink`/`parse_url` (the permalink path is a parameter), `get_comment` (a post id of 0 stands for a missing comment or post), the taxonomy loop (wordpress-plugin.php:231-240), `wpv_is_proxied`, `wpv_baseurl`, `wpv_themeurl`, `wpv_admin_socket` and the `REMOTE_ADDR` rewrite.
- The admin page, the older `wordpress/` variant and the example scripts are not part of this model.
- FormData.PostData: separators are single characters. PHP's normalisation of numeric-string keys to integer keys is not modelled; it never merges two distinct strings.
- UrlCoding.Decode: strings stand for byte strings; a decoded "%XY" is the character with code XY. Multi-byte encodings are not interpreted.
- A peer that stays connected but sends nothing is not modelled: in the class both loops of `read` (VarnishAdminSocket.php:135, VarnishAdminSocket.php:147) then spin forever, because a timed-out `fgets()` returns false while `feof()` stays false. The stream here is a finite reply sequence, so `ReadHeader` and `ReadBody` always end.
- The runtime is PHP 5/7: `fputs()` on a closed handle warns and returns false, which `write` turns into an Exception. Under PHP 8 it raises a TypeError that the `catch (Exception $Ex)` of `status` (VarnishAdminSocket.php:218-227) does not catch, so the claim that `status` never fails holds only before PHP 8.
- Text.Explode: only the one-character separators the code uses are modelled.
