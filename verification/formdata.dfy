/**
 * wpv_postdata(): the plugin's own parser for a raw urlencoded request body.
 * The PHP array it builds keeps its keys in insertion order, so it is
 * modelled as an association list of fields; a key seen once maps to its
 * value, a key seen again maps to the list of all its values.
 */
module FormData {
  import opened Text
  import opened UrlCoding

  datatype FormValue = Scalar(s: string) | List(items: seq<string>)

  datatype Field = Field(key: string, value: FormValue)

  /** Every value a field holds, in the order they arrived. */
  function Values(v: FormValue): seq<string>
  {
    match v
    case Scalar(s) => [s]
    case List(items) => items
  }

  /** `$data[$key][] = $val`, turning a scalar into a list first. */
  function Appended(v: FormValue, x: string): (w: FormValue)
    ensures w.List? && Values(w) == Values(v) + [x]
  {
    match v
    case Scalar(s) => List([s, x])
    case List(items) => List(items + [x])
  }

  /**
   * One pair: explode() on the argument separator, the first part is the key,
   * the second the value (missing: ""), any further part is dropped; both urldecode()d.
   */
  function DecodePair(pair: string, argSep: char): (kv: (string, string))
    ensures kv.0 == UrlDecode(Explode(pair, argSep)[0])
  {
    var parts := Explode(pair, argSep);
    (UrlDecode(parts[0]), if |parts| >= 2 then UrlDecode(parts[1]) else "")
  }

  /** The decoded (key, value) pairs of a raw body, one per explode()d piece, in order. */
  function Pairs(raw: string, pairSep: char, argSep: char): (ps: seq<(string, string)>)
    ensures |ps| == |Explode(raw, pairSep)|
    ensures forall i :: 0 <= i < |ps| ==> ps[i] == DecodePair(Explode(raw, pairSep)[i], argSep)
  {
    var pieces := Explode(raw, pairSep);
    seq(|pieces|, i requires 0 <= i < |pieces| => DecodePair(pieces[i], argSep))
  }

  /** The distinct keys of the pairs, in order of first appearance. */
  function KeysOf(ps: seq<(string, string)>): (ks: seq<string>)
    ensures forall i, j :: 0 <= i < j < |ks| ==> ks[i] != ks[j]
    ensures forall k :: k in ks <==> exists i :: 0 <= i < |ps| && ps[i].0 == k
  {
    if ps == [] then []
    else
      var init := ps[..|ps| - 1];
      var ks := KeysOf(init);
      assert forall i :: 0 <= i < |init| ==> init[i] == ps[i];
      if ps[|ps| - 1].0 in ks then ks else ks + [ps[|ps| - 1].0]
  }

  /** The values given for `key`, in order of appearance. */
  function ValuesOf(ps: seq<(string, string)>, key: string): (vs: seq<string>)
    ensures |vs| <= |ps|
    ensures vs == [] <==> forall i :: 0 <= i < |ps| ==> ps[i].0 != key
  {
    if ps == [] then []
    else
      var init := ps[..|ps| - 1];
      assert forall i :: 0 <= i < |init| ==> init[i] == ps[i];
      ValuesOf(init, key) + (if ps[|ps| - 1].0 == key then [ps[|ps| - 1].1] else [])
  }

  /** Where `key` sits in the fields, or |data| when it is not there (isset()). */
  function IndexOfKey(data: seq<Field>, key: string): (i: nat)
    ensures i <= |data|
    ensures i < |data| ==> data[i].key == key
    ensures forall j :: 0 <= j < i ==> data[j].key != key
  {
    if data == [] then 0
    else if data[0].key == key then 0
    else 1 + IndexOfKey(data[1..], key)
  }

  /**
   * The fields describe the pairs: they are the distinct keys in order of
   * first appearance, each holding every value given for its key, in order,
   * as a scalar exactly when the key came once.
   */
  predicate Describes(data: seq<Field>, ps: seq<(string, string)>)
  {
    var ks := KeysOf(ps);
    |data| == |ks| &&
    (forall i :: 0 <= i < |data| ==> data[i].key == ks[i]) &&
    (forall i :: 0 <= i < |data| ==> Values(data[i].value) == ValuesOf(ps, data[i].key)) &&
    (forall i :: 0 <= i < |data| ==> (data[i].value.Scalar? <==> |ValuesOf(ps, data[i].key)| == 1))
  }

  /** One turn of the loop: add the value to an existing key, or store it under a new one. */
  function Collected(data: seq<Field>, kv: (string, string)): (r: seq<Field>)
  {
    var at := IndexOfKey(data, kv.0);
    if at < |data| then data[at := Field(kv.0, Appended(data[at].value, kv.1))]
    else data + [Field(kv.0, Scalar(kv.1))]
  }

  /** Collecting one more pair keeps the fields describing the pairs seen so far. */
  lemma CollectedDescribes(data: seq<Field>, ps: seq<(string, string)>, kv: (string, string))
    requires Describes(data, ps)
    ensures Describes(Collected(data, kv), ps + [kv])
  {
    var qs := ps + [kv];
    assert qs[..|qs| - 1] == ps;
    forall k
      ensures ValuesOf(qs, k) == ValuesOf(ps, k) + (if kv.0 == k then [kv.1] else [])
    {
    }
    if IndexOfKey(data, kv.0) == |data| {
      assert kv.0 !in KeysOf(ps);
    }
  }

  /** wpv_postdata(), with the pair and argument separators one character each. */
  method PostData(raw: string, pairSep: char := '&', argSep: char := '=') returns (data: seq<Field>)
    ensures Describes(data, Pairs(raw, pairSep, argSep))
  {
    var ps := Pairs(raw, pairSep, argSep);
    data := [];
    var i := 0;
    while i < |ps|
      invariant i <= |ps|
      invariant Describes(data, ps[..i])
    {
      CollectedDescribes(data, ps[..i], ps[i]);
      assert ps[..i] + [ps[i]] == ps[..i + 1];
      data := Collected(data, ps[i]);
      i := i + 1;
    }
    assert ps[..i] == ps;
  }

  /** Every key that appears has a field, and every field's key appeared. */
  lemma KeysHaveValues(ps: seq<(string, string)>, key: string)
    ensures key in KeysOf(ps) <==> ValuesOf(ps, key) != []
  {
  }

  /** Later pairs add their values after the earlier ones: values keep their order. */
  lemma {:induction false} ValuesOfAppend(a: seq<(string, string)>, b: seq<(string, string)>, key: string)
    ensures ValuesOf(a + b, key) == ValuesOf(a, key) + ValuesOf(b, key)
  {
    if b != [] {
      var init := b[..|b| - 1];
      ValuesOfAppend(a, init, key);
      assert (a + b)[..|a + b| - 1] == a + init;
    } else {
      assert a + b == a;
    }
  }

  /** Only the first two parts of a pair count: "k=v=extra" reads as k and v. */
  lemma ExtraPartsIgnored(k: string, v: string, extra: string, argSep: char)
    requires argSep !in k && argSep !in v
    ensures DecodePair(k + [argSep] + v + [argSep] + extra, argSep) == (UrlDecode(k), UrlDecode(v))
  {
    var pair := k + [argSep] + v + [argSep] + extra;
    var rest := Explode(extra, argSep);
    SplitWhereThrough(v, argSep, extra, c => c == argSep);
    SplitWhereThrough(k, argSep, v + ([argSep] + extra), c => c == argSep);
    assert pair == k + ([argSep] + (v + ([argSep] + extra)));
    assert Explode(pair, argSep) == [k] + ([v] + rest);
  }

  /** A pair without the argument separator is a key with the empty value. */
  lemma MissingValue(k: string, argSep: char)
    requires argSep !in k
    ensures DecodePair(k, argSep) == (UrlDecode(k), "")
  {
    SplitWhereFree(k, c => c == argSep);
    assert Explode(k, argSep) == [k];
  }

  /** urlencode() output: unreserved characters, "+", "%" and hex digits only. */
  lemma {:induction false} EncodeAlphabet(s: string, plus: bool)
    requires IsBytes(s)
    ensures forall c :: c in Encode(s, plus) ==> Unreserved(c, plus) || c == '+' || c == '%' || IsHexDigit(c)
  {
    if s != [] {
      EncodeAlphabet(s[1..], plus);
    }
  }

  /** A pair urlencode()d as urlencode(key) "=" urlencode(value). */
  function EncodePair(kv: (string, string)): (pair: string)
    requires IsBytes(kv.0) && IsBytes(kv.1)
    ensures '&' !in pair
  {
    EncodeAlphabet(kv.0, true);
    EncodeAlphabet(kv.1, true);
    Encode(kv.0, true) + "=" + Encode(kv.1, true)
  }

  /** A whole form body: the encoded pairs glued with "&". */
  function EncodeForm(ps: seq<(string, string)>): (raw: string)
    requires forall i :: 0 <= i < |ps| ==> IsBytes(ps[i].0) && IsBytes(ps[i].1)
  {
    Join(seq(|ps|, i requires 0 <= i < |ps| => EncodePair(ps[i])), "&")
  }

  /** One encoded pair decodes to the key and value it was made from. */
  lemma DecodeEncodedPair(kv: (string, string))
    requires IsBytes(kv.0) && IsBytes(kv.1)
    ensures DecodePair(EncodePair(kv), '=') == kv
  {
    var (k, v) := kv;
    EncodeAlphabet(k, true);
    EncodeAlphabet(v, true);
    var ek, ev := Encode(k, true), Encode(v, true);
    ExplodeJoin([ek, ev], '=');
    assert Join([ek, ev], "=") == EncodePair(kv);
    DecodeEncode(k, true);
    DecodeEncode(v, true);
  }

  /** wpv_postdata()'s splitting and decoding read an urlencode()d body back pair for pair. */
  lemma PairsOfEncodeForm(ps: seq<(string, string)>)
    requires |ps| >= 1
    requires forall i :: 0 <= i < |ps| ==> IsBytes(ps[i].0) && IsBytes(ps[i].1)
    ensures Pairs(EncodeForm(ps), '&', '=') == ps
  {
    var pieces := seq(|ps|, i requires 0 <= i < |ps| => EncodePair(ps[i]));
    ExplodeJoin(pieces, '&');
    assert Explode(EncodeForm(ps), '&') == pieces;
    forall i | 0 <= i < |ps|
      ensures DecodePair(pieces[i], '=') == ps[i]
    {
      DecodeEncodedPair(ps[i]);
    }
  }
}
