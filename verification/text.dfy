/**
 * The PHP string primitives the client and the plugin rely on, written out:
 * truthiness of a string, trim(), explode()/implode(), preg_split() over a
 * character class, integer casts of digit strings and "%d" formatting.
 */
module Text {

  /** PHP's `!$s` for a string: only "" and "0" are falsy. */
  predicate Falsy(s: string)
  {
    s == "" || s == "0"
  }

  /** `\d` in a PCRE pattern. */
  predicate IsDigit(c: char)
  {
    '0' <= c <= '9'
  }

  predicate AllDigits(s: string)
  {
    forall i :: 0 <= i < |s| ==> IsDigit(s[i])
  }

  /** `[a-z0-9]` under the case-insensitive flag. */
  predicate IsAlnum(c: char)
  {
    IsDigit(c) || 'a' <= c <= 'z' || 'A' <= c <= 'Z'
  }

  /** `\w` in a PCRE pattern (no locale, no UTF mode). */
  predicate IsWordChar(c: char)
  {
    IsAlnum(c) || c == '_'
  }

  /** The characters PHP's trim() removes by default: " \t\n\r\0\x0B". */
  predicate IsTrimmed(c: char)
  {
    c == ' ' || c == '\t' || c == '\n' || c == '\r' || c == '\0' || c == '\U{000B}'
  }

  function DigitValue(c: char): (d: nat)
    requires IsDigit(c)
    ensures d < 10
  {
    c as int - '0' as int
  }

  function DigitChar(d: nat): (c: char)
    requires d < 10
    ensures IsDigit(c) && DigitValue(c) == d
  {
    ('0' as int + d) as char
  }

  /** `(int)` of a string of decimal digits (leading zeros allowed). */
  function DecimalValue(s: string): nat
    requires AllDigits(s)
  {
    if s == [] then 0 else DecimalValue(s[..|s| - 1]) * 10 + DigitValue(s[|s| - 1])
  }

  /** `sprintf('%d', n)` for a non-negative integer. */
  function Decimal(n: nat): (s: string)
    ensures 1 <= |s| && AllDigits(s)
    ensures s[0] == '0' ==> s == "0"
  {
    if n < 10 then [DigitChar(n)] else Decimal(n / 10) + [DigitChar(n % 10)]
  }

  /** Reading back what "%d" printed gives the number again. */
  lemma {:induction false} DecimalRoundTrip(n: nat)
    ensures DecimalValue(Decimal(n)) == n
  {
    if n >= 10 {
      var s := Decimal(n);
      assert s[..|s| - 1] == Decimal(n / 10);
      DecimalRoundTrip(n / 10);
    }
  }

  /** The longest prefix of `s` made of characters satisfying `p`. */
  function PrefixWhile(s: string, p: char -> bool): (r: string)
    ensures r <= s
    ensures forall i :: 0 <= i < |r| ==> p(r[i])
    ensures |r| == |s| || !p(s[|r|])
  {
    if s != [] && p(s[0]) then [s[0]] + PrefixWhile(s[1..], p) else []
  }

  /** A run of characters satisfying `p` followed by one that does not is exactly the prefix PrefixWhile takes. */
  lemma {:induction false} PrefixWhileExact(s: string, tail: string, p: char -> bool)
    requires forall i :: 0 <= i < |s| ==> p(s[i])
    requires tail == [] || !p(tail[0])
    ensures PrefixWhile(s + tail, p) == s
  {
    if s != [] {
      assert (s + tail)[1..] == s[1..] + tail;
      PrefixWhileExact(s[1..], tail, p);
      assert s == [s[0]] + s[1..];
    } else {
      assert s + tail == tail;
    }
  }

  /** ltrim() with the default character list. */
  function TrimLeft(s: string): (r: string)
    ensures r == [] || !IsTrimmed(r[0])
  {
    if s != [] && IsTrimmed(s[0]) then TrimLeft(s[1..]) else s
  }

  /** ltrim() cuts only trimmed characters, and only from the front. */
  lemma {:induction false} TrimLeftCuts(s: string)
    ensures exists i :: 0 <= i <= |s| && TrimLeft(s) == s[i..] && forall j :: 0 <= j < i ==> IsTrimmed(s[j])
  {
    if s != [] && IsTrimmed(s[0]) {
      var t := s[1..];
      TrimLeftCuts(t);
      var i :| 0 <= i <= |t| && TrimLeft(t) == t[i..] && forall j :: 0 <= j < i ==> IsTrimmed(t[j]);
      assert TrimLeft(s) == s[i + 1..];
    } else {
      assert TrimLeft(s) == s[0..];
    }
  }

  /** rtrim() with the default character list. */
  function TrimRight(s: string): (r: string)
    ensures r <= s
    ensures r == [] || !IsTrimmed(r[|r| - 1])
  {
    if s != [] && IsTrimmed(s[|s| - 1]) then TrimRight(s[..|s| - 1]) else s
  }

  /** rtrim() cuts only trimmed characters, and only from the end. */
  lemma {:induction false} TrimRightCuts(s: string)
    ensures exists i :: 0 <= i <= |s| && TrimRight(s) == s[..i] && forall j :: i <= j < |s| ==> IsTrimmed(s[j])
  {
    if s != [] && IsTrimmed(s[|s| - 1]) {
      var t := s[..|s| - 1];
      TrimRightCuts(t);
      var i :| 0 <= i <= |t| && TrimRight(t) == t[..i] && forall j :: i <= j < |t| ==> IsTrimmed(t[j]);
      assert TrimRight(s) == s[..i];
    } else {
      assert TrimRight(s) == s[..|s|];
    }
  }

  /** trim(): no trimmed character is left at either end. */
  function Trim(s: string): (r: string)
    ensures r == [] || (!IsTrimmed(r[0]) && !IsTrimmed(r[|r| - 1]))
  {
    TrimRight(TrimLeft(s))
  }

  /**
   * Split `s` at every character satisfying `sep`, keeping empty pieces:
   * explode() for a one-character separator, and the pieces preg_split()
   * sees for a one-character class before empty ones are dropped.
   */
  function SplitWhere(s: string, sep: char -> bool): (parts: seq<string>)
    ensures |parts| >= 1
    ensures forall i, j :: 0 <= i < |parts| && 0 <= j < |parts[i]| ==> !sep(parts[i][j])
  {
    if s == [] then [""]
    else
      var rest := SplitWhere(s[1..], sep);
      if sep(s[0]) then [""] + rest else [[s[0]] + rest[0]] + rest[1..]
  }

  /** explode($sep, $s) for a one-character separator. */
  function Explode(s: string, sep: char): (parts: seq<string>)
    ensures |parts| >= 1
    ensures forall i :: 0 <= i < |parts| ==> sep !in parts[i]
  {
    var parts := SplitWhere(s, c => c == sep);
    assert forall i, j :: 0 <= i < |parts| && 0 <= j < |parts[i]| ==> parts[i][j] != sep;
    parts
  }

  /** implode($glue, $parts). */
  function Join(parts: seq<string>, glue: string): string
  {
    if |parts| == 0 then ""
    else if |parts| == 1 then parts[0]
    else parts[0] + glue + Join(parts[1..], glue)
  }

  /** Exploding one more character: a separator starts a new piece, anything else joins the first. */
  lemma ExplodeStep(s: string, sep: char)
    requires s != []
    ensures var rest := Explode(s[1..], sep);
            Explode(s, sep) == if s[0] == sep then [""] + rest else [[s[0]] + rest[0]] + rest[1..]
  {
  }

  /** An empty first piece contributes only the glue after it. */
  lemma JoinEmptyHead(rest: seq<string>, glue: string)
    requires |rest| >= 1
    ensures Join([""] + rest, glue) == glue + Join(rest, glue)
  {
    assert ([""] + rest)[1..] == rest;
  }

  /** A character put in front of the first piece is put in front of the whole. */
  lemma JoinConsHead(c: char, rest: seq<string>, glue: string)
    requires |rest| >= 1
    ensures Join([[c] + rest[0]] + rest[1..], glue) == [c] + Join(rest, glue)
  {
    var parts := [[c] + rest[0]] + rest[1..];
    if |rest| > 1 {
      assert parts[1..] == rest[1..];
    }
  }

  /** Gluing the exploded pieces back together gives the original string. */
  lemma {:induction false} JoinExplode(s: string, sep: char)
    ensures Join(Explode(s, sep), [sep]) == s
  {
    if s != [] {
      var rest := Explode(s[1..], sep);
      JoinExplode(s[1..], sep);
      ExplodeStep(s, sep);
      if s[0] == sep {
        JoinEmptyHead(rest, [sep]);
      } else {
        JoinConsHead(s[0], rest, [sep]);
      }
      assert s == [s[0]] + s[1..];
    }
  }

  /** Exploding pieces that were glued with the separator gives the pieces back. */
  lemma ExplodeJoin(parts: seq<string>, sep: char)
    requires |parts| >= 1
    requires forall i :: 0 <= i < |parts| ==> sep !in parts[i]
    ensures Explode(Join(parts, [sep]), sep) == parts
  {
    SplitWhereJoin(parts, sep, c => c == sep);
  }

  /** Splitting pieces that were glued with a separator character gives the pieces back. */
  lemma {:induction false} SplitWhereJoin(parts: seq<string>, glue: char, sep: char -> bool)
    requires |parts| >= 1 && sep(glue)
    requires forall i, j :: 0 <= i < |parts| && 0 <= j < |parts[i]| ==> !sep(parts[i][j])
    ensures SplitWhere(Join(parts, [glue]), sep) == parts
  {
    if |parts| == 1 {
      SplitWhereFree(parts[0], sep);
    } else {
      SplitWhereJoin(parts[1..], glue, sep);
      SplitWhereThrough(parts[0], glue, Join(parts[1..], [glue]), sep);
      assert Join(parts, [glue]) == parts[0] + ([glue] + Join(parts[1..], [glue]));
      assert [parts[0]] + parts[1..] == parts;
    }
  }

  /** A string without separators is a single piece. */
  lemma {:induction false} SplitWhereFree(s: string, sep: char -> bool)
    requires forall j :: 0 <= j < |s| ==> !sep(s[j])
    ensures SplitWhere(s, sep) == [s]
  {
    if s != [] {
      SplitWhereFree(s[1..], sep);
      assert s == [s[0]] + s[1..];
    }
  }

  /** A separator-free head followed by a separator becomes a piece of its own. */
  lemma {:induction false} SplitWhereThrough(head: string, glue: char, tail: string, sep: char -> bool)
    requires sep(glue)
    requires forall j :: 0 <= j < |head| ==> !sep(head[j])
    ensures SplitWhere(head + ([glue] + tail), sep) == [head] + SplitWhere(tail, sep)
  {
    var s := head + ([glue] + tail);
    if head == [] {
      assert s[1..] == tail;
    } else {
      SplitWhereThrough(head[1..], glue, tail, sep);
      assert s[1..] == head[1..] + ([glue] + tail);
      assert head == [head[0]] + head[1..];
    }
  }

  /** A string whose ends are not trimmed characters is left as it is by trim(). */
  lemma TrimKeeps(s: string)
    requires s == [] || (!IsTrimmed(s[0]) && !IsTrimmed(s[|s| - 1]))
    ensures Trim(s) == s
  {
  }

  /** The pieces that are not empty, in order: PREG_SPLIT_NO_EMPTY. */
  function RemoveEmpty(parts: seq<string>): (r: seq<string>)
    ensures |r| <= |parts|
    ensures forall i :: 0 <= i < |r| ==> r[i] != "" && r[i] in parts
  {
    if parts == [] then []
    else if parts[0] == "" then RemoveEmpty(parts[1..])
    else [parts[0]] + RemoveEmpty(parts[1..])
  }

  /** A string is kept exactly when it is a non-empty piece: no non-empty piece is lost. */
  lemma {:induction false} RemoveEmptyMembers(parts: seq<string>, x: string)
    ensures x in RemoveEmpty(parts) <==> x in parts && x != ""
  {
    if parts != [] {
      RemoveEmptyMembers(parts[1..], x);
      assert parts == [parts[0]] + parts[1..];
    }
  }

  /** Filtering pieces none of which is empty keeps all of them. */
  lemma {:induction false} RemoveEmptyKeeps(parts: seq<string>)
    requires forall i :: 0 <= i < |parts| ==> parts[i] != ""
    ensures RemoveEmpty(parts) == parts
  {
    if parts != [] {
      RemoveEmptyKeeps(parts[1..]);
    }
  }

  /** Filtering distributes over concatenation: pieces keep their order. */
  lemma {:induction false} RemoveEmptyAppend(a: seq<string>, b: seq<string>)
    ensures RemoveEmpty(a + b) == RemoveEmpty(a) + RemoveEmpty(b)
  {
    if a != [] {
      var ab := a + b;
      RemoveEmptyAppend(a[1..], b);
      assert ab[0] == a[0] && ab[1..] == a[1..] + b;
      if a[0] == "" {
        assert RemoveEmpty(ab) == RemoveEmpty(a[1..] + b);
        assert RemoveEmpty(a) == RemoveEmpty(a[1..]);
      } else {
        assert RemoveEmpty(ab) == [a[0]] + RemoveEmpty(a[1..] + b);
        assert RemoveEmpty(a) == [a[0]] + RemoveEmpty(a[1..]);
      }
    } else {
      assert a + b == b;
    }
  }

  /** A single piece survives exactly when it is not empty. */
  lemma RemoveEmptyOne(x: string)
    ensures RemoveEmpty([x]) == if x == "" then [] else [x]
  {
    assert [x][1..] == [];
  }

  /** Empty pieces at both ends are dropped and the non-empty ones between kept. */
  lemma RemoveEmptyFramed(parts: seq<string>)
    requires forall i :: 0 <= i < |parts| ==> parts[i] != ""
    ensures RemoveEmpty([""] + parts + [""]) == parts
  {
    RemoveEmptyAppend([""] + parts, [""]);
    RemoveEmptyAppend([""], parts);
    RemoveEmptyOne("");
    RemoveEmptyKeeps(parts);
  }

  /** A trailing empty piece contributes only the glue before it. */
  lemma {:induction false} JoinEmptyLast(parts: seq<string>, glue: string)
    requires |parts| >= 1
    ensures Join(parts + [""], glue) == Join(parts, glue) + glue
  {
    if |parts| > 1 {
      JoinEmptyLast(parts[1..], glue);
      assert (parts + [""])[1..] == parts[1..] + [""];
    } else {
      assert (parts + [""])[1..] == [""];
    }
  }

  /**
   * Splitting pieces glued with two separator characters (a "\r\n" line
   * break, say) and dropping empty pieces gives the non-empty pieces back.
   */
  lemma {:induction false} SplitWhereJoinTwo(parts: seq<string>, g1: char, g2: char, sep: char -> bool)
    requires |parts| >= 1 && sep(g1) && sep(g2)
    requires forall i, j :: 0 <= i < |parts| && 0 <= j < |parts[i]| ==> !sep(parts[i][j])
    ensures RemoveEmpty(SplitWhere(Join(parts, [g1, g2]), sep)) == RemoveEmpty(parts)
  {
    if |parts| == 1 {
      SplitWhereFree(parts[0], sep);
    } else {
      var rest := parts[1..];
      var j := Join(rest, [g1, g2]);
      SplitWhereJoinTwo(rest, g1, g2, sep);
      assert Join(parts, [g1, g2]) == parts[0] + ([g1] + ([g2] + j));
      SplitWhereThrough(parts[0], g1, [g2] + j, sep);
      SplitWhereThrough("", g2, j, sep);
      assert "" + ([g2] + j) == [g2] + j;
      var split := SplitWhere(j, sep);
      assert SplitWhere(Join(parts, [g1, g2]), sep) == [parts[0]] + ([""] + split);
      RemoveEmptyAppend([parts[0]], [""] + split);
      RemoveEmptyAppend([""], split);
      RemoveEmptyOne("");
      RemoveEmptyAppend([parts[0]], rest);
      assert [parts[0]] + rest == parts;
    }
  }

  /**
   * The strings glued one after the other, as an accumulating `.=` builds them.
   * It is `Join(parts, "")` (ConcatIsJoin), but unfolds at the end, which is
   * the step a loop appending one chunk at a time takes.
   */
  function Concat(parts: seq<string>): string
  {
    if parts == [] then "" else Concat(parts[..|parts| - 1]) + parts[|parts| - 1]
  }

  /** Appending in a loop builds what implode('', …) builds. */
  lemma {:induction false} ConcatIsJoin(parts: seq<string>)
    ensures Concat(parts) == Join(parts, "")
  {
    if parts != [] {
      ConcatAppend([parts[0]], parts[1..]);
      assert [parts[0]] + parts[1..] == parts;
      assert Concat([parts[0]]) == parts[0] by {
        assert [parts[0]][..0] == [];
      }
      ConcatIsJoin(parts[1..]);
      if |parts| == 1 {
        assert parts[1..] == [];
      } else {
        assert parts[0] + "" == parts[0];
      }
    }
  }

  lemma {:induction false} ConcatAppend(a: seq<string>, b: seq<string>)
    ensures Concat(a + b) == Concat(a) + Concat(b)
  {
    if b != [] {
      ConcatAppend(a, b[..|b| - 1]);
      assert (a + b)[..|a + b| - 1] == a + b[..|b| - 1];
    } else {
      assert a + b == a;
    }
  }
}
