/** Strings, octets and the handful of .NET string operations the codec relies on:
    `Trim`, `ToLower`, `Split(' ')`, `IndexOf`, `StartsWith`, `Contains`, and the
    conversion between text and wire bytes. One character stands for one octet;
    on ASCII text this agrees with the UTF-8 the proxy uses, and the round trips
    are stated for ASCII text only. */
module Text {
  import opened Wrappers
  import opened Faults

  type Bytes = seq<Byte>

  const CR: Byte := 13
  const LF: Byte := 10
  const CRLF: Bytes := [CR, LF]

  /** True when every character is ASCII, where one octet per character and UTF-8
      agree. */
  predicate Ascii(s: string) {
    forall i :: 0 <= i < |s| ==> s[i] as int < 128
  }

  /** Text to wire bytes (`Encoding.UTF8.GetBytes` on the octet range). */
  function Encode(s: string): Bytes {
    seq(|s|, i requires 0 <= i < |s| => (s[i] as int % 256) as Byte)
  }

  /** Wire bytes to text (`Encoding.UTF8.GetString` on the octet range). */
  function Decode(b: Bytes): string {
    seq(|b|, i requires 0 <= i < |b| => (b[i] as int) as char)
  }

  lemma DecodeEncode(s: string)
    requires Ascii(s)
    ensures Decode(Encode(s)) == s
  {
  }

  /** `char.IsWhiteSpace` on ASCII. */
  predicate IsWhite(c: char) {
    c == ' ' || ('\t' <= c <= '\r')
  }

  /** `string.TrimStart()`: drops leading whitespace only. */
  function TrimStart(s: string): (r: string)
    ensures |r| <= |s| && r == s[|s| - |r|..]
    ensures r == [] || !IsWhite(r[0])
    ensures forall i :: 0 <= i < |s| - |r| ==> IsWhite(s[i])
  {
    if |s| > 0 && IsWhite(s[0]) then TrimStart(s[1..]) else s
  }

  /** `string.TrimEnd()`: drops trailing whitespace only. */
  function TrimEnd(s: string): (r: string)
    ensures |r| <= |s| && r == s[..|r|]
    ensures r == [] || !IsWhite(r[|r| - 1])
    ensures forall i :: |r| <= i < |s| ==> IsWhite(s[i])
  {
    if |s| > 0 && IsWhite(s[|s| - 1]) then TrimEnd(s[..|s| - 1]) else s
  }

  /** `string.Trim()`. */
  function Trim(s: string): string {
    TrimEnd(TrimStart(s))
  }

  /** No whitespace at either end. */
  predicate Trimmed(s: string) {
    s == [] || (!IsWhite(s[0]) && !IsWhite(s[|s| - 1]))
  }

  /** `Trim` leaves no whitespace at either end. */
  lemma TrimIsTrimmed(s: string)
    ensures Trimmed(Trim(s))
  {
    var t := TrimStart(s);
    var r := TrimEnd(t);
    if r != [] {
      assert r[0] == t[0];
    }
  }

  lemma TrimOfTrimmed(s: string)
    requires Trimmed(s)
    ensures Trim(s) == s
  {
  }

  /** A single space added by the serialiser at either end is removed again by `Trim`. */
  lemma TrimSpacePadded(s: string)
    requires Trimmed(s)
    ensures Trim([' '] + s) == s
    ensures Trim(s + [' ']) == s
  {
    assert ([' '] + s)[1..] == s;
    var u := s + [' '];
    if s == [] {
      assert TrimStart(u) == TrimStart(u[1..]);
    } else {
      assert u[0] == s[0];
      assert TrimStart(u) == u;
      assert u[..|u| - 1] == s;
    }
  }

  /** `char.ToLowerInvariant` on ASCII. */
  function LowerChar(c: char): char {
    if 'A' <= c <= 'Z' then
      (c as int + 32) as char
    else
      c
  }

  /** `string.ToLower()`. */
  function Lower(s: string): string {
    seq(|s|, i requires 0 <= i < |s| => LowerChar(s[i]))
  }

  /** Lower-casing twice is lower-casing once: every key the collection stores is a fixpoint. */
  lemma LowerIdempotent(s: string)
    ensures Lower(Lower(s)) == Lower(s)
  {
  }

  /** `string.IndexOf(char)`: the first position of `c`, or -1. */
  function IndexOf(s: string, c: char): (r: int)
    ensures -1 <= r < |s|
    ensures r == -1 <==> c !in s
    ensures 0 <= r ==> s[r] == c && c !in s[..r]
  {
    if |s| == 0 then -1
    else if s[0] == c then 0
    else
      var k := IndexOf(s[1..], c);
      if k == -1 then -1 else k + 1
  }

  /** Joins parts with a separator between each adjacent pair. */
  function Join(parts: seq<string>, sep: char): string {
    if |parts| == 0 then ""
    else if |parts| == 1 then parts[0]
    else parts[0] + [sep] + Join(parts[1..], sep)
  }

  /** `string.Split(char)`: every occurrence separates; empty parts are kept. */
  function Split(s: string, sep: char): (r: seq<string>)
    ensures |r| >= 1
    ensures Join(r, sep) == s
    ensures forall i :: 0 <= i < |r| ==> sep !in r[i]
    decreases |s|
  {
    var k := IndexOf(s, sep);
    if k == -1 then [s]
    else
      var tail := Split(s[k + 1..], sep);
      SplitAt(s, k, tail, sep);
      [s[..k]] + tail
  }

  /** The first part, up to the first separator, in front of the split of the rest. */
  lemma SplitAt(s: string, k: nat, tail: seq<string>, sep: char)
    requires k < |s| && s[k] == sep && sep !in s[..k]
    requires |tail| >= 1 && Join(tail, sep) == s[k + 1..]
    requires forall i :: 0 <= i < |tail| ==> sep !in tail[i]
    ensures Join([s[..k]] + tail, sep) == s
    ensures forall i :: 0 <= i < |tail| + 1 ==> sep !in ([s[..k]] + tail)[i]
  {
    var head := s[..k];
    assert s == head + [sep] + s[k + 1..];
    JoinCons(head, tail, sep);
    assert forall i :: 1 <= i < |tail| + 1 ==> ([head] + tail)[i] == tail[i - 1];
  }

  lemma JoinCons(head: string, tail: seq<string>, sep: char)
    requires |tail| >= 1
    ensures Join([head] + tail, sep) == head + [sep] + Join(tail, sep)
  {
    assert ([head] + tail)[1..] == tail;
  }

  /** Text without the separator splits into itself alone. */
  lemma SplitNone(s: string, sep: char)
    requires sep !in s
    ensures Split(s, sep) == [s]
  {
  }

  /** A separator-free first part splits off ahead of the rest. */
  lemma SplitCons(a: string, b: string, sep: char)
    requires sep !in a
    ensures Split(a + [sep] + b, sep) == [a] + Split(b, sep)
  {
    var s := a + [sep] + b;
    assert s[..|a|] == a && s[|a|] == sep;
    assert IndexOf(s, sep) == |a|;
    assert s[|a| + 1..] == b;
  }

  /** Splitting a join of separator-free parts gives the parts back. */
  lemma {:induction false} SplitJoin(parts: seq<string>, sep: char)
    requires |parts| >= 1
    requires forall i :: 0 <= i < |parts| ==> sep !in parts[i]
    ensures Split(Join(parts, sep), sep) == parts
    decreases |parts|
  {
    if |parts| == 1 {
    } else {
      var s := Join(parts, sep);
      var head := parts[0];
      assert s == head + [sep] + Join(parts[1..], sep);
      assert IndexOf(s, sep) == |head| by {
        assert s[..|head|] == head;
        assert s[|head|] == sep;
      }
      assert s[..|head|] == head;
      assert s[|head| + 1..] == Join(parts[1..], sep);
      SplitJoin(parts[1..], sep);
      assert Split(s, sep) == [head] + Split(Join(parts[1..], sep), sep);
    }
  }

  /** `string.StartsWith(string)` (ordinal). */
  predicate StartsWith(s: string, prefix: string) {
    |prefix| <= |s| && s[..|prefix|] == prefix
  }

  /** `string.Contains(string)` (ordinal). */
  predicate Contains(s: string, part: string)
    decreases |s|
  {
    StartsWith(s, part) || (|s| > 0 && Contains(s[1..], part))
  }

  /** `Contains` finds `part` exactly when it occurs at some offset. */
  lemma {:induction false} ContainsAt(s: string, part: string, i: nat)
    requires i + |part| <= |s| && s[i..i + |part|] == part
    ensures Contains(s, part)
    decreases i
  {
    if i == 0 {
      assert s[..|part|] == part;
    } else {
      assert s[1..][i - 1..i - 1 + |part|] == s[i..i + |part|];
      ContainsAt(s[1..], part, i - 1);
    }
  }
}
