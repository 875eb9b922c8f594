// Splitting, joining and trimming text, and decimal numbers.
module Strings {
  import opened Wrappers
  import opened Bytes

  function Split(name: string, separator: char): (parts: seq<string>)
    ensures parts != []
  {
    if name == [] then [[]]
    else
      var rest := Split(name[1..], separator);
      if name[0] == separator then [[]] + rest else [[name[0]] + rest[0]] + rest[1..]
  }

  function Join(parts: seq<string>, separator: char): string
    requires parts != []
  {
    if |parts| == 1 then parts[0] else parts[0] + [separator] + Join(parts[1..], separator)
  }

  lemma {:induction false} JoinSplit(name: string, separator: char)
    ensures Join(Split(name, separator), separator) == name
  {
    if name != [] {
      var rest := Split(name[1..], separator);
      JoinSplit(name[1..], separator);
      if name[0] == separator {
        assert ([[]] + rest)[1..] == rest;
      } else {
        var parts := [[name[0]] + rest[0]] + rest[1..];
        assert parts[1..] == rest[1..];
      }
    }
  }

  /** What comes before a separator is the first part. */
  lemma {:induction false} SplitFirst(part: string, separator: char, rest: string)
    requires separator !in part
    ensures Split(part + [separator] + rest, separator) == [part] + Split(rest, separator)
  {
    var all := part + [separator] + rest;
    if part == [] {
      assert all[1..] == rest;
    } else {
      assert all[1..] == part[1..] + [separator] + rest;
      SplitFirst(part[1..], separator, rest);
      var first, others := [part[0]] + part[1..], Split(rest, separator);
      assert first == part && all[0] == part[0];
      assert ([part[1..]] + others)[1..] == others;
    }
  }

  /** Parts without the separator come back from the text they are joined to. */
  lemma {:induction false} SplitJoin(parts: seq<string>, separator: char)
    requires parts != [] && forall k :: 0 <= k < |parts| ==> separator !in parts[k]
    ensures Split(Join(parts, separator), separator) == parts
    decreases |parts|
  {
    if |parts| == 1 {
      SplitNone(parts[0], separator);
      assert parts == [parts[0]];
    } else {
      SplitJoin(parts[1..], separator);
      SplitFirst(parts[0], separator, Join(parts[1..], separator));
      assert parts == [parts[0]] + parts[1..];
    }
  }

  /** A joined text has the characters of its parts and the separator. */
  lemma {:induction false} JoinHas(parts: seq<string>, separator: char, c: char)
    requires parts != [] && c != separator
    ensures c in Join(parts, separator) <==> exists k :: 0 <= k < |parts| && c in parts[k]
    decreases |parts|
  {
    if |parts| > 1 {
      JoinHas(parts[1..], separator, c);
      if k :| 0 <= k < |parts[1..]| && c in parts[1..][k] {
        assert c in parts[k + 1];
      }
      if k :| 0 <= k < |parts| && c in parts[k] {
        assert k > 0 ==> parts[k] == parts[1..][k - 1];
      }
    }
  }

  /** The first part is what comes before the first separator. */
  lemma {:induction false} FirstPart(s: string, separator: char)
    ensures var first := Split(s, separator)[0];
      && first <= s && separator !in first && (first == s || s[|first|] == separator)
  {
    if s != [] && s[0] != separator {
      FirstPart(s[1..], separator);
    }
  }

  lemma {:induction false} SplitNone(s: string, separator: char)
    ensures separator !in s <==> Split(s, separator) == [s]
  {
    if s != [] {
      SplitNone(s[1..], separator);
      JoinSplit(s[1..], separator);
      assert s == [s[0]] + s[1..];
    }
  }

  lemma {:induction false} PartsHaveNone(s: string, separator: char)
    ensures forall k :: 0 <= k < |Split(s, separator)| ==> separator !in Split(s, separator)[k]
  {
    if s != [] {
      PartsHaveNone(s[1..], separator);
    }
  }

  predicate IsSpace(c: char) {
    || '\t' <= c <= '\r' || c == ' ' || c == '\U{85}' || c == '\U{A0}' || c == '\U{1680}' || '\U{2000}' <= c <= '\U{200A}'
    || c == '\U{2028}' || c == '\U{2029}' || c == '\U{202F}' || c == '\U{205F}' || c == '\U{3000}'
  }

  function TrimRight(s: string, cut: char -> bool): string {
    if s != [] && cut(s[|s| - 1]) then TrimRight(s[..|s| - 1], cut) else s
  }

  function TrimLeft(s: string, cut: char -> bool): string {
    if s != [] && cut(s[0]) then TrimLeft(s[1..], cut) else s
  }

  function TrimPrefix(s: string, prefix: string): string {
    if prefix <= s then s[|prefix|..] else s
  }

  // ---- Decimal numbers ----------------------------------------------------------------------

  predicate Digits(s: string) {
    forall i :: 0 <= i < |s| ==> '0' <= s[i] <= '9'
  }

  function Number(s: string): nat
    requires Digits(s)
  {
    if s == [] then 0 else Number(s[..|s| - 1]) * 10 + (s[|s| - 1] as int - '0' as int)
  }

  /** A signed decimal number of 64 bits. */
  function ParseInt(s: string): (r: Option<int>)
    ensures r.Some? ==> -INT64_LIMIT <= r.value < INT64_LIMIT
  {
    var negative := s != [] && s[0] == '-';
    var digits := if s != [] && (s[0] == '-' || s[0] == '+') then s[1..] else s;
    if digits == [] || !Digits(digits) then None
    else
      var magnitude: int := Number(digits);
      var v := if negative then -magnitude else magnitude;
      if -INT64_LIMIT <= v < INT64_LIMIT then Some(v) else None
  }

  function Decimal(n: nat): (s: string)
    ensures s != [] && Digits(s)
  {
    var last := [(n % 10 + '0' as int) as char];
    if n < 10 then last else Decimal(n / 10) + last
  }

  lemma {:induction false} NumberOfDecimal(n: nat)
    ensures Number(Decimal(n)) == n
  {
    var s := Decimal(n);
    if n < 10 {
      assert s[..|s| - 1] == [];
    } else {
      assert s[..|s| - 1] == Decimal(n / 10);
      NumberOfDecimal(n / 10);
    }
  }

  lemma ParseDecimal(n: nat)
    requires n < INT64_LIMIT
    ensures ParseInt(Decimal(n)) == Some(n)
  {
    NumberOfDecimal(n);
    assert '0' <= Decimal(n)[0] <= '9';
  }
}
