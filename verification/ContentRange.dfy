// Reading the Content-Range header (parseContentRange in download.go; RFC 9110,
// section 14.4): which bytes of how many a partial response carries.
module ContentRange {
  import opened Wrappers
  import opened Bytes
  import opened Strings

  const UNIT := "bytes "

  datatype Range = Range(start: int, end: int, total: int) {
    predicate Ordered() {
      0 <= start <= end < total
    }
  }

  function ParseContentRange(value: string): Option<Range> {
    if !(UNIT <= value) then None
    else
      var rangeAndTotal := Split(TrimPrefix(value, UNIT), '/');
      if |rangeAndTotal| != 2 || rangeAndTotal[1] == "*" then None
      else
        var bounds := Split(rangeAndTotal[0], '-');
        if |bounds| != 2 then None else ParseNumbers(bounds[0], bounds[1], rangeAndTotal[1])
  }

  function ParseNumbers(first: string, last: string, all: string): Option<Range> {
    var start := ParseInt(first);
    if start.None? || start.value < 0 then None
    else
      var end := ParseInt(last);
      if end.None? || end.value < start.value then None
      else
        var total := ParseInt(all);
        if total.None? || total.value <= end.value then None else Some(Range(start.value, end.value, total.value))
  }

  /** The grammar: a unit, two bounds and a total, of numbers in order. */
  ghost predicate Reads(value: string, first: string, last: string, all: string, r: Range) {
    && value == UNIT + (first + "-" + last + "/" + all)
    && '/' !in first && '/' !in last && '/' !in all && '-' !in first && '-' !in last
    && ParseInt(first) == Some(r.start) && ParseInt(last) == Some(r.end) && ParseInt(all) == Some(r.total)
    && r.Ordered()
  }

  /** Accepted is exactly what the grammar says, with the numbers it says. */
  lemma ParsesIff(value: string, r: Range)
    ensures ParseContentRange(value) == Some(r) <==> exists first, last, all :: Reads(value, first, last, all, r)
  {
    if exists first, last, all :: Reads(value, first, last, all, r) {
      var first, last, all :| Reads(value, first, last, all, r);
      ReadsParses(value, first, last, all, r);
    }
    if ParseContentRange(value) == Some(r) {
      ParsesReads(value, r);
    }
  }

  lemma ReadsParses(value: string, first: string, last: string, all: string, r: Range)
    requires Reads(value, first, last, all, r)
    ensures ParseContentRange(value) == Some(r)
  {
    hide ParseInt;
    var rest, bounds := TrimPrefix(value, UNIT), first + "-" + last;
    assert rest == bounds + "/" + all;
    SplitFirst(bounds, '/', all);
    SplitNone(all, '/');
    assert bounds == first + ['-'] + last;
    SplitFirst(first, '-', last);
    SplitNone(last, '-');
    StarIsNoNumber();
  }

  lemma StarIsNoNumber()
    ensures ParseInt("*").None?
  {
    assert !Digits("*") by {
      assert "*"[0] == '*';
    }
  }

  lemma ParsesReads(value: string, r: Range)
    requires ParseContentRange(value) == Some(r)
    ensures exists first, last, all :: Reads(value, first, last, all, r)
  {
    hide ParseInt, Split;
    var rest := TrimPrefix(value, UNIT);
    var outer := Split(rest, '/');
    var inner := Split(outer[0], '-');
    JoinSplit(rest, '/');
    JoinSplit(outer[0], '-');
    PartsHaveNone(rest, '/');
    PartsHaveNone(outer[0], '-');
    TwoParts(outer, '/');
    TwoParts(inner, '-');
    assert value == UNIT + rest;
    assert '/' !in outer[0] && outer[0] == inner[0] + ['-'] + inner[1];
    assert Reads(value, inner[0], inner[1], outer[1], r);
  }

  lemma TwoParts(parts: seq<string>, separator: char)
    requires |parts| == 2
    ensures Join(parts, separator) == parts[0] + [separator] + parts[1]
  {
    assert parts[1..] == [parts[1]];
  }

  function Format(r: Range): string
    requires r.Ordered()
  {
    UNIT + (Decimal(r.start) + "-" + Decimal(r.end) + "/" + Decimal(r.total))
  }

  /** What a server writes is what is read. */
  lemma RoundTrip(r: Range)
    requires r.Ordered() && r.total < INT64_LIMIT
    ensures ParseContentRange(Format(r)) == Some(r)
  {
    hide Decimal, ParseInt;
    ParseDecimal(r.start);
    ParseDecimal(r.end);
    ParseDecimal(r.total);
    ReadsParses(Format(r), Decimal(r.start), Decimal(r.end), Decimal(r.total), r);
  }
}
