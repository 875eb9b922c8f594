// Taking the SSH key out of a diagnostic text (the key loop of
// redactDiagnosticText in diagnostics.go).
module Redaction {

  const PREFIX := "tryomarchy.sshkey="
  const REPLACEMENT := "tryomarchy.sshkey=<redacted>"

  predicate Ends(c: char) {
    c == ' ' || c == '\r' || c == '\n' || c == '\t'
  }

  predicate StartsAt(text: string, pattern: string, k: nat) {
    k + |pattern| <= |text| && text[k..k + |pattern|] == pattern
  }

  /** The length of the token a text begins with. */
  function Token(text: string): (n: nat)
    ensures n <= |text| && (n < |text| ==> Ends(text[n])) && forall i :: 0 <= i < n ==> !Ends(text[i])
  {
    if text == [] || Ends(text[0]) then 0 else 1 + Token(text[1..])
  }

  /** The text with every key token replaced, read from left to right. */
  function Redacted(text: string): string
    decreases |text|
  {
    if text == [] then []
    else if StartsAt(text, PREFIX, 0) then
      PrefixIsInToken(text);
      REPLACEMENT + Redacted(text[Token(text)..])
    else [text[0]] + Redacted(text[1..])
  }

  lemma TokenIs(text: string, n: nat)
    requires n <= |text| && (n < |text| ==> Ends(text[n])) && forall i :: 0 <= i < n ==> !Ends(text[i])
    ensures Token(text) == n
  {
  }

  lemma PrefixIsInToken(text: string)
    requires StartsAt(text, PREFIX, 0)
    ensures Token(text) >= |PREFIX|
  {
    forall i | 0 <= i < |PREFIX| ensures !Ends(text[i]) {
      assert text[i] == text[0..|PREFIX|][i];
    }
  }

  // ---- What redaction promises -----------------------------------------------------

  /** Every occurrence of the prefix is a whole token that says it was redacted. */
  ghost predicate AllMarked(text: string) {
    forall k: nat :: StartsAt(text, PREFIX, k) ==> MarkedAt(text, k)
  }

  ghost predicate MarkedAt(text: string, k: nat) {
    StartsAt(text, REPLACEMENT, k) && (k + |REPLACEMENT| < |text| ==> Ends(text[k + |REPLACEMENT|]))
  }

  /** The prefix does not overlap itself: only its first character is a t. */
  lemma PrefixShape()
    ensures |PREFIX| > 0 && PREFIX[0] == 't' && forall i :: 0 < i < |PREFIX| ==> PREFIX[i] != 't'
  {
  }

  /** An occurrence in two pieces joined lies in one of them, when the second
      begins with a whole token marker, or the first ends a token. */
  lemma OccurrenceInReplacement(rest: string, k: nat)
    requires StartsAt(REPLACEMENT + rest, PREFIX, k) && (rest != [] ==> Ends(rest[0]))
    ensures k == 0 || (k >= |REPLACEMENT| && StartsAt(rest, PREFIX, k - |REPLACEMENT|))
  {
    var whole := REPLACEMENT + rest;
    assert whole[k] == whole[k..k + |PREFIX|][0] == 't';
    assert whole[k + 1] == whole[k..k + |PREFIX|][1] == 'r';
    if k >= |REPLACEMENT| {
      assert whole[k..k + |PREFIX|] == rest[k - |REPLACEMENT|..][..|PREFIX|];
    } else {
      assert REPLACEMENT[k] == 't';
      assert k == 0 || k == 24;
      assert REPLACEMENT[25] == 'e';
    }
  }

  lemma {:induction false} RedactedIsMarked(text: string)
    ensures AllMarked(Redacted(text))
    decreases |text|
  {
    hide PREFIX, REPLACEMENT, AllMarked;
    if text == [] {
      NothingToMark();
    } else if StartsAt(text, PREFIX, 0) {
      PrefixIsInToken(text);
      HasPrefix();
      var rest := text[Token(text)..];
      RedactedIsMarked(rest);
      FirstKept(rest);
      MarkedAfterReplacement(Redacted(rest));
    } else {
      RedactedIsMarked(text[1..]);
      PrefixComesFromText(text);
      MarkedAfterChar(text[0], Redacted(text[1..]));
    }
  }

  lemma NothingToMark()
    ensures AllMarked("")
  {
  }

  lemma MarkedAfterReplacement(rest: string)
    requires AllMarked(rest) && (rest != [] ==> Ends(rest[0]))
    ensures AllMarked(REPLACEMENT + rest)
  {
    hide PREFIX, REPLACEMENT, Ends;
    var out := REPLACEMENT + rest;
    forall k: nat | StartsAt(out, PREFIX, k) ensures MarkedAt(out, k) {
      OccurrenceInReplacement(rest, k);
      if k == 0 {
        assert out[0..|REPLACEMENT|] == REPLACEMENT;
      } else {
        ShiftMark(REPLACEMENT, rest, k - |REPLACEMENT|);
      }
    }
  }

  lemma MarkedAfterChar(c: char, rest: string)
    requires AllMarked(rest) && !StartsAt([c] + rest, PREFIX, 0)
    ensures AllMarked([c] + rest)
  {
    hide PREFIX, REPLACEMENT, Ends;
    var out := [c] + rest;
    forall k: nat | StartsAt(out, PREFIX, k) ensures MarkedAt(out, k) {
      assert out[k..k + |PREFIX|] == rest[k - 1..][..|PREFIX|];
      ShiftMark([c], rest, k - 1);
    }
  }

  lemma ShiftMark(a: string, b: string, k: nat)
    requires MarkedAt(b, k)
    ensures MarkedAt(a + b, |a| + k)
  {
    assert (a + b)[|a| + k..|a| + k + |REPLACEMENT|] == b[k..k + |REPLACEMENT|];
  }

  /** Redaction leaves an ending in front, and an empty text empty. */
  lemma FirstKept(text: string)
    ensures text != [] && Ends(text[0]) ==> Redacted(text) != [] && Redacted(text)[0] == text[0]
    ensures text == [] ==> Redacted(text) == []
  {
    if text != [] && StartsAt(text, PREFIX, 0) {
      assert text[0] == text[0..|PREFIX|][0] == 't';
    }
  }

  lemma StartsWithT(text: string)
    requires StartsAt(text, PREFIX, 0)
    ensures Redacted(text) != [] && Redacted(text)[0] == 't'
  {
    PrefixIsInToken(text);
  }

  /** A prefix of the output that is all of the pattern, up to some length,
      was in the text already: replacing cannot complete one. */
  lemma {:induction false} CopiedHead(text: string, n: nat)
    requires n <= |Redacted(text)|
    requires forall i :: 0 <= i < n ==> Redacted(text)[i] != 't'
    ensures n <= |text| && Redacted(text)[..n] == text[..n]
    decreases |text|
  {
    if text == [] || n == 0 {
    } else if StartsAt(text, PREFIX, 0) {
      StartsWithT(text);
      assert false;
    } else {
      var rest := Redacted(text[1..]);
      assert forall i :: 0 <= i < n - 1 ==> rest[i] == Redacted(text)[i + 1];
      CopiedHead(text[1..], n - 1);
      assert Redacted(text)[..n] == [text[0]] + rest[..n - 1];
      assert text[..n] == [text[0]] + text[1..][..n - 1];
    }
  }

  lemma PrefixComesFromText(text: string)
    requires text != [] && !StartsAt(text, PREFIX, 0)
    ensures !StartsAt(Redacted(text), PREFIX, 0)
  {
    hide PREFIX, REPLACEMENT;
    PrefixShape();
    var out, rest := Redacted(text), Redacted(text[1..]);
    if StartsAt(out, PREFIX, 0) {
      var n := |PREFIX| - 1;
      assert rest[..n] == out[0..|PREFIX|][1..] == PREFIX[1..];
      forall i | 0 <= i < n ensures rest[i] != 't' {
        assert rest[i] == rest[..n][i] == PREFIX[i + 1];
      }
      assert text[0] == out[0..|PREFIX|][0];
      assert PREFIX == [text[0]] + rest[..n];
      CopiedHead(text[1..], n);
    }
  }

  /** A text is left as it is exactly when it has nothing to redact. */
  lemma {:induction false} UnchangedIffMarked(text: string)
    ensures Redacted(text) == text <==> AllMarked(text)
  {
    RedactedIsMarked(text);
    if AllMarked(text) {
      MarkedIsUnchanged(text);
    }
  }

  lemma {:induction false} MarkedIsUnchanged(text: string)
    requires AllMarked(text)
    ensures Redacted(text) == text
    decreases |text|
  {
    hide PREFIX, REPLACEMENT;
    ReplacementIsOneToken();
    if text == [] {
    } else if StartsAt(text, PREFIX, 0) {
      assert MarkedAt(text, 0);
      assert text[..|REPLACEMENT|] == REPLACEMENT;
      forall i | 0 <= i < |REPLACEMENT| ensures !Ends(text[i]) {
        assert text[i] == text[..|REPLACEMENT|][i] == REPLACEMENT[i];
      }
      TokenIs(text, |REPLACEMENT|);
      TailMarked(text, |REPLACEMENT|);
      MarkedIsUnchanged(text[|REPLACEMENT|..]);
    } else {
      TailMarked(text, 1);
      MarkedIsUnchanged(text[1..]);
    }
  }

  lemma ReplacementIsOneToken()
    ensures |REPLACEMENT| > 0 && forall i :: 0 <= i < |REPLACEMENT| ==> !Ends(REPLACEMENT[i])
  {
  }

  lemma TailMarked(text: string, n: nat)
    requires AllMarked(text) && n <= |text|
    ensures AllMarked(text[n..])
  {
    hide PREFIX, REPLACEMENT;
    var rest := text[n..];
    forall k: nat | StartsAt(rest, PREFIX, k) ensures MarkedAt(rest, k) {
      assert text[n + k..n + k + |PREFIX|] == rest[k..k + |PREFIX|];
      assert MarkedAt(text, n + k);
      assert text[n + k..n + k + |REPLACEMENT|] == rest[k..k + |REPLACEMENT|];
    }
  }

  lemma RedactingTwiceIsRedactingOnce(text: string)
    ensures Redacted(Redacted(text)) == Redacted(text)
  {
    RedactedIsMarked(text);
    MarkedIsUnchanged(Redacted(text));
  }

  /** A text with a key in it. */
  function WithKey(before: string, key: string, after: string): (s: string)
    ensures |s| == |before| + |PREFIX| + |key| + |after|
  {
    before + (PREFIX + (key + after))
  }

  /** No end of a token in the key, and the key ends its token. */
  predicate WholeKey(key: string, after: string) {
    (forall i :: 0 <= i < |key| ==> !Ends(key[i])) && (after != [] ==> Ends(after[0]))
  }

  /** Nothing of a key survives: texts that differ in a key alone become the same. */
  lemma {:induction false} KeysAreForgotten(before: string, key: string, other: string, after: string)
    requires WholeKey(key, after) && WholeKey(other, after)
    ensures Redacted(WithKey(before, key, after)) == Redacted(WithKey(before, other, after))
    decreases |before|
  {
    hide PREFIX, REPLACEMENT, WithKey;
    var a, b := WithKey(before, key, after), WithKey(before, other, after);
    SameStart(before, key, other, after);
    if before != [] && !StartsAt(a, PREFIX, 0) {
      TailWithKey(before, key, after, 0);
      TailWithKey(before, other, after, 0);
      TailWithKey(before, key, after, 1);
      TailWithKey(before, other, after, 1);
      KeysAreForgotten(before[1..], key, other, after);
    } else {
      AfterToken(before, key, after);
      AfterToken(before, other, after);
      if Token(before) < |before| {
        KeysAreForgotten(before[Token(before)..], key, other, after);
      }
    }
  }

  lemma TailWithKey(before: string, key: string, after: string, n: nat)
    requires n <= |before|
    ensures WithKey(before, key, after)[n..] == WithKey(before[n..], key, after)
    ensures n < |before| ==> WithKey(before, key, after)[n] == before[n]
  {
  }

  /** The token a text begins with may end before the key, or take it in. */
  lemma AfterToken(before: string, key: string, after: string)
    requires WholeKey(key, after) && StartsAt(WithKey(before, key, after), PREFIX, 0)
    ensures var text, n := WithKey(before, key, after), Token(before);
      && 0 < Token(text)
      && (n < |before| ==> n > 0)
      && text[Token(text)..] == if n < |before| then WithKey(before[n..], key, after) else after
  {
    hide PREFIX, REPLACEMENT, WithKey, Token, StartsAt, Ends;
    var text, n := WithKey(before, key, after), Token(before);
    PrefixIsInToken(text);
    HasPrefix();
    if n < |before| {
      TokenBefore(before, key, after);
      TailWithKey(before, key, after, n);
    } else {
      KeyInToken(before, key, after);
    }
  }

  lemma TokenBefore(before: string, key: string, after: string)
    requires Token(before) < |before|
    ensures Token(WithKey(before, key, after)) == Token(before)
  {
    hide PREFIX, REPLACEMENT, WithKey, Token;
    var text, n := WithKey(before, key, after), Token(before);
    forall i | 0 <= i <= n ensures text[i] == before[i] {
      TailWithKey(before, key, after, i);
    }
    TokenIs(text, n);
  }

  lemma HasPrefix()
    ensures |PREFIX| > 0
  {
  }

  lemma KeyInToken(before: string, key: string, after: string)
    requires WholeKey(key, after) && Token(before) == |before|
    ensures var text := WithKey(before, key, after);
      Token(text) == |text| - |after| && text[|text| - |after|..] == after
  {
    var text, m := WithKey(before, key, after), |before| + |PREFIX| + |key|;
    var body := before + PREFIX + key;
    forall i | 0 <= i < |body| ensures !Ends(body[i]) {
      assert i < |before| ==> body[i] == before[i];
      assert |before| <= i < |before| + |PREFIX| ==> body[i] == PREFIX[i - |before|];
    }
    assert text == body + after;
    TokenIs(text, m);
  }

  lemma SameStart(before: string, key: string, other: string, after: string)
    ensures StartsAt(WithKey(before, key, after), PREFIX, 0) <==> StartsAt(WithKey(before, other, after), PREFIX, 0)
    ensures before == [] ==> StartsAt(WithKey(before, key, after), PREFIX, 0)
  {
    var p := before + PREFIX;
    assert WithKey(before, key, after) == p + (key + after);
    assert WithKey(before, other, after) == p + (other + after);
    assert (p + (key + after))[0..|PREFIX|] == p[..|PREFIX|];
    assert (p + (other + after))[0..|PREFIX|] == p[..|PREFIX|];
  }

  // ---- The loop ---------------------------------------------------------------------

  /** The first occurrence of a pattern at or after an offset. */
  method Index(text: string, pattern: string, offset: nat) returns (at: int)
    requires offset <= |text|
    ensures at == -1 || (offset <= at && StartsAt(text, pattern, at))
    ensures forall k: nat :: offset <= k && (at == -1 || k < at) ==> !StartsAt(text, pattern, k)
  {
    var k := offset;
    while k + |pattern| <= |text|
      invariant forall i: nat :: offset <= i < k ==> !StartsAt(text, pattern, i)
    {
      if text[k..k + |pattern|] == pattern {
        return k;
      }
      k := k + 1;
    }
    return -1;
  }

  /** A stretch without an occurrence is copied. */
  lemma {:induction false} CopiedUntil(text: string, n: nat)
    requires n <= |text| && forall k: nat :: k < n ==> !StartsAt(text, PREFIX, k)
    ensures Redacted(text) == text[..n] + Redacted(text[n..])
    decreases n
  {
    hide PREFIX, REPLACEMENT;
    if n == 0 {
      assert text[0..] == text;
    } else {
      TailFree(text, 1, n);
      CopiedUntil(text[1..], n - 1);
      assert !StartsAt(text, PREFIX, 0);
      assert Redacted(text) == [text[0]] + Redacted(text[1..]);
      hide Redacted, StartsAt;
      assert text[1..][n - 1..] == text[n..];
      assert text[..n] == [text[0]] + text[1..][..n - 1];
    }
  }

  lemma TailFree(text: string, offset: nat, at: nat)
    requires offset <= at <= |text| && forall k: nat :: offset <= k < at ==> !StartsAt(text, PREFIX, k)
    ensures forall k: nat :: k < at - offset ==> !StartsAt(text[offset..], PREFIX, k)
  {
    hide PREFIX;
    var rest := text[offset..];
    forall k: nat | k < at - offset ensures !StartsAt(rest, PREFIX, k) {
      assert !StartsAt(text, PREFIX, offset + k);
      assert k + |PREFIX| <= |rest| ==> rest[k..k + |PREFIX|] == text[offset + k..offset + k + |PREFIX|];
    }
  }

  lemma CopiedFrom(text: string, offset: nat, at: nat)
    requires offset <= at <= |text| && forall k: nat :: offset <= k < at ==> !StartsAt(text, PREFIX, k)
    ensures Redacted(text[offset..]) == text[offset..at] + Redacted(text[at..])
  {
    hide PREFIX, REPLACEMENT, Redacted;
    var rest := text[offset..];
    TailFree(text, offset, at);
    CopiedUntil(rest, at - offset);
    assert rest[at - offset..] == text[at..] && rest[..at - offset] == text[offset..at];
  }

  method RedactKeys(original: string) returns (text: string)
    ensures text == Redacted(original)
  {
    hide Redacted, PREFIX, REPLACEMENT;
    text := original;
    var offset: nat := 0;
    while true
      invariant offset <= |text|
      invariant Redacted(original) == text[..offset] + Redacted(text[offset..])
      decreases |text| - offset
    {
      var start := Index(text, PREFIX, offset);
      if start < 0 {
        CopiedFrom(text, offset, |text|);
        FirstKept(text[|text|..]);
        assert text == text[..offset] + text[offset..|text|];
        return;
      }
      var end := start;
      while end < |text| && !Ends(text[end])
        invariant start <= end <= |text| && forall i :: start <= i < end ==> !Ends(text[i])
      {
        end := end + 1;
      }
      ReplaceKey(text, offset, start, end);
      text := text[..start] + REPLACEMENT + text[end..];
      offset := start + |REPLACEMENT|;
    }
  }

  /** One key replaced: the text up to the marker is final, the rest is still to do. */
  lemma ReplaceKey(text: string, offset: nat, start: nat, end: nat)
    requires offset <= start <= end <= |text| && StartsAt(text, PREFIX, start)
    requires forall k: nat :: offset <= k < start ==> !StartsAt(text, PREFIX, k)
    requires (end < |text| ==> Ends(text[end])) && forall i :: start <= i < end ==> !Ends(text[i])
    ensures var more, next := text[..start] + REPLACEMENT + text[end..], start + |REPLACEMENT|;
      && text[..offset] + Redacted(text[offset..]) == more[..next] + Redacted(more[next..])
      && |more| - next < |text| - offset
  {
    hide PREFIX, REPLACEMENT, StartsAt, Redacted;
    CopiedFrom(text, offset, start);
    TokenReplaced(text, start, end);
    Spliced(text, start, REPLACEMENT, end);
    Joined(text[..offset], text[offset..start], REPLACEMENT, Redacted(text[end..]));
    assert text[..start] == text[..offset] + text[offset..start];
  }

  lemma Joined(a: string, b: string, c: string, d: string)
    ensures a + (b + (c + d)) == ((a + b) + c) + d
  {
  }

  lemma TokenReplaced(text: string, start: nat, end: nat)
    requires start <= end <= |text| && StartsAt(text, PREFIX, start)
    requires (end < |text| ==> Ends(text[end])) && forall i :: start <= i < end ==> !Ends(text[i])
    ensures start < end && Redacted(text[start..]) == REPLACEMENT + Redacted(text[end..])
  {
    hide PREFIX, REPLACEMENT;
    var tail := text[start..];
    assert StartsAt(tail, PREFIX, 0);
    HasPrefix();
    TokenIs(tail, end - start);
    PrefixIsInToken(tail);
    assert tail[end - start..] == text[end..];
  }

  lemma Spliced(text: string, start: nat, r: string, end: nat)
    requires start <= end <= |text|
    ensures var more := text[..start] + r + text[end..];
      more[start + |r|..] == text[end..] && more[..start + |r|] == text[..start] + r
  {
  }
}
