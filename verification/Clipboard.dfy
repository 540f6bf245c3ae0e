/** The clipboard event: skip, redact, or store the text cut at a UTF-8 character boundary
    (section 3 of RFC 3629). */
module Clipboard {
  import opened Basics

  const MAX_STORED := 4096
  const MAX_CONSIDERED := 32 * 1024

  /** A Unicode scalar value: a code point that is not a surrogate. */
  type Scalar = c: int | 0 <= c < 0x11_0000 && !(0xD800 <= c < 0xE000)

  function Encode(c: Scalar): (bytes: Bytes)
    ensures 1 <= |bytes| <= 4
    ensures !IsContinuation(bytes[0])
    ensures forall i :: 1 <= i < |bytes| ==> IsContinuation(bytes[i])
  {
    if c < 0x80 then [c]
    else if c < 0x800 then [0xC0 + c / 0x40, 0x80 + c % 0x40]
    else if c < 0x1_0000 then [0xE0 + c / 0x1000, 0x80 + c / 0x40 % 0x40, 0x80 + c % 0x40]
    else [0xF0 + c / 0x4_0000, 0x80 + c / 0x1000 % 0x40, 0x80 + c / 0x40 % 0x40, 0x80 + c % 0x40]
  }

  /** The six bits a continuation byte carries. */
  function Low(b: Byte): int { b as int - 0x80 }

  /** The encoding is the standard's: the shortest form for the value, its bits in place. */
  lemma EncodeIs(c: Scalar)
    ensures var b := Encode(c);
            && |b| == (if c < 128 then 1 else if c < 2048 then 2 else if c < 65_536 then 3 else 4)
            && (|b| == 1 ==> b[0] == c < 0x80)
            && (|b| == 2 ==> 0xC2 <= b[0] <= 0xDF && c == (b[0] as int - 0xC0) * 64 + Low(b[1]))
            && (|b| == 3 ==> 0xE0 <= b[0] <= 0xEF && c == (b[0] as int - 0xE0) * 4096 + Low(b[1]) * 64 + Low(b[2]))
            && (|b| == 4 ==> 0xF0 <= b[0] <= 0xF4)
            && (|b| == 4 ==> c == (b[0] as int - 0xF0) * 262_144 + Low(b[1]) * 4096 + Low(b[2]) * 64 + Low(b[3]))
  {
    SplitBits(c);
  }

  lemma SplitBits(c: int)
    requires 0 <= c
    ensures c == c / 0x40 * 64 + c % 0x40
    ensures c / 0x40 == c / 0x1000 * 64 + c / 0x40 % 0x40
    ensures c / 0x1000 == c / 0x4_0000 * 64 + c / 0x1000 % 0x40
  {
  }

  predicate IsContinuation(b: Byte) { 0x80 <= b < 0xC0 }

  function EncodeAll(cs: seq<Scalar>): Bytes {
    if cs == [] then [] else Encode(cs[0]) + EncodeAll(cs[1..])
  }

  /** The standard library's boundary test, which looks at one byte. */
  predicate IsCharBoundary(bytes: Bytes, i: nat) {
    i == 0 || i == |bytes| || (i < |bytes| && !IsContinuation(bytes[i]))
  }

  /** Where the first `n` characters end. */
  function EndOf(cs: seq<Scalar>, n: nat): nat
    requires n <= |cs|
  {
    |EncodeAll(cs[..n])|
  }

  lemma {:induction false} PrefixSplits(cs: seq<Scalar>, n: nat)
    requires n <= |cs|
    ensures EncodeAll(cs) == EncodeAll(cs[..n]) + EncodeAll(cs[n..])
    decreases |cs|
  {
    hide Encode;
    if n == 0 {
      assert cs[..0] == [] && cs[0..] == cs;
    } else {
      PrefixSplits(cs[1..], n - 1);
      assert cs[..n][1..] == cs[1..][..n - 1] && cs[1..][n - 1..] == cs[n..];
    }
  }

  lemma EndOfNext(cs: seq<Scalar>, n: nat)
    requires n < |cs|
    ensures EndOf(cs, n) < EndOf(cs, n + 1) <= EndOf(cs, n) + 4
  {
    PrefixSplits(cs[..n + 1], n);
    assert cs[..n + 1][..n] == cs[..n] && cs[..n + 1][n..] == [cs[n]];
    assert EncodeAll([cs[n]]) == Encode(cs[n]) + EncodeAll([]);
  }

  /** The one-byte test finds exactly the ends of whole-character prefixes. */
  lemma {:induction false} BoundaryIsPrefixEnd(cs: seq<Scalar>, i: nat)
    requires i <= |EncodeAll(cs)|
    ensures IsCharBoundary(EncodeAll(cs), i) <==> exists n :: 0 <= n <= |cs| && EndOf(cs, n) == i
    decreases |cs|
  {
    if cs == [] {
      assert EndOf(cs, 0) == 0;
    } else {
      var head, tail := Encode(cs[0]), EncodeAll(cs[1..]);
      assert EndOf(cs, 0) == 0;
      if 0 < i < |head| {
        assert EncodeAll(cs)[i] == head[i];
        forall n | 1 <= n <= |cs| ensures EndOf(cs, n) >= |head| { assert cs[..n][1..] == cs[1..][..n - 1]; }
      } else if i >= |head| {
        BoundaryIsPrefixEnd(cs[1..], i - |head|);
        FirstIsNoContinuation(cs[1..]);
        forall n | 0 <= n <= |cs[1..]| ensures EndOf(cs, n + 1) == |head| + EndOf(cs[1..], n) {
          assert cs[..n + 1][1..] == cs[1..][..n];
        }
        if i < |EncodeAll(cs)| { assert EncodeAll(cs)[i] == tail[i - |head|]; }
        if n :| 0 <= n <= |cs[1..]| && EndOf(cs[1..], n) == i - |head| { assert EndOf(cs, n + 1) == i; }
        if n :| 0 <= n <= |cs| && EndOf(cs, n) == i {
          assert n > 0 && EndOf(cs[1..], n - 1) == i - |head|;
        }
      }
    }
  }

  lemma FirstIsNoContinuation(cs: seq<Scalar>)
    ensures EncodeAll(cs) != [] ==> !IsContinuation(EncodeAll(cs)[0])
  {
  }

  datatype Event = Skipped | Redacted(len: nat) | Text(stored: Bytes, len: nat, truncated: bool)

  /** The `n` first characters fit in `limit` bytes and one more would not. */
  ghost predicate LongestFit(cs: seq<Scalar>, n: nat, limit: nat) {
    n < |cs| && EndOf(cs, n) <= limit < EndOf(cs, n + 1)
  }

  lemma EndsGrow(cs: seq<Scalar>, m: nat, n: nat)
    requires m < n <= |cs|
    ensures EndOf(cs, m) < EndOf(cs, n)
  {
    EndOfNext(cs, n - 1);
    if m < n - 1 { EndsGrow(cs, m, n - 1); }
  }

  /** `text` is valid UTF-8: the encoding of the characters `cs`. Whether it looks like a secret is
      decided by pattern matching outside this model. */
  method EventFor(text: Bytes, secretLike: bool, ghost cs: seq<Scalar>) returns (event: Event)
    requires text == EncodeAll(cs)
    ensures text == [] || |text| > 32_768 ==> event == Skipped
    ensures 0 < |text| <= 32_768 && secretLike ==> event == Redacted(|text|)
    ensures 0 < |text| <= 4096 && !secretLike ==> event == Text(text, |text|, false)
    ensures 4096 < |text| <= 32_768 && !secretLike ==>
              && event.Text? && event.len == |text| && event.truncated
              && 4093 <= |event.stored| <= 4096
              && exists n: nat :: LongestFit(cs, n, 4096) && event.stored == EncodeAll(cs[..n])
  {
    if text == [] || |text| > MAX_CONSIDERED { return Skipped; }
    if secretLike { return Redacted(|text|); }
    if |text| <= MAX_STORED { return Text(text, |text|, false); }
    var end := MAX_STORED;
    while !IsCharBoundary(text, end)
      invariant 0 <= end <= MAX_STORED
      invariant forall i :: end < i <= MAX_STORED ==> !IsCharBoundary(text, i)
      decreases end
    {
      end := end - 1;
    }
    BoundaryIsPrefixEnd(cs, end);
    ghost var n :| 0 <= n <= |cs| && EndOf(cs, n) == end;
    PrefixSplits(cs, n);
    assert cs[..|cs|] == cs;
    EndOfNext(cs, n);
    if EndOf(cs, n + 1) <= MAX_STORED { BoundaryIsPrefixEnd(cs, EndOf(cs, n + 1)); }
    assert LongestFit(cs, n, MAX_STORED) && text[..end] == EncodeAll(cs[..n]);
    return Text(text[..end], |text|, true);
  }

  /** The cut is determined: no other whole-character prefix is the longest that fits. */
  lemma LongestFitIsUnique(cs: seq<Scalar>, m: nat, n: nat, limit: nat)
    requires LongestFit(cs, m, limit) && LongestFit(cs, n, limit)
    ensures m == n
  {
    if m < n {
      if m + 1 < n { EndsGrow(cs, m + 1, n); }
    } else if n < m {
      if n + 1 < m { EndsGrow(cs, n + 1, m); }
    }
  }
}
