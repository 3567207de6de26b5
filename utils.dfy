/** Fixed-width integers, the byte reversal the codecs use to convert between
    host and network byte order, and the whitespace tokenizer `split`. */
module Utils {

  type uint8 = x: int | 0 <= x < 0x100
  type uint16 = x: int | 0 <= x < 0x1_0000
  type uint32 = x: int | 0 <= x < 0x1_0000_0000

  /** A `std::string` as the bytes it holds. */
  type Bytes = seq<uint8>

  // ---------------------------------------------------------------------
  // reverse_bytes
  // ---------------------------------------------------------------------

  /** `reverse_bytes` on the object representation of a value: the bytes of
      `s` in the opposite order. */
  function ReverseBytes(s: Bytes): (r: Bytes)
    ensures |r| == |s|
    ensures forall k :: 0 <= k < |s| ==> r[k] == s[|s| - 1 - k]
  {
    if s == [] then [] else [s[|s| - 1]] + ReverseBytes(s[..|s| - 1])
  }

  /** Reversing twice gives the original bytes back. */
  lemma ReverseBytesInvolution(s: Bytes)
    ensures ReverseBytes(ReverseBytes(s)) == s
  {
    var r := ReverseBytes(ReverseBytes(s));
    assert |r| == |s|;
    forall k | 0 <= k < |s| ensures r[k] == s[k] {
      assert r[k] == ReverseBytes(s)[|s| - 1 - k];
    }
  }

  /** On a one-byte value `reverse_bytes` is the identity; the codecs apply
      it to their `uint8` length and count fields. */
  lemma ReverseOneByte(b: uint8)
    ensures ReverseBytes([b]) == [b]
  {
  }

  /** The object representation of a `uint32` on the little-endian host the
      source assumes: least significant byte first. */
  function HostBytes32(v: uint32): (r: Bytes)
    ensures |r| == 4
  {
    [v % 0x100, (v / 0x100) % 0x100, (v / 0x1_0000) % 0x100, v / 0x100_0000]
  }

  /** The `uint32` whose host representation is `b` (`std::bit_cast`). */
  function FromHostBytes32(b: Bytes): (v: uint32)
    requires |b| == 4
  {
    (b[0] as int) + 0x100 * (b[1] as int) + 0x1_0000 * (b[2] as int) + 0x100_0000 * (b[3] as int)
  }

  lemma FromHostBytes32Inverse(v: uint32)
    ensures FromHostBytes32(HostBytes32(v)) == v
  {
    var b := HostBytes32(v);
    assert v == v % 0x100 + 0x100 * (v / 0x100);
    assert v / 0x100 == (v / 0x100) % 0x100 + 0x100 * (v / 0x1_0000);
    assert v / 0x1_0000 == (v / 0x1_0000) % 0x100 + 0x100 * (v / 0x100_0000);
  }

  lemma HostBytes32Inverse(b: Bytes)
    requires |b| == 4
    ensures HostBytes32(FromHostBytes32(b)) == b
  {
    var v := FromHostBytes32(b);
    var hi: int := (b[1] as int) + 0x100 * (b[2] as int) + 0x1_0000 * (b[3] as int);
    assert v == (b[0] as int) + 0x100 * hi;
    assert v % 0x100 == b[0] && v / 0x100 == hi;
    var hi2: int := (b[2] as int) + 0x100 * (b[3] as int);
    assert hi == (b[1] as int) + 0x100 * hi2;
    assert hi % 0x100 == b[1] && hi / 0x100 == hi2;
    assert v / 0x1_0000 == hi2 by {
      assert v / 0x1_0000 == (v / 0x100) / 0x100;
    }
    assert v / 0x100_0000 == b[3] by {
      assert v / 0x100_0000 == (v / 0x1_0000) / 0x100;
    }
  }

  /** `reverse_bytes<std::uint32_t>`: reinterpret the value as its host
      bytes, reverse them, and reinterpret them as a value again. The
      result is the value whose host bytes are those of `v` reversed. */
  function ReverseBytes32(v: uint32): (r: uint32)
    ensures HostBytes32(r) == ReverseBytes(HostBytes32(v))
  {
    HostBytes32Inverse(ReverseBytes(HostBytes32(v)));
    FromHostBytes32(ReverseBytes(HostBytes32(v)))
  }

  /** Network byte order: most significant byte first. */
  function BigEndian32(v: uint32): (r: Bytes)
    ensures |r| == 4
  {
    [v / 0x100_0000, (v / 0x1_0000) % 0x100, (v / 0x100) % 0x100, v % 0x100]
  }

  /** Two conversions cancel out (the decoder undoes what the encoder did). */
  lemma ReverseBytes32Involution(v: uint32)
    ensures ReverseBytes32(ReverseBytes32(v)) == v
  {
    var h := ReverseBytes(HostBytes32(v));
    HostBytes32Inverse(h);
    ReverseBytesInvolution(HostBytes32(v));
    FromHostBytes32Inverse(v);
  }

  /** On a little-endian host, storing `reverse_bytes(v)` lays `v` out in
      network (big-endian) byte order, which is what goes on the wire. */
  lemma ReverseBytes32IsNetworkOrder(v: uint32)
    ensures HostBytes32(ReverseBytes32(v)) == BigEndian32(v)
  {
    HostBytes32Inverse(ReverseBytes(HostBytes32(v)));
  }

  // ---------------------------------------------------------------------
  // split
  // ---------------------------------------------------------------------

  /** The characters at which the tokenizing loop of `split` ends a token:
      the separator, and also a line feed. */
  predicate IsBreak(c: char, sep: char)
  {
    c == sep || c == '\n'
  }

  /** The token still being collected after reading `s`: the characters
      after the last break. */
  function Pending(s: string, sep: char): string
  {
    if s == [] then []
    else if IsBreak(s[|s| - 1], sep) then []
    else Pending(s[..|s| - 1], sep) + [s[|s| - 1]]
  }

  /** The tokens completed by a break within `s`, left to right. */
  function Closed(s: string, sep: char): seq<string>
  {
    if s == [] then []
    else if IsBreak(s[|s| - 1], sep) && Pending(s[..|s| - 1], sep) != []
    then Closed(s[..|s| - 1], sep) + [Pending(s[..|s| - 1], sep)]
    else Closed(s[..|s| - 1], sep)
  }

  /** The tokens of `s`: maximal runs of characters that are not breaks. */
  function Tokens(s: string, sep: char): seq<string>
  {
    Closed(s, sep) + if Pending(s, sep) == [] then [] else [Pending(s, sep)]
  }

  /** The number of positions `i` of `s` with `s[i] != sep` and `i == 0` or
      `s[i-1] == sep`: what the counting loop of `split` computes. */
  function SeparatorStarts(s: string, sep: char): (r: nat)
    ensures r <= |s|
    ensures r == 0 <==> forall i :: 0 <= i < |s| ==> s[i] == sep
  {
    if s == [] then 0
    else
      var i := |s| - 1;
      SeparatorStarts(s[..i], sep)
      + if s[i] != sep && (i == 0 || s[i - 1] == sep) then 1 else 0
  }

  /** The same count with every break character (separator or line feed)
      in place of the separator alone. */
  function BreakStarts(s: string, sep: char): nat
  {
    if s == [] then 0
    else
      var i := |s| - 1;
      BreakStarts(s[..i], sep)
      + if !IsBreak(s[i], sep) && (i == 0 || IsBreak(s[i - 1], sep)) then 1 else 0
  }

  /** Every character of `s` that is not a break, in order. */
  function WithoutBreaks(s: string, sep: char): string
  {
    if s == [] then []
    else WithoutBreaks(s[..|s| - 1], sep)
         + if IsBreak(s[|s| - 1], sep) then [] else [s[|s| - 1]]
  }

  function Concat(ts: seq<string>): string
  {
    if ts == [] then [] else Concat(ts[..|ts| - 1]) + ts[|ts| - 1]
  }

  lemma ConcatAppend(ts: seq<string>, t: string)
    ensures Concat(ts + [t]) == Concat(ts) + t
  {
    assert (ts + [t])[..|ts|] == ts;
  }

  lemma {:induction false} PendingEmpty(s: string, sep: char)
    ensures Pending(s, sep) == [] <==> (s == [] || IsBreak(s[|s| - 1], sep))
  {
  }

  /** Each token starts exactly at a counted position: there are as many
      tokens as non-break characters that follow a break or open `s`. */
  lemma {:induction false} TokensCount(s: string, sep: char)
    ensures |Tokens(s, sep)| == BreakStarts(s, sep)
  {
    if s != [] {
      var p := s[..|s| - 1];
      TokensCount(p, sep);
      PendingEmpty(p, sep);
    }
  }

  /** Without line feeds (or when the separator is the line feed) both
      counts agree, so `split` allocates exactly one slot per token. */
  lemma {:induction false} StartsAgree(s: string, sep: char)
    requires '\n' !in s || sep == '\n'
    ensures SeparatorStarts(s, sep) == BreakStarts(s, sep)
  {
    if s != [] {
      var p := s[..|s| - 1];
      assert forall c :: c in p ==> c in s;
      StartsAgree(p, sep);
    }
  }

  lemma {:induction false} BreakStartsMonotone(s: string, sep: char, n: nat)
    requires n <= |s|
    ensures BreakStarts(s[..n], sep) <= BreakStarts(s, sep)
    decreases |s|
  {
    if n < |s| {
      var p := s[..|s| - 1];
      assert p[..n] == s[..n];
      BreakStartsMonotone(p, sep, n);
    } else {
      assert s[..n] == s;
    }
  }

  /** The pending token is non-empty and holds no break character. */
  lemma {:induction false} PendingClean(s: string, sep: char)
    ensures forall c :: c in Pending(s, sep) ==> !IsBreak(c, sep)
  {
    if s != [] && !IsBreak(s[|s| - 1], sep) {
      PendingClean(s[..|s| - 1], sep);
    }
  }

  /** Every token is non-empty and contains neither the separator nor a
      line feed. */
  lemma {:induction false} TokensClean(s: string, sep: char)
    ensures forall t :: t in Tokens(s, sep) ==> t != [] && sep !in t && '\n' !in t
  {
    ClosedClean(s, sep);
    PendingClean(s, sep);
  }

  lemma {:induction false} ClosedClean(s: string, sep: char)
    ensures forall t :: t in Closed(s, sep) ==> t != [] && forall c :: c in t ==> !IsBreak(c, sep)
  {
    if s != [] {
      var p := s[..|s| - 1];
      ClosedClean(p, sep);
      PendingClean(p, sep);
    }
  }

  /** Read left to right, the tokens spell `s` with its break characters
      removed. */
  lemma {:induction false} TokensSpell(s: string, sep: char)
    ensures Concat(Tokens(s, sep)) == WithoutBreaks(s, sep)
  {
    ClosedPendingSpell(s, sep);
    if Pending(s, sep) == [] {
      assert Tokens(s, sep) == Closed(s, sep);
    } else {
      ConcatAppend(Closed(s, sep), Pending(s, sep));
    }
  }

  lemma {:induction false} ClosedPendingSpell(s: string, sep: char)
    ensures Concat(Closed(s, sep)) + Pending(s, sep) == WithoutBreaks(s, sep)
  {
    if s != [] {
      var p := s[..|s| - 1];
      ClosedPendingSpell(p, sep);
      if IsBreak(s[|s| - 1], sep) && Pending(p, sep) != [] {
        ConcatAppend(Closed(p, sep), Pending(p, sep));
      }
    }
  }

  /** The empty string has no tokens. */
  lemma EmptyHasNoTokens(sep: char)
    ensures Tokens([], sep) == [] && SeparatorStarts([], sep) == 0
  {
  }

  /** `split(str, separator)`. The first loop sizes the result by counting
      token starts; the second cuts the tokens, ending one at the separator
      or at a line feed. The two counts differ once `str` holds a line
      feed: writing `res[idx]` stays in bounds only while the tokens do not
      outnumber the slots, and slots left over stay empty strings. */
  method Split(str: string, separator: char) returns (res: seq<string>)
    requires BreakStarts(str, separator) <= SeparatorStarts(str, separator)
    ensures |res| == SeparatorStarts(str, separator)
    ensures res == Tokens(str, separator)
      + seq(SeparatorStarts(str, separator) - BreakStarts(str, separator), _ => "")
  {
    var numSeparator := 0;
    for i := 0 to |str|
      invariant numSeparator == SeparatorStarts(str[..i], separator)
    {
      assert str[..i + 1][..i] == str[..i];
      if str[i] != separator && (i == 0 || str[i - 1] == separator) {
        numSeparator := numSeparator + 1;
      }
    }
    assert str[..|str|] == str;
    res := CutTokens(str, separator, numSeparator);
  }

  /** `split` sized by the break count that the cutting loop needs: the
      result holds every token, whether or not `str` has line feeds. */
  method SplitCountingBreaks(str: string, separator: char) returns (res: seq<string>)
    ensures res == Tokens(str, separator)
    ensures |res| == BreakStarts(str, separator)
  {
    var numSeparator := 0;
    for i := 0 to |str|
      invariant numSeparator == BreakStarts(str[..i], separator)
    {
      assert str[..i + 1][..i] == str[..i];
      if !IsBreak(str[i], separator) && (i == 0 || IsBreak(str[i - 1], separator)) {
        numSeparator := numSeparator + 1;
      }
    }
    assert str[..|str|] == str;
    res := CutTokens(str, separator, numSeparator);
  }

  /** A break character read by the cutting loop closes the pending token
      (if any) and starts an empty one. */
  lemma CutAtBreak(str: string, sep: char, i: nat)
    requires i < |str| && IsBreak(str[i], sep)
    ensures Pending(str[..i + 1], sep) == []
    ensures Closed(str[..i + 1], sep)
      == Closed(str[..i], sep) + (if Pending(str[..i], sep) != [] then [Pending(str[..i], sep)] else [])
  {
    assert str[..i + 1][..i] == str[..i];
  }

  /** Any other character extends the pending token. */
  lemma CutExtends(str: string, sep: char, i: nat)
    requires i < |str| && !IsBreak(str[i], sep)
    ensures Pending(str[..i + 1], sep) == Pending(str[..i], sep) + [str[i]]
    ensures Closed(str[..i + 1], sep) == Closed(str[..i], sep)
  {
    assert str[..i + 1][..i] == str[..i];
  }

  /** The tokens of any prefix fit in the slots sized for the whole
      string. */
  lemma TokensBound(str: string, sep: char, i: nat)
    requires i <= |str|
    ensures |Closed(str[..i], sep)| + (if Pending(str[..i], sep) != [] then 1 else 0) <= BreakStarts(str, sep)
  {
    TokensCount(str[..i], sep);
    BreakStartsMonotone(str, sep, i);
  }

  /** The second loop of `split`: fills a vector of `count` empty slots
      with the tokens of `str`, cutting at the separator or a line feed. */
  method CutTokens(str: string, separator: char, count: nat) returns (res: seq<string>)
    requires BreakStarts(str, separator) <= count
    ensures |res| == count
    ensures res == Tokens(str, separator) + seq(count - BreakStarts(str, separator), _ => "")
  {
    var slots := new string[count](_ => "");
    var idx: nat := 0;
    var begin: nat := 0;
    for i := 0 to |str|
      invariant Cutting(str, separator, count, slots[..], i, begin, idx)
    {
      begin, idx := CutChar(str, separator, count, slots, i, begin, idx);
    }
    assert str[..|str|] == str;
    TokensCount(str, separator);
    if begin < |str| {
      ghost var filled := slots[..idx];
      slots[idx] := str[begin..];
      assert slots[..idx + 1] == filled + [str[begin..]];
    }
    res := slots[..];
    FilledThenBlank(res, Tokens(str, separator));
  }

  /** Slots holding `ts` and then only empty strings are `ts` padded with
      empty strings. */
  lemma FilledThenBlank(slots: seq<string>, ts: seq<string>)
    requires |ts| <= |slots| && slots[..|ts|] == ts
    requires forall k :: |ts| <= k < |slots| ==> slots[k] == ""
    ensures slots == ts + seq(|slots| - |ts|, _ => "")
  {
    assert forall k :: 0 <= k < |ts| ==> slots[k] == slots[..|ts|][k];
  }

  /** The state of the cutting loop after reading `str[..i]`: the current
      token `str[begin..i]` is the pending one, and the first `idx` of the
      `count` slots hold the tokens already closed and the rest are still
      empty. */
  predicate Cutting(str: string, sep: char, count: nat, slots: seq<string>, i: nat, begin: nat, idx: nat)
  {
    && begin <= i <= |str|
    && |slots| == count
    && str[begin..i] == Pending(str[..i], sep)
    && idx == |Closed(str[..i], sep)|
    && idx + (if begin < i then 1 else 0) <= count
    && slots[..idx] == Closed(str[..i], sep)
    && forall k :: idx <= k < count ==> slots[k] == ""
  }

  /** One round of the cutting loop, reading `str[i]`: a break stores the
      current token in the next slot when it is non-empty and starts the
      next token after the break; any other character extends the
      current token. */
  method CutChar(str: string, separator: char, count: nat, slots: array<string>, i: nat, begin: nat, idx: nat)
      returns (begin': nat, idx': nat)
    requires i < |str| && BreakStarts(str, separator) <= count
    requires Cutting(str, separator, count, slots[..], i, begin, idx)
    modifies slots
    ensures Cutting(str, separator, count, slots[..], i + 1, begin', idx')
  {
    TokensBound(str, separator, i + 1);
    begin', idx' := begin, idx;
    if str[i] == separator || str[i] == '\n' {
      CutAtBreak(str, separator, i);
      if i != begin {
        ghost var filled := slots[..idx];
        slots[idx] := str[begin..i];
        assert slots[..idx + 1] == filled + [str[begin..i]];
        idx' := idx + 1;
      }
      begin' := i + 1;
    } else {
      CutExtends(str, separator, i);
      assert str[begin..i + 1] == str[begin..i] + [str[i]];
    }
  }

  /** With a line feed in the string and a blank separator, the counting
      loop of `split` sizes the result for one token where the cutting
      loop produces two. */
  lemma LineFeedOverrunsSplit()
    ensures SeparatorStarts("a\nb", ' ') == 1
    ensures |Tokens("a\nb", ' ')| == 2
  {
    var s := "a\nb";
    var s1, s2 := s[..1], s[..2];
    assert s1 == "a" && s2 == "a\n" && s2[..1] == s1 && s[..2] == s2 && s1[..0] == [];
    assert SeparatorStarts(s1, ' ') == 1;
    assert SeparatorStarts(s2, ' ') == 1;
    assert Pending(s1, ' ') == "a" && Closed(s1, ' ') == [];
    assert Pending(s2, ' ') == [] && Closed(s2, ' ') == ["a"];
    assert Pending(s, ' ') == "b" && Closed(s, ' ') == ["a"];
  }

  /** With a line feed after a separator, the counting loop of `split`
      sizes the result for one token more than the cutting loop produces:
      `split("a \n", ' ')` holds `"a"` and then an empty string. */
  lemma LineFeedUnderfillsSplit()
    ensures SeparatorStarts("a \n", ' ') == 2
    ensures BreakStarts("a \n", ' ') == 1
    ensures Tokens("a \n", ' ') == ["a"]
  {
    var s := "a \n";
    var s1, s2 := s[..1], s[..2];
    assert s1 == "a" && s2 == "a " && s2[..1] == s1 && s[..2] == s2 && s1[..0] == [];
    assert SeparatorStarts(s1, ' ') == SeparatorStarts([], ' ') + 1;
    assert SeparatorStarts(s2, ' ') == SeparatorStarts(s1, ' ');
    assert SeparatorStarts(s, ' ') == SeparatorStarts(s2, ' ') + 1;
    assert BreakStarts(s1, ' ') == 1 && BreakStarts(s2, ' ') == 1;
    assert Pending(s1, ' ') == "a" && Closed(s1, ' ') == [];
    assert Pending(s2, ' ') == [] && Closed(s2, ' ') == ["a"];
    assert Pending(s, ' ') == [] && Closed(s, ' ') == ["a"];
  }
}
