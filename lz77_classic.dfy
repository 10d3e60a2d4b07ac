/**
 * The classic sliding-window LZ77 of `lz77_compression.cpp`: tokens of the
 * form (offset, length, next character) over a 43-character search buffer
 * and an 8-character look-ahead buffer, the matching decompressor, and the
 * global token `counter` the two share.
 */
module Lz77Classic {
  import opened Wrappers

  /** `search_buffer_size`. */
  const SearchBufferSize: nat := 43
  /** `look_ahead_buffer_size`. */
  const LookAheadBufferSize: nat := 8
  /** `'\0'`, which a token uses for "no next character". */
  const Nul: char := '\0'

  /**
   * `struct Token`. Offset and length are `uint8_t` in the source; the bounds
   * proved below (at most 43 and 8) show the conversion never truncates.
   */
  datatype Token = Token(offset: nat, length: nat, nextChar: char)

  /** The bounds every token `compress` emits keeps. */
  predicate WellFormed(t: Token)
  {
    && t.length <= LookAheadBufferSize
    && (t.length == 0 ==> t.offset == 0)
    && (t.length > 0 ==> 1 <= t.offset <= SearchBufferSize && t.length <= t.offset)
  }

  /** No character of the text is `'\0'`. */
  predicate NoNul(s: string)
  {
    forall k :: 0 <= k < |s| ==> s[k] != Nul
  }

  /*
   * ---------------------------------------------------------------------
   * What `compress` computes
   * ---------------------------------------------------------------------
   */

  /** `corrected_start_index`: where the search buffer starts. */
  function SearchStart(index: nat): nat
  {
    if index - SearchBufferSize <= 0 then 0 else index - SearchBufferSize
  }

  /** `corrected_search_buffer_length`: the buffer ends at `index` and holds at most 43 characters. */
  function SearchLength(index: nat): (n: nat)
    ensures SearchStart(index) + n == index
    ensures n <= SearchBufferSize
  {
    if SearchStart(index) == 0 then index else SearchBufferSize
  }

  /**
   * The number of characters on which the text from `p` and the text from `q`
   * agree, reading `p` no further than `pEnd` and `q` no further than `qEnd`.
   */
  function Agree(input: string, p: nat, q: nat, pEnd: nat, qEnd: nat): (n: nat)
    requires p <= pEnd <= |input| && q <= qEnd <= |input|
    ensures p + n <= pEnd && q + n <= qEnd
    decreases pEnd - p
  {
    if p < pEnd && q < qEnd && input[p] == input[q] then 1 + Agree(input, p + 1, q + 1, pEnd, qEnd) else 0
  }

  /** The agreeing characters are equal, and the agreement ends at a bound or at a difference. */
  lemma {:induction false} AgreeMatches(input: string, p: nat, q: nat, pEnd: nat, qEnd: nat)
    requires p <= pEnd <= |input| && q <= qEnd <= |input|
    ensures var n := Agree(input, p, q, pEnd, qEnd);
      && input[p..p + n] == input[q..q + n]
      && (p + n < pEnd && q + n < qEnd ==> input[p + n] != input[q + n])
    decreases pEnd - p
  {
    var n := Agree(input, p, q, pEnd, qEnd);
    if n > 0 {
      AgreeMatches(input, p + 1, q + 1, pEnd, qEnd);
      assert input[p..p + n] == [input[p]] + input[p + 1..p + n];
      assert input[q..q + n] == [input[q]] + input[q + 1..q + n];
    }
  }

  /** Where the look-ahead buffer ends: 8 characters on, or the end of the input. */
  function LookAheadEnd(input: string, index: nat): (e: nat)
    requires index <= |input|
    ensures index <= e <= |input| && e - index <= LookAheadBufferSize
  {
    if |input| - index < LookAheadBufferSize then |input| else index + LookAheadBufferSize
  }

  /**
   * The inner `while` loop at buffer position `i`: the match grows while the
   * input, the search buffer and the look-ahead buffer last and the
   * characters agree.
   */
  function MatchAt(input: string, index: nat, i: nat): (r: nat)
    requires index < |input| && i < SearchLength(index)
    ensures r <= LookAheadBufferSize && index + r <= |input| && i + r <= SearchLength(index)
  {
    Agree(input, index, SearchStart(index) + i, LookAheadEnd(input, index), index)
  }

  /** The text a match covers is the text at the matched buffer position. */
  lemma MatchAtMatches(input: string, index: nat, i: nat)
    requires index < |input| && i < SearchLength(index)
    ensures var r := MatchAt(input, index, i);
      input[index..index + r] == input[SearchStart(index) + i..SearchStart(index) + i + r]
  {
    AgreeMatches(input, index, SearchStart(index) + i, LookAheadEnd(input, index), index);
  }

  /**
   * The `for` loop over the first `k` positions of the search buffer: the
   * length and the position of the match kept, where a later match replaces
   * the kept one only when it is strictly longer.
   */
  function Longest(input: string, index: nat, k: nat): (best: (nat, nat))
    requires index < |input| && k <= SearchLength(index)
    ensures best.0 == 0 ==> best.1 == 0
    ensures best.0 > 0 ==> best.1 < k
    decreases index + k
  {
    if k == 0 then (0, 0)
    else
      var prev := Longest(input, index, k - 1);
      var m := MatchAt(input, index, k - 1);
      if prev.0 < m then (m, k - 1) else prev
  }

  /**
   * The match kept is a match at its position, no match is longer, and none
   * before it is as long: it is the first longest one, with the largest offset.
   */
  lemma {:induction false} LongestIsFirstLongest(input: string, index: nat, k: nat)
    requires index < |input| && k <= SearchLength(index)
    ensures var best := Longest(input, index, k);
      && (best.0 > 0 ==> MatchAt(input, index, best.1) == best.0)
      && (forall i :: 0 <= i < k ==> MatchAt(input, index, i) <= best.0)
      && (forall i :: 0 <= i < best.1 ==> MatchAt(input, index, i) < best.0)
    decreases index + k
  {
    if k > 0 {
      LongestIsFirstLongest(input, index, k - 1);
    }
  }

  /**
   * The token `compress` emits at `index`: the first longest match, given as
   * an offset back from `index` (0 when there is no match), and the character
   * after it.
   */
  function TokenAt(input: string, index: nat): Token
    requires index < |input|
  {
    var best := Longest(input, index, SearchLength(index));
    var offset := if best.0 > 0 then SearchLength(index) - best.1 else 0;
    Token(offset, best.0, if index + best.0 < |input| then input[index + best.0] else Nul)
  }

  /** A token's offset reaches into the search buffer and its length fits the look-ahead buffer and the input. */
  lemma TokenAtWellFormed(input: string, index: nat)
    requires index < |input|
    ensures var t := TokenAt(input, index);
      WellFormed(t) && t.offset <= index && index + t.length <= |input|
  {
    LongestIsFirstLongest(input, index, SearchLength(index));
  }

  /** A token's match lies in the text already parsed and repeats the text at `index`. */
  lemma TokenCopiesParsedText(input: string, index: nat)
    requires index < |input|
    ensures var t := TokenAt(input, index);
      && t.offset <= index && index + t.length <= |input|
      && input[index - t.offset..index - t.offset + t.length] == input[index..index + t.length]
  {
    TokenAtWellFormed(input, index);
    LongestIsFirstLongest(input, index, SearchLength(index));
    var best := Longest(input, index, SearchLength(index));
    if best.0 > 0 {
      MatchAtMatches(input, index, best.1);
    }
  }

  /**
   * The outer `while` loop from `index` on, after the tokens `done`: each
   * token moves past its match and its next character.
   */
  function TokensFrom(input: string, index: nat, done: seq<Token>): seq<Token>
    decreases |input| - index
  {
    if index >= |input| then done
    else
      var t := TokenAt(input, index);
      TokensFrom(input, index + t.length + 1, done + [t])
  }

  /** One pass of the outer loop. */
  lemma TokensFromStep(input: string, index: nat, done: seq<Token>, t: Token)
    requires index < |input| && t == TokenAt(input, index)
    ensures TokensFrom(input, index, done) == TokensFrom(input, index + t.length + 1, done + [t])
  {
  }

  /** Nothing is added past the end. */
  lemma TokensFromEnd(input: string, index: nat, done: seq<Token>)
    requires index >= |input|
    ensures TokensFrom(input, index, done) == done
  {
  }

  /** Everything `compress(input)` writes. */
  function Tokens(input: string): seq<Token>
  {
    TokensFrom(input, 0, [])
  }

  /** The loop keeps the tokens done and adds at most one per character left. */
  lemma {:induction false} TokensFromLength(input: string, index: nat, done: seq<Token>)
    ensures |done| <= |TokensFrom(input, index, done)|
    ensures index <= |input| ==> |TokensFrom(input, index, done)| <= |done| + |input| - index
    decreases |input| - index
  {
    if index < |input| {
      var t := TokenAt(input, index);
      TokenAtWellFormed(input, index);
      TokensFromStep(input, index, done, t);
      if index + t.length + 1 <= |input| {
        TokensFromLength(input, index + t.length + 1, done + [t]);
      } else {
        TokensFromEnd(input, index + t.length + 1, done + [t]);
      }
    } else {
      TokensFromEnd(input, index, done);
    }
  }

  /** `compress` writes at most one token per input character, the size of the array it allocates. */
  lemma TokensFit(input: string)
    ensures |Tokens(input)| <= |input|
  {
    TokensFromLength(input, 0, []);
  }

  /** Every token respects the buffer sizes. */
  lemma {:induction false} TokensWellFormed(input: string, index: nat, done: seq<Token>)
    requires forall k :: 0 <= k < |done| ==> WellFormed(done[k])
    ensures var ts := TokensFrom(input, index, done);
      forall k :: 0 <= k < |ts| ==> WellFormed(ts[k])
    decreases |input| - index
  {
    if index < |input| {
      var t := TokenAt(input, index);
      TokenAtWellFormed(input, index);
      TokensFromStep(input, index, done, t);
      TokensWellFormed(input, index + t.length + 1, done + [t]);
    } else {
      TokensFromEnd(input, index, done);
    }
  }

  /*
   * ---------------------------------------------------------------------
   * What `decompress` computes
   * ---------------------------------------------------------------------
   */

  /**
   * The copy loop: append `text[start]`, then the next character, `len`
   * times. Reading at `text.length()` gives the string's terminating `'\0'`;
   * reading before 0 or beyond it has no defined behaviour, and gives None.
   */
  function CopyFrom(text: string, start: int, len: nat): (r: Option<string>)
    ensures r.Some? ==> |r.value| == |text| + len && r.value[..|text|] == text
    decreases len
  {
    if len == 0 then Some(text)
    else if 0 <= start < |text| then CopyFrom(text + [text[start]], start + 1, len - 1)
    else if start == |text| then CopyFrom(text + [Nul], start + 1, len - 1)
    else None
  }

  /**
   * One pass of the token loop from the text and `pos`: copy when the offset
   * is positive (moving `pos` along), append the next character unless it is
   * `'\0'`, and move `pos` past it either way.
   */
  function Apply(t: Token, text: string, pos: int): Option<(string, int)>
  {
    var copied := if t.offset > 0 then CopyFrom(text, pos - t.offset, t.length) else Some(text);
    var moved := if t.offset > 0 then pos + t.length else pos;
    match copied
    case None => None
    case Some(s) => Some((if t.nextChar != Nul then s + [t.nextChar] else s, moved + 1))
  }

  /** The text and `pos` after the token loop has run over `tokens`, starting from "" and 0. */
  function DecodeState(tokens: seq<Token>): Option<(string, int)>
    decreases |tokens|
  {
    if tokens == [] then Some(("", 0))
    else
      match DecodeState(tokens[..|tokens| - 1])
      case None => None
      case Some(st) => Apply(tokens[|tokens| - 1], st.0, st.1)
  }

  /** `decompress` of a token sequence. */
  function Decode(tokens: seq<Token>): Option<string>
  {
    match DecodeState(tokens)
    case None => None
    case Some(st) => Some(st.0)
  }

  /** The text of a decoding state. */
  lemma DecodedText(tokens: seq<Token>, st: (string, int))
    requires DecodeState(tokens) == Some(st)
    ensures Decode(tokens) == Some(st.0)
  {
  }

  /** The token loop over one more token. */
  lemma DecodeSnoc(tokens: seq<Token>, t: Token)
    ensures DecodeState(tokens) == None ==> DecodeState(tokens + [t]) == None
    ensures DecodeState(tokens).Some? ==>
      DecodeState(tokens + [t]) == Apply(t, DecodeState(tokens).value.0, DecodeState(tokens).value.1)
  {
    assert (tokens + [t])[..|tokens|] == tokens;
  }

  /** Once a copy has failed, the token loop gives nothing whatever follows. */
  lemma {:induction false} FailureStays(tokens: seq<Token>, n: nat)
    requires n <= |tokens| && DecodeState(tokens[..n]) == None
    ensures DecodeState(tokens) == None
    decreases |tokens| - n
  {
    if n < |tokens| {
      DecodeSnoc(tokens[..n], tokens[n]);
      assert tokens[..n + 1] == tokens[..n] + [tokens[n]];
      FailureStays(tokens, n + 1);
    } else {
      assert tokens[..n] == tokens;
    }
  }

  /*
   * ---------------------------------------------------------------------
   * Round trip
   * ---------------------------------------------------------------------
   */

  /** Copying a match that lies wholly in the decoded text rebuilds the matched characters. */
  lemma {:induction false} CopyMatch(input: string, index: nat, offset: nat, len: nat, j: nat)
    requires index + len <= |input| && 1 <= offset <= index && len <= offset && j <= len
    requires input[index - offset..index - offset + len] == input[index..index + len]
    ensures CopyFrom(input[..index + j], index - offset + j, len - j) == Some(input[..index + len])
    decreases len - j
  {
    if j < len {
      var start := index - offset + j;
      assert input[start] == input[index - offset..index - offset + len][j];
      assert input[..index + j] + [input[..index + j][start]] == input[..index + j + 1];
      CopyMatch(input, index, offset, len, j + 1);
    } else {
      assert input[..index + j] == input[..index + len];
    }
  }

  /** The copy of the token at `index` rebuilds the text up to the end of its match. */
  lemma CopyOfToken(input: string, index: nat)
    requires index < |input|
    ensures var t := TokenAt(input, index);
      && index + t.length <= |input|
      && (if t.offset > 0 then CopyFrom(input[..index], index - t.offset, t.length) else Some(input[..index]))
        == Some(input[..index + t.length])
  {
    var t := TokenAt(input, index);
    TokenAtWellFormed(input, index);
    if t.length > 0 {
      TokenCopiesParsedText(input, index);
      CopyMatch(input, index, t.offset, t.length, 0);
    }
  }

  /** Applying the token at `index` to the first `index` characters gives the text up to its next character. */
  lemma ApplyToken(input: string, index: nat)
    requires NoNul(input) && index < |input|
    ensures var end := index + TokenAt(input, index).length;
      Apply(TokenAt(input, index), input[..index], index)
      == Some((if end < |input| then input[..end + 1] else input, end + 1))
  {
    var t := TokenAt(input, index);
    var end := index + t.length;
    CopyOfToken(input, index);
    TokenAtWellFormed(input, index);
    if end < |input| {
      assert t.nextChar == input[end] != Nul;
      assert input[..end] + [input[end]] == input[..end + 1];
    } else {
      assert t.nextChar == Nul;
      assert input[..end] == input;
    }
  }

  /**
   * One pass of the outer loop of `compress` and of the token loop of
   * `decompress`: the token emitted at `index` moves both to `next`, where the
   * decoded text is the input up to `next`.
   */
  lemma DecodeOneToken(input: string, index: nat, done: seq<Token>) returns (t: Token, next: nat)
    requires NoNul(input) && index < |input|
    requires DecodeState(done) == Some((input[..index], index))
    ensures index < next <= |input| + 1
    ensures TokensFrom(input, index, done) == TokensFrom(input, next, done + [t])
    ensures DecodeState(done + [t]) == Some((if next <= |input| then input[..next] else input, next))
  {
    t := TokenAt(input, index);
    next := index + t.length + 1;
    TokenAtWellFormed(input, index);
    TokensFromStep(input, index, done, t);
    DecodeSnoc(done, t);
    ApplyToken(input, index);
  }

  /**
   * Once the tokens `done` decode to the first `index` characters, the tokens
   * `compress` adds from `index` on decode to the whole input.
   */
  lemma {:induction false} DecodeTokensFrom(input: string, index: nat, done: seq<Token>)
    requires NoNul(input) && index <= |input|
    requires DecodeState(done) == Some((input[..index], index))
    ensures Decode(TokensFrom(input, index, done)) == Some(input)
    decreases |input| - index
  {
    if index == |input| {
      TokensFromEnd(input, index, done);
      assert input[..index] == input;
      DecodedText(done, (input, index));
    } else {
      var t, next := DecodeOneToken(input, index, done);
      if next <= |input| {
        DecodeTokensFrom(input, next, done + [t]);
      } else {
        TokensFromEnd(input, next, done + [t]);
        DecodedText(done + [t], (input, next));
      }
    }
  }

  /** `decompress(compress(s)) == s` for every text without a `'\0'` character. */
  lemma DecodeTokens(input: string)
    requires NoNul(input)
    ensures Decode(Tokens(input)) == Some(input)
  {
    assert input[..0] == "";
    DecodeTokensFrom(input, 0, []);
  }

  /** A `'\0'` in the text is taken for "no next character" and lost. */
  lemma NulIsDropped()
    ensures Decode(Tokens([Nul])) == Some([])
  {
    var t := TokenAt([Nul], 0);
    assert SearchLength(0) == 0 && Longest([Nul], 0, 0) == (0, 0);
    assert t == Token(0, 0, Nul);
    TokensFromStep([Nul], 0, [], t);
    assert [] + [t] == [t];
    TokensFromEnd([Nul], 1, [t]);
    DecodeSnoc([], t);
  }

  /** Two distinct characters give two tokens: as many as there are characters. */
  lemma SecondCompressOverruns()
    ensures |Tokens("ab")| == 2 && |Tokens("ab")| + |Tokens("ab")| > |"ab"|
  {
    var t0 := TokenAt("ab", 0);
    assert t0 == Token(0, 0, 'a');
    assert SearchLength(1) == 1;
    assert MatchAt("ab", 1, 0) == 0;
    var t1 := TokenAt("ab", 1);
    assert t1 == Token(0, 0, 'b');
    assert Tokens("ab") == TokensFrom("ab", 1, [t0]) == TokensFrom("ab", 2, [t0, t1]) == [t0, t1];
  }

  /*
   * ---------------------------------------------------------------------
   * The loops of `compress`
   * ---------------------------------------------------------------------
   */

  /** The inner `while` loop at buffer position `i`, run when the first characters agree. */
  method ExtendMatch(input: string, index: nat, searchBuffer: string, i: nat) returns (matchLength: nat)
    requires index < |input| && i < SearchLength(index)
    requires searchBuffer == input[SearchStart(index)..index]
    ensures matchLength == MatchAt(input, index, i)
  {
    ghost var start := SearchStart(index);
    ghost var pEnd := LookAheadEnd(input, index);
    matchLength := 0;
    if input[index] == searchBuffer[i] {
      while index + matchLength < |input| && i + matchLength < |searchBuffer|
            && matchLength < LookAheadBufferSize
            && input[index + matchLength] == searchBuffer[i + matchLength]
        invariant index + matchLength <= pEnd && i + matchLength <= |searchBuffer|
        invariant matchLength + Agree(input, index + matchLength, start + i + matchLength, pEnd, index)
          == Agree(input, index, start + i, pEnd, index)
        decreases LookAheadBufferSize - matchLength
      {
        matchLength := matchLength + 1;
      }
    }
  }

  /** Writing one more token after the ones written keeps them and appends it. */
  lemma WriteToken(before: seq<Token>, after: seq<Token>, first: nat, counter: nat, emitted: seq<Token>, t: Token)
    requires first <= counter < |before| && before[first..counter] == emitted
    requires after == before[counter := t]
    ensures after[first..counter + 1] == emitted + [t]
  {
    assert after[first..counter + 1] == before[first..counter] + [t];
  }

  /**
   * The `for` loop over the search buffer: the length of the first longest
   * match and its offset back from `index`.
   */
  method LongestMatch(input: string, index: nat) returns (tokenLength: nat, tokenOffset: nat)
    requires index < |input|
    ensures var best := Longest(input, index, SearchLength(index));
      tokenLength == best.0 && tokenOffset == if best.0 > 0 then SearchLength(index) - best.1 else 0
  {
    var start := if index - SearchBufferSize <= 0 then 0 else index - SearchBufferSize;
    var bufferLength := if start == 0 then index else SearchBufferSize;
    assert start == SearchStart(index) && bufferLength == SearchLength(index);
    var searchBuffer := input[start..start + bufferLength];
    tokenOffset := 0;
    tokenLength := 0;
    var i := 0;
    while i < bufferLength
      invariant i <= bufferLength
      invariant var best := Longest(input, index, i);
        tokenLength == best.0 && tokenOffset == if best.0 > 0 then bufferLength - best.1 else 0
    {
      var matchLength := ExtendMatch(input, index, searchBuffer, i);
      if tokenLength < matchLength {
        tokenLength := matchLength;
        tokenOffset := index - (start + i);
      }
      i := i + 1;
    }
  }

  /** One pass of the outer `while` loop up to the token it builds. */
  method NextToken(input: string, index: nat) returns (token: Token)
    requires index < |input|
    ensures token == TokenAt(input, index)
  {
    var tokenLength, tokenOffset := LongestMatch(input, index);
    var nextChar := if index + tokenLength < |input| then input[index + tokenLength] else Nul;
    token := Token(tokenOffset, tokenLength, nextChar);
  }

  /**
   * The copy loop of `decompress` for one token: append `text[start]` and
   * move `start` on, `len` times. None stands for a read outside the text.
   */
  method CopyLoop(text: string, start: int, len: nat) returns (r: Option<string>)
    ensures r == CopyFrom(text, start, len)
  {
    var out := text;
    var from := start;
    var left := len;
    while left > 0
      invariant 0 <= left <= len
      invariant CopyFrom(text, start, len) == CopyFrom(out, from, left)
    {
      if 0 <= from < |out| {
        out := out + [out[from]];
      } else if from == |out| {
        out := out + [Nul];
      } else {
        return None;
      }
      from := from + 1;
      left := left - 1;
    }
    r := Some(out);
  }

  /*
   * ---------------------------------------------------------------------
   * The program state: the global token counter
   * ---------------------------------------------------------------------
   */

  /** The global `counter`, shared by `compress` and `decompress`. */
  class Codec {
    var counter: nat

    /** `int counter = 0;` at program start. */
    constructor()
      ensures counter == 0
    {
      counter := 0;
    }

    /**
     * `compress`. It writes its tokens at `output[counter]` onwards in an
     * array as long as the input, so the counter it finds plus the number of
     * tokens must fit in that array.
     */
    method Compress(input: string) returns (output: array<Token>)
      requires counter + |Tokens(input)| <= |input|
      modifies this
      ensures fresh(output) && output.Length == |input|
      ensures counter == old(counter) + |Tokens(input)|
      ensures output[old(counter)..counter] == Tokens(input)
    {
      output := new Token[|input|](_ => Token(0, 0, Nul));
      ghost var first := counter;
      ghost var all := Tokens(input);
      ghost var emitted: seq<Token> := [];
      var c := counter;
      var index: nat := 0;
      while index < |input|
        invariant TokensFrom(input, index, emitted) == all
        invariant c == first + |emitted| && |emitted| <= |all|
        invariant first + |all| <= output.Length
        invariant output[first..c] == emitted
        decreases |input| - index
      {
        var token := NextToken(input, index);
        TokensFromStep(input, index, emitted, token);
        TokenAtWellFormed(input, index);
        TokensFromLength(input, index + token.length + 1, emitted + [token]);
        ghost var before := output[..];
        output[c] := token;
        WriteToken(before, output[..], first, c, emitted, token);
        c := c + 1;
        index := index + token.length + 1;
        emitted := emitted + [token];
      }
      counter := c;
      TokensFromEnd(input, index, emitted);
    }

    /**
     * `decompress`: decode the first `counter` tokens of `compressed`. None
     * stands for a copy that reads outside the text, which the source does
     * not guard against.
     */
    method Decompress(compressed: array<Token>) returns (r: Option<string>)
      requires counter <= compressed.Length
      ensures r == Decode(compressed[..counter])
    {
      var text: string := "";
      var pos: int := 0;
      var i := 0;
      while i < counter
        invariant 0 <= i <= counter
        invariant DecodeState(compressed[..i]) == Some((text, pos))
      {
        var t := compressed[i];
        assert compressed[..i + 1] == compressed[..i] + [t];
        DecodeSnoc(compressed[..i], t);
        if t.offset > 0 {
          var copied := CopyLoop(text, pos - t.offset, t.length);
          if copied.None? {
            assert compressed[..counter][..i + 1] == compressed[..i + 1];
            FailureStays(compressed[..counter], i + 1);
            return None;
          }
          text := copied.value;
          pos := pos + t.length;
        }
        if t.nextChar != Nul {
          text := text + [t.nextChar];
        }
        pos := pos + 1;
        i := i + 1;
      }
      assert compressed[..i] == compressed[..counter];
      r := Some(text);
    }

    /**
     * `compress` with the counter set back to 0 first, so that every call
     * writes its tokens from the start of its own array.
     */
    method CompressFromStart(input: string) returns (output: array<Token>)
      modifies this
      ensures fresh(output) && output.Length == |input|
      ensures counter == |Tokens(input)| <= |input|
      ensures output[..counter] == Tokens(input)
    {
      counter := 0;
      TokensFit(input);
      output := Compress(input);
    }

    /** `main`: compress a text with the counter at its initial 0, and decompress the tokens. */
    method CompressThenDecompress(input: string) returns (r: Option<string>)
      requires counter == 0 && NoNul(input)
      modifies this
      ensures r == Some(input)
    {
      TokensFit(input);
      var compressed := Compress(input);
      r := Decompress(compressed);
      DecodeTokens(input);
    }
  }

  /**
   * Two calls of `compress("ab")` on one program state: after the first,
   * the counter is 2, so the second call's tokens no longer fit its
   * 2-token array (the requires of `Compress` fails).
   */
  method CompressTwice() returns (counterAfterFirst: nat)
    ensures counterAfterFirst == 2
    ensures !(counterAfterFirst + |Tokens("ab")| <= |"ab"|)
  {
    var codec := new Codec();
    SecondCompressOverruns();
    var first := codec.Compress("ab");
    counterAfterFirst := codec.counter;
  }
}
