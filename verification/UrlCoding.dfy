/** Path::URLEncode and Path::URLDecode of src/common/file_system.cpp: the percent-coding of RFC 3986,
    sections 2.1 and 2.3, over bytes. */
module UrlCoding {
  import opened Bytes

  const PERCENT: byte := 0x25

  /** The unreserved characters of RFC 3986, section 2.3. */
  predicate IsUnreserved(c: byte) {
    || '0' as int <= c <= '9' as int
    || 'a' as int <= c <= 'z' as int
    || 'A' as int <= c <= 'Z' as int
    || c == '-' as int || c == '_' as int || c == '.' as int || c == '~' as int
  }

  function HexDigit(n: nat): (c: byte)
    requires n < 16
  {
    if n >= 10 then 'A' as int + (n - 10) else '0' as int + n
  }

  /** The value of a hexadecimal digit of either case, or -1. */
  function Nibble(c: byte): (n: int)
    ensures -1 <= n < 16
  {
    if '0' as int <= c <= '9' as int then c - '0' as int
    else if 'a' as int <= c <= 'f' as int then c - 'a' as int + 10
    else if 'A' as int <= c <= 'F' as int then c - 'A' as int + 10
    else -1
  }

  // ---------------------------------------------------------------- the grammar of encoded text

  /** One unit of percent-coded text: a byte other than '%', or a complete escape. */
  datatype Token = Plain(c: byte) | Escape(upper: byte, lower: byte)
  {
    predicate Valid() {
      match this
      case Plain(c) => c != PERCENT
      case Escape(u, l) => Nibble(u) >= 0 && Nibble(l) >= 0
    }

    function Text(): seq<byte> {
      match this
      case Plain(c) => [c]
      case Escape(u, l) => [PERCENT, u, l]
    }

    function Meaning(): byte
      requires Valid()
    {
      match this
      case Plain(c) => c
      case Escape(u, l) => 16 * Nibble(u) + Nibble(l)
    }
  }

  ghost predicate AllValid(tokens: seq<Token>) {
    forall t | t in tokens :: t.Valid()
  }

  function TextOf(tokens: seq<Token>): seq<byte> {
    if tokens == [] then [] else tokens[0].Text() + TextOf(tokens[1..])
  }

  function MeaningOf(tokens: seq<Token>): seq<byte>
    requires AllValid(tokens)
  {
    if tokens == [] then []
    else
      assert tokens[0] in tokens;
      [tokens[0].Meaning()] + MeaningOf(tokens[1..])
  }

  // ---------------------------------------------------------------- the two loops

  function EncodeByte(c: byte): seq<byte> {
    if IsUnreserved(c) then [c] else [PERCENT, HexDigit(c / 16), HexDigit(c % 16)]
  }

  function Encoded(text: seq<byte>): seq<byte> {
    if text == [] then [] else EncodeByte(text[0]) + Encoded(text[1..])
  }

  lemma EncodedStep(text: seq<byte>, i: nat)
    requires i < |text|
    ensures Encoded(text[i..]) == EncodeByte(text[i]) + Encoded(text[i + 1..])
  {
    assert text[i..][1..] == text[i + 1..];
  }

  method URLEncode(text: seq<byte>) returns (result: seq<byte>)
    ensures result == Encoded(text)
  {
    hide IsUnreserved;
    hide Encoded;
    result := [];
    var i := 0;
    assert [] + Encoded(text[0..]) == Encoded(text) by { assert text[0..] == text; }
    while i < |text|
      invariant 0 <= i <= |text| && result + Encoded(text[i..]) == Encoded(text)
    {
      var c := text[i];
      ghost var before := result;
      EncodedStep(text, i);
      Associate(before, EncodeByte(c), Encoded(text[i + 1..]));
      if IsUnreserved(c) {
        result := result + [c];
      } else {
        var n1, n2 := c / 16, c % 16;
        result := result + [PERCENT];
        result := result + [if n1 >= 10 then 'A' as int + (n1 - 10) else '0' as int + n1];
        result := result + [if n2 >= 10 then 'A' as int + (n2 - 10) else '0' as int + n2];
      }
      assert result == before + EncodeByte(c);
      i := i + 1;
    }
    EncodedNothing();
    assert text[i..] == [] && result + [] == result;
  }

  lemma EncodedNothing()
    ensures Encoded([]) == [] && Decoded([]) == []
  {
  }

  /** The result of the decoding loop, which gives up at the first broken escape. */
  function Decoded(text: seq<byte>): seq<byte> {
    if text == [] then []
    else if text[0] == PERCENT then
      if |text| < 3 || Nibble(text[1]) < 0 || Nibble(text[2]) < 0 then []
      else [16 * Nibble(text[1]) + Nibble(text[2])] + Decoded(text[3..])
    else [text[0]] + Decoded(text[1..])
  }

  lemma DecodedStep(text: seq<byte>, i: nat)
    requires i < |text|
    ensures text[i] != PERCENT ==> Decoded(text[i..]) == [text[i]] + Decoded(text[i + 1..])
    ensures text[i] == PERCENT ==>
              if i + 3 > |text| || Nibble(text[i + 1]) < 0 || Nibble(text[i + 2]) < 0 then Decoded(text[i..]) == []
              else Decoded(text[i..]) == [16 * Nibble(text[i + 1]) + Nibble(text[i + 2])] + Decoded(text[i + 3..])
  {
    assert text[i..][1..] == text[i + 1..];
    assert i + 3 <= |text| ==> text[i..][3..] == text[i + 3..];
  }

  /** `lower | (upper << 4)` of the original is negative exactly if one of the two is. */
  method URLDecode(text: seq<byte>) returns (result: seq<byte>)
    ensures result == Decoded(text)
  {
    hide Nibble;
    hide Decoded;
    EncodedNothing();
    result := [];
    var i := 0;
    assert [] + Decoded(text[0..]) == Decoded(text) by { assert text[0..] == text; }
    while i < |text|
      invariant 0 <= i <= |text| && result + Decoded(text[i..]) == Decoded(text)
    {
      DecodedStep(text, i);
      ghost var before, start := result, i;
      var c := text[i];
      i := i + 1;
      if c == PERCENT {
        if i + 2 > |text| {
          assert result + [] == result;
          return;
        }
        var upper := Nibble(text[i]);
        i := i + 1;
        var lower := Nibble(text[i]);
        i := i + 1;
        var dch := if upper < 0 || lower < 0 then -1 else lower + 16 * upper;
        if dch < 0 {
          assert result + [] == result;
          return;
        }
        result := result + [dch];
        Associate(before, [dch], Decoded(text[i..]));
      } else {
        result := result + [c];
        Associate(before, [c], Decoded(text[i..]));
      }
    }
    assert text[i..] == [] && result + [] == result;
  }

  // ---------------------------------------------------------------- what they mean

  function EncodingToken(c: byte): (t: Token)
    ensures t.Valid() && t.Meaning() == c && t.Text() == EncodeByte(c)
  {
    if IsUnreserved(c) then Plain(c) else Escape(HexDigit(c / 16), HexDigit(c % 16))
  }

  /** The encoding is valid percent-coded text whose meaning is the bytes encoded: one unit a byte. */
  lemma {:induction false} EncodedIsText(text: seq<byte>)
    ensures var tokens := seq(|text|, k requires 0 <= k < |text| => EncodingToken(text[k]));
            AllValid(tokens) && TextOf(tokens) == Encoded(text) && MeaningOf(tokens) == text
  {
    var tokens := seq(|text|, k requires 0 <= k < |text| => EncodingToken(text[k]));
    if text != [] {
      EncodedIsText(text[1..]);
      var more := seq(|text[1..]|, k requires 0 <= k < |text[1..]| => EncodingToken(text[1..][k]));
      assert tokens[1..] == more;
    }
  }

  /** Only unreserved characters, '%' and upper-case hexadecimal digits are ever written. */
  lemma {:induction false} EncodedAlphabet(text: seq<byte>)
    ensures forall c | c in Encoded(text) ::
              IsUnreserved(c) || c == PERCENT || '0' as int <= c <= '9' as int || 'A' as int <= c <= 'F' as int
  {
    if text != [] {
      EncodedAlphabet(text[1..]);
    }
  }

  lemma DecodedToken(token: Token, rest: seq<byte>)
    requires token.Valid()
    ensures Decoded(token.Text() + rest) == [token.Meaning()] + Decoded(rest)
  {
    var text := token.Text();
    assert (text + rest)[|text|..] == rest;
  }

  lemma {:induction false} DecodedText(tokens: seq<Token>, after: seq<byte>)
    requires AllValid(tokens)
    ensures Decoded(TextOf(tokens) + after) == MeaningOf(tokens) + Decoded(after)
  {
    hide Nibble;
    if tokens == [] {
      assert TextOf(tokens) + after == after;
    } else {
      assert tokens[0] in tokens;
      var rest := TextOf(tokens[1..]) + after;
      Associate(tokens[0].Text(), TextOf(tokens[1..]), after);
      DecodedToken(tokens[0], rest);
      DecodedText(tokens[1..], after);
      Associate([tokens[0].Meaning()], MeaningOf(tokens[1..]), Decoded(after));
    }
  }

  /** Decoding undoes encoding, for every byte string. */
  lemma {:induction false} DecodedEncoded(text: seq<byte>)
    ensures Decoded(Encoded(text)) == text
  {
    var tokens := seq(|text|, k requires 0 <= k < |text| => EncodingToken(text[k]));
    EncodedIsText(text);
    DecodedText(tokens, []);
    assert TextOf(tokens) + [] == TextOf(tokens);
  }

  /** The first unit of a text, if it starts with one. */
  function FrontTokens(text: seq<byte>): (tokens: seq<Token>)
    ensures AllValid(tokens) && |tokens| <= 1 && (tokens != [] ==> tokens[0].Text() <= text)
  {
    if text == [] || (text[0] == PERCENT && (|text| < 3 || Nibble(text[1]) < 0 || Nibble(text[2]) < 0)) then []
    else if text[0] == PERCENT then
      assert text == [PERCENT, text[1], text[2]] + text[3..];
      [Escape(text[1], text[2])]
    else [Plain(text[0])]
  }

  /** As many units as can be read off the front of a text. */
  function Tokens(text: seq<byte>): (tokens: seq<Token>)
    ensures AllValid(tokens)
    decreases |text|
  {
    var front := FrontTokens(text);
    if front == [] then [] else front + Tokens(text[|front[0].Text()|..])
  }

  lemma FrontOfToken(token: Token, text: seq<byte>)
    requires token.Valid() && token.Text() <= text
    ensures FrontTokens(text) == [token]
  {
    hide Nibble;
    var unit := token.Text();
    assert text[..|unit|] == unit;
    assert forall i :: 0 <= i < |unit| ==> text[i] == unit[i];
  }

  lemma TextOfIs(tokens: seq<Token>)
    requires AllValid(tokens) && tokens != []
    ensures tokens[0].Valid() && AllValid(tokens[1..])
    ensures TextOf(tokens) == tokens[0].Text() + TextOf(tokens[1..])
    ensures MeaningOf(tokens) == [tokens[0].Meaning()] + MeaningOf(tokens[1..])
  {
    hide Nibble;
    assert tokens[0] in tokens;
  }

  lemma PrefixParts(a: seq<byte>, b: seq<byte>, text: seq<byte>)
    ensures a + b <= text <==> a <= text && b <= text[|a|..]
  {
    if a <= text {
      assert text == a + text[|a|..];
    }
  }

  /** A valid unit at the front is the only one possible. */
  lemma FirstToken(tokens: seq<Token>, text: seq<byte>)
    requires AllValid(tokens) && tokens != [] && TextOf(tokens) <= text
    ensures FrontTokens(text) == [tokens[0]]
    ensures |tokens[0].Text()| <= |text|
    ensures AllValid(tokens[1..]) && TextOf(tokens[1..]) <= text[|tokens[0].Text()|..]
  {
    hide Nibble;
    hide TextOf;
    hide FrontTokens;
    TextOfIs(tokens);
    PrefixParts(tokens[0].Text(), TextOf(tokens[1..]), text);
    FrontOfToken(tokens[0], text);
  }

  lemma TokensAre(text: seq<byte>)
    ensures var front := FrontTokens(text);
            if front == [] then Tokens(text) == []
            else
              && Tokens(text) != [] && Tokens(text)[0] == front[0]
              && Tokens(text)[1..] == Tokens(text[|front[0].Text()|..])
  {
    hide Nibble;
    hide FrontTokens;
  }

  lemma DecodedFront(text: seq<byte>)
    ensures FrontTokens(text) == [] ==> Decoded(text) == []
    ensures FrontTokens(text) != [] ==> FrontTokens(text)[0].Valid()
  {
    hide Nibble;
    if FrontTokens(text) != [] {
      assert FrontTokens(text)[0] in FrontTokens(text);
    }
  }

  lemma NoTokens()
    ensures TextOf([]) == [] && MeaningOf([]) == []
  {
  }

  /** On arbitrary input, decoding gives the meaning of a prefix that is valid percent-coded text. */
  lemma {:induction false} DecodedIsPrefix(text: seq<byte>)
    ensures TextOf(Tokens(text)) <= text && MeaningOf(Tokens(text)) == Decoded(text)
    decreases |text|
  {
    hide Nibble;
    hide Decoded;
    hide FrontTokens;
    hide Tokens;
    hide TextOf;
    hide MeaningOf;
    var front := FrontTokens(text);
    TokensAre(text);
    DecodedFront(text);
    if front == [] {
      NoTokens();
    } else {
      var n := |front[0].Text()|;
      DecodedIsPrefix(text[n..]);
      TextOfIs(Tokens(text));
      assert text == front[0].Text() + text[n..];
      PrefixParts(front[0].Text(), TextOf(Tokens(text[n..])), text);
      DecodedToken(front[0], text[n..]);
    }
  }

  /** That prefix is the longest: every valid text that the input starts with is a prefix of it. */
  lemma {:induction false} PrefixIsLongest(text: seq<byte>, others: seq<Token>)
    requires AllValid(others) && TextOf(others) <= text
    ensures TextOf(others) <= TextOf(Tokens(text))
    decreases |text|
  {
    hide Nibble;
    hide FrontTokens;
    hide Tokens;
    hide TextOf;
    if others == [] {
      NoTokens();
    } else {
      FirstToken(others, text);
      var n := |others[0].Text()|;
      PrefixIsLongest(text[n..], others[1..]);
      TokensAre(text);
      TextOfIs(Tokens(text));
      TextOfIs(others);
      PrefixBehind(others[0].Text(), TextOf(others[1..]), TextOf(Tokens(text[n..])));
    }
  }

  lemma PrefixBehind(front: seq<byte>, a: seq<byte>, b: seq<byte>)
    requires a <= b
    ensures front + a <= front + b
  {
    assert (front + b)[..|front + a|] == front + a;
  }
}
