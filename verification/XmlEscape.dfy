/** `xml_escape_text` of scripts/translation/ts_utils.py, against reading character data with the
    predefined entities (section 4.6 of XML 1.0). */
module XmlEscape {
  import opened Bytes
  import opened Wrappers

  /** Python: `text.replace(c, put)` for a single character. */
  function ReplaceChar(text: string, c: char, put: string): string {
    if text == [] then [] else (if text[0] == c then put else [text[0]]) + ReplaceChar(text[1..], c, put)
  }

  function Escape(text: string): string {
    ReplaceChar(ReplaceChar(ReplaceChar(text, '&', "&amp;"), '<', "&lt;"), '>', "&gt;")
  }

  /** Character data as a reader takes it: None where markup starts or a reference is not one of these. */
  function Unescape(data: string): Option<string> {
    if data == [] then Some([])
    else
      var (c, n) :=
        if "&amp;" <= data then ("&", 5)
        else if "&lt;" <= data then ("<", 4)
        else if "&gt;" <= data then (">", 4)
        else if data[0] == '&' || data[0] == '<' then ("", 1)
        else (data[..1], 1);
      if c == "" then None
      else
        match Unescape(data[n..])
        case None => None
        case Some(rest) => Some(c + rest)
  }

  function EscapeChar(c: char): string {
    if c == '&' then "&amp;" else if c == '<' then "&lt;" else if c == '>' then "&gt;" else [c]
  }

  lemma {:induction false} ReplaceAppend(a: string, b: string, c: char, put: string)
    ensures ReplaceChar(a + b, c, put) == ReplaceChar(a, c, put) + ReplaceChar(b, c, put)
  {
    if a == [] {
      assert a + b == b;
    } else {
      ReplaceAppend(a[1..], b, c, put);
      assert (a + b)[1..] == a[1..] + b;
      var first := if a[0] == c then put else [a[0]];
      Associate(first, ReplaceChar(a[1..], c, put), ReplaceChar(b, c, put));
    }
  }

  lemma {:induction false} ReplaceNone(text: string, c: char, put: string)
    requires c !in text
    ensures ReplaceChar(text, c, put) == text
  {
    if text != [] {
      ReplaceNone(text[1..], c, put);
    }
  }

  lemma ReplaceOne(c: char, d: char, put: string)
    ensures ReplaceChar([d], c, put) == if d == c then put else [d]
  {
    assert [d][1..] == [];
  }

  lemma EscapeOne(c: char)
    ensures Escape([c]) == EscapeChar(c)
  {
    hide ReplaceChar;
    ReplaceOne('&', c, "&amp;");
    ReplaceOne('<', c, "&lt;");
    ReplaceOne('>', c, "&gt;");
    if c == '&' {
      ReplaceNone("&amp;", '<', "&lt;");
      ReplaceNone("&amp;", '>', "&gt;");
    } else if c == '<' {
      ReplaceNone("&lt;", '>', "&gt;");
    }
  }

  /** Three passes over the text are one pass over its characters: no pass touches what an earlier one
      has put in. */
  lemma EscapeCons(c: char, rest: string)
    ensures Escape([c] + rest) == EscapeChar(c) + Escape(rest)
  {
    hide ReplaceChar;
    hide EscapeChar;
    var one := ReplaceChar([c], '&', "&amp;");
    var more := ReplaceChar(rest, '&', "&amp;");
    ReplaceAppend([c], rest, '&', "&amp;");
    ReplaceAppend(one, more, '<', "&lt;");
    ReplaceAppend(ReplaceChar(one, '<', "&lt;"), ReplaceChar(more, '<', "&lt;"), '>', "&gt;");
    EscapeOne(c);
  }

  lemma UnescapeEntity(c: char, data: string)
    ensures Unescape(EscapeChar(c) + data) ==
            match Unescape(data) case None => None case Some(rest) => Some([c] + rest)
  {
    var all := EscapeChar(c) + data;
    assert all[|EscapeChar(c)|..] == data;
    if c == '&' {
      assert all[..5] == "&amp;";
    } else if c == '<' {
      assert all[..4] == "&lt;" && all[1] == 'l';
    } else if c == '>' {
      assert all[..4] == "&gt;" && all[1] == 'g';
    } else {
      assert all[0] == c && all[..1] == [c];
    }
  }

  /** What is escaped reads back as it was. */
  lemma {:induction false} UnescapeEscape(text: string)
    ensures Unescape(Escape(text)) == Some(text)
  {
    hide Unescape;
    hide EscapeChar;
    if text == [] {
      NothingRead();
    } else {
      UnescapeEscape(text[1..]);
      EscapeCons(text[0], text[1..]);
      assert [text[0]] + text[1..] == text;
      UnescapeEntity(text[0], Escape(text[1..]));
    }
  }

  lemma NothingRead()
    ensures Escape("") == "" && Unescape("") == Some("")
  {
  }

  /** Nothing escaped can be taken for markup: it holds no angle bracket. */
  lemma {:induction false} EscapedIsData(text: string)
    ensures '<' !in Escape(text) && '>' !in Escape(text)
  {
    if text != [] {
      EscapedIsData(text[1..]);
      EscapeCons(text[0], text[1..]);
      assert [text[0]] + text[1..] == text;
      hide Escape;
      var first := EscapeChar(text[0]);
      assert '<' !in first && '>' !in first;
    }
  }
}
