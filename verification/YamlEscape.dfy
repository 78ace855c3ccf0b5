/**
 * Escaping a value for a double-quoted YAML scalar by five global replaces in a row, which must
 * act as one character-by-character substitution (sections 5.7 and 7.3.1 of YAML 1.2).
 */
module YamlEscape {
  import opened Text

  /** `s.replace(c, put)` for a single character. */
  function Replace(s: string, c: char, put: string): string
  {
    if s == "" then "" else (if s[0] == c then put else [s[0]]) + Replace(s[1..], c, put)
  }

  /** The five replaces, in order: backslash first. */
  function Escape(s: string): string
  {
    Replace(Replace(Replace(Replace(Replace(s, '\\', "\\\\"), '"', "\\\""), '\n', "\\n"), '\r', "\\r"), '\t', "\\t")
  }

  function EscapeChar(c: char): string
  {
    if c == '\\' then "\\\\"
    else if c == '"' then "\\\""
    else if c == '\n' then "\\n"
    else if c == '\r' then "\\r"
    else if c == '\t' then "\\t"
    else [c]
  }

  function EscapeEach(s: string): string
  {
    if s == "" then "" else EscapeChar(s[0]) + EscapeEach(s[1..])
  }

  lemma {:induction false} ReplaceConcat(a: string, b: string, c: char, put: string)
    ensures Replace(a + b, c, put) == Replace(a, c, put) + Replace(b, c, put)
  {
    if a == "" {
      assert a + b == b;
    } else {
      assert (a + b)[1..] == a[1..] + b;
      ReplaceConcat(a[1..], b, c, put);
    }
  }

  lemma ReplaceOne(x: char, c: char, put: string)
    ensures Replace([x], c, put) == if x == c then put else [x]
  {
    assert [x][1..] == "";
  }

  lemma ReplaceTwo(x: char, y: char, c: char, put: string)
    requires x != c && y != c
    ensures Replace([x, y], c, put) == [x, y]
  {
    assert [x, y][1..] == [y];
    ReplaceOne(y, c, put);
  }

  /** The four replaces after the first, on a piece of its output. */
  function Later(s: string): string
  {
    Replace(Replace(Replace(Replace(s, '"', "\\\""), '\n', "\\n"), '\r', "\\r"), '\t', "\\t")
  }

  lemma LaterConcat(a: string, b: string)
    ensures Later(a + b) == Later(a) + Later(b)
  {
    ReplaceConcat(a, b, '"', "\\\"");
    var a1, b1 := Replace(a, '"', "\\\""), Replace(b, '"', "\\\"");
    ReplaceConcat(a1, b1, '\n', "\\n");
    var a2, b2 := Replace(a1, '\n', "\\n"), Replace(b1, '\n', "\\n");
    ReplaceConcat(a2, b2, '\r', "\\r");
    ReplaceConcat(Replace(a2, '\r', "\\r"), Replace(b2, '\r', "\\r"), '\t', "\\t");
  }

  lemma LaterPair(y: char)
    requires y == '\\' || y == '"' || y == 'n' || y == 'r' || y == 't'
    ensures Replace(['\\', y], '\n', "\\n") == ['\\', y]
    ensures Replace(['\\', y], '\r', "\\r") == ['\\', y]
    ensures Replace(['\\', y], '\t', "\\t") == ['\\', y]
  {
    ReplaceTwo('\\', y, '\n', "\\n");
    ReplaceTwo('\\', y, '\r', "\\r");
    ReplaceTwo('\\', y, '\t', "\\t");
  }

  lemma LaterChar(c: char)
    requires c != '\\'
    ensures Later([c]) == EscapeChar(c)
  {
    ReplaceOne(c, '"', "\\\"");
    ReplaceOne(c, '\n', "\\n");
    ReplaceOne(c, '\r', "\\r");
    ReplaceOne(c, '\t', "\\t");
    LaterPair('"');
    LaterPair('n');
    LaterPair('r');
  }

  lemma LaterBackslash()
    ensures Later("\\\\") == "\\\\"
  {
    ReplaceTwo('\\', '\\', '"', "\\\"");
    LaterPair('\\');
  }

  /** The five replaces are one substitution: none of them touches what another put in. */
  lemma {:induction false} EscapeIsCharMap(s: string)
    ensures Escape(s) == EscapeEach(s)
  {
    if s != "" {
      EscapeIsCharMap(s[1..]);
      var first := if s[0] == '\\' then "\\\\" else [s[0]];
      LaterConcat(first, Replace(s[1..], '\\', "\\\\"));
      if s[0] == '\\' {
        LaterBackslash();
      } else {
        LaterChar(s[0]);
      }
      assert Escape(s) == Later(Replace(s, '\\', "\\\\"));
      assert Escape(s[1..]) == Later(Replace(s[1..], '\\', "\\\\"));
    }
  }

  // --------------------------------------------------------------- decoding

  function Unescaped(c: char): Option<char>
  {
    if c == '\\' then Some('\\')
    else if c == '"' then Some('"')
    else if c == 'n' then Some('\n')
    else if c == 'r' then Some('\r')
    else if c == 't' then Some('\t')
    else None
  }

  /** Reading a double-quoted scalar's content: escapes decoded, quotes and bare control characters refused. */
  function Read(s: string): Option<string>
    decreases |s|
  {
    if s == "" then Some("")
    else if s[0] == '\\' then
      if |s| == 1 || Unescaped(s[1]).None? then None
      else
        var rest := Read(s[2..]);
        if rest.None? then None else Some([Unescaped(s[1]).value] + rest.value)
    else if s[0] == '"' || s[0] < ' ' then None
    else
      var rest := Read(s[1..]);
      if rest.None? then None else Some([s[0]] + rest.value)
  }

  /** A control character the escaper leaves as it is. */
  predicate Raw(c: char) { c < ' ' && c != '\n' && c != '\r' && c != '\t' }

  ghost predicate HasRaw(s: string) { exists i :: 0 <= i < |s| && Raw(s[i]) }

  lemma ReadFirst(c: char, rest: string)
    ensures Read(EscapeChar(c) + rest)
         == if Raw(c) || Read(rest).None? then None else Some([c] + Read(rest).value)
  {
    var s := EscapeChar(c) + rest;
    if |EscapeChar(c)| == 2 {
      assert s[2..] == rest;
    } else {
      assert s[1..] == rest;
    }
  }

  /** Reading an escaped value gives it back if and only if it holds no other control character; else it is refused. */
  lemma {:induction false} EscapeRoundTrip(s: string)
    ensures Read(Escape(s)) == if HasRaw(s) then None else Some(s)
  {
    EscapeIsCharMap(s);
    if s != "" {
      EscapeIsCharMap(s[1..]);
      EscapeRoundTrip(s[1..]);
      ReadFirst(s[0], EscapeEach(s[1..]));
      assert HasRaw(s) <==> Raw(s[0]) || HasRaw(s[1..]) by {
        if i :| 0 <= i < |s| && Raw(s[i]) {
          assert i > 0 ==> s[1..][i - 1] == s[i];
        }
        if i :| 0 <= i < |s[1..]| && Raw(s[1..][i]) {
          assert s[i + 1] == s[1..][i];
        }
      }
      assert s == [s[0]] + s[1..];
    }
  }

  /** Undoing the escapes alone, whatever else the text holds. */
  function Decode(s: string): string
    decreases |s|
  {
    if s == "" then ""
    else if |s| > 1 && s[0] == '\\' && Unescaped(s[1]).Some? then [Unescaped(s[1]).value] + Decode(s[2..])
    else [s[0]] + Decode(s[1..])
  }

  lemma DecodeFirst(c: char, rest: string)
    ensures Decode(EscapeChar(c) + rest) == [c] + Decode(rest)
  {
    var s := EscapeChar(c) + rest;
    if |EscapeChar(c)| == 2 {
      assert s[2..] == rest;
    } else {
      assert s[1..] == rest && s[0] == c;
    }
  }

  /** Decoding the escapes returns the original for every string, so escaping is injective. */
  lemma {:induction false} DecodeEscape(s: string)
    ensures Decode(Escape(s)) == s
  {
    EscapeIsCharMap(s);
    if s != "" {
      EscapeIsCharMap(s[1..]);
      DecodeEscape(s[1..]);
      DecodeFirst(s[0], EscapeEach(s[1..]));
      assert s == [s[0]] + s[1..];
    }
  }

  lemma EscapeInjective(a: string, b: string)
    requires Escape(a) == Escape(b)
    ensures a == b
  {
    DecodeEscape(a);
    DecodeEscape(b);
  }

  /** No line break or tab survives. */
  lemma {:induction false} NoBreaks(s: string)
    ensures '\n' !in Escape(s) && '\r' !in Escape(s) && '\t' !in Escape(s)
  {
    EscapeIsCharMap(s);
    if s != "" {
      EscapeIsCharMap(s[1..]);
      NoBreaks(s[1..]);
    }
  }

  /** Where a double-quoted scalar closes: its first quote that no backslash escapes. */
  function Closing(s: string): (n: Option<nat>)
    ensures n.Some? ==> n.value < |s| && s[n.value] == '"'
    decreases |s|
  {
    if s == "" then None
    else if s[0] == '"' then Some(0)
    else
      var step := if s[0] == '\\' && |s| > 1 then 2 else 1;
      var rest := Closing(s[step..]);
      if rest.None? then None else Some(step + rest.value)
  }

  function Shifted(k: nat, n: Option<nat>): Option<nat> { if n.None? then None else Some(k + n.value) }

  ghost predicate StaysOpen(put: string, rest: string) { Closing(put + rest) == Shifted(|put|, Closing(rest)) }

  /** A text that never closes the scalar it stands in, whatever follows it. */
  ghost predicate Sealed(put: string) { forall rest :: StaysOpen(put, rest) }

  lemma SealedChar(c: char)
    ensures Sealed(EscapeChar(c))
  {
    forall rest ensures StaysOpen(EscapeChar(c), rest) {
      if |EscapeChar(c)| == 2 {
        assert EscapeChar(c)[0] == '\\';
        assert (EscapeChar(c) + rest)[2..] == rest;
      } else {
        assert EscapeChar(c) == [c];
        assert (EscapeChar(c) + rest)[1..] == rest;
      }
    }
  }

  lemma StaysOpenTwice(a: string, b: string, rest: string)
    requires StaysOpen(a, b + rest) && StaysOpen(b, rest)
    ensures StaysOpen(a + b, rest)
  {
    assert (a + b) + rest == a + (b + rest);
  }

  lemma SealedJoin(a: string, b: string)
    requires Sealed(a) && Sealed(b)
    ensures Sealed(a + b)
  {
    forall rest ensures StaysOpen(a + b, rest) {
      assert StaysOpen(b, rest) && StaysOpen(a, b + rest);
      StaysOpenTwice(a, b, rest);
    }
  }

  lemma {:induction false} SealedEach(s: string)
    ensures Sealed(EscapeEach(s))
  {
    if s == "" {
      assert forall rest: string :: "" + rest == rest;
    } else {
      SealedEach(s[1..]);
      SealedChar(s[0]);
      SealedJoin(EscapeChar(s[0]), EscapeEach(s[1..]));
    }
  }

  /** An escaped value never closes the scalar it stands in, whatever other control characters it holds. */
  lemma EscapeSealed(s: string)
    ensures Sealed(Escape(s))
  {
    EscapeIsCharMap(s);
    SealedEach(s);
  }

  /** So the scalar closes at the quote that was put behind the value, for every value and every document after it. */
  lemma ClosesAtItsQuote(s: string, rest: string)
    ensures Closing(Escape(s) + "\"" + rest) == Some(|Escape(s)|)
  {
    EscapeSealed(s);
    assert StaysOpen(Escape(s), "\"" + rest);
    assert Escape(s) + ("\"" + rest) == Escape(s) + "\"" + rest;
  }

  /** After its opening quote: a scalar's value, and what stands behind its closing quote. */
  function ReadScalar(s: string): Option<(string, string)>
  {
    var n := Closing(s);
    if n.None? || Read(s[..n.value]).None? then None else Some((Read(s[..n.value]).value, s[n.value + 1..]))
  }

  /** A document with an escaped value in quotes gives the value and the rest of the document, or refuses the value. */
  lemma ScalarRoundTrip(s: string, rest: string)
    ensures ReadScalar(Escape(s) + "\"" + rest) == if HasRaw(s) then None else Some((s, rest))
  {
    ClosesAtItsQuote(s, rest);
    EscapeRoundTrip(s);
    var document := Escape(s) + "\"" + rest;
    assert document[..|Escape(s)|] == Escape(s) && document[|Escape(s)| + 1..] == rest;
  }
}
