/**
 * The copy-button payload codec. `CodeBlock.render` escapes the code before
 * embedding it in `onclick="copyToClipboard('...')"`, and `copyToClipboard`
 * undoes the escaping before writing to the clipboard. Both are two successive
 * global replacements, modelled here pass by pass.
 */
module Escaping {
  import opened Strings

  /** First pass of the escape: every `'` becomes `\'`. */
  function EscapeQuotes(s: string): string { ReplaceAll(s, "'", "\\'") }

  /** Second pass of the escape: every newline becomes the two characters `\n`. */
  function EscapeNewlines(s: string): string { ReplaceAll(s, "\n", "\\n") }

  /** The escape of components.js: quotes first, then newlines. No raw newline is
      left, and each newline of the code has become a backslash-`n` pair beside
      those the code already had. */
  function Escape(code: string): (r: string)
    ensures CountChar(r, '\n') == 0
    ensures CountPair(r, '\\', 'n') == CountChar(code, '\n') + CountPair(code, '\\', 'n')
  {
    EscapeQuotesKeepsNewlines(code);
    EscapeQuotesKeepsBackslashN(code);
    EscapeNewlinesCounts(EscapeQuotes(code));
    EscapeNewlines(EscapeQuotes(code))
  }

  /** First pass of the unescape: every two-character `\n` becomes a newline. */
  function UnescapeNewlines(t: string): string { ReplaceAll(t, "\\n", "\n") }

  /** Second pass of the unescape: every `\'` becomes `'`. */
  function UnescapeQuotes(t: string): string { ReplaceAll(t, "\\'", "'") }

  /** The unescape of main.js: newlines first, then quotes. Every backslash-`n`
      pair of the text becomes a newline, and no other newline appears or goes. */
  function Unescape(text: string): (r: string)
    ensures CountChar(r, '\n') == CountChar(text, '\n') + CountPair(text, '\\', 'n')
  {
    UnescapeNewlinesCounts(text);
    UnescapeQuotesKeepsNewlines(UnescapeNewlines(text));
    UnescapeQuotes(UnescapeNewlines(text))
  }

  /** What the escape writes for one character of the code. */
  function EscapeToken(c: char): string
  {
    if c == '\'' then "\\'" else if c == '\n' then "\\n" else [c]
  }

  function QuoteToken(c: char): string { if c == '\'' then "\\'" else [c] }

  function NewlineToken(c: char): string { if c == '\n' then "\\n" else [c] }

  lemma EscapeQuotesCons(c: char, s: string)
    ensures EscapeQuotes([c] + s) == QuoteToken(c) + EscapeQuotes(s)
  {
    ReplaceCharCons(c, s, "'", "\\'");
  }

  lemma EscapeNewlinesCons(c: char, s: string)
    ensures EscapeNewlines([c] + s) == NewlineToken(c) + EscapeNewlines(s)
  {
    ReplaceCharCons(c, s, "\n", "\\n");
  }

  /** The escape works character by character. */
  lemma EscapeCons(c: char, s: string)
    ensures Escape([c] + s) == EscapeToken(c) + Escape(s)
  {
    EscapeQuotesCons(c, s);
    ReplaceCharAppend(QuoteToken(c), EscapeQuotes(s), "\n", "\\n");
    if c == '\'' {
      EscapeNewlinesCons('\\', "'");
      EscapeNewlinesCons('\'', "");
      assert "\\'" == ['\\'] + "'";
      assert "'" == ['\''] + "";
    } else {
      EscapeNewlinesCons(c, "");
      assert [c] == [c] + "";
    }
  }

  /** Properties of the payload components.js embeds: it has no raw newline, every
      quote in it is escaped, and it grows by one character per quote and newline. */
  lemma {:induction false} EscapeOutput(s: string)
    ensures forall i :: 0 <= i < |Escape(s)| ==> Escape(s)[i] != '\n'
    ensures forall i :: 0 <= i < |Escape(s)| && Escape(s)[i] == '\'' ==> i > 0 && Escape(s)[i - 1] == '\\'
    ensures |Escape(s)| == |s| + CountChar(s, '\'') + CountChar(s, '\n')
    ensures s != [] ==> Escape(s)[0] != '\''
  {
    if s != [] {
      var c, rest := s[0], s[1..];
      assert s == [c] + rest;
      EscapeCons(c, rest);
      EscapeOutput(rest);
      CountCharCons(c, rest, '\'');
      CountCharCons(c, rest, '\n');
      var tok, r := EscapeToken(c), Escape(rest);
      assert Escape(s) == tok + r;
      forall i | 0 <= i < |Escape(s)| && Escape(s)[i] == '\''
        ensures i > 0 && Escape(s)[i - 1] == '\\'
      {
        if i >= |tok| {
          var j := i - |tok|;
          assert r[j] == '\'';
          if j == 0 {
            assert false;
          }
        }
      }
    }
  }

  /** The unescape undoes the newline pass, provided the text has no literal `\n`. */
  lemma {:induction false} UnescapeNewlinesInverse(t: string)
    requires CountPair(t, '\\', 'n') == 0
    ensures UnescapeNewlines(EscapeNewlines(t)) == t
  {
    if t != [] {
      var c, rest := t[0], t[1..];
      assert t == [c] + rest;
      EscapeNewlinesCons(c, rest);
      CountPairCons(c, rest, '\\', 'n');
      var x := EscapeNewlines(rest);
      if rest != [] {
        assert rest == [rest[0]] + rest[1..];
        EscapeNewlinesCons(rest[0], rest[1..]);
        assert x[0] == NewlineToken(rest[0])[0];
      }
      UnescapeNewlinesInverse(rest);
      var e := NewlineToken(c) + x;
      ReplacePairStep(e, "\\n", "\n");
      if c == '\n' {
        assert e[2..] == x;
      } else {
        assert e[1..] == x;
      }
    }
  }

  /** The unescape undoes the quote pass on every string. */
  lemma {:induction false} UnescapeQuotesInverse(s: string)
    ensures UnescapeQuotes(EscapeQuotes(s)) == s
  {
    if s != [] {
      var c, rest := s[0], s[1..];
      assert s == [c] + rest;
      EscapeQuotesCons(c, rest);
      var x := EscapeQuotes(rest);
      if rest != [] {
        assert rest == [rest[0]] + rest[1..];
        EscapeQuotesCons(rest[0], rest[1..]);
        assert x[0] == QuoteToken(rest[0])[0];
      }
      UnescapeQuotesInverse(rest);
      var e := QuoteToken(c) + x;
      ReplacePairStep(e, "\\'", "'");
      if c == '\'' {
        assert e[2..] == x;
      } else {
        assert e[1..] == x;
      }
    }
  }

  /** Escaping quotes neither creates nor destroys a literal `\n`. */
  lemma {:induction false} EscapeQuotesKeepsBackslashN(s: string)
    ensures CountPair(EscapeQuotes(s), '\\', 'n') == CountPair(s, '\\', 'n')
  {
    if s != [] {
      var c, rest := s[0], s[1..];
      assert s == [c] + rest;
      EscapeQuotesCons(c, rest);
      CountPairCons(c, rest, '\\', 'n');
      var x := EscapeQuotes(rest);
      if rest != [] {
        assert rest == [rest[0]] + rest[1..];
        EscapeQuotesCons(rest[0], rest[1..]);
        assert x[0] == QuoteToken(rest[0])[0];
      }
      EscapeQuotesKeepsBackslashN(rest);
      if c == '\'' {
        assert "\\'" + x == ['\\'] + (['\''] + x);
        CountPairCons('\\', ['\''] + x, '\\', 'n');
        CountPairCons('\'', x, '\\', 'n');
      } else {
        CountPairCons(c, x, '\\', 'n');
      }
    }
  }

  lemma {:induction false} EscapeQuotesKeepsNewlines(s: string)
    ensures CountChar(EscapeQuotes(s), '\n') == CountChar(s, '\n')
  {
    if s != [] {
      var c, rest := s[0], s[1..];
      assert s == [c] + rest;
      EscapeQuotesCons(c, rest);
      CountCharCons(c, rest, '\n');
      EscapeQuotesKeepsNewlines(rest);
      CountCharAppend(QuoteToken(c), EscapeQuotes(rest), '\n');
      if c == '\'' {
        CountCharCons('\\', "'", '\n');
        CountCharCons('\'', "", '\n');
        assert "\\'" == ['\\'] + "'";
        assert "'" == ['\''] + "";
      } else {
        CountCharCons(c, "", '\n');
        assert [c] == [c] + "";
      }
    }
  }

  /** A literal `\n` in front of a text adds one backslash-`n` pair and no newline. */
  lemma BackslashNPrefix(x: string)
    ensures CountPair("\\n" + x, '\\', 'n') == 1 + CountPair(x, '\\', 'n')
    ensures CountChar("\\n" + x, '\n') == CountChar(x, '\n')
  {
    assert "\\n" + x == ['\\'] + (['n'] + x);
    CountPairCons('\\', ['n'] + x, '\\', 'n');
    CountPairCons('n', x, '\\', 'n');
    CountCharCons('\\', ['n'] + x, '\n');
    CountCharCons('n', x, '\n');
  }

  /** Every newline becomes a literal `\n`, on top of those already present. */
  lemma {:induction false} EscapeNewlinesCounts(t: string)
    ensures CountChar(EscapeNewlines(t), '\n') == 0
    ensures CountPair(EscapeNewlines(t), '\\', 'n') == CountChar(t, '\n') + CountPair(t, '\\', 'n')
  {
    if t != [] {
      var c, rest := t[0], t[1..];
      assert t == [c] + rest;
      EscapeNewlinesCons(c, rest);
      CountCharCons(c, rest, '\n');
      CountPairCons(c, rest, '\\', 'n');
      var x := EscapeNewlines(rest);
      if rest != [] {
        assert rest == [rest[0]] + rest[1..];
        EscapeNewlinesCons(rest[0], rest[1..]);
        assert x[0] == NewlineToken(rest[0])[0];
      }
      EscapeNewlinesCounts(rest);
      if c == '\n' {
        BackslashNPrefix(x);
      } else {
        CountPairCons(c, x, '\\', 'n');
        CountCharCons(c, x, '\n');
      }
    }
  }

  /** The newline pass of the unescape adds one newline per literal `\n`. */
  lemma {:induction false} UnescapeNewlinesCounts(t: string)
    ensures CountChar(UnescapeNewlines(t), '\n') == CountChar(t, '\n') + CountPair(t, '\\', 'n')
    decreases |t|
  {
    if t != [] {
      ReplacePairStep(t, "\\n", "\n");
      var rest := t[1..];
      assert t == [t[0]] + rest;
      CountCharCons(t[0], rest, '\n');
      CountPairCons(t[0], rest, '\\', 'n');
      if |t| >= 2 && t[0] == '\\' && t[1] == 'n' {
        assert rest == ['n'] + t[2..];
        CountCharCons('n', t[2..], '\n');
        CountPairCons('n', t[2..], '\\', 'n');
        UnescapeNewlinesCounts(t[2..]);
        CountCharCons('\n', UnescapeNewlines(t[2..]), '\n');
      } else {
        UnescapeNewlinesCounts(rest);
        CountCharCons(t[0], UnescapeNewlines(rest), '\n');
      }
    }
  }

  /** The quote pass of the unescape leaves the newlines alone. */
  lemma {:induction false} UnescapeQuotesKeepsNewlines(t: string)
    ensures CountChar(UnescapeQuotes(t), '\n') == CountChar(t, '\n')
    decreases |t|
  {
    if t != [] {
      ReplacePairStep(t, "\\'", "'");
      var rest := t[1..];
      assert t == [t[0]] + rest;
      CountCharCons(t[0], rest, '\n');
      if |t| >= 2 && t[0] == '\\' && t[1] == '\'' {
        assert rest == ['\''] + t[2..];
        CountCharCons('\'', t[2..], '\n');
        UnescapeQuotesKeepsNewlines(t[2..]);
        CountCharCons('\'', UnescapeQuotes(t[2..]), '\n');
      } else {
        UnescapeQuotesKeepsNewlines(rest);
        CountCharCons(t[0], UnescapeQuotes(rest), '\n');
      }
    }
  }

  /** After the round trip the text has one extra newline for every literal
      backslash-`n` of the code. */
  lemma RoundTripNewlines(s: string)
    ensures CountChar(Unescape(Escape(s)), '\n') == CountChar(s, '\n') + CountPair(s, '\\', 'n')
  {
    var q := EscapeQuotes(s);
    EscapeQuotesKeepsNewlines(s);
    EscapeQuotesKeepsBackslashN(s);
    EscapeNewlinesCounts(q);
    UnescapeNewlinesCounts(EscapeNewlines(q));
    UnescapeQuotesKeepsNewlines(UnescapeNewlines(EscapeNewlines(q)));
  }

  /** The copy button hands back exactly the code it was rendered from if and only
      if the code has no backslash immediately followed by `n`. */
  lemma RoundTrip(s: string)
    ensures Unescape(Escape(s)) == s <==> !HasPair(s, '\\', 'n')
  {
    CountPairPositive(s, '\\', 'n');
    if HasPair(s, '\\', 'n') {
      RoundTripNewlines(s);
    } else {
      EscapeQuotesKeepsBackslashN(s);
      UnescapeNewlinesInverse(EscapeQuotes(s));
      UnescapeQuotesInverse(s);
    }
  }

  /** In particular, code with no backslash at all survives the round trip. */
  lemma RoundTripWithoutBackslash(s: string)
    requires forall i :: 0 <= i < |s| ==> s[i] != '\\'
    ensures Unescape(Escape(s)) == s
  {
    RoundTrip(s);
  }

  /** A literal backslash followed by `n` passes the escape untouched and comes
      back as a newline. */
  lemma BackslashNBecomesNewline(prefix: string, suffix: string)
    ensures Unescape(Escape(prefix + "\\n" + suffix)) != prefix + "\\n" + suffix
  {
    var s := prefix + "\\n" + suffix;
    assert s[|prefix|] == '\\' && s[|prefix| + 1] == 'n';
    RoundTrip(s);
  }
}
