/**
  The example policies of the parser's test suite, stated for every amount of
  surrounding whitespace: `w1` and `w2` stand for any (possibly empty) padding
  and `sp` for any non-empty whitespace separator, so that `sp == " "` and
  `w1, w2` in `{"", " "}` give the concrete strings of the suite.
 */
module PolicyCases {
  import opened Text
  import opened Registry
  import opened Policy
  import opened PolicyProperties

  /** A printable ASCII word without `;`, as the words of the examples are. */
  predicate PolicyWord(s: string) {
    s != [] && forall i :: 0 <= i < |s| ==> '!' <= s[i] <= '~' && s[i] != ';'
  }

  lemma PolicyWordFacts(s: string)
    requires PolicyWord(s)
    ensures NoSpace(s) && IsAscii(s) && ';' !in s
  {
  }

  /** Only whitespace around a word. */
  predicate Padded(w1: string, w2: string) {
    AllSpace(w1) && AllSpace(w2)
  }

  /** A non-empty run of ASCII whitespace between two words. */
  predicate Gap(sp: string) {
    sp != [] && AllSpace(sp) && IsAscii(sp)
  }

  // ---------------------------------------------------------------------------
  // The words of the examples

  lemma DefaultSrcWord()
    ensures PolicyWord("default-src") && Lower("default-src") == "default-src"
  {
    LowerFixesLowercase("default-src");
  }

  lemma ScriptSrcWord()
    ensures PolicyWord("script-src") && Lower("script-src") == "script-src"
  {
    LowerFixesLowercase("script-src");
  }

  lemma UnknownSrcWord()
    ensures PolicyWord("unknown-src") && Lower("unknown-src") == "unknown-src"
    ensures "unknown-src" !in DefaultDirectives
  {
    LowerFixesLowercase("unknown-src");
  }

  lemma CustomSrcWord()
    ensures PolicyWord("custom-src") && Lower("custom-src") == "custom-src"
  {
    LowerFixesLowercase("custom-src");
  }

  lemma ValueWords()
    ensures PolicyWord("example.com") && PolicyWord("'self'") && PolicyWord("ignored.com")
  {
  }

  lemma UppercaseWord()
    ensures PolicyWord("DEFAULT-SRC") && Lower("DEFAULT-SRC") == "default-src"
  {
    DefaultSrcWord();
    LowerIgnoresCase("DEFAULT-SRC", "default-src");
  }

  lemma MixedCaseWord()
    ensures PolicyWord("dEfAuLt-SrC") && Lower("dEfAuLt-SrC") == "default-src"
  {
    DefaultSrcWord();
    LowerIgnoresCase("dEfAuLt-SrC", "default-src");
  }

  lemma UppercaseValueWord()
    ensures PolicyWord("EXAMPLE.COM")
  {
  }

  // ---------------------------------------------------------------------------
  // Padded tokens of one, two and three words

  lemma OneWordToken(w1: string, a: string, w2: string)
    requires Padded(w1, w2) && PolicyWord(a)
    ensures ';' !in w1 + a + w2
    ensures TokenDirective(w1 + a + w2) == Some(Directive(Lower(a), []))
  {
    PolicyWordFacts(a);
    var t := w1 + a + w2;
    StripUnique(w1, a, w2);
    WordsOfWord(a);
    assert TokenDirective(t) == Some(Directive(Lower(a), [a][1..]));
    assert [a][1..] == [];
    assert ';' !in t by {
      assert ';' !in w1 && ';' !in w2;
    }
  }

  lemma TwoWordToken(w1: string, a: string, sp: string, b: string, w2: string)
    requires Padded(w1, w2) && Gap(sp) && PolicyWord(a) && PolicyWord(b)
    ensures ';' !in w1 + a + sp + b + w2
    ensures TokenDirective(w1 + a + sp + b + w2) == Some(Directive(Lower(a), [b]))
  {
    PolicyWordFacts(a);
    PolicyWordFacts(b);
    var ws, gaps := [a, b], [sp];
    assert Interleave(ws, gaps) == a + sp + b by {
      assert Interleave(ws[1..], gaps[1..]) == b;
    }
    assert w1 + a + sp + b + w2 == w1 + Interleave(ws, gaps) + w2;
    PaddedWordsHaveNoSemicolon(w1, ws, gaps, w2);
    TokenOfWords(w1, ws, gaps, w2);
    assert ws[1..] == [b];
  }

  lemma ThreeWordToken(w1: string, a: string, sp1: string, b: string, sp2: string, c: string, w2: string)
    requires Padded(w1, w2) && Gap(sp1) && Gap(sp2)
    requires PolicyWord(a) && PolicyWord(b) && PolicyWord(c)
    ensures ';' !in w1 + a + sp1 + b + sp2 + c + w2
    ensures TokenDirective(w1 + a + sp1 + b + sp2 + c + w2) == Some(Directive(Lower(a), [b, c]))
  {
    PolicyWordFacts(a);
    PolicyWordFacts(b);
    PolicyWordFacts(c);
    var ws, gaps := [a, b, c], [sp1, sp2];
    assert Interleave(ws, gaps) == a + sp1 + b + sp2 + c by {
      assert Interleave(ws[1..], gaps[1..]) == b + sp2 + c by {
        assert Interleave(ws[1..][1..], gaps[1..][1..]) == c;
      }
    }
    assert w1 + a + sp1 + b + sp2 + c + w2 == w1 + Interleave(ws, gaps) + w2;
    PaddedWordsHaveNoSemicolon(w1, ws, gaps, w2);
    TokenOfWords(w1, ws, gaps, w2);
    assert ws[1..] == [b, c];
  }

  // ---------------------------------------------------------------------------
  // The example policies

  /** A blank policy gives the empty mapping. */
  lemma BlankPolicy(w: string, strict: bool)
    requires AllSpace(w)
    ensures Parse(w, DefaultDirectives, strict) == Ok([])
  {
    ParseBlank(w, DefaultDirectives, strict);
  }

  /** A lone name, padded and optionally followed by `;`, has no values. */
  lemma NameWithoutValues(w1: string, w2: string, strict: bool)
    requires Padded(w1, w2)
    ensures Parse(w1 + "default-src" + w2, DefaultDirectives, strict) == Ok([Directive("default-src", [])])
    ensures Parse(w1 + "default-src" + w2 + ";", DefaultDirectives, strict) == Ok([Directive("default-src", [])])
  {
    var t := w1 + "default-src" + w2;
    DefaultSrcWord();
    OneWordToken(w1, "default-src", w2);
    ParseSingleToken(t, DefaultDirectives, strict);
    ParseTrailingSemicolon(t, DefaultDirectives, strict);
  }

  /**
    Stripping uses Python's whitespace, so padding with NO-BREAK SPACE is
    removed before the ASCII check and the token still counts.
   */
  lemma NoBreakSpacePadding(strict: bool)
    ensures Parse("\U{A0}" + "default-src" + "\U{A0}", DefaultDirectives, strict) == Ok([Directive("default-src", [])])
  {
    NameWithoutValues("\U{A0}", "\U{A0}", strict);
  }

  /** One value behind the name, with any whitespace run as separator. */
  lemma OneValue(w1: string, sp: string, w2: string, strict: bool)
    requires Padded(w1, w2) && Gap(sp)
    ensures Parse(w1 + "default-src" + sp + "example.com" + w2, DefaultDirectives, strict)
         == Ok([Directive("default-src", ["example.com"])])
    ensures Parse(w1 + "default-src" + sp + "example.com" + w2 + ";", DefaultDirectives, strict)
         == Ok([Directive("default-src", ["example.com"])])
  {
    var t := w1 + "default-src" + sp + "example.com" + w2;
    DefaultSrcWord();
    ValueWords();
    TwoWordToken(w1, "default-src", sp, "example.com", w2);
    ParseSingleToken(t, DefaultDirectives, strict);
    ParseTrailingSemicolon(t, DefaultDirectives, strict);
  }

  /** Two values, in order, with any whitespace runs as separators. */
  lemma TwoValues(w1: string, sp1: string, sp2: string, w2: string, strict: bool)
    requires Padded(w1, w2) && Gap(sp1) && Gap(sp2)
    ensures Parse(w1 + "default-src" + sp1 + "'self'" + sp2 + "example.com" + w2, DefaultDirectives, strict)
         == Ok([Directive("default-src", ["'self'", "example.com"])])
    ensures Parse(w1 + "default-src" + sp1 + "'self'" + sp2 + "example.com" + w2 + ";", DefaultDirectives, strict)
         == Ok([Directive("default-src", ["'self'", "example.com"])])
  {
    var t := w1 + "default-src" + sp1 + "'self'" + sp2 + "example.com" + w2;
    DefaultSrcWord();
    ValueWords();
    ThreeWordToken(w1, "default-src", sp1, "'self'", sp2, "example.com", w2);
    ParseSingleToken(t, DefaultDirectives, strict);
    ParseTrailingSemicolon(t, DefaultDirectives, strict);
  }

  /**
    A repeated `default-src` is dropped in non-strict mode, keeping the first
    occurrence and the key order, and is a duplicate error in strict mode.
   */
  lemma RepeatedDirective(w1: string, w2: string, sp: string, strict: bool)
    requires Padded(w1, w2) && Gap(sp)
    ensures var t1 := w1 + "default-src" + sp + "example.com" + w2;
            var t2 := sp + "script-src" + sp + "'self'";
            var t3 := sp + "default-src" + sp + "ignored.com";
            Parse(t1 + ";" + t2 + ";" + t3, DefaultDirectives, strict)
            == if strict then Err(DuplicateDirective("default-src"))
               else Ok([Directive("default-src", ["example.com"]), Directive("script-src", ["'self'"])])
  {
    var t2 := sp + "script-src" + sp + "'self'";
    var t3 := sp + "default-src" + sp + "ignored.com";
    OneValue(w1, sp, w2, strict);
    DefaultSrcWord();
    ScriptSrcWord();
    ValueWords();
    TwoWordToken(sp, "script-src", sp, "'self'", []);
    TwoWordToken(sp, "default-src", sp, "ignored.com", []);
    assert t2 + [] == t2 && t3 + [] == t3;
    ParseLaterRepeat(w1 + "default-src" + sp + "example.com" + w2, t2, t3, DefaultDirectives,
      Directive("default-src", ["example.com"]), Directive("script-src", ["'self'"]),
      Directive("default-src", ["ignored.com"]), strict);
  }

  /** Upper-case letters in the name are lowercased; the values keep their case. */
  lemma CaseInsensitiveName(w1: string, w2: string, sp: string, strict: bool)
    requires Padded(w1, w2) && Gap(sp)
    ensures Parse(w1 + "DEFAULT-SRC" + sp + "EXAMPLE.COM" + w2, DefaultDirectives, strict)
         == Ok([Directive("default-src", ["EXAMPLE.COM"])])
    ensures Parse(w1 + "dEfAuLt-SrC" + sp + "example.com" + w2, DefaultDirectives, strict)
         == Ok([Directive("default-src", ["example.com"])])
  {
    UppercaseWord();
    MixedCaseWord();
    UppercaseValueWord();
    ValueWords();
    TwoWordToken(w1, "DEFAULT-SRC", sp, "EXAMPLE.COM", w2);
    TwoWordToken(w1, "dEfAuLt-SrC", sp, "example.com", w2);
    ParseSingleToken(w1 + "DEFAULT-SRC" + sp + "EXAMPLE.COM" + w2, DefaultDirectives, strict);
    ParseSingleToken(w1 + "dEfAuLt-SrC" + sp + "example.com" + w2, DefaultDirectives, strict);
  }

  /** `unknown-src` is not a default directive, so the policy fails in both modes. */
  lemma UnknownDirectiveFails(w1: string, w2: string, sp: string, strict: bool)
    requires Padded(w1, w2) && Gap(sp)
    ensures var t1 := w1 + "default-src" + sp + "example.com" + w2;
            var t2 := sp + "unknown-src" + sp + "'self'";
            Parse(t1 + ";" + t2, DefaultDirectives, strict) == Err(UnknownDirective("unknown-src"))
  {
    var t2 := sp + "unknown-src" + sp + "'self'";
    OneValue(w1, sp, w2, strict);
    UnknownSrcWord();
    ValueWords();
    TwoWordToken(sp, "unknown-src", sp, "'self'", []);
    assert t2 + [] == t2;
    ParseLaterUnknown(w1 + "default-src" + sp + "example.com" + w2, t2, DefaultDirectives,
      [Directive("default-src", ["example.com"])], Directive("unknown-src", ["'self'"]), strict);
  }

  /** With `custom-src` registered, a policy that uses it gives both directives in order. */
  lemma CustomPolicy(known: set<string>, w1: string, w2: string, sp: string, strict: bool)
    requires "default-src" in known && "custom-src" in known
    requires Padded(w1, w2) && Gap(sp)
    ensures var t1 := w1 + "default-src" + sp + "example.com" + w2;
            var t2 := sp + "custom-src" + sp + "'self'";
            Parse(t1 + ";" + t2, known, strict)
            == Ok([Directive("default-src", ["example.com"]), Directive("custom-src", ["'self'"])])
  {
    var t1 := w1 + "default-src" + sp + "example.com" + w2;
    var t2 := sp + "custom-src" + sp + "'self'";
    DefaultSrcWord();
    CustomSrcWord();
    ValueWords();
    TwoWordToken(w1, "default-src", sp, "example.com", w2);
    TwoWordToken(sp, "custom-src", sp, "'self'", []);
    assert t2 + [] == t2;
    ParseTwoTokens(t1, t2, known, Directive("default-src", ["example.com"]),
      Directive("custom-src", ["'self'"]), strict);
  }

  /** The names the override below adds are already lowercase. */
  lemma AddedNames()
    ensures LowerAll({"default-src", "custom-src"}) == {"default-src", "custom-src"}
  {
    DefaultSrcWord();
    CustomSrcWord();
  }

  /**
    Registering `custom-src` (and the already present `default-src`) on a
    fresh registry makes a policy that uses it parse, with both directives in
    order.
   */
  method OverrideThenParse(w1: string, w2: string, sp: string) returns (r: ParseResult)
    requires Padded(w1, w2) && Gap(sp)
    ensures r == Ok([Directive("default-src", ["example.com"]), Directive("custom-src", ["'self'"])])
  {
    var registry := new DirectiveRegistry();
    registry.Override({"default-src", "custom-src"});
    AddedNames();
    assert "default-src" in registry.names && "custom-src" in registry.names;
    CustomPolicy(registry.names, w1, w2, sp, false);
    var policy := w1 + "default-src" + sp + "example.com" + w2 + ";" + (sp + "custom-src" + sp + "'self'");
    r := ParseSerializedCsp(policy, registry, false);
  }
}
