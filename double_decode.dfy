/**
 * `__compileStaticPart` of route/Pattern.js decodes the body of a Static part
 * although the parser has already decoded it. The lemmas here show two
 * patterns where that goes wrong, and what the single decode provides.
 */
module DoubleDecode {
  import opened Wrappers
  import Percent
  import opened Parts
  import Scanner
  import ScanRules
  import opened RegexSource
  import Flags
  import PatternObject

  lemma DecodePercent25()
    ensures Percent.Decode("%25") == Some("%")
  {
    assert Percent.OctetAt("%25", 0) == Some(0x25);
    assert Percent.DecodeOne("%25") == Some(('%', 3));
    assert "%25"[3..] == [];
    assert Percent.Decode([]) == Some([]);
    assert ['%'] + [] == "%";
  }

  lemma EncodePercent()
    ensures Percent.Encode("%") == "%25"
  {
    assert Percent.Utf8('%') == [0x25];
    assert Percent.EscapeOctet(0x25) == "%25";
    assert [0x25 as Percent.Octet][1..] == [];
    assert Percent.EscapeOctets([0x25]) == "%25" + [];
    assert "%"[1..] == [];
    assert Percent.Encode("%") == Percent.EncodeChar('%') + Percent.Encode([]);
    assert "%25" + [] == "%25";
  }

  lemma DecodeEscapedA()
    ensures Percent.Decode("a%2541") == Some("a%41")
    ensures Percent.Decode("a%41") == Some("aA")
  {
    DecodeTail();
    assert Percent.DecodeOne("a%2541") == Some(('a', 1));
    assert "a%2541"[1..] == "%2541";
    assert ['a'] + "%41" == "a%41";
    DecodeA();
    assert Percent.DecodeOne("a%41") == Some(('a', 1));
    assert "a%41"[1..] == "%41";
    assert ['a'] + "A" == "aA";
  }

  lemma DecodeA()
    ensures Percent.Decode("%41") == Some("A")
  {
    assert Percent.OctetAt("%41", 0) == Some(0x41);
    assert Percent.DecodeOne("%41") == Some(('A', 3));
    assert "%41"[3..] == [];
    assert Percent.Decode([]) == Some([]);
    assert ['A'] + [] == "A";
  }

  lemma DecodeTail()
    ensures Percent.Decode("%2541") == Some("%41")
  {
    assert Percent.OctetAt("%2541", 0) == Some(0x25);
    assert Percent.DecodeOne("%2541") == Some(('%', 3));
    assert "%2541"[3..] == "41";
    Percent.DecodeWithoutPercent("41");
    assert ['%'] + "41" == "%41";
  }

  lemma EncodeEscapedA()
    ensures Percent.Encode("a%41") == "a%2541"
  {
    EncodePercent();
    Percent.EncodeAppend("a", "%41");
    Percent.EncodeAppend("%", "41");
    assert "a%41" == "a" + "%41" && "%41" == "%" + "41";
    assert "a"[1..] == [] && "1"[1..] == [] && "41"[1..] == "1";
    assert Percent.Encode("a") == "a" + Percent.Encode([]) == "a";
    assert Percent.Encode("1") == "1" + Percent.Encode([]) == "1";
    assert Percent.Encode("41") == "4" + Percent.Encode("1") == "41";
    assert "a" + ("%25" + "41") == "a%2541";
  }

  /**
   * As written, the pattern `%25` parses to a Static whose body is `%`, and
   * compiling that body decodes it a second time, which throws URIError.
   */
  lemma PercentBodyThrows(ignoreCase: bool)
    ensures Scanner.Parse("%25") == Ok([Static("%", "%25")])
    ensures CompileStaticPartAsWritten(ignoreCase, "%") == None
  {
    ParsePercent25();
    assert Percent.OctetAt("%", 0) == None;
  }

  /** So, as written, `new Pattern('%25')` throws URIError, whatever the params. */
  lemma PercentPatternThrows(params: Flags.Params)
    ensures PatternObject.NewPattern("%25", params) == Err(Scanner.UriError)
  {
    var src := "%25";
    assert src[..|src| - 1] == "%2" && "%2"[..1] == "%" && "%"[..0] == [];
    assert Flags.WordSuffix(src) == 2;
    assert src[..|src| - 2] == "%";
    Flags.SplitPlain(src);
    PercentBodyThrows(false);
    assert !SeqRecompiles([Static("%", "%25")]);
  }

  lemma ParsePercent25()
    ensures Scanner.Parse("%25") == Ok([Static("%", "%25")])
  {
    DecodePercent25();
    EncodePercent();
    ScanRules.ParsePlain("%25");
  }

  /**
   * As written, the pattern `a%2541` parses to a Static with body `a%41`,
   * which builds back to `a%2541`; the second decode compiles the body as
   * `aA`, whose fragments match `aA` only, so the built path is not matched.
   */
  lemma EscapedPercentMismatch()
    ensures Scanner.Parse("a%2541") == Ok([Static("a%41", "a%2541")])
    ensures CompileStaticPartAsWritten(false, "a%41") == Some(RenderAll(Fragments(false, "aA")))
    ensures !AcceptsAll(Fragments(false, "aA"), "a%2541")
  {
    ParseEscapedA();
    AsWrittenEscapedA();
    EscapedANotMatched();
  }

  lemma AsWrittenEscapedA()
    ensures CompileStaticPartAsWritten(false, "a%41") == Some(RenderAll(Fragments(false, "aA")))
  {
    DecodeEscapedA();
    assert SingleUnits("aA") by {
      forall i | 0 <= i < |"aA"| ensures ("aA"[i] as int) < 0x10000 {
        assert "aA"[i] == 'a' || "aA"[i] == 'A';
      }
    }
  }

  lemma EscapedANotMatched()
    ensures !AcceptsAll(Fragments(false, "aA"), "a%2541")
  {
    forall i | 0 <= i < |"aA"| ensures Percent.EncodeChar("aA"[i]) == ["aA"[i]] {
      assert "aA"[i] == 'a' || "aA"[i] == 'A';
    }
    LiteralsAcceptOnly("aA", "a%2541");
  }

  lemma ParseEscapedA()
    ensures Scanner.Parse("a%2541") == Ok([Static("a%41", "a%2541")])
  {
    DecodeEscapedA();
    EncodeEscapedA();
    EscapedAUnreserved();
    ScanRules.ParsePlain("a%2541");
  }

  lemma EscapedAUnreserved()
    ensures forall i | 0 <= i < |"a%2541"| :: "a%2541"[i] !in ScanRules.Reserved
  {
    var src := "a%2541";
    forall i | 0 <= i < |src| ensures src[i] !in ScanRules.Reserved {
      assert src[i] in "a%2541" && ScanRules.Reserved == "\\/()<>=,";
    }
  }

  /**
   * As written, a pattern holding a character above U+FFFF parses, but
   * compiling its body throws: the characters are reduced one UTF-16 code
   * unit at a time, and encoding a lone surrogate throws URIError.
   */
  lemma AstralBodyThrows(ignoreCase: bool)
    ensures Scanner.Parse("\U{1F600}") == Ok([Static("\U{1F600}", Percent.Encode("\U{1F600}"))])
    ensures CompileStaticPartAsWritten(ignoreCase, "\U{1F600}") == None
  {
    ParseAstral();
    Percent.DecodeWithoutPercent("\U{1F600}");
    assert "\U{1F600}"[0] as int == 0x1F600;
  }

  lemma ParseAstral()
    ensures Scanner.Parse("\U{1F600}") == Ok([Static("\U{1F600}", Percent.Encode("\U{1F600}"))])
  {
    var src := "\U{1F600}";
    Percent.DecodeWithoutPercent(src);
    assert src[0] !in ScanRules.Reserved;
    ScanRules.ParsePlain(src);
  }

  /**
   * With the single decode, the expression for a Static matches both its
   * body and its encoding, the text `build` writes for it.
   */
  lemma StaticPartAcceptsBoth(ignoreCase: bool, body: string)
    ensures CompileStaticPart(ignoreCase, body) == RenderAll(Fragments(ignoreCase, body))
    ensures AcceptsAll(Fragments(ignoreCase, body), body)
    ensures AcceptsAll(Fragments(ignoreCase, body), Percent.Encode(body))
  {
    StaticSourceRenders(ignoreCase, body);
    FragmentsAcceptText(ignoreCase, body);
    FragmentsAcceptEncoding(ignoreCase, body);
  }
}
