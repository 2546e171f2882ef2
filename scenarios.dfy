/** Worked examples: what the lexer and both checks do on a few sentences. */
module Scenarios {
  import opened Lexer
  import Parser
  import MainParser
  import opened Semantic

  /** A keyword at the start of "Eg er heima" and between its spaces is matched whole. */
  lemma SentenceWords(s: string)
    requires s == "Eg er heima"
    ensures MatchEnd(s, 0) == Some(2) && MatchEnd(s, 3) == Some(5) && MatchEnd(s, 6) == Some(11)
  {
    assert MatchEnd(s, 0) == Some(2) by {
      KeywordBetweenSeparators(s, 0, "Eg");
    }
    assert MatchEnd(s, 3) == Some(5) by {
      KeywordBetweenSeparators(s, 3, "er");
    }
    assert MatchEnd(s, 6) == Some(11) by {
      KeywordBetweenSeparators(s, 6, "heima");
    }
  }

  /** The matches of "Eg er heima": the three words, the spaces skipped. */
  lemma SentenceScan(s: string)
    requires s == "Eg er heima"
    ensures ScanFrom(s, 0) == [Span(0, 2), Span(3, 5), Span(6, 11)]
  {
    SentenceWords(s);
    SeparatorSkipped(s, 2);
    SeparatorSkipped(s, 5);
    assert LeftmostScan(s, 11, []);
    LeftmostCons(s, 5, Span(6, 11), []);
    LeftmostCons(s, 2, Span(3, 5), [Span(6, 11)]);
    LeftmostCons(s, 0, Span(0, 2), [Span(3, 5), Span(6, 11)]);
    LeftmostScanUnique(s, 0, [Span(0, 2), Span(3, 5), Span(6, 11)]);
  }

  /** The three matches of "Eg er heima" give a subject, a verb and an object. */
  lemma SentenceTexts(s: string)
    requires s == "Eg er heima"
    ensures TokenAt(s, Span(0, 2)) == Token(Sujeto, "Eg")
    ensures TokenAt(s, Span(3, 5)) == Token(Verbo, "er")
    ensures TokenAt(s, Span(6, 11)) == Token(Objeto, "heima")
  {
    assert s[0..2] == "Eg" && s[3..5] == "er" && s[6..11] == "heima";
    ClassifyVocabulary("Eg");
    ClassifyVocabulary("er");
    ClassifyVocabulary("heima");
  }

  /** The tokens of "Eg er heima": a subject, a verb and an object. */
  lemma SentenceTokens(s: string)
    requires s == "Eg er heima"
    ensures Tokenize(s) == [Token(Sujeto, "Eg"), Token(Verbo, "er"), Token(Objeto, "heima")]
  {
    SentenceScan(s);
    SentenceTexts(s);
  }

  /** Both checks accept "Eg er heima", and the symbol table is left alone. */
  lemma SentenceExample(s: string, table: map<string, string>)
    requires s == "Eg er heima"
    ensures Parser.ValidarBNF(Tokenize(s))
    ensures MainParser.ValidarBNF(Tokenize(s)) == MainParser.Accept
    ensures Judge(Tokenize(s)) == Sentence && Updated(table, Tokenize(s)) == table
  {
    SentenceTokens(s);
  }

  /** The words of "Tú ert skúla", each standing as a whole word. */
  lemma AccentedWords(s: string)
    requires s == "Tú ert skúla"
    ensures MatchEnd(s, 0) == Some(2) && MatchEnd(s, 3) == Some(6) && MatchEnd(s, 7) == Some(12)
  {
    assert MatchEnd(s, 0) == Some(2) by {
      KeywordBetweenSeparators(s, 0, "Tú");
    }
    assert MatchEnd(s, 3) == Some(6) by {
      KeywordBetweenSeparators(s, 3, "ert");
    }
    assert MatchEnd(s, 7) == Some(12) by {
      KeywordBetweenSeparators(s, 7, "skúla");
    }
  }

  /** The matches of "Tú ert skúla": the words with an accented letter are whole words too. */
  lemma AccentedScan(s: string)
    requires s == "Tú ert skúla"
    ensures ScanFrom(s, 0) == [Span(0, 2), Span(3, 6), Span(7, 12)]
  {
    AccentedWords(s);
    SeparatorSkipped(s, 2);
    SeparatorSkipped(s, 6);
    assert LeftmostScan(s, 12, []);
    LeftmostCons(s, 6, Span(7, 12), []);
    LeftmostCons(s, 2, Span(3, 6), [Span(7, 12)]);
    LeftmostCons(s, 0, Span(0, 2), [Span(3, 6), Span(7, 12)]);
    LeftmostScanUnique(s, 0, [Span(0, 2), Span(3, 6), Span(7, 12)]);
  }

  /** The three matches of "Tú ert skúla" give a subject, a verb and an object. */
  lemma AccentedTexts(s: string)
    requires s == "Tú ert skúla"
    ensures TokenAt(s, Span(0, 2)) == Token(Sujeto, "Tú")
    ensures TokenAt(s, Span(3, 6)) == Token(Verbo, "ert")
    ensures TokenAt(s, Span(7, 12)) == Token(Objeto, "skúla")
  {
    assert s[0..2] == "Tú" && s[3..6] == "ert" && s[7..12] == "skúla";
    ClassifyVocabulary("Tú");
    ClassifyVocabulary("ert");
    ClassifyVocabulary("skúla");
  }

  /** The tokens of "Tú ert skúla": a subject, a verb and an object. */
  lemma AccentedTokens(s: string)
    requires s == "Tú ert skúla"
    ensures Tokenize(s) == [Token(Sujeto, "Tú"), Token(Verbo, "ert"), Token(Objeto, "skúla")]
  {
    AccentedScan(s);
    AccentedTexts(s);
  }

  /** Both checks accept "Tú ert skúla", and the symbol table is left alone. */
  lemma AccentedExample(s: string, table: map<string, string>)
    requires s == "Tú ert skúla"
    ensures Parser.ValidarBNF(Tokenize(s)) && MainParser.ValidarBNF(Tokenize(s)) == MainParser.Accept
    ensures Judge(Tokenize(s)) == Sentence && Updated(table, Tokenize(s)) == table
  {
    AccentedTokens(s);
  }

  /** The matches of "Eg = d" for a digit d: the subject, the '=' and the digit. */
  lemma AssignmentScan(s: string, d: char)
    requires IsDigit(d) && s == "Eg = " + [d]
    ensures ScanFrom(s, 0) == [Span(0, 2), Span(3, 4), Span(5, 6)]
  {
    assert MatchEnd(s, 0) == Some(2) by {
      KeywordBetweenSeparators(s, 0, "Eg");
    }
    SymbolMatched(s, 3);
    DigitsMatched(s, 5);
    SeparatorSkipped(s, 2);
    SeparatorSkipped(s, 4);
    assert LeftmostScan(s, 6, []);
    LeftmostCons(s, 4, Span(5, 6), []);
    LeftmostCons(s, 2, Span(3, 4), [Span(5, 6)]);
    LeftmostCons(s, 0, Span(0, 2), [Span(3, 4), Span(5, 6)]);
    LeftmostScanUnique(s, 0, [Span(0, 2), Span(3, 4), Span(5, 6)]);
  }

  /** The three matches of "Eg = d" give a subject, the assignment sign and a number. */
  lemma AssignmentTexts(s: string, d: char)
    requires IsDigit(d) && s == "Eg = " + [d]
    ensures TokenAt(s, Span(0, 2)) == Token(Sujeto, "Eg")
    ensures TokenAt(s, Span(3, 4)) == Token(Asignacion, "=")
    ensures TokenAt(s, Span(5, 6)) == Token(Numero, [d])
  {
    assert s[0..2] == "Eg" && s[3..4] == "=" && s[5..6] == [d];
    ClassifyVocabulary("Eg");
    ClassifyVocabulary("=");
    ClassifyVocabulary([d]);
  }

  /** The tokens of "Eg = d": a subject, the assignment sign and a number. */
  lemma AssignmentTokens(s: string, d: char)
    requires IsDigit(d) && s == "Eg = " + [d]
    ensures Tokenize(s) == [Token(Sujeto, "Eg"), Token(Asignacion, "="), Token(Numero, [d])]
  {
    AssignmentScan(s, d);
    AssignmentTexts(s, d);
  }

  /** "Eg = d" is an assignment: the grammar rejects it at the verb, the
      semantic check accepts it and records d under "Eg". */
  lemma AssignmentExample(s: string, d: char, table: map<string, string>)
    requires IsDigit(d) && s == "Eg = " + [d]
    ensures !Parser.ValidarBNF(Tokenize(s))
    ensures MainParser.ValidarBNF(Tokenize(s)) == MainParser.Reject(MainParser.NotVerb)
    ensures Judge(Tokenize(s)) == Assigned("Eg", [d]) && Updated(table, Tokenize(s)) == table["Eg" := [d]]
  {
    AssignmentTokens(s, d);
  }

  /** The empty input has no tokens; the grammar finds it too short and the
      semantic check finds no tokens. */
  lemma EmptyExample(table: map<string, string>)
    ensures Tokenize("") == []
    ensures MainParser.ValidarBNF(Tokenize("")) == MainParser.Reject(MainParser.TooShort)
    ensures Judge(Tokenize("")) == NoTokens && Updated(table, Tokenize("")) == table
  {
    NoVocabularyNoTokens("");
  }

  /** Assigning a and then b to "Eg", starting from an empty table, leaves
      "Eg" mapped to b and nothing else in the table. */
  lemma ReassignmentTable(a: char, b: char)
    requires IsDigit(a) && IsDigit(b)
    ensures Updated(Updated(map[], Tokenize("Eg = " + [a])), Tokenize("Eg = " + [b])) == map["Eg" := [b]]
  {
    AssignmentTokens("Eg = " + [a], a);
    AssignmentTokens("Eg = " + [b], b);
  }

  /** Lexing and checking "Eg = a" and then "Eg = b" on a fresh analyzer
      leaves "Eg" mapped to b and nothing else in the table. */
  method ReassignmentExample(a: char, b: char) returns (table: map<string, string>)
    requires IsDigit(a) && IsDigit(b)
    ensures table == map["Eg" := [b]]
  {
    var analyzer := new SemanticAnalyzer();
    var first := Analizar("Eg = " + [a]);
    var ok1, outcome1 := analyzer.ValidarSemantica(first);
    var second := Analizar("Eg = " + [b]);
    var ok2, outcome2 := analyzer.ValidarSemantica(second);
    table := analyzer.tablaSimbolos;
    ReassignmentTable(a, b);
  }
}
