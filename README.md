# lenguajenordico in Dafny

A model of the analyser for a toy Faroese/Icelandic sentence language
(`src/Main.java`). The program has three parts.

- **The lexer** (`Lexer.analizar`) scans the input with one fixed pattern and
  classifies every match by its text. The pattern's alternatives, in order,
  are:
  - the subject words `Eg`, `Tú`, `Hann`;
  - the verb words `eri`, `ert`, `er`;
  - the object words `heima`, `skúla`;
  - a run of digits;
  - one of `=`, `+`, `-`, `*`, `/`.

  Each keyword alternative matches only as a whole word.
- **Two grammar checks.**
  - The top-level `Parser.validarBNF` accepts exactly three tokens: a
    subject, a verb and an object.
  - The `Parser` class nested inside `Main` shadows the top-level one there.
    It is the one the form calls at `src/Main.java:109`. It rejects lists
    shorter than three tokens, then checks positions 0, 1 and 2 in order and
    ignores anything after the third token.
- **The semantic check** (`SemanticAnalyzer.validarSemantica`) accepts a
  sentence or an assignment (subject, `=`, number). An assignment records
  the number under the subject's text in the symbol table `tablaSimbolos`.

The Dafny files are:

- `lexer.dfy` (module `Lexer`). The pattern becomes a hand-written matcher.
  `MatchEnd(s, i)` tries the alternatives at `i` in pattern order.
  `ScanFrom` is the sequence of matches that repeated `find()` calls report.
  `Analizar` is the source's loop: an imperative method proved equal to
  `Tokenize`, the function the lemmas are about. The word-character test
  behind `\b` is the explicit predicate `IsWordChar`: ASCII letters, digits,
  `_`, and the letters of Latin-1 (`ª`, `µ`, `º`, and `À` to `ÿ` except `×`
  and `÷`), so that `ú` in `Tú` and `skúla` is part of a word.
- `parser.dfy` holds two modules. `Parser` is the top-level check.
  `MainParser` is the nested check; it returns a `Verdict` that carries the
  reason for a rejection in place of the printed diagnostic.
- `semantic.dfy` (module `Semantic`). The class `SemanticAnalyzer` has the
  symbol table as a `map<string, string>` field. Its method
  `ValidarSemantica` modifies it, and is specified against the functions
  `Judge` (which branch is taken) and `Updated` (the new table).
- `scenarios.dfy`. Worked inputs, from the text through the tokens to both
  checks and the table.

The top-level `Parser.validarBNF` (src/Main.java:56-61) accepts exactly
three tokens. The form, however, calls the nested, lenient check
(src/Main.java:109). The model
follows the code: both checks are modelled, `MainParser.LongerSentenceAccepted`
shows a four-token list that the form accepts and the top-level check
rejects, and `MainParser.AgreesOnThree` shows that the two checks agree on
lists of exactly three tokens. Both grammar checks change no state. They are
Dafny functions, so repeating a call gives the same result.

## Model

| member | source | states |
|---|---|---|
| `Lexer.KeywordEnd` | src/Main.java:30 | A keyword alternative's match at `i`, when there is one, is a word of its list standing there as a whole word (`\b` before and after). There is no match exactly when no word of the list stands there whole. |
| `Lexer.KeywordEndFirst` | src/Main.java:30 | Alternatives are tried in order: the word matched is the first word of the list that stands at `i` as a whole word. No earlier word of the list stands there. |
| `Lexer.DigitRunEnd` | src/Main.java:30 | `[0-9]+` at a digit matches the maximal run: every character up to the end is a digit, and the next character (if any) is not. |
| `Lexer.MatchEnd` | src/Main.java:30 | The whole pattern tried at one position, alternatives in pattern order. A match is non-empty and lies inside the input. `NoMatchIff`, `WholeWordMatched`, `DigitsMatched`, `SymbolMatched` and `SeparatorSkipped` say which match it gives. |
| `Lexer.NoMatchIff` | src/Main.java:30 | No alternative matches at `i` exactly when `s[i]` is neither a digit nor an operator character and no keyword stands at `i` as a whole word. |
| `Lexer.ScanFrom` | src/Main.java:37 | The matches that repeated `find()` calls report from a position are a leftmost scan: each starts at the first position where any match starts, and after the last one nothing matches. |
| `Lexer.LeftmostScanUnique` | src/Main.java:37 | The leftmost-match rule determines the scan: any span sequence that obeys it is the one `ScanFrom` computes. |
| `Lexer.Find` | src/Main.java:37 | One `find()`: it returns the leftmost match at or after the resume point, or reports that no match starts anywhere after it. |
| `Lexer.Analizar` | src/Main.java:33-51 | The loop returns exactly `Tokenize(codigo)`: one token per match, in scan order, classified by its text. |
| `Lexer.Classify` | src/Main.java:39-46 | The switch on the matched text. It gives `Desconocido` exactly for a text that is no keyword, not `=`, no operator and not all digits. `ClassifyVocabulary` gives the kind of each vocabulary class. |
| `Lexer.Tokenize` | src/Main.java:33-50 | What `analizar` returns: the tokens of the scan's matches, in order. There are at most as many tokens as characters, since every match takes at least one. `TokenizeFollowsRules` and `TokenizeEmptyIff` say which tokens they are. |
| `Lexer.ClassifyVocabulary` | src/Main.java:39-46 | Subjects are Sujeto, verbs Verbo, objects Objeto, "=" Asignacion, the four operators OperadorMatematico, digit strings Numero. The three word lists share no word. |
| `Lexer.KeywordClassified` | src/Main.java:30-42 | A match that starts with neither a digit nor an operator character is a keyword match. It is classified as a subject, verb or object according to its list, stands as a whole word, and does not end with a digit. |
| `Lexer.MatchClassified` | src/Main.java:30-46 | A match is Numero exactly when it starts with a digit, and is then a digit run not followed by a digit. Any other match obeys its kind's rule. |
| `Lexer.ScanFollowsRules` | src/Main.java:30-47 | Every match of a scan obeys the rule of its kind. Keywords are whole words. Numbers are maximal digit runs with no digit on either side. Operators are single characters. |
| `Lexer.TokenizeFollowsRules` | src/Main.java:33-50 | The tokens are the matches, left to right. Each token's text is the matched part of the input, its kind is that text's classification, and it obeys its kind's rule. |
| `Lexer.NeverUnknown` | src/Main.java:45 | The lexer never produces a `Desconocido` token. |
| `Lexer.ScanIncreasing` | src/Main.java:37-48 | Matches lie inside the input and come strictly left to right, without overlapping. |
| `Lexer.TokenizeEmptyIff` | src/Main.java:33-50 | The token list is empty exactly when no match starts anywhere in the input. |
| `Lexer.NoVocabularyNoTokens` | src/Main.java:33-50 | An input with no digit, no operator character and no whole keyword gives no tokens. The empty input is one such input. |
| `Lexer.SeparatorSkipped` | src/Main.java:30 | A character that is neither a word character nor an operator character starts no match. |
| `Lexer.WholeWordsExclusive` | src/Main.java:30 | At most one keyword stands as a whole word at any position. So `er` never matches inside `eri` or `ert`. |
| `Lexer.WholeWordMatched` | src/Main.java:30 | A keyword standing at `i` as a whole word is the match at `i`, whole. |
| `Lexer.KeywordBetweenSeparators` | src/Main.java:30 | A keyword with no word character right before or after it is matched whole. |
| `Lexer.SymbolMatched` | src/Main.java:30 | An operator character is a match of length one. |
| `Lexer.DigitsMatched` | src/Main.java:30 | A digit starts a match that runs to the end of its digit run, with no boundary requirement. |
| `Parser.ValidarBNF` | src/Main.java:56-61 | The top-level check. When it accepts, the list's kinds are exactly `[Sujeto, Verbo, Objeto]`. `ValidarBNFShape` proves the converse. |
| `Parser.ValidarBNFShape` | src/Main.java:56-61 | The top-level check accepts exactly when the list's kinds are `[Sujeto, Verbo, Objeto]`, so the list has exactly three tokens. |
| `MainParser.ValidarBNF` | src/Main.java:129-151 | On acceptance the list has at least three tokens and its first three form a sentence. |
| `MainParser.AcceptsSentencePrefix` | src/Main.java:129-151 | The nested check accepts exactly the lists of three or more tokens whose first three are Sujeto, Verbo and Objeto. |
| `MainParser.TrailingTokensIgnored` | src/Main.java:145-150 | Tokens after the third never change the nested check's verdict. |
| `MainParser.AgreesOnThree` | src/Main.java:129-151 | On three-token lists the two checks agree. Whatever the top-level check accepts, the nested one accepts. |
| `MainParser.FirstFailureReported` | src/Main.java:130-148 | Fewer than three tokens is reported as too short. Otherwise the reason is the first failing position, checked in the order 0, 1, 2. Each reason is given exactly in its case. |
| `MainParser.LongerSentenceAccepted` | src/Main.java:129-151 | A sentence followed by a fourth token is accepted by the nested check, which the form uses, and rejected by the top-level check. |
| `Semantic.SemanticAnalyzer.constructor` | src/Main.java:155 | The symbol table starts empty. |
| `Semantic.SemanticAnalyzer.ValidarSemantica` | src/Main.java:158-182 | It takes the source's branch (no tokens, sentence, assignment, meaningless) and returns true exactly for a three-token sentence or assignment. The new table is `Updated(old table, tokens)`. Classified tokens keep the table mapping subjects to numerals. |
| `Semantic.Judge` | src/Main.java:158-181 | The branch the check takes, in the source's order. It reports no tokens exactly for the empty list, and an assignment exactly for three tokens: a subject, `=` and a number. `AcceptedIff` gives when it accepts. |
| `Semantic.Updated` | src/Main.java:172-174 | The table after the check. No key is ever removed. Only an assignment changes the table, and the only key it can add is the subject's text. `AssignmentUpserts`, `LastWriteWins` and `UpdatedIdempotent` say more. |
| `Semantic.AcceptedIff` | src/Main.java:158-182 | The check accepts exactly sentences and assignments. It reports "no tokens" exactly for the empty list. |
| `Semantic.SentenceKeepsTable` | src/Main.java:165-169 | Whatever the top-level grammar check accepts, the semantic check accepts, and the table is unchanged. |
| `Semantic.RejectionKeepsTable` | src/Main.java:159-181 | A rejected list (empty or meaningless) leaves the table unchanged. |
| `Semantic.AssignmentUpserts` | src/Main.java:172-176 | An assignment adds the subject's key, maps it to the number's text, and leaves every other entry as it was. |
| `Semantic.UpdatedIdempotent` | src/Main.java:172-176 | Running the check twice on the same list leaves the same table as running it once. |
| `Semantic.LastWriteWins` | src/Main.java:174 | Of two assignments to the same subject, the later one decides the table. |
| `Semantic.UpdatedKeepsWellFormed` | src/Main.java:172-174 | Fed classified tokens, the table only ever maps subject words to digit strings. |
| `Semantic.LexedTokensWellFormed` | src/Main.java:39-47 | Every token the lexer produces is classified by its own text. |
| `Scenarios.SentenceTokens` | src/Main.java:33-51 | "Eg er heima" lexes to subject "Eg", verb "er" and object "heima". The spaces are skipped. |
| `Scenarios.SentenceExample` | src/Main.java:109 | Both grammar checks and the semantic check accept "Eg er heima". The table is unchanged. |
| `Scenarios.AccentedTokens` | src/Main.java:30 | "Tú ert skúla" lexes to a subject, a verb and an object. The words with `ú` are whole words. |
| `Scenarios.AccentedExample` | src/Main.java:109 | Both grammar checks and the semantic check accept "Tú ert skúla". |
| `Scenarios.AssignmentTokens` | src/Main.java:30-46 | "Eg = d", for a digit d, lexes to a subject, the assignment sign and a number. |
| `Scenarios.AssignmentExample` | src/Main.java:172-176 | The grammar checks reject "Eg = d" (the nested one at the verb). The semantic check accepts it and records d under "Eg". |
| `Scenarios.EmptyExample` | src/Main.java:130-162 | The empty input has no tokens. The nested check finds it too short, and the semantic check finds no tokens. |
| `Scenarios.ReassignmentTable` | src/Main.java:174 | Assigning a and then b to "Eg", starting from an empty table, leaves only "Eg" mapped to b. |
| `Scenarios.ReassignmentExample` | src/Main.java:155-176 | Lexing and checking "Eg = a" and then "Eg = b" on a fresh analyzer leaves only "Eg" mapped to b. |

## Left out

- The Swing window, the button listener, the `trim()` and empty-input guard and the rendering of results (src/Main.java:66-125) are user interface and I/O. The model's lexer and checks take any string and any token list, the empty ones included.
- The `System.out.println` diagnostics (src/Main.java:131-180) are not printed. The branch taken is returned instead: a `MainParser.Reason` for the nested grammar check and a `Semantic.Outcome` for the semantic check.
- `Token.toString` (src/Main.java:22-24) is presentation only.
- The Java regex engine is replaced by a hand-written matcher for this one pattern. Which characters `\b` treats as word characters depends on the JDK version and its flags. The model fixes the choice in `IsWordChar`: ASCII letters, digits, `_`, and the letters of Latin-1 (`ª`, `µ`, `º`, and `À` to `ÿ` except `×` and `÷`). This is what `\b` does before JDK 19 within Latin-1. Letters and digits beyond Latin-1 count as non-word characters here, although Java before JDK 19 counts them as word characters.
- Java strings are UTF-16. The model's strings are sequences of characters, so characters outside the Basic Multilingual Plane (surrogate pairs) are not modelled.
- `tablaSimbolos` is a static field, shared by every caller in the process. The model makes it a field of one `SemanticAnalyzer` object. Several analyzers in the model therefore have separate tables where the source has one.
- Concurrent use of the shared `HashMap` is not modelled. The source assumes a single thread.
