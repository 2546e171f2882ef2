/** The lexer of the toy Faroese/Icelandic sentence language.

    The source scans its input with one fixed regular expression whose
    alternatives are, in order: the subject words, the verb words and the
    object words, each only as a whole word; a run of decimal digits; and one
    of the five characters '=', '+', '-', '*', '/'. It reports every match
    that `Matcher.find()` returns, left to right. Here the pattern is a
    hand-written matcher: `MatchEnd(s, i)` tries the alternatives at position
    `i` in pattern order, `ScanFrom` is the sequence of matches `find()`
    reports, and `Analizar` is the source's loop. */
module Lexer {

  datatype Option<T> = None | Some(value: T)

  /** The token categories of the source (the strings it stores in `tipo`). */
  datatype Kind = Sujeto | Verbo | Objeto | Asignacion | OperadorMatematico | Numero | Desconocido

  /** A classified piece of the input: its kind and the matched text. */
  datatype Token = Token(tipo: Kind, valor: string)

  /** A match reported by the scanner: the half-open range [start, end) of the input. */
  datatype Span = Span(start: nat, end: nat)

  // The three keyword alternatives of the pattern, each in pattern order.
  const Subjects: seq<string> := ["Eg", "Tú", "Hann"]
  const Verbs: seq<string> := ["eri", "ert", "er"]
  const Objects: seq<string> := ["heima", "skúla"]

  /** The three keyword alternatives one after the other: trying them in this
      order is trying the three alternatives of the pattern in order. */
  const Keywords: seq<string> := Subjects + Verbs + Objects

  /** The operators the classifier names "Operador Matemático". */
  const MathOperators: seq<string> := ["+", "-", "*", "/"]

  /** `[0-9]`: ASCII decimal digits only. */
  predicate IsDigit(c: char) {
    '0' <= c <= '9'
  }

  /** The single-character alternative: '=', '+', '-', '*' or '/'. */
  predicate IsSymbol(c: char) {
    c == '=' || c == '+' || c == '-' || c == '*' || c == '/'
  }

  /** The word characters that `\b` separates from non-word characters:
      ASCII letters, digits and '_', and the letters of Latin-1, which are
      'ª', 'µ', 'º' and 'À' to 'ÿ' except '×' and '÷' (so that 'ú' in "Tú"
      and "skúla" is part of a word). */
  predicate IsWordChar(c: char) {
    ('a' <= c <= 'z') || ('A' <= c <= 'Z') || IsDigit(c) || c == '_'
    || c == 'ª' || c == 'µ' || c == 'º'
    || ('À' <= c <= 'ÿ' && c != '×' && c != '÷')
  }

  /** Whether position `k` of `s` holds a word character (positions outside `s` do not). */
  predicate WordAt(s: string, k: int) {
    0 <= k < |s| && IsWordChar(s[k])
  }

  /** `\b` at position `k`: a word character on exactly one side of it. */
  predicate Boundary(s: string, k: int) {
    WordAt(s, k - 1) != WordAt(s, k)
  }

  /** `w` occurs in `s` starting at position `i`. */
  predicate PrefixAt(s: string, i: nat, w: string) {
    i + |w| <= |s| && s[i..i + |w|] == w
  }

  /** `\b w \b` matches at position `i`. */
  predicate WholeWordAt(s: string, i: nat, w: string) {
    Boundary(s, i) && PrefixAt(s, i, w) && Boundary(s, i + |w|)
  }

  /** The end of the match of `\b(w0|w1|...)\b` at `i`: the first alternative, in
      order, that occurs at `i` as a whole word; None if no alternative does. */
  function KeywordEnd(s: string, i: nat, words: seq<string>): (r: Option<nat>)
    requires i <= |s|
    requires forall j :: 0 <= j < |words| ==> words[j] != []
    ensures r.Some? ==> i < r.value <= |s| && s[i..r.value] in words && WholeWordAt(s, i, s[i..r.value])
    ensures r.None? <==> forall j :: 0 <= j < |words| ==> !WholeWordAt(s, i, words[j])
  {
    if words == [] then None
    else if WholeWordAt(s, i, words[0]) then Some(i + |words[0]|)
    else KeywordEnd(s, i, words[1..])
  }

  /** The keyword alternative picks the first word of its list, in order, that
      stands at `i` as a whole word. */
  lemma {:induction false} KeywordEndFirst(s: string, i: nat, words: seq<string>)
    requires i <= |s|
    requires forall j :: 0 <= j < |words| ==> words[j] != []
    ensures var r := KeywordEnd(s, i, words);
            r.Some? ==> exists j :: 0 <= j < |words| && s[i..r.value] == words[j]
                                    && forall j' :: 0 <= j' < j ==> !WholeWordAt(s, i, words[j'])
    decreases words
  {
    var r := KeywordEnd(s, i, words);
    if words != [] && !WholeWordAt(s, i, words[0]) && r.Some? {
      KeywordEndFirst(s, i, words[1..]);
      var j :| 0 <= j < |words[1..]| && s[i..r.value] == words[1..][j]
               && forall j' :: 0 <= j' < j ==> !WholeWordAt(s, i, words[1..][j']);
      assert s[i..r.value] == words[j + 1];
      forall j' | 0 <= j' < j + 1
        ensures !WholeWordAt(s, i, words[j'])
      {
        if j' > 0 {
          assert words[j'] == words[1..][j' - 1];
        }
      }
    } else if r.Some? {
      assert s[i..r.value] == words[0];
    }
  }

  /** The end of the greedy match of `[0-9]+` that starts at `i`. */
  function DigitRunEnd(s: string, i: nat): (r: nat)
    requires i < |s| && IsDigit(s[i])
    ensures i < r <= |s|
    ensures forall k :: i <= k < r ==> IsDigit(s[k])
    ensures r == |s| || !IsDigit(s[r])
    decreases |s| - i
  {
    if i + 1 < |s| && IsDigit(s[i + 1]) then DigitRunEnd(s, i + 1) else i + 1
  }

  /** The end of the match of the whole pattern at position `i`, trying the
      alternatives in pattern order; None when no alternative matches at `i`. */
  function MatchEnd(s: string, i: nat): (r: Option<nat>)
    requires i < |s|
    ensures r.Some? ==> i < r.value <= |s|
  {
    var keyword := KeywordEnd(s, i, Keywords);
    if keyword.Some? then keyword
    else if IsDigit(s[i]) then Some(DigitRunEnd(s, i))
    else if IsSymbol(s[i]) then Some(i + 1)
    else None
  }

  /** Nothing matches at `i` exactly when `s[i]` is neither a digit nor an
      operator character and no keyword stands there as a whole word. */
  lemma NoMatchIff(s: string, i: nat)
    requires i < |s|
    ensures MatchEnd(s, i).None? <==> !IsDigit(s[i]) && !IsSymbol(s[i]) && !KeywordAt(s, i)
  {
  }

  /** Some keyword of the vocabulary occurs at `i` as a whole word. */
  predicate KeywordAt(s: string, i: nat)
    requires i <= |s|
  {
    exists j :: 0 <= j < |Keywords| && WholeWordAt(s, i, Keywords[j])
  }

  /** The classification switch applied to every matched text. */
  function Classify(w: string): (r: Kind)
    ensures r == Desconocido <==> w !in Keywords && w != "=" && w !in MathOperators && !IsNumeral(w)
  {
    if w in Subjects then Sujeto
    else if w in Verbs then Verbo
    else if w in Objects then Objeto
    else if w == "=" then Asignacion
    else if w in MathOperators then OperadorMatematico
    else if IsNumeral(w) then Numero
    else Desconocido
  }

  /** `w` matches `[0-9]+`. */
  predicate IsNumeral(w: string) {
    |w| > 0 && forall k :: 0 <= k < |w| ==> IsDigit(w[k])
  }

  /** No match of the pattern starts in [lo, hi). */
  predicate NoMatchIn(s: string, lo: nat, hi: nat) {
    forall p :: lo <= p < hi ==> p < |s| && MatchEnd(s, p).None?
  }

  /** `spans` is what the `find()` calls report, one after the other, when the
      search starts at `from` and the last of them returns at position `to`:
      each span is a match of the pattern that starts at the first position,
      counting from where the previous match ended, at which any match starts. */
  predicate Scanned(s: string, from: nat, spans: seq<Span>, to: nat)
    decreases spans
  {
    if spans == [] then from == to
    else
      from <= spans[0].start < spans[0].end <= |s|
      && MatchEnd(s, spans[0].start) == Some(spans[0].end)
      && NoMatchIn(s, from, spans[0].start)
      && Scanned(s, spans[0].end, spans[1..], to)
  }

  /** `spans` is everything repeated `find()` reports from `from` on: after
      the last span no match starts anywhere. */
  predicate LeftmostScan(s: string, from: nat, spans: seq<Span>)
    decreases spans
  {
    if spans == [] then from <= |s| && NoMatchIn(s, from, |s|)
    else
      from <= spans[0].start < spans[0].end <= |s|
      && MatchEnd(s, spans[0].start) == Some(spans[0].end)
      && NoMatchIn(s, from, spans[0].start)
      && LeftmostScan(s, spans[0].end, spans[1..])
  }

  /** The matches found from position `from` on: the scan skips a position at
      which nothing matches and resumes after the end of each match. */
  function ScanFrom(s: string, from: nat): (r: seq<Span>)
    requires from <= |s|
    ensures LeftmostScan(s, from, r)
    decreases |s| - from
  {
    if from == |s| then []
    else match MatchEnd(s, from)
      case None =>
        var rest := ScanFrom(s, from + 1);
        LeftmostSkip(s, from, rest);
        rest
      case Some(e) => [Span(from, e)] + ScanFrom(s, e)
  }

  /** A leftmost match after `from` can be put in front of the scan that resumes after it. */
  lemma LeftmostCons(s: string, from: nat, sp: Span, rest: seq<Span>)
    requires from <= sp.start < sp.end <= |s|
    requires MatchEnd(s, sp.start) == Some(sp.end) && NoMatchIn(s, from, sp.start)
    requires LeftmostScan(s, sp.end, rest)
    ensures LeftmostScan(s, from, [sp] + rest)
  {
    assert ([sp] + rest)[1..] == rest;
  }

  /** A position at which nothing matches can be put in front of a scan. */
  lemma LeftmostSkip(s: string, from: nat, spans: seq<Span>)
    requires from < |s| && MatchEnd(s, from).None?
    requires LeftmostScan(s, from + 1, spans)
    ensures LeftmostScan(s, from, spans)
  {
  }

  /** Every match of a scan lies within the input. */
  predicate InBounds(s: string, spans: seq<Span>) {
    forall k :: 0 <= k < |spans| ==> spans[k].start <= spans[k].end <= |s|
  }

  /** The token the source builds from a match. */
  function TokenAt(s: string, sp: Span): Token
    requires sp.start <= sp.end <= |s|
  {
    var w := s[sp.start..sp.end];
    Token(Classify(w), w)
  }

  /** The tokens of a sequence of matches, in the same order. */
  function TokensOf(s: string, spans: seq<Span>): seq<Token>
    requires InBounds(s, spans)
  {
    seq(|spans|, k requires 0 <= k < |spans| => TokenAt(s, spans[k]))
  }

  /** The tokens `Lexer.analizar` returns for `s`: at most one per character. */
  function Tokenize(s: string): (r: seq<Token>)
    ensures |r| <= |s|
  {
    var spans := ScanFrom(s, 0);
    LeftmostInBounds(s, 0, spans);
    ScanLength(s, 0, spans);
    TokensOf(s, spans)
  }

  /** Every match takes at least one character, so a scan from `from` has at
      most as many matches as characters remain. */
  lemma {:induction false} ScanLength(s: string, from: nat, spans: seq<Span>)
    requires LeftmostScan(s, from, spans)
    ensures from <= |s| && |spans| <= |s| - from
    decreases spans
  {
    if spans != [] {
      ScanLength(s, spans[0].end, spans[1..]);
    }
  }

  /** The matches of a scan lie within the input. */
  lemma {:induction false} LeftmostInBounds(s: string, from: nat, spans: seq<Span>)
    requires LeftmostScan(s, from, spans)
    ensures InBounds(s, spans)
    decreases spans
  {
    if spans != [] {
      LeftmostInBounds(s, spans[0].end, spans[1..]);
      assert forall k :: 0 < k < |spans| ==> spans[k] == spans[1..][k - 1];
    }
  }

  /** `Matcher.find()` from position `from`: the leftmost match starting at or after `from`. */
  method Find(s: string, from: nat) returns (m: Option<Span>)
    requires from <= |s|
    ensures m.None? ==> NoMatchIn(s, from, |s|)
    ensures m.Some? ==> from <= m.value.start < m.value.end <= |s|
                        && MatchEnd(s, m.value.start) == Some(m.value.end)
                        && NoMatchIn(s, from, m.value.start)
  {
    var p := from;
    while p < |s|
      invariant from <= p <= |s|
      invariant NoMatchIn(s, from, p)
    {
      var e := MatchEnd(s, p);
      if e.Some? {
        return Some(Span(p, e.value));
      }
      p := p + 1;
    }
    return None;
  }

  /** `Lexer.analizar`: repeatedly find the next match, classify its text and
      append the token. */
  method Analizar(codigo: string) returns (tokens: seq<Token>)
    ensures tokens == Tokenize(codigo)
  {
    tokens := [];
    var pos: nat := 0;
    ghost var done: seq<Span> := [];
    while true
      invariant pos <= |codigo|
      invariant Scanned(codigo, 0, done, pos)
      invariant InBounds(codigo, done)
      invariant tokens == TokensOf(codigo, done)
      decreases |codigo| - pos
    {
      var m := Find(codigo, pos);
      if m.None? {
        ScannedToEnd(codigo, 0, done, pos);
        LeftmostScanUnique(codigo, 0, done);
        return;
      }
      var sp := m.value;
      ScannedSnoc(codigo, 0, done, pos, sp);
      var palabra := codigo[sp.start..sp.end];
      TokensOfSnoc(codigo, done, sp);
      tokens := tokens + [Token(Classify(palabra), palabra)];
      done := done + [sp];
      pos := sp.end;
    }
  }

  /** One more `find()`: the leftmost match after the resume point extends the scan. */
  lemma {:induction false} ScannedSnoc(s: string, from: nat, spans: seq<Span>, to: nat, sp: Span)
    requires Scanned(s, from, spans, to)
    requires to <= sp.start < sp.end <= |s|
    requires MatchEnd(s, sp.start) == Some(sp.end)
    requires NoMatchIn(s, to, sp.start)
    ensures Scanned(s, from, spans + [sp], sp.end)
    decreases spans
  {
    if spans != [] {
      ScannedSnoc(s, spans[0].end, spans[1..], to, sp);
      assert (spans + [sp])[1..] == spans[1..] + [sp];
    }
  }

  /** When the last `find()` fails, the scan so far is the whole scan. */
  lemma {:induction false} ScannedToEnd(s: string, from: nat, spans: seq<Span>, to: nat)
    requires Scanned(s, from, spans, to)
    requires to <= |s| && NoMatchIn(s, to, |s|)
    ensures LeftmostScan(s, from, spans)
    decreases spans
  {
    if spans != [] {
      ScannedToEnd(s, spans[0].end, spans[1..], to);
    }
  }

  /** Appending a match appends its token. */
  lemma TokensOfSnoc(s: string, spans: seq<Span>, sp: Span)
    requires InBounds(s, spans) && sp.start <= sp.end <= |s|
    ensures InBounds(s, spans + [sp])
    ensures TokensOf(s, spans + [sp]) == TokensOf(s, spans) + [TokenAt(s, sp)]
  {
    assert forall k :: 0 <= k < |spans| ==> (spans + [sp])[k] == spans[k];
  }

  /** The scan is determined by the leftmost-match rule: any sequence of spans
      that satisfies it is the one `ScanFrom` computes. */
  lemma {:induction false} LeftmostScanUnique(s: string, from: nat, spans: seq<Span>)
    requires LeftmostScan(s, from, spans)
    ensures from <= |s| && spans == ScanFrom(s, from)
    decreases |s| - from
  {
    if spans != [] && spans[0].start == from {
      LeftmostScanUnique(s, spans[0].end, spans[1..]);
      assert spans == [spans[0]] + spans[1..];
    } else if from < |s| {
      LeftmostDrop(s, from, spans);
      LeftmostScanUnique(s, from + 1, spans);
    }
  }

  /** A scan that does not start with a match at `from` skips `from`. */
  lemma LeftmostDrop(s: string, from: nat, spans: seq<Span>)
    requires from < |s| && LeftmostScan(s, from, spans)
    requires spans == [] || spans[0].start != from
    ensures MatchEnd(s, from).None? && LeftmostScan(s, from + 1, spans)
  {
  }

  // ---------------------------------------------------------------------
  // What the tokens of an input are

  /** A keyword match stands alone: no word character touches it on either side. */
  predicate WholeWord(s: string, sp: Span)
    requires sp.start <= sp.end <= |s|
  {
    (sp.start == 0 || !IsWordChar(s[sp.start - 1])) && (sp.end == |s| || !IsWordChar(s[sp.end]))
  }

  /** A number match is a whole run of digits: non-empty, no digit right before or after it. */
  predicate MaximalDigits(s: string, sp: Span)
    requires sp.start <= sp.end <= |s|
  {
    IsNumeral(s[sp.start..sp.end])
    && (sp.start == 0 || !IsDigit(s[sp.start - 1])) && (sp.end == |s| || !IsDigit(s[sp.end]))
  }

  /** The rule a match of the given kind obeys: which texts the kind covers and
      what must surround it. No match is of kind `Desconocido`. */
  predicate FollowsRule(s: string, sp: Span, kind: Kind)
    requires sp.start <= sp.end <= |s|
  {
    var w := s[sp.start..sp.end];
    match kind
    case Sujeto => w in Subjects && WholeWord(s, sp)
    case Verbo => w in Verbs && WholeWord(s, sp)
    case Objeto => w in Objects && WholeWord(s, sp)
    case Asignacion => w == "="
    case OperadorMatematico => w in MathOperators
    case Numero => MaximalDigits(s, sp)
    case Desconocido => false
  }

  /** Every keyword begins and ends with a word character, and ends with a non-digit. */
  lemma KeywordEdges(w: string)
    requires w in Keywords
    ensures |w| > 0 && IsWordChar(w[0]) && IsWordChar(w[|w| - 1]) && !IsDigit(w[|w| - 1])
  {
  }

  /** Every text the pattern can match is classified by the alternative it
      comes from; the word lists have no word in common. */
  lemma ClassifyVocabulary(w: string)
    ensures w in Subjects ==> Classify(w) == Sujeto
    ensures w in Verbs ==> Classify(w) == Verbo && w !in Subjects
    ensures w in Objects ==> Classify(w) == Objeto && w !in Subjects && w !in Verbs
    ensures w == "=" ==> Classify(w) == Asignacion
    ensures w in MathOperators ==> Classify(w) == OperadorMatematico
    ensures IsNumeral(w) ==> Classify(w) == Numero
  {
    if IsNumeral(w) {
      assert IsDigit(w[0]);
    }
  }

  /** A keyword is classified as a subject, a verb or an object, and neither
      its first nor its last character is a digit. */
  lemma KeywordKind(w: string)
    requires w in Keywords
    ensures Classify(w) == Sujeto || Classify(w) == Verbo || Classify(w) == Objeto
    ensures !IsDigit(w[0]) && !IsDigit(w[|w| - 1])
  {
  }

  /** A match that starts with neither a digit nor an operator character is a
      keyword match: a whole word, classified as a subject, a verb or an object
      according to the list it comes from. */
  lemma KeywordClassified(s: string, i: nat)
    requires i < |s| && MatchEnd(s, i).Some? && !IsDigit(s[i]) && !IsSymbol(s[i])
    ensures var e := MatchEnd(s, i).value;
            var kind := Classify(s[i..e]);
            (kind == Sujeto || kind == Verbo || kind == Objeto)
            && FollowsRule(s, Span(i, e), kind) && !IsDigit(s[e - 1])
  {
    var e := KeywordEnd(s, i, Keywords).value;
    var w := s[i..e];
    KeywordEdges(w);
    KeywordKind(w);
    assert s[e - 1] == w[|w| - 1];
  }

  /** What one match is: the kind its text is classified as, and the rule it
      obeys on its right (and, for keywords, on both sides). */
  lemma MatchClassified(s: string, i: nat)
    requires i < |s| && MatchEnd(s, i).Some?
    ensures var e := MatchEnd(s, i).value;
            var kind := Classify(s[i..e]);
            (kind == Numero <==> IsDigit(s[i]))
            && (kind != Numero ==> FollowsRule(s, Span(i, e), kind) && !IsDigit(s[e - 1]))
            && (kind == Numero ==> IsNumeral(s[i..e]) && (e == |s| || !IsDigit(s[e])))
  {
    var e := MatchEnd(s, i).value;
    var w := s[i..e];
    if KeywordEnd(s, i, Keywords).Some? {
      KeywordEdges(w);
      KeywordKind(w);
      assert s[i] == w[0];
      KeywordClassified(s, i);
    } else if IsDigit(s[i]) {
      assert IsNumeral(w);
      ClassifyVocabulary(w);
    } else {
      assert w == [s[i]];
    }
  }

  /** Where the scan may resume: not right after a digit that continues into another digit. */
  predicate DigitRunStart(s: string, from: nat)
    requires from <= |s|
  {
    from == 0 || from == |s| || !IsDigit(s[from - 1]) || !IsDigit(s[from])
  }

  /** Each match of a scan obeys the rule of its kind. */
  lemma {:induction false} ScanFollowsRules(s: string, from: nat, spans: seq<Span>)
    requires from <= |s| && DigitRunStart(s, from)
    requires LeftmostScan(s, from, spans)
    ensures InBounds(s, spans)
    ensures forall k :: 0 <= k < |spans| ==>
              FollowsRule(s, spans[k], Classify(s[spans[k].start..spans[k].end]))
    decreases spans
  {
    LeftmostInBounds(s, from, spans);
    if spans != [] {
      var sp := spans[0];
      MatchClassified(s, sp.start);
      if sp.start > from {
        assert MatchEnd(s, sp.start - 1).None?;
      }
      ScanFollowsRules(s, sp.end, spans[1..]);
      assert forall k :: 0 < k < |spans| ==> spans[k] == spans[1..][k - 1];
    }
  }

  /** The tokens of `s` are its matches, left to right, each classified by its
      text: every token's text is the matched part of the input, and the token
      obeys the rule of its kind (so no token is `Desconocido`). */
  lemma TokenizeFollowsRules(s: string)
    ensures var spans := ScanFrom(s, 0);
            var tokens := Tokenize(s);
            |tokens| == |spans| && InBounds(s, spans)
            && forall k :: 0 <= k < |tokens| ==>
                 tokens[k].valor == s[spans[k].start..spans[k].end]
                 && tokens[k].tipo == Classify(tokens[k].valor)
                 && FollowsRule(s, spans[k], tokens[k].tipo)
  {
    ScanFollowsRules(s, 0, ScanFrom(s, 0));
  }

  /** No token the lexer produces is of kind `Desconocido`. */
  lemma NeverUnknown(s: string)
    ensures forall t :: t in Tokenize(s) ==> t.tipo != Desconocido
  {
    TokenizeFollowsRules(s);
  }

  /** The matches of a scan come left to right without overlapping. */
  lemma {:induction false} ScanIncreasing(s: string, from: nat, spans: seq<Span>)
    requires LeftmostScan(s, from, spans)
    ensures forall k :: 0 <= k < |spans| ==> from <= spans[k].start < spans[k].end <= |s|
    ensures forall j, k :: 0 <= j < k < |spans| ==> spans[j].end <= spans[k].start
    decreases spans
  {
    if spans != [] {
      ScanIncreasing(s, spans[0].end, spans[1..]);
      assert forall k :: 0 < k < |spans| ==> spans[k] == spans[1..][k - 1];
    }
  }

  /** The lexer produces no token exactly when no match of the pattern starts anywhere in `s`. */
  lemma TokenizeEmptyIff(s: string)
    ensures Tokenize(s) == [] <==> NoMatchIn(s, 0, |s|)
  {
    if NoMatchIn(s, 0, |s|) {
      LeftmostScanUnique(s, 0, []);
    }
  }

  /** An input without a digit, an operator character or a keyword standing as
      a whole word (the empty input among them) gives no tokens. */
  lemma NoVocabularyNoTokens(s: string)
    requires forall k :: 0 <= k < |s| ==> !IsDigit(s[k]) && !IsSymbol(s[k]) && !KeywordAt(s, k)
    ensures Tokenize(s) == []
  {
    forall k | 0 <= k < |s| ensures MatchEnd(s, k).None? {
      NoMatchIff(s, k);
    }
    TokenizeEmptyIff(s);
  }

  /** A character that is neither part of a word nor an operator starts no match. */
  lemma SeparatorSkipped(s: string, i: nat)
    requires i < |s| && !IsWordChar(s[i]) && !IsSymbol(s[i])
    ensures MatchEnd(s, i).None?
  {
    forall w | w in Keywords
      ensures !WholeWordAt(s, i, w)
    {
      KeywordEdges(w);
    }
  }

  /** Every character of a keyword is a word character. */
  lemma KeywordLetters(w: string)
    requires w in Keywords
    ensures forall k :: 0 <= k < |w| ==> IsWordChar(w[k])
  {
  }

  /** At most one keyword stands as a whole word at any position. */
  lemma WholeWordsExclusive(s: string, i: nat, w1: string, w2: string)
    requires w1 in Keywords
    requires w2 in Keywords
    requires WholeWordAt(s, i, w1) && WholeWordAt(s, i, w2)
    ensures w1 == w2
  {
    if |w1| < |w2| {
      LongerKeywordBlocked(s, i, w1, w2);
      assert false;
    } else if |w2| < |w1| {
      LongerKeywordBlocked(s, i, w2, w1);
      assert false;
    }
  }

  /** Where a keyword occurs as the beginning of a longer keyword, there is no
      word boundary after the shorter one. */
  lemma LongerKeywordBlocked(s: string, i: nat, short: string, long: string)
    requires short in Keywords
    requires long in Keywords
    requires PrefixAt(s, i, short) && PrefixAt(s, i, long) && |short| < |long|
    ensures !Boundary(s, i + |short|)
  {
    KeywordLetters(short);
    KeywordLetters(long);
    assert s[i + |short| - 1] == short[|short| - 1];
    assert s[i + |short|] == long[|short|];
  }

  /** A keyword standing as a whole word is matched whole. */
  lemma WholeWordMatched(s: string, i: nat, w: string)
    requires i < |s|
    requires w in Keywords
    requires WholeWordAt(s, i, w)
    ensures MatchEnd(s, i) == Some(i + |w|)
  {
    var j :| 0 <= j < |Keywords| && Keywords[j] == w;
    assert WholeWordAt(s, i, Keywords[j]);
    var e := MatchEnd(s, i);
    var w' := s[i..e.value];
    WholeWordsExclusive(s, i, w, w');
  }

  /** A keyword with no word character right before or after it is matched whole. */
  lemma KeywordBetweenSeparators(s: string, i: nat, w: string)
    requires w in Keywords
    requires PrefixAt(s, i, w)
    requires i == 0 || !IsWordChar(s[i - 1])
    requires i + |w| == |s| || !IsWordChar(s[i + |w|])
    ensures MatchEnd(s, i) == Some(i + |w|)
  {
    KeywordEdges(w);
    assert s[i] == w[0] && s[i + |w| - 1] == w[|w| - 1];
    WholeWordMatched(s, i, w);
  }

  /** An operator character is matched on its own. */
  lemma SymbolMatched(s: string, i: nat)
    requires i < |s| && IsSymbol(s[i])
    ensures MatchEnd(s, i) == Some(i + 1)
  {
    forall w | w in Keywords
      ensures !WholeWordAt(s, i, w)
    {
      KeywordEdges(w);
    }
  }

  /** A digit starts a match that runs to the end of its run of digits. */
  lemma DigitsMatched(s: string, i: nat)
    requires i < |s| && IsDigit(s[i])
    ensures MatchEnd(s, i) == Some(DigitRunEnd(s, i))
  {
    forall w | w in Keywords
      ensures !WholeWordAt(s, i, w)
    {
      KeywordLetters(w);
      assert !IsDigit(w[0]);
    }
  }
}
