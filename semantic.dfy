/** The semantic check and its symbol table. A token list makes sense when it
    is a sentence (subject, verb, object) or an assignment of a number to a
    subject (subject, '=', number); an assignment records the number under the
    subject's text in the symbol table, overwriting any earlier value. */
module Semantic {
  import opened Lexer
  import Parser

  /** Which branch the check took, one per diagnostic the source prints. */
  datatype Outcome = NoTokens | Sentence | Assigned(name: string, value: string) | Meaningless
  {
    /** The boolean the source returns. */
    predicate Accepted() {
      Sentence? || Assigned?
    }
  }

  /** Exactly three tokens, of kinds Sujeto, Asignacion and Numero. */
  predicate IsAssignment(tokens: seq<Token>) {
    |tokens| == 3 && tokens[0].tipo == Sujeto && tokens[1].tipo == Asignacion && tokens[2].tipo == Numero
  }

  /** The branch `validarSemantica` takes on `tokens`, tried in the source's order. */
  function Judge(tokens: seq<Token>): (r: Outcome)
    ensures r == NoTokens <==> tokens == []
    ensures r.Assigned? <==> IsAssignment(tokens)
  {
    if tokens == [] then NoTokens
    else if Parser.ValidarBNF(tokens) then Sentence
    else if IsAssignment(tokens) then Assigned(tokens[0].valor, tokens[2].valor)
    else Meaningless
  }

  /** The symbol table after the check has run on `tokens`. */
  function Updated(table: map<string, string>, tokens: seq<Token>): (r: map<string, string>)
    ensures table.Keys <= r.Keys
    ensures r != table ==> IsAssignment(tokens)
    ensures forall name :: name in r && name !in table ==> IsAssignment(tokens) && name == tokens[0].valor
  {
    match Judge(tokens)
    case Assigned(name, value) => table[name := value]
    case _ => table
  }

  /** Every token is classified by its own text, as the lexer classifies it. */
  predicate WellFormedTokens(tokens: seq<Token>) {
    forall k :: 0 <= k < |tokens| ==> tokens[k].tipo == Classify(tokens[k].valor)
  }

  /** Every entry maps a subject word to a numeral. */
  predicate WellFormedTable(table: map<string, string>) {
    forall name :: name in table ==> name in Subjects && IsNumeral(table[name])
  }

  /** The analyzer that owns the symbol table. */
  class SemanticAnalyzer {
    /** Subject name to the last number assigned to it. */
    var tablaSimbolos: map<string, string>

    /** The table starts empty. */
    constructor ()
      ensures tablaSimbolos == map[]
    {
      tablaSimbolos := map[];
    }

    /** `validarSemantica`: accept a sentence or an assignment; an assignment
        upserts the subject's entry and nothing else changes. */
    method ValidarSemantica(tokens: seq<Token>) returns (ok: bool, outcome: Outcome)
      modifies this
      ensures outcome == Judge(tokens) && ok == outcome.Accepted()
      ensures ok <==> Parser.ValidarBNF(tokens) || IsAssignment(tokens)
      ensures tablaSimbolos == Updated(old(tablaSimbolos), tokens)
      ensures WellFormedTable(old(tablaSimbolos)) && WellFormedTokens(tokens) ==> WellFormedTable(tablaSimbolos)
    {
      if tokens == [] {
        return false, NoTokens;
      }
      if |tokens| == 3 && tokens[0].tipo == Sujeto && tokens[1].tipo == Verbo && tokens[2].tipo == Objeto {
        return true, Sentence;
      }
      if |tokens| == 3 && tokens[0].tipo == Sujeto && tokens[1].tipo == Asignacion && tokens[2].tipo == Numero {
        tablaSimbolos := tablaSimbolos[tokens[0].valor := tokens[2].valor];
        if WellFormedTable(old(tablaSimbolos)) && WellFormedTokens(tokens) {
          UpdatedKeepsWellFormed(old(tablaSimbolos), tokens);
        }
        return true, Assigned(tokens[0].valor, tokens[2].valor);
      }
      return false, Meaningless;
    }
  }

  /** The check accepts exactly sentences and assignments, and reports "no
      tokens" exactly for the empty list. */
  lemma AcceptedIff(tokens: seq<Token>)
    ensures Judge(tokens).Accepted() <==> Parser.ValidarBNF(tokens) || IsAssignment(tokens)
    ensures Judge(tokens) == NoTokens <==> tokens == []
  {
  }

  /** Whatever the grammar check accepts, the semantic check accepts too, and
      the table is left as it was. */
  lemma SentenceKeepsTable(table: map<string, string>, tokens: seq<Token>)
    requires Parser.ValidarBNF(tokens)
    ensures Judge(tokens) == Sentence && Updated(table, tokens) == table
  {
  }

  /** A rejected list leaves the table as it was. */
  lemma RejectionKeepsTable(table: map<string, string>, tokens: seq<Token>)
    requires !Judge(tokens).Accepted()
    ensures Updated(table, tokens) == table
  {
  }

  /** An assignment maps the subject's text to the number's text, and every
      other entry stays as it was. */
  lemma AssignmentUpserts(table: map<string, string>, tokens: seq<Token>)
    requires IsAssignment(tokens)
    ensures var after := Updated(table, tokens);
            Judge(tokens) == Assigned(tokens[0].valor, tokens[2].valor)
            && after.Keys == table.Keys + {tokens[0].valor}
            && after[tokens[0].valor] == tokens[2].valor
            && forall name :: name in table && name != tokens[0].valor ==> after[name] == table[name]
  {
  }

  /** Running the check twice on the same list leaves the table it leaves after once. */
  lemma UpdatedIdempotent(table: map<string, string>, tokens: seq<Token>)
    ensures Updated(Updated(table, tokens), tokens) == Updated(table, tokens)
  {
  }

  /** Of two assignments to the same subject, the later one wins. */
  lemma LastWriteWins(table: map<string, string>, first: seq<Token>, second: seq<Token>)
    requires IsAssignment(first) && IsAssignment(second)
    requires first[0].valor == second[0].valor
    ensures Updated(Updated(table, first), second) == Updated(table, second)
  {
  }

  /** Fed with classified tokens, the table only ever maps subjects to numerals. */
  lemma UpdatedKeepsWellFormed(table: map<string, string>, tokens: seq<Token>)
    requires WellFormedTable(table) && WellFormedTokens(tokens)
    ensures WellFormedTable(Updated(table, tokens))
  {
    if IsAssignment(tokens) && !Parser.ValidarBNF(tokens) {
      assert Classify(tokens[0].valor) == Sujeto && Classify(tokens[2].valor) == Numero;
    }
  }

  /** The lexer's tokens are classified by their own text. */
  lemma LexedTokensWellFormed(s: string)
    ensures WellFormedTokens(Tokenize(s))
  {
  }
}
