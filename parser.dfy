/** The top-level grammar check: a sentence is exactly a subject, a verb and
    an object, in that order. */
module Parser {
  import opened Lexer

  /** The kinds of the one sentence shape the grammar accepts. */
  const SentenceShape: seq<Kind> := [Sujeto, Verbo, Objeto]

  /** The kinds of `tokens`, in order. */
  function Kinds(tokens: seq<Token>): (r: seq<Kind>)
    ensures |r| == |tokens| && forall k :: 0 <= k < |r| ==> r[k] == tokens[k].tipo
  {
    seq(|tokens|, k requires 0 <= k < |tokens| => tokens[k].tipo)
  }

  /** `Parser.validarBNF`: exactly three tokens, of kinds Sujeto, Verbo and Objeto. */
  function ValidarBNF(tokens: seq<Token>): (r: bool)
    ensures r ==> Kinds(tokens) == SentenceShape
  {
    |tokens| == 3 && tokens[0].tipo == Sujeto && tokens[1].tipo == Verbo && tokens[2].tipo == Objeto
  }

  /** The grammar accepts a token list exactly when its kinds are the sentence shape. */
  lemma ValidarBNFShape(tokens: seq<Token>)
    ensures ValidarBNF(tokens) <==> Kinds(tokens) == SentenceShape
  {
    if Kinds(tokens) == SentenceShape {
      assert Kinds(tokens)[0] == Sujeto && Kinds(tokens)[1] == Verbo && Kinds(tokens)[2] == Objeto;
    }
  }
}

/** The grammar check nested inside `Main`, which shadows the top-level one
    there and is the one the form calls: it rejects lists shorter than three
    tokens and then checks positions 0, 1 and 2 in order, reporting the first
    that fails; tokens after the third are not looked at. */
module MainParser {
  import opened Lexer
  import Parser

  /** Why a token list was rejected, one reason per diagnostic the source prints. */
  datatype Reason = TooShort | NotSubject | NotVerb | NotObject

  datatype Verdict = Accept | Reject(reason: Reason)

  /** `Main.Parser.validarBNF`; the source's boolean is `Accept?`. */
  function ValidarBNF(tokens: seq<Token>): (v: Verdict)
    ensures v.Accept? ==> |tokens| >= 3 && Parser.ValidarBNF(tokens[..3])
  {
    if |tokens| < 3 then Reject(TooShort)
    else if tokens[0].tipo != Sujeto then Reject(NotSubject)
    else if tokens[1].tipo != Verbo then Reject(NotVerb)
    else if tokens[2].tipo != Objeto then Reject(NotObject)
    else Accept
  }

  /** The nested check accepts exactly the lists whose first three tokens form
      a sentence the top-level check accepts. */
  lemma AcceptsSentencePrefix(tokens: seq<Token>)
    ensures ValidarBNF(tokens).Accept? <==> |tokens| >= 3 && Parser.ValidarBNF(tokens[..3])
  {
  }

  /** Tokens after the third never change the verdict, unless the list was too short. */
  lemma TrailingTokensIgnored(tokens: seq<Token>, more: seq<Token>)
    requires |tokens| >= 3
    ensures ValidarBNF(tokens + more) == ValidarBNF(tokens)
  {
    assert (tokens + more)[..3] == tokens[..3];
    assert forall k :: 0 <= k < 3 ==> (tokens + more)[k] == tokens[k];
  }

  /** The two checks agree on lists of exactly three tokens, and the nested
      one accepts whatever the top-level one accepts. */
  lemma AgreesOnThree(tokens: seq<Token>)
    ensures |tokens| == 3 ==> (ValidarBNF(tokens).Accept? <==> Parser.ValidarBNF(tokens))
    ensures Parser.ValidarBNF(tokens) ==> ValidarBNF(tokens).Accept?
  {
  }

  /** The reason reported is the first failing position, checked in order. */
  lemma FirstFailureReported(tokens: seq<Token>)
    ensures ValidarBNF(tokens) == Reject(TooShort) <==> |tokens| < 3
    ensures ValidarBNF(tokens) == Reject(NotSubject) <==> |tokens| >= 3 && tokens[0].tipo != Sujeto
    ensures ValidarBNF(tokens) == Reject(NotVerb)
            <==> |tokens| >= 3 && tokens[0].tipo == Sujeto && tokens[1].tipo != Verbo
    ensures ValidarBNF(tokens) == Reject(NotObject)
            <==> |tokens| >= 3 && tokens[0].tipo == Sujeto && tokens[1].tipo == Verbo
                 && tokens[2].tipo != Objeto
  {
  }

  /** A sentence followed by a number is accepted by the nested check, which
      the form uses, but not by the top-level one. */
  lemma LongerSentenceAccepted()
    ensures var tokens := [Token(Sujeto, "Eg"), Token(Verbo, "er"), Token(Objeto, "heima"), Token(Numero, "5")];
            ValidarBNF(tokens) == Accept && !Parser.ValidarBNF(tokens)
  {
  }
}
