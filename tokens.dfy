/** Lexer tokens as the assembler core consumes them. The tokenizer itself is not part of
    this model; a token is an immutable value. */
module Tokens {
  import opened Common

  /** The token types the core distinguishes; every other lexer type is `OtherType`. */
  datatype TokenType = Number | FloatNumber | Quote | Keyword | Bracket | Operator | OtherType

  /** The lexer's `kind` refinement of a token: none (`null`), a bracket prefix, or another kind. */
  datatype TokenKind = NoKind | BracketPrefix | OtherKind

  /** `{type, kind, text, value}`; `number` is `value.number` of a NUMBER token. Source
      locations only feed error messages and are left out. */
  datatype Token = Token(ttype: TokenType, kind: TokenKind, text: string, number: int)
  {
    /** `token.lowerText` */
    function LowerText(): string { ToLower(text) }
  }

  /** `new Token(TokenType.KEYWORD, null, text, loc)`, the token macro expansion produces. */
  function KeywordToken(text: string): Token
  {
    Token(Keyword, NoKind, text, 0)
  }

  /** `joinTokensTexts('', tokens)`: the tokens' texts glued together. */
  function JoinTexts(tokens: seq<Token>): string
  {
    if tokens == [] then "" else tokens[0].text + JoinTexts(tokens[1..])
  }

  /** `R.pluck('text')` */
  function Texts(tokens: seq<Token>): (r: seq<string>)
    ensures |r| == |tokens|
    ensures forall k :: 0 <= k < |tokens| ==> r[k] == tokens[k].text
  {
    if tokens == [] then [] else [tokens[0].text] + Texts(tokens[1..])
  }
}
