/** The identifier/bracket tokenizer of src/lexer.rs: a state machine that
    buffers identifiers, emits brackets as single tokens, skips everything
    else and reports end of input. Input is a sequence of ASCII characters,
    so the source's byte length and character index agree. */
module Lexing {

  newtype int32 = x: int | -0x8000_0000 <= x < 0x8000_0000

  /** The tokens of the source's toy language. The two `f32`-carrying variants
      are left out: the lexer never produces them. */
  datatype Token =
    | ParensL | ParensR
    | BracketL | BracketR
    | BraceL | BraceR
    | Point | Comma | Colon | Semicolon | ArrowR
    | Add | Sub | Mul | Div
    | Eq | Lt | Gt | Neq | Nlt | Ngt
    | Not | And | Or
    | Assign
    | Func | Let | If | Else | While | Print
    | Id(name: string)
    | TypeInt32(intType: int32)
    | TypeChar(charType: char)
    | LitInt32(intLit: int32)
    | LitChar(charLit: char)
    | LitString(stringLit: string)
    | Eoi

  /** `Equals`, `LessThan` and `GreaterThan` are declared but never entered. */
  datatype LexerState = Start | End | State1 | Equals | LessThan | GreaterThan

  /** The first character of an identifier: `'A'..='Z' | 'a'..='z' | '_'`. */
  predicate IsIdStart(c: char) {
    'A' <= c <= 'Z' || 'a' <= c <= 'z' || c == '_'
  }

  /** A later character of an identifier: `'A'..'Z' | '_' | 'a'..'z' | '0'..'9'`.
      The ranges are exclusive, so `Z`, `z` and `9` end an identifier. */
  predicate IsIdContinue(c: char) {
    'A' <= c < 'Z' || c == '_' || 'a' <= c < 'z' || '0' <= c < '9'
  }

  predicate IsBracket(c: char) {
    c == '{' || c == '}' || c == '[' || c == ']' || c == '(' || c == ')'
  }

  /** The single-character token of a bracket. */
  function BracketOf(c: char): Token
    requires IsBracket(c)
  {
    match c
    case '{' => BraceL
    case '}' => BraceR
    case '[' => BracketL
    case ']' => BracketR
    case '(' => ParensL
    case ')' => ParensR
  }

  /** A name an `Id` token can carry. */
  predicate IsIdentifier(name: string) {
    |name| > 0 && IsIdStart(name[0]) && forall k :: 1 <= k < |name| ==> IsIdContinue(name[k])
  }

  /** What one call of `advance` yields: the token, the new position, the new state. */
  datatype Scanned = Scanned(token: Token, position: nat, state: LexerState)

  /** The specification of the scanning loop of `advance`, started at `pos` with
      `buffer` already read; an empty buffer stands for state `Start`, a non-empty
      one for `State1`. */
  function Scan(input: string, pos: nat, buffer: string): Scanned
    requires pos <= |input|
    decreases |input| - pos
  {
    if pos == |input| then
      if buffer != [] then Scanned(Id(buffer), pos, Start) else Scanned(Eoi, pos, End)
    else
      var c := input[pos];
      if buffer == [] then
        if IsIdStart(c) then Scan(input, pos + 1, [c])
        else if IsBracket(c) then Scanned(BracketOf(c), pos + 1, Start)
        else Scan(input, pos + 1, [])
      else if IsIdContinue(c) then Scan(input, pos + 1, buffer + [c])
      else Scanned(Id(buffer), pos, Start)
  }

  class Lexer {
    var input: string
    var position: nat
    var state: LexerState
    var currentToken: Token
    var buffer: string

    /** Between calls the buffer is empty and the lexer is in `Start`, or in `End`
        with all input read. */
    ghost predicate Valid()
      reads this
    {
      position <= |input| && buffer == [] &&
      (state == Start || (state == End && position == |input|))
    }

    /** `Lexer::new`. */
    constructor (input: string)
      ensures Valid()
      ensures this.input == input && position == 0 && state == Start
      ensures currentToken == Eoi && buffer == []
    {
      this.input := input;
      position := 0;
      state := Start;
      currentToken := Eoi;
      buffer := [];
    }

    /** `Lexer::set_input`: starts over on new input. */
    method SetInput(input: string)
      modifies this
      ensures Valid()
      ensures this.input == input && position == 0 && state == Start
      ensures currentToken == Eoi && buffer == []
    {
      this.input := input;
      position := 0;
      state := Start;
      currentToken := Eoi;
      buffer := [];
    }

    /** `Lexer::curr`: the current token; it changes nothing. */
    method Curr() returns (t: Token)
      ensures t == currentToken
    {
      t := currentToken;
    }

    /** `Lexer::advance`: reads the next token. The character that ends an
        identifier is pushed back, to be read again by the next call. */
    method Advance() returns (t: Token)
      requires Valid()
      modifies this
      ensures Valid()
      ensures input == old(input) && t == currentToken
      ensures Scanned(t, position, state) == Scan(input, old(position), [])
    {
      ghost var goal := Scan(input, position, []);
      while true
        invariant position <= |input|
        invariant state == Start || state == State1 || (state == End && position == |input|)
        invariant buffer != [] <==> state == State1
        invariant Scan(input, position, buffer) == goal
        invariant input == old(input)
        decreases |input| - position
      {
        if position >= |input| {
          if buffer != [] {
            state := Start;
            currentToken := Id(buffer);
            buffer := [];
            break;
          }
          state := End;
          currentToken := Eoi;
          break;
        }

        var c := input[position];
        position := position + 1;

        if state == Start {
          assert buffer == [];
          if IsIdStart(c) {
            assert buffer + [c] == [c];
            state := State1;
            buffer := buffer + [c];
          } else if c == '{' {
            currentToken := BraceL;
            break;
          } else if c == '}' {
            currentToken := BraceR;
            break;
          } else if c == '[' {
            currentToken := BracketL;
            break;
          } else if c == ']' {
            currentToken := BracketR;
            break;
          } else if c == '(' {
            currentToken := ParensL;
            break;
          } else if c == ')' {
            currentToken := ParensR;
            break;
          }
        } else if state == State1 {
          if IsIdContinue(c) {
            buffer := buffer + [c];
          } else {
            state := Start;
            currentToken := Id(buffer);
            buffer := [];
            position := position - 1;
            break;
          }
        }
      }
      t := Curr();
    }
  }

  // ------------------------------------------------------------------ lemmas

  /** A scan ends in `Start` or `End`, never in another state; it ends in `End`
      exactly when it yields `Eoi`, and then all input is read. Started with an
      empty buffer before the end of input, it consumes at least one character. */
  lemma {:induction false} ScanOutcome(input: string, pos: nat, buffer: string)
    requires pos <= |input|
    ensures var r := Scan(input, pos, buffer);
      pos <= r.position <= |input| &&
      (r.state == Start || r.state == End) &&
      (r.state == End <==> r.token == Eoi) &&
      (r.state == End ==> r.position == |input| && buffer == []) &&
      (buffer == [] && pos < |input| ==> r.position > pos)
    decreases |input| - pos
  {
    if pos < |input| {
      var c := input[pos];
      if buffer == [] {
        if IsIdStart(c) {
          ScanOutcome(input, pos + 1, [c]);
        } else if !IsBracket(c) {
          ScanOutcome(input, pos + 1, []);
        }
      } else if IsIdContinue(c) {
        ScanOutcome(input, pos + 1, buffer + [c]);
      }
    }
  }

  /** Once end of input is reached with an empty buffer, every further call
      yields `Eoi` again and stays where it is. */
  lemma EoiIsIdempotent(input: string, pos: nat)
    requires pos <= |input|
    requires Scan(input, pos, []).token == Eoi
    ensures var r := Scan(input, pos, []);
      r.position == |input| && r.state == End && Scan(input, r.position, []) == r
  {
    ScanOutcome(input, pos, []);
  }

  /** In state `Start`, a bracket is one token and consumes one character. */
  lemma BracketIsOneToken(input: string, pos: nat)
    requires pos < |input| && IsBracket(input[pos])
    ensures Scan(input, pos, []) == Scanned(BracketOf(input[pos]), pos + 1, Start)
    ensures input[pos] == '(' ==> Scan(input, pos, []).token == ParensL
    ensures input[pos] == ')' ==> Scan(input, pos, []).token == ParensR
    ensures input[pos] == '[' ==> Scan(input, pos, []).token == BracketL
    ensures input[pos] == ']' ==> Scan(input, pos, []).token == BracketR
    ensures input[pos] == '{' ==> Scan(input, pos, []).token == BraceL
    ensures input[pos] == '}' ==> Scan(input, pos, []).token == BraceR
  {
  }

  /** In state `Start`, a character that starts neither an identifier nor a bracket
      is skipped without a token. */
  lemma OtherCharactersSkipped(input: string, pos: nat)
    requires pos < |input| && !IsIdStart(input[pos]) && !IsBracket(input[pos])
    ensures Scan(input, pos, []) == Scan(input, pos + 1, [])
  {
  }

  /** Digits and white space are among the skipped characters. */
  lemma DigitsAndSpacesSkipped(c: char)
    requires '0' <= c <= '9' || c == ' ' || c == '\t' || c == '\n'
    ensures !IsIdStart(c) && !IsBracket(c)
  {
  }

  /** An `Id` result names an identifier read from `origin` on, ending at the new
      position, whose terminating character (if any) is left unread. */
  predicate IdentifierEndsScan(input: string, r: Scanned, origin: nat) {
    r.token.Id? ==>
      IsIdentifier(r.token.name) &&
      origin + |r.token.name| <= r.position <= |input| &&
      r.token.name == input[r.position - |r.token.name|..r.position] &&
      (r.position == |input| || !IsIdContinue(input[r.position]))
  }

  /** Generalised form of `IdentifierToken`: with `buffer` holding the identifier
      read so far, ending at `pos`. */
  lemma {:induction false} IdentifierFrom(input: string, pos: nat, buffer: string, origin: nat)
    requires origin <= pos <= |input|
    requires buffer == [] || (IsIdentifier(buffer) && origin + |buffer| <= pos &&
                              buffer == input[pos - |buffer|..pos])
    ensures IdentifierEndsScan(input, Scan(input, pos, buffer), origin)
    decreases |input| - pos
  {
    if pos < |input| {
      var c := input[pos];
      if buffer == [] {
        if IsIdStart(c) {
          assert Scan(input, pos, buffer) == Scan(input, pos + 1, [c]);
          ExtendIdentifier(input, pos, [], origin);
          IdentifierFrom(input, pos + 1, [c], origin);
        } else if !IsBracket(c) {
          assert Scan(input, pos, buffer) == Scan(input, pos + 1, []);
          IdentifierFrom(input, pos + 1, [], origin);
        } else {
          assert !Scan(input, pos, buffer).token.Id?;
        }
      } else if IsIdContinue(c) {
        assert Scan(input, pos, buffer) == Scan(input, pos + 1, buffer + [c]);
        ExtendIdentifier(input, pos, buffer, origin);
        IdentifierFrom(input, pos + 1, buffer + [c], origin);
      } else {
        assert Scan(input, pos, buffer) == Scanned(Id(buffer), pos, Start);
      }
    }
  }

  /** Reading one more identifier character keeps the buffer an identifier that
      ends at the position. */
  lemma ExtendIdentifier(input: string, pos: nat, buffer: string, origin: nat)
    requires origin <= pos < |input|
    requires buffer == [] ==> IsIdStart(input[pos])
    requires buffer != [] ==> IsIdContinue(input[pos])
    requires buffer == [] || (IsIdentifier(buffer) && origin + |buffer| <= pos &&
                              buffer == input[pos - |buffer|..pos])
    ensures var b := buffer + [input[pos]];
      IsIdentifier(b) && origin + |b| <= pos + 1 && b == input[pos + 1 - |b|..pos + 1]
  {
  }

  /** An `Id` token names the characters just before the new position: they start
      with a letter or `_`, continue only with `A..Y`, `a..y`, `0..8` or `_`, and
      the character that ended the identifier (if any) is left unread. */
  lemma IdentifierToken(input: string, pos: nat)
    requires pos <= |input|
    ensures var r := Scan(input, pos, []);
      r.token.Id? ==>
        IsIdentifier(r.token.name) &&
        pos + |r.token.name| <= r.position <= |input| &&
        r.token.name == input[r.position - |r.token.name|..r.position] &&
        (r.position == |input| || !IsIdContinue(input[r.position]))
  {
    IdentifierFrom(input, pos, [], pos);
  }

  /** An identifier still buffered at end of input is emitted, not dropped. */
  lemma {:induction false} TrailingIdentifierEmitted(input: string, pos: nat)
    requires pos < |input| && IsIdStart(input[pos])
    requires forall k :: pos < k < |input| ==> IsIdContinue(input[k])
    ensures Scan(input, pos, []) == Scanned(Id(input[pos..]), |input|, Start)
  {
    assert [input[pos]] == input[pos..pos + 1];
    TrailingFrom(input, pos, pos + 1);
  }

  lemma {:induction false} TrailingFrom(input: string, from: nat, pos: nat)
    requires from < pos <= |input|
    requires forall k :: pos <= k < |input| ==> IsIdContinue(input[k])
    ensures Scan(input, pos, input[from..pos]) == Scanned(Id(input[from..]), |input|, Start)
    decreases |input| - pos
  {
    if pos < |input| {
      assert input[from..pos] + [input[pos]] == input[from..pos + 1];
      TrailingFrom(input, from, pos + 1);
    } else {
      assert input[from..pos] == input[from..];
    }
  }

  /** The exclusive ranges: `Z` ends an identifier and starts the next one. */
  lemma UpperZEndsIdentifier()
    ensures Scan("aZ", 0, []) == Scanned(Id("a"), 1, Start)
    ensures Scan("aZ", 1, []) == Scanned(Id("Z"), 2, Start)
  {
  }

  /** The exclusive ranges: `9` ends an identifier and is then skipped. */
  lemma NineEndsIdentifier()
    ensures Scan("x9", 0, []) == Scanned(Id("x"), 1, Start)
    ensures Scan("x9", 1, []) == Scanned(Eoi, 2, End)
  {
  }
}
