# Rose: grammar data model, identifier/bracket lexer, argument parsing

This project models three small sequential components of Rose, a Rust
tool for formal grammars, and proves properties of the model in Dafny.

- **Grammars** (`grammar.dfy`, src/grammar.rs). A `Rule` is a production
  `lhs -> rhs` over single-character symbols. Upper-case characters are
  nonterminals. `FromRules` builds a `Grammar` in one nested pass. The start
  symbol is the first rule's left-hand side. Each new symbol is pushed onto
  `nonTerminals` or `terminals` unless it is already there. `IsValid` stops at
  the first invalid rule. `Display` accumulates a header and one line per rule.
  These three methods keep the loops of the source. Each is proved equal to a
  specification: `GrammarOf`, the quantifier over rules, and `DisplayText`.
  The alphabets are specified as `Dedup` of two symbol streams, and the lemmas
  prove what the source promises about them.
- **Lexing** (`lexer.dfy`, src/lexer.rs). `Lexer` is a class with the source's
  fields: `input`, `position`, `state`, `currentToken` and `buffer`. `Advance`
  keeps the source's `loop`, including the push-back `position := position - 1`.
  It is proved against `Scan`, a recursive specification of one call.
  The class invariant `Valid()` says that between calls the buffer is empty and
  the state is `Start`, or `End` with all input read. Inside the loop the buffer
  is non-empty exactly in `State1`. Termination is by `|input| - position`.
  Two quirks of the source are kept, not fixed:
  - The continuation ranges are exclusive, so `Z`, `z` and `9` end an
    identifier (`IsIdContinue`).
  - `Equals`, `LessThan` and `GreaterThan` are never entered. The source's
    `_ => {}` arm is the missing `else` in `Advance`.
- **Cli** (`cli.dfy`, src/lib.rs). `Build` is `Config::build`, a pure parser
  from the argument list to a `Config` or an error string. The command word is
  matched exactly. The `--numbered` flag is matched ignoring case.
- **Chars** (`chars.dfy`): ASCII versions of `char::is_uppercase` and
  `str::to_lowercase`, shared by the modules above; **Wrappers**
  (`wrappers.dfy`): the `Option` and `Result` types.

`Rule::new` is the datatype constructor `Rule`. `Sentential`,
`DerivationStep` and `Derivation` are declared as datatypes, as in the
source, which has no operations on them. `FirstNtIndexAgrees` states the
documented meaning of `first_nt_index` (`-1` when the form has no nonterminal).

A rule's lhs goes into `nonTerminals` whatever its case, so an invalid rule
can put one character in both alphabets (`InvalidRuleOverlaps`); they are
disjoint when every rule is valid (`AlphabetsDisjointWhenValid`).

## Model

| member | source | states |
|---|---|---|
| `Grammars.RuleIsValid` | src/grammar.rs:37-39 | true exactly when the lhs is an upper-case letter |
| `Grammars.RuleDisplay` | src/grammar.rs:33-35 | the display is the lhs, then " -> ", then the rhs, with no other character |
| `Grammars.RuleDisplayRoundTrip` | src/grammar.rs:33-35 | `ParseRuleDisplay` reads the rule back from its display text |
| `Grammars.RuleDisplayInjective` | src/grammar.rs:33-35 | two rules with the same display text are the same rule |
| `Grammars.ValidRuleLhsIsNonTerminal` | src/grammar.rs:37-52 | a rule passes `is_valid` (upper-case lhs) so its lhs is a nonterminal of the grammar and never a terminal |
| `Grammars.FromRules` | src/grammar.rs:43-72 | the nested loop builds exactly `GrammarOf(rules)`: start is `rules[0].lhs`, the rules are kept unchanged, and the alphabets are the deduplicated symbol streams; it requires a non-empty list, because the source indexes `rules[0]` |
| `Grammars.StartIsFirstNonTerminal` | src/grammar.rs:43-52 | the start symbol is the first rule's lhs and is the first character of `nonTerminals` |
| `Grammars.AlphabetsHaveNoDuplicates` | src/grammar.rs:49-63 | neither `terminals` nor `nonTerminals` holds a character twice |
| `Grammars.NonTerminalsExact` | src/grammar.rs:49-63 | a character is in `nonTerminals` exactly when it is some rule's lhs or an upper-case character of some rhs |
| `Grammars.TerminalsExact` | src/grammar.rs:53-62 | a character is in `terminals` exactly when it is a non-upper-case character of some rhs |
| `Grammars.TerminalsNeverUpper` | src/grammar.rs:53-62 | no terminal is upper case |
| `Grammars.AlphabetsDisjointWhenValid` | src/grammar.rs:49-63 | when every rule is valid, no character is both a terminal and a nonterminal |
| `Grammars.InvalidRuleOverlaps` | src/grammar.rs:49-61 | with the invalid rule `a -> a`, the character `a` lands in both alphabets |
| `Grammars.AlphabetsKeepInsertionOrder` | src/grammar.rs:49-63 | the alphabets built from the first k rules are prefixes of those built from all rules, so symbols stay in first-occurrence order |
| `Grammars.DedupMembers` | src/grammar.rs:50-61 | pushing each character only when absent keeps exactly the characters of the input |
| `Grammars.DedupNoDuplicates` | src/grammar.rs:50-61 | pushing each character only when absent never stores a character twice |
| `Grammars.DedupHead` | src/grammar.rs:50-52 | the first character read is the first one stored |
| `Grammars.DedupPrefix` | src/grammar.rs:50-61 | reading more input only appends to what is stored |
| `Grammars.IsValid` | src/grammar.rs:82-89 | returns true exactly when every rule has an upper-case lhs |
| `Grammars.Display` | src/grammar.rs:74-80 | the accumulating loop produces `DisplayText(g)`: the header "Grammer:\n", then each rule's display and a newline |
| `Grammars.DisplayShowsEachRule` | src/grammar.rs:74-80 | the display starts with the header, and rule i's line follows the lines of rules 0..i-1, in rule order |
| `Lexing.Lexer.constructor` | src/lexer.rs:90-98 | a new lexer is at position 0, in `Start`, with token `Eoi` and an empty buffer |
| `Lexing.Lexer.SetInput` | src/lexer.rs:100-106 | replaces the input and resets position, state, token and buffer as `new` does |
| `Lexing.Lexer.Curr` | src/lexer.rs:186-188 | returns the current token and changes nothing |
| `Lexing.Lexer.Advance` | src/lexer.rs:108-184 | keeps `Valid()` (empty buffer, `Start`, or `End` at end of input) and leaves token, position and state as `Scan` of the old position gives; returns the new current token; the loop terminates |
| `Lexing.ScanOutcome` | src/lexer.rs:108-184 | a call ends in `Start` or `End`, in `End` exactly when it yields `Eoi` (then all input is read), never moves the position past the end of the input, and consumes at least one character when input remains |
| `Lexing.EoiIsIdempotent` | src/lexer.rs:110-121 | after `Eoi`, calling again yields `Eoi` with state `End` and the position unchanged |
| `Lexing.BracketIsOneToken` | src/lexer.rs:135-157 | in `Start`, `(` yields `ParensL`, `)` `ParensR`, `[` `BracketL`, `]` `BracketR`, `{` `BraceL` and `}` `BraceR`, each consuming exactly one character |
| `Lexing.OtherCharactersSkipped` | src/lexer.rs:130-160 | in `Start`, a character that starts neither an identifier nor a bracket is skipped without a token |
| `Lexing.DigitsAndSpacesSkipped` | src/lexer.rs:130-160 | digits and white space are among the skipped characters |
| `Lexing.IdentifierToken` | src/lexer.rs:129-178 | an `Id` name is the input just before the new position; it starts with `A..=Z`, `a..=z` or `_`, continues only with `A..Y`, `a..y`, `0..8` or `_`, and the character that ended it is not consumed |
| `Lexing.TrailingIdentifierEmitted` | src/lexer.rs:110-118 | an identifier still buffered at end of input is emitted as `Id` with the buffered name |
| `Lexing.UpperZEndsIdentifier` | src/lexer.rs:163-166 | because the ranges are exclusive, `aZ` lexes as `Id("a")` then `Id("Z")` |
| `Lexing.NineEndsIdentifier` | src/lexer.rs:163-177 | `x9` lexes as `Id("x")`, then the `9` is skipped and `Eoi` follows |
| `Cli.Build` | src/lib.rs:18-51 | fewer than 2 arguments give "Not enough arguments"; `help` gives `Help` with `args[2]` if present; `print` without a path gives "Missing file path for print", otherwise `Print(args[2], numbered)`, where numbered holds exactly when `args[3]` exists and lower-cases to "--numbered"; `list` gives `List`; any other word gives "Unknown command" |
| `Cli.FlagIgnoresCase` | src/lib.rs:35-40 | argument lists that differ only in the case of `args[3]` build the same configuration |
| `Cli.UpperCaseFlagRecognised` | src/lib.rs:36-37 | `--NUMBERED` sets numbered |
| `Cli.CommandIsCaseSensitive` | src/lib.rs:23-48 | `HELP` and `List` are unknown commands |
| `Cli.ExtraArgumentsIgnored` | src/lib.rs:24-48 | arguments after the ones a command reads do not change the result |

## Left out

- The characters are ASCII. `char::is_uppercase` and `str::to_lowercase` are
  Unicode-aware in Rust; here they are ASCII predicates and functions. The lexer
  mixes byte length (`len()`) with character indexing (`chars().nth`). The
  model takes the input as a sequence of characters, on which the two agree for
  ASCII input.
- `Token` has no `TYPE_FLT32` and `LIT_FLT32` variants: they carry `f32` values
  and the lexer never produces them.
- `print_tokens` (src/lexer.rs:190-198) is console output.
- `run`, `print`, `help` and `list` in src/lib.rs are console and file I/O.
- src/main.rs is the process entry point (environment arguments, exit codes,
  printing), and `grammar_test` is a printing demo.
- `Sentential`, `DerivationStep` and `Derivation` have no operations in the
  source.
- `FromRules` requires a non-empty list: `from_rules` reads `rules[0]` and
  panics on an empty one (src/grammar.rs:44).
- `Rule::display` and `Grammar::display` produce `String`s through `format!`;
  the model builds the same character sequences.
