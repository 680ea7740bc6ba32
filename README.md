# Sentence-Builder grammar solver, modelled in Dafny

Sentence-Builder reads a grammar in a small BNF dialect, one rule per line, written
`name ::= alt | alt | ...`, where each alternative is a list of symbols separated by blanks.
It then produces random sentences from that grammar. The core is the class `GrammarSolver`:

- The constructor parses the lines into a `TreeMap` from non-terminal names to their
  alternatives. It refuses an empty list and a name defined twice.
- `contains` says whether a symbol is a non-terminal.
- `getSymbols` returns the non-terminals in the map's key order.
- `generate` expands a symbol. A terminal comes back as it is. A non-terminal draws one of its
  alternatives at random and expands each of the alternative's symbols in turn, putting a space
  before each.

The project has two layers:

- Functions say what each operation computes:
  - `JavaText`: `String.trim` and the three `split` patterns the constructor uses (`"::="`,
    `"[|]"` and `"[ \t]+"`), with Java's rule that trailing empty pieces are dropped;
  - `KeyOrder`: `String.compareTo` and the sorted key sequence of the TreeMap;
  - `Rules`: parsing one line and building the whole map;
  - `Generation`: the expansion.
- `Solver.GrammarSolver` is a class with the rule map and its sorted key sequence as fields.
  Its methods do the work step by step, as the Java code does: they trim the pieces of the
  split in an array, collect the tokens in a loop, store rule by rule and build the phrase in a
  loop. Each method is proved equal to the function that specifies it.

Design choices:

- The random source is a parameter. `NextInt` is any function whose `k`-th draw with bound `n`
  lies in `[0, n)`.
- Expansion carries fuel. It stands in for the stack the Java recursion would exhaust on a
  grammar that never stops expanding.
- The constructor throws, so it is modelled as the factory `Create`, which returns a `Result`.
  `BuildError` names the three ways construction fails.
- `Rules.Spacing` describes how a rule may be laid out on a line: padding around the name, the
  definer and each alternative, and the runs of blanks between symbols. The round trip is proved
  for every layout, not only for the canonical `name ::= a b | c`.
- `Scenarios` proves worked examples, such as `S ::= a b | c` and duplicate definitions.
  Generic lemmas are stated over symbolic strings.

Where the documentation and the code disagree, the model follows the code:

- A name may be empty: `" ::= a"` defines `""`.
- `contains` never refuses a string. Its guard `length() < 0` cannot fire, so the empty string
  is accepted even though the comment says otherwise.
- A line `S ::= |` defines `S` with no alternatives. Generating `S` then fails, where Java's
  `nextInt(0)` throws.
- A line whose right side is only blanks, such as `S ::=  `, defines the single production `[""]`.
  Generating it fails on the empty token.
- A line `S ::=` with nothing after the definer has no second piece. The constructor fails on it,
  where Java indexes past the end of the array.
- A second `::=` on a line silently discards the rest of the line, provided something lies between
  the two definers. When nothing does, as in `x::=::=z`, the empty piece between them is the right
  side: the line defines `x` with the single production `[""]`, while `x::=` alone is refused.
- Tokens hold no space or tab. They can still begin or end with another character at most
  U+0020, such as a newline, because only spaces and tabs separate them.

## Model

| member | source | states |
|---|---|---|
| Solver.GrammarSolver.Create | GrammarSolver.java:26-64 | Building the solver fails exactly when the grammar function `ParseGrammar` fails, with the same error. On success the solver is new, its key order is consistent, and its map equals `ParseGrammar(lines)`. |
| Solver.GrammarSolver.Empty | GrammarSolver.java:13 | A fresh solver holds the empty map and the empty key sequence, and its key order is consistent. |
| Solver.GrammarSolver.StoreLine | GrammarSolver.java:35-61 | One pass of the constructor's loop. It stores the parsed rule exactly when the line has a right side and its name is not yet a key. Otherwise it reports the error and leaves the map unchanged. The key order stays consistent. |
| Solver.GrammarSolver.SplitRule | GrammarSolver.java:36-51 | Splitting on "::=", trimming in place, splitting on '|' and tokenizing produce exactly `ParseRule(line)`. |
| Solver.GrammarSolver.TrimPieces | GrammarSolver.java:36-40 | The in-place trimming loop leaves a new array of the same length, whose element j is `trim()` of piece j. |
| Solver.GrammarSolver.TokenizeAlternatives | GrammarSolver.java:44-51 | The list built by the loop holds, in order, the tokens of each alternative. |
| Solver.GrammarSolver.Put | GrammarSolver.java:60 | `put` maps the name to its productions. The key joins the sorted key sequence once, and the sequence stays strictly sorted with the same members as the map. |
| Solver.GrammarSolver.Contains | GrammarSolver.java:73-81 | The answer is true exactly when the symbol is a key. No string is refused, the empty string included. |
| Solver.GrammarSolver.GetSymbols | GrammarSolver.java:89-92 | The result holds exactly the keys of the map, once each, in strictly ascending compareTo order. |
| Solver.GrammarSolver.Generate | GrammarSolver.java:103-129 | The method's phrase, draw count or failure equals `Gen`. The method has no modifies clause, so the rule map is unchanged. |
| Rules.ParseRule | GrammarSolver.java:36-51 | A line fails exactly when split("::=") leaves fewer than two pieces, and the error then names the line. On success the name is trimmed and every production is well formed: it has at least one token, no token holds a blank, and an empty token occurs only in `[""]`. |
| Rules.Tokenize | GrammarSolver.java:48-49 | An alternative always yields at least one token, and no token holds a space or tab. It yields `[""]` exactly when it is blank after trimming; otherwise every token is non-empty. Which tokens come out is stated by `Rules.TokenizeOfJoinEach`. |
| Rules.TokenizeOfJoinEach | GrammarSolver.java:48-49 | Tokens separated by any non-empty runs of spaces and tabs, one run per gap, tokenize back to exactly those tokens, in order. The tokens need only be non-empty, free of spaces and tabs, and neither begin nor end with a character at most U+0020. |
| Rules.TokenizeAll | GrammarSolver.java:46-51 | The loop over the alternatives yields one production per alternative, in order, and production i is the tokens of alternative i. |
| Rules.Breakdown | GrammarSolver.java:36-40 | The pieces after the split at "::=" and the trimming loop are, one for one, the trimmed pieces of the split. |
| Rules.TokenizeIgnoresPadding | GrammarSolver.java:48-49 | Characters at most U+0020 around an alternative do not change its tokens. |
| Rules.ParseRuleOfRender | GrammarSolver.java:36-51 | Write a rule with clean symbols canonically: `name ::= a b | c`. Parsing that line gives back the same rule, with its name, tokens and order of alternatives. It is the case of `Rules.ParseRuleOfSpaced` with single spaces. |
| Rules.ParseRuleOfSpaced | GrammarSolver.java:36-51 | Write a rule with clean symbols with any spacing the parser trims or splits at: padding at most U+0020 around the name, the definer and each alternative, and any non-empty run of spaces and tabs between symbols. Parsing that line gives back the rule. |
| Rules.SpacingIrrelevant | GrammarSolver.java:36-51 | Every such spacing of a clean rule parses to the same result as its canonical line. |
| Rules.ParseRuleFailsExactly | GrammarSolver.java:36-43 | A line fails to parse exactly when every raw piece after the first piece of its split at "::=" is empty, so Java drops them all and no second piece exists. |
| Rules.ParseRuleWithoutDefiner | GrammarSolver.java:36-43 | A line that does not contain "::=" is refused with NoRightSide naming the line. |
| Rules.ParseRuleIgnoresSecondDefiner | GrammarSolver.java:36-43 | On a line `x ::= y ::= z` with a non-empty `y`, everything from the second "::=" on is ignored. |
| Rules.AddRule | GrammarSolver.java:53-60 | Storing one parsed line succeeds exactly when the line has a right side and its name is not yet a key. On success the map is the old one with that name added. |
| Rules.AddRules | GrammarSolver.java:33-63 | A successful store of the parsed lines keeps the keys already present and adds exactly one key per line. |
| Rules.AddRulesStep | GrammarSolver.java:33-63 | Storing from line i on is storing line i, then storing from line i+1 on; a refusal at line i ends the loop. |
| Rules.AddRulesSucceeds | GrammarSolver.java:53-60 | Storing a list of parsed lines into a map succeeds exactly when all of these hold: every line has a right side, the names are pairwise distinct, and no name is already in the map. |
| Rules.AddRulesFailure | GrammarSolver.java:43-56 | A failed store reports either a duplicate name or the error of one of the parsed lines. |
| Rules.ParseGrammar | GrammarSolver.java:26-64 | A successful construction has as many keys as there were lines, and at least one line. |
| Rules.ParseGrammarOutcome | GrammarSolver.java:28-56 | The empty list fails with EmptyInput. Otherwise construction succeeds exactly when every line has a right side and no two trimmed names coincide. When every line has a right side, a failure is a duplicate name. A NoRightSide failure names a line of the input that does not parse. |
| Rules.ParseGrammarKeys | GrammarSolver.java:53-60 | After a successful construction every line parsed, and the keys are exactly the lines' trimmed names. |
| Rules.ParseGrammarValues | GrammarSolver.java:60 | After a successful construction, each line's name maps to that line's productions. |
| Rules.ParseGrammarShape | GrammarSolver.java:36-51 | After a successful construction every key is trimmed and every production is well formed. |
| Rules.ParseGrammarOfOne | GrammarSolver.java:33-61 | A single line that parses gives the map of its one rule. |
| Rules.ParseGrammarOfSameTwo | GrammarSolver.java:53-56 | Two lines that define the same name are refused with DuplicateName of that name. |
| Rules.NameSetMembers | GrammarSolver.java:53-60 | The set of names collected from the parsed lines holds exactly the names of the lines that parse. |
| JavaText.Trim | GrammarSolver.java:39 | `trim()` never lengthens a string. Its result neither starts nor ends with a character at most U+0020. |
| JavaText.TrimIsSlice | GrammarSolver.java:39 | `trim()` returns a contiguous slice of its input. Everything it cuts away on either side is at most U+0020. |
| JavaText.TrimIgnoresPadding | GrammarSolver.java:39 | Padding with characters at most U+0020 on either side does not change what `trim()` returns. |
| JavaText.TrimIdempotent | GrammarSolver.java:39-48 | Trimming twice is trimming once, so trimming an alternative again after the pieces were trimmed is harmless. |
| JavaText.SplitBlanksOfTrimmed | GrammarSolver.java:49 | Splitting trimmed text at runs of blanks gives at least one piece, and no piece holds a blank. The empty text gives `[""]`; any other text gives only non-empty pieces. |
| JavaText.PiecesAtCharOfJoin | GrammarSolver.java:43 | Splitting at '|' undoes joining with '|', provided no part contains it. |
| JavaText.PiecesAtChar | GrammarSolver.java:43 | The raw pieces of a split at one character, joined back with it, give the input, and no piece holds the character. |
| JavaText.SplitChar | GrammarSolver.java:43 | No piece of `split("[|]")` holds '|'. Text without '|' comes back as the one piece. Joined back with '|', the pieces are a prefix of the input. |
| JavaText.PiecesAtBlankRuns | GrammarSolver.java:49 | The raw pieces of a split at runs of spaces and tabs: at least one, none holds a blank, and every inner piece is non-empty. The first piece is non-empty when the text starts with a non-blank, and the last when it ends with one. |
| JavaText.SplitBlanks | GrammarSolver.java:49 | No piece of `split("[ \t]+")` holds a blank. Text without a blank comes back as the one piece. |
| JavaText.PiecesAtBlankRunsStep | GrammarSolver.java:49 | A non-blank piece, a run of blanks and text starting with a non-blank split into that piece followed by the pieces of the text. |
| JavaText.PiecesAtBlankRunsOfJoinEach | GrammarSolver.java:49 | Splitting at runs of blanks undoes joining non-blank parts with runs of blanks, one run per gap, provided the inner parts are non-empty. |
| JavaText.PiecesAtBlankRunsRejoin | GrammarSolver.java:49 | Conversely, every text is its raw pieces joined with some runs of blanks, one run per gap. |
| JavaText.IndexOf | GrammarSolver.java:36 | The result is the leftmost occurrence of the delimiter, or -1 when it does not occur. |
| JavaText.PiecesAtDelimiter | GrammarSolver.java:36 | The raw pieces of a split at "::=", joined back with the delimiter, give the input, and no piece contains the delimiter. |
| JavaText.SplitAt | GrammarSolver.java:36 | No piece of `split("::=")` contains "::=". Text without it comes back as the one piece. Joined back with "::=", the pieces are a prefix of the input. |
| JavaText.StripTrailingEmpty | GrammarSolver.java:36 | The result is a prefix of the pieces that does not end in an empty piece. Only empty pieces were dropped. |
| JavaText.FinishSplit | GrammarSolver.java:36 | Java's finishing rule for `split`: the empty text gives `[""]`. Otherwise the result is a prefix of the raw pieces that does not end in an empty piece, and every piece dropped is empty. |
| KeyOrder.LessTransitive | GrammarSolver.java:13 | compareTo order is transitive. |
| KeyOrder.LessTotal | GrammarSolver.java:13 | compareTo order is total on distinct strings. |
| KeyOrder.LessIrreflexive | GrammarSolver.java:13 | No string is below itself. |
| KeyOrder.Less | GrammarSolver.java:13 | `a` is below `b` in compareTo order exactly when, at some position i, they agree before i and either `a` ends at i while `b` goes on, or `a`'s character at i is smaller. |
| KeyOrder.Insert | GrammarSolver.java:60 | Adding a key to a strictly sorted key sequence keeps it strictly sorted, with the old members plus the new key. The length grows by one exactly when the key is new. |
| Generation.Gen | GrammarSolver.java:103-129 | Expanding a symbol never takes back a draw. |
| Generation.Chosen | GrammarSolver.java:110-115 | The alternative drawn for a key is one of its alternatives. |
| Generation.GenTokens | GrammarSolver.java:115-123 | The loop over a production never takes back a draw, and the phrase built so far stays a prefix of the result. |
| Generation.TerminalUnchanged | GrammarSolver.java:107-128 | A symbol that is not a key comes back unchanged, with no draw, whatever the fuel. |
| Generation.GenTokensPrefix | GrammarSolver.java:122 | Expanding a production after an existing phrase puts exactly that phrase in front of the expansion from "". |
| Generation.GenTokensLeadingSpace | GrammarSolver.java:112-125 | An expanded production is empty exactly when it has no tokens. Otherwise it starts with a space. |
| Generation.GenTokensEmptyFails | GrammarSolver.java:115-120 | A production with an empty token never expands successfully. |
| Generation.GenFailsOnEmptyToken | GrammarSolver.java:109-120 | Expanding a key whose drawn production holds an empty token fails. |
| Generation.GenFuelMonotone | GrammarSolver.java:103-129 | More fuel changes nothing when the expansion did not run out of fuel. |
| Generation.GenTokensFuelMonotone | GrammarSolver.java:115-123 | The same, for the loop over a production. |
| Generation.GenKeyOrTerminal | GrammarSolver.java:107-128 | Take a grammar without empty productions and a successful expansion. It drew at least once exactly when the symbol is a key. A key's phrase is non-empty and starts with a space. A terminal's phrase is the symbol itself. |
| Scenarios.ParseSpacedLine | GrammarSolver.java:36-51 | For clean symbols, `n ::= a b | c` parses to the rule `n -> [[a, b], [c]]`. |
| Scenarios.TwoAlternatives | GrammarSolver.java:36-51 | For clean symbols, `n ::= a b | c` with any padding at most U+0020 around the definer and the bar and any run of blanks between `a` and `b` parses to `n -> [[a, b], [c]]`. |
| Scenarios.IrregularSpacing | GrammarSolver.java:36-51 | `n  ::=   a   b|c` parses to the same result as `n ::= a b | c`. |
| Scenarios.BuildSpacedGrammar | GrammarSolver.java:26-64 | The one-line grammar `n ::= a b | c` builds the map `{n: [[a, b], [c]]}`. |
| Scenarios.DuplicateRefused | GrammarSolver.java:53-56 | Defining `n` on two lines is refused with DuplicateName(n). |
| Scenarios.ParseShortLine | GrammarSolver.java:36-51 | `n ::= c` parses to `n -> [[c]]`. |
| Scenarios.EmptyRightSide | GrammarSolver.java:36-43 | A line ending in "::=" has no right side and is refused. |
| Scenarios.AdjacentDefiners | GrammarSolver.java:36-51 | `x::=::=z` with a non-empty `z` is not refused: it defines the trimmed `x` with the single production `[""]`. |
| Scenarios.EmptyBody | GrammarSolver.java:43-51 | A line whose trimmed right side is empty is not refused: it defines its trimmed name with the single production `[""]`. |
| Scenarios.BlankRightSide | GrammarSolver.java:36-51 | A line whose right side is only characters at most U+0020 defines the trimmed name with the single production `[""]`. |
| Scenarios.BareBarRightSide | GrammarSolver.java:43-51 | A line `x ::=|` defines a rule with no alternatives at all. |
| Scenarios.GenerateWithoutProductions | GrammarSolver.java:109-110 | Expanding a key without alternatives fails with NoProductions, where Java's nextInt(0) throws. |
| Scenarios.GenerateSentence | GrammarSolver.java:103-129 | With `S ::= a b | c`, expanding S draws once and gives " a b" or " c". |
| Scenarios.GenerateNested | GrammarSolver.java:103-129 | With `A ::= B c` and `B ::= x | y`, expanding A draws twice and gives "  x c" or "  y c". |

## Left out

- Randomness: `java.util.Random` is replaced by the injected `NextInt`, so uniformity is not
  modelled. Java seeds a fresh `Random` on every call of `generate`; the model numbers its draws
  `k` instead.
- Stack overflow: a grammar that expands without end overflows Java's stack. The model stops when
  the fuel runs out, with `OutOfFuel`. Fuel bounds only the depth of expansion.
- `null` arguments and their checks are not modelled: Dafny strings and sequences cannot be null.
- The regular-expression engine is not modelled. `split` is modelled for the three patterns the
  class uses: the literal `"::="`, the single character `'|'` and runs of spaces and tabs.
- Exception types: `IllegalArgumentException`, `ArrayIndexOutOfBoundsException` and the one from
  `nextInt(0)` are collapsed into `BuildError` and the failures of `GenOut`.
- Characters: `compareTo` compares UTF-16 code units, and the model compares Dafny `char`s. The
  two agree on the Basic Multilingual Plane.
- Solver.GrammarSolver.GetSymbols: returns a snapshot of the keys as a sequence, not the live
  `keySet()` view of the map.
- The client program, the grammar file and all input and output are outside this model.
- Rules.CleanSymbol: the round-trip lemmas cover symbols without any ':' at all. Symbols that
  merely avoid "::=" would round-trip too, because "::=" cannot overlap itself, but the model keeps
  the simpler sufficient condition. The lemmas about one line (`ParseRuleIgnoresSecondDefiner` and
  the scenarios with a definer) ask the same of the text beside the definer.
- The TreeMap's internal tree is not modelled. The map is a Dafny `map` with a sorted key
  sequence beside it.
