/**
 * What the GrammarSolver constructor computes, as functions: each line `name ::= alt | alt | ...`
 * becomes a Rule, and the lines together become the rule map, or the construction fails.
 * The class in solver.dfy does the same work step by step and is proved equal to ParseGrammar.
 */
module Rules {
  import opened Wrappers
  import opened JavaText

  /** One alternative of a rule: its symbol tokens, left to right. */
  type Production = seq<string>

  /** The rule store: non-terminal name to its alternatives, in the order they were written. */
  type RuleMap = map<string, seq<Production>>

  datatype Rule = Rule(name: string, productions: seq<Production>)

  /** Why construction fails (Java: IllegalArgumentException, or ArrayIndexOutOfBoundsException for
      a line with nothing after its "::="). */
  datatype BuildError =
    | EmptyInput
    | NoRightSide(line: string)
    | DuplicateName(name: string)

  const Definer: string := "::="

  /** Shape of a stored production: at least one token, no token holds a space or a tab, and the
      only production with an empty token is [""] (from an alternative that was blank). */
  ghost predicate ProductionShape(p: Production)
  {
    && |p| >= 1
    && (forall j :: 0 <= j < |p| ==> NoBlank(p[j]))
    && (p == [""] || forall j :: 0 <= j < |p| ==> p[j] != "")
  }

  ghost predicate ProductionsShape(prods: seq<Production>)
  {
    forall i :: 0 <= i < |prods| ==> ProductionShape(prods[i])
  }

  /** Every name is trimmed and every production has the shape above. */
  ghost predicate MapShape(m: RuleMap)
  {
    forall k :: k in m ==> IsTrimmed(k) && ProductionsShape(m[k])
  }

  lemma BlankIsTrimmable(c: char)
    ensures IsBlank(c) ==> IsTrimmable(c)
  {
  }

  /** tempString.trim().split("[ \t]+"): the tokens of one alternative. A blank alternative gives
      [""]; any other gives non-empty tokens only; no token holds a space or a tab. */
  function Tokenize(alternative: string): (tokens: Production)
    ensures |tokens| >= 1
    ensures forall i :: 0 <= i < |tokens| ==> NoBlank(tokens[i])
    ensures Trim(alternative) == "" <==> tokens == [""]
    ensures Trim(alternative) != "" ==> forall i :: 0 <= i < |tokens| ==> tokens[i] != ""
  {
    var t := Trim(alternative);
    SplitBlanksOfTrimmed(t);
    SplitBlanks(t)
  }

  /** Spaces, tabs and other characters at most U+0020 around an alternative do not change its
      tokens. */
  lemma TokenizeIgnoresPadding(p: string, alternative: string, q: string)
    requires AllTrimmable(p) && AllTrimmable(q)
    ensures Tokenize(p + alternative + q) == Tokenize(alternative)
  {
    TrimIgnoresPadding(p, alternative, q);
  }

  /** The productions of a rule, one per alternative, in the same order. */
  function TokenizeAll(alternatives: seq<string>): (prods: seq<Production>)
    ensures |prods| == |alternatives|
    ensures forall i :: 0 <= i < |alternatives| ==> prods[i] == Tokenize(alternatives[i])
    decreases |alternatives|
  {
    if alternatives == [] then []
    else
      var last := |alternatives| - 1;
      TokenizeAll(alternatives[..last]) + [Tokenize(alternatives[last])]
  }

  lemma TokenizeAllShape(alternatives: seq<string>)
    ensures ProductionsShape(TokenizeAll(alternatives))
  {
  }

  /** line.split("::=") with every piece trimmed. */
  function Breakdown(line: string): (pieces: seq<string>)
    ensures |pieces| == |SplitAt(line, Definer)|
    ensures forall i :: 0 <= i < |pieces| ==> pieces[i] == Trim(SplitAt(line, Definer)[i])
  {
    var raw := SplitAt(line, Definer);
    seq(|raw|, i requires 0 <= i < |raw| => Trim(raw[i]))
  }

  /** One line: split on "::=", trim the pieces, split the second on '|', tokenize each alternative.
      It fails exactly when split("::=") leaves fewer than two pieces; on success the name is
      trimmed and every production has ProductionShape. */
  function ParseRule(line: string): (r: Result<Rule, BuildError>)
    ensures r.Failure? <==> |SplitAt(line, Definer)| < 2
    ensures r.Failure? ==> r.error == NoRightSide(line)
    ensures r.Success? ==> IsTrimmed(r.value.name) && ProductionsShape(r.value.productions)
  {
    var breakdown := Breakdown(line);
    if |breakdown| < 2 then Failure(NoRightSide(line))
    else
      var alternatives := SplitChar(breakdown[1], '|');
      TokenizeAllShape(alternatives);
      Success(Rule(breakdown[0], TokenizeAll(alternatives)))
  }

  /** ParseRule in terms of the trimmed pieces, for the method that computes it step by step. */
  lemma ParseRuleByPieces(line: string, breakdown: seq<string>)
    requires breakdown == Breakdown(line)
    ensures |breakdown| < 2 ==> ParseRule(line) == Failure(NoRightSide(line))
    ensures |breakdown| >= 2 ==>
      ParseRule(line) == Success(Rule(breakdown[0], TokenizeAll(SplitChar(breakdown[1], '|'))))
  {
  }

  /** Every line parsed on its own. Parsing has no effect, so parsing all lines first and then
      storing them in order fails at the same line, for the same reason, as the constructor's loop. */
  function ParseAll(lines: seq<string>): (parsed: seq<Result<Rule, BuildError>>)
    ensures |parsed| == |lines|
  {
    if lines == [] then [] else [ParseRule(lines[0])] + ParseAll(lines[1..])
  }

  lemma {:induction false} ParseAllAt(lines: seq<string>, i: nat)
    requires i < |lines|
    ensures ParseAll(lines)[i] == ParseRule(lines[i])
  {
    if i > 0 {
      ParseAllAt(lines[1..], i - 1);
    }
  }

  /** The loop of the constructor from map m on: each parsed line is checked against the names
      stored so far, then stored; the first failing line ends it. */
  function AddRules(m: RuleMap, parsed: seq<Result<Rule, BuildError>>): (r: Result<RuleMap, BuildError>)
    ensures r.Success? ==> m.Keys <= r.value.Keys && |r.value| == |m| + |parsed|
    decreases |parsed|
  {
    if parsed == [] then Success(m)
    else
      match parsed[0]
      case Failure(e) => Failure(e)
      case Success(rule) =>
        if rule.name in m then Failure(DuplicateName(rule.name))
        else AddRules(m[rule.name := rule.productions], parsed[1..])
  }

  /** The body of the constructor's loop on one parsed line: a line without a right side or with a
      name already stored is refused, any other is stored. */
  function AddRule(m: RuleMap, parsed: Result<Rule, BuildError>): (r: Result<RuleMap, BuildError>)
    ensures r.Success? <==> parsed.Success? && parsed.value.name !in m
    ensures r.Success? ==> r.value == m[parsed.value.name := parsed.value.productions]
  {
    match parsed
    case Failure(e) => Failure(e)
    case Success(rule) =>
      if rule.name in m then Failure(DuplicateName(rule.name))
      else Success(m[rule.name := rule.productions])
  }

  /** The loop from position i on is its body at i followed by the loop from i + 1 on. */
  lemma AddRulesStep(m: RuleMap, parsed: seq<Result<Rule, BuildError>>, i: nat)
    requires i < |parsed|
    ensures AddRule(m, parsed[i]).Failure? ==> AddRules(m, parsed[i..]) == Failure(AddRule(m, parsed[i]).error)
    ensures AddRule(m, parsed[i]).Success? ==>
              AddRules(m, parsed[i..]) == AddRules(AddRule(m, parsed[i]).value, parsed[i + 1..])
  {
    assert parsed[i..][0] == parsed[i];
    assert parsed[i..][1..] == parsed[i + 1..];
  }

  /** The whole constructor: an empty list is refused, otherwise the lines are stored into an
      empty map. On success there is one key per line. */
  function ParseGrammar(lines: seq<string>): (r: Result<RuleMap, BuildError>)
    ensures r.Success? ==> |r.value| == |lines| && |lines| > 0
  {
    if lines == [] then Failure(EmptyInput) else AddRules(map[], ParseAll(lines))
  }

  /** A single line that parses makes a grammar of its one rule. */
  lemma ParseGrammarOfOne(line: string)
    requires ParseRule(line).Success?
    ensures ParseGrammar([line]) == Success(map[ParseRule(line).value.name := ParseRule(line).value.productions])
  {
    assert ParseAll([line]) == [ParseRule(line)] by {
      assert [line][1..] == [];
    }
    AddRulesOfOne(ParseRule(line));
  }

  lemma AddRulesOfOne(p: Result<Rule, BuildError>)
    requires p.Success?
    ensures AddRules(map[], [p]) == Success(map[p.value.name := p.value.productions])
  {
    assert [p][1..] == [];
  }

  /** Two lines that parse and define the same name are refused, at the second one. */
  lemma ParseGrammarOfSameTwo(first: string, second: string)
    requires ParseRule(first).Success? && ParseRule(second).Success?
    requires ParseRule(first).value.name == ParseRule(second).value.name
    ensures ParseGrammar([first, second]) == Failure(DuplicateName(ParseRule(first).value.name))
  {
    assert ParseAll([first, second]) == [ParseRule(first), ParseRule(second)] by {
      assert [first, second][1..] == [second];
      assert [second][1..] == [];
    }
    AddRulesOfSameTwo(ParseRule(first), ParseRule(second));
  }

  lemma AddRulesOfSameTwo(p1: Result<Rule, BuildError>, p2: Result<Rule, BuildError>)
    requires p1.Success? && p2.Success? && p1.value.name == p2.value.name
    ensures AddRules(map[], [p1, p2]) == Failure(DuplicateName(p1.value.name))
  {
    var m := map[p1.value.name := p1.value.productions];
    assert [p1, p2][1..] == [p2];
    assert AddRules(map[], [p1, p2]) == AddRules(m, [p2]);
  }

  // ---------------------------------------------------------------------------------------------
  // When construction succeeds, and what it stores

  ghost predicate AllParse(parsed: seq<Result<Rule, BuildError>>)
  {
    forall i :: 0 <= i < |parsed| ==> parsed[i].Success?
  }

  /** No two lines define the same (trimmed) name. */
  ghost predicate DistinctNames(parsed: seq<Result<Rule, BuildError>>)
    requires AllParse(parsed)
  {
    forall i, j :: 0 <= i < j < |parsed| ==> parsed[i].value.name != parsed[j].value.name
  }

  ghost predicate NamesAvoid(parsed: seq<Result<Rule, BuildError>>, m: RuleMap)
    requires AllParse(parsed)
  {
    forall i :: 0 <= i < |parsed| ==> parsed[i].value.name !in m
  }

  /** The names of the lines that parse, collected from the first line on. */
  ghost function NameSet(parsed: seq<Result<Rule, BuildError>>): set<string>
    decreases |parsed|
  {
    if parsed == [] then {}
    else if parsed[0].Success? then {parsed[0].value.name} + NameSet(parsed[1..])
    else NameSet(parsed[1..])
  }

  /** NameSet holds exactly the names of the entries that parse. */
  lemma {:induction false} NameSetMembers(parsed: seq<Result<Rule, BuildError>>, x: string)
    ensures x in NameSet(parsed) <==> exists i :: 0 <= i < |parsed| && parsed[i].Success? && parsed[i].value.name == x
    decreases |parsed|
  {
    if parsed != [] {
      var tail := parsed[1..];
      NameSetMembers(tail, x);
      if x in NameSet(tail) {
        var i :| 0 <= i < |tail| && tail[i].Success? && tail[i].value.name == x;
        assert parsed[i + 1] == tail[i];
      }
      if exists i :: 0 <= i < |parsed| && parsed[i].Success? && parsed[i].value.name == x {
        var i :| 0 <= i < |parsed| && parsed[i].Success? && parsed[i].value.name == x;
        if i > 0 { assert tail[i - 1] == parsed[i]; }
      }
    }
  }

  ghost predicate AllShaped(parsed: seq<Result<Rule, BuildError>>)
  {
    forall i :: 0 <= i < |parsed| && parsed[i].Success? ==>
      IsTrimmed(parsed[i].value.name) && ProductionsShape(parsed[i].value.productions)
  }

  /** Storing the parsed lines succeeds exactly when each has a right side and their names are
      pairwise distinct and not yet in the map. */
  lemma {:induction false} AddRulesSucceeds(m: RuleMap, parsed: seq<Result<Rule, BuildError>>)
    ensures AddRules(m, parsed).Success? <==> AllParse(parsed) && DistinctNames(parsed) && NamesAvoid(parsed, m)
    decreases |parsed|
  {
    if parsed != [] {
      var tail := parsed[1..];
      assert forall i :: 0 <= i < |tail| ==> tail[i] == parsed[i + 1];
      if parsed[0].Failure? {
        assert !AllParse(parsed);
      } else if parsed[0].value.name in m {
        if AllParse(parsed) { assert !NamesAvoid(parsed, m); }
      } else {
        var n := parsed[0].value.name;
        var m' := m[n := parsed[0].value.productions];
        AddRulesSucceeds(m', tail);
        if AllParse(parsed) {
          assert AllParse(tail);
          if DistinctNames(tail) && NamesAvoid(tail, m') {
            forall i, j | 0 <= i < j < |parsed| ensures parsed[i].value.name != parsed[j].value.name {
              assert parsed[j] == tail[j - 1];
              if i > 0 { assert parsed[i] == tail[i - 1]; }
            }
            forall i | 0 <= i < |parsed| ensures parsed[i].value.name !in m {
              if i > 0 { assert parsed[i] == tail[i - 1]; }
            }
          }
          if DistinctNames(parsed) && NamesAvoid(parsed, m) {
            forall i | 0 <= i < |tail| ensures tail[i].value.name !in m' {
              assert parsed[0].value.name != parsed[i + 1].value.name;
            }
            forall i, j | 0 <= i < j < |tail| ensures tail[i].value.name != tail[j].value.name {
              assert parsed[i + 1].value.name != parsed[j + 1].value.name;
            }
          }
        } else {
          var i :| 0 <= i < |parsed| && parsed[i].Failure?;
          assert tail[i - 1].Failure?;
        }
      }
    }
  }

  /** A successful map extends m with exactly the names of the parsed lines. */
  lemma {:induction false} AddRulesKeys(m: RuleMap, parsed: seq<Result<Rule, BuildError>>)
    requires AddRules(m, parsed).Success?
    ensures AllParse(parsed)
    ensures AddRules(m, parsed).value.Keys == m.Keys + NameSet(parsed)
    decreases |parsed|
  {
    if parsed != [] {
      var n := parsed[0].value.name;
      var m' := m[n := parsed[0].value.productions];
      var tail := parsed[1..];
      assert AddRules(m, parsed) == AddRules(m', tail);
      AddRulesKeys(m', tail);
      assert AllParse(parsed) by {
        forall i | 0 <= i < |parsed| ensures parsed[i].Success? {
          if i > 0 { assert parsed[i] == tail[i - 1]; }
        }
      }
      KeysStep(m, n, parsed[0].value.productions, AddRules(m', tail).value.Keys, NameSet(tail));
    }
  }

  lemma KeysStep(m: RuleMap, n: string, prods: seq<Production>, keys: set<string>, names: set<string>)
    requires keys == m[n := prods].Keys + names
    ensures keys == m.Keys + ({n} + names)
  {
  }

  /** A successful map keeps what m held and gives each parsed line's name that line's productions. */
  lemma {:induction false} AddRulesValues(m: RuleMap, parsed: seq<Result<Rule, BuildError>>)
    requires AddRules(m, parsed).Success?
    ensures AllParse(parsed)
    ensures forall k :: k in m ==> k in AddRules(m, parsed).value && AddRules(m, parsed).value[k] == m[k]
    ensures forall i :: 0 <= i < |parsed| ==>
              parsed[i].value.name in AddRules(m, parsed).value &&
              AddRules(m, parsed).value[parsed[i].value.name] == parsed[i].value.productions
    decreases |parsed|
  {
    AddRulesSucceeds(m, parsed);
    if parsed != [] {
      var tail := parsed[1..];
      var n := parsed[0].value.name;
      var m' := m[n := parsed[0].value.productions];
      AddRulesValues(m', tail);
      var r := AddRules(m, parsed).value;
      assert r == AddRules(m', tail).value;
      forall i | 0 < i < |parsed|
        ensures parsed[i].value.name in r && r[parsed[i].value.name] == parsed[i].value.productions
      {
        assert parsed[i] == tail[i - 1];
      }
    }
  }

  /** Storing shaped rules into a shaped map gives a shaped map. */
  lemma {:induction false} AddRulesShape(m: RuleMap, parsed: seq<Result<Rule, BuildError>>)
    requires AddRules(m, parsed).Success? && MapShape(m) && AllShaped(parsed)
    ensures MapShape(AddRules(m, parsed).value)
    decreases |parsed|
  {
    if parsed != [] {
      var tail := parsed[1..];
      assert forall i :: 0 <= i < |tail| ==> tail[i] == parsed[i + 1];
      var n := parsed[0].value.name;
      MapShapeUpdate(m, n, parsed[0].value.productions);
      AddRulesShape(m[n := parsed[0].value.productions], tail);
    }
  }

  lemma MapShapeUpdate(m: RuleMap, name: string, prods: seq<Production>)
    requires MapShape(m) && IsTrimmed(name) && ProductionsShape(prods)
    ensures MapShape(m[name := prods])
  {
  }

  /** A failure is the failure of some parsed line, or a repeated name: when every line has a right
      side, the failure is a duplicate name. */
  lemma {:induction false} AddRulesFailure(m: RuleMap, parsed: seq<Result<Rule, BuildError>>)
    requires AddRules(m, parsed).Failure?
    ensures AddRules(m, parsed).error.DuplicateName? || Failure(AddRules(m, parsed).error) in parsed
    decreases |parsed|
  {
    if parsed[0].Success? && parsed[0].value.name !in m {
      var m' := m[parsed[0].value.name := parsed[0].value.productions];
      AddRulesFailure(m', parsed[1..]);
    }
  }

  /** When the constructor fails or succeeds. It fails on an empty list. Otherwise it succeeds
      exactly when every line has a right side and no two lines share a trimmed name; when every
      line has a right side it fails only for a duplicate name, and a line without a right side
      fails with NoRightSide of that line. */
  lemma ParseGrammarOutcome(lines: seq<string>)
    ensures lines == [] ==> ParseGrammar(lines) == Failure(EmptyInput)
    ensures lines != [] ==>
              (ParseGrammar(lines).Success? <==> AllParse(ParseAll(lines)) && DistinctNames(ParseAll(lines)))
    ensures lines != [] && AllParse(ParseAll(lines)) && ParseGrammar(lines).Failure? ==>
              ParseGrammar(lines).error.DuplicateName?
    ensures ParseGrammar(lines).Failure? && ParseGrammar(lines).error.NoRightSide? ==>
              ParseGrammar(lines).error.line in lines && ParseRule(ParseGrammar(lines).error.line).Failure?
  {
    if lines != [] {
      var parsed := ParseAll(lines);
      AddRulesSucceeds(map[], parsed);
      if ParseGrammar(lines).Failure? {
        AddRulesFailure(map[], parsed);
        var e := ParseGrammar(lines).error;
        if e.NoRightSide? {
          var i :| 0 <= i < |parsed| && parsed[i] == Failure(e);
          ParseAllAt(lines, i);
        }
      }
    }
  }

  /** A successful construction has one key per line, and its keys are the lines' trimmed names. */
  lemma ParseGrammarKeys(lines: seq<string>)
    ensures ParseGrammar(lines).Success? ==>
              AllParse(ParseAll(lines)) && ParseGrammar(lines).value.Keys == NameSet(ParseAll(lines))
  {
    if ParseGrammar(lines).Success? {
      var parsed := ParseAll(lines);
      assert ParseGrammar(lines) == AddRules(map[], parsed);
      AddRulesKeys(map[], parsed);
    }
  }

  /** A successful construction stores under each line's name that line's productions. */
  lemma ParseGrammarValues(lines: seq<string>)
    ensures var parsed := ParseAll(lines);
            ParseGrammar(lines).Success? ==>
              && AllParse(parsed)
              && forall i :: 0 <= i < |lines| ==>
                   parsed[i].value.name in ParseGrammar(lines).value &&
                   ParseGrammar(lines).value[parsed[i].value.name] == parsed[i].value.productions
  {
    if ParseGrammar(lines).Success? {
      AddRulesValues(map[], ParseAll(lines));
    }
  }

  /** In a successful construction every name is trimmed and every production has ProductionShape. */
  lemma ParseGrammarShape(lines: seq<string>)
    ensures ParseGrammar(lines).Success? ==> MapShape(ParseGrammar(lines).value)
  {
    if ParseGrammar(lines).Success? {
      ParseAllShaped(lines);
      AddRulesShape(map[], ParseAll(lines));
    }
  }

  lemma ParseAllShaped(lines: seq<string>)
    ensures AllShaped(ParseAll(lines))
  {
    var parsed := ParseAll(lines);
    forall i | 0 <= i < |parsed| && parsed[i].Success?
      ensures IsTrimmed(parsed[i].value.name) && ProductionsShape(parsed[i].value.productions)
    {
      ParseAllAt(lines, i);
    }
  }

  // ---------------------------------------------------------------------------------------------
  // Whitespace normalisation: a line written in canonical form parses back to its rule

  /** A symbol that parsing leaves as it is: non-empty, with no character at most U+0020
      (so no space or tab), no ':' and no '|'. */
  ghost predicate CleanSymbol(s: string)
  {
    s != "" && NoneTrimmable(s) && ':' !in s && '|' !in s
  }

  ghost predicate CleanProduction(p: Production)
  {
    |p| >= 1 && forall j :: 0 <= j < |p| ==> CleanSymbol(p[j])
  }

  ghost predicate CleanRule(rule: Rule)
  {
    && CleanSymbol(rule.name)
    && |rule.productions| >= 1
    && forall i :: 0 <= i < |rule.productions| ==>
         |rule.productions[i]| >= 1 && CleanProduction(rule.productions[i])
  }

  /** The alternatives of a rule written out, tokens separated by single spaces. */
  function AlternativeTexts(prods: seq<Production>): (texts: seq<string>)
    requires forall i :: 0 <= i < |prods| ==> |prods[i]| >= 1
    ensures |texts| == |prods|
    ensures forall i :: 0 <= i < |prods| ==> texts[i] == Join(prods[i], " ")
  {
    seq(|prods|, i requires 0 <= i < |prods| => Join(prods[i], " "))
  }

  /** The canonical line of a rule: `name ::= a b|c`. */
  function Render(rule: Rule): string
    requires |rule.productions| >= 1
    requires forall i :: 0 <= i < |rule.productions| ==> |rule.productions[i]| >= 1
  {
    rule.name + " ::= " + Join(AlternativeTexts(rule.productions), "|")
  }

  /** What tokenizing needs of a token to give it back: non-empty, no space or tab, and neither
      end a character at most U+0020. ':', '|' and other characters inside are allowed. */
  ghost predicate BareToken(t: string)
  {
    t != "" && NoBlank(t) && !IsTrimmable(t[0]) && !IsTrimmable(t[|t| - 1])
  }

  lemma CleanSymbolNoBlank(s: string)
    requires CleanSymbol(s)
    ensures BareToken(s)
  {
    forall i | 0 <= i < |s| ensures !IsBlank(s[i]) { BlankIsTrimmable(s[i]); }
  }

  /** Tokenizing a production written with runs of blanks between its tokens gives the
      production back. */
  lemma TokenizeOfJoinEach(p: Production, runs: seq<string>)
    requires |p| >= 1 && forall j :: 0 <= j < |p| ==> BareToken(p[j])
    requires |runs| == |p| - 1 && BlankRuns(runs)
    ensures Tokenize(JoinEach(p, runs)) == p
  {
    var s := JoinEach(p, runs);
    JoinEachFirst(p, runs);
    JoinEachLast(p, runs);
    TrimOfTrimmed(s);
    PiecesAtBlankRunsOfJoinEach(p, runs);
  }

  /** The alternatives of a canonical line are what was joined. */
  lemma SplitCharOfJoin(texts: seq<string>)
    requires |texts| >= 1 && texts[|texts| - 1] != ""
    requires forall i :: 0 <= i < |texts| ==> '|' !in texts[i]
    ensures SplitChar(Join(texts, "|"), '|') == texts
  {
    PiecesAtCharOfJoin(texts, '|');
    JoinLast(texts, "|");
  }

  // ---------------------------------------------------------------------------------------------
  // Any spacing of a rule parses to the same entry

  /** The whitespace of one way of writing a rule: before the name (lead), between the name and
      "::=" (gap), after "::=" (after), at the end of the line (trail), before and after each
      alternative inside the '|' separators (left, right; the first alternative's left and the last
      one's right belong to after and trail), and the runs of blanks between the tokens of each
      alternative (runs). */
  datatype Spacing = Spacing(lead: string, gap: string, after: string, trail: string,
                             left: seq<string>, right: seq<string>, runs: seq<seq<string>>)

  ghost predicate Fits(sp: Spacing, prods: seq<Production>)
  {
    && AllTrimmable(sp.lead) && AllTrimmable(sp.gap) && AllTrimmable(sp.after) && AllTrimmable(sp.trail)
    && |prods| >= 1 && |sp.left| == |prods| && |sp.right| == |prods| && |sp.runs| == |prods|
    && sp.left[0] == "" && sp.right[|prods| - 1] == ""
    && forall i :: 0 <= i < |prods| ==>
         && |prods[i]| >= 1 && |sp.runs[i]| == |prods[i]| - 1 && BlankRuns(sp.runs[i])
         && AllTrimmable(sp.left[i]) && AllTrimmable(sp.right[i])
  }

  /** The alternatives written out with the given spacing. */
  function SpacedTexts(sp: Spacing, prods: seq<Production>): (texts: seq<string>)
    requires Fits(sp, prods)
    ensures |texts| == |prods|
    ensures forall i :: 0 <= i < |prods| ==> texts[i] == sp.left[i] + JoinEach(prods[i], sp.runs[i]) + sp.right[i]
  {
    seq(|prods|, i requires 0 <= i < |prods| => sp.left[i] + JoinEach(prods[i], sp.runs[i]) + sp.right[i])
  }

  /** The line of a rule written with the given spacing. */
  function RenderSpaced(rule: Rule, sp: Spacing): string
    requires Fits(sp, rule.productions)
  {
    sp.lead + rule.name + sp.gap + Definer + sp.after + Join(SpacedTexts(sp, rule.productions), "|") + sp.trail
  }

  /** The spacing of the canonical line: one space on either side of "::=" and between tokens. */
  function Canonical(prods: seq<Production>): (sp: Spacing)
    requires |prods| >= 1 && forall i :: 0 <= i < |prods| ==> |prods[i]| >= 1
    ensures Fits(sp, prods)
  {
    var n := |prods|;
    Spacing("", " ", " ", "", Repeat("", n), Repeat("", n),
            seq(n, i requires 0 <= i < n => Repeat(" ", |prods[i]| - 1)))
  }

  lemma TrimmableAvoids(s: string)
    requires AllTrimmable(s)
    ensures ':' !in s && '|' !in s
  {
    forall k | 0 <= k < |s| ensures s[k] != ':' && s[k] != '|' { assert IsTrimmable(s[k]); }
  }

  lemma BlankRunsAvoid(runs: seq<string>)
    requires BlankRuns(runs)
    ensures forall k :: 0 <= k < |runs| ==> ':' !in runs[k] && '|' !in runs[k]
  {
    forall k | 0 <= k < |runs| ensures ':' !in runs[k] && '|' !in runs[k] {
      forall m | 0 <= m < |runs[k]| ensures runs[k][m] != ':' && runs[k][m] != '|' {
        assert IsBlank(runs[k][m]);
      }
    }
  }

  /** A spaced alternative holds neither ':' nor '|'. */
  lemma SpacedTextAvoids(sp: Spacing, prods: seq<Production>, i: nat)
    requires Fits(sp, prods) && i < |prods| && CleanProduction(prods[i])
    ensures ':' !in SpacedTexts(sp, prods)[i] && '|' !in SpacedTexts(sp, prods)[i]
  {
    TrimmableAvoids(sp.left[i]);
    TrimmableAvoids(sp.right[i]);
    BlankRunsAvoid(sp.runs[i]);
    JoinEachAvoids(prods[i], sp.runs[i], ':');
    JoinEachAvoids(prods[i], sp.runs[i], '|');
  }

  /** The right side of a spaced line: free of ':', with the alternatives as its '|' pieces, and
      neither starting nor ending with a character at most U+0020. */
  lemma SpacedBody(sp: Spacing, rule: Rule)
    requires CleanRule(rule) && Fits(sp, rule.productions)
    ensures var body := Join(SpacedTexts(sp, rule.productions), "|");
            && body != "" && IsTrimmed(body) && ':' !in body
            && SplitChar(body, '|') == SpacedTexts(sp, rule.productions)
  {
    var texts := SpacedTexts(sp, rule.productions);
    assert forall i :: 0 <= i < |texts| ==> ':' !in texts[i] && '|' !in texts[i] by {
      forall i | 0 <= i < |texts| ensures ':' !in texts[i] && '|' !in texts[i] {
        SpacedTextAvoids(sp, rule.productions, i);
      }
    }
    assert ':' !in Join(texts, "|") by {
      JoinAvoids(texts, "|", ':');
    }
    SpacedBodyEnds(sp, rule);
    SplitCharOfJoin(texts);
  }

  lemma SpacedBodyEnds(sp: Spacing, rule: Rule)
    requires CleanRule(rule) && Fits(sp, rule.productions)
    ensures var texts := SpacedTexts(sp, rule.productions);
            && texts[|texts| - 1] != ""
            && Join(texts, "|") != "" && IsTrimmed(Join(texts, "|"))
  {
    var prods := rule.productions;
    var texts := SpacedTexts(sp, prods);
    var last := |prods| - 1;
    var first, final := prods[0], prods[last];
    assert texts[0] != "" && !IsTrimmable(texts[0][0]) by {
      CleanSymbolNoBlank(first[0]);
      JoinEachFirst(first, sp.runs[0]);
      assert texts[0] == JoinEach(first, sp.runs[0]) + sp.right[0];
    }
    assert texts[last] != "" && !IsTrimmable(texts[last][|texts[last]| - 1]) by {
      CleanSymbolNoBlank(final[|final| - 1]);
      JoinEachLast(final, sp.runs[last]);
      assert texts[last] == sp.left[last] + JoinEach(final, sp.runs[last]);
    }
    JoinFirst(texts, "|");
    JoinLast(texts, "|");
  }

  /** The two pieces of a spaced line, before and after its "::=". */
  lemma SpacedPieces(sp: Spacing, rule: Rule)
    requires CleanRule(rule) && Fits(sp, rule.productions)
    ensures var body := Join(SpacedTexts(sp, rule.productions), "|");
            SplitAt(RenderSpaced(rule, sp), Definer) == [sp.lead + rule.name + sp.gap, sp.after + body + sp.trail]
  {
    var body := Join(SpacedTexts(sp, rule.productions), "|");
    var head, rhs := sp.lead + rule.name + sp.gap, sp.after + body + sp.trail;
    assert ':' !in head by {
      TrimmableAvoids(sp.lead);
      TrimmableAvoids(sp.gap);
    }
    assert ':' !in rhs && rhs != "" by {
      SpacedBody(sp, rule);
      TrimmableAvoids(sp.after);
      TrimmableAvoids(sp.trail);
    }
    assert RenderSpaced(rule, sp) == head + Definer + rhs;
    PieceTwo(head, rhs);
  }

  lemma PieceTwo(head: string, rhs: string)
    requires ':' !in head && ':' !in rhs && rhs != ""
    ensures SplitAt(head + Definer + rhs, Definer) == [head, rhs]
  {
    PiecesAfterPrefix(head, Definer, rhs);
    IndexOfAbsent(rhs, Definer);
  }

  /** The trimmed pieces of a spaced line: the name and the right side without its padding. */
  lemma SpacedBreakdown(sp: Spacing, rule: Rule)
    requires CleanRule(rule) && Fits(sp, rule.productions)
    ensures Breakdown(RenderSpaced(rule, sp)) == [rule.name, Join(SpacedTexts(sp, rule.productions), "|")]
  {
    var body := Join(SpacedTexts(sp, rule.productions), "|");
    var head, rhs := sp.lead + rule.name + sp.gap, sp.after + body + sp.trail;
    SpacedPieces(sp, rule);
    assert Trim(head) == rule.name by {
      CleanSymbolNoBlank(rule.name);
      TrimIgnoresPadding(sp.lead, rule.name, sp.gap);
      TrimOfTrimmed(rule.name);
    }
    assert Trim(rhs) == body by {
      SpacedBody(sp, rule);
      TrimIgnoresPadding(sp.after, body, sp.trail);
      TrimOfTrimmed(body);
    }
  }

  /** Each spaced alternative tokenizes to its production. */
  lemma SpacedTokens(sp: Spacing, rule: Rule)
    requires CleanRule(rule) && Fits(sp, rule.productions)
    ensures TokenizeAll(SpacedTexts(sp, rule.productions)) == rule.productions
  {
    var prods := rule.productions;
    var texts := SpacedTexts(sp, prods);
    forall i | 0 <= i < |prods| ensures Tokenize(texts[i]) == prods[i] {
      TokenizeIgnoresPadding(sp.left[i], JoinEach(prods[i], sp.runs[i]), sp.right[i]);
      forall j | 0 <= j < |prods[i]| ensures BareToken(prods[i][j]) { CleanSymbolNoBlank(prods[i][j]); }
      TokenizeOfJoinEach(prods[i], sp.runs[i]);
    }
  }

  /** A clean rule written with any spacing parses back to that rule: padding around the name,
      around "::=", around each alternative and between the tokens is all normalised away. */
  lemma ParseRuleOfSpaced(rule: Rule, sp: Spacing)
    requires CleanRule(rule) && Fits(sp, rule.productions)
    ensures ParseRule(RenderSpaced(rule, sp)) == Success(rule)
  {
    var line := RenderSpaced(rule, sp);
    var body := Join(SpacedTexts(sp, rule.productions), "|");
    SpacedBreakdown(sp, rule);
    ParseRuleByPieces(line, [rule.name, body]);
    SpacedBody(sp, rule);
    SpacedTokens(sp, rule);
  }

  /** The canonical line is the line with canonical spacing. */
  lemma RenderIsSpaced(rule: Rule)
    requires CleanRule(rule)
    ensures Render(rule) == RenderSpaced(rule, Canonical(rule.productions))
  {
    var prods := rule.productions;
    var sp := Canonical(prods);
    var texts := SpacedTexts(sp, prods);
    forall i | 0 <= i < |prods| ensures texts[i] == AlternativeTexts(prods)[i] {
      JoinIsJoinEach(prods[i], " ");
      assert sp.runs[i] == Repeat(" ", |prods[i]| - 1);
      assert texts[i] == "" + JoinEach(prods[i], sp.runs[i]) + "";
    }
    assert texts == AlternativeTexts(prods);
  }

  /** Parsing the canonical line of a clean rule gives that rule: names, tokens and the order of the
      alternatives all survive. */
  lemma ParseRuleOfRender(rule: Rule)
    requires CleanRule(rule)
    ensures ParseRule(Render(rule)) == Success(rule)
  {
    RenderIsSpaced(rule);
    ParseRuleOfSpaced(rule, Canonical(rule.productions));
  }

  /** However a clean rule is spaced, its line parses to the same entry as its canonical line. */
  lemma SpacingIrrelevant(rule: Rule, sp: Spacing)
    requires CleanRule(rule) && Fits(sp, rule.productions)
    ensures ParseRule(RenderSpaced(rule, sp)) == ParseRule(Render(rule))
  {
    ParseRuleOfSpaced(rule, sp);
    ParseRuleOfRender(rule);
  }

  /** A line fails exactly when every piece after its first "::=" is empty: when it has no
      "::=" at all, or when nothing but "::=" follows the name. */
  lemma ParseRuleFailsExactly(line: string)
    ensures var raw := PiecesAtDelimiter(line, Definer);
            ParseRule(line).Failure? <==> forall i :: 1 <= i < |raw| ==> raw[i] == ""
  {
    var raw := PiecesAtDelimiter(line, Definer);
    if line != "" && exists i :: 1 <= i < |raw| && raw[i] != "" {
      var i :| 1 <= i < |raw| && raw[i] != "";
      assert i < |SplitAt(line, Definer)|;
    }
  }

  /** A line without "::=" is refused. */
  lemma ParseRuleWithoutDefiner(line: string)
    requires IndexOf(line, Definer) < 0
    ensures ParseRule(line) == Failure(NoRightSide(line))
  {
  }

  /** A second "::=" on a line silently discards everything from it on. */
  lemma ParseRuleIgnoresSecondDefiner(x: string, y: string, z: string)
    requires ':' !in x && ':' !in y && y != ""
    ensures ParseRule(x + Definer + y + Definer + z) == ParseRule(x + Definer + y)
  {
    var long, short := x + Definer + y + Definer + z, x + Definer + y;
    FirstTwoPieces(x, y, z);
    PieceTwo(x, y);
    ParseRuleByPieces(long, Breakdown(long));
    ParseRuleByPieces(short, Breakdown(short));
  }

  /** The first two pieces of a line with two "::=" are the texts before and between them. */
  lemma FirstTwoPieces(x: string, y: string, z: string)
    requires ':' !in x && ':' !in y && y != ""
    ensures var a := SplitAt(x + Definer + y + Definer + z, Definer);
            |a| >= 2 && a[0] == x && a[1] == y
  {
    var long := x + Definer + y + Definer + z;
    assert long == x + Definer + (y + Definer + z);
    PiecesAfterPrefix(x, Definer, y + Definer + z);
    PiecesAfterPrefix(y, Definer, z);
    var tail := PiecesAtDelimiter(z, Definer);
    assert PiecesAtDelimiter(long, Definer) == [x, y] + tail;
    StripKeepsPrefix([x, y], tail);
  }

}
