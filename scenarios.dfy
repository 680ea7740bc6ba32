/**
 * Concrete grammars run through the model: what the constructor builds from given lines and
 * which phrases generate can return for them, whatever the random draws are.
 */
module Scenarios {
  import opened Wrappers
  import opened JavaText
  import opened Rules
  import opened Generation

  /** `n ::= a b | c` for any clean symbols n, a, b, c: the spaces around "::=" and "|" are trimmed
      away, and the two alternatives become the productions [a, b] and [c]. */
  lemma ParseSpacedLine(n: string, a: string, b: string, c: string)
    requires CleanSymbol(n) && CleanSymbol(a) && CleanSymbol(b) && CleanSymbol(c)
    ensures ParseRule(n + " ::= " + a + " " + b + " | " + c) == Success(Rule(n, [[a, b], [c]]))
  {
    assert " ::= " == " " + Definer + " ";
    assert " | " == " " + "|" + " ";
    TwoAlternatives(n, a, b, c, " ", " ", " ", " ", " ");
  }

  /** `n  ::=   a   b|c`, spaced irregularly, parses to the same entry as `n ::= a b | c`. */
  lemma IrregularSpacing(n: string, a: string, b: string, c: string)
    requires CleanSymbol(n) && CleanSymbol(a) && CleanSymbol(b) && CleanSymbol(c)
    ensures ParseRule(n + "  ::=   " + a + "   " + b + "|" + c) == ParseRule(n + " ::= " + a + " " + b + " | " + c)
  {
    assert "  ::=   " == "  " + Definer + "   ";
    assert "|" == "" + "|" + "";
    TwoAlternatives(n, a, b, c, "  ", "   ", "   ", "", "");
    ParseSpacedLine(n, a, b, c);
  }

  /** A line of two alternatives, `a b` and `c`, with any padding around "::=" (gap, after) and
      around '|' (right, left), and any run of blanks between a and b. */
  lemma TwoAlternatives(n: string, a: string, b: string, c: string,
                        gap: string, after: string, mid: string, right: string, left: string)
    requires CleanSymbol(n) && CleanSymbol(a) && CleanSymbol(b) && CleanSymbol(c)
    requires AllTrimmable(gap) && AllTrimmable(after) && AllTrimmable(right) && AllTrimmable(left)
    requires BlankRun(mid)
    ensures ParseRule(n + (gap + Definer + after) + a + mid + b + (right + "|" + left) + c)
            == Success(Rule(n, [[a, b], [c]]))
  {
    var rule := Rule(n, [[a, b], [c]]);
    var sp := Spacing("", gap, after, "", ["", left], [right, ""], [[mid], []]);
    assert CleanRule(rule) by {
      assert CleanProduction([a, b]) by {
        forall j | 0 <= j < 2 ensures CleanSymbol([a, b][j]) {
          if j == 1 { assert [a, b][j] == b; }
        }
      }
      assert CleanProduction([c]);
    }
    assert Fits(sp, rule.productions) by {
      assert AllTrimmable("");
      assert BlankRuns([mid]);
    }
    var first, second := a + mid + b + right, left + c;
    assert SpacedTexts(sp, rule.productions) == [first, second] by {
      var texts := SpacedTexts(sp, rule.productions);
      assert |texts| == 2;
      assert JoinEach([a, b], [mid]) == a + mid + b by {
        assert [a, b][1..] == [b] && [mid][1..] == [];
      }
      assert texts[0] == "" + JoinEach([a, b], [mid]) + right;
      assert "" + (a + mid + b) + right == first;
      assert JoinEach([c], []) == c;
      assert texts[1] == left + JoinEach([c], []) + "";
      assert left + c + "" == second;
    }
    assert Join([first, second], "|") == first + "|" + second by {
      assert [first, second][1..] == [second];
    }
    LineOfTwo(n, a, b, c, gap, after, mid, right, left);
    ParseRuleOfSpaced(rule, sp);
  }

  lemma LineOfTwo(n: string, a: string, b: string, c: string,
                  gap: string, after: string, mid: string, right: string, left: string)
    ensures "" + n + gap + Definer + after + (a + mid + b + right + "|" + (left + c)) + ""
            == n + (gap + Definer + after) + a + mid + b + (right + "|" + left) + c
  {
  }

  /** Such a line becomes a grammar with the one rule n. */
  lemma BuildSpacedGrammar(n: string, a: string, b: string, c: string)
    requires CleanSymbol(n) && CleanSymbol(a) && CleanSymbol(b) && CleanSymbol(c)
    ensures ParseGrammar([n + " ::= " + a + " " + b + " | " + c]) == Success(map[n := [[a, b], [c]]])
  {
    ParseSpacedLine(n, a, b, c);
    ParseGrammarOfOne(n + " ::= " + a + " " + b + " | " + c);
  }

  /** Two lines defining the same name, however each is spaced, are refused. */
  lemma DuplicateRefused(n: string, a: string, b: string, c: string)
    requires CleanSymbol(n) && CleanSymbol(a) && CleanSymbol(b) && CleanSymbol(c)
    ensures ParseGrammar([n + " ::= " + a + " " + b + " | " + c, n + " ::= " + c]) == Failure(DuplicateName(n))
  {
    ParseSpacedLine(n, a, b, c);
    ParseShortLine(n, c);
    ParseGrammarOfSameTwo(n + " ::= " + a + " " + b + " | " + c, n + " ::= " + c);
  }

  /** `n ::= c`, the canonical line of the rule n with the one production [c]. */
  lemma ParseShortLine(n: string, c: string)
    requires CleanSymbol(n) && CleanSymbol(c)
    ensures ParseRule(n + " ::= " + c) == Success(Rule(n, [[c]]))
  {
    var rule := Rule(n, [[c]]);
    assert CleanRule(rule) by {
      assert CleanProduction([c]);
    }
    ParseRuleOfRender(rule);
    RenderOne(n, c);
  }

  lemma RenderOne(n: string, c: string)
    ensures Render(Rule(n, [[c]])) == n + " ::= " + c
  {
    var texts := AlternativeTexts([[c]]);
    assert texts[0] == Join([c], " ") == c;
    assert texts == [c];
    assert Join(texts, "|") == c;
  }

  /** A line that ends right after "::=" has no right side and is refused. */
  lemma EmptyRightSide(x: string)
    requires ':' !in x
    ensures ParseRule(x + Definer) == Failure(NoRightSide(x + Definer))
  {
    PiecesAfterPrefix(x, Definer, "");
    IndexOfAbsent("", Definer);
    assert x + Definer + "" == x + Definer;
    if x != "" {
      StripKeepsPrefix([x], [""]);
    }
  }

  /** Two definers with nothing between them: the empty piece between them is the right side, so
      the line is not refused, unlike `x::=`, and gives the single production holding the empty
      token. The text after the second definer only keeps that piece from being dropped. */
  lemma AdjacentDefiners(x: string, z: string)
    requires ':' !in x && ':' !in z && z != ""
    ensures ParseRule(x + Definer + Definer + z) == Success(Rule(Trim(x), [[""]]))
  {
    var line := x + Definer + Definer + z;
    AdjacentPieces(x, z);
    assert Trim("") == "";
    EmptyBody(line);
  }

  lemma AdjacentPieces(x: string, z: string)
    requires ':' !in x && ':' !in z && z != ""
    ensures SplitAt(x + Definer + Definer + z, Definer) == [x, "", z]
  {
    var line := x + Definer + Definer + z;
    assert line == x + Definer + ("" + Definer + z);
    PiecesAfterPrefix(x, Definer, "" + Definer + z);
    PiecesAfterPrefix("", Definer, z);
    IndexOfAbsent(z, Definer);
    assert PiecesAtDelimiter(line, Definer) == [x, "", z];
  }

  /** A line whose trimmed right side is empty defines its name with the single production `[""]`. */
  lemma EmptyBody(line: string)
    requires |Breakdown(line)| >= 2 && Breakdown(line)[1] == ""
    ensures ParseRule(line) == Success(Rule(Breakdown(line)[0], [[""]]))
  {
    ParseRuleByPieces(line, Breakdown(line));
    assert SplitChar("", '|') == [""];
    assert TokenizeAll([""]) == [[""]] by {
      assert Tokenize("") == [""];
    }
  }

  /** A right side of blanks only is not refused: it gives a single production holding the empty
      token, which generate then rejects. */
  lemma BlankRightSide(x: string, q: string)
    requires ':' !in x && q != "" && AllTrimmable(q)
    ensures ParseRule(x + Definer + q) == Success(Rule(Trim(x), [[""]]))
  {
    assert ':' !in q by {
      forall i | 0 <= i < |q| ensures q[i] != ':' { assert IsTrimmable(q[i]); }
    }
    PiecesAfterPrefix(x, Definer, q);
    IndexOfAbsent(q, Definer);
    var line := x + Definer + q;
    assert SplitAt(line, Definer) == [x, q];
    assert Trim(q) == "" by {
      TrimIgnoresPadding("", "", q);
      assert "" + "" + q == q;
    }
    assert Breakdown(line) == [Trim(x), ""];
    ParseRuleByPieces(line, [Trim(x), ""]);
    assert SplitChar("", '|') == [""];
    assert TokenizeAll([""]) == [[""]] by {
      assert [""][..0] == [];
      assert Tokenize("") == [""];
    }
  }

  /** A right side holding a bare "|" gives a rule without productions, which generate cannot
      expand. */
  lemma BareBarRightSide(x: string)
    requires ':' !in x
    ensures ParseRule(x + Definer + "|").Success?
    ensures ParseRule(x + Definer + "|").value.productions == []
  {
    PiecesAfterPrefix(x, Definer, "|");
    IndexOfAbsent("|", Definer);
    TrimOfTrimmed("|");
    ParseRuleByPieces(x + Definer + "|", [Trim(x), "|"]);
    PiecesAtCharOfJoin(["", ""], '|');
    assert Join(["", ""], "|") == "|";
  }

  /** Expanding a key without productions fails, where nextInt(0) throws. */
  lemma GenerateWithoutProductions(g: RuleMap, symbol: string, rng: NextInt, k: nat, fuel: nat)
    requires symbol in g && g[symbol] == [] && fuel > 0
    ensures Gen(g, symbol, rng, k, fuel) == Failed(NoProductions(symbol))
  {
  }

  /** Expanding S draws once and gives " a b" or " c": each token is put after a space. */
  lemma GenerateSentence(rng: NextInt, k: nat, fuel: nat)
    requires fuel >= 1
    ensures Gen(map["S" := [["a", "b"], ["c"]]], "S", rng, k, fuel) in {Done(" a b", k + 1), Done(" c", k + 1)}
  {
    var g := map["S" := [["a", "b"], ["c"]]];
    var f := fuel - 1;
    assert Gen(g, "S", rng, k, fuel) == GenTokens(g, g["S"][rng(k, 2)], rng, k + 1, f, "");
    if rng(k, 2) == 0 {
      assert Gen(g, "a", rng, k + 1, f) == Done("a", k + 1);
      assert Gen(g, "b", rng, k + 1, f) == Done("b", k + 1);
      assert "" + " " + "a" == " a" && " a" + " " + "b" == " a b";
      assert ["a", "b"][1..] == ["b"] && ["b"][1..] == [];
      assert GenTokens(g, ["b"], rng, k + 1, f, " a") == GenTokens(g, [], rng, k + 1, f, " a b");
      assert GenTokens(g, ["a", "b"], rng, k + 1, f, "") == GenTokens(g, ["b"], rng, k + 1, f, " a");
    } else {
      assert Gen(g, "c", rng, k + 1, f) == Done("c", k + 1);
      assert "" + " " + "c" == " c";
      assert ["c"][1..] == [];
      assert GenTokens(g, ["c"], rng, k + 1, f, "") == GenTokens(g, [], rng, k + 1, f, " c");
    }
  }

  /** `A ::= B c` and `B ::= x | y`: A draws once, B once more, and each expansion brings its own
      leading space, so the phrase starts with two. */
  lemma GenerateNested(rng: NextInt, k: nat, fuel: nat)
    requires fuel >= 2
    ensures Gen(map["A" := [["B", "c"]], "B" := [["x"], ["y"]]], "A", rng, k, fuel)
            in {Done("  x c", k + 2), Done("  y c", k + 2)}
  {
    var g := map["A" := [["B", "c"]], "B" := [["x"], ["y"]]];
    var f := fuel - 1;
    var inner := Gen(g, "B", rng, k + 1, f);
    assert inner in {Done(" x", k + 2), Done(" y", k + 2)} by {
      var t := if rng(k + 1, 2) == 0 then "x" else "y";
      assert g["B"][rng(k + 1, 2)] == [t];
      assert Gen(g, t, rng, k + 2, f - 1) == Done(t, k + 2);
      assert [t][1..] == [];
      assert "" + " " + t == " " + t;
      assert inner == GenTokens(g, [t], rng, k + 2, f - 1, "");
      assert GenTokens(g, [t], rng, k + 2, f - 1, "") == GenTokens(g, [], rng, k + 2, f - 1, " " + t);
      assert " " + t == " x" || " " + t == " y";
    }
    assert Gen(g, "A", rng, k, fuel) == GenTokens(g, ["B", "c"], rng, k + 1, f, "");
    assert Gen(g, "c", rng, k + 2, f) == Done("c", k + 2);
    assert ["B", "c"][1..] == ["c"] && ["c"][1..] == [];
    var p := inner.phrase;
    assert GenTokens(g, ["B", "c"], rng, k + 1, f, "") == GenTokens(g, ["c"], rng, k + 2, f, "" + " " + p);
    assert GenTokens(g, ["c"], rng, k + 2, f, "" + " " + p) == Done("" + " " + p + " " + "c", k + 2);
    assert "" + " " + " x" + " " + "c" == "  x c";
    assert "" + " " + " y" + " " + "c" == "  y c";
  }
}
