/**
 * The GrammarSolver class: a rule map filled once by construction, the sorted key sequence that
 * the TreeMap enumerates, membership and key-set queries, and the recursive generator. Each method
 * is proved equal to the function that specifies it (Rules.ParseGrammar, Generation.Gen).
 */
module Solver {
  import opened Wrappers
  import opened JavaText
  import opened KeyOrder
  import opened Rules
  import opened Generation

  class GrammarSolver {
    /** The TreeMap from non-terminal names to their productions. */
    var rules: RuleMap
    /** The same keys in the TreeMap's ascending order. */
    var symbols: seq<string>

    ghost predicate Valid()
      reads this
    {
      && StrictlySorted(symbols)
      && (forall s :: s in symbols <==> s in rules)
      && |symbols| == |rules|
    }

    /** The field initialiser `new TreeMap<>()`. */
    constructor Empty()
      ensures Valid() && rules == map[] && symbols == []
    {
      rules := map[];
      symbols := [];
    }

    /** TreeMap.put: the name maps to the productions, and its key joins the key order. */
    method Put(name: string, productions: seq<Production>)
      requires Valid()
      modifies this
      ensures Valid()
      ensures rules == old(rules)[name := productions]
      ensures symbols == Insert(old(symbols), name)
    {
      var had := name in rules;
      rules := rules[name := productions];
      symbols := Insert(symbols, name);
      assert had <==> name in old(symbols);
    }

    /** The array of `aRule.split("::=")`, every element then trimmed in place. */
    static method TrimPieces(pieces: seq<string>) returns (breakdown: array<string>)
      ensures fresh(breakdown)
      ensures breakdown.Length == |pieces|
      ensures forall j :: 0 <= j < |pieces| ==> breakdown[j] == Trim(pieces[j])
    {
      breakdown := new string[|pieces|](i requires 0 <= i < |pieces| => pieces[i]);
      for i := 0 to breakdown.Length
        invariant forall j :: 0 <= j < i ==> breakdown[j] == Trim(pieces[j])
        invariant forall j :: i <= j < breakdown.Length ==> breakdown[j] == pieces[j]
      {
        breakdown[i] := Trim(breakdown[i]);
      }
    }

    /** The list temp2: for each alternative, its trimmed text split on runs of blanks. */
    static method TokenizeAlternatives(alternatives: seq<string>) returns (prods: seq<Production>)
      ensures prods == TokenizeAll(alternatives)
    {
      prods := [];
      for j := 0 to |alternatives|
        invariant prods == TokenizeAll(alternatives[..j])
      {
        assert alternatives[..j + 1][..j] == alternatives[..j];
        prods := prods + [Tokenize(alternatives[j])];
      }
      assert alternatives[..|alternatives|] == alternatives;
    }

    /** One line of the constructor's loop: split on "::=", trim every piece, split the right
        side on '|', and collect the tokens of each alternative. A line without a right side is
        refused where the source indexes breakdown[1]. */
    static method SplitRule(line: string) returns (r: Result<Rule, BuildError>)
      ensures r == ParseRule(line)
    {
      var breakdown := TrimPieces(SplitAt(line, Definer));
      ParseRuleByPieces(line, breakdown[..]);
      if breakdown.Length < 2 {
        return Failure(NoRightSide(line));
      }
      var temp1 := SplitChar(breakdown[1], '|');
      var temp2 := TokenizeAlternatives(temp1);
      return Success(Rule(breakdown[0], temp2));
    }

    /** The body of the constructor's loop: parse the line, refuse a name already stored, store
        the rule. On a refusal the map is left as it was. */
    method StoreLine(line: string) returns (err: Option<BuildError>)
      requires Valid()
      modifies this
      ensures Valid()
      ensures AddRule(old(rules), ParseRule(line)).Success? <==> err.None?
      ensures err.None? ==> rules == AddRule(old(rules), ParseRule(line)).value
      ensures err.Some? ==> Failure(err.value) == AddRule(old(rules), ParseRule(line))
      ensures err.Some? ==> rules == old(rules) && symbols == old(symbols)
    {
      var parsed := SplitRule(line);
      if parsed.Failure? {
        return Some(parsed.error);
      }
      var name := parsed.value.name;
      var taken := Contains(name);
      if taken {
        return Some(DuplicateName(name));
      }
      Put(name, parsed.value.productions);
      return None;
    }

    /** The constructor GrammarSolver(List<String>): refuses an empty list, then stores the lines one
        by one, refusing a line without a right side and a name defined twice. */
    static method Create(lines: seq<string>) returns (r: Result<GrammarSolver, BuildError>)
      ensures r.Failure? ==> ParseGrammar(lines) == Failure(r.error)
      ensures r.Success? ==> fresh(r.value) && r.value.Valid() && ParseGrammar(lines) == Success(r.value.rules)
    {
      if |lines| == 0 {
        return Failure(EmptyInput);
      }
      ghost var all := ParseAll(lines);
      assert ParseGrammar(lines) == AddRules(map[], all);
      var solver := new GrammarSolver.Empty();
      var i := 0;
      while i < |lines|
        invariant 0 <= i <= |lines| == |all|
        invariant fresh(solver) && solver.Valid()
        invariant ParseGrammar(lines) == AddRules(solver.rules, all[i..])
      {
        ParseAllAt(lines, i);
        AddRulesStep(solver.rules, all, i);
        var err := solver.StoreLine(lines[i]);
        if err.Some? {
          return Failure(err.value);
        }
        i := i + 1;
      }
      return Success(solver);
    }

    /** contains: whether the symbol is a key. The guard on a negative length never fires, so no
        string is refused, the empty one included. */
    method Contains(symbol: string) returns (b: bool)
      ensures b <==> symbol in rules
    {
      b := symbol in rules;
    }

    /** getSymbols: the keys, in ascending order, each once. */
    method GetSymbols() returns (keys: seq<string>)
      requires Valid()
      ensures forall s :: s in keys <==> s in rules
      ensures StrictlySorted(keys)
      ensures |keys| == |rules|
    {
      keys := symbols;
    }

    /** generate(symbol), drawing from rng from draw k on. It reads the rule map and changes nothing. */
    method Generate(symbol: string, rng: NextInt, k: nat, fuel: nat) returns (out: GenOut)
      ensures out == Gen(rules, symbol, rng, k, fuel)
      decreases fuel
    {
      var present := Contains(symbol);
      if !present {
        return Done(symbol, k);
      }
      if fuel == 0 {
        return Failed(OutOfFuel);
      }
      var theRules := rules[symbol];
      if |theRules| == 0 {
        return Failed(NoProductions(symbol));
      }
      var x := rng(k, |theRules|);
      var chosen := theRules[x];
      var generatedPhrase := "";
      var next: nat := k + 1;
      var i := 0;
      while i < |chosen|
        invariant 0 <= i <= |chosen|
        invariant GenTokens(rules, chosen, rng, k + 1, fuel - 1, "") ==
                  GenTokens(rules, chosen[i..], rng, next, fuel - 1, generatedPhrase)
      {
        assert chosen[i..][0] == chosen[i] && chosen[i..][1..] == chosen[i + 1..];
        if chosen[i] == "" {
          return Failed(EmptySymbol);
        }
        var sub := Generate(chosen[i], rng, next, fuel - 1);
        if sub.Failed? {
          return sub;
        }
        generatedPhrase := generatedPhrase + " " + sub.phrase;
        next := sub.next;
        i := i + 1;
      }
      return Done(generatedPhrase, next);
    }
  }

}
