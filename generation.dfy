/**
 * What GrammarSolver.generate computes, as functions. The random source is injected: NextInt plays
 * the part of rand.nextInt(n), where k counts the draws made so far (each call of generate makes
 * one fresh Random and draws once from it). Fuel bounds the depth of expansion, where the Java
 * program would overflow its stack on a grammar that keeps expanding.
 */
module Generation {
  import opened Rules

  /** A source of draws: the k-th draw with bound n > 0 lies in [0, n), as nextInt(n) promises. */
  type NextInt = f: (nat, nat) -> nat | forall k: nat, n: nat :: 0 < n ==> f(k, n) < n
    witness (k: nat, n: nat) => 0

  datatype GenError =
    | NoProductions(symbol: string)  // nextInt(0) on a rule without alternatives
    | EmptySymbol                    // an empty token in the chosen production
    | OutOfFuel                      // expansion deeper than the fuel allows

  /** A generated phrase and the number of draws made once it is complete, or a failure. */
  datatype GenOut = Done(phrase: string, next: nat) | Failed(error: GenError)

  /** generate(symbol), starting at draw k: a symbol that is not a key comes back as it is, a key
      draws one of its productions and expands it. Draws are never taken back. */
  function Gen(g: RuleMap, symbol: string, rng: NextInt, k: nat, fuel: nat): (r: GenOut)
    ensures r.Done? ==> k <= r.next
    decreases fuel, 0, 0
  {
    if symbol !in g then Done(symbol, k)
    else if fuel == 0 then Failed(OutOfFuel)
    else
      var prods := g[symbol];
      if |prods| == 0 then Failed(NoProductions(symbol))
      else GenTokens(g, prods[rng(k, |prods|)], rng, k + 1, fuel - 1, "")
  }

  /** The loop over the chosen production: for each token, " " and its expansion are appended to
      the phrase built so far; an empty token stops it. What was built so far stays a prefix. */
  function GenTokens(g: RuleMap, tokens: Production, rng: NextInt, k: nat, fuel: nat, acc: string): (r: GenOut)
    ensures r.Done? ==> k <= r.next && acc <= r.phrase
    decreases fuel, 1, |tokens|
  {
    if tokens == [] then Done(acc, k)
    else if tokens[0] == "" then Failed(EmptySymbol)
    else
      match Gen(g, tokens[0], rng, k, fuel)
      case Failed(e) => Failed(e)
      case Done(p, k') => GenTokens(g, tokens[1..], rng, k', fuel, acc + " " + p)
  }

  /** The production a key draws at draw k. */
  function Chosen(g: RuleMap, symbol: string, rng: NextInt, k: nat): (p: Production)
    requires symbol in g && |g[symbol]| > 0
    ensures p in g[symbol]
  {
    g[symbol][rng(k, |g[symbol]|)]
  }

  // ---------------------------------------------------------------------------------------------
  // Properties

  /** A symbol that is not a key is a terminal: it is returned unchanged, whatever the fuel, and no
      draw is made. */
  lemma TerminalUnchanged(g: RuleMap, symbol: string, rng: NextInt, k: nat, fuel: nat)
    requires symbol !in g
    ensures Gen(g, symbol, rng, k, fuel) == Done(symbol, k)
  {
  }

  /** Building on a phrase only puts that phrase in front. */
  lemma {:induction false} GenTokensPrefix(g: RuleMap, tokens: Production, rng: NextInt, k: nat, fuel: nat, acc: string)
    ensures GenTokens(g, tokens, rng, k, fuel, acc) ==
            match GenTokens(g, tokens, rng, k, fuel, "")
            case Done(p, k') => Done(acc + p, k')
            case Failed(e) => Failed(e)
    decreases |tokens|
  {
    if tokens != [] && tokens[0] != "" {
      match Gen(g, tokens[0], rng, k, fuel)
      case Failed(e) =>
      case Done(p, k') =>
        GenTokensPrefix(g, tokens[1..], rng, k', fuel, acc + " " + p);
        GenTokensPrefix(g, tokens[1..], rng, k', fuel, "" + " " + p);
        assert acc + " " + p == acc + (" " + p);
        assert "" + " " + p == " " + p;
    }
  }

  /** The expansion of a non-empty production starts with a space (the leading separator that is
      put before every token, the first included), and that of an empty production is empty. */
  lemma {:induction false} GenTokensLeadingSpace(g: RuleMap, tokens: Production, rng: NextInt, k: nat, fuel: nat)
    requires GenTokens(g, tokens, rng, k, fuel, "").Done?
    ensures var p := GenTokens(g, tokens, rng, k, fuel, "").phrase;
            (tokens == [] <==> p == "") && (tokens != [] ==> p[0] == ' ')
  {
    if tokens != [] {
      var p0 := Gen(g, tokens[0], rng, k, fuel).phrase;
      var k' := Gen(g, tokens[0], rng, k, fuel).next;
      GenTokensPrefix(g, tokens[1..], rng, k', fuel, "" + " " + p0);
    }
  }

  /** A token that is the empty string makes the expansion of its production fail, either there or
      at an earlier token. */
  lemma {:induction false} GenTokensEmptyFails(g: RuleMap, tokens: Production, rng: NextInt, k: nat, fuel: nat, acc: string)
    requires "" in tokens
    ensures GenTokens(g, tokens, rng, k, fuel, acc).Failed?
    decreases |tokens|
  {
    if tokens[0] != "" {
      assert "" in tokens[1..] by {
        var j :| 0 <= j < |tokens| && tokens[j] == "";
        assert tokens[1..][j - 1] == "";
      }
      match Gen(g, tokens[0], rng, k, fuel)
      case Failed(e) =>
      case Done(p, k') => GenTokensEmptyFails(g, tokens[1..], rng, k', fuel, acc + " " + p);
    }
  }

  /** Expanding a key whose drawn production holds an empty token fails. */
  lemma GenFailsOnEmptyToken(g: RuleMap, symbol: string, rng: NextInt, k: nat, fuel: nat)
    requires symbol in g && |g[symbol]| > 0 && fuel > 0
    requires "" in Chosen(g, symbol, rng, k)
    ensures Gen(g, symbol, rng, k, fuel).Failed?
  {
    GenTokensEmptyFails(g, Chosen(g, symbol, rng, k), rng, k + 1, fuel - 1, "");
  }

  /** More fuel changes nothing unless the fuel ran out. */
  lemma {:induction false} GenFuelMonotone(g: RuleMap, symbol: string, rng: NextInt, k: nat, fuel: nat, more: nat)
    requires fuel <= more
    requires Gen(g, symbol, rng, k, fuel) != Failed(OutOfFuel)
    ensures Gen(g, symbol, rng, k, more) == Gen(g, symbol, rng, k, fuel)
    decreases fuel, 0, 0
  {
    if symbol in g && fuel > 0 && |g[symbol]| > 0 {
      GenTokensFuelMonotone(g, Chosen(g, symbol, rng, k), rng, k + 1, fuel - 1, more - 1, "");
    }
  }

  lemma {:induction false} GenTokensFuelMonotone(g: RuleMap, tokens: Production, rng: NextInt, k: nat, fuel: nat, more: nat, acc: string)
    requires fuel <= more
    requires GenTokens(g, tokens, rng, k, fuel, acc) != Failed(OutOfFuel)
    ensures GenTokens(g, tokens, rng, k, more, acc) == GenTokens(g, tokens, rng, k, fuel, acc)
    decreases fuel, 1, |tokens|
  {
    if tokens != [] && tokens[0] != "" {
      var first := Gen(g, tokens[0], rng, k, fuel);
      if first.Failed? {
        assert first != Failed(OutOfFuel);
        GenFuelMonotone(g, tokens[0], rng, k, fuel, more);
      } else {
        GenFuelMonotone(g, tokens[0], rng, k, fuel, more);
        GenTokensFuelMonotone(g, tokens[1..], rng, first.next, fuel, more, acc + " " + first.phrase);
      }
    }
  }

  /** Every production of the grammar has at least one token (true of every parsed grammar). */
  ghost predicate NoEmptyProductions(g: RuleMap)
  {
    forall s :: s in g ==> forall i :: 0 <= i < |g[s]| ==> |g[s][i]| >= 1
  }

  /** In a grammar without empty productions, a successful expansion draws at least once and starts
      with a space exactly when the symbol is a key; otherwise it is the symbol, with no draw. */
  lemma GenKeyOrTerminal(g: RuleMap, symbol: string, rng: NextInt, k: nat, fuel: nat)
    requires NoEmptyProductions(g)
    requires Gen(g, symbol, rng, k, fuel).Done?
    ensures var r := Gen(g, symbol, rng, k, fuel);
            && (symbol in g <==> r.next > k)
            && (symbol in g ==> r.phrase != "" && r.phrase[0] == ' ')
            && (symbol !in g ==> r.phrase == symbol)
  {
    if symbol in g {
      GenTokensLeadingSpace(g, Chosen(g, symbol, rng, k), rng, k + 1, fuel - 1);
    }
  }

}
