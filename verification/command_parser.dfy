/**
 * The shell's command parser (src/engine/CommandParser.java): a command
 * word plus arguments split on white space, and the two phrase commands
 * `order <product> from <city>` and `show route <city> to <city>`.
 */
module CommandParser {
  import opened Wrappers
  import opened Text

  datatype ParsedCommand = ParsedCommand(command: string, arguments: seq<string>)

  /** The exception `String.substring` throws when asked to start past the end. */
  datatype ParseError = SubstringOutOfRange(begin: int, length: int)

  const OrderDelimiter: Delimiter := Keyword("from")
  const RouteDelimiter: Delimiter := Keyword("to")

  /** Neither end of the text is blank. */
  predicate IsTrimmed(s: string) {
    |s| == 0 || (!IsBlank(s[0]) && !IsBlank(s[|s| - 1]))
  }

  /**
   * `parse`: nothing (null or blank input) gives the empty command without
   * arguments; otherwise the first white-space separated token, lower-cased,
   * is the command and the other tokens, in order, are the arguments. No
   * token is empty or holds white space.
   */
  function Parse(input: Option<string>): (c: ParsedCommand)
    ensures input.None? || Trim(input.value) == [] ==> c == ParsedCommand("", [])
    ensures input.Some? && Trim(input.value) != [] ==> |c.command| > 0 && NoSpace(c.command)
    ensures IsLowerCase(c.command)
    ensures forall i :: 0 <= i < |c.arguments| ==> |c.arguments[i]| > 0 && NoSpace(c.arguments[i])
  {
    if input.None? || Trim(input.value) == [] then ParsedCommand("", [])
    else
      var t := Trim(input.value);
      SpaceSplit(t);
      var parts := Split(t, Spaces);
      LowerIsLowerCase(parts[0]);
      ParsedCommand(Lower(parts[0]), parts[1..])
  }

  // ----- Accessors of ParsedCommand -----

  /**
   * `getArgument`: the argument at `index`, or the empty string past the
   * end. A negative index makes the Java array access throw, shown as `None`.
   */
  function Argument(c: ParsedCommand, index: int): (r: Option<string>)
    ensures r.None? <==> index < 0
    ensures 0 <= index < |c.arguments| ==> r == Some(c.arguments[index])
    ensures index >= |c.arguments| ==> r == Some("")
  {
    if index < 0 then None
    else if index < |c.arguments| then Some(c.arguments[index])
    else Some("")
  }

  function ArgumentCount(c: ParsedCommand): nat {
    |c.arguments|
  }

  /** `hasArguments`: there is at least one argument. */
  function HasArguments(c: ParsedCommand): (r: bool)
    ensures r <==> ArgumentCount(c) > 0
  {
    |c.arguments| > 0
  }

  /**
   * For what `parse` returns, having arguments is having a non-empty first
   * argument, since its tokens are never empty.
   */
  lemma ParsedHasArguments(input: Option<string>)
    ensures HasArguments(Parse(input)) <==> Argument(Parse(input), 0) != Some("")
  {
    var c := Parse(input);
    if HasArguments(c) {
      assert |c.arguments[0]| > 0;
    }
  }

  // ----- Phrase commands -----

  predicate LooksLikeOrder(input: string) {
    StartsWith(Lower(input), "order ") && Contains(Lower(input), " from ")
  }

  predicate LooksLikeRoute(input: string) {
    StartsWith(Lower(input), "show route ") && Contains(Lower(input), " to ")
  }

  /**
   * `parseOrderCommand` as the source has it: when the input looks like an
   * order and splits on the first `from` into two parts, the product is the
   * first part without its first 6 characters. When that part is shorter
   * than 6 characters, `substring(6)` throws.
   */
  function ParseOrderCommandAsWritten(input: string): (r: Result<ParsedCommand, ParseError>)
    ensures !LooksLikeOrder(input) ==> r == Success(Parse(Some(input)))
    ensures LooksLikeOrder(input) && |Split(input, OrderDelimiter)| != 2 ==> r == Success(Parse(Some(input)))
    ensures r.Failure? ==> LooksLikeOrder(input) && |Split(input, OrderDelimiter)| == 2
    ensures LooksLikeOrder(input) && |Split(input, OrderDelimiter)| == 2 ==>
      var parts := Split(input, OrderDelimiter);
      && (r.Failure? <==> |parts[0]| < 6)
      && (r.Success? ==> r.value.command == "order" && r.value.arguments == [Trim(parts[0][6..]), Trim(parts[1])])
  {
    if LooksLikeOrder(input) then
      var parts := Split(input, OrderDelimiter);
      if |parts| == 2 then
        if |parts[0]| < 6 then Failure(SubstringOutOfRange(6, |parts[0]|))
        else Success(ParsedCommand("order", [Trim(parts[0][6..]), Trim(parts[1])]))
      else Success(Parse(Some(input)))
    else Success(Parse(Some(input)))
  }

  /**
   * `parseOrderCommand` with the product part read as the text after the
   * command word, which is empty when there is none. Otherwise it behaves
   * as the source does, falling back to `parse` when the input does not
   * have the order shape or does not split into two parts.
   */
  function ParseOrderCommand(input: string): (c: ParsedCommand)
    ensures !LooksLikeOrder(input) ==> c == Parse(Some(input))
    ensures LooksLikeOrder(input) && |Split(input, OrderDelimiter)| != 2 ==> c == Parse(Some(input))
    ensures LooksLikeOrder(input) && |Split(input, OrderDelimiter)| == 2 ==>
      var parts := Split(input, OrderDelimiter);
      && c.command == "order" && |c.arguments| == 2
      && IsTrimmed(c.arguments[0]) && c.arguments[1] == Trim(parts[1])
      && c.arguments[0] == (if |parts[0]| < 6 then "" else Trim(parts[0][6..]))
  {
    if LooksLikeOrder(input) then
      var parts := Split(input, OrderDelimiter);
      if |parts| == 2 then
        var product := if |parts[0]| < 6 then "" else parts[0][6..];
        ParsedCommand("order", [Trim(product), Trim(parts[1])])
      else Parse(Some(input))
    else Parse(Some(input))
  }

  /**
   * `parseRouteCommand`: when the input looks like a route query, the text
   * after `show route ` split on the first `to` gives the two cities;
   * otherwise, or when the split does not give two parts, `parse`.
   */
  function ParseRouteCommand(input: string): (c: ParsedCommand)
    ensures !LooksLikeRoute(input) ==> c == Parse(Some(input))
    ensures LooksLikeRoute(input) && |Split(input[11..], RouteDelimiter)| != 2 ==> c == Parse(Some(input))
    ensures LooksLikeRoute(input) && |Split(input[11..], RouteDelimiter)| == 2 ==>
      c == ParsedCommand("route", [Trim(Split(input[11..], RouteDelimiter)[0]), Trim(Split(input[11..], RouteDelimiter)[1])])
  {
    if LooksLikeRoute(input) then
      var cities := Split(input[11..], RouteDelimiter);
      if |cities| == 2 then ParsedCommand("route", [Trim(cities[0]), Trim(cities[1])])
      else Parse(Some(input))
    else Parse(Some(input))
  }

  // ----- Round trips -----

  /**
   * Any input written as blank characters, tokens without white space
   * separated by runs of white space, and blank characters parses into the
   * lower-cased first token and the other tokens, in order.
   */
  lemma ParseWords(lead: string, words: seq<string>, seps: seq<string>, trail: string)
    requires |words| > 0 && |seps| == |words| - 1
    requires forall i :: 0 <= i < |words| ==> |words[i]| > 0 && NoSpace(words[i])
    requires forall i :: 0 <= i < |seps| ==> IsSpaceRun(seps[i])
    requires !IsBlank(words[0][0]) && !IsBlank(words[|words| - 1][|words[|words| - 1]| - 1])
    requires forall i :: 0 <= i < |lead| ==> IsBlank(lead[i])
    requires forall i :: 0 <= i < |trail| ==> IsBlank(trail[i])
    ensures Parse(Some(lead + Interleave(words, seps) + trail)) == ParsedCommand(Lower(words[0]), words[1..])
  {
    var t := Interleave(words, seps);
    assert |words[0]| > 0 && |words[|words| - 1]| > 0;
    TrimSurrounded(lead, t, trail);
    SplitInterleave(words, seps);
    forall i | 0 <= i < |Pieces(t, Spaces)|
      ensures |Pieces(t, Spaces)[i]| > 0
    {
      assert |words[i]| > 0;
    }
    SplitKeepsNonEmpty(t, Spaces);
  }

  /** Text that starts with `order ` and holds ` from `, in any case, has the order shape. */
  lemma OrderShape(s: string, verb: string, keyword: string, i: nat)
    requires EqualsIgnoreCase(verb, "order") && EqualsIgnoreCase(keyword, "from")
    requires 6 <= |s| && s[..6] == verb + " "
    requires i + 6 <= |s| && s[i..i + 6] == " " + keyword + " "
    ensures LooksLikeOrder(s)
  {
    LowerOfEqual(verb, "order");
    LowerOfEqual(keyword, "from");
    LowerAppend(verb, " ");
    LowerAppend(" " + keyword, " ");
    LowerAppend(" ", keyword);
    LowerShape(s, "order ", " from ", i);
  }

  /** Text that starts with `show route ` and holds ` to `, in any case, has the route shape. */
  lemma RouteShape(s: string, verb: string, keyword: string, i: nat)
    requires EqualsIgnoreCase(verb, "show route") && EqualsIgnoreCase(keyword, "to")
    requires 11 <= |s| && s[..11] == verb + " "
    requires i + 4 <= |s| && s[i..i + 4] == " " + keyword + " "
    ensures LooksLikeRoute(s)
  {
    LowerOfEqual(verb, "show route");
    LowerOfEqual(keyword, "to");
    LowerAppend(verb, " ");
    LowerAppend(" " + keyword, " ");
    LowerAppend(" ", keyword);
    LowerShape(s, "show route ", " to ", i);
  }

  /**
   * `order <product> from <city>`, with the product and the city each one or
   * more visible words separated by single spaces, none of them the word
   * `from`, and `order` and `from` in any case: both parsers give exactly
   * that product and city.
   */
  lemma OrderRoundTrip(verb: string, product: seq<string>, keyword: string, city: seq<string>)
    requires EqualsIgnoreCase(verb, "order") && EqualsIgnoreCase(keyword, "from")
    requires PhraseOf(product, "from") && PhraseOf(city, "from")
    ensures ParseOrderCommandAsWritten(verb + " " + Join(product) + " " + keyword + " " + Join(city))
      == Success(ParsedCommand("order", [Join(product), Join(city)]))
    ensures ParseOrderCommand(verb + " " + Join(product) + " " + keyword + " " + Join(city))
      == ParsedCommand("order", [Join(product), Join(city)])
  {
    var s := verb + " " + Join(product) + " " + keyword + " " + Join(city);
    Spaced(verb + " " + Join(product), keyword, Join(city));
    OrderAt(s, verb, product, keyword, city);
    AsWrittenAgrees(s);
  }

  /** The words of the phrase commands are visible and lower case. */
  lemma FixedWords()
    ensures IsPrintable("order") && IsLowerCase("order") && IsPrintable("from") && IsLowerCase("from")
    ensures IsLowerCase("show route") && IsPrintable("to") && IsLowerCase("to")
    ensures IsPrintable("fast") && IsLowerCase("fast")
  {
  }

  /** `OrderRoundTrip`, for text given by where its parts lie. */
  lemma OrderAt(s: string, verb: string, product: seq<string>, keyword: string, city: seq<string>)
    requires EqualsIgnoreCase(verb, "order") && EqualsIgnoreCase(keyword, "from")
    requires PhraseOf(product, "from") && PhraseOf(city, "from")
    requires Around(s, verb + " " + Join(product), keyword, Join(city))
    ensures ParseOrderCommandAsWritten(s) == Success(ParsedCommand("order", [Join(product), Join(city)]))
  {
    var p, c := Join(product), Join(city);
    assert LooksLikeOrder(s) by {
      OrderLooks(s, verb, p, keyword, c);
    }
    assert Split(s, OrderDelimiter) == [verb + " " + p, c] by {
      OrderSplit(s, verb, product, keyword, city);
    }
    assert Trim(p) == p && Trim(c) == c by {
      assert IsPrintable(product[0]) && IsPrintable(product[|product| - 1]);
      assert IsPrintable(city[0]) && IsPrintable(city[|city| - 1]);
      TrimJoin(product);
      TrimJoin(city);
    }
    assert |verb| == 5 && (verb + " " + p)[6..] == p;
    OrderParts(s, verb + " " + p, p, c);
  }

  /** An order that splits into a first part, 6 characters and then the product, and the city. */
  lemma OrderParts(s: string, first: string, p: string, c: string)
    requires LooksLikeOrder(s) && Split(s, OrderDelimiter) == [first, c]
    requires |first| >= 6 && first[6..] == p && Trim(p) == p && Trim(c) == c
    ensures ParseOrderCommandAsWritten(s) == Success(ParsedCommand("order", [p, c]))
  {
  }

  /** `order <product> from <city>` laid out with single spaces has the order shape. */
  lemma OrderLooks(s: string, verb: string, p: string, keyword: string, c: string)
    requires EqualsIgnoreCase(verb, "order") && EqualsIgnoreCase(keyword, "from")
    requires Around(s, verb + " " + p, keyword, c)
    ensures LooksLikeOrder(s)
  {
    var n := |p|;
    assert |verb| == 5 && |keyword| == 4;
    assert s[..6] == (verb + " " + p)[..6] == verb + " ";
    assert s[6 + n..12 + n] == " " + keyword + " ";
    OrderShape(s, verb, keyword, 6 + n);
  }

  /** Such an order splits on `from` into the words before it and the city. */
  lemma OrderSplit(s: string, verb: string, product: seq<string>, keyword: string, city: seq<string>)
    requires EqualsIgnoreCase(verb, "order") && EqualsIgnoreCase(keyword, "from")
    requires PhraseOf(product, "from") && PhraseOf(city, "from")
    requires Around(s, verb + " " + Join(product), keyword, Join(city))
    ensures Split(s, OrderDelimiter) == [verb + " " + Join(product), Join(city)]
  {
    var left := [verb] + product;
    JoinCons(left);
    assert left[0] == verb && left[1..] == product;
    FixedWords();
    LowerOfEqual(verb, "order");
    LowerPrintable(verb, "order");
    assert |verb| != |"from"|;
    PhraseCons(verb, product, "from");
    KeywordSplitAt(s, left, keyword, city, "from");
  }

  /**
   * `show route <city> to <city>`, with each city one or more visible words
   * separated by single spaces, none of them the word `to`, and the fixed
   * words in any case: the parser gives exactly those two cities.
   */
  lemma RouteRoundTrip(verb: string, from: seq<string>, keyword: string, to: seq<string>)
    requires EqualsIgnoreCase(verb, "show route") && EqualsIgnoreCase(keyword, "to")
    requires PhraseOf(from, "to") && PhraseOf(to, "to")
    ensures ParseRouteCommand(verb + " " + Join(from) + " " + keyword + " " + Join(to))
      == ParsedCommand("route", [Join(from), Join(to)])
  {
    Spaced(verb + " " + Join(from), keyword, Join(to));
    RouteAt(verb + " " + Join(from) + " " + keyword + " " + Join(to), verb, from, keyword, to);
  }

  /** `RouteRoundTrip`, for text given by where its parts lie. */
  lemma RouteAt(s: string, verb: string, from: seq<string>, keyword: string, to: seq<string>)
    requires EqualsIgnoreCase(verb, "show route") && EqualsIgnoreCase(keyword, "to")
    requires PhraseOf(from, "to") && PhraseOf(to, "to")
    requires Around(s, verb + " " + Join(from), keyword, Join(to))
    ensures ParseRouteCommand(s) == ParsedCommand("route", [Join(from), Join(to)])
  {
    FixedWords();
    RouteLooks(s, verb, Join(from), keyword, Join(to));
    assert |verb + " "| == 11;
    AroundAfter(s, verb + " ", Join(from), keyword, Join(to));
    KeywordSplitAt(s[11..], from, keyword, to, "to");
    TrimJoin(from);
    TrimJoin(to);
  }

  /** `show route <city> to <city>` laid out with single spaces has the route shape. */
  lemma RouteLooks(s: string, verb: string, a: string, keyword: string, b: string)
    requires EqualsIgnoreCase(verb, "show route") && EqualsIgnoreCase(keyword, "to")
    requires Around(s, verb + " " + a, keyword, b)
    ensures LooksLikeRoute(s)
  {
    var n := |a|;
    assert |verb| == 10 && |keyword| == 2;
    assert s[..11] == (verb + " " + a)[..11] == verb + " ";
    assert s[11 + n..15 + n] == " " + keyword + " ";
    RouteShape(s, verb, keyword, 11 + n);
  }

  // ----- The missing product -----

  /** Where the source's parser succeeds, the corrected one gives the same command. */
  lemma AsWrittenAgrees(input: string)
    ensures ParseOrderCommandAsWritten(input).Success? ==> ParseOrderCommandAsWritten(input).value == ParseOrderCommand(input)
  {
  }

  /**
   * The source's parser fails only when the `from` delimiter starts right
   * after the word `order`, so that no product was typed; the corrected
   * parser then reports an empty product.
   */
  lemma {:induction false} FailsOnlyWithoutProduct(input: string)
    requires ParseOrderCommandAsWritten(input).Failure?
    ensures FirstMatch(input, OrderDelimiter, 0).Some? && FirstMatch(input, OrderDelimiter, 0).value.0 == 5
    ensures ParseOrderCommand(input) == ParsedCommand("order", ["", Trim(Split(input, OrderDelimiter)[1])])
  {
    var parts := Split(input, OrderDelimiter);
    assert FirstMatch(input, OrderDelimiter, 0).Some?;
    FirstPart(input, OrderDelimiter);
    var a := FirstMatch(input, OrderDelimiter, 0).value.0;
    assert |parts[0]| == a < 6;
    assert a >= 5 by {
      assert Lower(input)[..6] == "order ";
      forall k | 0 <= k < 5
        ensures !IsSpace(input[k])
      {
        assert Lower(input)[k] == "order "[k];
      }
      assert IsSpace(input[a]);
    }
  }

  /**
   * `order from <city>` (for instance `order from Lahore`), with the city
   * one or more visible words none of which is `from`, makes the source's
   * parser throw; the corrected one reads an empty product.
   */
  lemma OrderWithoutProduct(verb: string, keyword: string, city: seq<string>)
    requires EqualsIgnoreCase(verb, "order") && EqualsIgnoreCase(keyword, "from")
    requires PhraseOf(city, "from")
    ensures ParseOrderCommandAsWritten(verb + " " + keyword + " " + Join(city)) == Failure(SubstringOutOfRange(6, 5))
    ensures ParseOrderCommand(verb + " " + keyword + " " + Join(city)) == ParsedCommand("order", ["", Join(city)])
  {
    Spaced(verb, keyword, Join(city));
    OrderWithoutProductAt(verb + " " + keyword + " " + Join(city), verb, keyword, city);
  }

  /** `OrderWithoutProduct`, for text given by where its parts lie. */
  lemma OrderWithoutProductAt(s: string, verb: string, keyword: string, city: seq<string>)
    requires EqualsIgnoreCase(verb, "order") && EqualsIgnoreCase(keyword, "from")
    requires PhraseOf(city, "from")
    requires Around(s, verb, keyword, Join(city))
    ensures ParseOrderCommandAsWritten(s) == Failure(SubstringOutOfRange(6, 5))
    ensures ParseOrderCommand(s) == ParsedCommand("order", ["", Join(city)])
  {
    assert LooksLikeOrder(s) && Split(s, OrderDelimiter) == [verb, Join(city)] && |verb| == 5 by {
      OrderWithoutProductSplit(s, verb, keyword, city);
    }
    assert Trim(Join(city)) == Join(city) by {
      assert IsPrintable(city[0]) && IsPrintable(city[|city| - 1]);
      TrimJoin(city);
    }
    EmptyProduct(s, verb, Join(city));
  }

  /** `order from <city>` has the order shape and splits into `order` and the city. */
  lemma OrderWithoutProductSplit(s: string, verb: string, keyword: string, city: seq<string>)
    requires EqualsIgnoreCase(verb, "order") && EqualsIgnoreCase(keyword, "from")
    requires PhraseOf(city, "from")
    requires Around(s, verb, keyword, Join(city))
    ensures LooksLikeOrder(s) && Split(s, OrderDelimiter) == [verb, Join(city)] && |verb| == 5
  {
    assert |verb| == 5;
    NoProductLooks(s, verb, keyword, Join(city));
    assert Split(s, OrderDelimiter) == [verb, Join(city)] by {
      LowerOfEqual(verb, "order");
      LowerPrintable(verb, "order");
      assert Join([verb]) == verb;
      KeywordSplitAt(s, [verb], keyword, city, "from");
    }
  }

  /** `order from <city>` laid out with single spaces has the order shape. */
  lemma NoProductLooks(s: string, verb: string, keyword: string, c: string)
    requires EqualsIgnoreCase(verb, "order") && EqualsIgnoreCase(keyword, "from")
    requires Around(s, verb, keyword, c)
    ensures LooksLikeOrder(s)
  {
    assert |verb| == 5 && |keyword| == 4;
    assert s[..6] == verb + " ";
    assert s[5..11] == " " + keyword + " ";
    OrderShape(s, verb, keyword, 5);
  }

  /** An order whose first part is too short for `substring(6)`, with a trimmed second part. */
  lemma EmptyProduct(s: string, first: string, city: string)
    requires LooksLikeOrder(s) && Split(s, OrderDelimiter) == [first, city] && |first| == 5 && Trim(city) == city
    ensures ParseOrderCommandAsWritten(s) == Failure(SubstringOutOfRange(6, 5))
    ensures ParseOrderCommand(s) == ParsedCommand("order", ["", city])
  {
  }

  // ----- Fast delivery -----

  /** The order command's `fastDelivery`: a third argument `fast`, in any case. */
  predicate FastDelivery(c: ParsedCommand) {
    |c.arguments| > 2 && EqualsIgnoreCase(c.arguments[2], "fast")
  }

  /** Text that ends in white space and the word `fast`, in any case, with something before. */
  predicate EndsWithFast(city: string) {
    |city| > 5 && IsSpace(city[|city| - 5]) && EqualsIgnoreCase(city[|city| - 4..], "fast")
  }

  /**
   * The documented `fast` suffix read off a parsed order: when the city, the
   * second of two arguments, ends in the word `fast`, that word becomes a
   * third argument and the city is what comes before it. Any other command
   * is kept as it is. The corrected order parser is this applied to
   * `ParseOrderCommand`.
   */
  function ReadFastSuffix(o: ParsedCommand): (c: ParsedCommand)
    ensures c.command == o.command
    ensures !(|o.arguments| == 2 && EndsWithFast(o.arguments[1])) ==> c == o
    ensures |o.arguments| == 2 && EndsWithFast(o.arguments[1]) ==>
      && FastDelivery(c) && |c.arguments| == 3 && c.arguments[0] == o.arguments[0]
      && o.arguments[1][|o.arguments[1]| - 4..] == c.arguments[2]
      && Trim(o.arguments[1][..|o.arguments[1]| - 5]) == c.arguments[1]
  {
    if |o.arguments| == 2 && EndsWithFast(o.arguments[1]) then
      var city := o.arguments[1];
      ParsedCommand(o.command, [o.arguments[0], Trim(city[..|city| - 5]), city[|city| - 4..]])
    else o
  }

  /** `fast` in any case is a visible word other than `from`. */
  lemma FastWord(fast: string)
    requires EqualsIgnoreCase(fast, "fast")
    ensures IsPrintable(fast) && !EqualsIgnoreCase(fast, "from") && |fast| == 4
  {
    FixedWords();
    LowerOfEqual(fast, "fast");
    LowerPrintable(fast, "fast");
    assert LowerChar(fast[1]) == 'a';
  }

  /**
   * The documented fast order `order <product> from <city> fast`: the
   * source's parsers leave `fast` inside the city, so the order command
   * never sees a third argument and never delivers fast.
   */
  lemma FastSuffixIgnored(verb: string, product: seq<string>, keyword: string, city: seq<string>, fast: string)
    requires EqualsIgnoreCase(verb, "order") && EqualsIgnoreCase(keyword, "from") && EqualsIgnoreCase(fast, "fast")
    requires PhraseOf(product, "from") && PhraseOf(city, "from")
    ensures ParseOrderCommandAsWritten(verb + " " + Join(product) + " " + keyword + " " + Join(city + [fast]))
      == Success(ParsedCommand("order", [Join(product), Join(city) + " " + fast]))
    ensures ParseOrderCommand(verb + " " + Join(product) + " " + keyword + " " + Join(city + [fast]))
      == ParsedCommand("order", [Join(product), Join(city) + " " + fast])
    ensures !FastDelivery(ParseOrderCommand(verb + " " + Join(product) + " " + keyword + " " + Join(city + [fast])))
  {
    FastWord(fast);
    PhraseSnoc(city, fast, "from");
    OrderRoundTrip(verb, product, keyword, city + [fast]);
    JoinSnoc(city, fast);
  }

  /**
   * The same order read with the `fast` suffix: the city is the words
   * before `fast`, and `fast` is the third argument that turns fast
   * delivery on.
   */
  lemma FastOrderRoundTrip(verb: string, product: seq<string>, keyword: string, city: seq<string>, fast: string)
    requires EqualsIgnoreCase(verb, "order") && EqualsIgnoreCase(keyword, "from") && EqualsIgnoreCase(fast, "fast")
    requires PhraseOf(product, "from") && PhraseOf(city, "from")
    ensures ReadFastSuffix(ParseOrderCommand(verb + " " + Join(product) + " " + keyword + " " + Join(city + [fast])))
      == ParsedCommand("order", [Join(product), Join(city), fast])
    ensures FastDelivery(ReadFastSuffix(ParseOrderCommand(verb + " " + Join(product) + " " + keyword + " " + Join(city + [fast]))))
  {
    FastSuffixIgnored(verb, product, keyword, city, fast);
    assert IsPrintable(city[0]) && IsPrintable(city[|city| - 1]);
    TrimJoin(city);
    SpeedSplit(verb + " " + Join(product) + " " + keyword + " " + Join(city + [fast]), Join(product), Join(city), fast);
  }

  /** An order whose city is a trimmed city, a space and `fast` moves `fast` out of the city. */
  lemma SpeedSplit(input: string, p: string, j: string, fast: string)
    requires ParseOrderCommand(input) == ParsedCommand("order", [p, j + " " + fast])
    requires EqualsIgnoreCase(fast, "fast") && |j| > 0 && Trim(j) == j
    ensures ReadFastSuffix(ParseOrderCommand(input)) == ParsedCommand("order", [p, j, fast])
    ensures FastDelivery(ReadFastSuffix(ParseOrderCommand(input)))
  {
    FastEnd(j, fast);
  }

  /** A city, a space and `fast` ends in the word `fast`, and the city is what comes before it. */
  lemma FastEnd(j: string, fast: string)
    requires EqualsIgnoreCase(fast, "fast") && |j| > 0
    ensures var t := j + " " + fast; EndsWithFast(t) && t[..|t| - 5] == j && t[|t| - 4..] == fast
  {
    var t := j + " " + fast;
    assert |fast| == 4;
    assert t[|t| - 5] == ' ' && t[|t| - 4..] == fast;
    assert t[..|t| - 5] == j;
  }

  /**
   * An order whose city does not end in the word `fast` reads the same with
   * or without the suffix rule, and does not deliver fast.
   */
  lemma PlainOrderRoundTrip(verb: string, product: seq<string>, keyword: string, city: seq<string>)
    requires EqualsIgnoreCase(verb, "order") && EqualsIgnoreCase(keyword, "from")
    requires PhraseOf(product, "from") && PhraseOf(city, "from") && !EqualsIgnoreCase(city[|city| - 1], "fast")
    ensures ReadFastSuffix(ParseOrderCommand(verb + " " + Join(product) + " " + keyword + " " + Join(city)))
      == ParsedCommand("order", [Join(product), Join(city)])
    ensures !FastDelivery(ReadFastSuffix(ParseOrderCommand(verb + " " + Join(product) + " " + keyword + " " + Join(city))))
  {
    OrderRoundTrip(verb, product, keyword, city);
    NoFastEnd(city);
  }

  /** Visible words joined by single spaces, the last not `fast`, do not end in the word `fast`. */
  lemma NoFastEnd(words: seq<string>)
    requires |words| > 0 && forall i :: 0 <= i < |words| ==> IsPrintable(words[i])
    requires !EqualsIgnoreCase(words[|words| - 1], "fast")
    ensures !EndsWithFast(Join(words))
  {
    var last := words[|words| - 1];
    assert IsPrintable(last);
    JoinEnd(words);
    NoFastAfterSpace(Join(words), last);
  }

  /** Text ending in a visible word other than `fast`, after a space or nothing, does not end in `fast`. */
  lemma NoFastAfterSpace(t: string, last: string)
    requires IsPrintable(last) && !EqualsIgnoreCase(last, "fast")
    requires |last| <= |t| && t[|t| - |last|..] == last
    requires |t| == |last| || t[|t| - |last| - 1] == ' '
    ensures !EndsWithFast(t)
  {
    var m := |last|;
    if m >= 5 {
      assert t[|t| - 5] == last[m - 5];
      assert !IsBlank(t[|t| - 5]);
    } else if m == 4 {
      assert t[|t| - 4..] == last;
    } else if |t| > 5 {
      FixedWords();
      assert t[|t| - 4..][3 - m] == ' ';
      assert !IsBlank("fast"[3 - m]);
    }
  }
}
