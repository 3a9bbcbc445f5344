/// The whole pipeline, text to invocation, and the behaviour fixed by the
/// examples in spec/flexverb_spec.rb, stated for those examples and, where
/// they illustrate a general rule, for all inputs.
module FlexVerb {
  import opened Terms
  import opened Parser
  import opened Transform
  import opened Interpreter

  /** Parses a sentence and interprets it: the action to invoke and its argument. */
  function Run(registry: map<string, Action>, text: string): Result<Invocation> {
    match Parse(text)
    case Err(e) => Err(e)
    case Ok(tree) => Interpret(registry, tree)
  }

  /** The literal of the examples, as written in a sentence. */
  const Hello: string := "\"hello world\""
  const VerbText: string := "verb(print)"
  const ObjectText: string := "direct-object(\"hello world\")"
  /** `verb(print) direct-object("hello world")` */
  const Line: string := VerbText + " " + ObjectText
  /** `direct-object("hello world") verb(print)` */
  const SwappedLine: string := ObjectText + " " + VerbText

  /** A direct object decodes to the text between its quotes. */
  lemma TransformsDirectObject()
    ensures Apply(Registry, DirectObject(Hello)) == Ok(Text("hello world"))
  {
    assert Hello == Quote("hello world");
    DecodeQuote("hello world");
  }

  /** The verb `print` resolves to the `Puts` action. */
  lemma TransformsVerb()
    ensures Apply(Registry, Verb("print")) == Ok(ActionRef(Puts))
  {
  }

  /** Interpreting a verb and its object yields one call of `Puts` with the
      unquoted text. */
  lemma ExecutesAMethod()
    ensures Interpret(Registry, Many([Verb("print"), DirectObject(Hello)]))
         == Ok(Invocation(Puts, Some("hello world")))
  {
    var ts := [Verb("print"), DirectObject(Hello)];
    TransformsDirectObject();
    ExampleRoles(ts);
    InterpretRegisteredVerb(Registry, ts, "print");
  }

  /** The same terms the other way round yield the same call. */
  lemma IgnoresWordOrder()
    ensures Interpret(Registry, Many([DirectObject(Hello), Verb("print")]))
         == Ok(Invocation(Puts, Some("hello world")))
  {
    var ts := [Verb("print"), DirectObject(Hello)];
    var swapped := [DirectObject(Hello), Verb("print")];
    ExecutesAMethod();
    ExampleRoles(ts);
    assert multiset(ts) == multiset(swapped);
    InterpretIgnoresOrder(Registry, ts, swapped);
  }

  /** The example sentence fills each role once. */
  lemma ExampleRoles(ts: seq<Term>)
    requires ts == [Verb("print"), DirectObject(Hello)] || ts == [DirectObject(Hello), Verb("print")]
    ensures AtMostOnePerRole(ts)
  {
    var rest := ts[1..];
    assert rest == [ts[1]] && rest[1..] == [];
    forall role ensures CountRole(ts, role) <= 1 {
      assert CountRole(rest[1..], role) == 0;
      assert CountRole(rest, role) == if ts[1].RoleOf() == role then 1 else 0;
    }
  }

  /** The example terms are ones the parser can produce. */
  lemma ExampleTermsWellFormed()
    ensures WellFormed(Verb("print")) && WellFormed(DirectObject(Hello))
  {
  }

  /** The example verb term, written with either marker. */
  lemma ExampleVerbWritten()
    ensures Render(Verb("print"), Full) == VerbText
    ensures Render(Verb("print"), Terse) == "v(print)"
  {
  }

  /** The example direct-object term, written with either marker. */
  lemma ExampleObjectWritten()
    ensures Render(DirectObject(Hello), Full) == ObjectText
    ensures Render(DirectObject(Hello), Terse) == "o(\"hello world\")"
  {
  }

  /** A complete line parses to its two terms in source order, the object
      keeping its quotes. */
  lemma ParsesCompleteLine()
    ensures Parse(Line) == Ok(Many([Verb("print"), DirectObject(Hello)]))
  {
    var ts := [Verb("print"), DirectObject(Hello)];
    ExampleTermsWellFormed();
    ParseWritten(ts, [Full, Full], [" "]);
    LineIsWritten();
  }

  lemma LineIsWritten()
    ensures Write([Verb("print"), DirectObject(Hello)], [Full, Full], [" "]) == Line
  {
    var ts := [Verb("print"), DirectObject(Hello)];
    ExampleVerbWritten();
    ExampleObjectWritten();
    assert Write(ts[1..], [Full], []) == ObjectText;
    assert VerbText + (" " + ObjectText) == Line;
  }

  /** With the terms swapped in the text, the list comes back swapped. */
  lemma IgnoresTermPosition()
    ensures Parse(SwappedLine) == Ok(Many([DirectObject(Hello), Verb("print")]))
  {
    var ts := [DirectObject(Hello), Verb("print")];
    ExampleTermsWellFormed();
    ParseWritten(ts, [Full, Full], [" "]);
    SwappedLineIsWritten();
  }

  lemma SwappedLineIsWritten()
    ensures Write([DirectObject(Hello), Verb("print")], [Full, Full], [" "]) == SwappedLine
  {
    var ts := [DirectObject(Hello), Verb("print")];
    ExampleVerbWritten();
    ExampleObjectWritten();
    assert Write(ts[1..], [Full], []) == VerbText;
    assert ObjectText + (" " + VerbText) == SwappedLine;
  }

  /** A lone verb parses to the bare term, not a one-element list. */
  lemma RecognizesVerb()
    ensures Parse(VerbText) == Ok(Single(Verb("print")))
  {
    ExampleTermsWellFormed();
    ExampleVerbWritten();
    ParseWritten([Verb("print")], [Full], []);
  }

  /** A lone direct object parses to the bare term, not a one-element list. */
  lemma RecognizesDirectObject()
    ensures Parse(ObjectText) == Ok(Single(DirectObject(Hello)))
  {
    ExampleTermsWellFormed();
    ExampleObjectWritten();
    ParseWritten([DirectObject(Hello)], [Full], []);
  }

  /** The terse markers `v` and `o` parse like `verb` and `direct-object`. */
  lemma RecognizesTerseMarkers()
    ensures Parse("v(print)") == Ok(Single(Verb("print")))
    ensures Parse("o(\"hello world\")") == Ok(Single(DirectObject(Hello)))
  {
    ExampleTermsWellFormed();
    ExampleVerbWritten();
    ExampleObjectWritten();
    ParseWritten([Verb("print")], [Terse], []);
    ParseWritten([DirectObject(Hello)], [Terse], []);
  }

  /** Parsing and interpreting the complete line, in either order, calls
      `Puts` with the unquoted text. */
  lemma RunsCompleteLine()
    ensures Run(Registry, Line) == Ok(Invocation(Puts, Some("hello world")))
    ensures Run(Registry, SwappedLine) == Ok(Invocation(Puts, Some("hello world")))
  {
    ParsesCompleteLine();
    ExecutesAMethod();
    IgnoresTermPosition();
    IgnoresWordOrder();
  }

  /** End to end, neither the position of the terms in the text, nor the
      marker each term is written with, nor the whitespace between them
      changes what is invoked. */
  lemma RunIgnoresLayout(
    registry: map<string, Action>,
    a: seq<Term>, na: seq<Notation>, ga: seq<string>,
    b: seq<Term>, nb: seq<Notation>, gb: seq<string>)
    requires IsLayout(a, na, ga) && IsLayout(b, nb, gb)
    requires forall t | t in a :: WellFormed(t)
    requires multiset(a) == multiset(b)
    requires AtMostOnePerRole(a)
    ensures Run(registry, Write(a, na, ga)) == Run(registry, Write(b, nb, gb))
  {
    forall t | t in b ensures WellFormed(t) {
      assert t in multiset(a);
    }
    ParseWritten(a, na, ga);
    ParseWritten(b, nb, gb);
    assert |a| == 1 ==> [a[0]] == a;
    assert |b| == 1 ==> [b[0]] == b;
    InterpretIgnoresOrder(registry, a, b);
  }
}
