# FlexVerb in Dafny

FlexVerb reads short commands in which grammatical roles are marked
explicitly, so the words may come in any order:

    verb(print) direct-object("hello world")
    direct-object("hello world") verb(print)
    v(print) o("hello world")

All three ask for the same thing: print `hello world`. The core is a
three-stage pipeline, and this project models it as pure functions with
proofs about them:

- **Parser** (`parser.dfy`, module `Parser`) turns a sentence into tagged
  role terms, `Verb(name)` or `DirectObject(literal)`. The literal keeps its
  quote characters. A single term comes back bare (`Single`). Two or more
  come back as a list in source order (`Many`). The full markers `verb`
  and `direct-object` and the terse markers `v` and `o` mean the same.
- **Transform** (`transform.dfy`, module `Transform`) resolves one term.
  A direct object decodes to the text between its quotes. A verb is looked
  up in the action registry, passed in as a `map<string, Action>`; the
  configured registry maps `print` to `Puts`.
- **Interpreter** (`interpreter.dfy`, module `Interpreter`) files the terms
  into a record keyed by role, then resolves the verb and the optional
  direct object. The result is one `Invocation(action, argument)`. The
  call of `Kernel.puts` that the Ruby program makes is returned as this
  value instead of being performed.

`terms.dfy` (module `Terms`) holds the shared values: terms, the parse
shapes, errors, and role counts. `flexverb.dfy` (module `FlexVerb`) joins
the stages into `Run` and restates each example of the RSpec suite as a
lemma.

The repository's implementation under `lib/flexverb` is not part of this
model. Its behaviour is rebuilt from the assertions of
`spec/flexverb_spec.rb`. The grammar is modelled directly as functions
over strings. A printer, `Parser.Write`, serves as its inverse: it writes
terms out with a marker notation (full or terse) chosen term by term and
a run of whitespace between neighbouring terms.

Each stage's general property is proved for all inputs:
- parsing a written sentence gives back its terms, in source order,
  whichever marker each term uses and whatever whitespace separates them;
- conversely, every text the parser accepts is such a written sentence,
  so the two lemmas together say exactly which texts parse;
- at the start of a text, the terse markers parse exactly like the full
  ones, whatever text follows;
- decoding a written literal gives back the quoted text;
- the interpretation of a sentence with at most one term per role depends
  only on which terms it holds, not on their order, and resolves each term
  through Transform.

## Model

| member | source | states |
|---|---|---|
| Transform.Decode | spec/flexverb_spec.rb:6-9 | a quoted literal decodes to text that, quoted again, is the literal (one quote stripped from each end, length shorter by two); an unquoted literal is passed through |
| Transform.DecodeQuote | spec/flexverb_spec.rb:6-9 | decoding a written literal gives back exactly the text between the quotes |
| Transform.Apply | spec/flexverb_spec.rb:5-14 | a direct object always resolves to text, and for a quoted literal that text, quoted again, is the literal; a verb resolves exactly when the registry knows its name, and then to the registered action |
| FlexVerb.TransformsDirectObject | spec/flexverb_spec.rb:6-9 | `"hello world"` (with quotes) transforms to `hello world` |
| FlexVerb.TransformsVerb | spec/flexverb_spec.rb:11-14 | the verb `print` resolves to the `Puts` action through the registry |
| Interpreter.Classify | spec/flexverb_spec.rb:36-48 | the verb and direct object filed in the role record are terms of the sentence |
| Interpreter.ClassifyFinds | spec/flexverb_spec.rb:36-48 | with no role filled twice, classification succeeds and the record holds the sentence's verb and direct object, whichever position they had |
| Interpreter.ClassifyIgnoresOrder | spec/flexverb_spec.rb:43-48 | two lists with the same terms and at most one term per role give the same record, and the second also has at most one term per role |
| Interpreter.InterpretIgnoresOrder | spec/flexverb_spec.rb:43-48 | any rearrangement of a sentence with at most one term per role yields the identical invocation |
| Interpreter.InterpretRegisteredVerb | spec/flexverb_spec.rb:36-41 | a sentence with a registered verb yields one invocation of that verb's action, with the decoded direct object as argument if there is one and no argument otherwise |
| Interpreter.InterpretSound | spec/flexverb_spec.rb:36-41 | every successful interpretation invokes the registered action of a verb of the sentence, and its argument is the decoded literal of a direct object of the sentence; both are what Transform.Apply gives for those terms |
| FlexVerb.ExecutesAMethod | spec/flexverb_spec.rb:36-41 | interpreting `[verb print, direct-object "hello world"]` yields exactly one call of `Puts` with `hello world`, quotes removed |
| FlexVerb.IgnoresWordOrder | spec/flexverb_spec.rb:43-48 | the reversed list yields the identical call |
| Parser.ReadMarker | spec/flexverb_spec.rb:74-87 | a recognised marker is one of `verb`, `v`, `direct-object`, `o`, followed by `(`, and the text is that marker, the parenthesis and the rest |
| Parser.ParseTerm | spec/flexverb_spec.rb:74-87 | a parsed term is well formed (a non-empty verb token, or a quoted literal with no quote inside) and the remaining text is shorter |
| Parser.ParseSentence | spec/flexverb_spec.rb:56-71 | a parsed sentence has at least one term and every term is well formed |
| Parser.Parse | spec/flexverb_spec.rb:74-82 | a list result always has two or more terms, so one term always comes back bare; every term is well formed |
| Parser.ParseRenderedTerm | spec/flexverb_spec.rb:74-87 | a written well-formed term, with either marker, parses back to itself and parsing resumes right after it |
| Parser.ParseWrittenSentence | spec/flexverb_spec.rb:56-71 | a sentence of well-formed terms, each written with either marker and separated by any non-empty runs of whitespace, parses back to the same terms in the same (source) order |
| Parser.ParseWritten | spec/flexverb_spec.rb:56-82 | such a written sentence parses to its bare term when it has one term and to the list of its terms in source order otherwise |
| Parser.ParseTermSound | spec/flexverb_spec.rb:74-87 | whatever term the parser reads, the text is that term written with one of the two markers, followed by the rest the parser returns |
| Parser.ParseSentenceSound | spec/flexverb_spec.rb:56-71 | every text the parser accepts is its terms written out in order, each with one of the two markers, separated by non-empty runs of whitespace; with ParseWrittenSentence this is an exact description of the accepted texts |
| Parser.TerseVerbMarker | spec/flexverb_spec.rb:84-85 | at the start of a text, `v` followed by any text starting with `(` parses exactly like `verb` followed by the same text |
| Parser.TerseObjectMarker | spec/flexverb_spec.rb:84-86 | at the start of a text, `o` followed by any text starting with `(` parses exactly like `direct-object` followed by the same text |
| FlexVerb.ParsesCompleteLine | spec/flexverb_spec.rb:56-64 | `verb(print) direct-object("hello world")` parses to the two terms in source order, the direct object keeping its quotes |
| FlexVerb.IgnoresTermPosition | spec/flexverb_spec.rb:68-71 | the sentence with its terms swapped parses to the same terms in reversed order |
| FlexVerb.RecognizesVerb | spec/flexverb_spec.rb:74-76 | `verb(print)` parses to the bare verb term |
| FlexVerb.RecognizesDirectObject | spec/flexverb_spec.rb:78-82 | `direct-object("hello world")` parses to the bare direct-object term, quotes kept |
| FlexVerb.RecognizesTerseMarkers | spec/flexverb_spec.rb:84-87 | `v(print)` and `o("hello world")` parse to the same terms as their full-marker forms |
| FlexVerb.RunsCompleteLine | spec/flexverb_spec.rb:36-71 | parsing then interpreting the complete line, in either order, calls `Puts` with `hello world` |
| FlexVerb.RunIgnoresLayout | spec/flexverb_spec.rb:43-48 | end to end, for a sentence with at most one term per role, rearranging its terms, choosing the full or terse marker for any term independently, and changing the whitespace between terms does not change what is invoked |

## Left out

- The implementation in `lib/flexverb` is not part of this model; the
  behaviour is taken from the assertions of `spec/flexverb_spec.rb` and
  nothing beyond them is claimed about the original code.
- The actual output of `Kernel.puts` and the RSpec mock expectation: the
  interpreter returns the invocation as a value instead of performing it.
- Arbitrary whitespace: its example is pending with no body, so which
  characters count is not fixed. The model accepts one or more of space,
  tab, line feed, carriage return, vertical tab and form feed between
  terms, and rejects whitespace before the first or after the last term
  and inside a term.
- Error behaviour: unknown verbs, a missing verb, malformed text and a role
  given twice are represented by the `ParseError`, `UnknownVerb`,
  `MissingVerb` and `DuplicateRole` variants of `Terms.Error`, but no
  example exercises them and no property is stated about them.
- The parsing library the Ruby program builds its grammar with: the grammar
  is modelled directly as recursive functions over `string`.
- The in-place `reverse!` on the expected terms in the suite's setup: it is
  a property of the test, not of the system.
- Transform.Decode: what the original does with a literal that lacks its
  quotes is not fixed by any example; the model passes it through
  unchanged. The parser only ever produces quoted literals.
- Verbs other than `print`: the registry is a parameter; only the one
  entry the suite uses is configured.
