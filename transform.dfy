/// Transform: resolves one term on its own, wherever it stood in the
/// sentence. A direct object is decoded to the text between its quotes; a
/// verb is looked up in the action registry.
module Transform {
  import opened Terms

  /** The canonical actions a verb can name. `Puts` writes its argument to
      standard output. */
  datatype Action = Puts

  /** The registry the system is configured with: `print` names `Puts`. */
  const Registry: map<string, Action> := map["print" := Puts]

  /** What one term resolves to. */
  datatype Value = Text(text: string) | ActionRef(action: Action)

  /** Writes `text` as a literal; the inverse of Decode. */
  function Quote(text: string): string {
    "\"" + text + "\""
  }

  /** Strips one leading and one trailing quote character. A literal that is
      not quoted at both ends is passed through unchanged. */
  function Decode(literal: string): (text: string)
    ensures IsQuoted(literal) ==> Quote(text) == literal && |text| == |literal| - 2
    ensures !IsQuoted(literal) ==> text == literal
  {
    if IsQuoted(literal) then literal[1..|literal| - 1] else literal
  }

  /** Decoding a written literal gives back exactly the text that was quoted. */
  lemma DecodeQuote(text: string)
    ensures IsQuoted(Quote(text)) && Decode(Quote(text)) == text
  {
    assert Quote(text)[1..|Quote(text)| - 1] == text;
  }

  /** The action `name` stands for, if the registry knows it. */
  function ResolveVerb(registry: map<string, Action>, name: string): Result<Action> {
    if name in registry then Ok(registry[name]) else Err(UnknownVerb(name))
  }

  /** Resolves one term: the decoded text of a direct object, or the action
      registered under a verb's name. */
  function Apply(registry: map<string, Action>, t: Term): (r: Result<Value>)
    ensures t.DirectObject? ==> r.Ok? && r.value.Text?
    ensures t.DirectObject? && IsQuoted(t.literal) ==> Quote(r.value.text) == t.literal
    ensures t.Verb? ==> (r.Ok? <==> t.name in registry)
    ensures t.Verb? && r.Ok? ==> r.value == ActionRef(registry[t.name])
  {
    match t
    case DirectObject(literal) => Ok(Text(Decode(literal)))
    case Verb(name) =>
      match ResolveVerb(registry, name)
      case Ok(action) => Ok(ActionRef(action))
      case Err(e) => Err(e)
  }
}
