/// Interpreter: reads the terms of a sentence into a record keyed by role,
/// so that where a term stood no longer matters, then resolves the verb and
/// the optional direct object through Transform and yields the one action
/// invocation the sentence asks for. The invocation is returned as a value;
/// carrying it out (writing to standard output) is left to the caller.
module Interpreter {
  import opened Terms
  import opened Transform

  /** The role-keyed record: the raw text of the verb and of the direct
      object, each present at most once. */
  datatype Roles = Roles(verb: Option<string>, directObject: Option<string>)

  /** One call of `action`, with or without an argument. */
  datatype Invocation = Invocation(action: Action, argument: Option<string>)

  /** Files one term under its role; a role filled twice is an error. */
  function Place(t: Term, roles: Roles): Result<Roles> {
    match t
    case Verb(name) =>
      if roles.verb.Some? then Err(DuplicateRole(VerbRole))
      else Ok(roles.(verb := Some(name)))
    case DirectObject(literal) =>
      if roles.directObject.Some? then Err(DuplicateRole(DirectObjectRole))
      else Ok(roles.(directObject := Some(literal)))
  }

  /** Builds the role-keyed record of a list of terms. Whatever it files comes
      from the list. */
  function Classify(ts: seq<Term>): (r: Result<Roles>)
    ensures r.Ok? && r.value.verb.Some? ==> Verb(r.value.verb.value) in ts
    ensures r.Ok? && r.value.directObject.Some? ==> DirectObject(r.value.directObject.value) in ts
    decreases |ts|
  {
    if ts == [] then Ok(Roles(None, None))
    else
      match Classify(ts[1..])
      case Err(e) => Err(e)
      case Ok(roles) => Place(ts[0], roles)
  }

  /** Resolves the record through Transform, term by term: the verb is
      required, the direct object optional. */
  function Resolve(registry: map<string, Action>, roles: Roles): Result<Invocation> {
    match roles.verb
    case None => Err(MissingVerb)
    case Some(name) =>
      match Apply(registry, Verb(name))
      case Err(e) => Err(e)
      case Ok(verb) =>
        var argument := match roles.directObject
          case None => None
          case Some(literal) => Some(Apply(registry, DirectObject(literal)).value.text);
        Ok(Invocation(verb.action, argument))
  }

  function InterpretTerms(registry: map<string, Action>, ts: seq<Term>): Result<Invocation> {
    match Classify(ts)
    case Err(e) => Err(e)
    case Ok(roles) => Resolve(registry, roles)
  }

  /** Interprets what the parser returned, a bare term being a one-element list. */
  function Interpret(registry: map<string, Action>, tree: Tree): Result<Invocation> {
    InterpretTerms(registry, TermsOf(tree))
  }

  /** With no role filled twice, the record holds exactly the sentence's verb
      and direct object. */
  lemma {:induction false} ClassifyFinds(ts: seq<Term>)
    requires AtMostOnePerRole(ts)
    ensures Classify(ts).Ok?
    ensures forall name :: Verb(name) in ts ==> Classify(ts).value.verb == Some(name)
    ensures forall literal :: DirectObject(literal) in ts
              ==> Classify(ts).value.directObject == Some(literal)
    decreases |ts|
  {
    if ts != [] {
      var t, rest := ts[0], ts[1..];
      assert ts == [t] + rest;
      assert CountRole(rest, t.RoleOf()) == CountRole(ts, t.RoleOf()) - 1;
      ClassifyFinds(rest);
      var roles := Classify(rest).value;
      match t
      case Verb(name) =>
        if roles.verb.Some? {
          CountRoleMember(rest, Verb(roles.verb.value));
        }
        forall other | Verb(other) in rest ensures false {
          CountRoleMember(rest, Verb(other));
        }
      case DirectObject(literal) =>
        if roles.directObject.Some? {
          CountRoleMember(rest, DirectObject(roles.directObject.value));
        }
        forall other | DirectObject(other) in rest ensures false {
          CountRoleMember(rest, DirectObject(other));
        }
    }
  }

  /** Two lists holding the same terms, with no role filled twice, give the
      same record. */
  lemma ClassifyIgnoresOrder(a: seq<Term>, b: seq<Term>)
    requires multiset(a) == multiset(b)
    requires AtMostOnePerRole(a)
    ensures AtMostOnePerRole(b)
    ensures Classify(a) == Classify(b)
  {
    CountRolePermutation(a, b, VerbRole);
    CountRolePermutation(a, b, DirectObjectRole);
    ClassifyFinds(a);
    ClassifyFinds(b);
    var ra, rb := Classify(a).value, Classify(b).value;
    if ra.verb.Some? {
      assert Verb(ra.verb.value) in multiset(b);
    }
    if ra.directObject.Some? {
      assert DirectObject(ra.directObject.value) in multiset(b);
    }
  }

  /** Word order is ignored: any rearrangement of a sentence with at most one
      term per role is interpreted identically. */
  lemma InterpretIgnoresOrder(registry: map<string, Action>, a: seq<Term>, b: seq<Term>)
    requires multiset(a) == multiset(b)
    requires AtMostOnePerRole(a)
    ensures InterpretTerms(registry, a) == InterpretTerms(registry, b)
  {
    ClassifyIgnoresOrder(a, b);
  }

  /** A sentence whose verb is registered yields one invocation of that verb's
      action, with the decoded direct object as argument when there is one. */
  lemma InterpretRegisteredVerb(registry: map<string, Action>, ts: seq<Term>, name: string)
    requires AtMostOnePerRole(ts)
    requires Verb(name) in ts && name in registry
    ensures forall literal :: DirectObject(literal) in ts
              ==> InterpretTerms(registry, ts) == Ok(Invocation(registry[name], Some(Decode(literal))))
    ensures (forall literal :: DirectObject(literal) !in ts)
              ==> InterpretTerms(registry, ts) == Ok(Invocation(registry[name], None))
  {
    ClassifyFinds(ts);
    var roles := Classify(ts).value;
    if roles.directObject.Some? {
      assert DirectObject(roles.directObject.value) in ts;
    }
  }

  /** Every successful interpretation comes from the sentence: a verb in it
      that the registry knows, and its direct object if the call has an
      argument; the action and the argument are what Transform gives for
      those two terms. */
  lemma InterpretSound(registry: map<string, Action>, ts: seq<Term>)
    returns (name: string, literal: Option<string>)
    requires InterpretTerms(registry, ts).Ok?
    ensures Verb(name) in ts && name in registry
    ensures InterpretTerms(registry, ts).value.action == registry[name]
    ensures literal.Some? <==> InterpretTerms(registry, ts).value.argument.Some?
    ensures literal.Some? ==> DirectObject(literal.value) in ts
    ensures literal.Some? ==> InterpretTerms(registry, ts).value.argument == Some(Decode(literal.value))
    ensures Apply(registry, Verb(name)) == Ok(ActionRef(InterpretTerms(registry, ts).value.action))
    ensures literal.Some? ==> Apply(registry, DirectObject(literal.value))
                              == Ok(Text(InterpretTerms(registry, ts).value.argument.value))
  {
    var roles := Classify(ts).value;
    name := roles.verb.value;
    literal := roles.directObject;
  }
}
