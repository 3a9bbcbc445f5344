/// The values that flow between the three stages of FlexVerb: tagged role
/// terms as the parser produces them, the two shapes a parse can take, and
/// the errors any stage may report.
module Terms {

  datatype Option<+T> = None | Some(value: T)

  /** The grammatical role a term plays in a sentence. */
  datatype Role = VerbRole | DirectObjectRole

  /** A tagged role term: the raw text of its argument, nothing resolved yet.
      A direct object keeps the quote characters it was written with. */
  datatype Term = Verb(name: string) | DirectObject(literal: string) {
    function RoleOf(): Role {
      if Verb? then VerbRole else DirectObjectRole
    }
  }

  /** What a successful parse returns: one bare term, or a list of terms in
      source order. */
  datatype Tree = Single(term: Term) | Many(terms: seq<Term>)

  datatype Error =
    | ParseError(fragment: string)
    | UnknownVerb(name: string)
    | MissingVerb
    | DuplicateRole(role: Role)

  datatype Result<+T> = Ok(value: T) | Err(error: Error)

  /** The interpreter treats a bare term as a one-element list. */
  function TermsOf(tree: Tree): seq<Term> {
    match tree
    case Single(t) => [t]
    case Many(ts) => ts
  }

  /** A literal delimited by one quote character at each end. */
  predicate IsQuoted(literal: string) {
    |literal| >= 2 && literal[0] == '"' && literal[|literal| - 1] == '"'
  }

  /** How many terms of `ts` play `role`. */
  function CountRole(ts: seq<Term>, role: Role): nat {
    if ts == [] then 0
    else (if ts[0].RoleOf() == role then 1 else 0) + CountRole(ts[1..], role)
  }

  /** The sentences this grammar is about: no role is filled twice. */
  predicate AtMostOnePerRole(ts: seq<Term>) {
    CountRole(ts, VerbRole) <= 1 && CountRole(ts, DirectObjectRole) <= 1
  }

  lemma {:induction false} CountRoleAppend(u: seq<Term>, v: seq<Term>, role: Role)
    ensures CountRole(u + v, role) == CountRole(u, role) + CountRole(v, role)
    decreases |u|
  {
    if u == [] {
      assert u + v == v;
    } else {
      assert (u + v)[1..] == u[1..] + v;
      CountRoleAppend(u[1..], v, role);
    }
  }

  /** A term that occurs in `ts` is counted for its own role. */
  lemma {:induction false} CountRoleMember(ts: seq<Term>, t: Term)
    requires t in ts
    ensures CountRole(ts, t.RoleOf()) >= 1
    decreases |ts|
  {
    if ts[0] != t {
      CountRoleMember(ts[1..], t);
    }
  }

  /** Taking the term at index `k` out of `b` takes one from the count of its role. */
  lemma CountRoleRemoveAt(b: seq<Term>, k: nat, role: Role)
    requires k < |b|
    ensures CountRole(b, role)
         == CountRole(b[..k] + b[k + 1..], role) + (if b[k].RoleOf() == role then 1 else 0)
  {
    var left, right := b[..k], b[k + 1..];
    assert b == left + ([b[k]] + right);
    assert ([b[k]] + right)[1..] == right;
    CountRoleAppend(left, [b[k]] + right, role);
    CountRoleAppend(left, right, role);
  }

  /** Matching the head of `a` with an equal term of `b` leaves two lists that
      still hold the same terms. */
  lemma PermutationRest(a: seq<Term>, b: seq<Term>, k: nat)
    requires multiset(a) == multiset(b)
    requires 0 < |a| && k < |b| && b[k] == a[0]
    ensures multiset(a[1..]) == multiset(b[..k] + b[k + 1..])
  {
    var left, right := b[..k], b[k + 1..];
    assert b == left + [b[k]] + right;
    assert a == [a[0]] + a[1..];
    assert multiset(b) == multiset(left) + multiset{b[k]} + multiset(right);
    assert multiset(left + right) == multiset(left) + multiset(right);
    assert multiset(left + right) == multiset(b) - multiset{b[k]};
    assert multiset(a) == multiset{a[0]} + multiset(a[1..]);
    assert multiset(a[1..]) == multiset(a) - multiset{a[0]};
  }

  /** Role counts depend only on which terms occur, not on their order. */
  lemma {:induction false} CountRolePermutation(a: seq<Term>, b: seq<Term>, role: Role)
    requires multiset(a) == multiset(b)
    ensures CountRole(a, role) == CountRole(b, role)
    decreases |a|
  {
    if a == [] {
      assert |b| == |multiset(b)| == 0;
    } else {
      assert a[0] in multiset(b);
      var k :| 0 <= k < |b| && b[k] == a[0];
      PermutationRest(a, b, k);
      CountRolePermutation(a[1..], b[..k] + b[k + 1..], role);
      CountRoleRemoveAt(b, k, role);
    }
  }
}
