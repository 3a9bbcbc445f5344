/// The grammar of a FlexVerb sentence:
///
///   sentence    := term (whitespace+ term)*
///   term        := verb-marker "(" verb-name ")" | object-marker "(" literal ")"
///   verb-marker := "verb" | "v"
///   object-marker := "direct-object" | "o"
///   verb-name   := one or more characters other than parentheses and whitespace
///   literal     := '"' (any character but '"')* '"'
///
/// A marker is read as the longest run of lower-case letters and hyphens
/// before the opening parenthesis, so "v" and "verb" are told apart without
/// backtracking.
module Parser {
  import opened Terms

  predicate IsSpace(c: char) {
    c == ' ' || c == '\t' || c == '\n' || c == '\r' || c == '\U{000B}' || c == '\U{000C}'
  }

  predicate IsMarkerChar(c: char) {
    'a' <= c <= 'z' || c == '-'
  }

  predicate IsNameChar(c: char) {
    c != '(' && c != ')' && !IsSpace(c)
  }

  predicate IsLiteralChar(c: char) {
    c != '"'
  }

  /** The terms the parser can produce: a non-empty verb token, and a quoted
      literal with no quote character inside. */
  predicate WellFormed(t: Term) {
    match t
    case Verb(name) =>
      |name| > 0 && forall i | 0 <= i < |name| :: IsNameChar(name[i])
    case DirectObject(literal) =>
      IsQuoted(literal) && forall i | 1 <= i < |literal| - 1 :: IsLiteralChar(literal[i])
  }

  /** Length of the longest prefix of `s` whose characters all satisfy `p`. */
  function Span(s: string, p: char -> bool): (k: nat)
    ensures k <= |s|
    ensures forall i | 0 <= i < k :: p(s[i])
    ensures k < |s| ==> !p(s[k])
    decreases |s|
  {
    if s == [] || !p(s[0]) then 0 else 1 + Span(s[1..], p)
  }

  /** A run of `p`-characters ends exactly at the first character that is not one. */
  lemma SpanStopsAt(w: string, c: char, rest: string, p: char -> bool)
    requires forall i | 0 <= i < |w| :: p(w[i])
    requires !p(c)
    ensures Span(w + [c] + rest, p) == |w|
  {
    var s := w + [c] + rest;
    assert forall i | 0 <= i < |w| :: s[i] == w[i];
    assert s[|w|] == c;
  }

  /** The argument of a verb term, after its opening parenthesis. */
  function ParseVerbArgument(s: string): (r: Result<(Term, string)>)
    ensures r.Ok? ==> r.value.0.Verb? && WellFormed(r.value.0) && |r.value.1| < |s|
  {
    var k := Span(s, IsNameChar);
    if k == 0 || k == |s| || s[k] != ')' then Err(ParseError(s))
    else Ok((Verb(s[..k]), s[k + 1..]))
  }

  /** The argument of a direct-object term, after its opening parenthesis;
      the literal is kept with its quotes. */
  function ParseObjectArgument(s: string): (r: Result<(Term, string)>)
    ensures r.Ok? ==> r.value.0.DirectObject? && WellFormed(r.value.0) && |r.value.1| < |s|
  {
    if s == [] || s[0] != '"' then Err(ParseError(s))
    else
      var k := Span(s[1..], IsLiteralChar);
      if 1 + k == |s| then Err(ParseError(s))
      else if 2 + k == |s| || s[2 + k] != ')' then Err(ParseError(s))
      else Ok((DirectObject(s[..2 + k]), s[3 + k..]))
  }

  /** The role and notation of the marker at the head of `s`, and the text
      after its opening parenthesis. */
  function ReadMarker(s: string): (r: Option<(Role, Notation, string)>)
    ensures r.Some? ==> s == Marker(r.value.0, r.value.1) + "(" + r.value.2
  {
    var k := Span(s, IsMarkerChar);
    if k == |s| || s[k] != '(' then None
    else
      var marker, arg := s[..k], s[k + 1..];
      assert s == marker + [s[k]] + arg;
      if marker == "verb" then Some((VerbRole, Full, arg))
      else if marker == "v" then Some((VerbRole, Terse, arg))
      else if marker == "direct-object" then Some((DirectObjectRole, Full, arg))
      else if marker == "o" then Some((DirectObjectRole, Terse, arg))
      else None
  }

  /** One term at the head of `s`, and the text after it. */
  function ParseTerm(s: string): (r: Result<(Term, string)>)
    ensures r.Ok? ==> WellFormed(r.value.0) && |r.value.1| < |s|
  {
    match ReadMarker(s)
    case None => Err(ParseError(s))
    case Some((role, _, arg)) =>
      if role == VerbRole then ParseVerbArgument(arg) else ParseObjectArgument(arg)
  }

  /** The whitespace that separates two terms: one or more whitespace
      characters, and the text after them. */
  function SkipSeparator(s: string): (r: Result<string>)
    ensures r.Ok? ==> |r.value| < |s|
  {
    var k := Span(s, IsSpace);
    if k == 0 then Err(ParseError(s)) else Ok(s[k..])
  }

  /** All the terms of a sentence, in source order. */
  function ParseSentence(s: string): (r: Result<seq<Term>>)
    ensures r.Ok? ==> |r.value| >= 1 && forall i | 0 <= i < |r.value| :: WellFormed(r.value[i])
    decreases |s|
  {
    match ParseTerm(s)
    case Err(e) => Err(e)
    case Ok((t, rest)) =>
      if rest == [] then Ok([t])
      else
        match SkipSeparator(rest)
        case Err(e) => Err(e)
        case Ok(next) =>
          match ParseSentence(next)
          case Err(e) => Err(e)
          case Ok(ts) => Ok([t] + ts)
  }

  /** A sentence of one term gives that bare term; a longer one gives the list. */
  function Parse(text: string): (r: Result<Tree>)
    ensures r.Ok? && r.value.Many? ==> |r.value.terms| >= 2
    ensures r.Ok? ==> forall t | t in TermsOf(r.value) :: WellFormed(t)
  {
    match ParseSentence(text)
    case Err(e) => Err(e)
    case Ok(ts) => if |ts| == 1 then Ok(Single(ts[0])) else Ok(Many(ts))
  }

  // ---- Writing terms out: the inverse of parsing, used to state what it accepts ----

  /** The full markers `verb`, `direct-object` or the terse `v`, `o`. */
  datatype Notation = Full | Terse

  function Marker(role: Role, notation: Notation): string {
    match (role, notation)
    case (VerbRole, Full) => "verb"
    case (VerbRole, Terse) => "v"
    case (DirectObjectRole, Full) => "direct-object"
    case (DirectObjectRole, Terse) => "o"
  }

  function Render(t: Term, notation: Notation): string {
    match t
    case Verb(name) => Marker(VerbRole, notation) + "(" + name + ")"
    case DirectObject(literal) => Marker(DirectObjectRole, notation) + "(" + literal + ")"
  }

  /** A run of whitespace that may separate two terms. */
  predicate IsGap(gap: string) {
    |gap| > 0 && forall i | 0 <= i < |gap| :: IsSpace(gap[i])
  }

  /** How a sentence of terms `ts` is written out: the marker notation of
      each term, chosen term by term, and the whitespace between each two
      neighbouring terms. */
  predicate IsLayout(ts: seq<Term>, ns: seq<Notation>, gaps: seq<string>) {
    |ts| > 0 && |ns| == |ts| && |gaps| == |ts| - 1 && forall g | g in gaps :: IsGap(g)
  }

  /** The terms written in order, term i with marker notation ns[i], and
      gaps[i] between term i and term i + 1. */
  function Write(ts: seq<Term>, ns: seq<Notation>, gaps: seq<string>): string
    requires |ts| > 0 && |ns| == |ts| && |gaps| == |ts| - 1
    decreases |ts|
  {
    if |ts| == 1 then Render(ts[0], ns[0])
    else Render(ts[0], ns[0]) + (gaps[0] + Write(ts[1..], ns[1..], gaps[1..]))
  }

  /** A written marker and its opening parenthesis are read back as they
      were written. */
  lemma ReadMarkerOf(role: Role, notation: Notation, arg: string)
    ensures ReadMarker(Marker(role, notation) + "(" + arg) == Some((role, notation, arg))
  {
    var marker := Marker(role, notation);
    var s := marker + "(" + arg;
    assert forall i | 0 <= i < |marker| :: IsMarkerChar(marker[i]);
    assert s == marker + ['('] + arg;
    SpanStopsAt(marker, '(', arg, IsMarkerChar);
    assert s[..|marker|] == marker;
    assert s[|marker| + 1..] == arg;
  }

  /** After a marker and its opening parenthesis, the parser reads the
      argument that the marker's role calls for. */
  lemma ParseTermAfterMarker(role: Role, notation: Notation, arg: string)
    ensures ParseTerm(Marker(role, notation) + "(" + arg)
         == if role == VerbRole then ParseVerbArgument(arg) else ParseObjectArgument(arg)
  {
    ReadMarkerOf(role, notation, arg);
  }

  lemma ParseVerbArgumentOf(name: string, rest: string)
    requires WellFormed(Verb(name))
    ensures ParseVerbArgument(name + ")" + rest) == Ok((Verb(name), rest))
  {
    var arg := name + ")" + rest;
    assert arg == name + [')'] + rest;
    SpanStopsAt(name, ')', rest, IsNameChar);
    assert arg[..|name|] == name;
    assert arg[|name| + 1..] == rest;
  }

  lemma ParseObjectArgumentOf(literal: string, rest: string)
    requires WellFormed(DirectObject(literal))
    ensures ParseObjectArgument(literal + ")" + rest) == Ok((DirectObject(literal), rest))
  {
    var arg := literal + ")" + rest;
    var body := literal[1..|literal| - 1];
    assert literal == ['"'] + body + ['"'];
    assert forall i | 0 <= i < |body| :: IsLiteralChar(body[i]) by {
      forall i | 0 <= i < |body| ensures IsLiteralChar(body[i]) {
        assert body[i] == literal[i + 1];
      }
    }
    assert arg[1..] == body + ['"'] + (")" + rest);
    SpanStopsAt(body, '"', ")" + rest, IsLiteralChar);
    assert arg[..2 + |body|] == literal;
    assert arg[3 + |body|..] == rest;
  }

  /** Parsing a written term gives the term back and stops right after it. */
  lemma ParseRenderedTerm(t: Term, notation: Notation, rest: string)
    requires WellFormed(t)
    ensures ParseTerm(Render(t, notation) + rest) == Ok((t, rest))
  {
    match t
    case Verb(name) =>
      assert Render(t, notation) + rest == Marker(VerbRole, notation) + "(" + (name + ")" + rest);
      ParseTermAfterMarker(VerbRole, notation, name + ")" + rest);
      ParseVerbArgumentOf(name, rest);
    case DirectObject(literal) =>
      assert Render(t, notation) + rest
          == Marker(DirectObjectRole, notation) + "(" + (literal + ")" + rest);
      ParseTermAfterMarker(DirectObjectRole, notation, literal + ")" + rest);
      ParseObjectArgumentOf(literal, rest);
  }

  lemma WrittenStartsWithMarker(ts: seq<Term>, ns: seq<Notation>, gaps: seq<string>)
    requires |ts| > 0 && |ns| == |ts| && |gaps| == |ts| - 1
    ensures |Write(ts, ns, gaps)| > 0 && IsMarkerChar(Write(ts, ns, gaps)[0])
  {
    var marker := Marker(ts[0].RoleOf(), ns[0]);
    assert Write(ts, ns, gaps)[0] == Render(ts[0], ns[0])[0] == marker[0];
  }

  /** A term that ends the text is the last term of the sentence. */
  lemma ParseSentenceLast(s: string, t: Term)
    requires ParseTerm(s) == Ok((t, ""))
    ensures ParseSentence(s) == Ok([t])
  {
  }

  /** The separator reads the whole run of whitespace before the next term. */
  lemma SkipGap(gap: string, tail: string)
    requires IsGap(gap) && |tail| > 0 && !IsSpace(tail[0])
    ensures SkipSeparator(gap + tail) == Ok(tail)
  {
    var s := gap + tail;
    assert s == gap + [tail[0]] + tail[1..];
    SpanStopsAt(gap, tail[0], tail[1..], IsSpace);
    assert s[|gap|..] == tail;
  }

  /** After a term and the separating whitespace, parsing goes on with the next term. */
  lemma ParseSentenceStep(s: string, t: Term, gap: string, tail: string, ts: seq<Term>)
    requires ParseTerm(s) == Ok((t, gap + tail))
    requires IsGap(gap) && |tail| > 0 && !IsSpace(tail[0])
    requires ParseSentence(tail) == Ok(ts)
    ensures ParseSentence(s) == Ok([t] + ts)
  {
    SkipGap(gap, tail);
  }

  /** The inductive step of ParseWrittenSentence for a `text` that is a written
      term, a gap and the rest of the sentence. */
  lemma ParseWrittenCons(
    t: Term, notation: Notation, gap: string, tail: string, rest: seq<Term>, text: string)
    requires WellFormed(t) && IsGap(gap)
    requires |tail| > 0 && !IsSpace(tail[0])
    requires ParseSentence(tail) == Ok(rest)
    requires text == Render(t, notation) + (gap + tail)
    ensures ParseSentence(text) == Ok([t] + rest)
  {
    ParseRenderedTerm(t, notation, gap + tail);
    ParseSentenceStep(text, t, gap, tail, rest);
  }

  lemma WriteCons(ts: seq<Term>, ns: seq<Notation>, gaps: seq<string>)
    requires |ts| > 1 && |ns| == |ts| && |gaps| == |ts| - 1
    ensures Write(ts, ns, gaps) == Render(ts[0], ns[0]) + (gaps[0] + Write(ts[1..], ns[1..], gaps[1..]))
  {
  }

  /** A written sentence of several terms parses as its first term followed
      by the parse of the rest. */
  lemma ParseWrittenStep(ts: seq<Term>, ns: seq<Notation>, gaps: seq<string>)
    requires |ts| > 1 && |ns| == |ts| && |gaps| == |ts| - 1
    requires WellFormed(ts[0]) && IsGap(gaps[0])
    requires ParseSentence(Write(ts[1..], ns[1..], gaps[1..])) == Ok(ts[1..])
    ensures ParseSentence(Write(ts, ns, gaps)) == Ok(ts)
  {
    var tail := Write(ts[1..], ns[1..], gaps[1..]);
    WrittenStartsWithMarker(ts[1..], ns[1..], gaps[1..]);
    WriteCons(ts, ns, gaps);
    ParseWrittenCons(ts[0], ns[0], gaps[0], tail, ts[1..], Write(ts, ns, gaps));
    assert [ts[0]] + ts[1..] == ts;
  }

  /** Parsing a written sentence gives its terms back in source order,
      whichever marker each term is written with and whatever whitespace
      separates them. */
  lemma {:induction false} ParseWrittenSentence(ts: seq<Term>, ns: seq<Notation>, gaps: seq<string>)
    requires IsLayout(ts, ns, gaps)
    requires forall t | t in ts :: WellFormed(t)
    ensures ParseSentence(Write(ts, ns, gaps)) == Ok(ts)
    decreases |ts|
  {
    if |ts| == 1 {
      var text := Write(ts, ns, gaps);
      assert text == Render(ts[0], ns[0]) + "";
      assert ts[0] in ts;
      ParseRenderedTerm(ts[0], ns[0], "");
      ParseSentenceLast(text, ts[0]);
      assert ts == [ts[0]];
    } else {
      assert forall g | g in gaps[1..] :: g in gaps;
      assert forall t | t in ts[1..] :: t in ts;
      assert ts[0] in ts && gaps[0] in gaps;
      ParseWrittenSentence(ts[1..], ns[1..], gaps[1..]);
      ParseWrittenStep(ts, ns, gaps);
    }
  }

  /** Parsing a written sentence gives a bare term for one term and the list
      in source order for more. */
  lemma ParseWritten(ts: seq<Term>, ns: seq<Notation>, gaps: seq<string>)
    requires IsLayout(ts, ns, gaps)
    requires forall t | t in ts :: WellFormed(t)
    ensures Parse(Write(ts, ns, gaps)) == Ok(if |ts| == 1 then Single(ts[0]) else Many(ts))
  {
    ParseWrittenSentence(ts, ns, gaps);
  }

  // ---- The converse: whatever the parser accepts is a written sentence ----

  lemma ParseVerbArgumentSound(s: string)
    requires ParseVerbArgument(s).Ok?
    ensures s == ParseVerbArgument(s).value.0.name + ")" + ParseVerbArgument(s).value.1
  {
    var k := Span(s, IsNameChar);
    assert s == s[..k] + [s[k]] + s[k + 1..];
  }

  lemma ParseObjectArgumentSound(s: string)
    requires ParseObjectArgument(s).Ok?
    ensures s == ParseObjectArgument(s).value.0.literal + ")" + ParseObjectArgument(s).value.1
  {
    var k := Span(s[1..], IsLiteralChar);
    assert s == s[..2 + k] + [s[2 + k]] + s[3 + k..];
  }

  lemma VerbTermSound(s: string, notation: Notation, arg: string)
    requires s == Marker(VerbRole, notation) + "(" + arg
    requires ParseVerbArgument(arg).Ok?
    ensures s == Render(ParseVerbArgument(arg).value.0, notation) + ParseVerbArgument(arg).value.1
  {
    var t, rest := ParseVerbArgument(arg).value.0, ParseVerbArgument(arg).value.1;
    ParseVerbArgumentSound(arg);
    assert t == Verb(t.name);
    assert Render(t, notation) + rest == Marker(VerbRole, notation) + "(" + (t.name + ")" + rest);
  }

  lemma ObjectTermSound(s: string, notation: Notation, arg: string)
    requires s == Marker(DirectObjectRole, notation) + "(" + arg
    requires ParseObjectArgument(arg).Ok?
    ensures s == Render(ParseObjectArgument(arg).value.0, notation) + ParseObjectArgument(arg).value.1
  {
    var t, rest := ParseObjectArgument(arg).value.0, ParseObjectArgument(arg).value.1;
    ParseObjectArgumentSound(arg);
    assert t == DirectObject(t.literal);
    assert Render(t, notation) + rest
        == Marker(DirectObjectRole, notation) + "(" + (t.literal + ")" + rest);
  }

  /** A term the parser reads was written with one of the two markers, an
      opening parenthesis, its argument and a closing parenthesis: the text
      is that term's written form followed by the rest. */
  lemma ParseTermSound(s: string) returns (notation: Notation)
    requires ParseTerm(s).Ok?
    ensures s == Render(ParseTerm(s).value.0, notation) + ParseTerm(s).value.1
  {
    var role, arg := ReadMarker(s).value.0, ReadMarker(s).value.2;
    notation := ReadMarker(s).value.1;
    if role == VerbRole {
      VerbTermSound(s, notation, arg);
    } else {
      ObjectTermSound(s, notation, arg);
    }
  }

  /** The separator consumed a run of whitespace. */
  lemma SkipSeparatorSound(s: string) returns (gap: string)
    requires SkipSeparator(s).Ok?
    ensures IsGap(gap) && s == gap + SkipSeparator(s).value
  {
    var k := Span(s, IsSpace);
    gap := s[..k];
    assert s == gap + s[k..];
  }

  /** A sentence the parser reads is its terms written out in order, each
      with one of the two markers, separated by runs of whitespace. With
      ParseWrittenSentence this pins down exactly which texts parse. */
  lemma {:induction false} ParseSentenceSound(s: string) returns (ns: seq<Notation>, gaps: seq<string>)
    requires ParseSentence(s).Ok?
    ensures IsLayout(ParseSentence(s).value, ns, gaps)
    ensures s == Write(ParseSentence(s).value, ns, gaps)
    decreases |s|
  {
    var t, rest := ParseTerm(s).value.0, ParseTerm(s).value.1;
    var n := ParseTermSound(s);
    if rest == [] {
      ns, gaps := [n], [];
      assert s == Render(t, n) + rest;
      assert ParseSentence(s).value == [t];
    } else {
      var next := SkipSeparator(rest).value;
      var gap := SkipSeparatorSound(rest);
      var ns', gaps' := ParseSentenceSound(next);
      var ts' := ParseSentence(next).value;
      var ts := [t] + ts';
      assert ParseSentence(s).value == ts;
      ns, gaps := [n] + ns', [gap] + gaps';
      assert ts[1..] == ts' && ns[1..] == ns' && gaps[1..] == gaps';
      assert Write(ts, ns, gaps) == Render(t, n) + (gap + Write(ts', ns', gaps'));
      assert forall g | g in gaps :: g == gap || g in gaps';
    }
  }

  /** Two texts whose first terms parse alike parse alike as a whole: what
      follows a term is read the same way in both. */
  lemma ParseFollowsHeadTerm(s1: string, s2: string)
    requires ParseTerm(s1) == ParseTerm(s2)
    ensures ParseSentence(s1) == ParseSentence(s2)
    ensures Parse(s1) == Parse(s2)
  {
  }

  /** The terse marker `v` at the start of a text parses exactly as `verb`
      does there, whatever follows. */
  lemma TerseVerbMarker(s: string)
    requires |s| > 0 && s[0] == '('
    ensures ParseTerm("v" + s) == ParseTerm("verb" + s)
    ensures Parse("v" + s) == Parse("verb" + s)
  {
    var arg := s[1..];
    assert "v" + s == Marker(VerbRole, Terse) + "(" + arg;
    assert "verb" + s == Marker(VerbRole, Full) + "(" + arg;
    ParseTermAfterMarker(VerbRole, Terse, arg);
    ParseTermAfterMarker(VerbRole, Full, arg);
    ParseFollowsHeadTerm("v" + s, "verb" + s);
  }

  /** The terse marker `o` at the start of a text parses exactly as
      `direct-object` does there, whatever follows. */
  lemma TerseObjectMarker(s: string)
    requires |s| > 0 && s[0] == '('
    ensures ParseTerm("o" + s) == ParseTerm("direct-object" + s)
    ensures Parse("o" + s) == Parse("direct-object" + s)
  {
    var arg := s[1..];
    assert "o" + s == Marker(DirectObjectRole, Terse) + "(" + arg;
    assert "direct-object" + s == Marker(DirectObjectRole, Full) + "(" + arg;
    ParseTermAfterMarker(DirectObjectRole, Terse, arg);
    ParseTermAfterMarker(DirectObjectRole, Full, arg);
    ParseFollowsHeadTerm("o" + s, "direct-object" + s);
  }
}
