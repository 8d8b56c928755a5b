/**
  Parsing a serialized Content-Security-Policy (the value of a
  `Content-Security-Policy` header) into its directives, following the
  "parse a serialized CSP" algorithm of section 2.2.1 of W3C Content Security
  Policy Level 3, with two additions of this implementation: a name that is not
  in the directive registry is an error, and in strict mode so is a repeated
  name.

  `Parse` is the specification: the candidate directives of the `;`-separated
  tokens, collected left to right. `ParseSerializedCsp` is the loop that
  builds the result step by step, proved to compute `Parse`.
 */
module Policy {
  import opened Text
  import opened Registry

  /** One entry of a parsed policy: a lowercase name and its value tokens. */
  datatype Directive = Directive(name: string, values: seq<string>)

  datatype ParseError =
    | UnknownDirective(name: string)
    | DuplicateDirective(name: string)

  /**
    A parse either yields the directives, in the order their names first
    occur, or fails with an error and no partial result.
   */
  datatype ParseResult =
    | Ok(directives: seq<Directive>)
    | Err(error: ParseError)

  datatype Option<T> = None | Some(value: T)

  /** The set of names that `ds` defines. */
  function NamesOf(ds: seq<Directive>): (r: set<string>) {
    set d | d in ds :: d.name
  }

  /** No two entries of `ds` share a name, so `ds` is a proper mapping. */
  predicate DistinctNames(ds: seq<Directive>) {
    forall i, j :: 0 <= i < j < |ds| ==> ds[i].name != ds[j].name
  }

  /** Dictionary lookup: the values of the first entry named `name`. */
  function Lookup(ds: seq<Directive>, name: string): (r: Option<seq<string>>)
    ensures r.Some? <==> name in NamesOf(ds)
    decreases |ds|
  {
    if ds == [] then None
    else if ds[0].name == name then Some(ds[0].values)
    else
      assert NamesOf(ds) == {ds[0].name} + NamesOf(ds[1..]) by {
        assert ds == [ds[0]] + ds[1..];
      }
      Lookup(ds[1..], name)
  }

  /**
    The directive a single `;`-separated token contributes, if any: none when
    the stripped token is empty or not ASCII; otherwise the lowercased first
    whitespace-separated word as the name and the remaining words, unchanged,
    as the values.
   */
  function TokenDirective(token: string): (r: Option<Directive>) {
    var t := Strip(token);
    if t == [] || !IsAscii(t) then None
    else
      StripShape(token);
      WordsShape(t);
      var words := Words(t);
      Some(Directive(Lower(words[0]), words[1..]))
  }

  /**
    A token contributes a directive exactly when its stripped form is
    non-empty ASCII; the name is then non-empty and lowercase, and the values
    are non-empty and free of whitespace.
   */
  lemma TokenDirectiveShape(token: string)
    ensures TokenDirective(token).Some? <==> Strip(token) != [] && IsAscii(Strip(token))
    ensures TokenDirective(token).Some? ==>
              TokenDirective(token).value.name != [] && NoUpper(TokenDirective(token).value.name)
    ensures TokenDirective(token).Some? ==> AreWords(TokenDirective(token).value.values)
  {
    var t := Strip(token);
    if t != [] && IsAscii(t) {
      StripShape(token);
      WordsShape(t);
      var words := Words(t);
      assert TokenDirective(token) == Some(Directive(Lower(words[0]), words[1..]));
      LowerShape(words[0]);
      forall i | 0 <= i < |words[1..]| ensures words[1..][i] != [] && NoSpace(words[1..][i]) {
        assert words[1..][i] == words[i + 1];
      }
    }
  }

  /** The directives contributed by `tokens`, in order, before any lookup. */
  function Candidates(tokens: seq<string>): (r: seq<Directive>)
    decreases |tokens|
  {
    if tokens == [] then []
    else
      match TokenDirective(tokens[0])
      case None => Candidates(tokens[1..])
      case Some(d) => [d] + Candidates(tokens[1..])
  }

  /**
    A directive as the tokenizer produces it: a non-empty lowercase name and
    values that are non-empty and free of whitespace.
   */
  predicate ProperDirective(d: Directive) {
    d.name != [] && NoUpper(d.name) && AreWords(d.values)
  }

  /** Every candidate is a proper directive. */
  lemma {:induction false} CandidatesShape(tokens: seq<string>)
    ensures forall k :: 0 <= k < |Candidates(tokens)| ==> ProperDirective(Candidates(tokens)[k])
    decreases |tokens|
  {
    if tokens != [] {
      var c := TokenDirective(tokens[0]);
      TokenDirectiveShape(tokens[0]);
      CandidatesShape(tokens[1..]);
      var rest := Candidates(tokens[1..]);
      if c.Some? {
        var d := c.value;
        var ds := [d] + rest;
        assert Candidates(tokens) == ds;
        forall k | 0 <= k < |ds| ensures ProperDirective(ds[k]) {
          if k > 0 { assert ds[k] == rest[k - 1]; } else { assert ds[0] == d; }
        }
      }
    }
  }

  /** Unfolds `Candidates` at position `i` of `tokens`. */
  lemma CandidatesFrom(tokens: seq<string>, i: nat)
    requires i < |tokens|
    ensures Candidates(tokens[i..]) == match TokenDirective(tokens[i])
                                       case None => Candidates(tokens[i + 1..])
                                       case Some(d) => [d] + Candidates(tokens[i + 1..])
  {
    assert tokens[i..][1..] == tokens[i + 1..];
  }

  /**
    Adds the candidates `ds` to the directives `acc` collected so far: an
    unknown name fails; a name already collected fails in strict mode and is
    skipped otherwise; any other directive is appended.
   */
  function Collect(ds: seq<Directive>, acc: seq<Directive>, known: set<string>, strict: bool): (r: ParseResult)
    decreases |ds|
  {
    if ds == [] then Ok(acc)
    else
      var d := ds[0];
      if d.name !in known then Err(UnknownDirective(d.name))
      else if d.name in NamesOf(acc) then
        if strict then Err(DuplicateDirective(d.name))
        else Collect(ds[1..], acc, known, strict)
      else Collect(ds[1..], acc + [d], known, strict)
  }

  /** Unfolds `Collect` at a directive `d` in front of `rest`. */
  lemma CollectCons(d: Directive, rest: seq<Directive>, acc: seq<Directive>, known: set<string>, strict: bool)
    ensures Collect([d] + rest, acc, known, strict)
         == if d.name !in known then Err(UnknownDirective(d.name))
            else if d.name in NamesOf(acc) then
              if strict then Err(DuplicateDirective(d.name)) else Collect(rest, acc, known, strict)
            else Collect(rest, acc + [d], known, strict)
  {
    assert ([d] + rest)[1..] == rest;
  }

  /**
    One step of the parser at token `i`: the token contributes nothing, or its
    directive fails, is skipped, or is added in front of the rest.
   */
  lemma CollectStep(tokens: seq<string>, i: nat, c: Option<Directive>, acc: seq<Directive>,
                    known: set<string>, strict: bool)
    requires i < |tokens| && c == TokenDirective(tokens[i])
    ensures var rest := Candidates(tokens[i + 1..]);
            Collect(Candidates(tokens[i..]), acc, known, strict)
            == if c.None? then Collect(rest, acc, known, strict)
               else if c.value.name !in known then Err(UnknownDirective(c.value.name))
               else if c.value.name in NamesOf(acc) then
                 if strict then Err(DuplicateDirective(c.value.name)) else Collect(rest, acc, known, strict)
               else Collect(rest, acc + [c.value], known, strict)
  {
    CandidatesFrom(tokens, i);
    if c.Some? {
      CollectCons(c.value, Candidates(tokens[i + 1..]), acc, known, strict);
    }
  }

  /** The parse of `policy` against the directive names `known`. */
  function Parse(policy: string, known: set<string>, strict: bool): (r: ParseResult) {
    Collect(Candidates(Split(policy, ';')), [], known, strict)
  }

  /**
    The per-token steps of the parser: strips the token, skips it when it is
    empty or not ASCII, splits it on whitespace, and lowercases the first word
    to give the name; the remaining words are the values.
   */
  method ParseDirectiveToken(token: string) returns (candidate: Option<Directive>)
    ensures candidate.Some? <==> Strip(token) != [] && IsAscii(Strip(token))
    ensures candidate.Some? ==> ProperDirective(candidate.value)
    ensures candidate == TokenDirective(token)
  {
    TokenDirectiveShape(token);
    var stripped := Strip(token);
    if stripped == [] || !IsAscii(stripped) {
      return None;
    }
    StripShape(token);
    WordsShape(stripped);
    var splitToken := Words(stripped);
    var rawName, values := splitToken[0], splitToken[1..];
    var name := Lower(rawName);
    return Some(Directive(name, values));
  }

  /**
    The parser: splits the policy on `;` and processes the tokens in order;
    of each token's directive it rejects an unknown name, handles a repeated
    name according to `strict`, and otherwise adds the directive.
   */
  method ParseSerializedCsp(policy: string, registry: DirectiveRegistry, strict: bool)
    returns (r: ParseResult)
    ensures r == Parse(policy, registry.names, strict)
  {
    var tokens := Split(policy, ';');
    var result: seq<Directive> := [];
    var i := 0;
    while i < |tokens|
      invariant 0 <= i <= |tokens|
      invariant Collect(Candidates(tokens[i..]), result, registry.names, strict)
             == Parse(policy, registry.names, strict)
    {
      var candidate := ParseDirectiveToken(tokens[i]);
      CollectStep(tokens, i, candidate, result, registry.names, strict);
      if candidate.None? {
        i := i + 1;
        continue;
      }
      var name, values := candidate.value.name, candidate.value.values;
      if name !in registry.names {
        return Err(UnknownDirective(name));
      }
      if name in NamesOf(result) {
        if strict {
          return Err(DuplicateDirective(name));
        }
        i := i + 1;
        continue;
      }
      result := result + [Directive(name, values)];
      i := i + 1;
    }
    assert tokens[i..] == [];
    r := Ok(result);
  }
}
