/**
  What the parser promises, proved about `Policy.Parse`.

  The candidates of a policy are the directives its `;`-separated tokens
  contribute (`Policy.Candidates`). Against them the parse is characterised by
  independent reference definitions: in non-strict mode it is the first
  occurrence of every name, unless some name is unknown; in strict mode it is
  all the candidates, unless a name is unknown or repeated.
 */
module PolicyProperties {
  import opened Text
  import opened Registry
  import opened Policy

  // ---------------------------------------------------------------------------
  // Reference definitions

  /** Every directive of `ds` has a name in `known`. */
  predicate AllKnown(ds: seq<Directive>, known: set<string>) {
    forall k :: 0 <= k < |ds| ==> ds[k].name in known
  }

  /** The name of the leftmost directive of `ds` that is not in `known`. */
  function FirstUnknown(ds: seq<Directive>, known: set<string>): (r: Option<string>)
    ensures r.None? <==> AllKnown(ds, known)
    ensures r.Some? ==> r.value !in known && r.value in NamesOf(ds)
    decreases |ds|
  {
    if ds == [] then None
    else if ds[0].name !in known then Some(ds[0].name)
    else
      var r := FirstUnknown(ds[1..], known);
      assert AllKnown(ds[1..], known) ==> AllKnown(ds, known) by {
        if AllKnown(ds[1..], known) {
          forall k | 0 <= k < |ds| ensures ds[k].name in known {
            if k > 0 { assert ds[k] == ds[1..][k - 1]; }
          }
        }
      }
      assert r.Some? ==> r.value in NamesOf(ds) by {
        if r.Some? {
          var d :| d in ds[1..] && d.name == r.value;
          assert d in ds;
        }
      }
      r
  }

  /** `ds` without the directives whose names are in `names`, order kept. */
  function Without(ds: seq<Directive>, names: set<string>): (r: seq<Directive>)
    ensures |r| <= |ds|
    ensures NamesOf(r) == NamesOf(ds) - names
    decreases |ds|
  {
    if ds == [] then []
    else
      var rest := Without(ds[1..], names);
      assert NamesOf(ds) == {ds[0].name} + NamesOf(ds[1..]) by {
        assert ds == [ds[0]] + ds[1..];
      }
      if ds[0].name in names then rest
      else
        assert NamesOf([ds[0]] + rest) == {ds[0].name} + NamesOf(rest);
        [ds[0]] + rest
  }

  /**
    The first directive of each name, in order: the head, followed by the
    first occurrences among the rest once the head's name is removed.
   */
  function FirstOccurrences(ds: seq<Directive>): (r: seq<Directive>)
    decreases |ds|
  {
    if ds == [] then []
    else [ds[0]] + FirstOccurrences(Without(ds[1..], {ds[0].name}))
  }

  /** `name` is the name of two different entries of `ds`. */
  ghost predicate Repeated(ds: seq<Directive>, name: string) {
    exists i, j :: 0 <= i < j < |ds| && ds[i].name == name && ds[j].name == name
  }

  /** The candidates of a policy string. */
  function PolicyCandidates(policy: string): (r: seq<Directive>) {
    Candidates(Split(policy, ';'))
  }

  // ---------------------------------------------------------------------------
  // Small facts about names

  lemma NamesOfCons(d: Directive, ds: seq<Directive>)
    ensures NamesOf([d] + ds) == {d.name} + NamesOf(ds)
  {
    assert forall x :: x in [d] + ds <==> x == d || x in ds;
  }

  lemma NamesOfAppend(ds: seq<Directive>, d: Directive)
    ensures NamesOf(ds + [d]) == NamesOf(ds) + {d.name}
  {
    assert forall x :: x in ds + [d] <==> x in ds || x == d;
  }

  lemma DistinctCons(d: Directive, ds: seq<Directive>)
    requires d.name !in NamesOf(ds) && DistinctNames(ds)
    ensures DistinctNames([d] + ds)
  {
    var s := [d] + ds;
    forall i, j | 0 <= i < j < |s| ensures s[i].name != s[j].name {
      assert s[j] == ds[j - 1];
      if i == 0 { assert ds[j - 1] in ds; }
      else { assert s[i] == ds[i - 1]; }
    }
  }

  lemma DistinctAppend(ds: seq<Directive>, d: Directive)
    requires d.name !in NamesOf(ds) && DistinctNames(ds)
    ensures DistinctNames(ds + [d])
  {
    var s := ds + [d];
    forall i, j | 0 <= i < j < |s| ensures s[i].name != s[j].name {
      assert s[i] == ds[i];
      if j == |ds| { assert ds[i] in ds; }
      else { assert s[j] == ds[j]; }
    }
  }

  /** In a mapping of distinct names, a later entry's name is not among the earlier ones. */
  lemma DistinctSplit(a: seq<Directive>, b: seq<Directive>)
    requires DistinctNames(a + b) && b != []
    ensures b[0].name !in NamesOf(a)
  {
    forall x | x in a ensures x.name != b[0].name {
      var j :| 0 <= j < |a| && a[j] == x;
      assert (a + b)[j] == x && (a + b)[|a|] == b[0];
    }
  }

  /** Removing a name that `ds` does not use leaves `ds` as it is. */
  lemma {:induction false} WithoutAbsent(ds: seq<Directive>, names: set<string>)
    requires NamesOf(ds) !! names
    ensures Without(ds, names) == ds
    decreases |ds|
  {
    if ds != [] {
      NamesOfCons(ds[0], ds[1..]);
      assert ds == [ds[0]] + ds[1..];
      WithoutAbsent(ds[1..], names);
    }
  }

  lemma {:induction false} WithoutWithout(ds: seq<Directive>, a: set<string>, b: set<string>)
    ensures Without(Without(ds, a), b) == Without(ds, a + b)
    decreases |ds|
  {
    if ds != [] {
      WithoutWithout(ds[1..], a, b);
      var rest := Without(ds[1..], a);
      if ds[0].name !in a {
        assert Without(ds, a) == [ds[0]] + rest;
        assert ([ds[0]] + rest)[1..] == rest;
      }
    }
  }

  /** Removing names other than `name` does not change its lookup. */
  lemma {:induction false} LookupWithout(ds: seq<Directive>, names: set<string>, name: string)
    requires name !in names
    ensures Lookup(Without(ds, names), name) == Lookup(ds, name)
    decreases |ds|
  {
    if ds != [] {
      LookupWithout(ds[1..], names, name);
      var rest := Without(ds[1..], names);
      if ds[0].name !in names {
        assert ([ds[0]] + rest)[0] == ds[0];
        assert ([ds[0]] + rest)[1..] == rest;
      }
    }
  }

  // ---------------------------------------------------------------------------
  // Properties of the reference definitions

  /**
    The first occurrences are a proper mapping over exactly the names of `ds`,
    and each of them is an entry of `ds`.
   */
  lemma {:induction false} FirstOccurrencesShape(ds: seq<Directive>)
    ensures DistinctNames(FirstOccurrences(ds))
    ensures NamesOf(FirstOccurrences(ds)) == NamesOf(ds)
    ensures forall d :: d in FirstOccurrences(ds) ==> d in ds
    decreases |ds|
  {
    if ds != [] {
      var d := ds[0];
      var w := Without(ds[1..], {d.name});
      FirstOccurrencesShape(w);
      NamesOfCons(d, ds[1..]);
      assert ds == [d] + ds[1..];
      NamesOfCons(d, FirstOccurrences(w));
      DistinctCons(d, FirstOccurrences(w));
      forall x | x in FirstOccurrences(w) ensures x in ds {
        WithoutMembers(ds[1..], {d.name}, x);
      }
    }
  }

  lemma {:induction false} WithoutMembers(ds: seq<Directive>, names: set<string>, x: Directive)
    requires x in Without(ds, names)
    ensures x in ds
    decreases |ds|
  {
    if ds != [] && x != ds[0] {
      var rest := Without(ds[1..], names);
      if ds[0].name !in names {
        assert x in rest;
      }
      WithoutMembers(ds[1..], names, x);
    }
  }

  /** In the first occurrences every name maps to the values of its first entry in `ds`. */
  lemma {:induction false} FirstOccurrencesLookup(ds: seq<Directive>, name: string)
    ensures Lookup(FirstOccurrences(ds), name) == Lookup(ds, name)
    decreases |ds|
  {
    if ds != [] {
      var d := ds[0];
      var w := Without(ds[1..], {d.name});
      var fo := [d] + FirstOccurrences(w);
      assert fo[0] == d && fo[1..] == FirstOccurrences(w);
      if d.name != name {
        FirstOccurrencesLookup(w, name);
        LookupWithout(ds[1..], {d.name}, name);
      }
    }
  }

  /** Without repeated names, the first occurrences are all of `ds`. */
  lemma {:induction false} FirstOccurrencesOfDistinct(ds: seq<Directive>)
    requires DistinctNames(ds)
    ensures FirstOccurrences(ds) == ds
    decreases |ds|
  {
    if ds != [] {
      var d := ds[0];
      assert d.name !in NamesOf(ds[1..]);
      WithoutAbsent(ds[1..], {d.name});
      FirstOccurrencesOfDistinct(ds[1..]);
      assert ds == [d] + ds[1..];
    }
  }

  // ---------------------------------------------------------------------------
  // Collect, in each mode

  /** Collecting `a + b` is collecting `a`, then `b` from where `a` left off. */
  lemma {:induction false} CollectAppend(a: seq<Directive>, b: seq<Directive>, acc: seq<Directive>,
                                         known: set<string>, strict: bool)
    ensures Collect(a + b, acc, known, strict)
         == match Collect(a, acc, known, strict)
            case Ok(p) => Collect(b, p, known, strict)
            case Err(e) => Err(e)
    decreases |a|
  {
    if a == [] {
      assert a + b == b;
    } else {
      assert a + b == [a[0]] + (a[1..] + b);
      CollectCons(a[0], a[1..] + b, acc, known, strict);
      CollectAppend(a[1..], b, acc, known, strict);
      CollectAppend(a[1..], b, acc + [a[0]], known, strict);
    }
  }

  /**
    Non-strict mode: the result is the first occurrence of every name among
    the candidates not already collected, unless the candidates hold an
    unknown name, in which case the error names the leftmost one.
   */
  lemma {:induction false} CollectLoose(ds: seq<Directive>, acc: seq<Directive>, known: set<string>)
    ensures Collect(ds, acc, known, false)
         == match FirstUnknown(ds, known)
            case Some(n) => Err(UnknownDirective(n))
            case None => Ok(acc + FirstOccurrences(Without(ds, NamesOf(acc))))
    decreases |ds|
  {
    if ds != [] {
      var d := ds[0];
      if d.name in known {
        if d.name in NamesOf(acc) {
          CollectLoose(ds[1..], acc, known);
        } else {
          CollectLoose(ds[1..], acc + [d], known);
          NamesOfAppend(acc, d);
          var w := Without(ds[1..], NamesOf(acc));
          assert Without(ds, NamesOf(acc)) == [d] + w;
          assert ([d] + w)[1..] == w;
          WithoutWithout(ds[1..], NamesOf(acc), {d.name});
          assert acc + [d] + FirstOccurrences(Without(w, {d.name}))
              == acc + FirstOccurrences([d] + w);
        }
      }
    } else {
      assert acc + [] == acc;
    }
  }

  /**
    Strict mode, starting from distinct names: the collection succeeds exactly
    when every candidate is known and no name repeats, and then it appends all
    the candidates.
   */
  lemma {:induction false} CollectStrict(ds: seq<Directive>, acc: seq<Directive>, known: set<string>)
    requires DistinctNames(acc)
    ensures Collect(ds, acc, known, true).Ok? <==> AllKnown(ds, known) && DistinctNames(acc + ds)
    ensures Collect(ds, acc, known, true).Ok? ==> Collect(ds, acc, known, true).directives == acc + ds
    decreases |ds|
  {
    if ds == [] {
      assert acc + ds == acc;
    } else {
      var d := ds[0];
      assert (acc + ds)[|acc|] == d;
      if d.name !in known {
        assert !AllKnown(ds, known);
      } else if d.name in NamesOf(acc) {
        var x :| x in acc && x.name == d.name;
        var j :| 0 <= j < |acc| && acc[j] == x;
        assert (acc + ds)[j] == x;
      } else {
        DistinctAppend(acc, d);
        CollectStrict(ds[1..], acc + [d], known);
        assert acc + [d] + ds[1..] == acc + ds;
        assert AllKnown(ds, known) <==> AllKnown(ds[1..], known) by {
          if AllKnown(ds[1..], known) {
            forall k | 0 <= k < |ds| ensures ds[k].name in known {
              if k > 0 { assert ds[k] == ds[1..][k - 1]; }
            }
          }
        }
      }
    }
  }

  /**
    Strict mode: an unknown-directive error names a candidate that is not
    known, and a duplicate-directive error names a known directive that occurs
    twice.
   */
  lemma {:induction false} CollectStrictErrors(ds: seq<Directive>, acc: seq<Directive>, known: set<string>)
    requires Collect(ds, acc, known, true).Err?
    ensures var e := Collect(ds, acc, known, true).error;
            e.UnknownDirective? ==> e.name !in known && e.name in NamesOf(ds)
    ensures var e := Collect(ds, acc, known, true).error;
            e.DuplicateDirective? ==> e.name in known && Repeated(acc + ds, e.name)
    decreases |ds|
  {
    var d := ds[0];
    assert (acc + ds)[|acc|] == d;
    NamesOfCons(d, ds[1..]);
    assert ds == [d] + ds[1..];
    if d.name !in known {
    } else if d.name in NamesOf(acc) {
      var x :| x in acc && x.name == d.name;
      var j :| 0 <= j < |acc| && acc[j] == x;
      assert (acc + ds)[j] == x;
    } else {
      CollectStrictErrors(ds[1..], acc + [d], known);
      assert acc + [d] + ds[1..] == acc + ds;
    }
  }

  /** When no name repeats, strictness makes no difference. */
  lemma {:induction false} CollectModesAgree(ds: seq<Directive>, acc: seq<Directive>, known: set<string>)
    requires DistinctNames(acc + ds)
    ensures Collect(ds, acc, known, true) == Collect(ds, acc, known, false)
    decreases |ds|
  {
    if ds != [] {
      var d := ds[0];
      assert (acc + ds)[|acc|] == d;
      DistinctSplit(acc, ds);
      assert acc + [d] + ds[1..] == acc + ds;
      CollectModesAgree(ds[1..], acc + [d], known);
    }
  }

  /** A larger registry keeps every successful collection as it was. */
  lemma {:induction false} CollectMonotonic(ds: seq<Directive>, acc: seq<Directive>, known: set<string>,
                                            more: set<string>, strict: bool)
    requires Collect(ds, acc, known, strict).Ok?
    ensures Collect(ds, acc, known + more, strict) == Collect(ds, acc, known, strict)
    decreases |ds|
  {
    if ds != [] {
      var d := ds[0];
      if d.name in NamesOf(acc) {
        CollectMonotonic(ds[1..], acc, known, more, strict);
      } else {
        CollectMonotonic(ds[1..], acc + [d], known, more, strict);
      }
    }
  }

  // ---------------------------------------------------------------------------
  // Candidates of a policy string

  lemma {:induction false} CandidatesAppend(a: seq<string>, b: seq<string>)
    ensures Candidates(a + b) == Candidates(a) + Candidates(b)
    decreases |a|
  {
    if a == [] {
      assert a + b == b;
    } else {
      assert (a + b)[0] == a[0] && (a + b)[1..] == a[1..] + b;
      CandidatesAppend(a[1..], b);
    }
  }

  /** A token made of a policy's `;` and whitespace only contributes nothing. */
  lemma {:induction false} SplitPartsChars(s: string, sep: char, P: char -> bool)
    requires forall i :: 0 <= i < |s| ==> P(s[i])
    ensures forall k, j :: 0 <= k < |Split(s, sep)| && 0 <= j < |Split(s, sep)[k]| ==> P(Split(s, sep)[k][j])
    decreases |s|
  {
    if s != [] {
      SplitPartsChars(s[1..], sep, P);
    }
  }

  lemma {:induction false} CandidatesOfBlankTokens(tokens: seq<string>)
    requires forall k :: 0 <= k < |tokens| ==> AllSpace(tokens[k])
    ensures Candidates(tokens) == []
    decreases |tokens|
  {
    if tokens != [] {
      TokenDirectiveShape(tokens[0]);
      StripShape(tokens[0]);
      CandidatesOfBlankTokens(tokens[1..]);
    }
  }

  /**
    The token made of the words `ws` (a name followed by its values),
    separated by whitespace runs of any length and with any whitespace around
    it, contributes the lowercased name and exactly the values, in order and
    with their case kept.
   */
  lemma TokenOfWords(w1: string, ws: seq<string>, gaps: seq<string>, w2: string)
    requires AllSpace(w1) && AllSpace(w2)
    requires |ws| >= 1 && |gaps| == |ws| - 1
    requires AreWords(ws) && AreGaps(gaps)
    requires forall i :: 0 <= i < |ws| ==> IsAscii(ws[i])
    requires forall i :: 0 <= i < |gaps| ==> IsAscii(gaps[i])
    ensures TokenDirective(w1 + Interleave(ws, gaps) + w2) == Some(Directive(Lower(ws[0]), ws[1..]))
  {
    var j := Interleave(ws, gaps);
    InterleaveEnds(ws, gaps);
    StripUnique(w1, j, w2);
    InterleaveChars(ws, gaps, c => c as int < 128);
    WordsInterleave(ws, gaps);
  }

  // ---------------------------------------------------------------------------
  // The parse

  /** A policy of nothing but whitespace and `;` parses to the empty mapping. */
  lemma ParseBlank(policy: string, known: set<string>, strict: bool)
    requires forall i :: 0 <= i < |policy| ==> IsSpace(policy[i]) || policy[i] == ';'
    ensures Parse(policy, known, strict) == Ok([])
  {
    var tokens := Split(policy, ';');
    SplitPartsChars(policy, ';', c => IsSpace(c) || c == ';');
    forall k | 0 <= k < |tokens| ensures AllSpace(tokens[k]) {
      forall j | 0 <= j < |tokens[k]| ensures IsSpace(tokens[k][j]) {
        assert tokens[k][j] in tokens[k];
      }
    }
    CandidatesOfBlankTokens(tokens);
  }

  /**
    A policy of one directive, with any whitespace around it, parses to that
    directive alone: the lowercased name with exactly the given values, or
    the unknown-directive error naming the lowercased name.
   */
  lemma ParseSingleDirective(w1: string, ws: seq<string>, gaps: seq<string>, w2: string,
                              known: set<string>, strict: bool)
    requires AllSpace(w1) && AllSpace(w2)
    requires |ws| >= 1 && |gaps| == |ws| - 1
    requires AreWords(ws) && AreGaps(gaps)
    requires forall i :: 0 <= i < |ws| ==> IsAscii(ws[i]) && ';' !in ws[i]
    requires forall i :: 0 <= i < |gaps| ==> IsAscii(gaps[i])
    ensures Parse(w1 + Interleave(ws, gaps) + w2, known, strict)
         == if Lower(ws[0]) in known then Ok([Directive(Lower(ws[0]), ws[1..])])
            else Err(UnknownDirective(Lower(ws[0])))
  {
    var t := w1 + Interleave(ws, gaps) + w2;
    PaddedWordsHaveNoSemicolon(w1, ws, gaps, w2);
    TokenOfWords(w1, ws, gaps, w2);
    ParseSingleToken(t, known, strict);
  }

  /**
    A policy without `;` is one token: it parses to that token's directive
    alone, or fails when the directive's name is not registered.
   */
  lemma ParseSingleToken(t: string, known: set<string>, strict: bool)
    requires ';' !in t
    ensures Parse(t, known, strict)
         == match TokenDirective(t)
            case None => Ok([])
            case Some(d) => if d.name in known then Ok([d]) else Err(UnknownDirective(d.name))
  {
    SingleTokenCandidates(t);
    match TokenDirective(t)
    case None =>
    case Some(d) =>
      assert Parse(t, known, strict) == Collect([d], [], known, strict);
      CollectSingle(d, known, strict);
  }

  lemma CollectSingle(d: Directive, known: set<string>, strict: bool)
    ensures Collect([d], [], known, strict)
         == if d.name in known then Ok([d]) else Err(UnknownDirective(d.name))
  {
    CollectCons(d, [], [], known, strict);
    assert [d] + [] == [d];
    assert [] + [d] == [d];
  }

  /** A policy without `;` is one token. */
  lemma SingleTokenCandidates(t: string)
    requires ';' !in t
    ensures PolicyCandidates(t) == match TokenDirective(t)
                                   case None => []
                                   case Some(d) => [d]
  {
    SplitNoSeparator(t, ';');
    assert [t][1..] == [];
    assert Candidates([t][1..]) == [];
    match TokenDirective(t)
    case None =>
    case Some(d) =>
      assert [d] + [] == [d];
  }

  lemma PaddedWordsHaveNoSemicolon(w1: string, ws: seq<string>, gaps: seq<string>, w2: string)
    requires AllSpace(w1) && AllSpace(w2)
    requires |ws| >= 1 && |gaps| == |ws| - 1
    requires AreGaps(gaps)
    requires forall i :: 0 <= i < |ws| ==> ';' !in ws[i]
    ensures ';' !in w1 + Interleave(ws, gaps) + w2
  {
    var j := Interleave(ws, gaps);
    forall i, k | 0 <= i < |ws| && 0 <= k < |ws[i]| ensures ws[i][k] != ';' {
      assert ws[i][k] in ws[i];
    }
    forall i, k | 0 <= i < |gaps| && 0 <= k < |gaps[i]| ensures gaps[i][k] != ';' {
      assert IsSpace(gaps[i][k]);
    }
    InterleaveChars(ws, gaps, c => c != ';');
    assert ';' !in j;
    assert ';' !in w1 && ';' !in w2;
  }

  /** A trailing `;` adds an empty token, which changes nothing. */
  lemma ParseTrailingSemicolon(policy: string, known: set<string>, strict: bool)
    ensures Parse(policy + ";", known, strict) == Parse(policy, known, strict)
  {
    SplitConcat(policy, ';', []);
    assert policy + ";" == policy + [';'] + [];
    var tokens := Split(policy, ';');
    CandidatesAppend(tokens, [[]]);
    assert Candidates([[]]) == [];
    assert Candidates(tokens) + [] == Candidates(tokens);
  }

  /**
    The parse is a left-to-right fold over the tokens: appending `; t` to a
    policy either keeps its error, or processes `t`'s directive against what
    has been collected so far.
   */
  lemma ParseAppendToken(policy: string, t: string, known: set<string>, strict: bool)
    requires ';' !in t
    ensures Parse(policy + ";" + t, known, strict)
         == match Parse(policy, known, strict)
            case Err(e) => Err(e)
            case Ok(p) =>
              match TokenDirective(t)
              case None => Ok(p)
              case Some(d) =>
                if d.name !in known then Err(UnknownDirective(d.name))
                else if d.name in NamesOf(p) then
                  if strict then Err(DuplicateDirective(d.name)) else Ok(p)
                else Ok(p + [d])
  {
    assert policy + ";" + t == policy + [';'] + t;
    SplitConcat(policy, ';', t);
    SplitNoSeparator(t, ';');
    var tokens := Split(policy, ';');
    CandidatesAppend(tokens, [t]);
    CollectAppend(Candidates(tokens), Candidates([t]), [], known, strict);
    match TokenDirective(t)
    case None =>
      assert Candidates([t]) == [];
    case Some(d) =>
      assert Candidates([t]) == [d];
      if Parse(policy, known, strict).Ok? {
        CollectCons(d, [], Parse(policy, known, strict).directives, known, strict);
      }
  }

  /**
    A token that is blank, or that still holds a non-ASCII character once
    stripped, is skipped silently: removing it anywhere in the policy changes
    neither the result nor the error.
   */
  lemma ParseSkipsSilentToken(a: string, t: string, b: string, known: set<string>, strict: bool)
    requires ';' !in t
    requires Strip(t) == [] || !IsAscii(Strip(t))
    ensures Parse(a + ";" + t + ";" + b, known, strict) == Parse(a + ";" + b, known, strict)
  {
    assert a + ";" + t + ";" + b == a + [';'] + (t + [';'] + b);
    assert a + ";" + b == a + [';'] + b;
    SplitConcat(a, ';', t + [';'] + b);
    SplitConcat(t, ';', b);
    SplitConcat(a, ';', b);
    SplitNoSeparator(t, ';');
    TokenDirectiveShape(t);
    var sa, sb := Split(a, ';'), Split(b, ';');
    CandidatesAppend(sa, [t] + sb);
    CandidatesAppend([t], sb);
    CandidatesAppend(sa, sb);
    assert Candidates([t]) == [];
    assert sa + ([t] + sb) == sa + [t] + sb;
  }

  /**
    Non-strict mode: the parse fails exactly when some candidate's name is
    unknown, naming the leftmost such name; otherwise it is the first
    occurrence of every name, in first-occurrence order. It never reports a
    duplicate.
   */
  lemma ParseLoose(policy: string, known: set<string>)
    ensures Parse(policy, known, false)
         == match FirstUnknown(PolicyCandidates(policy), known)
            case Some(n) => Err(UnknownDirective(n))
            case None => Ok(FirstOccurrences(PolicyCandidates(policy)))
  {
    var c := PolicyCandidates(policy);
    CollectLoose(c, [], known);
    assert NamesOf([]) == {};
    WithoutAbsent(c, {});
    assert [] + FirstOccurrences(c) == FirstOccurrences(c);
  }

  /**
    Non-strict mode, on success: the result is a mapping over exactly the
    candidates' names, and every name maps to the values of its first
    occurrence; later occurrences are dropped.
   */
  lemma ParseLooseFirstWins(policy: string, known: set<string>)
    requires Parse(policy, known, false).Ok?
    ensures var p := Parse(policy, known, false).directives;
            DistinctNames(p) && NamesOf(p) == NamesOf(PolicyCandidates(policy))
    ensures var p := Parse(policy, known, false).directives;
            forall name :: Lookup(p, name) == Lookup(PolicyCandidates(policy), name)
  {
    var c := PolicyCandidates(policy);
    ParseLoose(policy, known);
    FirstOccurrencesShape(c);
    forall name ensures Lookup(FirstOccurrences(c), name) == Lookup(c, name) {
      FirstOccurrencesLookup(c, name);
    }
  }

  /**
    Strict mode: the parse succeeds exactly when every candidate is known and
    no name repeats, and then holds every candidate in order. An
    unknown-directive error names an unknown candidate; a duplicate-directive
    error names a known candidate that occurs twice.
   */
  lemma ParseStrict(policy: string, known: set<string>)
    ensures var c := PolicyCandidates(policy);
            Parse(policy, known, true).Ok? <==> AllKnown(c, known) && DistinctNames(c)
    ensures Parse(policy, known, true).Ok? ==>
              Parse(policy, known, true).directives == PolicyCandidates(policy)
    ensures var r := Parse(policy, known, true);
            r.Err? && r.error.UnknownDirective? ==>
              r.error.name !in known && r.error.name in NamesOf(PolicyCandidates(policy))
    ensures var r := Parse(policy, known, true);
            r.Err? && r.error.DuplicateDirective? ==>
              r.error.name in known && Repeated(PolicyCandidates(policy), r.error.name)
  {
    var c := PolicyCandidates(policy);
    CollectStrict(c, [], known);
    assert [] + c == c;
    if Parse(policy, known, true).Err? {
      CollectStrictErrors(c, [], known);
    }
  }

  /**
    An unknown name is fatal in both modes: whenever a candidate's name is
    not registered, no result is returned.
   */
  lemma ParseUnknownIsFatal(policy: string, known: set<string>, strict: bool)
    requires !AllKnown(PolicyCandidates(policy), known)
    ensures Parse(policy, known, strict).Err?
  {
    if strict { ParseStrict(policy, known); } else { ParseLoose(policy, known); }
  }

  /**
    Without a repeated name the two modes agree, so a strict success is also
    the non-strict result.
   */
  lemma ParseModesAgree(policy: string, known: set<string>)
    requires DistinctNames(PolicyCandidates(policy)) || Parse(policy, known, true).Ok?
    ensures Parse(policy, known, true) == Parse(policy, known, false)
  {
    var c := PolicyCandidates(policy);
    ParseStrict(policy, known);
    assert [] + c == c;
    CollectModesAgree(c, [], known);
  }

  /**
    Every successful parse, in either mode, is a mapping whose entries are
    candidates of the policy, and every candidate's name is registered.
   */
  lemma ParseEntries(policy: string, known: set<string>, strict: bool)
    requires Parse(policy, known, strict).Ok?
    ensures var p := Parse(policy, known, strict).directives;
            DistinctNames(p) && forall d :: d in p ==> d in PolicyCandidates(policy)
    ensures AllKnown(PolicyCandidates(policy), known)
  {
    var c := PolicyCandidates(policy);
    if strict {
      ParseStrict(policy, known);
    } else {
      ParseLoose(policy, known);
      FirstOccurrencesShape(c);
    }
  }

  /**
    Every successful parse, in either mode, is a mapping whose keys are
    registered, non-empty lowercase names and whose entries are candidates of
    the policy; values are non-empty and free of whitespace.
   */
  lemma ParseWellFormed(policy: string, known: set<string>, strict: bool)
    requires Parse(policy, known, strict).Ok?
    ensures var p := Parse(policy, known, strict).directives;
            DistinctNames(p)
            && (forall k :: 0 <= k < |p| ==> p[k].name in known && ProperDirective(p[k]))
            && (forall k :: 0 <= k < |p| ==> p[k] in PolicyCandidates(policy))
  {
    var c := PolicyCandidates(policy);
    var p := Parse(policy, known, strict).directives;
    ParseEntries(policy, known, strict);
    CandidatesShape(Split(policy, ';'));
    forall k | 0 <= k < |p| ensures p[k].name in known && ProperDirective(p[k]) {
      assert p[k] in c;
      var j :| 0 <= j < |c| && c[j] == p[k];
    }
  }

  /**
    Growing the registry keeps every successful parse unchanged: names that
    were valid before stay valid.
   */
  lemma ParseMonotonic(policy: string, known: set<string>, more: set<string>, strict: bool)
    requires Parse(policy, known, strict).Ok?
    ensures Parse(policy, known + more, strict) == Parse(policy, known, strict)
  {
    CollectMonotonic(PolicyCandidates(policy), [], known, more, strict);
  }

  /**
    After the registry is extended with `added`, a policy whose every
    candidate name is one of the added names in any case, or was already
    registered, no longer fails with an unknown directive.
   */
  lemma ParseAfterOverride(policy: string, known: set<string>, added: set<string>)
    requires forall k :: 0 <= k < |PolicyCandidates(policy)| ==>
               PolicyCandidates(policy)[k].name in known
               || exists a :: a in added && Lower(a) == PolicyCandidates(policy)[k].name
    ensures Parse(policy, known + LowerAll(added), false).Ok?
  {
    var c := PolicyCandidates(policy);
    var grown := known + LowerAll(added);
    assert AllKnown(c, grown) by {
      forall k | 0 <= k < |c| ensures c[k].name in grown {
        if c[k].name !in known {
          var a :| a in added && Lower(a) == c[k].name;
        }
      }
    }
    ParseLoose(policy, grown);
  }

  /**
    A policy of three tokens whose third repeats the first directive's name
    (the second naming another registered directive): the repeat is a
    duplicate error in strict mode, and is dropped otherwise.
   */
  lemma ParseLaterRepeat(s1: string, t2: string, t3: string, known: set<string>,
                         d1: Directive, d2: Directive, d3: Directive, strict: bool)
    requires ';' !in t2 && ';' !in t3
    requires Parse(s1, known, strict) == Ok([d1])
    requires TokenDirective(t2) == Some(d2) && TokenDirective(t3) == Some(d3)
    requires d2.name in known && d2.name != d1.name && d3.name == d1.name
    ensures Parse(s1 + ";" + t2 + ";" + t3, known, strict)
         == if strict then Err(DuplicateDirective(d1.name)) else Ok([d1, d2])
  {
    var s2 := s1 + ";" + t2;
    ParseSecondDirective(s1, t2, known, d1, d2, strict);
    assert d1 in [d1, d2];
    assert d3.name in NamesOf([d1, d2]);
    ParseWellFormed(s1, known, strict);
    assert [d1][0] == d1;
    assert d3.name in known;
    ParseAppendToken(s2, t3, known, strict);
  }

  /**
    A policy of two tokens whose second names an unregistered directive fails
    with that name, in both modes, whatever the first token collected.
   */
  lemma ParseLaterUnknown(s1: string, t2: string, known: set<string>,
                          p1: seq<Directive>, d2: Directive, strict: bool)
    requires ';' !in t2
    requires Parse(s1, known, strict) == Ok(p1)
    requires TokenDirective(t2) == Some(d2) && d2.name !in known
    ensures Parse(s1 + ";" + t2, known, strict) == Err(UnknownDirective(d2.name))
  {
    ParseAppendToken(s1, t2, known, strict);
  }

  /** Two tokens naming two different registered directives give both, in order. */
  lemma ParseTwoTokens(t1: string, t2: string, known: set<string>, d1: Directive, d2: Directive, strict: bool)
    requires ';' !in t1 && ';' !in t2
    requires TokenDirective(t1) == Some(d1) && TokenDirective(t2) == Some(d2)
    requires d1.name in known && d2.name in known && d1.name != d2.name
    ensures Parse(t1 + ";" + t2, known, strict) == Ok([d1, d2])
  {
    assert Parse(t1, known, strict) == Ok([d1]) by {
      ParseSingleToken(t1, known, strict);
    }
    ParseSecondDirective(t1, t2, known, d1, d2, strict);
  }

  /** After a policy that gave one directive, a token naming another registered directive adds it. */
  lemma ParseSecondDirective(s1: string, t2: string, known: set<string>, d1: Directive, d2: Directive, strict: bool)
    requires ';' !in t2
    requires Parse(s1, known, strict) == Ok([d1])
    requires TokenDirective(t2) == Some(d2) && d2.name in known && d2.name != d1.name
    ensures Parse(s1 + ";" + t2, known, strict) == Ok([d1, d2])
  {
    assert d2.name !in NamesOf([d1]);
    assert [d1] + [d2] == [d1, d2];
    ParseAppendToken(s1, t2, known, strict);
  }
}
