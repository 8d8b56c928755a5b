# cspy Content-Security-Policy parser, modelled in Dafny

This project models the policy parser of `cspy` and proves properties of it:

- `parse_serialized_csp` turns the value of a `Content-Security-Policy` header into an insertion-ordered mapping from directive names to value lists, or fails.
- `POLICY_DIRECTIVES` is the registry of recognised names.
- `override_policy_directives` extends that registry at run time.

The parser follows the "parse a serialized CSP" algorithm of section 2.2.1 of W3C Content Security Policy Level 3. It adds two behaviours of its own:

- an unregistered name is an error in both modes;
- in strict mode, a repeated name is an error.

Files:

- `text.dfy` (module `Text`) holds the string operations the parser relies on, as pure functions:
  - `Split`, which is Python's `str.split(";")` and keeps empty pieces;
  - `Strip`, which is `str.strip()`;
  - `Words`, which is `str.split()` on runs of whitespace;
  - `IsAscii`, which is `str.isascii()`;
  - `Lower`, which is ASCII lowercasing.

  Whitespace is Python's `str.isspace` character set, written out in `IsSpace`.
- `registry.dfy` (module `Registry`) holds:
  - the default names;
  - the class `DirectiveRegistry`, whose field `names` is the mutable set. The source keeps this set in a module global.

  The `Override` method adds the lowercased names to it in place.
- `policy.dfy` (module `Policy`) holds:
  - the result and error datatypes;
  - the specification function `Parse`, which collects the directive of every `;`-token from left to right;
  - the imperative `ParseSerializedCsp`. It is the source's loop, with `continue` and early returns, and is proved to compute `Parse`.
- `policy_properties.dfy` (module `PolicyProperties`) proves the behaviour of `Parse`:
  - blank input;
  - how one token is read;
  - first occurrence wins in non-strict mode;
  - exact success and error conditions in strict mode;
  - unknown names are fatal;
  - the result is well formed;
  - the result is monotonic in the registry.
- `policy_cases.dfy` (module `PolicyCases`) states the examples of the test suite. The whitespace around and between the words is a parameter, so that each lemma covers a whole family of inputs, one of which is the literal test string.

## Whitespace: the code and the algorithm it cites differ

Section 2.2.1 of Content Security Policy Level 3 strips and splits tokens on ASCII whitespace: TAB, LF, FF, CR and SPACE. The comments at cspy/policy.py:55,63-66 say the same.

The code calls `token.strip()` and `token.split()` (cspy/policy.py:56,67). Both use Python's `str.isspace`. That set also contains VT, the separators U+001C-U+001F and non-ASCII spaces such as U+00A0.

The model follows the code:

- A token padded with NO-BREAK SPACE is stripped before the ASCII check and still parsed (`PolicyCases.NoBreakSpacePadding`).
- VT or U+001C-U+001F separate values.

## Model

| member | source | states |
|---|---|---|
| Text.Split | cspy/policy.py:54 | splitting on `;` gives at least one piece; no piece contains `;`; joining the pieces with `;` gives back the input, so empty pieces are kept |
| Text.SplitJoin | cspy/policy.py:54 | splitting undoes joining for any `;`-free pieces, so the pieces are uniquely determined |
| Text.SplitConcat | cspy/policy.py:54 | a `;` between two strings splits exactly there: the pieces are those of the left part followed by those of the right part |
| Text.StripShape | cspy/policy.py:56-60 | a string strips to nothing exactly when it is all whitespace; otherwise the stripped form starts and ends with a non-whitespace character |
| Text.StripParts | cspy/policy.py:56 | every string is its stripped form with whitespace-only margins on either side |
| Text.StripUnique | cspy/policy.py:56 | whatever whitespace surrounds a core with non-whitespace ends (or an empty core), stripping gives exactly that core |
| Text.WordsShape | cspy/policy.py:67 | every word of `str.split()` is non-empty and whitespace-free; there are no words exactly when the string is all whitespace |
| Text.WordsInterleave | cspy/policy.py:67-68 | words joined by any non-empty whitespace runs split back into exactly those words, in order and unchanged |
| Text.WordsSeparated | cspy/policy.py:67 | a whitespace run between two strings splits the words there: the words of the left part followed by those of the right |
| Text.WordsRunIsOneSpace | cspy/policy.py:67 | any non-empty run of whitespace separates words exactly as one space does |
| Text.WordsLeadingSpace | cspy/policy.py:67 | leading whitespace produces no word |
| Text.LowerShape | cspy/policy.py:72 | lowercasing maps each of `A`-`Z` to its lower-case letter and keeps every other character, so the result has no upper-case letter |
| Text.LowerFixesLowercase | cspy/policy.py:72 | a string without upper-case letters is unchanged by lowercasing |
| Text.LowerIgnoresCase | cspy/policy.py:72 | two strings that differ only in letter case lowercase to the same string |
| Registry.DefaultsLowercase | cspy/policy.py:1-20 | every default directive name is lowercase |
| Registry.LowerAll | cspy/policy.py:31 | the lowercase form of every given name is in the result, and every member of the result is a lowercase form of a given name |
| Registry.DirectiveRegistry.constructor | cspy/policy.py:1-20 | a fresh registry holds exactly the default names, all lowercase |
| Registry.DirectiveRegistry.Override | cspy/policy.py:23-31 | the new name set is the old one plus the lowercase form of every given name; nothing is removed and all names stay lowercase |
| Policy.Lookup | cspy/policy.py:79-88 | a name has an entry in the result mapping exactly when some directive of the result carries it |
| Policy.TokenDirectiveShape | cspy/policy.py:55-72 | a token yields a directive exactly when its stripped form is non-empty and ASCII; its name is then non-empty and lowercase and its values non-empty and whitespace-free |
| Policy.CandidatesShape | cspy/policy.py:54-72 | every directive the tokens of a policy yield has a non-empty lowercase name and whitespace-free values |
| Policy.ParseDirectiveToken | cspy/policy.py:56-72 | a token yields a directive exactly when its stripped form is non-empty and ASCII; that directive has a non-empty lowercase name and non-empty, whitespace-free values, and is the token's specified directive |
| Policy.ParseSerializedCsp | cspy/policy.py:34-90 | the loop over the `;`-tokens returns exactly the specified parse of the policy against the registry's names, in both modes |
| PolicyProperties.FirstUnknown | cspy/policy.py:74-75 | no name is reported exactly when every candidate is registered; a reported name is unregistered and is a candidate's name |
| PolicyProperties.FirstOccurrencesShape | cspy/policy.py:79-88 | keeping the first directive of each name gives distinct names, the same set of names, and only directives of the input |
| PolicyProperties.FirstOccurrencesLookup | cspy/policy.py:79-88 | after keeping first occurrences, every name maps to the values of its first occurrence in the input |
| PolicyProperties.CollectLoose | cspy/policy.py:74-88 | non-strict collection fails with the leftmost unregistered name, or else appends the first occurrence of every new name in order |
| PolicyProperties.CollectStrict | cspy/policy.py:74-88 | strict collection succeeds exactly when every name is registered and no name repeats, and then appends every directive in order |
| PolicyProperties.CollectStrictErrors | cspy/policy.py:74-81 | a strict unknown-directive error names an unregistered candidate; a duplicate error names a registered name that occurs twice |
| PolicyProperties.CollectModesAgree | cspy/policy.py:79-83 | without repeated names, strict and non-strict collection give the same outcome |
| PolicyProperties.CollectMonotonic | cspy/policy.py:74 | a successful collection is unchanged when more names are registered |
| PolicyProperties.TokenOfWords | cspy/policy.py:55-72 | a token made of whitespace-padded ASCII words yields the lowercased first word as name and exactly the remaining words, in order and with their case, as values |
| PolicyProperties.ParseBlank | cspy/policy.py:54-60 | a policy of only whitespace and `;` parses to the empty mapping in both modes |
| PolicyProperties.ParseSingleDirective | cspy/policy.py:54-90 | a one-directive policy with any padding and separators parses to the lowercased name with exactly its values, or to the unknown-directive error naming the lowercased name |
| PolicyProperties.ParseSingleToken | cspy/policy.py:54-90 | a `;`-free policy gives its token's directive alone, nothing, or the unknown-directive error |
| PolicyProperties.ParseTrailingSemicolon | cspy/policy.py:54-60 | a trailing `;` changes nothing |
| PolicyProperties.ParseAppendToken | cspy/policy.py:54-90 | appending `;` and a token either keeps the earlier error, or applies that token's skip, unknown, duplicate or append step to the earlier result |
| PolicyProperties.ParseSkipsSilentToken | cspy/policy.py:56-60 | removing a blank token, or one still non-ASCII after stripping, from anywhere in the policy changes neither result nor error |
| PolicyProperties.ParseLoose | cspy/policy.py:74-88 | non-strict mode fails exactly when some candidate is unregistered, naming the leftmost such name; otherwise it keeps the first occurrence of every name, in order; it never reports a duplicate |
| PolicyProperties.ParseLooseFirstWins | cspy/policy.py:79-88 | a non-strict result has distinct keys, exactly the candidates' names, and maps every name to the values of its first occurrence |
| PolicyProperties.ParseStrict | cspy/policy.py:74-83 | strict mode succeeds exactly when all candidates are registered and no name repeats, and then returns every candidate in order; its errors name an unregistered candidate or a repeated registered one |
| PolicyProperties.ParseUnknownIsFatal | cspy/policy.py:74-75 | an unregistered candidate name makes the parse fail in both modes, with no partial result |
| PolicyProperties.ParseModesAgree | cspy/policy.py:79-83 | without repeated names, or when strict mode succeeds, both modes give the same outcome |
| PolicyProperties.ParseEntries | cspy/policy.py:74-88 | a successful parse has distinct keys, holds only candidates of the policy, and every candidate's name is registered |
| PolicyProperties.ParseWellFormed | cspy/policy.py:72-88 | every key of a successful parse is registered, non-empty and lowercase; its values are non-empty and whitespace-free; every entry is a candidate of the policy; keys are distinct |
| PolicyProperties.ParseMonotonic | cspy/policy.py:23-31 | names that parsed before a registry extension still parse, to the same result |
| PolicyProperties.ParseAfterOverride | cspy/policy.py:23-31 | once the given names are added, a policy whose every name is registered or is one of them in some case parses successfully in non-strict mode |
| PolicyProperties.ParseLaterRepeat | cspy/policy.py:79-83 | a third token repeating the first name is a duplicate error naming it in strict mode and is dropped otherwise, keeping the earlier keys in order |
| PolicyProperties.ParseLaterUnknown | cspy/policy.py:74-75 | a later token with an unregistered name fails the whole parse with that name |
| PolicyProperties.ParseTwoTokens | cspy/policy.py:54-90 | two tokens with different registered names give both directives, in order |
| PolicyProperties.ParseSecondDirective | cspy/policy.py:79-88 | after a one-directive policy, a token with another registered name is appended after it |
| PolicyCases.BlankPolicy | tests/test_policy.py:5-14 | blank policies parse to the empty mapping |
| PolicyCases.NameWithoutValues | tests/test_policy.py:17-31 | `default-src` with any padding, with or without a trailing `;`, maps to no values |
| PolicyCases.NoBreakSpacePadding | cspy/policy.py:56-59 | `default-src` padded with NO-BREAK SPACE is stripped and parsed |
| PolicyCases.OneValue | tests/test_policy.py:34-48 | `default-src example.com` with any padding and whitespace run maps to `["example.com"]`, also with a trailing `;` |
| PolicyCases.TwoValues | tests/test_policy.py:51-68 | `default-src 'self' example.com` maps to both values in order, for any padding and whitespace runs |
| PolicyCases.RepeatedDirective | tests/test_policy.py:71-109 | a repeated `default-src` keeps the first values and the key order in non-strict mode, and is a duplicate error naming `default-src` in strict mode |
| PolicyCases.CaseInsensitiveName | tests/test_policy.py:112-122 | `DEFAULT-SRC` and `dEfAuLt-SrC` are stored as `default-src`, with the values' case kept |
| PolicyCases.UnknownDirectiveFails | tests/test_policy.py:125-133 | a policy using `unknown-src` fails with the unknown-directive error naming it, in both modes |
| PolicyCases.CustomPolicy | tests/test_policy.py:136-149 | with `custom-src` registered, the policy yields both directives in order |
| PolicyCases.AddedNames | tests/test_policy.py:148 | lowercasing the override's names `default-src` and `custom-src` leaves them unchanged |
| PolicyCases.OverrideThenParse | tests/test_policy.py:136-149 | overriding a fresh registry with `custom-src` and then parsing returns both directives in order |

## Left out

- Global state and threading: the module-level `POLICY_DIRECTIVES` becomes a `DirectiveRegistry` object passed to the parser. Concurrent use of it is not modelled.
- The default argument `strict=False` is an explicit `strict` parameter of every parse member.
- Exception text: the `ValueError` messages (cspy/policy.py:75,81) become `UnknownDirective(name)` and `DuplicateDirective(name)`, which carry the error kind and the lowercased name only.
- Registry.LowerAll: uses ASCII lowercasing, because Python's `str.lower()` at cspy/policy.py:31 applies full Unicode case mapping. This differs only for registered names with non-ASCII characters. For example, KELVIN SIGN lowercases to an ASCII `k` in CPython but is kept here.
- Registry.DirectiveRegistry.Override: uses the ASCII `LowerAll` above, for the same reason.
- The standard's narrower ASCII whitespace is not modelled, because the code uses Python's `str.isspace` (see above).
- cspy/report.py is not part of this model. Its classes are declarative pydantic models, `to_camel` wraps pydantic, and `hyphenize` is a single character replacement.
