/**
  Character and string helpers used by the policy parser: the whitespace and
  ASCII predicates, splitting on a separator character (Python's
  `str.split(sep)`), stripping surrounding whitespace (`str.strip()`),
  splitting on runs of whitespace (`str.split()`), and ASCII lowercasing.

  Whitespace is the set of characters for which Python's `str.isspace` holds,
  which `str.strip()` and `str.split()` use.
 */
module Text {

  /**
    Python's `str.isspace` on one character: TAB, LF, VT, FF, CR (9-13), the
    four information separators (28-31) and SPACE among the ASCII characters,
    and beyond them NEXT LINE, NO-BREAK SPACE, OGHAM SPACE MARK, the spaces
    U+2000-U+200A, LINE and PARAGRAPH SEPARATOR, NARROW NO-BREAK SPACE,
    MEDIUM MATHEMATICAL SPACE and IDEOGRAPHIC SPACE.
   */
  predicate IsSpace(c: char) {
    c == ' ' || 9 <= c as int <= 13 || 28 <= c as int <= 31
    || (c as int >= 0x85 && IsWideSpace(c as int))
  }

  /** The non-ASCII code points for which Python's `str.isspace` holds. */
  predicate IsWideSpace(n: int) {
    n == 0x85 || n == 0xA0 || n == 0x1680 || 0x2000 <= n <= 0x200A
    || n == 0x2028 || n == 0x2029 || n == 0x202F || n == 0x205F || n == 0x3000
  }

  predicate AllSpace(s: string) {
    forall i :: 0 <= i < |s| ==> IsSpace(s[i])
  }

  predicate NoSpace(s: string) {
    forall i :: 0 <= i < |s| ==> !IsSpace(s[i])
  }

  /** Python's `str.isascii`: every code point is below 128. */
  predicate IsAscii(s: string) {
    forall i :: 0 <= i < |s| ==> s[i] as int < 128
  }

  predicate IsUpper(c: char) {
    'A' <= c <= 'Z'
  }

  predicate NoUpper(s: string) {
    forall i :: 0 <= i < |s| ==> !IsUpper(s[i])
  }

  // ---------------------------------------------------------------------------
  // Splitting on a separator character

  /** The parts of `parts` glued back together with `sep` between them. */
  function Join(parts: seq<string>, sep: char): (r: string)
    requires |parts| >= 1
    decreases |parts|
  {
    if |parts| == 1 then parts[0] else parts[0] + [sep] + Join(parts[1..], sep)
  }

  /**
    Python's `s.split(sep)`: the maximal separator-free pieces between
    separators, keeping empty pieces (so "" gives [""] and ";" gives ["", ""]).
   */
  function Split(s: string, sep: char): (parts: seq<string>)
    ensures |parts| >= 1
    ensures forall i :: 0 <= i < |parts| ==> sep !in parts[i]
    ensures Join(parts, sep) == s
    decreases |s|
  {
    if s == [] then [[]]
    else
      var rest := Split(s[1..], sep);
      if s[0] == sep then
        assert s == [sep] + s[1..];
        [[]] + rest
      else
        var first := [s[0]] + rest[0];
        assert |rest| > 1 ==> Join(rest, sep) == rest[0] + [sep] + Join(rest[1..], sep);
        assert s == [s[0]] + s[1..];
        [first] + rest[1..]
  }

  /** A separator-free string is a single piece. */
  lemma {:induction false} SplitNoSeparator(s: string, sep: char)
    requires sep !in s
    ensures Split(s, sep) == [s]
    decreases |s|
  {
    if s != [] {
      SplitNoSeparator(s[1..], sep);
    }
  }

  /** A separator between `a` and `b` splits exactly there. */
  lemma {:induction false} SplitConcat(a: string, sep: char, b: string)
    ensures Split(a + [sep] + b, sep) == Split(a, sep) + Split(b, sep)
    decreases |a|
  {
    var s := a + [sep] + b;
    if a == [] {
      assert s[1..] == b;
    } else {
      assert s[1..] == a[1..] + [sep] + b;
      SplitConcat(a[1..], sep, b);
    }
  }

  /** Splitting undoes joining, for separator-free parts. */
  lemma {:induction false} SplitJoin(parts: seq<string>, sep: char)
    requires |parts| >= 1
    requires forall i :: 0 <= i < |parts| ==> sep !in parts[i]
    ensures Split(Join(parts, sep), sep) == parts
    decreases |parts|
  {
    SplitNoSeparator(parts[0], sep);
    if |parts| > 1 {
      SplitJoin(parts[1..], sep);
      SplitConcat(parts[0], sep, Join(parts[1..], sep));
      assert parts == [parts[0]] + parts[1..];
    }
  }

  // ---------------------------------------------------------------------------
  // Stripping surrounding whitespace

  /** Drops the leading whitespace of `s`. */
  function TrimStart(s: string): (r: string)
    ensures |r| <= |s|
    decreases |s|
  {
    if s != [] && IsSpace(s[0]) then TrimStart(s[1..]) else s
  }

  /** What `TrimStart` keeps is a suffix, after whitespace, that does not start with whitespace. */
  lemma {:induction false} TrimStartShape(s: string)
    ensures var r := TrimStart(s);
            r == s[|s| - |r|..] && AllSpace(s[..|s| - |r|]) && (r == [] || !IsSpace(r[0]))
    decreases |s|
  {
    if s != [] && IsSpace(s[0]) {
      var t := s[1..];
      TrimStartShape(t);
      var r := TrimStart(t);
      assert TrimStart(s) == r;
      var k := |s| - |r|;
      assert t[k - 1..] == s[k..];
      forall i | 0 <= i < k ensures IsSpace(s[..k][i]) {
        if i > 0 {
          assert s[..k][i] == t[..k - 1][i - 1];
        }
      }
    } else {
      assert s[..0] == [];
    }
  }

  /** Drops the trailing whitespace of `s`. */
  function TrimEnd(s: string): (r: string)
    ensures |r| <= |s|
    decreases |s|
  {
    if s != [] && IsSpace(s[|s| - 1]) then TrimEnd(s[..|s| - 1]) else s
  }

  /** What `TrimEnd` keeps is a prefix, before whitespace, that does not end with whitespace. */
  lemma {:induction false} TrimEndShape(s: string)
    ensures var r := TrimEnd(s);
            r == s[..|r|] && AllSpace(s[|r|..]) && (r == [] || !IsSpace(r[|r| - 1]))
    decreases |s|
  {
    if s != [] && IsSpace(s[|s| - 1]) {
      var t := s[..|s| - 1];
      TrimEndShape(t);
      var r := TrimEnd(t);
      assert TrimEnd(s) == r;
      assert t[..|r|] == s[..|r|];
      forall i | |r| <= i < |s| ensures IsSpace(s[i]) {
        if i < |s| - 1 {
          assert s[i] == t[|r|..][i - |r|];
        }
      }
    } else {
      assert s[|s|..] == [];
    }
  }

  /**
    Python's `s.strip()`: `s` without its leading and trailing whitespace.
    `StripShape` and `StripParts` state what remains and what was removed.
   */
  function Strip(s: string): (r: string) {
    TrimStart(TrimEnd(s))
  }

  /**
    The stripped string is empty exactly when `s` is all whitespace, and
    otherwise starts and ends with a non-whitespace character.
   */
  lemma StripShape(s: string)
    ensures Strip(s) == [] <==> AllSpace(s)
    ensures Strip(s) != [] ==> !IsSpace(Strip(s)[0]) && !IsSpace(Strip(s)[|Strip(s)| - 1])
  {
    var e := TrimEnd(s);
    var r := TrimStart(e);
    TrimEndShape(s);
    TrimStartShape(e);
    StripSpaces(s, e, r);
    assert r != [] ==> r[|r| - 1] == e[|e| - 1];
  }

  /** Whitespace-only input is exactly what trims to nothing. */
  lemma StripSpaces(s: string, e: string, r: string)
    requires e == TrimEnd(s) && r == TrimStart(e)
    ensures r == [] <==> AllSpace(s)
  {
    TrimEndShape(s);
    TrimStartShape(e);
    var i := |e| - |r|;
    if r == [] {
      assert e == e[..i];
      assert s == e + s[|e|..];
    } else {
      assert r[0] == e[i] == s[i];
    }
  }

  /** `s` is its stripped form with whitespace on either side. */
  lemma StripParts(s: string) returns (w1: string, w2: string)
    ensures s == w1 + Strip(s) + w2
    ensures AllSpace(w1) && AllSpace(w2)
  {
    var e := TrimEnd(s);
    var r := TrimStart(e);
    TrimEndShape(s);
    TrimStartShape(e);
    assert r == Strip(s);
    var i := |e| - |r|;
    w1, w2 := e[..i], s[|e|..];
    assert e == w1 + r by {
      assert r == e[i..];
    }
    assert s == e + w2 by {
      assert e == s[..|e|];
    }
  }

  lemma {:induction false} TrimStartSpaces(w: string, s: string)
    requires AllSpace(w)
    ensures TrimStart(w + s) == TrimStart(s)
    decreases |w|
  {
    if w != [] {
      var t := w + s;
      assert t[0] == w[0] && IsSpace(t[0]);
      assert t[1..] == w[1..] + s;
      assert TrimStart(t) == TrimStart(t[1..]);
      TrimStartSpaces(w[1..], s);
    } else {
      assert w + s == s;
    }
  }

  lemma {:induction false} TrimEndSpaces(s: string, w: string)
    requires AllSpace(w)
    ensures TrimEnd(s + w) == TrimEnd(s)
    decreases |w|
  {
    if w != [] {
      var t := s + w;
      var n := |t|;
      assert t[n - 1] == w[|w| - 1] && IsSpace(t[n - 1]);
      assert t[..n - 1] == s + w[..|w| - 1];
      assert TrimEnd(t) == TrimEnd(t[..n - 1]);
      TrimEndSpaces(s, w[..|w| - 1]);
    } else {
      assert s + w == s;
    }
  }

  /**
    Stripping is characterised by its result: whatever whitespace surrounds a
    core that is empty or has non-whitespace ends, the core is what remains.
   */
  lemma StripUnique(w1: string, c: string, w2: string)
    requires AllSpace(w1) && AllSpace(w2)
    requires c == [] || (!IsSpace(c[0]) && !IsSpace(c[|c| - 1]))
    ensures Strip(w1 + c + w2) == c
  {
    var x := w1 + c;
    if c == [] {
      var w := w1 + w2;
      assert AllSpace(w);
      TrimEndSpaces([], w);
      assert [] + w == w1 + c + w2;
    } else {
      TrimEndSpaces(x, w2);
      assert x[|x| - 1] == c[|c| - 1];
      assert TrimEnd(x) == x;
      TrimStartSpaces(w1, c);
      assert TrimStart(c) == c;
    }
  }

  // ---------------------------------------------------------------------------
  // Splitting on runs of whitespace

  /** Length of the longest whitespace-free prefix of `s`. */
  function WordLength(s: string): (n: nat)
    ensures n <= |s|
    ensures s != [] && !IsSpace(s[0]) ==> n >= 1
    decreases |s|
  {
    if s == [] || IsSpace(s[0]) then 0 else 1 + WordLength(s[1..])
  }

  /** The prefix `WordLength` measures is whitespace-free and ends at whitespace or at the end. */
  lemma {:induction false} WordLengthShape(s: string)
    ensures var n := WordLength(s);
            NoSpace(s[..n]) && (n < |s| ==> IsSpace(s[n]))
    decreases |s|
  {
    if s != [] && !IsSpace(s[0]) {
      WordLengthShape(s[1..]);
      var n := WordLength(s);
      assert s[..n] == [s[0]] + s[1..][..n - 1];
    }
  }

  /** Non-empty, whitespace-free strings: as `Words` yields them. */
  predicate AreWords(ws: seq<string>) {
    forall i :: 0 <= i < |ws| ==> ws[i] != [] && NoSpace(ws[i])
  }

  /**
    Python's `s.split()` with no separator: the maximal whitespace-free
    sub-strings of `s`, in order. `WordsShape` states what the words are like
    and `WordsFirstWord` which one comes first.
   */
  function Words(s: string): (r: seq<string>)
    decreases |s|
  {
    if s == [] then []
    else if IsSpace(s[0]) then Words(s[1..])
    else
      var n := WordLength(s);
      [s[..n]] + Words(s[n..])
  }

  /**
    No word is empty and no word contains whitespace, and there are none
    exactly when `s` is all whitespace.
   */
  lemma {:induction false} WordsShape(s: string)
    ensures AreWords(Words(s))
    ensures Words(s) == [] <==> AllSpace(s)
    decreases |s|
  {
    if s == [] {
    } else if IsSpace(s[0]) {
      WordsShape(s[1..]);
      assert AllSpace(s[1..]) ==> AllSpace(s);
    } else {
      var n := WordLength(s);
      WordLengthShape(s);
      WordsShape(s[n..]);
      assert Words(s) == [s[..n]] + Words(s[n..]);
    }
  }

  /** Non-empty runs of whitespace. */
  predicate AreGaps(gaps: seq<string>) {
    forall i :: 0 <= i < |gaps| ==> gaps[i] != [] && AllSpace(gaps[i])
  }

  /** The words `ws` with `gaps[i]` between `ws[i]` and `ws[i + 1]`. */
  function Interleave(ws: seq<string>, gaps: seq<string>): (r: string)
    requires |ws| >= 1 && |gaps| == |ws| - 1
    decreases |ws|
  {
    if |ws| == 1 then ws[0] else ws[0] + gaps[0] + Interleave(ws[1..], gaps[1..])
  }

  /** A run of whitespace in front of `s` produces no word. */
  lemma {:induction false} WordsLeadingSpace(w: string, s: string)
    requires AllSpace(w)
    ensures Words(w + s) == Words(s)
    decreases |w|
  {
    if w != [] {
      var t := w + s;
      assert t[0] == w[0] && IsSpace(t[0]);
      assert t[1..] == w[1..] + s;
      assert Words(t) == Words(t[1..]);
      WordsLeadingSpace(w[1..], s);
    } else {
      assert w + s == s;
    }
  }

  /** A non-empty whitespace-free string on its own is one word. */
  lemma WordsOfWord(w: string)
    requires w != [] && NoSpace(w)
    ensures Words(w) == [w]
  {
    WordLengthUnique(w, |w|);
    assert w[..|w|] == w;
    assert w[|w|..] == [];
  }

  /**
    A non-empty run of whitespace, however long, separates the words before
    it from the words after it; the words themselves are untouched.
   */
  lemma {:induction false} WordsSeparated(a: string, w: string, b: string)
    requires w != [] && AllSpace(w)
    ensures Words(a + w + b) == Words(a) + Words(b)
    decreases |a|, 1
  {
    var s := a + w + b;
    if a == [] {
      assert s == w + b;
      WordsLeadingSpace(w, b);
    } else if IsSpace(a[0]) {
      assert s[1..] == a[1..] + w + b;
      WordsSeparated(a[1..], w, b);
    } else {
      WordsSeparatedAfterWord(a, w, b);
    }
  }

  /** `WordsSeparated` when `a` starts with a word. */
  lemma {:induction false} WordsSeparatedAfterWord(a: string, w: string, b: string)
    requires w != [] && AllSpace(w)
    requires a != [] && !IsSpace(a[0])
    ensures Words(a + w + b) == Words(a) + Words(b)
    decreases |a|, 0
  {
    var n := WordLength(a);
    WordsStep(a);
    WordsStepBeforeSpace(a, w, b);
    WordsSeparated(a[n..], w, b);
  }

  /**
    The first word of a string that starts with a non-whitespace character is
    its longest whitespace-free prefix.
   */
  lemma WordsFirstWord(s: string)
    requires s != [] && !IsSpace(s[0])
    ensures Words(s) != [] && Words(s)[0] == s[..WordLength(s)]
  {
  }

  /** One step of `Words` on `a + w + b` takes the first word of `a`. */
  lemma WordsStepBeforeSpace(a: string, w: string, b: string)
    requires w != [] && AllSpace(w)
    requires a != [] && !IsSpace(a[0])
    ensures Words(a + w + b) == [a[..WordLength(a)]] + Words(a[WordLength(a)..] + w + b)
  {
    var n := WordLength(a);
    WordLengthBeforeSpace(a, w, b);
    SlicesOfConcat(a, w + b, n);
    assert a + w + b == a + (w + b) && a[n..] + w + b == a[n..] + (w + b);
    WordsStep(a + w + b);
  }

  lemma SlicesOfConcat(a: string, b: string, n: nat)
    requires n <= |a|
    ensures (a + b)[..n] == a[..n] && (a + b)[n..] == a[n..] + b
  {
  }

  /** One step of `Words` at a non-whitespace character. */
  lemma WordsStep(s: string)
    requires s != [] && !IsSpace(s[0])
    ensures Words(s) == [s[..WordLength(s)]] + Words(s[WordLength(s)..])
  {
  }

  /** Whitespace after `a` ends the first word of `a` where it ended in `a` alone. */
  lemma WordLengthBeforeSpace(a: string, w: string, b: string)
    requires w != [] && AllSpace(w)
    ensures WordLength(a + w + b) == WordLength(a)
  {
    var s := a + w + b;
    var m := WordLength(a);
    WordLengthShape(a);
    assert s[..|a|] == a;
    if m < |a| {
      assert IsSpace(s[m]);
      assert s[..m] == a[..m];
    } else {
      assert s[m] == w[0];
      assert s[..m] == a;
    }
    WordLengthUnique(s, m);
  }

  /** A whitespace-free prefix ended by whitespace (or the end) has the word's length. */
  lemma {:induction false} WordLengthUnique(s: string, m: nat)
    requires m <= |s| && NoSpace(s[..m])
    requires m < |s| ==> IsSpace(s[m])
    ensures WordLength(s) == m
    decreases |s|
  {
    if m > 0 {
      assert s[1..][..m - 1] == s[..m][1..];
      WordLengthUnique(s[1..], m - 1);
    }
  }

  /** Any non-empty whitespace run between words acts like a single space. */
  lemma WordsRunIsOneSpace(a: string, w: string, b: string)
    requires w != [] && AllSpace(w)
    ensures Words(a + w + b) == Words(a + " " + b)
  {
    WordsSeparated(a, w, b);
    WordsSeparated(a, " ", b);
  }

  /**
    Splitting words separated by whitespace runs of any length gives the
    words back, in order and unchanged.
   */
  lemma {:induction false} WordsInterleave(ws: seq<string>, gaps: seq<string>)
    requires |ws| >= 1 && |gaps| == |ws| - 1
    requires AreWords(ws) && AreGaps(gaps)
    ensures Words(Interleave(ws, gaps)) == ws
    decreases |ws|
  {
    WordsOfWord(ws[0]);
    if |ws| > 1 {
      WordsInterleave(ws[1..], gaps[1..]);
      WordsSeparated(ws[0], gaps[0], Interleave(ws[1..], gaps[1..]));
      assert ws == [ws[0]] + ws[1..];
    }
  }

  /** Words with gaps between them leave nothing to strip. */
  lemma {:induction false} InterleaveEnds(ws: seq<string>, gaps: seq<string>)
    requires |ws| >= 1 && |gaps| == |ws| - 1
    requires AreWords(ws)
    ensures var s := Interleave(ws, gaps);
            s != [] && !IsSpace(s[0]) && !IsSpace(s[|s| - 1])
    decreases |ws|
  {
    if |ws| > 1 {
      InterleaveEnds(ws[1..], gaps[1..]);
      var s := Interleave(ws, gaps);
      var t := Interleave(ws[1..], gaps[1..]);
      assert s[0] == ws[0][0];
      assert s[|s| - 1] == t[|t| - 1];
    }
  }

  /** A property of every character of the words and the gaps holds of every character of the whole. */
  lemma {:induction false} InterleaveChars(ws: seq<string>, gaps: seq<string>, P: char -> bool)
    requires |ws| >= 1 && |gaps| == |ws| - 1
    requires forall i, j :: 0 <= i < |ws| && 0 <= j < |ws[i]| ==> P(ws[i][j])
    requires forall i, j :: 0 <= i < |gaps| && 0 <= j < |gaps[i]| ==> P(gaps[i][j])
    ensures forall k :: 0 <= k < |Interleave(ws, gaps)| ==> P(Interleave(ws, gaps)[k])
    decreases |ws|
  {
    if |ws| > 1 {
      InterleaveChars(ws[1..], gaps[1..], P);
      var s := Interleave(ws, gaps);
      var t := Interleave(ws[1..], gaps[1..]);
      forall k | 0 <= k < |s| ensures P(s[k]) {
        if k < |ws[0]| {
          assert s[k] == ws[0][k];
        } else if k < |ws[0]| + |gaps[0]| {
          assert s[k] == gaps[0][k - |ws[0]|];
        } else {
          assert s[k] == t[k - |ws[0]| - |gaps[0]|];
        }
      }
    }
  }

  // ---------------------------------------------------------------------------
  // ASCII lowercase

  /** ASCII lowercase: every 'A'..'Z' becomes the matching 'a'..'z'; `LowerShape` states it. */
  function Lower(s: string): (r: string)
    ensures |r| == |s|
  {
    seq(|s|, i requires 0 <= i < |s| =>
      if IsUpper(s[i]) then (s[i] as int + 32) as char else s[i])
  }

  /**
    Every upper-case ASCII letter is replaced by its lower-case letter and
    every other character is kept, so the result has no upper-case letter.
   */
  lemma LowerShape(s: string)
    ensures NoUpper(Lower(s))
    ensures forall i :: 0 <= i < |s| ==>
              if IsUpper(s[i]) then Lower(s)[i] as int == s[i] as int + 32 else Lower(s)[i] == s[i]
  {
  }

  /** Lowercasing a string that has no upper-case letter changes nothing. */
  lemma LowerFixesLowercase(s: string)
    requires NoUpper(s)
    ensures Lower(s) == s
  {
    LowerShape(s);
  }

  /** Two strings that agree up to ASCII case lowercase to the same string. */
  lemma LowerIgnoresCase(s: string, t: string)
    requires |s| == |t|
    requires forall i :: 0 <= i < |s| ==>
               s[i] == t[i] || (IsUpper(s[i]) && t[i] as int == s[i] as int + 32)
                            || (IsUpper(t[i]) && s[i] as int == t[i] as int + 32)
    ensures Lower(s) == Lower(t)
  {
    LowerShape(s);
    LowerShape(t);
  }
}
