/**
 * The JavaScript string built-ins the plugin and the service worker rely on,
 * stated over `seq<char>`: `trim`, `indexOf`, `split`, `startsWith`, and the
 * first-occurrence lookup behind `String.prototype.replace` with a string
 * pattern.
 */
module JsString {
  import opened Optional

  /** WhiteSpace and LineTerminator code points, the set `String.prototype.trim` removes. */
  predicate IsWhitespace(c: char) {
    || c == '\t' || c == '\n' || c == '\U{000B}' || c == '\U{000C}' || c == '\r' || c == ' '
    || c == '\U{00A0}' || c == '\U{1680}' || ('\U{2000}' <= c <= '\U{200A}')
    || c == '\U{2028}' || c == '\U{2029}' || c == '\U{202F}' || c == '\U{205F}'
    || c == '\U{3000}' || c == '\U{FEFF}'
  }

  /** Every character of `s` is blank. */
  predicate Blank(s: string) {
    s == [] || (IsWhitespace(s[0]) && Blank(s[1..]))
  }

  lemma {:induction false} BlankAt(s: string, i: nat)
    requires Blank(s) && i < |s|
    ensures IsWhitespace(s[i])
  {
    if i > 0 {
      BlankAt(s[1..], i - 1);
    }
  }

  lemma {:induction false} BlankConcat(a: string, b: string)
    requires Blank(a) && Blank(b)
    ensures Blank(a + b)
  {
    if a != [] {
      assert (a + b)[1..] == a[1..] + b;
      BlankConcat(a[1..], b);
    } else {
      assert a + b == b;
    }
  }

  /** Trimming a string that starts with a non-blank keeps that first character. */
  lemma TrimKeepsVisibleStart(s: string)
    requires s != [] && !IsWhitespace(s[0])
    ensures Trim(s) != [] && Trim(s)[0] == s[0]
  {
    assert TrimStart(s) == s;
    TrimEndKeepsVisibleStart(s);
  }

  lemma {:induction false} TrimEndKeepsVisibleStart(s: string)
    requires s != [] && !IsWhitespace(s[0])
    ensures TrimEnd(s) != [] && TrimEnd(s)[0] == s[0]
  {
    if IsWhitespace(s[|s| - 1]) {
      TrimEndKeepsVisibleStart(s[..|s| - 1]);
    }
  }

  /** A string `trim` leaves as it is: empty, or starting and ending with a non-blank. */
  predicate IsTrimmed(s: string) {
    s == [] || (!IsWhitespace(s[0]) && !IsWhitespace(s[|s| - 1]))
  }

  /** Leading blanks removed: the result does not start with a blank. */
  function TrimStart(s: string): (r: string)
    ensures |r| <= |s|
    ensures r == [] || !IsWhitespace(r[0])
  {
    if s != [] && IsWhitespace(s[0]) then TrimStart(s[1..]) else s
  }

  /** Trailing blanks removed: the result does not end with a blank. */
  function TrimEnd(s: string): (r: string)
    ensures |r| <= |s|
    ensures r == [] || !IsWhitespace(r[|r| - 1])
  {
    if s != [] && IsWhitespace(s[|s| - 1]) then TrimEnd(s[..|s| - 1]) else s
  }

  /** `s.trim()`: no blank at either end. */
  function Trim(s: string): (r: string)
    ensures IsTrimmed(r) && |r| <= |s|
  {
    var t := TrimStart(s);
    TrimEndIsPrefix(t);
    TrimEnd(t)
  }

  /** What `TrimStart` keeps is a suffix of its argument. */
  lemma {:induction false} TrimStartIsSuffix(s: string)
    ensures TrimStart(s) == s[|s| - |TrimStart(s)|..]
  {
    if s != [] && IsWhitespace(s[0]) {
      TrimStartIsSuffix(s[1..]);
    }
  }

  /** What `TrimEnd` keeps is a prefix of its argument. */
  lemma {:induction false} TrimEndIsPrefix(s: string)
    ensures TrimEnd(s) == s[..|TrimEnd(s)|]
  {
    if s != [] && IsWhitespace(s[|s| - 1]) {
      TrimEndIsPrefix(s[..|s| - 1]);
    }
  }

  /** What `trim` keeps is an infix of its argument: the blanks it removes sit at the two ends. */
  lemma TrimIsInfix(s: string)
    ensures var i := |s| - |TrimStart(s)|; i + |Trim(s)| <= |s| && Trim(s) == s[i..i + |Trim(s)|]
  {
    var t := TrimStart(s);
    TrimStartIsSuffix(s);
    TrimEndIsPrefix(t);
    assert Trim(s) == s[|s| - |t|..][..|Trim(s)|];
  }

  lemma {:induction false} TrimStartBlankPrefix(a: string, s: string)
    requires Blank(a)
    requires s == [] || !IsWhitespace(s[0])
    ensures TrimStart(a + s) == s
  {
    if a == [] {
      assert a + s == s;
    } else {
      assert (a + s)[1..] == a[1..] + s;
      TrimStartBlankPrefix(a[1..], s);
    }
  }

  lemma {:induction false} TrimEndBlankSuffix(s: string, b: string)
    requires Blank(b)
    requires s == [] || !IsWhitespace(s[|s| - 1])
    ensures TrimEnd(s + b) == s
    decreases |b|
  {
    if b == [] {
      assert s + b == s;
    } else {
      BlankAt(b, |b| - 1);
      assert (s + b)[..|s + b| - 1] == s + b[..|b| - 1];
      BlankPrefix(b, |b| - 1);
      TrimEndBlankSuffix(s, b[..|b| - 1]);
    }
  }

  lemma {:induction false} BlankPrefix(s: string, n: nat)
    requires Blank(s) && n <= |s|
    ensures Blank(s[..n])
  {
    if n > 0 {
      assert s[..n][1..] == s[1..][..n - 1];
      BlankPrefix(s[1..], n - 1);
    }
  }

  /** Trimming strips exactly blank padding: `(a + (s + b)).trim() == s` for a trimmed `s`. */
  lemma TrimPadded(a: string, s: string, b: string)
    requires Blank(a) && Blank(b) && IsTrimmed(s)
    ensures Trim(a + (s + b)) == s
  {
    var line := a + (s + b);
    if s == [] {
      assert line == a + b;
      BlankConcat(a, b);
      AllBlankTrimsToEmpty(line);
    } else {
      TrimStartBlankPrefix(a, s + b);
      TrimEndBlankSuffix(s, b);
      TrimOfParts(line, s + b, s);
    }
  }

  /** Trimming removes blank padding after a trimmed string. */
  lemma TrimTrailing(s: string, b: string)
    requires Blank(b) && IsTrimmed(s)
    ensures Trim(s + b) == s
  {
    assert [] + (s + b) == s + b;
    TrimPadded([], s, b);
  }

  /** Trimming removes blank padding before a trimmed string. */
  lemma TrimLeading(a: string, s: string)
    requires Blank(a) && IsTrimmed(s)
    ensures Trim(a + s) == s
  {
    assert a + (s + []) == a + s;
    TrimPadded(a, s, []);
  }

  lemma TrimOfParts(line: string, t: string, r: string)
    requires TrimStart(line) == t && TrimEnd(t) == r
    ensures Trim(line) == r
  {
  }

  lemma {:induction false} AllBlankTrimsToEmpty(s: string)
    requires Blank(s)
    ensures TrimStart(s) == [] && Trim(s) == []
  {
    if s != [] {
      AllBlankTrimsToEmpty(s[1..]);
    }
  }

  /** `s.indexOf(c)` for a one-character needle: the first position holding `c`, or -1. */
  function IndexOf(s: string, c: char): (r: int)
    ensures -1 <= r < |s|
    ensures r == -1 <==> c !in s
    ensures r >= 0 ==> s[r] == c && c !in s[..r]
  {
    if s == [] then -1
    else if s[0] == c then 0
    else
      var k := IndexOf(s[1..], c);
      assert s[1..][..if k < 0 then 0 else k] == s[1..1 + if k < 0 then 0 else k];
      if k < 0 then -1 else k + 1
  }

  /** A position holding `c` with no `c` before it is what `indexOf` finds. */
  lemma {:induction false} IndexOfFirst(s: string, i: nat, c: char)
    requires i < |s| && s[i] == c && c !in s[..i]
    ensures IndexOf(s, c) == i
  {
    if i > 0 {
      assert s[1..][..i - 1] == s[1..i];
      IndexOfFirst(s[1..], i - 1, c);
    }
  }

  /** The pieces joined with `sep` between them, as `Array.prototype.join`. */
  function Join(pieces: seq<string>, sep: string): string
    requires |pieces| >= 1
  {
    if |pieces| == 1 then pieces[0] else pieces[0] + sep + Join(pieces[1..], sep)
  }

  /** Joining a list that starts with `x`. */
  lemma JoinCons(x: string, rest: seq<string>, sep: string)
    requires |rest| >= 1
    ensures Join([x] + rest, sep) == x + sep + Join(rest, sep)
  {
    assert ([x] + rest)[1..] == rest;
  }

  /** `s.split(sep)` for a one-character separator; `SplitNoSeparator` and `SplitJoinsBack` state what the pieces are. */
  function Split(s: string, sep: char): (r: seq<string>)
    ensures |r| >= 1
    decreases |s|
  {
    var i := IndexOf(s, sep);
    if i < 0 then [s]
    else [s[..i]] + Split(s[i + 1..], sep)
  }

  /** A string is the text before position `i`, the character at `i`, and the text after it. A separate step, to keep the proofs that use it small. */
  lemma Around(s: string, i: nat)
    requires i < |s|
    ensures s == s[..i] + [s[i]] + s[i + 1..]
  {
  }

  /** No piece holds the separator. */
  lemma {:induction false} SplitNoSeparator(s: string, sep: char)
    ensures forall i :: 0 <= i < |Split(s, sep)| ==> sep !in Split(s, sep)[i]
    decreases |s|
  {
    var i := IndexOf(s, sep);
    if i >= 0 {
      SplitNoSeparator(s[i + 1..], sep);
      var rest := Split(s[i + 1..], sep);
      assert Split(s, sep) == [s[..i]] + rest;
    }
  }

  /** Joining the pieces with the separator gives the string back. */
  lemma {:induction false} SplitJoinsBack(s: string, sep: char)
    ensures Join(Split(s, sep), [sep]) == s
    decreases |s|
  {
    var i := IndexOf(s, sep);
    if i >= 0 {
      var tail := s[i + 1..];
      SplitJoinsBack(tail, sep);
      JoinCons(s[..i], Split(tail, sep), [sep]);
      Around(s, i);
    }
  }

  /** The first piece is the text before the first separator, and there is one piece exactly when the separator does not occur. */
  lemma SplitFirst(s: string, sep: char)
    ensures var r := Split(s, sep);
      && r[0] == s[..|r[0]|]
      && (sep !in s ==> r == [s])
      && (sep in s ==> |r| > 1 && r[0] == s[..IndexOf(s, sep)])
  {
  }

  /** Splitting pieces joined with a separator none of them holds gives the pieces back. */
  lemma {:induction false} SplitJoin(pieces: seq<string>, sep: char)
    requires |pieces| >= 1
    requires forall i :: 0 <= i < |pieces| ==> sep !in pieces[i]
    ensures Split(Join(pieces, [sep]), sep) == pieces
  {
    if |pieces| > 1 {
      var rest := Join(pieces[1..], [sep]);
      var s := pieces[0] + [sep] + rest;
      assert Join(pieces, [sep]) == s;
      Between(pieces[0], sep, rest);
      IndexOfFirst(s, |pieces[0]|, sep);
      SplitJoin(pieces[1..], sep);
      SplitAt(s, sep, |pieces[0]|);
      assert pieces == [pieces[0]] + pieces[1..];
    }
  }

  /** Where the first separator is at `i`, the first piece ends there and the rest is split after it. */
  lemma SplitAt(s: string, sep: char, i: nat)
    requires i < |s| && IndexOf(s, sep) == i
    ensures Split(s, sep) == [s[..i]] + Split(s[i + 1..], sep)
  {
    var j := IndexOf(s, sep);
    assert !(j < 0);
    var tail := Split(s[j + 1..], sep);
    assert Split(s, sep) == [s[..j]] + tail;
  }

  /** In `x`, `c`, `rest` the character `c` sits right after `x` and before `rest`. A separate step, to keep the proofs that use it small. */
  lemma Between(x: string, c: char, rest: string)
    ensures var s := x + [c] + rest;
      && |x| < |s| && s[..|x|] == x && s[|x|] == c && s[|x| + 1..] == rest
  {
  }

  /** A string value JavaScript treats as true: present and not empty. */
  predicate Truthy(v: Option<string>) {
    v.Some? && v.value != []
  }

  /** `s.startsWith(p)`. */
  predicate StartsWith(s: string, p: string) {
    |p| <= |s| && s[..|p|] == p
  }

  /** `pat` occurs in `s` at position `j`. */
  predicate OccursAt(s: string, pat: string, j: int) {
    0 <= j && j + |pat| <= |s| && s[j..j + |pat|] == pat
  }

  /** The first position at or after `from` where `pat` occurs, as `s.indexOf(pat, from)`. */
  function FindFrom(s: string, pat: string, from: nat): (r: Option<nat>)
    requires from <= |s|
    ensures r.Some? ==> from <= r.value && OccursAt(s, pat, r.value)
    ensures r.Some? ==> forall j :: from <= j < r.value ==> !OccursAt(s, pat, j)
    ensures r.None? ==> forall j :: from <= j <= |s| ==> !OccursAt(s, pat, j)
    decreases |s| - from
  {
    if OccursAt(s, pat, from) then Some(from)
    else if from == |s| then None
    else FindFrom(s, pat, from + 1)
  }

  /** `s.indexOf(pat)` with `None` for -1: the first occurrence of `pat`. */
  function FindFirst(s: string, pat: string): (r: Option<nat>)
    ensures r.Some? ==> OccursAt(s, pat, r.value) && forall j :: 0 <= j < r.value ==> !OccursAt(s, pat, j)
    ensures r.None? ==> forall j :: 0 <= j <= |s| ==> !OccursAt(s, pat, j)
  {
    FindFrom(s, pat, 0)
  }

  /**
   * The text `String.prototype.replace` puts in place of a match when the
   * replacement is a string: `$$` stands for `$`, `$&` for the matched text,
   * `` $` `` for the text before the match and `$'` for the text after it;
   * with a string pattern there are no capture groups, so any other `$` is
   * kept as it is.
   */
  function Substitution(template: string, matched: string, before: string, after: string): (r: string)
    ensures '$' !in template ==> r == template
    decreases |template|
  {
    if template == [] then []
    else if |template| >= 2 && template[0] == '$' && template[1] in "$&`'" then
      var piece := match template[1]
        case '$' => "$"
        case '&' => matched
        case '`' => before
        case _ => after;
      piece + Substitution(template[2..], matched, before, after)
    else
      var rest := Substitution(template[1..], matched, before, after);
      assert '$' !in template ==> [template[0]] + template[1..] == template;
      [template[0]] + rest
  }

  /** A replacement `$&` followed by text without `$` yields the matched text followed by that text. */
  lemma SubstituteMatched(rest: string, matched: string, before: string, after: string)
    requires '$' !in rest
    ensures Substitution("$&" + rest, matched, before, after) == matched + rest
  {
    var t := "$&" + rest;
    assert t[0] == '$' && t[1] == '&' && t[2..] == rest;
  }

  /** `$$` expands to a single `$`. */
  lemma SubstituteDollar(rest: string, matched: string, before: string, after: string)
    ensures Substitution("$$" + rest, matched, before, after) == "$" + Substitution(rest, matched, before, after)
  {
    var t := "$$" + rest;
    assert t[0] == '$' && t[1] == '$' && t[2..] == rest;
  }

  /** `` $` `` expands to the text before the match. */
  lemma SubstituteBefore(rest: string, matched: string, before: string, after: string)
    ensures Substitution("$`" + rest, matched, before, after) == before + Substitution(rest, matched, before, after)
  {
    var t := "$`" + rest;
    assert t[0] == '$' && t[1] == '`' && t[2..] == rest;
  }

  /** `$'` expands to the text after the match. */
  lemma SubstituteAfter(rest: string, matched: string, before: string, after: string)
    ensures Substitution("$'" + rest, matched, before, after) == after + Substitution(rest, matched, before, after)
  {
    var t := "$'" + rest;
    assert t[0] == '$' && t[1] == '\'' && t[2..] == rest;
  }

  /** A `$` followed by any other character is kept, and the character after it is read afresh. */
  lemma SubstituteOtherDollar(c: char, rest: string, matched: string, before: string, after: string)
    requires c !in "$&`'"
    ensures Substitution(['$', c] + rest, matched, before, after) == "$" + Substitution([c] + rest, matched, before, after)
  {
    var t := ['$', c] + rest;
    assert t[1..] == [c] + rest;
  }

  /** A `$` at the very end of the template is kept. */
  lemma SubstituteTrailingDollar(matched: string, before: string, after: string)
    ensures Substitution("$", matched, before, after) == "$"
  {
    assert "$"[1..] == [];
  }

  /** A character other than `$` is copied as it is. */
  lemma SubstituteLiteral(c: char, rest: string, matched: string, before: string, after: string)
    requires c != '$'
    ensures Substitution([c] + rest, matched, before, after) == [c] + Substitution(rest, matched, before, after)
  {
    var t := [c] + rest;
    assert t[1..] == rest;
  }

  /** Text without `$` at the front of a template is copied as it is, whatever follows. */
  lemma {:induction false} SubstituteLiteralPrefix(x: string, t: string, matched: string, before: string, after: string)
    requires '$' !in x
    ensures Substitution(x + t, matched, before, after) == x + Substitution(t, matched, before, after)
    decreases |x|
  {
    if x != [] {
      var u := x[1..] + t;
      assert x + t == [x[0]] + u;
      SubstituteLiteral(x[0], u, matched, before, after);
      SubstituteLiteralPrefix(x[1..], t, matched, before, after);
      assert x == [x[0]] + x[1..];
      calc {
        Substitution(x + t, matched, before, after);
        [x[0]] + Substitution(u, matched, before, after);
        [x[0]] + (x[1..] + Substitution(t, matched, before, after));
        x + Substitution(t, matched, before, after);
      }
    } else {
      assert x + t == t;
    }
  }

  /** In a template whose only `$` starts a `` $` ``, that pattern becomes the text before the match. */
  lemma ExpandBeforeBetween(x: string, y: string, matched: string, before: string, after: string)
    requires '$' !in x && '$' !in y
    ensures Substitution(x + "$`" + y, matched, before, after) == x + before + y
  {
    assert x + "$`" + y == x + ("$`" + y);
    SubstituteLiteralPrefix(x, "$`" + y, matched, before, after);
    SubstituteBefore(y, matched, before, after);
  }

  /** In a template whose only `$` starts a `$'`, that pattern becomes the text after the match. */
  lemma ExpandAfterBetween(x: string, y: string, matched: string, before: string, after: string)
    requires '$' !in x && '$' !in y
    ensures Substitution(x + "$'" + y, matched, before, after) == x + after + y
  {
    assert x + "$'" + y == x + ("$'" + y);
    SubstituteLiteralPrefix(x, "$'" + y, matched, before, after);
    SubstituteAfter(y, matched, before, after);
  }

  /**
   * `s.replace(pattern, replacement)` with a string pattern: only the first
   * occurrence is replaced, by the expansion of `replacement`; without an
   * occurrence `s` is returned as it is.
   */
  function Replace(s: string, pattern: string, replacement: string): (r: string)
    ensures FindFirst(s, pattern).None? ==> r == s
    ensures FindFirst(s, pattern).Some? ==> var i := FindFirst(s, pattern).value;
      r == s[..i] + Substitution(replacement, pattern, s[..i], s[i + |pattern|..]) + s[i + |pattern|..]
  {
    match FindFirst(s, pattern)
    case None => s
    case Some(i) =>
      var before := s[..i];
      var after := s[i + |pattern|..];
      before + Substitution(replacement, pattern, before, after) + after
  }
}
