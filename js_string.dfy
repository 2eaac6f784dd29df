/** The ECMAScript string operations the remapping preprocessor relies on:
    `split` on a one-character separator, `trim`, `includes`/`indexOf` and
    `replace` with a string pattern (including the `$` patterns of the
    replacement string). Strings are sequences of characters. */
module JsString {

  datatype Option<+T> = None | Some(value: T)

  /** ECMAScript LineTerminator: LF, CR, LINE SEPARATOR, PARAGRAPH SEPARATOR. */
  predicate IsLineTerminator(c: char) {
    c == '\n' || c == '\r' || c == '\U{2028}' || c == '\U{2029}'
  }

  /** ECMAScript WhiteSpace (TAB, VT, FF, ZWNBSP and the Unicode Zs category)
      together with LineTerminator: the characters `trim` removes. */
  predicate IsWhiteSpace(c: char) {
    c == '\t' || c == '\U{000B}' || c == '\U{000C}' || c == '\U{FEFF}'
    || c == ' ' || c == '\U{00A0}' || c == '\U{1680}'
    || ('\U{2000}' <= c <= '\U{200A}')
    || c == '\U{202F}' || c == '\U{205F}' || c == '\U{3000}'
    || IsLineTerminator(c)
  }

  predicate AllWhiteSpace(s: string) {
    forall k :: 0 <= k < |s| ==> IsWhiteSpace(s[k])
  }

  // ---------------------------------------------------------------------
  // split / join on a single-character separator

  /** `s.split(sep)`: the maximal separator-free segments of `s`, in order.
      There is always at least one segment ("" splits into [""]). */
  function Split(s: string, sep: char): (r: seq<string>)
    ensures |r| >= 1
    ensures forall k :: 0 <= k < |r| ==> sep !in r[k]
  {
    if s == [] then [[]]
    else
      var rest := Split(s[1..], sep);
      if s[0] == sep then [[]] + rest
      else [[s[0]] + rest[0]] + rest[1..]
  }

  /** The first segment is the text before the first separator, and there is
      a second segment exactly when the separator occurs. */
  lemma {:induction false} SplitFirst(s: string, sep: char)
    ensures |Split(s, sep)[0]| <= |s| && Split(s, sep)[0] == s[..|Split(s, sep)[0]|]
    ensures |Split(s, sep)| == 1 <==> sep !in s
  {
    if s != [] {
      SplitFirst(s[1..], sep);
      if s[0] != sep {
        assert sep in s <==> sep in s[1..] by {
          assert s == [s[0]] + s[1..];
        }
      }
    }
  }

  /** `segs.join(sep)`, the inverse of Split. */
  function Join(segs: seq<string>, sep: char): string
    requires |segs| >= 1
  {
    if |segs| == 1 then segs[0] else segs[0] + [sep] + Join(segs[1..], sep)
  }

  /** Joining the segments back with the separator gives the original text. */
  lemma {:induction false} JoinSplit(s: string, sep: char)
    ensures Join(Split(s, sep), sep) == s
  {
    if s != [] {
      var rest := Split(s[1..], sep);
      JoinSplit(s[1..], sep);
      if s[0] == sep {
        assert ([[]] + rest)[1..] == rest;
      } else if |rest| > 1 {
        var r := [[s[0]] + rest[0]] + rest[1..];
        assert r[1..] == rest[1..];
        assert Join(rest, sep) == rest[0] + [sep] + Join(rest[1..], sep);
        assert Join(r, sep) == [s[0]] + rest[0] + [sep] + Join(rest[1..], sep);
      }
    }
  }

  /** Text without the separator is a single segment. */
  lemma {:induction false} SplitNoSeparator(s: string, sep: char)
    requires sep !in s
    ensures Split(s, sep) == [s]
  {
    if s != [] {
      assert s[0] != sep;
      SplitNoSeparator(s[1..], sep);
      assert [s[0]] + s[1..] == s;
    }
  }

  /** Splitting distributes over a separator: the segments of `a`, then those of `b`. */
  lemma {:induction false} SplitAppend(a: string, b: string, sep: char)
    ensures Split(a + [sep] + b, sep) == Split(a, sep) + Split(b, sep)
  {
    var s := a + [sep] + b;
    if a == [] {
      assert s[1..] == b;
    } else {
      assert s[1..] == a[1..] + [sep] + b;
      SplitAppend(a[1..], b, sep);
    }
  }

  /** Separator-free segments survive a join followed by a split. */
  lemma {:induction false} SplitJoin(segs: seq<string>, sep: char)
    requires |segs| >= 1
    requires forall k :: 0 <= k < |segs| ==> sep !in segs[k]
    ensures Split(Join(segs, sep), sep) == segs
  {
    if |segs| == 1 {
      SplitNoSeparator(segs[0], sep);
    } else {
      SplitJoin(segs[1..], sep);
      SplitNoSeparator(segs[0], sep);
      SplitAppend(segs[0], Join(segs[1..], sep), sep);
      assert [segs[0]] + segs[1..] == segs;
    }
  }

  // ---------------------------------------------------------------------
  // trim

  /** Two runs of white space make one. */
  lemma AllWhiteSpaceAppend(a: string, b: string)
    requires AllWhiteSpace(a) && AllWhiteSpace(b)
    ensures AllWhiteSpace(a + b)
  {
    assert forall k :: |a| <= k < |a + b| ==> (a + b)[k] == b[k - |a|];
  }

  /** The number of white-space characters at the start of `s`. */
  function LeadingWhiteSpace(s: string): (n: nat)
    ensures n <= |s| && AllWhiteSpace(s[..n])
    ensures n == |s| || !IsWhiteSpace(s[n])
  {
    if s != [] && IsWhiteSpace(s[0]) then
      var n := LeadingWhiteSpace(s[1..]);
      assert s[..n + 1] == [s[0]] + s[1..][..n];
      AllWhiteSpaceAppend([s[0]], s[1..][..n]);
      n + 1
    else 0
  }

  /** Drops leading white space. */
  function TrimStart(s: string): (r: string)
    ensures |r| <= |s| && r == s[|s| - |r|..]
    ensures AllWhiteSpace(s[..|s| - |r|])
    ensures r == [] || !IsWhiteSpace(r[0])
  {
    s[LeadingWhiteSpace(s)..]
  }

  /** Drops trailing white space. */
  function TrimEnd(s: string): (r: string)
    ensures |r| <= |s| && r == s[..|r|]
    ensures AllWhiteSpace(s[|r|..])
    ensures r == [] || !IsWhiteSpace(r[|r| - 1])
  {
    if s != [] && IsWhiteSpace(s[|s| - 1]) then
      var r := TrimEnd(s[..|s| - 1]);
      assert s[|r|..] == s[..|s| - 1][|r|..] + [s[|s| - 1]];
      AllWhiteSpaceAppend(s[..|s| - 1][|r|..], [s[|s| - 1]]);
      r
    else s
  }

  /** `s.trim()`: the result is empty or starts and ends with a non-white-space
      character. */
  function Trim(s: string): (r: string)
    ensures |r| <= |s|
    ensures r == [] || (!IsWhiteSpace(r[0]) && !IsWhiteSpace(r[|r| - 1]))
  {
    TrimEnd(TrimStart(s))
  }

  lemma {:induction false} TrimStartAfter(a: string, t: string)
    requires AllWhiteSpace(a)
    requires t == [] || !IsWhiteSpace(t[0])
    ensures TrimStart(a + t) == t
  {
    if a != [] {
      assert (a + t)[1..] == a[1..] + t;
      TrimStartAfter(a[1..], t);
    }
  }

  lemma {:induction false} TrimEndBefore(t: string, b: string)
    requires AllWhiteSpace(b)
    requires t == [] || !IsWhiteSpace(t[|t| - 1])
    ensures TrimEnd(t + b) == t
  {
    if b != [] {
      var s := t + b;
      assert s[..|s| - 1] == t + b[..|b| - 1];
      TrimEndBefore(t, b[..|b| - 1]);
    } else {
      assert t + b == t;
    }
  }

  /** Trim removes exactly the white space around the text and nothing inside it:
      white space, then a text with non-white-space ends, then white space,
      trims to that text. */
  lemma TrimExact(a: string, m: string, b: string)
    requires AllWhiteSpace(a) && AllWhiteSpace(b)
    requires m == [] || (!IsWhiteSpace(m[0]) && !IsWhiteSpace(m[|m| - 1]))
    ensures Trim(a + m + b) == m
  {
    if m == [] {
      assert a + m + b == (a + b) + [];
      TrimStartAfter(a + b, []);
    } else {
      assert a + m + b == a + (m + b);
      TrimStartAfter(a, m + b);
      TrimEndBefore(m, b);
    }
  }

  // ---------------------------------------------------------------------
  // indexOf / includes

  /** `pat` occurs in `s` starting at index `i`. */
  predicate OccursAt(s: string, pat: string, i: nat) {
    i + |pat| <= |s| && s[i..i + |pat|] == pat
  }

  /** `s.indexOf(pat)`: the first index where `pat` occurs, or None (JS: -1). */
  function IndexOf(s: string, pat: string): (r: Option<nat>)
    ensures r.Some? ==> OccursAt(s, pat, r.value)
    ensures r.Some? ==> forall j: nat :: j < r.value ==> !OccursAt(s, pat, j)
    ensures r.None? ==> forall j: nat :: !OccursAt(s, pat, j)
  {
    if |pat| > |s| then None
    else if s[..|pat|] == pat then Some(0)
    else
      OccursShift(s, pat);
      match IndexOf(s[1..], pat)
      case None => None
      case Some(i) => Some(i + 1)
  }

  /** Occurrences in `s[1..]` are those in `s` shifted by one. */
  lemma OccursShift(s: string, pat: string)
    requires |s| >= 1
    ensures forall j: nat :: 1 <= j ==> (OccursAt(s, pat, j) <==> OccursAt(s[1..], pat, j - 1))
    ensures OccursAt(s, pat, 0) <==> |pat| <= |s| && s[..|pat|] == pat
  {
    forall j: nat | 1 <= j
      ensures OccursAt(s, pat, j) <==> OccursAt(s[1..], pat, j - 1)
    {
      if j + |pat| <= |s| {
        assert s[1..][j - 1..j - 1 + |pat|] == s[j..j + |pat|];
      }
    }
  }

  /** `s.includes(pat)`: true exactly when `pat` occurs somewhere in `s`. */
  predicate Includes(s: string, pat: string)
    ensures Includes(s, pat) <==> exists j: nat :: OccursAt(s, pat, j)
  {
    IndexOf(s, pat).Some?
  }

  // ---------------------------------------------------------------------
  // replace with a string pattern

  /** The text a two-character `$` pattern stands for. */
  function PatternText(c: char, before: string, matched: string, after: string): string
  {
    match c
    case '$' => "$"
    case '&' => matched
    case '`' => before
    case _ => after
  }

  /** GetSubstitution for a string pattern (no capture groups): in the
      replacement template `$$` stands for `$`, `$&` for the matched text,
      `` $` `` for the text before the match and `$'` for the text after it;
      every other character, `$` included, stands for itself. */
  function Substitution(template: string, before: string, matched: string, after: string): (r: string)
    ensures forall c :: c in r ==> c in template || c in before || c in matched || c in after
  {
    if template == [] then []
    else if |template| >= 2 && template[0] == '$' && template[1] in "$&`'" then
      PatternText(template[1], before, matched, after) + Substitution(template[2..], before, matched, after)
    else
      [template[0]] + Substitution(template[1..], before, matched, after)
  }

  /** A template without `$` is inserted verbatim. */
  lemma {:induction false} SubstitutionLiteral(template: string, before: string, matched: string, after: string)
    requires '$' !in template
    ensures Substitution(template, before, matched, after) == template
  {
    if template != [] {
      assert template[0] != '$';
      SubstitutionLiteral(template[1..], before, matched, after);
    }
  }

  /** The four `$` patterns, each followed by any template: `$$` gives `$`,
      `$&` the matched text, `` $` `` the text before it, `$'` the text after it. */
  lemma SubstitutionPattern(c: char, t: string, before: string, matched: string, after: string)
    requires c in "$&`'"
    ensures Substitution(['$', c] + t, before, matched, after)
         == PatternText(c, before, matched, after) + Substitution(t, before, matched, after)
  {
    var template := ['$', c] + t;
    assert template[0] == '$' && template[1] == c && template[2..] == t;
  }

  /** Any other character of the template, a literal one or a `$` that does not
      begin one of the four patterns (`$1`, `$<`, a final `$`), stands for itself. */
  lemma SubstitutionOther(c: char, t: string, before: string, matched: string, after: string)
    requires c != '$' || t == [] || t[0] !in "$&`'"
    ensures Substitution([c] + t, before, matched, after) == [c] + Substitution(t, before, matched, after)
  {
    assert ([c] + t)[1..] == t;
  }

  /** `s` with the `|pat|` characters at `p` replaced by the expansion of
      `replacement`. */
  function Splice(s: string, pat: string, replacement: string, p: nat): string
    requires p + |pat| <= |s|
  {
    s[..p] + Substitution(replacement, s[..p], pat, s[p + |pat|..]) + s[p + |pat|..]
  }

  /** `s.replace(pat, replacement)`: only the first occurrence of `pat` is
      replaced; with no occurrence `s` comes back, and otherwise the text before
      and the text after the occurrence are kept. */
  function ReplaceFirst(s: string, pat: string, replacement: string): (r: string)
    ensures IndexOf(s, pat).None? ==> r == s
    ensures IndexOf(s, pat).Some? ==>
      var p := IndexOf(s, pat).value;
      var tail := s[p + |pat|..];
      p + |tail| <= |r| && r[..p] == s[..p] && r[|r| - |tail|..] == tail
  {
    match IndexOf(s, pat)
    case None => s
    case Some(p) => Splice(s, pat, replacement, p)
  }

  /** The empty pattern occurs at index 0, so a `$`-free replacement is put in
      front of the whole string. */
  lemma ReplaceFirstEmptyPattern(s: string, replacement: string)
    requires '$' !in replacement
    ensures ReplaceFirst(s, "", replacement) == replacement + s
  {
    assert IndexOf(s, "") == Some(0);
    SubstitutionLiteral(replacement, [], "", s);
    assert s[..0] + replacement + s[0..] == replacement + s;
  }

  /** With no occurrence of `pat`, `replace` returns `s` itself. */
  lemma ReplaceFirstAbsent(s: string, pat: string, replacement: string)
    requires forall j: nat :: !OccursAt(s, pat, j)
    ensures ReplaceFirst(s, pat, replacement) == s
  {
  }

  /** `indexOf` finds exactly the first occurrence. */
  lemma IndexOfFirst(s: string, pat: string, p: nat)
    requires OccursAt(s, pat, p)
    requires forall j: nat :: j < p ==> !OccursAt(s, pat, j)
    ensures IndexOf(s, pat) == Some(p)
  {
    var q := IndexOf(s, pat);
    assert q.Some?;
    assert !(q.value < p) && !(p < q.value);
  }

  /** Where `indexOf` finds `pat`, `replace` splices in the expanded replacement. */
  lemma ReplaceFirstFound(s: string, pat: string, replacement: string, p: nat)
    requires IndexOf(s, pat) == Some(p)
    ensures p + |pat| <= |s|
    ensures ReplaceFirst(s, pat, replacement) == Splice(s, pat, replacement, p)
  {
  }

  /** When `p` is the first occurrence of `pat`, the result keeps the text before
      `p`, puts the expanded replacement in place of `pat`, and keeps every later
      character (later occurrences included) unchanged. */
  lemma ReplaceFirstAt(s: string, pat: string, replacement: string, p: nat)
    requires OccursAt(s, pat, p)
    requires forall j: nat :: j < p ==> !OccursAt(s, pat, j)
    ensures ReplaceFirst(s, pat, replacement)
         == s[..p] + Substitution(replacement, s[..p], pat, s[p + |pat|..]) + s[p + |pat|..]
  {
    IndexOfFirst(s, pat, p);
    ReplaceFirstFound(s, pat, replacement, p);
  }

  /** With a `$`-free replacement, `replace` is a literal splice at the first
      occurrence, and the length changes by |replacement| - |pat|. */
  lemma ReplaceFirstLiteral(s: string, pat: string, replacement: string, p: nat)
    requires '$' !in replacement
    requires OccursAt(s, pat, p)
    requires forall j: nat :: j < p ==> !OccursAt(s, pat, j)
    ensures ReplaceFirst(s, pat, replacement) == s[..p] + replacement + s[p + |pat|..]
    ensures |ReplaceFirst(s, pat, replacement)| == |s| - |pat| + |replacement|
  {
    ReplaceFirstAt(s, pat, replacement, p);
    SubstitutionLiteral(replacement, s[..p], pat, s[p + |pat|..]);
  }

  /** A replacement using `$&` is not inserted literally: replacing `x` in
      `x.sol` with `[$&]` wraps the match, giving `[x].sol`. */
  lemma ReplaceFirstMatchedPattern()
    ensures ReplaceFirst("x.sol", "x", "[$&]") == "[x].sol"
  {
    var s, template := "x.sol", "[$&]";
    assert s[..0] == "" && s[1..] == ".sol";
    assert OccursAt(s, "x", 0);
    ReplaceFirstAt(s, "x", template, 0);
    assert template[1..] == ['$', '&'] + "]";
    SubstitutionPattern('&', "]", "", "x", ".sol");
    SubstitutionLiteral("]", "", "x", ".sol");
    assert Substitution(template, "", "x", ".sol") == "[" + Substitution(['$', '&'] + "]", "", "x", ".sol");
  }
}
