/** The parser of `remappings.txt` (hardhat.config.ts, getRemappings): the file
    text is split on "\n", empty segments are dropped, and each remaining
    segment is trimmed and split on "=". Destructuring `[from, to]` keeps the
    first two pieces; with no "=" in the line `to` is undefined, which is
    `None` here. The file's contents are a parameter: reading the file is not
    modelled. */
module Remappings {
  import opened JsString

  /** One `[from, to]` pair of the remappings file. */
  datatype Remapping = Remapping(from: string, to: Option<string>)

  /** `line.split("=")` destructured as `[from, to]`: `from` is a prefix of
      the line without "=", and `to` is undefined exactly when the line has no "=". */
  function ParseEntry(line: string): (r: Remapping)
    ensures '=' !in r.from
    ensures |r.from| <= |line| && r.from == line[..|r.from|]
    ensures r.to.None? <==> '=' !in line
  {
    SplitFirst(line, '=');
    var pieces := Split(line, '=');
    Remapping(pieces[0], if |pieces| >= 2 then Some(pieces[1]) else None)
  }

  /** `filter(Boolean)` on strings: keeps exactly the non-empty segments, in order. */
  function DropEmpty(segs: seq<string>): (r: seq<string>)
    ensures |r| <= |segs|
    ensures forall x :: x in r <==> x in segs && x != []
  {
    if segs == [] then []
    else (if segs[0] == [] then [] else [segs[0]]) + DropEmpty(segs[1..])
  }

  /** `map(line => line.trim().split("="))` on the kept segments: entry k is
      the destructured split of trimmed line k. */
  function EntriesOf(lines: seq<string>): (r: seq<Remapping>)
    ensures |r| == |lines|
    ensures forall k :: 0 <= k < |lines| ==> r[k] == ParseEntry(Trim(lines[k]))
  {
    if lines == [] then [] else [ParseEntry(Trim(lines[0]))] + EntriesOf(lines[1..])
  }

  /** getRemappings, applied to the text of the remappings file: at most one
      entry per "\n"-separated segment, none of whose `from` contains "=". */
  function ParseRemappings(text: string): (r: seq<Remapping>)
    ensures |r| <= |Split(text, '\n')|
    ensures forall k :: 0 <= k < |r| ==> '=' !in r[k].from
  {
    EntriesOf(DropEmpty(Split(text, '\n')))
  }

  // ---------------------------------------------------------------------
  // One entry

  /** What destructuring keeps of a line: `from` is the text up to the first
      "=" (all of it when there is none); `to` is present exactly when the line
      has an "=", and is then the text between the first "=" and the next "="
      or the end of the line. */
  lemma ParseEntryShape(line: string)
    ensures '=' !in ParseEntry(line).from
    ensures ParseEntry(line).to.None? <==> '=' !in line
    ensures ParseEntry(line).to.None? ==> ParseEntry(line).from == line
    ensures ParseEntry(line).to.Some? ==>
      var f, v := ParseEntry(line).from, ParseEntry(line).to.value;
      '=' !in v
      && |f| + 1 + |v| <= |line|
      && line[..|f| + 1 + |v|] == f + "=" + v
      && (|f| + 1 + |v| == |line| || line[|f| + 1 + |v|] == '=')
  {
    var pieces := Split(line, '=');
    JoinSplit(line, '=');
    if |pieces| >= 2 {
      var f, v := pieces[0], pieces[1];
      var tail := Join(pieces[1..], '=');
      assert line == f + "=" + tail;
      assert line[|f|] == '=';
      if |pieces| == 2 {
        assert tail == v;
        assert line[..|f| + 1 + |v|] == line;
      } else {
        assert pieces[1..][1..] == pieces[2..];
        assert tail == v + "=" + Join(pieces[2..], '=');
        assert line == (f + "=" + v) + ("=" + Join(pieces[2..], '='));
      }
    }
  }

  /** A line with no "=" gives an entry whose `from` is the whole line and whose
      `to` is undefined. */
  lemma ParseEntryWithoutEquals(line: string)
    requires '=' !in line
    ensures ParseEntry(line) == Remapping(line, None)
  {
    SplitNoSeparator(line, '=');
  }

  /** `from=to`, optionally followed by "=" and anything, gives (from, to). */
  lemma ParseEntryWithEquals(f: string, v: string, rest: string)
    requires '=' !in f && '=' !in v
    requires rest == [] || rest[0] == '='
    ensures ParseEntry(f + "=" + v + rest) == Remapping(f, Some(v))
  {
    var line := f + "=" + v + rest;
    assert line == f + ['='] + (v + rest);
    SplitAppend(f, v + rest, '=');
    SplitNoSeparator(f, '=');
    if rest == [] {
      assert v + rest == v;
      SplitNoSeparator(v, '=');
    } else {
      assert v + rest == v + ['='] + rest[1..];
      SplitAppend(v, rest[1..], '=');
      SplitNoSeparator(v, '=');
    }
  }

  // ---------------------------------------------------------------------
  // The whole file

  /** `filter(Boolean)` distributes over concatenation, so the kept segments
      keep their order and their multiplicity. */
  lemma {:induction false} DropEmptyAppend(a: seq<string>, b: seq<string>)
    ensures DropEmpty(a + b) == DropEmpty(a) + DropEmpty(b)
  {
    if a != [] {
      assert (a + b)[1..] == a[1..] + b;
      DropEmptyAppend(a[1..], b);
    } else {
      assert a + b == b;
    }
  }

  /** The entries of two blocks of lines joined by "\n" are the entries of the
      first block followed by those of the second: entries keep file order. */
  lemma ParseAppend(a: string, b: string)
    ensures ParseRemappings(a + "\n" + b) == ParseRemappings(a) + ParseRemappings(b)
  {
    var sa, sb := Split(a, '\n'), Split(b, '\n');
    SplitAppend(a, b, '\n');
    assert Split(a + "\n" + b, '\n') == sa + sb;
    DropEmptyAppend(sa, sb);
    EntriesOfAppend(DropEmpty(sa), DropEmpty(sb));
  }

  lemma {:induction false} EntriesOfAppend(la: seq<string>, lb: seq<string>)
    ensures EntriesOf(la + lb) == EntriesOf(la) + EntriesOf(lb)
  {
    if la == [] {
      assert la + lb == lb;
    } else {
      assert (la + lb)[1..] == la[1..] + lb;
      EntriesOfAppend(la[1..], lb);
    }
  }

  /** A single line gives no entry when it is empty, and otherwise exactly the
      entry of its trimmed text. */
  lemma ParseSingleLine(line: string)
    requires '\n' !in line
    ensures ParseRemappings(line) == if line == [] then [] else [ParseEntry(Trim(line))]
  {
    SplitNoSeparator(line, '\n');
    assert DropEmpty([line]) == (if line == [] then [] else [line]);
  }

  /** A line of white space only (such as the lone "\r" of a blank line in a
      file with CRLF line ends) is not empty, so it is kept, and it trims to
      the entry ("", undefined). */
  lemma ParseBlankLine(ws: string)
    requires ws != [] && AllWhiteSpace(ws)
    requires '\n' !in ws
    ensures ParseRemappings(ws) == [Remapping("", None)]
  {
    ParseSingleLine(ws);
    assert ws + [] + [] == ws;
    TrimExact(ws, [], []);
    ParseEntryWithoutEquals("");
  }

  /** The line `from=to` has no "\n" when neither side has one. */
  lemma FromToLineHasNoNewline(f: string, t: string)
    requires '\n' !in f && '\n' !in t
    ensures '\n' !in f + "=" + t
  {
    var m := f + "=" + t;
    assert forall c :: c in m ==> c in f || c == '=' || c in t;
  }

  /** The line `from=to` is left as it is by `trim()` when `from` does not start
      and `to` does not end with white space. */
  lemma FromToLineIsTrimmed(f: string, t: string)
    requires f == [] || !IsWhiteSpace(f[0])
    requires t == [] || !IsWhiteSpace(t[|t| - 1])
    ensures Trim(f + "=" + t) == f + "=" + t
  {
    var m := f + "=" + t;
    assert m[|f|] == '=' && m != [];
    assert !IsWhiteSpace(m[0]) && !IsWhiteSpace(m[|m| - 1]);
    assert [] + m + [] == m;
    TrimExact([], m, []);
  }

  /** The line `from=to` destructures to (from, to) when neither side has "=". */
  lemma FromToLineEntry(f: string, t: string)
    requires '=' !in f && '=' !in t
    ensures ParseEntry(f + "=" + t) == Remapping(f, Some(t))
  {
    assert f + "=" + t == f + "=" + t + [];
    ParseEntryWithEquals(f, t, []);
  }

  /** A file of the single line `from=to`, with no "=" or "\n" in either and no
      white space at the start of `from` or the end of `to`, gives exactly the
      entry (from, to). With outer white space the line is trimmed first, so
      " a=b" gives ("a", "b"). */
  lemma ParseFromToLine(f: string, t: string)
    requires '=' !in f && '=' !in t && '\n' !in f && '\n' !in t
    requires f == [] || !IsWhiteSpace(f[0])
    requires t == [] || !IsWhiteSpace(t[|t| - 1])
    ensures ParseRemappings(f + "=" + t) == [Remapping(f, Some(t))]
  {
    FromToLineHasNoNewline(f, t);
    FromToLineIsTrimmed(f, t);
    FromToLineEntry(f, t);
    ParseSingleLine(f + "=" + t);
  }
}
