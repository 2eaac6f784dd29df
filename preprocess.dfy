/** The per-line `transform` of the import-path preprocessor
    (hardhat.config.ts): a Solidity line that ends in an import of a `.sol`
    path is rewritten with the first remapping whose `from` occurs in it;
    every other line is returned unchanged. */
module Preprocess {
  import opened JsString
  import opened Remappings

  const ImportSuffix: string := "sol\";"

  predicate EndsWith(s: string, suffix: string) {
    |suffix| <= |s| && s[|s| - |suffix|..] == suffix
  }

  predicate NoLineTerminator(s: string) {
    forall k :: 0 <= k < |s| ==> !IsLineTerminator(s[k])
  }

  /** `line.match(/".*.sol";$/)` succeeds: some `"` is followed by one or more
      characters that are not line terminators (`.*` then the unescaped `.`),
      then by `sol";` at the very end of the line (`$` without the `m` flag). */
  predicate IsImportLine(line: string)
    ensures IsImportLine(line) ==> |line| >= 7 && line[|line| - 1] == ';' && '"' in line[..|line| - 6]
  {
    EndsWith(line, ImportSuffix)
    && exists i :: 0 <= i <= |line| - 7 && line[i] == '"'
                   && NoLineTerminator(line[i + 1..|line| - 5])
  }

  /** What a remapping puts in place of `from`: its `to`, or the text
      "undefined" when the line had no "=" (String(undefined)). */
  function ReplacementText(to: Option<string>): (r: string)
    ensures to.Some? ==> r == to.value
    ensures to.None? ==> |r| == 9 && '$' !in r
  {
    match to
    case Some(v) => v
    case None => "undefined"
  }

  /** The index of the earliest entry whose `from` occurs in `line`. */
  function FirstMatch(entries: seq<Remapping>, line: string): (r: Option<nat>)
    ensures r.Some? ==> r.value < |entries| && Includes(line, entries[r.value].from)
    ensures r.Some? ==> forall j :: 0 <= j < r.value ==> !Includes(line, entries[j].from)
    ensures r.None? ==> forall j :: 0 <= j < |entries| ==> !Includes(line, entries[j].from)
  {
    if entries == [] then None
    else if Includes(line, entries[0].from) then Some(0)
    else
      match FirstMatch(entries[1..], line)
      case None => None
      case Some(k) => Some(k + 1)
  }

  /** The rewrite an import line receives: the one of the earliest entry whose
      `from` occurs in it, or none. */
  function RewriteFirstMatch(entries: seq<Remapping>, line: string): (r: string)
    ensures FirstMatch(entries, line).None? ==> r == line
    ensures r != line ==> exists k :: 0 <= k < |entries| && Includes(line, entries[k].from)
  {
    match FirstMatch(entries, line)
    case None => line
    case Some(k) => ReplaceFirst(line, entries[k].from, ReplacementText(entries[k].to))
  }

  /** What `transform` returns for `line` given the remapping entries. */
  function RemapLine(entries: seq<Remapping>, line: string): (r: string)
    ensures r != line ==> IsImportLine(line) && FirstMatch(entries, line).Some?
  {
    if IsImportLine(line) then RewriteFirstMatch(entries, line) else line
  }

  /** The `for ... of` loop of `transform`: the entries are scanned in order and
      the loop stops at the first one whose `from` occurs in the line. */
  method ApplyFirstMatch(entries: seq<Remapping>, line: string) returns (result: string)
    ensures result == RewriteFirstMatch(entries, line)
  {
    result := line;
    for k := 0 to |entries|
      invariant result == line
      invariant forall j :: 0 <= j < k ==> !Includes(line, entries[j].from)
    {
      var entry := entries[k];
      if Includes(result, entry.from) {
        assert FirstMatch(entries, line) == Some(k);
        result := ReplaceFirst(result, entry.from, ReplacementText(entry.to));
        break;
      }
    }
  }

  /** `transform(line)`, with the text of the remappings file as a parameter:
      only a line passing the guard is looked at, against the entries parsed
      from the file. */
  method Transform(remappingsFile: string, line: string) returns (result: string)
    ensures result == RemapLine(ParseRemappings(remappingsFile), line)
  {
    result := line;
    if IsImportLine(line) {
      result := ApplyFirstMatch(ParseRemappings(remappingsFile), line);
    }
  }

  // ---------------------------------------------------------------------
  // The guard

  /** Every line that quotes a path of at least one character without line
      terminators and ends in `sol";` passes the guard, whatever precedes the
      quote; the character before `sol` need not be a dot. */
  lemma ImportLineOf(prefix: string, path: string)
    requires |path| >= 1 && NoLineTerminator(path)
    ensures IsImportLine(prefix + "\"" + path + ImportSuffix)
  {
    var line := prefix + "\"" + path + ImportSuffix;
    var i := |prefix|;
    assert line[i] == '"';
    assert line[i + 1..|line| - 5] == path;
    assert line[|line| - 5..] == ImportSuffix;
  }

  /** Conversely, a line passing the guard ends in `sol";` and has a quote with
      at least one line-terminator-free character between it and `sol";`. */
  lemma ImportLineShape(line: string)
    requires IsImportLine(line)
    ensures |line| >= 7
    ensures exists i :: 0 <= i <= |line| - 7 && line == line[..i] + "\"" + line[i + 1..|line| - 5] + ImportSuffix
                        && NoLineTerminator(line[i + 1..|line| - 5])
  {
    var i :| 0 <= i <= |line| - 7 && line[i] == '"' && NoLineTerminator(line[i + 1..|line| - 5]);
    assert line == line[..i] + "\"" + line[i + 1..|line| - 5] + line[|line| - 5..];
  }

  /** A line whose last character is not `;` (such as a trailing "\r" of a
      CRLF source file after `sol";`) fails the guard. */
  lemma TrailingTextFailsGuard(line: string, c: char)
    requires c != ';'
    ensures !IsImportLine(line + [c])
  {
    var l := line + [c];
    assert l[|l| - 1] == c;
    if |l| >= 5 {
      assert l[|l| - 5..][4] == c;
    }
  }

  // ---------------------------------------------------------------------
  // The rewrite

  /** A line that fails the guard comes back unchanged, whatever the entries. */
  lemma NonImportLineUnchanged(entries: seq<Remapping>, line: string)
    requires !IsImportLine(line)
    ensures RemapLine(entries, line) == line
  {
  }

  /** An import line in which no entry's `from` occurs comes back unchanged. */
  lemma NoMatchUnchanged(entries: seq<Remapping>, line: string)
    requires forall k :: 0 <= k < |entries| ==> forall j: nat :: !OccursAt(line, entries[k].from, j)
    ensures RemapLine(entries, line) == line
  {
  }

  /** When entry `k` is the earliest whose `from` occurs in an import line, the
      result is exactly one rewrite: that entry's `from` replaced, at its first
      occurrence, by its (expanded) replacement text. */
  lemma AppliedEntry(entries: seq<Remapping>, line: string, k: nat)
    requires IsImportLine(line)
    requires k < |entries| && Includes(line, entries[k].from)
    requires forall j :: 0 <= j < k ==> !Includes(line, entries[j].from)
    ensures RemapLine(entries, line) == ReplaceFirst(line, entries[k].from, ReplacementText(entries[k].to))
  {
    var m := FirstMatch(entries, line);
    assert m.Some?;
    assert !(m.value < k) && !(k < m.value);
  }

  /** Entries after the first matching one are never consulted: appending any
      entries to a list that already matches does not change the result. */
  lemma {:induction false} LaterEntriesIgnored(entries: seq<Remapping>, more: seq<Remapping>, line: string)
    requires FirstMatch(entries, line).Some?
    ensures FirstMatch(entries + more, line) == FirstMatch(entries, line)
    ensures RemapLine(entries + more, line) == RemapLine(entries, line)
  {
    var all := entries + more;
    assert all[0] == entries[0];
    if !Includes(line, entries[0].from) {
      assert all[1..] == entries[1..] + more;
      LaterEntriesIgnored(entries[1..], more, line);
    }
    var k := FirstMatch(entries, line).value;
    assert all[k] == entries[k];
  }

  /** Priority: an entry whose `from` occurs in the line wins over every entry
      after it, whether or not those match too. */
  lemma EarlierEntryWins(e: Remapping, rest: seq<Remapping>, line: string)
    requires IsImportLine(line) && Includes(line, e.from)
    ensures RemapLine([e] + rest, line) == ReplaceFirst(line, e.from, ReplacementText(e.to))
  {
    LaterEntriesIgnored([e], rest, line);
  }

  /** With a `$`-free replacement text (any `to` without `$`, or "undefined"
      for an undefined `to`), the applied entry splices that text into the line
      in place of the first occurrence of `from`: the text before it and the
      text after it (later occurrences of `from` included) are kept, and the
      length changes by |text| - |from|. */
  lemma AppliedEntryLiteral(entries: seq<Remapping>, line: string, k: nat, p: nat)
    requires IsImportLine(line)
    requires k < |entries| && '$' !in ReplacementText(entries[k].to)
    requires forall j :: 0 <= j < k ==> !Includes(line, entries[j].from)
    requires OccursAt(line, entries[k].from, p)
    requires forall j: nat :: j < p ==> !OccursAt(line, entries[k].from, j)
    ensures RemapLine(entries, line)
         == line[..p] + ReplacementText(entries[k].to) + line[p + |entries[k].from|..]
    ensures |RemapLine(entries, line)|
         == |line| - |entries[k].from| + |ReplacementText(entries[k].to)|
  {
    var f, text := entries[k].from, ReplacementText(entries[k].to);
    assert RemapLine(entries, line) == ReplaceFirst(line, f, text) by {
      assert Includes(line, f);
      AppliedEntry(entries, line, k);
    }
    assert ReplaceFirst(line, f, text) == line[..p] + text + line[p + |f|..] by {
      ReplaceFirstLiteral(line, f, text, p);
    }
  }

  /** A whitespace-only line of the remappings file yields the entry
      ("", undefined); the empty `from` occurs in every line, so if that entry
      comes first every import line is prefixed with the text "undefined" and
      no later entry is applied. */
  lemma BlankEntryPrefixesUndefined(rest: seq<Remapping>, line: string)
    requires IsImportLine(line)
    ensures RemapLine([Remapping("", None)] + rest, line) == "undefined" + line
  {
    assert Includes(line, "") by {
      assert OccursAt(line, "", 0);
    }
    EarlierEntryWins(Remapping("", None), rest, line);
    ReplaceFirstEmptyPattern(line, "undefined");
  }

  // ---------------------------------------------------------------------
  // The remappings file and the rewrite together

  /** A file of the single line `from=to` (no "=" or "\n" in either, no white
      space at its outer ends) rewrites an import line containing `from` as
      `line.replace(from, to)` does: `$` patterns in `to` are expanded. */
  lemma SingleEntryFile(f: string, t: string, line: string)
    requires '=' !in f && '=' !in t && '\n' !in f && '\n' !in t
    requires f == [] || !IsWhiteSpace(f[0])
    requires t == [] || !IsWhiteSpace(t[|t| - 1])
    requires IsImportLine(line) && Includes(line, f)
    ensures RemapLine(ParseRemappings(f + "=" + t), line) == ReplaceFirst(line, f, t)
  {
    ParseFromToLine(f, t);
    EarlierEntryWins(Remapping(f, Some(t)), [], line);
    assert [Remapping(f, Some(t))] + [] == [Remapping(f, Some(t))];
  }

  /** With a `$`-free `to`, that rewrite is the literal splice: the text before
      the first `from`, then `to`, then the text after it. */
  lemma SingleEntryFileLiteral(f: string, t: string, line: string, p: nat)
    requires '=' !in f && '=' !in t && '\n' !in f && '\n' !in t && '$' !in t
    requires f == [] || !IsWhiteSpace(f[0])
    requires t == [] || !IsWhiteSpace(t[|t| - 1])
    requires IsImportLine(line) && OccursAt(line, f, p)
    requires forall j: nat :: j < p ==> !OccursAt(line, f, j)
    ensures RemapLine(ParseRemappings(f + "=" + t), line) == line[..p] + t + line[p + |f|..]
  {
    assert IndexOf(line, f).Some?;
    SingleEntryFile(f, t, line);
    ReplaceFirstLiteral(line, f, t, p);
  }

  /** Priority at the level of the file: when the entry of the first line of the
      file matches an import line, it is the one applied, whatever follows. */
  lemma FirstFileLineWins(first: string, rest: string, line: string)
    requires first != [] && '\n' !in first
    requires IsImportLine(line) && Includes(line, ParseEntry(Trim(first)).from)
    ensures RemapLine(ParseRemappings(first + "\n" + rest), line)
         == ReplaceFirst(line, ParseEntry(Trim(first)).from, ReplacementText(ParseEntry(Trim(first)).to))
  {
    ParseAppend(first, rest);
    ParseSingleLine(first);
    EarlierEntryWins(ParseEntry(Trim(first)), ParseRemappings(rest), line);
  }

  /** A file whose first line is white space only (a blank first line of a
      CRLF file is "\r") prefixes every import line with "undefined". */
  lemma BlankFirstFileLine(ws: string, rest: string, line: string)
    requires ws != [] && AllWhiteSpace(ws) && '\n' !in ws
    requires IsImportLine(line)
    ensures RemapLine(ParseRemappings(ws + "\n" + rest), line) == "undefined" + line
  {
    ParseAppend(ws, rest);
    ParseBlankLine(ws);
    BlankEntryPrefixesUndefined(ParseRemappings(rest), line);
  }
}
