/**
 Renaming a crate in text. The script substitutes two patterns, one after the other and line by line, each the old
 spelling with no name character on either side. What that comes to is said on the whole text: every maximal run of
 name characters that is the old name, or the old identifier, is replaced by the new one.
 */
module RenameCrate {
  predicate IsName(c: char) { 'A' <= c <= 'Z' || 'a' <= c <= 'z' || '0' <= c <= '9' || c == '_' || c == '-' }

  predicate IsWord(s: string) { s != "" && forall c | c in s :: IsName(c) }

  function Identifier(name: string): string {
    seq(|name|, i requires 0 <= i < |name| => if name[i] == '-' then '_' else name[i])
  }

  /** The themes of the table, and the layer each new name ends with. */
  const THEMES: seq<(string, string)> := [
    ("transport", "std"), ("retry", "std"), ("breaker", "spi"), ("resilient", "spi"), ("auth-bearer", "std")]

  const OLD_PREFIX: string := "edge-transport-grpc-egress-"
  const NEW_PREFIX: string := "grpc-egress-"

  /** A pair of the table: the old name of a crate and the new one. */
  function TablePair(i: nat): (string, string)
    requires i < |THEMES|
  {
    (OLD_PREFIX + THEMES[i].0, NEW_PREFIX + THEMES[i].0 + "-" + THEMES[i].1)
  }

  // ---------------------------------------------------------------- the patterns

  /** The pattern matches at the beginning of `rest`, which follows a name character if `inName`. */
  predicate MatchesHere(word: string, rest: string, inName: bool) {
    !inName && word <= rest && (|rest| == |word| || !IsName(rest[|word|]))
  }

  /** Substitutes the matches in `rest` from left to right. */
  function Substitute(word: string, replacement: string, rest: string, inName: bool): string
    decreases |rest|
  {
    if rest == "" then ""
    else if word != "" && MatchesHere(word, rest, inName)
    then replacement + Substitute(word, replacement, rest[|word|..], IsName(word[|word| - 1]))
    else [rest[0]] + Substitute(word, replacement, rest[1..], IsName(rest[0]))
  }

  /** The pattern matches somewhere in `rest`. */
  predicate Search(word: string, rest: string, inName: bool) {
    rest != "" && (MatchesHere(word, rest, inName) || Search(word, rest[1..], IsName(rest[0])))
  }

  // ---------------------------------------------------------------- runs

  /** How many name characters `text` begins with. */
  function RunLength(text: string): (n: nat)
    ensures n <= |text| && (forall i :: 0 <= i < n ==> IsName(text[i])) && (n < |text| ==> !IsName(text[n]))
  {
    if text == "" || !IsName(text[0]) then 0 else 1 + RunLength(text[1..])
  }

  /** `text` with `f` applied to every maximal run of name characters. */
  function MapRuns(f: string -> string, text: string): string
    decreases |text|
  {
    if text == "" then ""
    else if !IsName(text[0]) then [text[0]] + MapRuns(f, text[1..])
    else
      var n := RunLength(text);
      f(text[..n]) + MapRuns(f, text[n..])
  }

  /** `word` is one of the maximal runs of `text`. */
  predicate HasRun(word: string, text: string)
    decreases |text|
  {
    if text == "" then false
    else if !IsName(text[0]) then HasRun(word, text[1..])
    else var n := RunLength(text); text[..n] == word || HasRun(word, text[n..])
  }

  function Exchange(word: string, replacement: string): string -> string {
    run => if run == word then replacement else run
  }

  lemma {:induction false} RunLengthIs(text: string, n: nat)
    requires n <= |text| && (forall i :: 0 <= i < n ==> IsName(text[i])) && (n < |text| ==> !IsName(text[n]))
    ensures RunLength(text) == n
  {
  }

  /** A word matches at the beginning of a run exactly when it is the whole run. */
  lemma MatchIsWholeRun(word: string, text: string)
    requires IsWord(word)
    ensures MatchesHere(word, text, false) <==> text[..RunLength(text)] == word
  {
  }

  /** Inside a run nothing is substituted. */
  lemma {:induction false} RestOfRunIsCopied(word: string, replacement: string, rest: string)
    requires IsWord(word)
    ensures var n := RunLength(rest);
            Substitute(word, replacement, rest, true) == rest[..n] + Substitute(word, replacement, rest[n..], false)
  {
    var n := RunLength(rest);
    if n == 0 {
      assert rest[n..] == rest && rest[..n] == "";
      if rest != "" {
        assert word[0] in word;
      }
    } else {
      RestOfRunIsCopied(word, replacement, rest[1..]);
      assert rest[1..][n - 1..] == rest[n..] && [rest[0]] + rest[1..][..n - 1] == rest[..n];
    }
  }

  lemma AfterWholeRun(word: string, replacement: string, text: string)
    requires IsWord(word) && text[..RunLength(text)] == word
    ensures Substitute(word, replacement, text, false)
            == replacement + Substitute(word, replacement, text[RunLength(text)..], false)
  {
  }

  lemma NoMatchStepsOver(word: string, replacement: string, text: string)
    requires text != "" && IsName(text[0]) && !MatchesHere(word, text, false)
    ensures Substitute(word, replacement, text, false) == [text[0]] + Substitute(word, replacement, text[1..], true)
  {
  }

  lemma OneBeforeTheRest(text: string, n: nat, more: string)
    requires 0 < n <= |text|
    ensures text[1..][n - 1..] == text[n..]
    ensures [text[0]] + (text[1..][..n - 1] + more) == text[..n] + more
  {
  }

  lemma OtherRunIsCopied(word: string, replacement: string, text: string)
    requires IsWord(word) && RunLength(text) > 0 && text[..RunLength(text)] != word
    ensures var n := RunLength(text);
            Substitute(word, replacement, text, false) == text[..n] + Substitute(word, replacement, text[n..], false)
  {
    var n := RunLength(text);
    MatchIsWholeRun(word, text);
    NoMatchStepsOver(word, replacement, text);
    RestOfRunIsCopied(word, replacement, text[1..]);
    assert RunLength(text[1..]) == n - 1;
    hide Substitute, RunLength, MatchesHere;
    OneBeforeTheRest(text, n, Substitute(word, replacement, text[n..], false));
  }

  /** The substitution replaces the runs that are the word. */
  lemma {:induction false} SubstituteMapsRuns(word: string, replacement: string, text: string)
    requires IsWord(word)
    ensures Substitute(word, replacement, text, false) == MapRuns(Exchange(word, replacement), text)
    decreases |text|
  {
    if text != "" {
      var n := RunLength(text);
      MatchIsWholeRun(word, text);
      if n == 0 {
        SubstituteMapsRuns(word, replacement, text[1..]);
      } else {
        SubstituteMapsRuns(word, replacement, text[n..]);
        if text[..n] == word {
          AfterWholeRun(word, replacement, text);
        } else {
          OtherRunIsCopied(word, replacement, text);
        }
        hide RunLength, Substitute;
      }
    }
  }

  lemma {:induction false} SearchInRun(word: string, rest: string)
    requires IsWord(word)
    ensures Search(word, rest, true) <==> Search(word, rest[RunLength(rest)..], false)
  {
    var n := RunLength(rest);
    if n == 0 {
      assert rest[n..] == rest;
      if rest != "" {
        assert word[0] in word;
      }
    } else {
      SearchInRun(word, rest[1..]);
      assert rest[1..][n - 1..] == rest[n..];
    }
  }

  /** The pattern is found exactly when one of the runs is the word. */
  lemma {:induction false} SearchFindsRuns(word: string, text: string)
    requires IsWord(word)
    ensures Search(word, text, false) <==> HasRun(word, text)
    decreases |text|
  {
    if text != "" {
      var n := RunLength(text);
      MatchIsWholeRun(word, text);
      if n == 0 {
        SearchFindsRuns(word, text[1..]);
      } else {
        SearchFindsRuns(word, text[n..]);
        SearchInRun(word, text[1..]);
        assert text[1..][n - 1..] == text[n..];
      }
    }
  }

  // ---------------------------------------------------------------- mapping runs

  ghost predicate KeepsWords(f: string -> string) { forall w :: IsWord(w) ==> IsWord(f(w)) }

  lemma {:induction false} MapRunsPointwise(f: string -> string, g: string -> string, text: string)
    requires forall w :: f(w) == g(w)
    ensures MapRuns(f, text) == MapRuns(g, text)
    decreases |text|
  {
    if text != "" {
      MapRunsPointwise(f, g, text[if IsName(text[0]) then RunLength(text) else 1..]);
    }
  }

  /** A run that is mapped to a word is a run of the result. */
  lemma MappedRun(f: string -> string, text: string)
    requires KeepsWords(f) && RunLength(text) > 0
    ensures var n := RunLength(text);
            var mapped := MapRuns(f, text);
            && RunLength(mapped) == |f(text[..n])| > 0
            && mapped[..RunLength(mapped)] == f(text[..n]) && mapped[RunLength(mapped)..] == MapRuns(f, text[n..])
  {
    var n := RunLength(text);
    var run, rest := f(text[..n]), MapRuns(f, text[n..]);
    assert forall c :: c in text[..n] ==> exists i :: 0 <= i < n && text[i] == c;
    assert IsWord(text[..n]) && IsWord(run);
    assert MapRuns(f, text) == run + rest;
    assert rest != "" ==> rest[0] == text[n] && !IsName(rest[0]);
    assert forall i :: 0 <= i < |run| ==> run[i] in run && (run + rest)[i] == run[i];
    RunLengthIs(run + rest, |run|);
    assert (run + rest)[..|run|] == run && (run + rest)[|run|..] == rest;
  }

  /** Mapping twice is mapping once by both. */
  lemma {:induction false} MapRunsComposes(f: string -> string, g: string -> string, text: string)
    requires KeepsWords(f)
    ensures MapRuns(g, MapRuns(f, text)) == MapRuns(w => g(f(w)), text)
    decreases |text|
  {
    var h := w => g(f(w));
    if text != "" {
      var n := RunLength(text);
      if n == 0 {
        MapRunsComposes(f, g, text[1..]);
        MapRunsPointwise(h, w => g(f(w)), text[1..]);
        assert MapRuns(f, text)[1..] == MapRuns(f, text[1..]);
      } else {
        MapRunsComposes(f, g, text[n..]);
        MapRunsPointwise(h, w => g(f(w)), text[n..]);
        MappedRun(f, text);
      }
      MapRunsPointwise(h, w => g(f(w)), text);
    }
  }

  /** A word no run is mapped to is not a run of the result. */
  lemma {:induction false} MappedAway(f: string -> string, word: string, text: string)
    requires KeepsWords(f) && forall w :: f(w) != word
    ensures !HasRun(word, MapRuns(f, text))
    decreases |text|
  {
    if text != "" {
      var n := RunLength(text);
      if n == 0 {
        MappedAway(f, word, text[1..]);
        assert MapRuns(f, text)[1..] == MapRuns(f, text[1..]);
      } else {
        MappedAway(f, word, text[n..]);
        MappedRun(f, text);
      }
    }
  }

  // ---------------------------------------------------------------- the renaming of one pair

  /** What the script does to one line, or to any text. */
  function RewriteLine(oldName: string, newName: string, line: string): string {
    Substitute(Identifier(oldName), Identifier(newName), Substitute(oldName, newName, line, false), false)
  }

  /** A run is renamed when it is one of the two old spellings. */
  function Renamed(oldName: string, newName: string): string -> string {
    run => if run == oldName then newName else if run == Identifier(oldName) then Identifier(newName) else run
  }

  /** The new spellings are not old ones. */
  ghost predicate Renames(oldName: string, newName: string) {
    && IsWord(oldName) && IsWord(newName)
    && newName != oldName && newName != Identifier(oldName)
    && Identifier(newName) != oldName && Identifier(newName) != Identifier(oldName)
  }

  lemma IdentifierIsWord(name: string)
    requires IsWord(name)
    ensures IsWord(Identifier(name)) && Identifier(name)[0] == if name[0] == '-' then '_' else name[0]
    ensures |Identifier(name)| == |name| && '-' !in Identifier(name)
    ensures forall i ::
              0 <= i < |name| && Identifier(name)[i] != name[i] ==> name[i] == '-' && Identifier(name)[i] == '_'
  {
  }

  lemma ThemesAreWords(i: nat)
    requires i < |THEMES|
    ensures IsWord(THEMES[i].0) && IsWord(THEMES[i].1)
  {
  }

  lemma WordsConcatenate(a: string, b: string)
    requires IsWord(a) && IsWord(b)
    ensures IsWord(a + b) && (a + b)[0] == a[0]
  {
  }

  lemma FirstLettersDiffer(oldName: string, newName: string)
    requires IsWord(oldName) && IsWord(newName) && oldName[0] == 'e' && newName[0] == 'g'
    ensures Renames(oldName, newName)
  {
    IdentifierIsWord(oldName);
    IdentifierIsWord(newName);
  }

  /** Every pair of the table renames: the old names begin with another letter than the new ones. */
  lemma TableRenames(i: nat)
    requires i < |THEMES|
    ensures Renames(TablePair(i).0, TablePair(i).1)
  {
    var (theme, layer) := THEMES[i];
    ThemesAreWords(i);
    assert IsWord(OLD_PREFIX) && IsWord(NEW_PREFIX) && IsWord("-");
    WordsConcatenate(OLD_PREFIX, theme);
    WordsConcatenate(NEW_PREFIX, theme);
    WordsConcatenate(NEW_PREFIX + theme, "-");
    WordsConcatenate(NEW_PREFIX + theme + "-", layer);
    FirstLettersDiffer(TablePair(i).0, TablePair(i).1);
  }

  lemma RenamedKeepsWords(oldName: string, newName: string)
    requires Renames(oldName, newName)
    ensures KeepsWords(Renamed(oldName, newName)) && KeepsWords(Exchange(oldName, newName))
  {
  }

  /** The two substitutions replace every run that is the old name or the old identifier, and change nothing else. */
  lemma RewriteRenamesRuns(oldName: string, newName: string, line: string)
    requires Renames(oldName, newName)
    ensures RewriteLine(oldName, newName, line) == MapRuns(Renamed(oldName, newName), line)
  {
    var f, g := Exchange(oldName, newName), Exchange(Identifier(oldName), Identifier(newName));
    IdentifierIsWord(oldName);
    RenamedKeepsWords(oldName, newName);
    SubstituteMapsRuns(oldName, newName, line);
    SubstituteMapsRuns(Identifier(oldName), Identifier(newName), MapRuns(f, line));
    MapRunsComposes(f, g, line);
    MapRunsPointwise(w => g(f(w)), Renamed(oldName, newName), line);
  }

  /** Renaming again changes nothing. */
  lemma RewriteIsIdempotent(oldName: string, newName: string, line: string)
    requires Renames(oldName, newName)
    ensures RewriteLine(oldName, newName, RewriteLine(oldName, newName, line)) == RewriteLine(oldName, newName, line)
  {
    var f := Renamed(oldName, newName);
    RewriteRenamesRuns(oldName, newName, line);
    RewriteRenamesRuns(oldName, newName, RewriteLine(oldName, newName, line));
    RenamedKeepsWords(oldName, newName);
    MapRunsComposes(f, f, line);
    MapRunsPointwise(w => f(f(w)), f, line);
  }

  /** A line that still names the old crate. */
  predicate IsLeftover(oldName: string, line: string) {
    Search(oldName, line, false) || Search(Identifier(oldName), line, false)
  }

  /** No renamed line still names the old crate. */
  lemma RewriteLeavesNothing(oldName: string, newName: string, line: string)
    requires Renames(oldName, newName)
    ensures !IsLeftover(oldName, RewriteLine(oldName, newName, line))
  {
    var f := Renamed(oldName, newName);
    RewriteRenamesRuns(oldName, newName, line);
    RenamedKeepsWords(oldName, newName);
    IdentifierIsWord(oldName);
    MappedAway(f, oldName, line);
    MappedAway(f, Identifier(oldName), line);
    SearchFindsRuns(oldName, MapRuns(f, line));
    SearchFindsRuns(Identifier(oldName), MapRuns(f, line));
  }

  /** A line is changed exactly when it names the old crate. */
  lemma {:induction false} ChangedIffNamed(f: string -> string, text: string)
    requires KeepsWords(f)
    ensures MapRuns(f, text) != text <==> exists w :: HasRun(w, text) && f(w) != w
    decreases |text|
  {
    if text != "" {
      var n := RunLength(text);
      if n == 0 {
        ChangedIffNamed(f, text[1..]);
        assert text == [text[0]] + text[1..];
        assert MapRuns(f, text)[1..] == MapRuns(f, text[1..]);
        assert forall w :: HasRun(w, text) == HasRun(w, text[1..]);
      } else {
        ChangedIffNamed(f, text[n..]);
        MappedRun(f, text);
        assert text == text[..n] + text[n..];
        assert HasRun(text[..n], text);
        assert forall w :: HasRun(w, text) <==> w == text[..n] || HasRun(w, text[n..]);
        if MapRuns(f, text) == text {
          assert text[..n] == f(text[..n]) && MapRuns(f, text[n..]) == text[n..];
        }
      }
    }
  }

  // ---------------------------------------------------------------- lines

  /** The lines of a text; there is always at least one. */
  function Split(text: string): (lines: seq<string>)
    ensures |lines| >= 1
  {
    if text == "" then [""]
    else var rest := Split(text[1..]); if text[0] == '\n' then [""] + rest else [[text[0]] + rest[0]] + rest[1..]
  }

  function Join(lines: seq<string>): string
    requires |lines| >= 1
  {
    if |lines| == 1 then lines[0] else lines[0] + "\n" + Join(lines[1..])
  }

  ghost predicate NoNewline(line: string) { '\n' !in line }

  lemma JoinPrepends(c: char, lines: seq<string>)
    requires |lines| >= 1
    ensures Join([[c] + lines[0]] + lines[1..]) == [c] + Join(lines)
  {
  }

  lemma {:induction false} SplitJoins(text: string)
    ensures Join(Split(text)) == text && forall line :: line in Split(text) ==> NoNewline(line)
  {
    if text != "" {
      SplitJoins(text[1..]);
      var rest, lines := Split(text[1..]), Split(text);
      assert text == [text[0]] + text[1..];
      if text[0] == '\n' {
        assert lines[1..] == rest;
        assert forall line :: line in lines ==> line == "" || line in rest;
      } else {
        hide Join;
        JoinPrepends(text[0], rest);
        assert rest[0] in rest;
        assert forall line :: line in lines ==> line == [text[0]] + rest[0] || line in rest;
      }
    }
  }

  lemma {:induction false} SplitOfLine(line: string)
    requires NoNewline(line)
    ensures Split(line) == [line]
  {
    if line != "" {
      SplitOfLine(line[1..]);
      assert [line[0]] + line[1..] == line;
    }
  }

  lemma {:induction false} SplitOfFirst(line: string, rest: string)
    requires NoNewline(line)
    ensures Split(line + "\n" + rest) == [line] + Split(rest)
  {
    var text := line + "\n" + rest;
    if line == "" {
      assert text[1..] == rest;
    } else {
      SplitOfFirst(line[1..], rest);
      assert text[1..] == line[1..] + "\n" + rest;
      assert [line[0]] + line[1..] == line;
    }
  }

  lemma {:induction false} JoinSplits(lines: seq<string>)
    requires |lines| >= 1 && forall line :: line in lines ==> NoNewline(line)
    ensures Split(Join(lines)) == lines
  {
    assert lines[0] in lines;
    if |lines| == 1 {
      SplitOfLine(lines[0]);
    } else {
      JoinSplits(lines[1..]);
      SplitOfFirst(lines[0], Join(lines[1..]));
      assert lines == [lines[0]] + lines[1..];
    }
  }

  lemma RunOfFirst(line: string, rest: string)
    requires NoNewline(line) && line != ""
    ensures var text, n := line + "\n" + rest, RunLength(line);
            && RunLength(text) == n && text[..n] == line[..n] && text[0] == line[0]
            && text[1..] == line[1..] + "\n" + rest && text[n..] == line[n..] + "\n" + rest
  {
    hide RunLength;
    var text, n := line + "\n" + rest, RunLength(line);
    assert n < |line| ==> !IsName(line[n]);
    assert text[n] == if n < |line| then line[n] else '\n';
    RunLengthIs(text, n);
  }

  /** A newline ends a run, so mapping the runs of a text is mapping those of its lines. */
  lemma {:induction false} MapRunsOfFirst(f: string -> string, line: string, rest: string)
    requires NoNewline(line)
    ensures MapRuns(f, line + "\n" + rest) == MapRuns(f, line) + "\n" + MapRuns(f, rest)
    decreases |line|
  {
    var text := line + "\n" + rest;
    if line == "" {
      assert text[1..] == rest;
    } else {
      var n := RunLength(line);
      RunOfFirst(line, rest);
      hide RunLength;
      MapRunsOfFirst(f, line[if n == 0 then 1 else n..], rest);
    }
  }

  function MapLines(f: string -> string, lines: seq<string>): seq<string> {
    seq(|lines|, i requires 0 <= i < |lines| => MapRuns(f, lines[i]))
  }

  lemma {:induction false} MapRunsOfLines(f: string -> string, lines: seq<string>)
    requires |lines| >= 1 && forall line :: line in lines ==> NoNewline(line)
    ensures MapRuns(f, Join(lines)) == Join(MapLines(f, lines))
  {
    assert lines[0] in lines;
    if |lines| > 1 {
      MapRunsOfLines(f, lines[1..]);
      MapRunsOfFirst(f, lines[0], Join(lines[1..]));
      assert MapLines(f, lines)[1..] == MapLines(f, lines[1..]);
    }
  }

  lemma {:induction false} MappedLineStaysOne(f: string -> string, line: string)
    requires NoNewline(line) && forall w :: NoNewline(w) ==> NoNewline(f(w))
    ensures NoNewline(MapRuns(f, line))
    decreases |line|
  {
    if line != "" {
      var n := RunLength(line);
      MappedLineStaysOne(f, line[if n == 0 then 1 else n..]);
      assert NoNewline(line[..n]);
    }
  }

  // ---------------------------------------------------------------- the operations

  lemma WordHasNoNewline(word: string)
    requires IsWord(word)
    ensures NoNewline(word)
  {
  }

  lemma RenamedLinesSplit(oldName: string, newName: string, lines: seq<string>)
    requires Renames(oldName, newName) && |lines| >= 1 && forall line :: line in lines ==> NoNewline(line)
    ensures var mapped := MapLines(Renamed(oldName, newName), lines); Split(Join(mapped)) == mapped
  {
    var f := Renamed(oldName, newName);
    IdentifierIsWord(newName);
    WordHasNoNewline(newName);
    WordHasNoNewline(Identifier(newName));
    var mapped := MapLines(f, lines);
    forall i | 0 <= i < |lines| ensures NoNewline(mapped[i]) {
      assert lines[i] in lines;
      MappedLineStaysOne(f, lines[i]);
    }
    JoinSplits(mapped);
  }

  /** `rewrite`: the new text, and the numbers of the lines that changed. */
  method Rewrite(oldName: string, newName: string, text: string) returns (rewritten: string, changed: seq<nat>)
    requires Renames(oldName, newName)
    ensures rewritten == MapRuns(Renamed(oldName, newName), text)
    ensures |Split(rewritten)| == |Split(text)|
    ensures forall n: nat :: n in changed <==>
              1 <= n <= |Split(text)| && Split(rewritten)[n - 1] != Split(text)[n - 1]
    ensures forall i, j :: 0 <= i < j < |changed| ==> changed[i] < changed[j]
  {
    hide MapRuns, Substitute, Split;
    var lines := Split(text);
    var out: seq<string> := [];
    var f := Renamed(oldName, newName);
    SplitJoins(text);
    changed := [];
    for i := 0 to |lines|
      invariant out == MapLines(f, lines[..i])
      invariant forall n: nat :: n in changed <==> 1 <= n <= i && out[n - 1] != lines[n - 1]
      invariant forall k, j :: 0 <= k < j < |changed| ==> changed[k] < changed[j]
    {
      var line := Substitute(oldName, newName, lines[i], false);
      line := Substitute(Identifier(oldName), Identifier(newName), line, false);
      RewriteRenamesRuns(oldName, newName, lines[i]);
      if line != lines[i] {
        assert forall k :: 0 <= k < |changed| ==> changed[k] in changed;
        changed := changed + [i + 1];
      }
      assert lines[..i + 1] == lines[..i] + [lines[i]];
      out := out + [line];
    }
    assert lines[..|lines|] == lines;
    MapRunsOfLines(f, lines);
    RenamedLinesSplit(oldName, newName, lines);
    rewritten := Join(out);
  }

  /** `find_leftovers` on one file: the numbers of the lines that still name the old crate. */
  method FindLeftovers(oldName: string, text: string) returns (left: seq<nat>)
    ensures forall n: nat :: n in left <==> 1 <= n <= |Split(text)| && IsLeftover(oldName, Split(text)[n - 1])
  {
    var lines := Split(text);
    left := [];
    for i := 0 to |lines|
      invariant forall n: nat :: n in left <==> 1 <= n <= i && IsLeftover(oldName, lines[n - 1])
    {
      if Search(oldName, lines[i], false) || Search(Identifier(oldName), lines[i], false) {
        left := left + [i + 1];
      }
    }
  }

  /** After a renaming by a pair of the table, no line of any text is left over. */
  lemma NothingIsLeftOver(pair: nat, text: string, n: nat)
    requires pair < |THEMES|
    requires n < |Split(MapRuns(Renamed(TablePair(pair).0, TablePair(pair).1), text))|
    ensures var (oldName, newName) := TablePair(pair);
            !IsLeftover(oldName, Split(MapRuns(Renamed(oldName, newName), text))[n])
  {
    var (oldName, newName) := TablePair(pair);
    var f, lines := Renamed(oldName, newName), Split(text);
    TableRenames(pair);
    SplitJoins(text);
    MapRunsOfLines(f, lines);
    RenamedLinesSplit(oldName, newName, lines);
    RewriteRenamesRuns(oldName, newName, lines[n]);
    RewriteLeavesNothing(oldName, newName, lines[n]);
  }

  // ---------------------------------------------------------------- runs, by position

  /** `word` stands at `i` with no name character on either side. */
  predicate StandsAt(word: string, text: string, i: nat) {
    && i + |word| <= |text| && text[i..i + |word|] == word
    && (i > 0 ==> !IsName(text[i - 1])) && (i + |word| < |text| ==> !IsName(text[i + |word|]))
  }

  /** Where the first piece of a text ends: its first run, or one character that is in none. */
  function FirstPiece(text: string): (n: nat)
    requires text != ""
    ensures 1 <= n <= |text|
  {
    if IsName(text[0]) then RunLength(text) else 1
  }

  function MapPiece(f: string -> string, piece: string): string { if IsWord(piece) then f(piece) else piece }

  lemma MapRunsStep(f: string -> string, text: string)
    requires text != ""
    ensures var n := FirstPiece(text); MapRuns(f, text) == MapPiece(f, text[..n]) + MapRuns(f, text[n..])
  {
    var n := FirstPiece(text);
    assert forall c :: c in text[..n] ==> exists i :: 0 <= i < n && text[i] == c;
    assert text[..n][0] == text[0] && text[0] in text[..n];
  }

  lemma RunIsWord(word: string, b: string)
    requires IsWord(word) && (b != "" ==> !IsName(b[0]))
    ensures RunLength(word + b) == |word|
  {
    assert forall i :: 0 <= i < |word| ==> word[i] in word;
    RunLengthIs(word + b, |word|);
  }

  lemma StandsAfter(a: string, word: string, b: string, n: nat)
    requires n <= |a| && StandsAt(word, a + word + b, |a|)
    ensures StandsAt(word, a[n..] + word + b, |a[n..]|)
  {
    var text, rest := a + word + b, a[n..] + word + b;
    assert forall k :: n <= k < |text| ==> text[k] == rest[k - n];
    assert rest[|a| - n..|a| - n + |word|] == word;
  }

  /** A run that begins in `a` ends in it, when `a` ends with no name character. */
  lemma RunInside(a: string, b: string)
    requires a != "" && !IsName(a[|a| - 1])
    ensures RunLength(a + b) == RunLength(a) < |a|
  {
    RunLengthIs(a + b, RunLength(a));
  }

  /** The first piece of what comes before a word that stands is the first piece of the whole. */
  lemma PieceInside(a: string, word: string, b: string)
    requires a != "" && StandsAt(word, a + word + b, |a|)
    ensures FirstPiece(a + word + b) == FirstPiece(a)
  {
    assert (a + word + b)[|a| - 1] == a[|a| - 1] && a + word + b == a + (word + b);
    RunInside(a, word + b);
  }

  lemma FourParts(a: string, b: string, c: string, d: string)
    ensures a + (b + c + d) == (a + b) + c + d
  {
  }

  lemma DropOfThree(a: string, word: string, b: string, n: nat)
    requires n <= |a|
    ensures (a + word + b)[n..] == a[n..] + word + b && (a + word + b)[..n] == a[..n]
  {
  }

  /** Replacing runs goes through a text piece by piece: a word that stands between other pieces is replaced, and they
      are gone through on their own. */
  lemma {:induction false} MapRunsAround(f: string -> string, a: string, word: string, b: string)
    requires IsWord(word) && StandsAt(word, a + word + b, |a|)
    ensures MapRuns(f, a + word + b) == MapRuns(f, a) + f(word) + MapRuns(f, b)
    decreases |a|
  {
    var text := a + word + b;
    MapRunsStep(f, text);
    if a == "" {
      RunIsWord(word, b);
      assert text == word + b && text[|word|..] == b && text[..|word|] == word;
      assert text[0] == word[0] && word[0] in word;
      assert MapRuns(f, a) == "";
      hide MapRuns;
    } else {
      var n := FirstPiece(a);
      PieceInside(a, word, b);
      MapRunsStep(f, a);
      hide MapRuns, FirstPiece, StandsAt, MapPiece;
      StandsAfter(a, word, b, n);
      MapRunsAround(f, a[n..], word, b);
      DropOfThree(a, word, b, n);
      FourParts(MapPiece(f, a[..n]), MapRuns(f, a[n..]), f(word), MapRuns(f, b));
    }
  }

  /** A text without name characters is left as it is. */
  lemma {:induction false} NoRunsNoChange(f: string -> string, text: string)
    requires forall c :: c in text ==> !IsName(c)
    ensures MapRuns(f, text) == text
  {
    if text != "" {
      assert text[0] in text;
      NoRunsNoChange(f, text[1..]);
      assert text == [text[0]] + text[1..];
    }
  }

  lemma StandsLater(word: string, text: string, n: nat, i: nat)
    requires IsWord(word) && 1 <= n <= i && n <= |text|
    ensures StandsAt(word, text, i) <==> StandsAt(word, text[n..], i - n) && (i == n ==> !IsName(text[n - 1]))
  {
    var rest := text[n..];
    assert forall k :: n <= k < |text| ==> text[k] == rest[k - n];
    if i + |word| <= |text| {
      assert rest[i - n..i - n + |word|] == text[i..i + |word|];
    }
  }

  lemma StandsFirst(word: string, text: string, i: nat)
    requires IsWord(word) && text != "" && i < FirstPiece(text)
    ensures StandsAt(word, text, i) <==> i == 0 && text[..FirstPiece(text)] == word
  {
    var n := FirstPiece(text);
    assert forall k :: 0 <= k < |word| ==> word[k] in word;
    if StandsAt(word, text, i) {
      assert text[i..i + |word|][0] == text[i] == word[0];
      assert forall k :: i <= k < i + |word| ==> text[k] == text[i..i + |word|][k - i];
      if i == 0 {
        RunLengthIs(text, |word|);
      }
    }
    if i == 0 && text[..n] == word {
      assert text[0] == word[0];
    }
  }

  /** A word that stands in the rest after the first piece stands in the text: if that piece was a run, the rest does
      not begin with a name character. */
  lemma StandsInRest(word: string, text: string, i: nat)
    requires IsWord(word) && text != "" && StandsAt(word, text[FirstPiece(text)..], i)
    ensures StandsAt(word, text, i + FirstPiece(text))
  {
    var n := FirstPiece(text);
    var rest := text[n..];
    assert rest[i..i + |word|][0] == rest[i] == word[0] && word[0] in word;
    assert rest[i] == text[n + i];
    StandsLater(word, text, n, i + n);
  }

  lemma HasRunStep(word: string, text: string)
    requires IsWord(word) && text != ""
    ensures HasRun(word, text) <==> text[..FirstPiece(text)] == word || HasRun(word, text[FirstPiece(text)..])
  {
    assert text[..1][0] == text[0] && text[0] in text[..1];
  }

  /** A word is a run of a text exactly when it stands somewhere in it. */
  lemma {:induction false} HasRunIffStands(word: string, text: string)
    requires IsWord(word)
    ensures HasRun(word, text) <==> exists i: nat :: StandsAt(word, text, i)
    decreases |text|
  {
    if text != "" {
      var n := FirstPiece(text);
      var rest := text[n..];
      HasRunStep(word, text);
      HasRunIffStands(word, rest);
      StandsFirst(word, text, 0);
      hide HasRun, FirstPiece, StandsAt;
      if HasRun(word, rest) {
        var i: nat :| StandsAt(word, rest, i);
        StandsInRest(word, text, i);
      }
      if i: nat :| StandsAt(word, text, i) {
        if i < n {
          StandsFirst(word, text, i);
        } else {
          StandsLater(word, text, n, i);
        }
      }
    }
  }

  /** A line is a leftover exactly when the old name, or the old identifier, stands in it. */
  lemma LeftoversNameTheCrate(oldName: string, line: string)
    requires IsWord(oldName)
    ensures IsLeftover(oldName, line) <==>
              exists i: nat :: StandsAt(oldName, line, i) || StandsAt(Identifier(oldName), line, i)
  {
    IdentifierIsWord(oldName);
    SearchFindsRuns(oldName, line);
    SearchFindsRuns(Identifier(oldName), line);
    HasRunIffStands(oldName, line);
    HasRunIffStands(Identifier(oldName), line);
  }
}
