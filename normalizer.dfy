/** `clean_text_file` of textEmbedding.py and App.py on the contents of the
    file: skip the first lines (App.py only), delete the citation markers
    `[digits]`, drop the blank lines and join the others with single line
    breaks. */
module Normalizer {
  import opened Wrappers
  import opened PyStr

  /** The characters `\d` accepts here: the ASCII digits. */
  predicate IsDigit(c: char)
  {
    '0' <= c <= '9'
  }

  /** `m` is a whole citation marker: `[`, one or more digits, `]`. */
  predicate IsMarker(m: string)
  {
    && |m| >= 3
    && m[0] == '['
    && m[|m| - 1] == ']'
    && forall i :: 1 <= i < |m| - 1 ==> IsDigit(m[i])
  }

  /** A marker starts at index `p` of `s`, `len` characters long. */
  predicate MarkerAt(s: string, p: nat, len: nat)
  {
    p + len <= |s| && IsMarker(s[p..p + len])
  }

  /** The number of digits `s` starts with. */
  function DigitRun(s: string): (n: nat)
    ensures n <= |s|
    ensures forall i :: 0 <= i < n ==> IsDigit(s[i])
    ensures n < |s| ==> !IsDigit(s[n])
  {
    if s != [] && IsDigit(s[0]) then 1 + DigitRun(s[1..]) else 0
  }

  /** The length of the marker `s` starts with, as `re.match(r'\[\d+\]', s)`
      finds it, if any. */
  function MarkerLength(s: string): Option<nat>
  {
    if s == [] || s[0] != '[' then None
    else
      var n := DigitRun(s[1..]);
      if n >= 1 && 1 + n < |s| && s[1 + n] == ']' then Some(n + 2) else None
  }

  /** `MarkerLength` finds the marker `s` starts with, and there is at most
      one. */
  lemma MarkerLengthSpec(s: string, len: nat)
    ensures MarkerLength(s) == Some(len) <==> MarkerAt(s, 0, len)
  {
    if MarkerLength(s) == Some(len) {
      var t := s[0..len];
      var n := DigitRun(s[1..]);
      assert len == n + 2;
      forall i | 1 <= i < |t| - 1
        ensures IsDigit(t[i])
      {
        assert t[i] == s[1..][i - 1];
      }
    }
    if MarkerAt(s, 0, len) {
      var t := s[0..len];
      var n := DigitRun(s[1..]);
      assert n == len - 2;
      assert s[1 + n] == t[len - 1];
    }
  }

  /** `re.sub(r'\[\d+\]', '', s)`: scanning left to right, every marker found
      at the scanning point is deleted and scanning resumes after it; every
      other character is kept. */
  function RemoveMarkers(s: string): (r: string)
    ensures |r| <= |s|
    decreases |s|
  {
    if s == [] then []
    else match MarkerLength(s)
      case Some(len) => RemoveMarkers(s[len..])
      case None => [s[0]] + RemoveMarkers(s[1..])
  }

  /** Text without `[` is left as it is. */
  lemma {:induction false} RemoveMarkersNoBracket(s: string)
    requires '[' !in s
    ensures RemoveMarkers(s) == s
    decreases |s|
  {
    if s != [] {
      assert s[0] != '[';
      RemoveMarkersNoBracket(s[1..]);
      assert s == [s[0]] + s[1..];
    }
  }

  /** A prefix without `[` is kept as it is. */
  lemma {:induction false} RemoveMarkersKeepsPrefix(x: string, y: string)
    requires '[' !in x
    ensures RemoveMarkers(x + y) == x + RemoveMarkers(y)
    decreases |x|
  {
    if x != [] {
      assert (x + y)[0] == x[0];
      assert (x + y)[1..] == x[1..] + y;
      RemoveMarkersKeepsPrefix(x[1..], y);
      assert x == [x[0]] + x[1..];
    } else {
      assert x + y == y;
    }
  }

  /** A marker at the scanning point is deleted. */
  lemma RemoveMarkersDropsMarker(m: string, y: string)
    requires IsMarker(m)
    ensures RemoveMarkers(m + y) == RemoveMarkers(y)
  {
    var s := m + y;
    assert s[0..|m|] == m;
    MarkerLengthSpec(s, |m|);
    assert s[|m|..] == y;
  }

  /** A text that is one marker disappears. */
  lemma RemoveMarkersDropsWhole(m: string)
    requires IsMarker(m)
    ensures RemoveMarkers(m) == ""
  {
    RemoveMarkersDropsMarker(m, "");
    assert m + "" == m;
  }

  /** For example, `"abc[12]def[3]"` becomes `"abcdef"`. */
  lemma RemoveMarkersExample()
    ensures RemoveMarkers("abc[12]def[3]") == "abcdef"
  {
    var tail := "def" + "[3]";
    assert "abc" + ("[12]" + tail) == "abc[12]def[3]";
    assert "abc" + "def" == "abcdef";
    assert IsMarker("[12]") && IsMarker("[3]");
    RemoveMarkersDropsWhole("[3]");
    RemoveMarkersKeepsPrefix("def", "[3]");
    assert RemoveMarkers(tail) == "def";
    RemoveMarkersDropsMarker("[12]", tail);
    RemoveMarkersKeepsPrefix("abc", "[12]" + tail);
  }

  /** Deleting the inner marker of `"[[1]2]"` leaves the marker `"[2]"`. */
  lemma RemoveMarkersNested()
    ensures RemoveMarkers("[[1]2]") == "[2]"
  {
    assert "[[1]2]"[1..] == "[1]" + "2]";
    assert IsMarker("[1]");
    assert MarkerLength("[[1]2]") == None;
    RemoveMarkersDropsMarker("[1]", "2]");
    RemoveMarkersNoBracket("2]");
  }

  /** Deleting can bring the pieces of a new marker together, so one pass does
      not remove every marker, and a second pass can change the text again:
      `"[[1]2]"` becomes `"[2]"`, which becomes `""`. */
  lemma RemoveMarkersNotIdempotent()
    ensures RemoveMarkers("[[1]2]") == "[2]"
    ensures RemoveMarkers(RemoveMarkers("[[1]2]")) == ""
  {
    RemoveMarkersNested();
    assert IsMarker("[2]");
    RemoveMarkersDropsWhole("[2]");
  }

  /** A marker somewhere in the text always costs it characters. */
  lemma {:induction false} RemoveMarkersShrinks(s: string, p: nat, len: nat)
    requires MarkerAt(s, p, len)
    ensures |RemoveMarkers(s)| < |s|
    decreases |s|
  {
    match MarkerLength(s)
    case Some(l) =>
      MarkerLengthSpec(s, l);
    case None =>
      if p == 0 {
        MarkerLengthSpec(s, len);
      } else {
        assert s[1..][p - 1..p - 1 + len] == s[p..p + len];
        RemoveMarkersShrinks(s[1..], p - 1, len);
      }
  }

  /** Text in which no marker starts at the scanning point is kept. */
  lemma {:induction false} RemoveMarkersKeepsUnmarked(s: string)
    requires forall p: nat, len: nat :: !MarkerAt(s, p, len)
    ensures RemoveMarkers(s) == s
    decreases |s|
  {
    if s != [] {
      if MarkerLength(s).Some? {
        MarkerLengthSpec(s, MarkerLength(s).value);
      }
      forall p: nat, len: nat
        ensures !MarkerAt(s[1..], p, len)
      {
        assert MarkerAt(s[1..], p, len) ==> MarkerAt(s, p + 1, len) by {
          if p + len <= |s| - 1 {
            assert s[1..][p..p + len] == s[p + 1..p + 1 + len];
          }
        }
      }
      RemoveMarkersKeepsUnmarked(s[1..]);
      assert s == [s[0]] + s[1..];
    }
  }

  /** Marker removal changes the text exactly when a marker occurs in it. */
  lemma RemoveMarkersUnchanged(s: string)
    ensures RemoveMarkers(s) == s <==> forall p: nat, len: nat :: !MarkerAt(s, p, len)
  {
    if forall p: nat, len: nat :: !MarkerAt(s, p, len) {
      RemoveMarkersKeepsUnmarked(s);
    } else {
      var p: nat, len: nat :| MarkerAt(s, p, len);
      RemoveMarkersShrinks(s, p, len);
    }
  }

  /** `[line for line in lines if line.strip()]`. */
  function KeepNonBlank(lines: seq<string>): (kept: seq<string>)
    ensures |kept| <= |lines|
  {
    if lines == [] then []
    else (if IsBlank(lines[0]) then [] else [lines[0]]) + KeepNonBlank(lines[1..])
  }

  /** The kept lines are the lines that are not blank, in order: each comes
      from the input, none is blank, and every line left out is blank. */
  lemma {:induction false} KeepNonBlankSpec(lines: seq<string>)
    ensures forall x :: x in KeepNonBlank(lines) ==> x in lines && !IsBlank(x)
    ensures forall x :: x in lines && !IsBlank(x) ==> x in KeepNonBlank(lines)
    ensures KeepNonBlank(lines) == [] <==> forall x :: x in lines ==> IsBlank(x)
  {
    if lines != [] {
      KeepNonBlankSpec(lines[1..]);
      assert lines == [lines[0]] + lines[1..];
    }
  }

  /** The non-blank lines of the text after marker removal. */
  function CleanedLines(contents: string): seq<string>
  {
    KeepNonBlank(Split(RemoveMarkers(contents), "\n"))
  }

  /** `clean_text_file` of textEmbedding.py on the contents of the file: the
      cleaned lines joined by line breaks. */
  function CleanText(contents: string): string
  {
    Join("\n", CleanedLines(contents))
  }

  /** A piece of a split on the line break holds no line break. */
  lemma LinesHoldNoBreak(s: string)
    ensures forall x :: x in Split(s, "\n") ==> '\n' !in x
  {
    SplitPiecesFree(s, "\n");
    forall x | x in Split(s, "\n")
      ensures '\n' !in x
    {
      FindFirst(x, "\n");
      if '\n' in x {
        var k :| 0 <= k < |x| && x[k] == '\n';
        OccursAtChar(x, '\n', k);
      }
    }
  }

  /** The non-blank lines are non-empty and hold no line break. */
  lemma CleanedLinesShape(contents: string)
    ensures forall x :: x in CleanedLines(contents) ==> x != "" && '\n' !in x && !IsBlank(x)
  {
    var lines := Split(RemoveMarkers(contents), "\n");
    KeepNonBlankSpec(lines);
    LinesHoldNoBreak(RemoveMarkers(contents));
  }

  /** The lines of the cleaned text are exactly the non-blank lines of the
      text after marker removal, in order; the text is empty exactly when
      every line is blank. */
  lemma CleanTextLines(contents: string)
    ensures CleanText(contents) == "" <==> CleanedLines(contents) == []
    ensures CleanedLines(contents) != [] ==> Split(CleanText(contents), "\n") == CleanedLines(contents)
    ensures CleanedLines(contents) == [] <==> forall x :: x in Split(RemoveMarkers(contents), "\n") ==> IsBlank(x)
  {
    var kept := CleanedLines(contents);
    CleanedLinesShape(contents);
    KeepNonBlankSpec(Split(RemoveMarkers(contents), "\n"));
    if kept != [] {
      SplitJoinChar('\n', kept);
      JoinNonEmpty('\n', kept);
    }
  }

  /** Joining non-empty pieces gives a non-empty text. */
  lemma JoinNonEmpty(c: char, parts: seq<string>)
    requires |parts| >= 1 && parts[0] != ""
    ensures Join([c], parts) != ""
  {
    if |parts| > 1 {
      assert Join([c], parts)[0] == parts[0][0];
    }
  }

  /** Joining non-empty pieces free of `c` with `c` gives a text that neither
      starts nor ends with `c` and never holds `c` twice in a row. */
  lemma {:induction false} JoinNoDouble(c: char, parts: seq<string>)
    requires |parts| >= 1
    requires forall k :: 0 <= k < |parts| ==> parts[k] != "" && c !in parts[k]
    ensures var j := Join([c], parts);
      && j != ""
      && j[0] != c
      && j[|j| - 1] != c
      && forall i :: 0 <= i < |j| - 1 ==> !(j[i] == c && j[i + 1] == c)
    decreases |parts|
  {
    var p := parts[0];
    assert p[0] in p && p[|p| - 1] in p;
    if |parts| > 1 {
      var rest := Join([c], parts[1..]);
      JoinNoDouble(c, parts[1..]);
      var j := p + [c] + rest;
      assert Join([c], parts) == j;
      assert j[0] == p[0];
      assert j[|j| - 1] == rest[|rest| - 1];
      forall i | 0 <= i < |j| - 1
        ensures !(j[i] == c && j[i + 1] == c)
      {
        if i < |p| - 1 {
          assert j[i] == p[i] && p[i] in p;
        } else if i == |p| - 1 {
          assert j[i] == p[i] && p[i] in p;
        } else if i == |p| {
          assert j[i + 1] == rest[0];
        } else {
          assert j[i] == rest[i - |p| - 1] && j[i + 1] == rest[i - |p|];
        }
      }
    }
  }

  /** The cleaned text has no blank line, no empty line (no two line breaks in
      a row) and no line break at either end. */
  lemma CleanTextShape(contents: string)
    ensures var t := CleanText(contents);
      && (forall x :: x in Split(t, "\n") && t != "" ==> !IsBlank(x))
      && (t != "" ==> t[0] != '\n' && t[|t| - 1] != '\n')
      && forall i :: 0 <= i < |t| - 1 ==> !(t[i] == '\n' && t[i + 1] == '\n')
  {
    var kept := CleanedLines(contents);
    CleanTextLines(contents);
    CleanedLinesShape(contents);
    if kept != [] {
      forall k | 0 <= k < |kept|
        ensures kept[k] != "" && '\n' !in kept[k]
      {
        assert kept[k] in kept;
      }
      JoinNoDouble('\n', kept);
    }
  }

  /** Why `next(f)` can fail: the file has no line left. */
  datatype ReadError = StopIteration

  /** The lines a text file yields when iterated over: each ends with its line
      break, except a last line without one. */
  function FileLines(contents: string): (lines: seq<string>)
    decreases |contents|
  {
    if contents == [] then []
    else match Find(contents, "\n")
      case None => [contents]
      case Some(k) => [contents[..k + 1]] + FileLines(contents[k + 1..])
  }

  function Concat(parts: seq<string>): string
  {
    if parts == [] then [] else parts[0] + Concat(parts[1..])
  }

  lemma {:induction false} ConcatFileLines(contents: string)
    ensures Concat(FileLines(contents)) == contents
    decreases |contents|
  {
    if contents != [] {
      match Find(contents, "\n")
      case None =>
        assert FileLines(contents) == [contents];
        assert Concat([contents]) == contents + Concat([]);
      case Some(k) =>
        var line, rest := contents[..k + 1], contents[k + 1..];
        ConcatFileLines(rest);
        var lines := FileLines(contents);
        assert lines == [line] + FileLines(rest);
        assert lines[0] == line && lines[1..] == FileLines(rest);
        assert Concat(lines) == line + Concat(FileLines(rest));
        assert contents == line + rest;
    }
  }

  /** What is left of the file after `next(f)`, or the failure when nothing
      is left. */
  function NextLine(contents: string): (r: Result<string, ReadError>)
    ensures r.Ok? ==> |r.value| < |contents|
  {
    if contents == [] then Err(StopIteration)
    else match Find(contents, "\n")
      case None => Ok([])
      case Some(k) => Ok(contents[k + 1..])
  }

  /** `for _ in range(skip_lines): next(f)`, then `f.read()`. */
  function SkipLines(contents: string, skipLines: nat): Result<string, ReadError>
    decreases skipLines
  {
    if skipLines == 0 then Ok(contents)
    else match NextLine(contents)
      case Err(e) => Err(e)
      case Ok(rest) => SkipLines(rest, skipLines - 1)
  }

  /** Skipping `n` lines succeeds exactly when the file has `n` lines or more,
      and leaves the lines after the first `n`. */
  lemma {:induction false} SkipLinesSpec(contents: string, n: nat)
    ensures SkipLines(contents, n).Ok? <==> n <= |FileLines(contents)|
    ensures SkipLines(contents, n).Ok? ==> SkipLines(contents, n).value == Concat(FileLines(contents)[n..])
    ensures SkipLines(contents, n).Err? ==> SkipLines(contents, n).error == StopIteration
    decreases n
  {
    if n == 0 {
      ConcatFileLines(contents);
      assert FileLines(contents)[0..] == FileLines(contents);
    } else if contents != [] {
      var rest := NextLine(contents).value;
      assert FileLines(contents)[1..] == FileLines(rest);
      SkipLinesSpec(rest, n - 1);
      if n <= |FileLines(contents)| {
        assert FileLines(contents)[n..] == FileLines(rest)[n - 1..];
      }
    }
  }

  /** `clean_text_file(file, skip_lines)` of App.py on the contents of the
      file. */
  function CleanTextFile(contents: string, skipLines: nat): Result<string, ReadError>
  {
    match SkipLines(contents, skipLines)
    case Err(e) => Err(e)
    case Ok(rest) => Ok(CleanText(rest))
  }

  /** App.py's `clean_text_file` fails exactly when the file has fewer lines
      than it skips, and otherwise cleans what follows them. */
  lemma CleanTextFileSpec(contents: string, skipLines: nat)
    ensures CleanTextFile(contents, skipLines).Ok? <==> skipLines <= |FileLines(contents)|
    ensures CleanTextFile(contents, skipLines).Ok? ==>
      CleanTextFile(contents, skipLines).value == CleanText(Concat(FileLines(contents)[skipLines..]))
    ensures CleanTextFile(contents, skipLines).Err? ==> CleanTextFile(contents, skipLines).error == StopIteration
  {
    SkipLinesSpec(contents, skipLines);
  }

  /** Without skipping, App.py's `clean_text_file` is that of
      textEmbedding.py. */
  lemma CleanTextFileNoSkip(contents: string)
    ensures CleanTextFile(contents, 0) == Ok(CleanText(contents))
  {
  }
}
