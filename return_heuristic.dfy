/** The return heuristic: before a script runs, a bare expression on its last meaningful
    line is turned into `return (<expression>);`, so that a script may end the way a REPL
    input does. The rewriter works line by line: it finds the last line that is neither
    blank nor a comment, leaves the script alone if that line already looks like a
    statement, and otherwise wraps the line from its first non-space character on. */
module ReturnHeuristic {
  import opened Text

  // A line passed over when looking for the last expression: blank once trimmed, or
  // starting with a line-comment or block-comment opener once trimmed. Only the first
  // line of a block comment starts with the opener; a closing line is meaningful.
  // Stated on the first non-space character; `SkippableIff` ties it to `trim` and
  // `startsWith`.
  predicate IsSkippable(line: string) {
    var n := LeadingSpaces(line);
    n == |line| || OpensCommentAt(line, n)
  }

  // `//` or `/*` at position `n` of `line`.
  predicate OpensCommentAt(line: string, n: nat) {
    n + 1 < |line| && line[n] == '/' && (line[n + 1] == '/' || line[n + 1] == '*')
  }

  // `trimmed === '' || trimmed.startsWith('//') || trimmed.startsWith('/*')`.
  lemma SkippableIff(line: string)
    ensures IsSkippable(line) <==>
      var t := Trim(line);
      t == [] || StartsWith(t, "//") || StartsWith(t, "/*")
  {
    var t := Trim(line);
    var n := LeadingSpaces(line);
    if |t| >= 2 {
      assert t[..2] == [line[n], line[n + 1]];
    } else if |t| == 1 {
      assert n + 1 < |line| ==> IsSpace(line[n + 1]);
    }
  }

  /** The index of the last line below `n` that is not skippable, or -1 when there is none. */
  function LastMeaningfulBelow(lines: seq<string>, n: nat): (k: int)
    requires n <= |lines|
    ensures -1 <= k < n
    ensures k >= 0 ==> !IsSkippable(lines[k])
    ensures forall j | k < j < n :: IsSkippable(lines[j])
  {
    if n == 0 then -1
    else if !IsSkippable(lines[n - 1]) then n - 1
    else LastMeaningfulBelow(lines, n - 1)
  }

  /** The index of the last line that is not skippable, or -1 when there is none. */
  function LastMeaningful(lines: seq<string>): int {
    LastMeaningfulBelow(lines, |lines|)
  }

  // The guards, one predicate per regular expression or string test of the source.
  // Each is applied to the trimmed last meaningful line.

  /** `/^\s*return\b/` */
  predicate StartsWithReturn(t: string) {
    var u := t[LeadingSpaces(t)..];
    StartsWith(u, "return") && WordBoundary(u, 6)
  }

  const Keywords: seq<string> :=
    ["function", "class", "let", "const", "var", "if", "for", "while", "do", "switch",
     "try", "import", "export"]

  /** The alternative `async\s+function` followed by `\b`. */
  predicate StartsWithAsyncFunction(t: string) {
    StartsWith(t, "async") &&
    var rest := t[5..];
    var n := LeadingSpaces(rest);
    n > 0 && StartsWith(rest[n..], "function") && WordBoundary(rest[n..], 8)
  }

  /** `t` starts with the word `keyword`, followed by `\b`. */
  predicate KeywordAt(t: string, keyword: string) {
    StartsWith(t, keyword) && WordBoundary(t, |keyword|)
  }

  /** `/^(function|class|let|const|var|if|for|while|do|switch|try|import|export|async\s+function)\b/` */
  predicate StartsWithDeclaration(t: string) {
    (exists keyword {:trigger KeywordAt(t, keyword)} | keyword in Keywords :: KeywordAt(t, keyword))
    || StartsWithAsyncFunction(t)
  }

  /** Every character strictly between `a` and `b` is a space. */
  predicate SpacesBetween(t: string, a: int, b: int) {
    forall q | a < q < b && 0 <= q < |t| :: IsSpace(t[q])
  }

  /** No character strictly between `a` and `b` is a line terminator. */
  predicate NoTerminatorBetween(t: string, a: int, b: int) {
    forall q | a < q < b && 0 <= q < |t| :: !IsLineTerminator(t[q])
  }

  /** No character strictly between `a` and `b` is `=`. */
  predicate NoEqualsBetween(t: string, a: int, b: int) {
    forall q | a < q < b && 0 <= q < |t| :: t[q] != '='
  }

  /** `/=\s*\(.*\)\s*=>/` matches with its `=>` at `m`: before it stand an `=`, spaces, `(`,
      a run without line terminators, `)` and spaces. */
  predicate ArrowParenAt(t: string, m: nat) {
    m + 2 <= |t| && t[m] == '=' && t[m + 1] == '>' &&
    exists i, j, k {:trigger SpacesBetween(t, i, j), NoTerminatorBetween(t, j, k)}
      | 0 <= i < j < k < m ::
      && t[i] == '=' && SpacesBetween(t, i, j)
      && t[j] == '(' && NoTerminatorBetween(t, j, k)
      && t[k] == ')' && SpacesBetween(t, k, m)
  }

  /** `/=\s*\(.*\)\s*=>/` matches somewhere in `t`. */
  predicate ArrowParen(t: string) {
    exists m | 0 <= m < |t| :: ArrowParenAt(t, m)
  }

  /** `/=\s*[^=]+=>/` matches with its `=>` at `m`: before it stand an `=` and at least one
      character other than `=`. */
  predicate ArrowAnyAt(t: string, m: nat) {
    m + 2 <= |t| && t[m] == '=' && t[m + 1] == '>' &&
    exists i {:trigger NoEqualsBetween(t, i, m)} | 0 <= i && i + 2 <= m ::
      t[i] == '=' && NoEqualsBetween(t, i, m)
  }

  /** `/=\s*[^=]+=>/` matches somewhere in `t`. */
  predicate ArrowAny(t: string) {
    exists m | 0 <= m < |t| :: ArrowAnyAt(t, m)
  }

  /** The first group of guards: a `return`, a declaration or control-flow keyword,
      a trailing `;` or `}`, or a leading `{`. */
  predicate LooksLikeStatement(t: string) {
    || StartsWithReturn(t)
    || StartsWithDeclaration(t)
    || EndsWith(t, ";")
    || EndsWith(t, "}")
    || StartsWith(t, "{")
  }

  /** The second group of guards: the line looks like an arrow function assigned to a name. */
  predicate LooksLikeArrowFunction(t: string) {
    ArrowParen(t) || ArrowAny(t)
  }

  /** The line is left alone: one of the guards fires. */
  predicate IsStatementLike(t: string) {
    LooksLikeStatement(t) || LooksLikeArrowFunction(t)
  }

  /** `/\S.*$/` matches at `q`: a non-space character and no line terminator after it
      (`.` stops at line terminators and `$` needs the end of the text). */
  predicate MatchesAt(line: string, q: nat) {
    q < |line| && !IsSpace(line[q]) && NoTerminatorBetween(line, q, |line|)
  }

  /** The leftmost position at or after `q` where `/\S.*$/` matches, or -1. */
  function MatchFrom(line: string, q: nat): (r: int)
    requires q <= |line|
    ensures r == -1 || (q <= r && MatchesAt(line, r))
    ensures forall j | q <= j < |line| && (r == -1 || j < r) :: !MatchesAt(line, j)
    decreases |line| - q
  {
    if q == |line| then -1
    else if MatchesAt(line, q) then q
    else MatchFrom(line, q + 1)
  }

  function MatchStart(line: string): int {
    MatchFrom(line, 0)
  }

  /** `line.replace(/\S.*$/, match => `return (${match});`)`: the first match, which runs to
      the end of the line, is wrapped; without a match the line is returned as it is. */
  function WrapReturn(line: string): string {
    var p := MatchStart(line);
    if p < 0 then line else line[..p] + "return (" + line[p..] + ");"
  }

  /** What `addReturnToLastLine` returns, as a function of the script. */
  function AddReturn(code: string): (r: string)
    ensures r != code ==>
      LastMeaningful(Split(code)) >= 0 &&
      !IsStatementLike(Trim(Split(code)[LastMeaningful(Split(code))]))
  {
    var lines := Split(code);
    var k := LastMeaningful(lines);
    if k < 0 || IsStatementLike(Trim(lines[k])) then code
    else Join(lines[k := WrapReturn(lines[k])])
  }

  /** The rewrite changes something: there is a meaningful line, no guard fires on it and
      the regular expression finds a match in it. */
  predicate Fires(code: string) {
    var lines := Split(code);
    var k := LastMeaningful(lines);
    k >= 0 && !IsStatementLike(Trim(lines[k])) && MatchStart(lines[k]) >= 0
  }

  /** The rewriter as the source runs it: split into an array, scan backwards for the last
      meaningful line, test the guards, and assign the wrapped line back into the array. */
  method AddReturnToLastLine(code: string) returns (result: string)
    ensures result == AddReturn(code)
  {
    var parts := Split(code);
    var lines := new string[|parts|](i requires 0 <= i < |parts| => parts[i]);
    var lastExprIndex := -1;
    for i := lines.Length downto 0
      invariant lines[..] == parts
      invariant lastExprIndex == -1
      invariant forall j | i <= j < lines.Length :: IsSkippable(lines[j])
    {
      if IsSkippable(lines[i]) {
        continue;
      }
      lastExprIndex := i;
      break;
    }
    LastMeaningfulUnique(parts, lastExprIndex);

    if lastExprIndex == -1 {
      return code;
    }

    var lastLine := Trim(lines[lastExprIndex]);
    if LooksLikeStatement(lastLine) {
      GuardedUnchanged(code);
      return code;
    }
    if LooksLikeArrowFunction(lastLine) {
      GuardedUnchanged(code);
      return code;
    }
    RewrittenResult(code, lastExprIndex);

    lines[lastExprIndex] := WrapReturn(lines[lastExprIndex]);
    assert lines[..] == parts[lastExprIndex := WrapReturn(parts[lastExprIndex])];
    result := Join(lines[..]);
  }

  /** Past the guards, the result is the script with its last meaningful line wrapped. */
  lemma RewrittenResult(code: string, k: int)
    requires k == LastMeaningful(Split(code)) && k >= 0
    requires !LooksLikeStatement(Trim(Split(code)[k]))
    requires !LooksLikeArrowFunction(Trim(Split(code)[k]))
    ensures AddReturn(code) == Join(Split(code)[k := WrapReturn(Split(code)[k])])
  {
  }

  /** A script whose last meaningful line already reads as a statement is returned as it is. */
  lemma GuardedUnchanged(code: string)
    requires LastMeaningful(Split(code)) >= 0
    requires IsStatementLike(Trim(Split(code)[LastMeaningful(Split(code))]))
    ensures AddReturn(code) == code
  {
  }

  /** A script in which every line is blank or a comment is returned as it is. */
  lemma SkippedOnlyUnchanged(code: string)
    requires forall i | 0 <= i < |Split(code)| :: IsSkippable(Split(code)[i])
    ensures AddReturn(code) == code
  {
  }

  /** Wrapping adds no newline to a line. */
  lemma WrapNoNewline(line: string)
    requires '\n' !in line
    ensures '\n' !in WrapReturn(line)
  {
    var p := MatchStart(line);
    if p >= 0 {
      var w := WrapReturn(line);
      forall i | 0 <= i < |w| ensures w[i] != '\n' {
        if i < p {
          assert w[i] == line[i];
        } else if i < p + 8 {
          assert w[i] == "return ("[i - p];
        } else if i < |line| + 8 {
          assert w[i] == line[i - 8];
        } else {
          assert w[i] == ");"[i - |line| - 8];
        }
      }
    }
  }

  /** The script is returned unchanged exactly when the rewrite does not fire: there is no
      meaningful line, a guard fires on it, or `/\S.*$/` finds no match in it. */
  lemma UnchangedIff(code: string)
    ensures AddReturn(code) == code <==> !Fires(code)
  {
    var lines := Split(code);
    var k := LastMeaningful(lines);
    if k >= 0 && !IsStatementLike(Trim(lines[k])) {
      var line := lines[k];
      JoinSplit(code);
      if MatchStart(line) < 0 {
        assert lines[k := WrapReturn(line)] == lines;
      } else {
        var w := WrapReturn(line);
        WrapNoNewline(line);
        SplitJoin(lines[k := w]);
        assert |w| == |line| + 10;
        assert Split(AddReturn(code))[k] == w;
      }
    }
  }

  /** The rewrite keeps the number of lines and every line but the last meaningful one,
      trailing blank and comment lines included; when it fires, that line becomes the text
      before the match, `return (`, the rest of the line as it was, and `);`. */
  lemma OutputLines(code: string)
    ensures |Split(AddReturn(code))| == |Split(code)|
    ensures forall i | 0 <= i < |Split(code)| && i != LastMeaningful(Split(code)) ::
      Split(AddReturn(code))[i] == Split(code)[i]
    ensures Fires(code) ==>
      var lines := Split(code);
      var k := LastMeaningful(lines);
      var p := MatchStart(lines[k]);
      Split(AddReturn(code))[k] == lines[k][..p] + "return (" + lines[k][p..] + ");"
  {
    UnchangedIff(code);
    if Fires(code) {
      var lines := Split(code);
      var k := LastMeaningful(lines);
      WrapNoNewline(lines[k]);
      SplitJoin(lines[k := WrapReturn(lines[k])]);
    }
  }

  /** On a line without line terminators that is not blank, the match starts at the first
      non-space character: the indentation is kept and the rest of the line, trailing
      spaces included, goes inside `return (...);`. */
  lemma WrapPlainLine(line: string)
    requires forall i | 0 <= i < |line| :: !IsLineTerminator(line[i])
    requires LeadingSpaces(line) < |line|
    ensures MatchStart(line) == LeadingSpaces(line)
    ensures WrapReturn(line) ==
      line[..LeadingSpaces(line)] + "return (" + line[LeadingSpaces(line)..] + ");"
  {
    var f := LeadingSpaces(line);
    assert MatchesAt(line, f);
    var r := MatchStart(line);
    assert r != -1;
    assert r >= 0 ==> !IsSpace(line[r]);
  }

  /** A line that ends with a line terminator, such as the `\r` of a CRLF script, has no
      match for `/\S.*$/` and is not wrapped. */
  lemma WrapTerminatedLine(line: string)
    requires |line| > 0 && IsLineTerminator(line[|line| - 1])
    ensures MatchStart(line) == -1
    ensures WrapReturn(line) == line
  {
  }

  /** A script whose last meaningful line ends with `\r` (CRLF line endings) is returned
      unchanged. */
  lemma CrlfUnchanged(code: string)
    requires LastMeaningful(Split(code)) >= 0
    requires EndsWith(Split(code)[LastMeaningful(Split(code))], "\r")
    ensures AddReturn(code) == code
  {
    var line := Split(code)[LastMeaningful(Split(code))];
    assert line[|line| - 1] == '\r';
    WrapTerminatedLine(line);
    UnchangedIff(code);
  }

  /** A line terminator inside a line moves the match past it: only the part after the
      last terminator is wrapped. */
  lemma WrapAfterInnerTerminator()
    ensures WrapReturn("a\rb") == "a\rreturn (b);"
  {
    var line := "a\rb";
    assert !MatchesAt(line, 0) by { assert IsLineTerminator(line[1]); }
    assert !MatchesAt(line, 1);
    assert MatchesAt(line, 2);
    assert MatchFrom(line, 2) == 2;
    assert MatchFrom(line, 1) == 2;
    assert MatchStart(line) == 2;
    assert line[..2] == "a\r" && line[2..] == "b";
  }

  /** A wrapped meaningful line is still meaningful, and once trimmed it ends with `;`. */
  lemma WrappedLineEndsStatement(line: string)
    requires !IsSkippable(line)
    requires MatchStart(line) >= 0
    ensures !IsSkippable(WrapReturn(line))
    ensures EndsWith(Trim(WrapReturn(line)), ";")
  {
    var p := MatchStart(line);
    var w := WrapReturn(line);
    WrapShape(line);
    TrimEndsWithSemicolon(w);
    if LeadingSpaces(line) == p {
      WrappedAtStart(line, p, w);
    } else {
      var q := InnerTerminator(line, LeadingSpaces(line), p);
      WrappedAfterTerminator(line, p, w);
    }
  }

  /** Where the match is at `p`, the wrapped line keeps the text before `p`, has `r` at `p`
      and ends with `;`. */
  lemma WrapShape(line: string)
    requires MatchStart(line) >= 0
    ensures MatchStart(line) < |line|
    ensures |WrapReturn(line)| == |line| + 10
    ensures WrapReturn(line)[..MatchStart(line)] == line[..MatchStart(line)]
    ensures WrapReturn(line)[MatchStart(line)] == 'r'
    ensures WrapReturn(line)[|line| + 9] == ';'
  {
    var p := MatchStart(line);
    assert MatchesAt(line, p);
  }

  /** When the match starts the trimmed line, the wrapped line trims to `return (...);`. */
  lemma WrappedAtStart(line: string, p: nat, w: string)
    requires p == LeadingSpaces(line) && p < |line| && p < |w|
    requires w[..p] == line[..p] && w[p] == 'r'
    ensures !IsSkippable(w)
  {
    forall i | 0 <= i < p ensures IsSpace(w[i]) {
      assert w[i] == w[..p][i] && line[i] == line[..p][i];
    }
    LeadingSpacesUnique(w, p);
  }

  /** When a line terminator precedes the match, the wrapped line keeps the first two
      non-space characters of the line. */
  lemma WrappedAfterTerminator(line: string, p: nat, w: string)
    requires LeadingSpaces(line) + 1 < p < |line|
    requires p < |w| && w[..p] == line[..p]
    ensures IsSkippable(w) == IsSkippable(line)
  {
    var f := LeadingSpaces(line);
    forall i | 0 <= i < p ensures w[i] == line[i] {
      assert w[i] == w[..p][i] && line[i] == line[..p][i];
    }
    LeadingSpacesUnique(w, f);
  }

  /** A text ending with `;` trims to a non-empty text ending with `;`. */
  lemma TrimEndsWithSemicolon(w: string)
    requires |w| > 0 && w[|w| - 1] == ';'
    ensures Trim(w) != [] && EndsWith(Trim(w), ";")
  {
    assert !IsSpace(w[|w| - 1]);
    assert TrailingSpaces(w) == 0;
    var t := Trim(w);
    assert t[|t| - 1] == w[|w| - 1];
  }

  /** `LeadingSpaces` is pinned down by where the first non-space character is. */
  lemma LeadingSpacesUnique(s: string, n: nat)
    requires n <= |s|
    requires forall i | 0 <= i < n :: IsSpace(s[i])
    requires n < |s| ==> !IsSpace(s[n])
    ensures LeadingSpaces(s) == n
  {
  }

  /** When the first non-space character `f` is left of the match `p`, a line terminator lies
      strictly between them; so `f + 1 < p`. */
  lemma InnerTerminator(line: string, f: nat, p: int) returns (q: nat)
    requires f == LeadingSpaces(line) && 0 <= p == MatchStart(line) && f < p
    ensures f < q < p && IsLineTerminator(line[q])
  {
    assert MatchesAt(line, p);
    assert !MatchesAt(line, f);
    assert !IsSpace(line[f]);
    q :| f < q < |line| && IsLineTerminator(line[q]);
  }

  /** Putting a meaningful line in place of the last meaningful one keeps it the last. */
  lemma LastMeaningfulUpdate(lines: seq<string>, w: string)
    requires LastMeaningful(lines) >= 0
    requires !IsSkippable(w)
    ensures LastMeaningful(lines[LastMeaningful(lines) := w]) == LastMeaningful(lines)
  {
    var k := LastMeaningful(lines);
    var lines' := lines[k := w];
    forall j | k < j < |lines'| ensures IsSkippable(lines'[j]) {
      assert lines'[j] == lines[j];
    }
    LastMeaningfulUnique(lines', k);
  }

  /** The last meaningful line is the one line that is meaningful with only skippable
      lines after it. */
  lemma LastMeaningfulUnique(lines: seq<string>, k: int)
    requires -1 <= k < |lines|
    requires k >= 0 ==> !IsSkippable(lines[k])
    requires forall j | k < j < |lines| :: IsSkippable(lines[j])
    ensures LastMeaningful(lines) == k
  {
  }

  /** Rewriting twice gives the same script as rewriting once: after a rewrite the same line
      is still the last meaningful one, and it now ends with `;`. */
  lemma {:induction false} Idempotent(code: string)
    ensures AddReturn(AddReturn(code)) == AddReturn(code)
  {
    UnchangedIff(code);
    if Fires(code) {
      var lines := Split(code);
      var k := LastMeaningful(lines);
      var w := WrapReturn(lines[k]);
      WrappedLineEndsStatement(lines[k]);
      WrapNoNewline(lines[k]);
      SplitJoin(lines[k := w]);
      LastMeaningfulUpdate(lines, w);
      var out := AddReturn(code);
      assert Split(out) == lines[k := w];
      assert LooksLikeStatement(Trim(w));
      GuardedUnchanged(out);
    }
  }

  /** The last `=` at or after `i` and before `m`. */
  lemma {:induction false} LastEqualsBefore(t: string, i: nat, m: nat) returns (p: nat)
    requires i < m <= |t| && t[i] == '='
    ensures i <= p < m && t[p] == '=' && NoEqualsBetween(t, p, m)
    decreases m - i
  {
    if t[m - 1] == '=' {
      p := m - 1;
    } else {
      p := LastEqualsBefore(t, i, m - 1);
    }
  }

  /** Whatever `/=\s*\(.*\)\s*=>/` matches, `/=\s*[^=]+=>/` matches too: of the two arrow
      guards the first adds nothing. */
  lemma ArrowParenImpliesArrowAny(t: string)
    requires ArrowParen(t)
    ensures ArrowAny(t)
  {
    var m :| 0 <= m < |t| && ArrowParenAt(t, m);
    var i, j, k :| 0 <= i < j < k < m
      && t[i] == '=' && SpacesBetween(t, i, j)
      && t[j] == '(' && NoTerminatorBetween(t, j, k)
      && t[k] == ')' && SpacesBetween(t, k, m);
    var p := LastEqualsBefore(t, i, m);
    assert t[m - 1] != '=' by {
      if m - 1 > k { assert IsSpace(t[m - 1]); }
    }
    assert p + 2 <= m;
    assert ArrowAnyAt(t, m) by {
      assert t[p] == '=' && NoEqualsBetween(t, p, m);
    }
  }

  /** A one-line script that is a bare expression, such as the `input.toUpperCase()` of a
      new notebook, becomes `return (<script>);`. */
  lemma SingleExpressionReturns(code: string)
    requires forall q | 0 <= q < |code| :: !IsLineTerminator(code[q])
    requires 0 < |code| && !IsSpace(code[0])
    requires !IsSkippable(code) && !IsStatementLike(Trim(code))
    ensures AddReturn(code) == "return (" + code + ");"
  {
    assert '\n' !in code by {
      forall q | 0 <= q < |code| ensures code[q] != '\n' {
        assert !IsLineTerminator(code[q]);
      }
    }
    SplitSingle(code);
    LastMeaningfulUnique([code], 0);
    WrapPlainLine(code);
    assert code[..0] == "" && code[0..] == code;
  }

  /** The script a new notebook holds. */
  const DefaultScript: string := "input.toUpperCase()"

  /** Each character of the default script is a word character, `.`, `(` or `)`. */
  lemma DefaultScriptCharacters()
    ensures forall q | 0 <= q < |DefaultScript| ::
      IsWordChar(DefaultScript[q]) || DefaultScript[q] in ".()"
  {
  }

  /** The default script is one line, neither blank nor a comment, and trims to itself. */
  lemma DefaultScriptLine()
    ensures forall q | 0 <= q < |DefaultScript| :: !IsLineTerminator(DefaultScript[q])
    ensures forall q | 0 <= q < |DefaultScript| :: DefaultScript[q] != '='
    ensures !IsSpace(DefaultScript[0]) && !IsSkippable(DefaultScript)
    ensures Trim(DefaultScript) == DefaultScript
  {
    var c := DefaultScript;
    DefaultScriptCharacters();
    LeadingSpacesUnique(c, 0);
    assert !IsSpace(c[|c| - 1]);
    assert TrailingSpaces(c) == 0;
  }

  /** A text starting with `in` starts with none of the keywords of the declaration guard. */
  lemma NoKeywordAfterIn(c: string)
    requires |c| >= 2 && c[0] == 'i' && c[1] == 'n'
    ensures !StartsWithDeclaration(c)
  {
    forall keyword | keyword in Keywords ensures !StartsWith(c, keyword) {
      if |keyword| <= |c| {
        assert c[..|keyword|][0] == c[0] && c[..|keyword|][1] == c[1];
      }
    }
    assert !StartsWith(c, "async") by {
      if |c| >= 5 { assert c[..5][0] == c[0]; }
    }
  }

  /** A text without `=` matches neither arrow pattern. */
  lemma NoArrowWithoutEquals(c: string)
    requires forall q | 0 <= q < |c| :: c[q] != '='
    ensures !LooksLikeArrowFunction(c)
  {
  }

  /** A text that starts with `in`, ends with `)` and holds no `=` fires no guard. */
  lemma BareCallNotStatement(c: string)
    requires |c| >= 6 && c[0] == 'i' && c[1] == 'n' && c[|c| - 1] == ')'
    requires LeadingSpaces(c) == 0
    requires forall q | 0 <= q < |c| :: c[q] != '='
    ensures !IsStatementLike(c)
  {
    NoKeywordAfterIn(c);
    NoArrowWithoutEquals(c);
    assert !StartsWithReturn(c) by {
      assert c[0..] == c;
      assert c[..6][0] == c[0];
    }
    assert c[|c| - 1..][0] == c[|c| - 1];
    assert c[..1][0] == c[0];
  }

  /** No guard fires on the default script: it starts with `in`, which begins no keyword of
      the pattern, ends with `)`, and holds no `=`. */
  lemma DefaultScriptNotStatement()
    ensures !IsStatementLike(DefaultScript)
  {
    var c := DefaultScript;
    DefaultScriptCharacters();
    assert forall q | 0 <= q < |c| :: c[q] != '=';
    LeadingSpacesUnique(c, 0);
    BareCallNotStatement(c);
  }

  /** A new notebook's script `input.toUpperCase()` is run as `return (input.toUpperCase());`. */
  lemma DefaultScriptReturns()
    ensures AddReturn(DefaultScript) == "return (" + DefaultScript + ");"
  {
    DefaultScriptLine();
    DefaultScriptNotStatement();
    SingleExpressionReturns(DefaultScript);
  }

  /** A line that starts and ends with a non-space character other than a leading `/` is
      meaningful and trims to itself. */
  lemma TrimmedMeaningful(c: string)
    requires |c| > 0 && !IsSpace(c[0]) && !IsSpace(c[|c| - 1]) && c[0] != '/'
    ensures !IsSkippable(c) && Trim(c) == c
  {
    LeadingSpacesUnique(c, 0);
    assert TrailingSpaces(c) == 0;
  }

  /** A declaration ending in `;`. */
  const Declaration: string := "const x = 1;"

  /** A one-line script on which a guard fires is left as it is. */
  lemma OneLineGuarded(c: string)
    requires '\n' !in c
    requires |c| > 0 && !IsSpace(c[0]) && !IsSpace(c[|c| - 1])
    requires IsStatementLike(c)
    ensures AddReturn(c) == c
  {
    SplitSingle(c);
    LeadingSpacesUnique(c, 0);
    assert TrailingSpaces(c) == 0;
    assert Trim(c) == c;
    if IsSkippable(c) {
      SkippedOnlyUnchanged(c);
    } else {
      LastMeaningfulUnique([c], 0);
      GuardedUnchanged(c);
    }
  }

  /** A declaration ending in `;` is left as it is: `const x = 1;` is not rewritten. */
  lemma DeclarationUnchanged()
    ensures AddReturn(Declaration) == Declaration
  {
    var c := Declaration;
    assert '\n' !in c;
    assert EndsWith(c, ";");
    OneLineGuarded(c);
  }

  /** A block over three lines, the last of them `}`. */
  const Block: string := "if (x) {\n  y();\n}"

  /** The block splits into its three lines. */
  lemma BlockLines()
    ensures Split(Block) == ["if (x) {", "  y();", "}"]
  {
    var a, b, c := "if (x) {", "  y();", "}";
    assert Block == a + "\n" + (b + "\n" + c);
    assert '\n' !in a && '\n' !in b && '\n' !in c;
    SplitSingle(c);
    SplitAfterLine(b, c);
    SplitAfterLine(a, b + "\n" + c);
  }

  /** A block whose last line is `}` is left as it is. */
  lemma BlockUnchanged()
    ensures AddReturn(Block) == Block
  {
    BlockLines();
    var lines := Split(Block);
    TrimmedMeaningful(lines[2]);
    LastMeaningfulUnique(lines, 2);
    assert EndsWith(Trim(lines[2]), "}");
    GuardedUnchanged(Block);
  }
}
