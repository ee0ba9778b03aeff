/** The context-block formatter and the exit-command check of the question loop
    (main.py). Each retrieved document is represented by its page content. */
module Prompt {
  import opened Text

  /** What the model is told when retrieval found nothing. */
  const NoMatchSentinel: string := "No matching reviews were found for this question."

  /** Longest normalised content kept whole in a line. */
  const SnippetLimit: nat := 400

  /** Default bound on the joined block. */
  const DefaultMaxChars: int := 1800

  const Ellipsis: string := "…"

  /** Appended to a block cut off at the bound; 14 characters long. */
  const TruncationMarker: string := "\n… (truncated)"

  /** The words that end the question loop, in lower case. */
  const ExitWords: set<string> := {"q", "quit", "exit"}

  /** Content with surrounding whitespace stripped and newlines turned into spaces. */
  function Normalize(content: string): string {
    ReplaceNewlines(Strip(content))
  }

  /** The excerpt of one document that goes into its line. */
  function Snippet(content: string): string {
    var n := Normalize(content);
    if |n| > SnippetLimit then RStrip(n[..SnippetLimit]) + Ellipsis else n
  }

  /** Normalised content holds no newline and has no whitespace at either end. */
  lemma NormalizeShape(content: string)
    ensures '\n' !in Normalize(content) && NoEdgeSpace(Normalize(content))
  {
    StripHasNoEdgeSpace(content);
    ReplaceNewlinesFacts(Strip(content));
    ReplaceNewlinesKeepsEdges(Strip(content));
  }

  /** A snippet holds no newline. */
  lemma SnippetHasNoNewline(content: string)
    ensures '\n' !in Snippet(content)
  {
    NormalizeShape(content);
    var n := Normalize(content);
    if |n| > SnippetLimit {
      var t := n[..SnippetLimit];
      RStripFacts(t);
      var body := RStrip(t);
      assert forall k :: 0 <= k < |body| ==> body[k] == n[k];
      assert '\n' !in body;
    }
  }

  /** A snippet has no whitespace at either end. */
  lemma SnippetHasNoEdgeSpace(content: string)
    ensures NoEdgeSpace(Snippet(content))
  {
    NormalizeShape(content);
    var n := Normalize(content);
    if |n| > SnippetLimit {
      var t := n[..SnippetLimit];
      RStripFacts(t);
      var body := RStrip(t);
      assert |body| > 0;
      assert body[0] == n[0];
      var s := body + Ellipsis;
      assert s[0] == n[0] && s[|s| - 1] == '…';
    }
  }

  /** Normalised content of at most 400 characters is the snippet, unchanged. */
  lemma ShortSnippetIsWhole(content: string)
    requires |Normalize(content)| <= SnippetLimit
    ensures Snippet(content) == Normalize(content)
  {
  }

  /** Longer content is cut at 400 characters: the snippet is those characters
      without their trailing whitespace, followed by the ellipsis. It is 401
      characters long unless the 400th character is whitespace. */
  lemma LongSnippetIsCut(content: string)
    requires |Normalize(content)| > SnippetLimit
    ensures var s := Snippet(content);
      var n := Normalize(content);
      2 <= |s| <= SnippetLimit + 1 && EndsWith(s, Ellipsis)
      && IsPrefix(s[..|s| - 1], n[..SnippetLimit])
      && SpaceBetween(n, |s| - 1, SnippetLimit)
      && !IsSpace(s[|s| - 2])
      && (!IsSpace(n[SnippetLimit - 1]) ==> |s| == SnippetLimit + 1)
  {
    var n := Normalize(content);
    var t := n[..SnippetLimit];
    NormalizeShape(content);
    assert !IsSpace(t[0]);
    RStripFacts(t);
    var body := RStrip(t);
    var s := body + Ellipsis;
    assert s[..|s| - 1] == body;
    assert s[|s| - 1..] == Ellipsis;
    forall k | |body| <= k < SnippetLimit ensures IsSpace(n[k]) {
      assert n[k] == t[k];
    }
    if |body| > 0 {
      assert s[|s| - 2] == body[|body| - 1];
    }
    if !IsSpace(n[SnippetLimit - 1]) {
      assert t[SnippetLimit - 1] == n[SnippetLimit - 1];
    }
  }

  /** The line that shows document number `idx` (counted from 1). */
  function ReviewLine(idx: nat, snippet: string): string {
    ReviewPrefix(idx) + snippet
  }

  function ReviewPrefix(idx: nat): string {
    "- Review #" + NatToString(idx) + ": "
  }

  lemma ReviewLineHasNoNewline(idx: nat, snippet: string)
    requires '\n' !in snippet
    ensures '\n' !in ReviewLine(idx, snippet)
  {
    var line := ReviewLine(idx, snippet);
    var p := ReviewPrefix(idx);
    var d := NatToString(idx);
    assert p == "- Review #" + d + ": ";
    forall k | 0 <= k < |line| ensures line[k] != '\n' {
      if k < 10 {
      } else if k < 10 + |d| {
        assert line[k] == d[k - 10];
      } else if k < |p| {
      } else {
        assert line[k] == snippet[k - |p|];
      }
    }
  }

  /** One line per document, in input order. */
  function Lines(docs: seq<string>): (lines: seq<string>)
    ensures |lines| == |docs|
  {
    seq(|docs|, k requires 0 <= k < |docs| => ReviewLine(k + 1, Snippet(docs[k])))
  }

  /** The hard cut-off at `maxChars`, with Python's slice semantics for `joined[:maxChars]`. */
  function Cutoff(joined: string, maxChars: int): string {
    if |joined| > maxChars then RStrip(PySliceTo(joined, maxChars)) + TruncationMarker
    else joined
  }

  /** What the formatter returns for `docs` and `maxChars`. */
  function FormatContext(docs: seq<string>, maxChars: int): string {
    if |docs| == 0 then NoMatchSentinel else Cutoff(JoinLines(Lines(docs)), maxChars)
  }

  /** The `enumerate` loop: one numbered snippet line per document, in order. */
  method BuildLines(docs: seq<string>) returns (lines: seq<string>)
    ensures lines == Lines(docs)
  {
    lines := [];
    for idx := 1 to |docs| + 1
      invariant |lines| == idx - 1
      invariant forall k :: 0 <= k < idx - 1 ==> lines[k] == ReviewLine(k + 1, Snippet(docs[k]))
    {
      var content := docs[idx - 1];
      var snippet := ReplaceNewlines(Strip(content));
      if |snippet| > SnippetLimit {
        snippet := RStrip(snippet[..SnippetLimit]) + Ellipsis;
      }
      assert snippet == Snippet(docs[idx - 1]);
      lines := lines + [ReviewLine(idx, snippet)];
    }
  }

  /** Builds the context block: numbered snippet lines joined by newlines, cut
      off at `maxChars` with a truncation marker. */
  method FormatReviewsForPrompt(docs: seq<string>, maxChars: int) returns (block: string)
    ensures block == FormatContext(docs, maxChars)
    ensures docs == [] <==> block == NoMatchSentinel
  {
    if |docs| == 0 {
      return NoMatchSentinel;
    }
    var lines := BuildLines(docs);
    var joined := JoinLines(lines);
    if |joined| > maxChars {
      joined := RStrip(PySliceTo(joined, maxChars)) + TruncationMarker;
    }
    block := joined;
    SentinelIsNotAReviewBlock(docs, maxChars);
  }

  /** With no documents the block is the sentinel. */
  lemma EmptyGivesSentinel(maxChars: int)
    ensures FormatContext([], maxChars) == NoMatchSentinel
  {
  }

  /** A block that fits is returned as joined, and splitting it at newlines gives
      exactly one line per document, in order, line `i` starting with `- Review #i: `. */
  lemma FittingBlockLines(docs: seq<string>, maxChars: int)
    requires docs != []
    requires |JoinLines(Lines(docs))| <= maxChars
    ensures FormatContext(docs, maxChars) == JoinLines(Lines(docs))
    ensures SplitLines(FormatContext(docs, maxChars)) == Lines(docs)
    ensures |SplitLines(FormatContext(docs, maxChars))| == |docs|
    ensures forall i :: 0 <= i < |docs| ==>
      IsPrefix(ReviewPrefix(i + 1), SplitLines(FormatContext(docs, maxChars))[i])
      && SplitLines(FormatContext(docs, maxChars))[i] == ReviewPrefix(i + 1) + Snippet(docs[i])
  {
    var lines := Lines(docs);
    forall k | 0 <= k < |lines| ensures '\n' !in lines[k] {
      SnippetHasNoNewline(docs[k]);
      ReviewLineHasNoNewline(k + 1, Snippet(docs[k]));
    }
    SplitJoinLines(lines);
    forall i | 0 <= i < |docs|
      ensures IsPrefix(ReviewPrefix(i + 1), lines[i])
    {
      assert lines[i] == ReviewPrefix(i + 1) + Snippet(docs[i]);
      assert lines[i][..|ReviewPrefix(i + 1)|] == ReviewPrefix(i + 1);
    }
  }

  /** A block over the bound ends with the marker, keeps a prefix of
      `joined[:maxChars]` before it, and (for a non-negative bound) is at most
      `maxChars + 14` long. */
  lemma TruncatedBlock(docs: seq<string>, maxChars: int)
    requires docs != []
    requires |JoinLines(Lines(docs))| > maxChars
    ensures var r := FormatContext(docs, maxChars);
      var joined := JoinLines(Lines(docs));
      var headLength := |r| - |TruncationMarker|;
      EndsWith(r, TruncationMarker)
      && IsPrefix(r[..headLength], PySliceTo(joined, maxChars))
      && IsPrefix(r[..headLength], joined)
      && SpaceBetween(joined, headLength, |PySliceTo(joined, maxChars)|)
      && (headLength == 0 || !IsSpace(r[headLength - 1]))
      && (maxChars >= 0 ==> |r| <= maxChars + |TruncationMarker|)
      && (maxChars >= 0 ==> SpaceBetween(joined, headLength, maxChars))
      && (maxChars > 0 && !IsSpace(joined[maxChars - 1]) ==> |r| == maxChars + |TruncationMarker|)
      && (maxChars > 0 ==> headLength > 0)
  {
    var joined := JoinLines(Lines(docs));
    assert FormatContext(docs, maxChars) == Cutoff(joined, maxChars);
    CutOffBlock(joined, maxChars);
    JoinedLinesStartWithDash(docs);
  }

  /** A string over the bound is cut at `maxChars` (Python slice semantics),
      loses only its trailing whitespace there, and gets the marker appended. */
  lemma CutOffBlock(joined: string, maxChars: int)
    requires |joined| > maxChars
    ensures var r := Cutoff(joined, maxChars);
      var headLength := |r| - |TruncationMarker|;
      EndsWith(r, TruncationMarker)
      && IsPrefix(r[..headLength], PySliceTo(joined, maxChars))
      && IsPrefix(r[..headLength], joined)
      && SpaceBetween(joined, headLength, |PySliceTo(joined, maxChars)|)
      && (headLength == 0 || !IsSpace(r[headLength - 1]))
      && (maxChars >= 0 ==> |r| <= maxChars + |TruncationMarker|)
      && (maxChars >= 0 ==> SpaceBetween(joined, headLength, maxChars))
      && (maxChars > 0 && !IsSpace(joined[maxChars - 1]) ==> |r| == maxChars + |TruncationMarker|)
  {
    var cut := PySliceTo(joined, maxChars);
    var head := RStrip(cut);
    RStripFacts(cut);
    var r := head + TruncationMarker;
    assert r[..|r| - |TruncationMarker|] == head;
    assert r[|r| - |TruncationMarker|..] == TruncationMarker;
    assert joined[..|head|] == cut[..|head|];
    forall k | |head| <= k < |cut| ensures IsSpace(joined[k]) {
      assert joined[k] == cut[k];
    }
    if |head| > 0 {
      assert r[|head| - 1] == head[|head| - 1];
    }
    if maxChars > 0 && !IsSpace(joined[maxChars - 1]) {
      assert cut[maxChars - 1] == joined[maxChars - 1];
    }
  }

  /** For documents and a non-negative bound, the block never exceeds the bound by more than the marker. */
  lemma BlockIsBounded(docs: seq<string>, maxChars: int)
    requires docs != [] && maxChars >= 0
    ensures |FormatContext(docs, maxChars)| <= maxChars + |TruncationMarker|
  {
    if |JoinLines(Lines(docs))| > maxChars {
      TruncatedBlock(docs, maxChars);
    }
  }

  /** At the default bound of 1800 every result, the sentinel included, is at
      most 1814 characters long. */
  lemma DefaultBlockIsBounded(docs: seq<string>)
    ensures |FormatContext(docs, DefaultMaxChars)| <= 1814
  {
    if docs != [] {
      BlockIsBounded(docs, DefaultMaxChars);
    } else {
      SentinelEdges();
    }
  }

  /** The sentinel is 49 characters long, starts with 'N' and ends with '.'. */
  lemma SentinelEdges()
    ensures |NoMatchSentinel| == 49
    ensures NoMatchSentinel[0] == 'N' && NoMatchSentinel[|NoMatchSentinel| - 1] == '.'
  {
    var a, b, c, d := "No matching ", "reviews were ", "found for this ", "question.";
    assert NoMatchSentinel == a + b + c + d;
    assert (a + b + c + d)[0] == a[0];
  }

  lemma JoinedLinesStartWithDash(docs: seq<string>)
    requires docs != []
    ensures |JoinLines(Lines(docs))| > 0 && JoinLines(Lines(docs))[0] == '-'
  {
    var lines := Lines(docs);
    assert lines[0] == ReviewPrefix(1) + Snippet(docs[0]);
    assert lines[0][0] == '-';
    if |lines| > 1 {
      assert JoinLines(lines) == lines[0] + ("\n" + JoinLines(lines[1..]));
    }
  }

  /** The no-match sentinel cannot come out of a non-empty document list: a
      fitting block starts with `-`, a cut one ends with `)`. */
  lemma SentinelIsNotAReviewBlock(docs: seq<string>, maxChars: int)
    ensures docs != [] ==> FormatContext(docs, maxChars) != NoMatchSentinel
  {
    if docs != [] {
      SentinelEdges();
      var r := FormatContext(docs, maxChars);
      if |JoinLines(Lines(docs))| > maxChars {
        TruncatedBlock(docs, maxChars);
        assert r[|r| - 1] == TruncationMarker[|TruncationMarker| - 1];
      } else {
        JoinedLinesStartWithDash(docs);
      }
    }
  }

  /** A content whose normalised form is over the limit but whose first 400
      characters end in whitespace yields a snippet far shorter than 401. */
  lemma SnippetCanBeShorterThanLimit()
    ensures var content := "a" + seq(SnippetLimit, _ => ' ') + "b";
      |Normalize(content)| > SnippetLimit && Snippet(content) == "a" + Ellipsis
  {
    var pad := seq(SnippetLimit, _ => ' ');
    var content := "a" + pad + "b";
    assert Normalize(content) == content by {
      assert AllSpace(pad);
      StripPadded("", content, "");
      assert "" + content + "" == content;
      ReplaceNewlinesFacts(content);
      assert '\n' !in content;
    }
    assert RStrip(content[..SnippetLimit]) == "a" by {
      assert content[..SnippetLimit] == "a" + pad[..SnippetLimit - 1];
      RStripSpaceSuffix("a", pad[..SnippetLimit - 1]);
    }
  }

  /** `_is_exit_command`: the empty input is never an exit; otherwise the
      stripped, lower-cased input must be one of the exit words. */
  function IsExitCommand(userInput: string): bool {
    if userInput == "" then false else LowerAscii(Strip(userInput)) in ExitWords
  }

  /** `s[i..j]` is an exit word in any letter case, with only whitespace around it. */
  ghost predicate PaddedExitWordAt(s: string, i: int, j: int) {
    0 <= i <= j <= |s| && SpaceBetween(s, 0, i) && SpaceBetween(s, j, |s|) && LowerAscii(s[i..j]) in ExitWords
  }

  ghost predicate IsPaddedExitWord(s: string) {
    exists i, j :: PaddedExitWordAt(s, i, j)
  }

  lemma ExitWordHasNoEdgeSpace(w: string)
    requires LowerAscii(w) in ExitWords
    ensures NoEdgeSpace(w)
  {
    var l := LowerAscii(w);
    LowerAsciiAt(w);
    assert l[0] == LowerChar(w[0]) && l[|l| - 1] == LowerChar(w[|w| - 1]);
  }

  /** An accepted input is an exit word padded with whitespace. */
  lemma ExitCommandIsPadded(s: string)
    requires IsExitCommand(s)
    ensures IsPaddedExitWord(s)
  {
    StripIsTrimmedPiece(s);
    var r := Strip(s);
    var i := |s| - |LStrip(s)|;
    assert PaddedExitWordAt(s, i, i + |r|);
  }

  /** An exit word padded with whitespace is accepted. */
  lemma PaddedIsExitCommand(s: string)
    requires IsPaddedExitWord(s)
    ensures IsExitCommand(s)
  {
    var i, j :| PaddedExitWordAt(s, i, j);
    var w := s[i..j];
    ExitWordHasNoEdgeSpace(w);
    assert s == s[..i] + w + s[j..];
    assert AllSpace(s[..i]) && AllSpace(s[j..]);
    StripPadded(s[..i], w, s[j..]);
    assert |LowerAscii(w)| >= 1;
  }

  /** The exit check accepts exactly the inputs that are an exit word, in any
      letter case, surrounded by any whitespace. */
  lemma ExitCommandCharacterization(s: string)
    ensures IsExitCommand(s) <==> IsPaddedExitWord(s)
  {
    if IsExitCommand(s) {
      ExitCommandIsPadded(s);
    }
    if IsPaddedExitWord(s) {
      PaddedIsExitCommand(s);
    }
  }

  /** `" QUIT "` ends the loop. */
  lemma PaddedUpperQuitIsExit()
    ensures IsExitCommand(" QUIT ")
  {
    var s := " QUIT ";
    LowerAsciiAt(s[1..5]);
    assert LowerAscii(s[1..5]) == "quit";
    assert PaddedExitWordAt(s, 1, 5);
    ExitCommandCharacterization(s);
  }

  /** `"quits"` does not end the loop: only whole exit words count. */
  lemma QuitsIsNotExit()
    ensures !IsExitCommand("quits")
  {
    StripPadded("", "quits", "");
    assert "" + "quits" + "" == "quits";
    LowerAsciiAt("quits");
    assert LowerAscii("quits") == "quits";
  }

  /** Empty or all-whitespace input does not end the loop. */
  lemma BlankIsNotExit(blank: string)
    requires AllSpace(blank)
    ensures !IsExitCommand(blank)
  {
    StripPadded("", "", blank);
    assert "" + "" + blank == blank;
  }
}
