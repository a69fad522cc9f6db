/**
  `extractFirstParagraph`: a short plain-text summary of a markdown document,
  taken from its first line that is neither blank nor a heading.
 */
module Utils {
  import opened Wrappers
  import opened JsString

  const NoDescription := "No description available"

  /** The default `maxLength`. */
  const DefaultMaxLength := 150

  /** The ellipsis appended to a cut text. */
  const Ellipsis := "..."

  /** The `find` predicate: some non-space character, and no `#` in the first
      column (a line indented before its `#` counts as text). */
  predicate IsParagraphLine(line: string) {
    Trim(line) != [] && !StartsWith(line, "#")
  }

  /** `lines.find(...)`, as the position of the line found. */
  function FindParagraph(lines: seq<string>): (r: Option<nat>)
    ensures r.Some? ==> r.value < |lines| && IsParagraphLine(lines[r.value])
    ensures r.Some? ==> forall j :: 0 <= j < r.value ==> !IsParagraphLine(lines[j])
    ensures r.None? <==> forall j :: 0 <= j < |lines| ==> !IsParagraphLine(lines[j])
  {
    FindFrom(lines, IsParagraphLine, 0)
  }

  /** `Array.prototype.find` from position `i` on, as the position found. */
  function FindFrom<T>(xs: seq<T>, p: T -> bool, i: nat): (r: Option<nat>)
    requires i <= |xs|
    ensures r.Some? ==> i <= r.value < |xs| && p(xs[r.value])
    ensures r.Some? ==> forall j :: i <= j < r.value ==> !p(xs[j])
    ensures r.None? <==> forall j :: i <= j < |xs| ==> !p(xs[j])
    decreases |xs| - i
  {
    if i == |xs| then None
    else if p(xs[i]) then Some(i)
    else FindFrom(xs, p, i + 1)
  }

  /** The lines of a markdown document: `markdown.split('\n')`. */
  function Lines(markdown: string): seq<string> {
    Split(markdown, '\n')
  }

  /** `markdown.split('\n').find(...)`: the first line of the document that is
      a paragraph line, or nothing when no line is. */
  function FirstParagraph(markdown: string): (r: Option<string>)
    ensures r.Some? ==> IsParagraphLine(r.value) && '\n' !in r.value
    ensures r.Some? ==> exists k ::
      && 0 <= k < |Lines(markdown)|
      && Lines(markdown)[k] == r.value
      && (forall j :: 0 <= j < k ==> !IsParagraphLine(Lines(markdown)[j]))
    ensures r.None? <==> forall j :: 0 <= j < |Lines(markdown)| ==> !IsParagraphLine(Lines(markdown)[j])
  {
    var lines := Lines(markdown);
    match FindParagraph(lines)
    case None => None
    case Some(k) =>
      assert lines[k] == Lines(markdown)[k];
      Some(lines[k])
  }

  function Max0(n: int): nat { if n < 0 then 0 else n }

  /** `text.length > maxLength ? text.substring(0, maxLength) + "..." : text`.
      A negative `maxLength` clamps to 0. */
  function Truncate(text: string, maxLength: int): (r: string)
    ensures |text| <= maxLength ==> r == text
    ensures |text| > maxLength ==> |r| == Max0(maxLength) + 3
    ensures |text| > maxLength ==> r == text[..Max0(maxLength)] + Ellipsis
    ensures |r| <= Max0(maxLength) + 3
  {
    if |text| > maxLength then Substring(text, 0, maxLength) + Ellipsis else text
  }

  /** `extractFirstParagraph(markdown, maxLength = 150)`. */
  function ExtractFirstParagraph(markdown: string, maxLength: int := DefaultMaxLength): (r: string)
    ensures FirstParagraph(markdown).None? ==> r == Truncate(NoDescription, maxLength)
    ensures FirstParagraph(markdown).Some? ==>
      r == Truncate(Trim(FirstParagraph(markdown).value), maxLength)
    ensures |r| <= Max0(maxLength) + 3
  {
    var text := match FirstParagraph(markdown)
      case Some(line) => Trim(line)
      case None => NoDescription;
    Truncate(text, maxLength)
  }

  /** With the default limit the result is at most 153 characters, and a
      document without a paragraph line reads "No description available". */
  lemma DefaultLimit(markdown: string)
    ensures |ExtractFirstParagraph(markdown)| <= 153
    ensures FirstParagraph(markdown).None? ==> ExtractFirstParagraph(markdown) == NoDescription
  {
  }

  /** The line chosen from a document given line by line is the first one that
      is neither blank nor a heading: leading headings and blank lines are
      skipped, and what follows the paragraph line is never looked at. */
  lemma LeadingLinesSkipped(skipped: seq<string>, line: string, rest: seq<string>, maxLength: int)
    requires forall k :: 0 <= k < |skipped| ==> '\n' !in skipped[k] && !IsParagraphLine(skipped[k])
    requires '\n' !in line && IsParagraphLine(line)
    requires forall k :: 0 <= k < |rest| ==> '\n' !in rest[k]
    ensures FirstParagraph(Join(skipped + [line] + rest, '\n')) == Some(line)
    ensures ExtractFirstParagraph(Join(skipped + [line] + rest, '\n'), maxLength)
      == Truncate(Trim(line), maxLength)
  {
    var lines := skipped + [line] + rest;
    SplitAround(skipped, line, rest);
    forall j | 0 <= j < |skipped| ensures !IsParagraphLine(lines[j]) {
      assert lines[j] == skipped[j];
    }
    assert lines[|skipped|] == line;
    FoundAt(lines, |skipped|);
  }

  /** The search stops at a paragraph line preceded by none. */
  lemma FoundAt(lines: seq<string>, k: nat)
    requires k < |lines| && IsParagraphLine(lines[k])
    requires forall j :: 0 <= j < k ==> !IsParagraphLine(lines[j])
    ensures FindParagraph(lines) == Some(k)
  {
  }

  /** Splitting the lines `skipped`, `line`, `rest` joined with `'\n'` gives them back. */
  lemma SplitAround(skipped: seq<string>, line: string, rest: seq<string>)
    requires forall k :: 0 <= k < |skipped| ==> '\n' !in skipped[k]
    requires '\n' !in line
    requires forall k :: 0 <= k < |rest| ==> '\n' !in rest[k]
    ensures Split(Join(skipped + [line] + rest, '\n'), '\n') == skipped + [line] + rest
  {
    var lines := skipped + [line] + rest;
    forall k | 0 <= k < |lines| ensures '\n' !in lines[k] {
      if k < |skipped| {
        assert lines[k] == skipped[k];
      } else if k > |skipped| {
        assert lines[k] == rest[k - |skipped| - 1];
      }
    }
    SplitJoin(lines, '\n');
  }

  /** A document made only of headings and blank lines has no summary. */
  lemma NoParagraphLine(lines: seq<string>, maxLength: int)
    requires |lines| >= 1
    requires forall k :: 0 <= k < |lines| ==> '\n' !in lines[k] && !IsParagraphLine(lines[k])
    ensures FirstParagraph(Join(lines, '\n')).None?
    ensures ExtractFirstParagraph(Join(lines, '\n'), maxLength) == Truncate(NoDescription, maxLength)
  {
    NothingFound(lines);
    Fallback(Join(lines, '\n'), maxLength);
  }

  /** Headings and blank lines joined into a document: no line is found. */
  lemma NothingFound(lines: seq<string>)
    requires |lines| >= 1
    requires forall k :: 0 <= k < |lines| ==> '\n' !in lines[k] && !IsParagraphLine(lines[k])
    ensures FirstParagraph(Join(lines, '\n')).None?
  {
    LinesOfJoin(lines);
    NoLineFound(Join(lines, '\n'), lines);
  }

  /** Without a paragraph line the summary is the fallback text. */
  lemma Fallback(md: string, maxLength: int)
    requires FirstParagraph(md).None?
    ensures ExtractFirstParagraph(md, maxLength) == Truncate(NoDescription, maxLength)
  {
  }

  /** Splitting lines joined with `'\n'` gives them back. */
  lemma LinesOfJoin(lines: seq<string>)
    requires |lines| >= 1
    requires forall k :: 0 <= k < |lines| ==> '\n' !in lines[k]
    ensures Lines(Join(lines, '\n')) == lines
  {
    SplitJoin(lines, '\n');
  }

  /** No paragraph line among the lines of `md`: nothing is found. */
  lemma NoLineFound(md: string, lines: seq<string>)
    requires Lines(md) == lines
    requires forall j :: 0 <= j < |lines| ==> !IsParagraphLine(lines[j])
    ensures FirstParagraph(md).None?
  {
  }
}
