/**
  The pure part of `readLines`: the seed file's whole content is trimmed once
  and then cut at every line feed. Reading the file itself is not modelled;
  the content arrives as a parameter.
 */
module SeedFile {
  import opened Text

  /** The seed lines of a file whose content is `content`. */
  function Lines(content: string): (lines: seq<string>)
    ensures |lines| >= 1
    ensures forall k :: 0 <= k < |lines| ==> '\n' !in lines[k]
  {
    SplitPiecesLackSeparator(TrimSpace(content), '\n');
    Split(TrimSpace(content), '\n')
  }

  /** The lines, put back together with line feeds, are the trimmed content:
      nothing inside the content is lost or changed. */
  lemma LinesRestoreTrimmedContent(content: string)
    ensures Join(Lines(content), '\n') == TrimSpace(content)
  {
    JoinSplit(TrimSpace(content), '\n');
  }

  /** Content that is empty or only white space yields one empty line. */
  lemma BlankContentIsOneEmptyLine(content: string)
    requires AllSpace(content)
    ensures Lines(content) == [""]
  {
    TrimSpaceEmptyIff(content);
  }

  /** Only the ends of the content are trimmed: a line followed by a line feed
      is kept as it is, so a carriage return before the line feed stays on it. */
  lemma {:induction false} InteriorLineKept(first: string, rest: string)
    requires first != [] && !IsSpace(first[0]) && '\n' !in first
    requires rest != [] && !IsSpace(rest[|rest| - 1])
    ensures Lines(first + "\n" + rest) == [first] + Split(rest, '\n')
  {
    var content := first + "\n" + rest;
    assert content[0] == first[0] && content[|content| - 1] == rest[|rest| - 1];
    TrimSpaceUnpadded(content);
    SplitAround(first, '\n', rest);
    SplitWithoutSeparator(first, '\n');
  }
}
