/** Files as texts, and reading one line by line. */
module Files {
  import opened Text

  /** A file: its text, and the errno opening it for reading or writing fails with, if not 0. */
  class File {
    var text: string
    var readErr: int
    var writeErr: int
  }

  /** `getline` at position `pos` of a text; the next line starts at `end`. */
  method GetLine(text: string, pos: nat) returns (line: string, end: nat)
    requires pos < |text|
    ensures pos < end <= |text| && line == text[pos..end]
    ensures Lines(text[pos..]) == [line] + Lines(text[end..])
  {
    end := pos;
    while end < |text| && text[end] != '\n'
      invariant pos <= end <= |text|
      invariant forall i :: pos <= i < end ==> text[i] != '\n'
    {
      end := end + 1;
    }
    end := Min(end + 1, |text|);
    line := text[pos..end];
    LineAt(text, pos, end);
  }

  lemma LineAt(text: string, pos: nat, end: nat)
    requires pos < end <= |text| && IsLine(text[pos..end])
    requires EndsLine(text[pos..end]) || end == |text|
    ensures Lines(text[pos..]) == [text[pos..end]] + Lines(text[end..])
  {
    FirstLine(text[pos..end], text[end..]);
    assert text[pos..] == text[pos..end] + text[end..];
  }

  lemma FirstLine(line: string, rest: string)
    requires IsLine(line) && (EndsLine(line) || rest == "")
    ensures Lines(line + rest) == [line] + Lines(rest)
  {
    if EndsLine(line) {
      LinesCons(line, rest);
    } else {
      LinesOne(line);
      assert line + rest == line;
    }
  }
}
