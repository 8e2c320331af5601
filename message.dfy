/** How recv_data turns one received chunk into the message it broadcasts:
    the chunk is cut at its first newline and prefixed with the sender's
    name and " : ". Nothing after the first newline survives, and no
    newline is put back. */
module Message {

  /** What recv_data puts between a user's name and their text. */
  const Separator: string := " : "

  /** Index of the first newline in s, or |s| when s has none: the value
      strcspn(s, "\n") returns on a string without NUL bytes. */
  function FirstNewline(s: string): (i: nat)
    ensures i <= |s|
    ensures forall j :: 0 <= j < i ==> s[j] != '\n'
    ensures i < |s| ==> s[i] == '\n'
  {
    if s == [] || s[0] == '\n' then 0 else 1 + FirstNewline(s[1..])
  }

  /** The text a chunk contributes once a NUL is written over its first
      newline: the longest prefix of the chunk without a newline. */
  function Line(chunk: string): (line: string)
    ensures line <= chunk
    ensures '\n' !in line
    ensures |line| == |chunk| || chunk[|line|] == '\n'
  {
    var i := FirstNewline(chunk);
    assert forall c :: c in chunk[..i] ==> c != '\n' by {
      forall c | c in chunk[..i] ensures c != '\n' {
        var j :| 0 <= j < i && chunk[..i][j] == c;
      }
    }
    chunk[..i]
  }

  /** The message built in withname: username, separator, then the chunk's line. */
  function Format(username: string, chunk: string): string
  {
    username + Separator + Line(chunk)
  }

  /** withname is the sender's name and the separator, then the longest
      newline-free prefix of the chunk. */
  lemma FormatShape(username: string, chunk: string)
    ensures var m := Format(username, chunk);
      && |m| >= |username| + |Separator|
      && m[..|username| + |Separator|] == username + Separator
      && var text := m[|username| + |Separator|..];
         text <= chunk && '\n' !in text && (|text| == |chunk| || chunk[|text|] == '\n')
  {
    var m := Format(username, chunk);
    assert m[|username| + |Separator|..] == Line(chunk);
  }

  /** Line is exactly the longest newline-free prefix of the chunk: any
      prefix with no newline that ends at the chunk's end or at a newline
      is Line, and Line is such a prefix. */
  lemma {:induction false} LineIsLongestNewlineFreePrefix(chunk: string, p: string)
    ensures (p <= chunk && '\n' !in p && (|p| == |chunk| || chunk[|p|] == '\n')) <==> p == Line(chunk)
  {
    var line := Line(chunk);
    if p <= chunk && '\n' !in p && (|p| == |chunk| || chunk[|p|] == '\n') {
      assert p == chunk[..|p|] == line;
    }
  }

  /** Text after the first newline of a chunk is never broadcast. */
  lemma DropsAfterFirstNewline(username: string, text: string, rest: string)
    requires '\n' !in text
    ensures Format(username, text + "\n" + rest) == username + Separator + text
  {
    var chunk := text + "\n" + rest;
    assert chunk[|text|] == '\n';
    assert text <= chunk;
    LineIsLongestNewlineFreePrefix(chunk, text);
  }

  /** A chunk without a newline is broadcast whole, and nothing is added after it. */
  lemma UnterminatedChunkSentWhole(username: string, text: string)
    requires '\n' !in text
    ensures Format(username, text) == username + Separator + text
  {
    LineIsLongestNewlineFreePrefix(text, text);
  }

  /** A broadcast message never holds a newline of its own making: when the
      name has none, the whole message has none. */
  lemma FormatHasNoNewline(username: string, chunk: string)
    requires '\n' !in username
    ensures '\n' !in Format(username, chunk)
  {
    var m := Format(username, chunk);
    var line := Line(chunk);
    forall j | 0 <= j < |m| ensures m[j] != '\n' {
      if j < |username| {
        assert m[j] == username[j];
      } else if j < |username| + |Separator| {
        assert m[j] == Separator[j - |username|];
      } else {
        assert m[j] == line[j - |username| - |Separator|];
      }
    }
  }
}
