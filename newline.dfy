/** The newline handling of both shells' main loops: a chunk of n > 1
    characters has its last character overwritten with '\0' and is
    processed; a chunk of one character is skipped. */
module Newline {
  import opened Wrappers

  /** main as written: the line processed for a chunk of n characters, if
      any. The last character goes, whatever it is. */
  function StripAsWritten(chunk: string): (r: Option<string>)
    ensures r.Some? <==> |chunk| > 1
    ensures r.Some? ==> r.value + [chunk[|chunk| - 1]] == chunk
  {
    if |chunk| > 1 then Some(chunk[..|chunk| - 1]) else None
  }

  /** A last line that is not ended by a newline loses its last character:
      "ls" at the end of the input runs "l", and "x" runs nothing. */
  lemma StripAsWrittenDropsCharacter()
    ensures StripAsWritten("ls") == Some("l")
    ensures StripAsWritten("x") == None
  {
    assert "ls"[..1] == "l";
  }

  /** main with the comment's intent: a trailing newline is removed, a chunk
      without one (the last line of the input) is processed whole, and a
      chunk that is only a newline is skipped. */
  function StripNewline(chunk: string): (r: Option<string>)
  {
    if chunk == [] then None
    else if chunk[|chunk| - 1] != '\n' then Some(chunk)
    else if |chunk| > 1 then Some(chunk[..|chunk| - 1])
    else None
  }

  /** What StripNewline keeps is the chunk less at most its trailing
      newline; nothing is kept only for an empty chunk or a lone newline. */
  lemma StripNewlineKeepsLine(chunk: string)
    ensures StripNewline(chunk).None? <==> chunk == [] || chunk == "\n"
    ensures StripNewline(chunk).Some? ==>
      var l := StripNewline(chunk).value;
      l != [] && (chunk == l || chunk == l + "\n")
    ensures StripNewline(chunk).Some? && chunk[|chunk| - 1] != '\n' ==> StripNewline(chunk).value == chunk
  {
    if chunk != [] && chunk[|chunk| - 1] == '\n' && |chunk| > 1 {
      assert chunk == chunk[..|chunk| - 1] + "\n";
    }
  }

  /** On a chunk ended by a newline, as every chunk but the last of the
      input is, the two agree. */
  lemma StripAgreesOnNewline(chunk: string)
    requires chunk != [] && chunk[|chunk| - 1] == '\n'
    ensures StripNewline(chunk) == StripAsWritten(chunk)
  {
  }

  /** A line typed and ended by a newline is processed as typed. */
  lemma StripTypedLine(l: string)
    requires l != []
    ensures StripNewline(l + "\n") == Some(l)
  {
    assert (l + "\n")[..|l|] == l;
  }
}
