/** The pipeline validator of part1/utils.c: is_empty_str, single_del_strtok,
    get_num_delim, get_num_toks and check_pipeline. No shell calls it. */
module Pipeline {
  import opened Wrappers
  import opened CStrings
  import opened Tokenizer

  /** PIPE_CALL_DEL. */
  const PipeDelim: char := '|'

  /** A string made of white space only (the empty string included). */
  predicate Blank(s: string) {
    forall i :: 0 <= i < |s| ==> IsSpace(s[i])
  }

  /** is_empty_str: 1 when every character is white space, else 0. */
  method IsEmptyStr(str: string) returns (r: int)
    ensures r == 1 <==> Blank(str)
    ensures r == 0 <==> !Blank(str)
  {
    var i := 0;
    while i < |str|
      invariant 0 <= i <= |str|
      invariant forall j :: 0 <= j < i ==> IsSpace(str[j])
    {
      if !IsSpace(str[i]) {
        return 0;
      }
      i := i + 1;
    }
    return 1;
  }

  /** The fields single_del_strtok hands out for s, one per call: s is cut at
      every delimiter, so adjacent delimiters give an empty field, but the
      empty field after a final delimiter is never returned. */
  function Fields(s: string, delims: string): seq<string>
    decreases |s|
  {
    var p := RunLength(s, delims);
    if p < |s| then [s[..p]] + Fields(s[p + 1..], delims)
    else if s == [] then []
    else [s]
  }

  /** The static cursor of single_del_strtok: src is NULL (None) or the
      unread rest of the string it was last handed. */
  class FieldCursor {
    var src: Option<string>

    /** The initial value of the static variable, the empty string "". */
    constructor ()
      ensures src == Some([])
    {
      src := Some([]);
    }

    /** The fields still to come from further calls with a NULL argument. */
    function Pending(delims: string): seq<string>
      reads this
    {
      if src.None? then [] else Fields(src.value, delims)
    }

    /** single_del_strtok(str, delimiter): a non-NULL str restarts the scan.
        With a delimiter ahead, the field before it is returned and the
        cursor moves past it; with none, a non-empty rest is returned and the
        cursor becomes NULL; an empty rest returns NULL and stays put. */
    method Next(str: Option<string>, delims: string) returns (ret: Option<string>)
      modifies this
      ensures var from := if str.Some? then str else old(src);
        && (from.None? ==> ret.None? && src.None?)
        && (from.Some? ==>
              var rest := from.value;
              var p := RunLength(rest, delims);
              if p < |rest| then ret == Some(rest[..p]) && src == Some(rest[p + 1..])
              else if rest != [] then ret == Some(rest) && src.None?
              else ret.None? && src == from)
      ensures var pending := if str.Some? then Fields(str.value, delims) else old(Pending(delims));
        if pending == [] then ret.None? && Pending(delims) == []
        else ret == Some(pending[0]) && Pending(delims) == pending[1..]
    {
      if str.Some? {
        src := str;
      }
      if src.None? {
        return None;
      }
      var rest := src.value;
      var p := RunLength(rest, delims);
      if p < |rest| {
        ret := Some(rest[..p]);
        src := Some(rest[p + 1..]);
      } else if rest != [] {
        ret := Some(rest);
        src := None;
      } else {
        ret := None;
      }
    }
  }

  /** get_num_delim: the number of occurrences of delim in input. */
  method GetNumDelim(input: string, delim: char) returns (n: int)
    ensures n == multiset(input)[delim]
  {
    n := 0;
    var i := 0;
    while i < |input|
      invariant 0 <= i <= |input|
      invariant n == multiset(input[..i])[delim]
    {
      assert input[..i + 1] == input[..i] + [input[i]];
      if input[i] == delim {
        n := n + 1;
      }
      i := i + 1;
    }
    assert input[..i] == input;
  }

  /** The strings of fs that are not blank, in order. */
  function NonBlank(fs: seq<string>): (r: seq<string>)
    ensures |r| <= |fs|
    ensures forall k :: 0 <= k < |r| ==> !Blank(r[k])
  {
    if fs == [] then []
    else (if Blank(fs[0]) then [] else [fs[0]]) + NonBlank(fs[1..])
  }

  lemma {:induction false} NonBlankAppend(a: seq<string>, b: seq<string>)
    ensures NonBlank(a + b) == NonBlank(a) + NonBlank(b)
  {
    if a == [] {
      assert a + b == b;
    } else {
      assert (a + b)[1..] == a[1..] + b;
      NonBlankAppend(a[1..], b);
    }
  }

  lemma NonBlankStep(fs: seq<string>, k: nat)
    requires k < |fs|
    ensures |NonBlank(fs[..k + 1])| == |NonBlank(fs[..k])| + if Blank(fs[k]) then 0 else 1
  {
    assert fs[..k + 1] == fs[..k] + [fs[k]];
    NonBlankAppend(fs[..k], [fs[k]]);
  }

  /** get_num_toks: the number of non-blank fields of line. The static cursor
      is a fresh object here; the first call hands it the line, which
      discards whatever it held before. */
  method GetNumToks(line: string, delims: string) returns (i: int)
    ensures i == |NonBlank(Fields(line, delims))|
  {
    ghost var fs := Fields(line, delims);
    var cursor := new FieldCursor();
    var arg := cursor.Next(Some(line), delims);
    ghost var k := 0;
    if fs != [] {
      assert fs[0..] == [fs[0]] + fs[1..];
    }
    i := 0;
    while arg.Some?
      invariant 0 <= k <= |fs|
      invariant i == |NonBlank(fs[..k])|
      invariant arg.Some? ==> k < |fs| && fs[k..] == [arg.value] + cursor.Pending(delims)
      invariant arg.None? ==> k == |fs|
      decreases |fs| - k
    {
      ghost var pending := cursor.Pending(delims);
      FieldsAhead(fs, k, arg.value, pending);
      var empty := IsEmptyStr(arg.value);
      NonBlankStep(fs, k);
      if empty == 0 {
        i := i + 1;
      }
      arg := cursor.Next(None, delims);
      if pending != [] {
        assert pending == [pending[0]] + pending[1..];
      }
      k := k + 1;
    }
    assert fs[..k] == fs;
  }

  lemma FieldsAhead(fs: seq<string>, k: nat, x: string, pending: seq<string>)
    requires k < |fs| && fs[k..] == [x] + pending
    ensures fs[k] == x && fs[k + 1..] == pending
  {
    assert fs[k..][0] == fs[k];
    assert fs[k..][1..] == fs[k + 1..];
  }

  /** Every stage of s when it is cut at every occurrence of d, the piece
      after a final d included. */
  function SplitAll(s: string, d: char): (ps: seq<string>)
    ensures |ps| >= 1
    decreases |s|
  {
    var p := RunLength(s, [d]);
    if p < |s| then [s[..p]] + SplitAll(s[p + 1..], d) else [s]
  }

  /** A valid pipeline: every one of its |-separated stages holds a command. */
  predicate ValidPipeline(s: string) {
    forall k :: 0 <= k < |SplitAll(s, PipeDelim)| ==> !Blank(SplitAll(s, PipeDelim)[k])
  }

  /** check_pipeline: 1 when the number of non-blank fields is at least 1 and
      one more than the number of '|' characters, else 0; which is to say, 1
      exactly when every stage is non-blank. */
  method CheckPipeline(input: string) returns (r: int)
    ensures var toks := |NonBlank(Fields(input, [PipeDelim]))|;
      r == if toks < 1 || toks != multiset(input)[PipeDelim] + 1 then 0 else 1
    ensures r == 1 <==> ValidPipeline(input)
    ensures r == 0 <==> !ValidPipeline(input)
  {
    var numToks := GetNumToks(input, [PipeDelim]);
    var numDelim := GetNumDelim(input, PipeDelim);
    PipelineCounts(input);
    if numToks < 1 || numToks != numDelim + 1 {
      return 0;
    }
    return 1;
  }

  /** Split and Join are inverse: the stages, put back together with d, give s. */
  lemma {:induction false} JoinSplitAll(s: string, d: char)
    ensures Join(SplitAll(s, d), d) == s
    ensures forall k :: 0 <= k < |SplitAll(s, d)| ==> d !in SplitAll(s, d)[k]
    decreases |s|
  {
    var p := RunLength(s, [d]);
    if p < |s| {
      JoinSplitAll(s[p + 1..], d);
      var rest := SplitAll(s[p + 1..], d);
      assert SplitAll(s, d)[1..] == rest;
      assert s == s[..p] + [d] + s[p + 1..];
      forall k | 0 <= k < |SplitAll(s, d)|
        ensures d !in SplitAll(s, d)[k]
      {
        if k == 0 {
          assert forall i :: 0 <= i < p ==> s[..p][i] != d;
        } else {
          assert SplitAll(s, d)[k] == rest[k - 1];
        }
      }
    } else {
      assert forall i :: 0 <= i < |s| ==> s[i] != d;
    }
  }

  /** There is one more stage than there are occurrences of d. */
  lemma {:induction false} SplitAllCount(s: string, d: char)
    ensures |SplitAll(s, d)| == multiset(s)[d] + 1
    decreases |s|
  {
    var p := RunLength(s, [d]);
    if p < |s| {
      SplitAllCount(s[p + 1..], d);
      assert s == s[..p] + [d] + s[p + 1..];
      DelimFreeCount(s[..p], d);
    } else {
      DelimFreeCount(s, d);
    }
  }

  lemma DelimFreeCount(s: string, d: char)
    requires forall i :: 0 <= i < |s| ==> s[i] != d
    ensures multiset(s)[d] == 0
  {
    assert d !in multiset(s);
  }

  /** The stages less the last one when that one is empty. */
  function DropEmptyLast(st: seq<string>): (r: seq<string>)
    requires |st| >= 1
  {
    if st[|st| - 1] == [] then st[..|st| - 1] else st
  }

  lemma DropEmptyLastCons(x: string, st: seq<string>)
    requires |st| >= 1
    ensures DropEmptyLast([x] + st) == [x] + DropEmptyLast(st)
  {
    var l := [x] + st;
    assert l[|l| - 1] == st[|st| - 1];
    assert l[..|l| - 1] == [x] + st[..|st| - 1];
  }

  /** The fields single_del_strtok returns are the stages, less the last
      stage when that one is empty. */
  lemma {:induction false} FieldsAreStages(s: string, d: char)
    ensures Fields(s, [d]) == DropEmptyLast(SplitAll(s, d))
    decreases |s|
  {
    var p := RunLength(s, [d]);
    if p < |s| {
      FieldsAreStages(s[p + 1..], d);
      DropEmptyLastCons(s[..p], SplitAll(s[p + 1..], d));
    } else {
      assert [s][..0] == [];
    }
  }

  lemma {:induction false} NonBlankAll(fs: seq<string>)
    ensures |NonBlank(fs)| == |fs| <==> forall k :: 0 <= k < |fs| ==> !Blank(fs[k])
  {
    if fs != [] {
      NonBlankAll(fs[1..]);
      assert forall k :: 1 <= k < |fs| ==> fs[k] == fs[1..][k - 1];
    }
  }

  /** The count comparison of check_pipeline holds exactly when every stage
      of the input is non-blank. */
  lemma PipelineCounts(s: string)
    ensures var toks := |NonBlank(Fields(s, [PipeDelim]))|;
      (toks >= 1 && toks == multiset(s)[PipeDelim] + 1) <==> ValidPipeline(s)
  {
    FieldsAreStages(s, PipeDelim);
    SplitAllCount(s, PipeDelim);
    NonBlankStages(SplitAll(s, PipeDelim));
  }

  /** All the stages are non-blank exactly when dropping an empty last one
      leaves as many non-blank ones as there are stages. */
  lemma NonBlankStages(st: seq<string>)
    requires |st| >= 1
    ensures (|NonBlank(DropEmptyLast(st))| == |st|) <==> forall k :: 0 <= k < |st| ==> !Blank(st[k])
  {
    NonBlankAll(st);
    var n := |st| - 1;
    if st[n] == [] {
      assert st == st[..n] + [st[n]];
      NonBlankAppend(st[..n], [st[n]]);
      assert Blank(st[n]);
    }
  }

  /** Examples of the validator's documentation: a dangling '|' on either
      side, or an empty line, is invalid. */
  lemma DanglingPipeExamples()
    ensures !ValidPipeline("a|") && !ValidPipeline("|a") && !ValidPipeline("")
  {
    assert SplitAll("", PipeDelim) == [""];
    assert RunLength("a|", [PipeDelim]) == 1;
    assert SplitAll("a|", PipeDelim)[1] == [];
    assert RunLength("|a", [PipeDelim]) == 0;
    assert SplitAll("|a", PipeDelim)[0] == [];
  }

  /** Example of the validator's documentation: an empty stage is invalid. */
  lemma EmptyStageExample()
    ensures !ValidPipeline("a||b")
  {
    var s := "a||b";
    assert RunLength(s, [PipeDelim]) == 1;
    assert s[2..] == "|b";
    assert RunLength(s[2..], [PipeDelim]) == 0;
    assert SplitAll(s, PipeDelim)[1] == SplitAll(s[2..], PipeDelim)[0] == [];
  }

  /** Two stages holding a command each form a valid pipeline. */
  lemma ValidPipelineExample()
    ensures ValidPipeline("a | b")
  {
    assert RunLength("a | b", [PipeDelim]) == 2;
    assert "a | b"[..2] == "a " && "a | b"[3..] == " b";
    assert RunLength(" b", [PipeDelim]) == 2;
    assert SplitAll(" b", PipeDelim) == [" b"];
    assert SplitAll("a | b", PipeDelim) == ["a ", " b"];
    assert !IsSpace("a "[0]) && !IsSpace(" b"[1]);
  }

  /** strtok's tokens for a single delimiter are exactly the non-empty stages. */
  function NonEmpty(ps: seq<string>): seq<string> {
    if ps == [] then [] else (if ps[0] == [] then [] else [ps[0]]) + NonEmpty(ps[1..])
  }

  lemma {:induction false} NonEmptyAppend(a: seq<string>, b: seq<string>)
    ensures NonEmpty(a + b) == NonEmpty(a) + NonEmpty(b)
  {
    if a == [] {
      assert a + b == b;
    } else {
      assert (a + b)[1..] == a[1..] + b;
      NonEmptyAppend(a[1..], b);
    }
  }

  lemma {:induction false} TokensAreNonEmptyStages(s: string, d: char)
    ensures Tokens(s, [d]) == NonEmpty(SplitAll(s, d))
    decreases |s|
  {
    var p := RunLength(s, [d]);
    var piece := s[..p];
    assert forall i :: 0 <= i < |piece| ==> piece[i] !in [d];
    if piece != [] {
      TokensOfTokenThen(piece, [], [d]);
      assert piece + [] == piece;
    }
    assert Tokens(piece, [d]) == NonEmpty([piece]);
    if p < |s| {
      var rest := SplitAll(s[p + 1..], d);
      TokensAreNonEmptyStages(s[p + 1..], d);
      assert s == piece + [d] + s[p + 1..];
      TokensSplitAtDelim(piece, d, s[p + 1..], [d]);
      assert SplitAll(s, d) == [piece] + rest;
      NonEmptyAppend([piece], rest);
    } else {
      assert piece == s;
    }
  }
}
