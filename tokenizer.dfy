/** tokenize (part1/utils.c): strtok-based splitting of a line into a bounded
    argument vector. argv entries are Option<string>; None stands for NULL. */
module Tokenizer {
  import opened Wrappers

  /** A token: non-empty and free of delimiter characters. */
  predicate IsToken(t: string, delims: string) {
    t != [] && forall i :: 0 <= i < |t| ==> t[i] !in delims
  }

  /** Length of the run of non-delimiter characters at the start of s (strcspn). */
  function RunLength(s: string, delims: string): (n: nat)
    ensures n <= |s|
    ensures forall i :: 0 <= i < n ==> s[i] !in delims
    ensures n < |s| ==> s[n] in delims
  {
    if s == [] || s[0] in delims then 0 else 1 + RunLength(s[1..], delims)
  }

  /** The tokens of s: its maximal non-empty runs of non-delimiter characters,
      from left to right. This is what repeated strtok calls return. */
  function Tokens(s: string, delims: string): seq<string>
    decreases |s|
  {
    if s == [] then []
    else if s[0] in delims then Tokens(s[1..], delims)
    else
      var n := RunLength(s, delims);
      [s[..n]] + Tokens(s[n..], delims)
  }

  /** No token is empty and none holds a delimiter. */
  lemma {:induction false} TokensAreTokens(s: string, delims: string)
    ensures forall k :: 0 <= k < |Tokens(s, delims)| ==> IsToken(Tokens(s, delims)[k], delims)
    decreases |s|
  {
    if s != [] {
      if s[0] in delims {
        TokensAreTokens(s[1..], delims);
      } else {
        var n := RunLength(s, delims);
        TokensAreTokens(s[n..], delims);
        assert Tokens(s, delims)[1..] == Tokens(s[n..], delims);
      }
    }
  }

  /** strtok (section 7.24.5.8 of ISO C11), resumed at the saved position pos:
      skips the delimiters there, returns the run of non-delimiters that
      follows, and saves the position just past the delimiter it overwrites
      with '\0'. It hands out the next token of Tokens and leaves the rest of
      them after the new saved position; NULL means no token is left. */
  method Strtok(s: string, pos: nat, delims: string) returns (token: Option<string>, next: nat)
    requires pos <= |s|
    ensures pos <= next <= |s|
    ensures token.None? ==> Tokens(s[pos..], delims) == []
    ensures token.Some? ==> pos < next && Tokens(s[pos..], delims) == [token.value] + Tokens(s[next..], delims)
  {
    var start := pos;
    while start < |s| && s[start] in delims
      invariant pos <= start <= |s|
      invariant Tokens(s[pos..], delims) == Tokens(s[start..], delims)
    {
      TokensSkipDelim(s, start, delims);
      start := start + 1;
    }
    if start == |s| {
      return None, |s|;
    }
    var end := start;
    while end < |s| && s[end] !in delims
      invariant start <= end <= |s|
      invariant forall i :: start <= i < end ==> s[i] !in delims
    {
      end := end + 1;
    }
    token := Some(s[start..end]);
    next := if end < |s| then end + 1 else end;
    TokensOfRun(s, start, end, delims);
  }

  lemma TokensOfRun(s: string, start: nat, end: nat, delims: string)
    requires start < end <= |s|
    requires forall i :: start <= i < end ==> s[i] !in delims
    requires end < |s| ==> s[end] in delims
    ensures Tokens(s[start..], delims) ==
      [s[start..end]] + Tokens(s[if end < |s| then end + 1 else end..], delims)
  {
    assert s[start..] == s[start..end] + s[end..];
    TokensOfTokenThen(s[start..end], s[end..], delims);
    if end < |s| {
      assert s[end..][1..] == s[end + 1..];
    }
  }

  lemma TokensSkipDelim(s: string, i: nat, delims: string)
    requires i < |s| && s[i] in delims
    ensures Tokens(s[i..], delims) == Tokens(s[i + 1..], delims)
  {
    assert s[i..][1..] == s[i + 1..];
  }

  /** The argv entries for a list of tokens. */
  function Args(ts: seq<string>): (a: seq<Option<string>>)
    ensures |a| == |ts| && forall i :: 0 <= i < |ts| ==> a[i] == Some(ts[i])
  {
    seq(|ts|, i requires 0 <= i < |ts| => Some(ts[i]))
  }

  /** tokenize(str, argv, delims, max_tokens): stores the tokens of str in argv
      followed by NULL and returns their number; when the count reaches
      max_tokens it gives up and returns -1. argv is never written at
      max_tokens or beyond. */
  method Tokenize(str: string, argv: array<Option<string>>, delims: string, maxTokens: int)
    returns (argc: int)
    requires 1 <= maxTokens <= argv.Length
    modifies argv
    ensures var ts := Tokens(str, delims);
      argc == if |ts| < maxTokens then |ts| else -1
    ensures argc >= 0 ==> argv[argc] == None
    ensures forall i :: 0 <= i < (if argc >= 0 then argc else maxTokens) ==>
      argv[i] == Some(Tokens(str, delims)[i])
    ensures forall i :: (if argc >= 0 then argc + 1 else maxTokens) <= i < argv.Length ==>
      argv[i] == old(argv[i])
  {
    ghost var ts := Tokens(str, delims);
    assert str[0..] == str;
    var tok, pos := Strtok(str, 0, delims);
    argc := 0;
    argv[argc] := tok;
    while argv[argc].Some?
      invariant 0 <= argc < maxTokens && pos <= |str| && argc <= |ts|
      invariant argv[argc] == tok
      invariant forall i :: 0 <= i < argc ==> argv[i] == Some(ts[i])
      invariant tok.Some? ==> argc < |ts| && ts[argc] == tok.value && ts[argc + 1..] == Tokens(str[pos..], delims)
      invariant tok.None? ==> |ts| == argc
      invariant forall i :: argc < i < argv.Length ==> argv[i] == old(argv[i])
      decreases |str| - pos + (if tok.Some? then 1 else 0)
    {
      argc := argc + 1;
      if argc >= maxTokens {
        argc := -1;
        return;
      }
      ghost var rest := ts[argc..];
      tok, pos := Strtok(str, pos, delims);
      argv[argc] := tok;
      assert tok.Some? ==> rest[1..] == ts[argc + 1..];
    }
  }

  /** Joining tokens with one delimiter between them, as a line would be typed. */
  function Join(ts: seq<string>, d: char): string {
    if ts == [] then []
    else if |ts| == 1 then ts[0]
    else ts[0] + [d] + Join(ts[1..], d)
  }

  lemma {:induction false} TokensOfTokenThen(t: string, rest: string, delims: string)
    requires IsToken(t, delims)
    requires rest == [] || rest[0] in delims
    ensures Tokens(t + rest, delims) == [t] + Tokens(rest, delims)
  {
    var s := t + rest;
    RunLengthOfTokenThen(t, rest, delims);
    assert s[..|t|] == t;
    assert s[|t|..] == rest;
  }

  lemma {:induction false} RunLengthOfTokenThen(t: string, rest: string, delims: string)
    requires forall i :: 0 <= i < |t| ==> t[i] !in delims
    requires rest == [] || rest[0] in delims
    ensures RunLength(t + rest, delims) == |t|
  {
    if t != [] {
      assert (t + rest)[1..] == t[1..] + rest;
      RunLengthOfTokenThen(t[1..], rest, delims);
    } else {
      assert t + rest == rest;
    }
  }

  /** Round trip: tokenizing a line built from tokens and single delimiters
      gives back exactly those tokens. */
  lemma {:induction false} TokensOfJoin(ts: seq<string>, d: char, delims: string)
    requires d in delims
    requires forall k :: 0 <= k < |ts| ==> IsToken(ts[k], delims)
    ensures Tokens(Join(ts, d), delims) == ts
  {
    if |ts| == 1 {
      TokensOfTokenThen(ts[0], [], delims);
      assert ts[0] + [] == ts[0];
    } else if |ts| > 1 {
      var rest := Join(ts[1..], d);
      assert ts[0] + [d] + rest == ts[0] + ([d] + rest);
      TokensOfTokenThen(ts[0], [d] + rest, delims);
      assert ([d] + rest)[1..] == rest;
      TokensOfJoin(ts[1..], d, delims);
      assert [ts[0]] + ts[1..] == ts;
    }
  }

  /** A delimiter separates the tokens on its left from those on its right. */
  lemma {:induction false} TokensSplitAtDelim(a: string, d: char, b: string, delims: string)
    requires d in delims
    ensures Tokens(a + [d] + b, delims) == Tokens(a, delims) + Tokens(b, delims)
    decreases |a|
  {
    var s := a + [d] + b;
    if a == [] {
      assert s[1..] == b;
    } else if a[0] in delims {
      assert s[1..] == a[1..] + [d] + b;
      TokensSplitAtDelim(a[1..], d, b, delims);
    } else {
      var n := RunLength(a, delims);
      assert s == a + ([d] + b);
      TokensOfRunPrefix(a, [d] + b, delims);
      assert a[n..] + ([d] + b) == a[n..] + [d] + b;
      TokensSplitAtDelim(a[n..], d, b, delims);
      var t := Tokens(a[n..], delims);
      assert [a[..n]] + t + Tokens(b, delims) == [a[..n]] + (t + Tokens(b, delims));
    }
  }

  /** The first token of a, when nothing after a can extend it. */
  lemma TokensOfRunPrefix(a: string, rest: string, delims: string)
    requires a != [] && a[0] !in delims
    requires RunLength(a, delims) < |a| || rest == [] || rest[0] in delims
    ensures var n := RunLength(a, delims);
      Tokens(a + rest, delims) == [a[..n]] + Tokens(a[n..] + rest, delims)
  {
    var s := a + rest;
    var n := RunLength(a, delims);
    RunLengthPrefix(a, rest, delims);
    assert s[..n] == a[..n];
    DropOfAppend(a, rest, n);
  }

  lemma DropOfAppend(a: string, b: string, n: nat)
    requires n <= |a|
    ensures (a + b)[n..] == a[n..] + b
  {
  }

  lemma {:induction false} RunLengthPrefix(a: string, b: string, delims: string)
    requires RunLength(a, delims) < |a| || b == [] || b[0] in delims
    ensures RunLength(a + b, delims) == RunLength(a, delims)
  {
    if a == [] {
      assert a + b == b;
    } else if a[0] !in delims {
      assert (a + b)[1..] == a[1..] + b;
      RunLengthPrefix(a[1..], b, delims);
    }
  }
}
