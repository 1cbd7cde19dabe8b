/** Views of C strings and byte buffers shared by the whole model.
    A C string is modelled by the characters before its terminating NUL. */
module CStrings {

  /** One byte of a memory region. */
  newtype byte = x: int | 0 <= x < 256

  const NulByte: byte := 0
  const NewlineByte: byte := 10

  /** The "C" locale's isspace: space, \t, \n, \v, \f and \r. */
  predicate IsSpace(c: char) {
    c == ' ' || 9 <= c as int <= 13
  }

  /** The characters strlen would count: everything before the first '\0'. */
  function CStr(s: string): (r: string)
    ensures r <= s && '\0' !in r
    ensures |r| < |s| ==> s[|r|] == '\0'
  {
    if s == [] || s[0] == '\0' then [] else [s[0]] + CStr(s[1..])
  }

  /** The bytes before the first NUL of a region (the whole region if it has none). */
  function UntilNul(s: seq<byte>): (r: seq<byte>)
    ensures r <= s && NulByte !in r
    ensures |r| < |s| ==> s[|r|] == NulByte
  {
    if s == [] || s[0] == NulByte then [] else [s[0]] + UntilNul(s[1..])
  }

  /** A region of n zero bytes, as memset(p, 0, n) leaves it. */
  function Zeros(n: nat): (r: seq<byte>)
    ensures |r| == n && forall i :: 0 <= i < n ==> r[i] == NulByte
  {
    seq(n, _ => NulByte)
  }

  /** The character a byte stands for. */
  function ToChars(s: seq<byte>): (r: string)
    ensures |r| == |s| && forall i :: 0 <= i < |s| ==> r[i] as int == s[i] as int
  {
    seq(|s|, i requires 0 <= i < |s| => s[i] as int as char)
  }

  lemma {:induction false} UntilNulAppend(a: seq<byte>, b: seq<byte>)
    ensures UntilNul(a + b) == if NulByte in a then UntilNul(a) else a + UntilNul(b)
  {
    if a == [] {
      assert a + b == b;
    } else if a[0] == NulByte {
    } else {
      assert (a + b)[0] == a[0];
      assert (a + b)[1..] == a[1..] + b;
      assert (NulByte in a) == (NulByte in a[1..]);
      UntilNulAppend(a[1..], b);
      assert UntilNul(a + b) == [a[0]] + UntilNul(a[1..] + b);
    }
  }

  lemma {:induction false} UntilNulOfNulFree(s: seq<byte>)
    requires NulByte !in s
    ensures UntilNul(s) == s
  {
    if s != [] {
      UntilNulOfNulFree(s[1..]);
    }
  }

  /** Zero bytes after a string do not change it. */
  lemma UntilNulZeros(s: seq<byte>, n: nat)
    ensures UntilNul(s + Zeros(n)) == UntilNul(s)
  {
    UntilNulAppend(s, Zeros(n));
    if NulByte !in s {
      UntilNulOfNulFree(s);
      if n > 0 {
        assert Zeros(n)[0] == NulByte;
      } else {
        assert Zeros(n) == [];
      }
    }
  }

  /** The string of s has length i exactly when s[..i] is NUL-free and s ends
      or has a NUL at i. */
  lemma {:induction false} UntilNulLength(s: seq<byte>, i: nat)
    requires i <= |s| && forall j :: 0 <= j < i ==> s[j] != NulByte
    requires i < |s| ==> s[i] == NulByte
    ensures |UntilNul(s)| == i
  {
    if i > 0 {
      UntilNulLength(s[1..], i - 1);
    }
  }

  /** The n bytes strncpy(dst, src, n) stores for the n-byte source region
      src: the string of src, padded with NUL bytes. */
  function Strncpy(src: seq<byte>): (r: seq<byte>)
    ensures |r| == |src|
  {
    UntilNul(src) + Zeros(|src| - |UntilNul(src)|)
  }

  /** strncpy keeps the string of its source, and the whole source when that
      holds no NUL; what follows is read the same after either. */
  lemma StrncpyKeepsString(src: seq<byte>, tail: seq<byte>)
    ensures UntilNul(Strncpy(src)) == UntilNul(src)
    ensures UntilNul(Strncpy(src) + tail) == UntilNul(src + tail)
    ensures NulByte !in src ==> Strncpy(src) == src
  {
    var u := UntilNul(src);
    var z := Zeros(|src| - |u|);
    UntilNulAppend(u, z);
    UntilNulOfNulFree(u);
    UntilNulAppend(Strncpy(src), tail);
    UntilNulAppend(src, tail);
    if NulByte in src {
      assert |u| < |src|;
      assert z[0] == NulByte;
      assert Strncpy(src)[|u|] == NulByte;
    } else {
      UntilNulOfNulFree(src);
      assert z == [];
    }
  }
}
