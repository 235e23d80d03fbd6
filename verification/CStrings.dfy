/** NUL-terminated strings in character arrays, and the library calls that copy them. */
module CStrings {

  const NUL := '\0'

  /** The C string at offset `p` is `t`. */
  predicate StringAt(s: seq<char>, p: nat, t: string) {
    && NUL !in t && p + |t| < |s|
    && s[p..p + |t|] == t && s[p + |t|] == NUL
  }

  /** A C string is determined by its position. */
  lemma StringAtUnique(s: seq<char>, p: nat, t: string, u: string)
    requires StringAt(s, p, t) && StringAt(s, p, u)
    ensures t == u
  {
    CharAt(s, p, t, if |t| <= |u| then |t| else |u|);
    CharAt(s, p, u, if |t| <= |u| then |t| else |u|);
  }

  lemma CharAt(s: seq<char>, p: nat, t: string, i: nat)
    requires StringAt(s, p, t) && i <= |t|
    ensures p + i < |s| && s[p + i] == if i < |t| then t[i] else NUL
    ensures i < |t| ==> t[i] != NUL
  {
    if i < |t| {
      assert s[p..p + |t|][i] == t[i];
      assert t[i] in t;
    }
  }

  /** The first position of a character, or the length. */
  function Index(t: string, c: char): (i: nat)
    ensures i <= |t|
    ensures i < |t| ==> t[i] == c
    ensures forall j :: 0 <= j < i ==> t[j] != c
  {
    if t == "" || t[0] == c then 0 else 1 + Index(t[1..], c)
  }

  /** A suffix of a C string is the C string further on. */
  lemma SuffixAt(s: seq<char>, p: nat, t: string, k: nat)
    requires StringAt(s, p, t) && k <= |t|
    ensures StringAt(s, p + k, t[k..])
  {
    assert s[p + k..p + |t|] == s[p..p + |t|][k..];
    assert forall c :: c in t[k..] ==> c in t;
  }

  method StrLen(a: array<char>, p: nat, ghost t: string) returns (n: nat)
    requires StringAt(a[..], p, t)
    ensures n == |t|
  {
    n := 0;
    CharAt(a[..], p, t, 0);
    while a[p + n] != NUL
      invariant n <= |t| && p + n < a.Length
      decreases |t| - n
    {
      CharAt(a[..], p, t, n);
      n := n + 1;
      CharAt(a[..], p, t, n);
    }
    CharAt(a[..], p, t, n);
  }

  /** `strchr`, as an offset into the string; its length stands for the null pointer. */
  method StrChr(a: array<char>, p: nat, c: char, ghost t: string) returns (i: nat)
    requires StringAt(a[..], p, t) && c != NUL
    ensures i == Index(t, c)
  {
    i := 0;
    CharAt(a[..], p, t, 0);
    while a[p + i] != NUL && a[p + i] != c
      invariant i <= |t| && p + i < a.Length
      invariant forall j :: 0 <= j < i ==> t[j] != c
      decreases |t| - i
    {
      CharAt(a[..], p, t, i);
      i := i + 1;
      CharAt(a[..], p, t, i);
    }
    CharAt(a[..], p, t, i);
    IndexUnique(t, c, i);
  }

  lemma IndexUnique(t: string, c: char, i: nat)
    requires i <= |t|
    requires i < |t| ==> t[i] == c
    requires forall j :: 0 <= j < i ==> t[j] != c
    ensures Index(t, c) == i
  {
  }

  /** What an array holds after `t` and its terminator have been written at `p`. */
  function Written(s: seq<char>, p: nat, t: string): (r: seq<char>)
    requires p + |t| < |s|
    ensures |r| == |s|
  {
    s[..p] + t + [NUL] + s[p + |t| + 1..]
  }

  lemma WrittenIsString(s: seq<char>, p: nat, t: string)
    requires p + |t| < |s| && NUL !in t
    ensures StringAt(Written(s, p, t), p, t)
    ensures Written(s, p, t)[..p] == s[..p]
    ensures Written(s, p, t)[p + |t| + 1..] == s[p + |t| + 1..]
    ensures Written(s, p, t)[..p + |t| + 1] == s[..p] + t + [NUL]
  {
  }

  /** `sprintf` of a text, or the writing half of `strcat`: the text and its terminator. */
  method PrintAt(a: array<char>, p: nat, t: string)
    requires p + |t| < a.Length
    modifies a
    ensures a[..] == Written(old(a[..]), p, t)
  {
    forall i | 0 <= i < |t| {
      a[p + i] := t[i];
    }
    a[p + |t|] := NUL;
    assert a[..] == Written(old(a[..]), p, t);
  }

  /** `strcpy` towards the front of the same array, one character after the other. */
  method StrCpyDown(a: array<char>, src: nat, ghost t: string)
    requires StringAt(a[..], src, t)
    modifies a
    ensures a[..] == Written(old(a[..]), 0, t)
  {
    ghost var s := a[..];
    var i := 0;
    CharAt(s, src, t, 0);
    while a[src + i] != NUL
      invariant i <= |t| && src + i < a.Length
      invariant a[..i] == t[..i]
      invariant forall j :: i <= j < a.Length ==> a[j] == s[j]
      decreases |t| - i
    {
      CharAt(s, src, t, i);
      a[i] := a[src + i];
      i := i + 1;
      CharAt(s, src, t, i);
    }
    CharAt(s, src, t, i);
    a[i] := NUL;
    assert a[..] == Written(s, 0, t);
  }

  /** `sprintf("%s")` from one array to another. */
  method CopyString(src: array<char>, dst: array<char>, p: nat, ghost t: string)
    requires src != dst && StringAt(src[..], 0, t)
    requires p + |t| < dst.Length
    modifies dst
    ensures dst[..] == Written(old(dst[..]), p, t)
  {
    var n := StrLen(src, 0, t);
    var text := src[..n];
    assert text == src[..][0..0 + |t|] == t;
    PrintAt(dst, p, text);
  }

  method MemSet(a: array<char>)
    modifies a
    ensures forall i :: 0 <= i < a.Length ==> a[i] == NUL
  {
    forall i | 0 <= i < a.Length {
      a[i] := NUL;
    }
  }
}
