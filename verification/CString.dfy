/** C strings in buffers, strncpy and strtok of programs/stdlib/src/string.c. */
module CString {
  import opened Common

  /** The characters from index a up to the first NUL. */
  function CStr(b: seq<char>, a: nat): (s: string)
    requires a <= |b|
    ensures a + |s| <= |b| && (a + |s| < |b| ==> b[a + |s|] == NUL)
    ensures forall i :: 0 <= i < |s| ==> s[i] == b[a + i] && s[i] != NUL
    decreases |b| - a
  {
    if a == |b| || b[a] == NUL then "" else [b[a]] + CStr(b, a + 1)
  }

  ghost predicate Terminated(b: seq<char>, a: nat) {
    a <= |b| && a + |CStr(b, a)| < |b|
  }

  lemma {:induction false} CStrIs(b: seq<char>, a: nat, n: nat)
    requires a + n < |b| && b[a + n] == NUL && forall i :: a <= i < a + n ==> b[i] != NUL
    ensures |CStr(b, a)| == n && CStr(b, a) == b[a..a + n] && Terminated(b, a)
    decreases n
  {
    if n > 0 {
      assert b[a..a + n][1..] == b[a + 1..a + 1 + (n - 1)];
      CStrIs(b, a + 1, n - 1);
    }
  }

  /** The string from a later position is a suffix. */
  lemma CStrDrop(b: seq<char>, a: nat, k: nat)
    requires Terminated(b, a) && k <= |CStr(b, a)|
    ensures CStr(b, a + k) == CStr(b, a)[k..] && Terminated(b, a + k)
  {
    var s := CStr(b, a);
    hide CStr;
    forall i | a + k <= i < a + |s|
      ensures b[i] != NUL
    {
      assert s[i - a] == b[a + (i - a)];
    }
    CStrIs(b, a + k, |s| - k);
  }

  /** What count bytes of buffer can hold of a string. */
  function Cut(s: string, count: nat): string
    requires count > 0
  {
    if |s| < count then s else s[..count - 1]
  }

  method Strncpy(dest: array<char>, src: string, count: nat)
    requires 0 < count <= dest.Length && NUL !in src
    modifies dest
    ensures CStr(dest[..], 0) == Cut(src, count) && Terminated(dest[..], 0)
  {
    var i := 0;
    while i < count - 1 && i < |src|
      invariant 0 <= i <= count - 1 && i <= |src|
      invariant dest[..i] == src[..i]
    {
      dest[i] := src[i];
      i := i + 1;
    }
    dest[i] := NUL;
    hide CStr;
    assert dest[..][0..i] == dest[..i] == src[..i];
    CStrIs(dest[..], 0, i);
  }

  // ---------- tokens ----------

  /** The longest prefix without a delimiter. */
  function Word(s: string, delims: string): (w: string)
    ensures |w| <= |s| && w == s[..|w|]
    ensures forall k :: 0 <= k < |w| ==> w[k] !in delims
    ensures |w| < |s| ==> s[|w|] in delims
  {
    if s == "" || s[0] in delims then "" else [s[0]] + Word(s[1..], delims)
  }

  /** The non-empty pieces between delimiters, in order. */
  function Tokens(s: string, delims: string): seq<string>
    decreases |s|
  {
    if s == "" then []
    else if s[0] in delims then Tokens(s[1..], delims)
    else [Word(s, delims)] + Tokens(s[|Word(s, delims)|..], delims)
  }

  lemma {:induction false} TokensSkip(s: string, delims: string, k: nat)
    requires k <= |s| && forall i :: 0 <= i < k ==> s[i] in delims
    ensures Tokens(s, delims) == Tokens(s[k..], delims)
    decreases k
  {
    if k > 0 {
      TokensSkip(s[1..], delims, k - 1);
      assert s[1..][k - 1..] == s[k..];
    } else {
      assert s[0..] == s;
    }
  }

  /** Every token is a non-empty delimiter-free piece of the string. */
  lemma {:induction false} TokensAreWords(s: string, delims: string, i: nat)
    requires i < |Tokens(s, delims)|
    ensures var t := Tokens(s, delims)[i]; t != "" && forall k :: 0 <= k < |t| ==> t[k] !in delims && t[k] in s
    decreases |s|
  {
    if s[0] in delims {
      TokensAreWords(s[1..], delims, i);
    } else if i > 0 {
      TokensAreWords(s[|Word(s, delims)|..], delims, i - 1);
    }
  }

  /** The string with single spaces between its tokens has the same tokens: nothing but spacing is lost. */
  function Joined(ts: seq<string>): string {
    if ts == [] then "" else ts[0] + " " + Joined(ts[1..])
  }

  lemma {:induction false} TokensOfJoined(ts: seq<string>)
    requires forall i :: 0 <= i < |ts| ==> ts[i] != "" && ' ' !in ts[i]
    ensures Tokens(Joined(ts), " ") == ts
  {
    if ts != [] {
      var w, rest := ts[0], Joined(ts[1..]);
      var s := w + " " + rest;
      WordOfJoined(w, rest);
      assert s[|w|..] == " " + rest;
      assert (" " + rest)[1..] == rest;
      TokensOfJoined(ts[1..]);
    }
  }

  lemma {:induction false} WordOfJoined(w: string, rest: string)
    requires ' ' !in w
    ensures Word(w + " " + rest, " ") == w
  {
    if w != "" {
      assert (w + " " + rest)[1..] == w[1..] + " " + rest;
      WordOfJoined(w[1..], rest);
    }
  }

  // ---------- strtok ----------

  class Tokenizer {
    /** The global cursor sp: a buffer and an index, or null. */
    var buffer: array?<char>
    var index: nat

    constructor ()
      ensures buffer == null
    {
      buffer, index := null, 0;
    }

    /** What is left to tokenise. */
    ghost function Left(): string
      reads this, buffer
    {
      if buffer == null || index > buffer.Length then "" else CStr(buffer[..], index)
    }

    ghost predicate Valid()
      reads this, buffer
    {
      buffer != null ==> Terminated(buffer[..], index)
    }

    /** The inner loop: the first delimiter equal to c, or the number of delimiters. */
    static method FindDelimiter(c: char, delimiters: string) returns (i: nat)
      ensures i <= |delimiters| && (i == |delimiters| <==> c !in delimiters)
    {
      i := 0;
      while i < |delimiters|
        invariant 0 <= i <= |delimiters| && c !in delimiters[..i]
      {
        if c == delimiters[i] {
          return;
        }
        i := i + 1;
      }
    }

    /** Skips delimiters from the cursor. */
    method SkipDelimiters(b: array<char>, from: nat, delimiters: string) returns (p: nat)
      requires NUL !in delimiters && Terminated(b[..], from)
      ensures from <= p <= from + |CStr(b[..], from)|
      ensures forall k :: from <= k < p ==> b[k] in delimiters
      ensures b[p] !in delimiters
    {
      p := from;
      while true
        invariant from <= p <= from + |CStr(b[..], from)|
        invariant forall k :: from <= k < p ==> b[k] in delimiters
        decreases b.Length - p
      {
        var i := FindDelimiter(b[p], delimiters);
        if i == |delimiters| {
          break;
        }
        p := p + 1;
      }
    }

    /** Runs to the end of the token, cutting the buffer at the delimiter behind it. */
    method EndToken(b: array<char>, start: nat, delimiters: string) returns (p: nat)
      requires NUL !in delimiters && Terminated(b[..], start)
      modifies b
      ensures var s := CStr(old(b[..]), start);
              var w := Word(s, delimiters);
              && start + |w| < b.Length
              && b[..] == old(b[..])[start + |w| := NUL]
              && p == if |w| == |s| then start + |w| else start + |w| + 1
    {
      ghost var s := CStr(b[..], start);
      p := start;
      while b[p] != NUL
        invariant start <= p <= start + |s|
        invariant b[..] == old(b[..])
        invariant forall k :: 0 <= k < p - start ==> s[k] !in delimiters
        decreases b.Length - p
      {
        var i := FindDelimiter(b[p], delimiters);
        if i < |delimiters| {
          WordEnds(s, delimiters, p - start);
          b[p] := NUL;
          p := p + 1;
          return;
        }
        p := p + 1;
      }
      WordEnds(s, delimiters, p - start);
      assert b[..] == old(b[..])[p := NUL];
    }

    /** strtok from a cursor that is set. */
    method Continue(delimiters: string) returns (tok: array?<char>, start: nat)
      requires Valid() && buffer != null && NUL !in delimiters
      modifies this, buffer
      ensures Valid()
      ensures var ts, b := Tokens(old(Left()), delimiters), old(buffer);
              if ts == [] then tok == null && buffer == null && b[..] == old(b[..])
              else tok == b && buffer == b && old(index) <= start < index <= b.Length
                   && Terminated(b[..], start) && CStr(b[..], start) == ts[0]
                   && Tokens(Left(), delimiters) == ts[1..]
                   && b[..start] == old(b[..])[..start]
    {
      hide CStr, Tokens, Word;
      ghost var at, b0 := index, buffer[..];
      var p_start := SkipDelimiters(buffer, index, delimiters);
      SkippedTo(b0, at, p_start, delimiters);
      index := p_start;
      if buffer[index] == NUL {
        buffer := null;
        return null, 0;
      }
      FirstCharacter(b0, p_start);
      index := EndToken(buffer, index, delimiters);
      TokenCut(b0, p_start, delimiters, buffer[..], index);
      return buffer, p_start;
    }

    /**
     strtok.  A null string continues; with a cursor left over from another string
     the given one is ignored.  The result is null and the cursor null when no token
     is left, and otherwise the first token, in place, with the rest still to come.
     */
    method Strtok(str: array?<char>, delimiters: string) returns (tok: array?<char>, start: nat)
      requires Valid() && NUL !in delimiters
      requires buffer == null && str != null ==> Terminated(str[..], 0)
      modifies this, buffer, str
      ensures Valid()
      ensures str == null && old(buffer) == null ==> tok == null && buffer == null
      ensures old(buffer) != null ==>
                var ts, b := Tokens(old(Left()), delimiters), old(buffer);
                if ts == [] then tok == null && buffer == null && b[..] == old(b[..])
                else tok == b && buffer == b && old(index) <= start < index <= b.Length
                     && Terminated(b[..], start) && CStr(b[..], start) == ts[0]
                     && Tokens(Left(), delimiters) == ts[1..]
                     && b[..start] == old(b[..])[..start]
      ensures old(buffer) == null && str != null ==>
                var ts := Tokens(old(CStr(str[..], 0)), delimiters);
                if ts == [] then tok == null && buffer == null && str[..] == old(str[..])
                else tok == str && buffer == str && start < index <= str.Length
                     && Terminated(str[..], start) && CStr(str[..], start) == ts[0]
                     && Tokens(Left(), delimiters) == ts[1..]
    {
      hide CStr, Tokens;
      if str == null && buffer == null {
        return null, 0;
      }
      if str != null && buffer == null {
        buffer, index := str, 0;
      }
      tok, start := Continue(delimiters);
    }
  }

  lemma FirstCharacter(b: seq<char>, p: nat)
    requires Terminated(b, p) && b[p] != NUL
    ensures CStr(b, p) != "" && CStr(b, p)[0] == b[p]
  {
  }

  lemma {:induction false} WordEnds(s: string, delims: string, n: nat)
    requires n <= |s| && (forall k :: 0 <= k < n ==> s[k] !in delims) && (n < |s| ==> s[n] in delims)
    ensures |Word(s, delims)| == n
  {
    if n > 0 {
      WordEnds(s[1..], delims, n - 1);
    }
  }

  lemma SkippedTo(b: seq<char>, a: nat, p: nat, delims: string)
    requires Terminated(b, a) && a <= p <= a + |CStr(b, a)| && b[p] !in delims
    requires forall k :: a <= k < p ==> b[k] in delims
    ensures Terminated(b, p) && Tokens(CStr(b, a), delims) == Tokens(CStr(b, p), delims)
    ensures b[p] == NUL ==> Tokens(CStr(b, a), delims) == []
    ensures b[p] != NUL ==> CStr(b, p) != "" && Tokens(CStr(b, a), delims) != []
                            && Tokens(CStr(b, a), delims)[0] == Word(CStr(b, p), delims)
                            && Tokens(CStr(b, a), delims)[1..] == Tokens(CStr(b, p)[|Word(CStr(b, p), delims)|..], delims)
  {
    var s := CStr(b, a);
    CStrDrop(b, a, p - a);
    forall i | 0 <= i < p - a
      ensures s[i] in delims
    {
      assert s[i] == b[a + i];
    }
    TokensSkip(s, delims, p - a);
  }

  /** After the cut, the token stands alone at its start and the rest begins at the cursor. */
  lemma TokenCut(b: seq<char>, p: nat, delims: string, b': seq<char>, index: nat)
    requires Terminated(b, p) && CStr(b, p) != "" && CStr(b, p)[0] !in delims
    requires var s := CStr(b, p);
             var w := Word(s, delims);
             b' == b[p + |w| := NUL] && index == if |w| == |s| then p + |w| else p + |w| + 1
    ensures p < index <= |b'| && Terminated(b', p) && CStr(b', p) == Word(CStr(b, p), delims)
    ensures Terminated(b', index)
    ensures Tokens(CStr(b', index), delims) == Tokens(CStr(b, p)[|Word(CStr(b, p), delims)|..], delims)
    ensures b'[..p] == b[..p]
  {
    var s := CStr(b, p);
    var n := |Word(s, delims)|;
    assert n > 0;
    CutToken(b, p, s, n, b');
    CutRest(b, p, s, n, b', index);
    TokensAfter(s, delims, n);
  }

  lemma TokensAfter(s: string, delims: string, n: nat)
    requires n <= |s| && (n < |s| ==> s[n] in delims)
    ensures Tokens(s[n..], delims) == if n == |s| then [] else Tokens(s[n + 1..], delims)
  {
    if n < |s| {
      assert s[n..][1..] == s[n + 1..];
    }
  }

  lemma CutToken(b: seq<char>, p: nat, s: string, n: nat, b': seq<char>)
    requires Terminated(b, p) && s == CStr(b, p) && n <= |s| && b' == b[p + n := NUL]
    ensures Terminated(b', p) && CStr(b', p) == s[..n] && b'[..p] == b[..p]
  {
    hide CStr;
    forall i | p <= i < p + n
      ensures b'[i] == s[i - p] != NUL
    {
      assert s[i - p] == b[p + (i - p)];
    }
    CStrIs(b', p, n);
  }

  lemma CutRest(b: seq<char>, p: nat, s: string, n: nat, b': seq<char>, index: nat)
    requires Terminated(b, p) && s == CStr(b, p) && n <= |s| && b' == b[p + n := NUL]
    requires index == if n == |s| then p + n else p + n + 1
    ensures Terminated(b', index) && CStr(b', index) == if n == |s| then "" else s[n + 1..]
  {
    hide CStr;
    if n == |s| {
      CStrIs(b', index, 0);
    } else {
      forall i | index <= i < p + |s|
        ensures b'[i] == s[i - p] != NUL
      {
        assert s[i - p] == b[p + (i - p)];
      }
      CStrIs(b', index, |s| - n - 1);
    }
  }
}
