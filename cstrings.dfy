// NUL-terminated character buffers as huffman.c handles them: strrev and
// strlcpy (huffman.c's own static helpers) and the one-character strcat the
// code-table builder uses.
module CStrings {

  /** The string a buffer holds: its characters before the first NUL (all of them if it has none). */
  function CStr(s: seq<char>): (r: seq<char>)
    ensures |r| <= |s| && r == s[..|r|]
    ensures '\0' !in r
    ensures |r| < |s| ==> s[|r|] == '\0'
  {
    if s == [] || s[0] == '\0' then [] else [s[0]] + CStr(s[1..])
  }

  /** A buffer whose first m characters are not NUL and whose m-th is holds exactly those m characters. */
  lemma CStrAt(s: seq<char>, m: nat)
    requires m < |s| && s[m] == '\0'
    requires forall k :: 0 <= k < m ==> s[k] != '\0'
    ensures CStr(s) == s[..m]
  {
  }

  function Reverse<T>(s: seq<T>): seq<T>
  {
    seq(|s|, k requires 0 <= k < |s| => s[|s| - 1 - k])
  }

  lemma ReverseSnoc<T>(s: seq<T>, x: T)
    ensures Reverse(s + [x]) == [x] + Reverse(s)
  {
  }

  /**
   * strrev: reverses, in place, the string the buffer holds; the NUL and
   * what follows it stay where they are.
   */
  method StrRev(a: array<char>)
    requires '\0' in a[..]
    modifies a
    ensures var len := |CStr(old(a[..]))|;
      a[..] == Reverse(old(a[..len])) + old(a[len..])
  {
    ghost var orig := a[..];
    ghost var len := |CStr(orig)|;
    // find the end of the string
    var e := 0;
    while a[e] != '\0'
      invariant 0 <= e <= len
      decreases len - e
    {
      e := e + 1;
    }
    ReverseRange(a, e);
  }

  /** strrev's second loop: two pointers swap the first len characters end for end. */
  method ReverseRange(a: array<char>, len: nat)
    requires len <= a.Length
    modifies a
    ensures a[..] == Reverse(old(a[..len])) + old(a[len..])
  {
    ghost var orig := a[..];
    var left, right := 0, len - 1;
    while left < right
      invariant 0 <= left <= len && right == len - 1 - left
      invariant forall k :: 0 <= k < left ==> a[k] == orig[len - 1 - k]
      invariant forall k :: len - left <= k < len ==> a[k] == orig[len - 1 - k]
      invariant forall k :: left <= k < len - left ==> a[k] == orig[k]
      invariant forall k :: len <= k < a.Length ==> a[k] == orig[k]
    {
      a[left], a[right] := a[right], a[left];
      left, right := left + 1, right - 1;
    }
    assert a[..len] == Reverse(orig[..len]);
    assert a[len..] == orig[len..];
    assert a[..] == a[..len] + a[len..];
  }

  /**
   * strcat(dst, c) for a one-character string c: c overwrites the NUL that
   * ends the string and a new NUL follows it. There must be room for both.
   */
  method StrCat(a: array<char>, c: char)
    requires c != '\0'
    requires |CStr(a[..])| + 1 < a.Length
    modifies a
    ensures var len := |CStr(old(a[..]))|;
      a[..] == old(a[..])[len := c][len + 1 := '\0']
    ensures CStr(a[..]) == old(CStr(a[..])) + [c]
  {
    var e := 0;
    while a[e] != '\0'
      invariant 0 <= e <= |CStr(a[..])|
      decreases |CStr(a[..])| - e
    {
      e := e + 1;
    }
    ghost var s0 := a[..];
    a[e] := c;
    a[e + 1] := '\0';
    CStrAt(a[..], e + 1);
    assert a[..][..e + 1] == s0[..e] + [c];
  }

  function Min(a: int, b: int): int
  {
    if a < b then a else b
  }

  /**
   * strlcpy into row `row` of a two-dimensional character table: copies at
   * most siz - 1 characters of the source string, NUL-terminates the copy
   * unless siz is 0, and returns the length of the source string (a
   * result >= siz means the copy was truncated). Nothing beyond the copy
   * and its NUL is written.
   */
  method StrLCpy(dst: array2<char>, row: nat, src: array<char>, siz: nat) returns (r: nat)
    requires row < dst.Length0 && siz <= dst.Length1
    requires '\0' in src[..]
    modifies dst
    ensures r == |CStr(src[..])|
    ensures siz > 0 ==> var m := Min(r, siz - 1);
      (forall k :: 0 <= k < m ==> dst[row, k] == src[k]) && dst[row, m] == '\0'
    ensures forall i, k ::
      (0 <= i < dst.Length0 && 0 <= k < dst.Length1 && !(i == row && siz > 0 && k <= Min(r, siz - 1)))
      ==> dst[i, k] == old(dst[i, k])
  {
    ghost var len := |CStr(src[..])|;
    var d, s, n := 0, 0, siz;
    // copy as many characters as fit
    if n != 0 {
      n := n - 1;
      if n != 0 {
        var done := false;
        while !done
          invariant d == s && s <= len + 1 && s <= siz - 1
          invariant !done ==> s <= len && n == siz - 1 - s && n > 0
          invariant done ==> (s == len + 1 && n > 0) || (n == 0 && s == siz - 1 && s <= len)
          invariant forall k :: 0 <= k < d ==> dst[row, k] == src[k]
          invariant forall i, k ::
            (0 <= i < dst.Length0 && 0 <= k < dst.Length1 && !(i == row && k < d))
            ==> dst[i, k] == old(dst[i, k])
          decreases n, !done
        {
          var c := src[s];
          dst[row, d] := c;
          d, s := d + 1, s + 1;
          if c == '\0' {
            done := true;
          } else {
            n := n - 1;
            if n == 0 {
              done := true;
            }
          }
        }
      }
    }
    // not enough room: terminate the copy and run to the end of the source
    if n == 0 {
      if siz != 0 {
        dst[row, d] := '\0';
      }
      while src[s] != '\0'
        invariant s <= len
        decreases len - s
      {
        s := s + 1;
      }
      s := s + 1;
    }
    r := s - 1;
  }
}
