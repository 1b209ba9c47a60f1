/** Bounded string copies into fixed buffers (crypto/o_str.c). */
module CStr {
  import opened Base

  /** The first n slots of the buffer hold s followed by its terminator. */
  ghost predicate Holds(a: array<char>, n: nat, s: string)
    reads a
  {
    |s| < n <= a.Length && a[..|s|] == s && a[|s|] == '\0' && '\0' !in s
  }

  /** What fits of src behind s in a buffer of the given size. */
  function Cut(s: string, src: string, size: nat): string
    requires |s| < size
  {
    s + src[..Min(|src|, size - 1 - |s|)]
  }

  /** OPENSSL_strlcpy(dst + at, src, size). */
  method StrLcpy(dst: array<char>, at: nat, src: string, size: nat) returns (ret: nat)
    requires at + size <= dst.Length
    modifies dst
    ensures ret == |src|
    ensures dst[..at] == old(dst[..at])
    ensures size == 0 ==> dst[..] == old(dst[..])
    ensures size > 0 ==>
              var k := Min(|src|, size - 1);
              dst[at..at + k] == src[..k] && dst[at + k] == '\0' &&
              dst[at + k + 1..] == old(dst[at + k + 1..])
  {
    var left, l := size, 0;
    while left > 1 && l < |src|
      invariant 0 <= l <= |src| && left == size - l && (size > 0 ==> left > 0)
      invariant l <= Min(|src|, size)
      invariant dst[..at] == old(dst[..at])
      invariant dst[at..at + l] == src[..l]
      invariant dst[at + l..] == old(dst[at + l..])
    {
      dst[at + l] := src[l];
      left, l := left - 1, l + 1;
    }
    if left > 0 {
      dst[at + l] := '\0';
    }
    ret := |src|;
  }

  /** strlen. */
  method StrLen(a: array<char>, ghost n: nat, ghost s: string) returns (l: nat)
    requires Holds(a, n, s)
    ensures l == |s|
  {
    l := 0;
    while a[l] != '\0'
      invariant 0 <= l <= |s|
      decreases |s| - l
    {
      l := l + 1;
    }
  }

  /** OPENSSL_strlcat(dst, src, size): behind the terminator inside size it appends what fits, without one it writes
      nothing; it returns the length wanted. */
  method StrLcat(dst: array<char>, src: string, size: nat) returns (ret: nat)
    requires size <= dst.Length && '\0' !in src
    modifies dst
    ensures '\0' !in old(dst[..size]) ==> ret == size + |src| && dst[..] == old(dst[..])
    ensures forall l :: 0 <= l < size && old(Ends(dst, l)) ==>
              ret == l + |src| && Holds(dst, size, Cut(old(dst[..l]), src, size))
  {
    var l := 0;
    while l < size && dst[l] != '\0'
      invariant 0 <= l <= size && '\0' !in dst[..l]
    {
      l := l + 1;
    }
    ret := StrLcpy(dst, l, src, size - l);
    ret := l + ret;
    if l < size {
      ghost var k := Min(|src|, size - l - 1);
      assert dst[..l + k] == dst[..l] + dst[l..l + k];
      assert forall m :: 0 <= m < size && old(Ends(dst, m)) ==> m == l by {
        assert old(dst[l]) == '\0';
        assert forall m :: l < m < size ==> old(dst[..m])[l] == '\0';
      }
    }
  }

  /** The string in dst ends at l. */
  ghost predicate Ends(dst: array<char>, l: nat)
    reads dst
  {
    l < dst.Length && dst[l] == '\0' && '\0' !in dst[..l]
  }

  method Extend(dst: array<char>, src: string, size: nat, ghost s: string) returns (ret: nat)
    requires Holds(dst, size, s) && '\0' !in src
    modifies dst
    ensures Holds(dst, size, Cut(s, src, size))
    ensures ret == |s| + |src|
  {
    assert Ends(dst, |s|);
    ret := StrLcat(dst, src, size);
  }

  /** strlcat where everything fits. */
  method Append(dst: array<char>, src: string, ghost s: string)
    requires Holds(dst, dst.Length, s) && '\0' !in src && |s| + |src| < dst.Length
    modifies dst
    ensures Holds(dst, dst.Length, s + src)
  {
    var _ := Extend(dst, src, dst.Length, s);
    assert Cut(s, src, dst.Length) == s + src;
  }
}
