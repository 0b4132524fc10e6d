/** NUL-terminated strings in byte memory. */
module CStrings {
  import opened Bits

  const MAX_PATH: nat := 108

  /** The length of the text before the first NUL, or of all the bytes. */
  function TextLength(s: seq<u8>): (n: nat)
    ensures n <= |s| && (forall i | 0 <= i < n :: s[i] != 0) && (n < |s| ==> s[n] == 0)
  {
    if |s| == 0 || s[0] == 0 then 0 else 1 + TextLength(s[1..])
  }

  function Text(s: seq<u8>): seq<u8> {
    s[..TextLength(s)]
  }

  lemma TextLengthIs(s: seq<u8>, n: nat)
    requires n <= |s| && (forall i | 0 <= i < n :: s[i] != 0) && (n < |s| ==> s[n] == 0)
    ensures TextLength(s) == n
  {
  }

  predicate Terminated(s: seq<u8>) {
    TextLength(s) < |s|
  }

  function Take(s: seq<u8>, n: nat): seq<u8> {
    if n < |s| then s[..n] else s
  }

  /** `tolower`: ASCII only; bytes above 127 are negative as C chars. */
  function ToLower(c: u8): u8 {
    if 65 <= c <= 90 then c + 32 else c
  }

  /** The same character up to case: equal, or the k-th capital and the k-th
      small letter for the same k. */
  predicate SameLetter(a: u8, b: u8) {
    || a == b
    || ('A' as int <= a <= 'Z' as int && b - 'a' as int == a - 'A' as int)
    || ('A' as int <= b <= 'Z' as int && a - 'a' as int == b - 'A' as int)
  }

  /** Comparing in lower case is comparing up to case. */
  lemma ToLowerIff(a: u8, b: u8)
    ensures ToLower(a) == ToLower(b) <==> SameLetter(a, b)
  {
  }

  /** The same text up to case. */
  predicate SameText(s: seq<u8>, t: seq<u8>) {
    |s| == |t| && forall i | 0 <= i < |s| :: SameLetter(s[i], t[i])
  }

  /** The bytes of a literal. */
  function Ascii(s: string): (r: seq<u8>)
    requires forall c | c in s :: (c as int) < 0x80
    ensures |r| == |s| && forall i | 0 <= i < |s| :: r[i] == s[i] as int
  {
    assert forall i | 0 <= i < |s| :: s[i] in s;
    seq<u8>(|s|, i requires 0 <= i < |s| && (s[i] as int) < 0x80 => s[i] as int)
  }

  /** `strnlen`. */
  method Strnlen(s: seq<u8>, max: nat) returns (n: nat)
    requires Terminated(s) || max <= |s|
    ensures n == if TextLength(s) < max then TextLength(s) else max
  {
    n := 0;
    while n < max
      invariant 0 <= n <= max && n <= TextLength(s)
    {
      if s[n] == 0 {
        break;
      }
      n := n + 1;
    }
  }

  /** The texts first differ, other than in case, at character `i`; a text that
      ends counts as zero there. */
  predicate DifferFirstAt(s1: seq<u8>, s2: seq<u8>, i: nat) {
    && i < |s1| && i < |s2| && !SameLetter(s1[i], s2[i])
    && forall j | 0 <= j < i :: s1[j] != 0 && SameLetter(s1[j], s2[j])
  }

  /** `istrncmp`: zero exactly when the first `n` characters of both texts are
      the same up to the case of letters; otherwise the difference, with case,
      of the characters at which they first differ. */
  method Istrncmp(s1: seq<u8>, s2: seq<u8>, n: nat) returns (r: int)
    requires (Terminated(s1) || n <= |s1|) && (Terminated(s2) || n <= |s2|)
    ensures r == 0 <==> SameText(Take(Text(s1), n), Take(Text(s2), n))
    ensures r != 0 ==> exists i: nat :: i < n && DifferFirstAt(s1, s2, i) && r == s1[i] as int - s2[i] as int
  {
    ghost var t1, t2 := Take(Text(s1), n), Take(Text(s2), n);
    var i := 0;
    while i < n
      invariant 0 <= i <= n && i <= TextLength(s1) && i <= TextLength(s2)
      invariant forall j | 0 <= j < i :: s1[j] != 0 && SameLetter(s1[j], s2[j])
    {
      var u1: int, u2: int := s1[i], s2[i];
      ToLowerIff(u1, u2);
      if u1 != u2 && ToLower(u1) != ToLower(u2) {
        assert i < |t1| && i < |t2| ==> !SameLetter(t1[i], t2[i]);
        assert DifferFirstAt(s1, s2, i);
        return u1 - u2;
      }
      if u1 == 0 {
        return 0;
      }
      i := i + 1;
    }
    return 0;
  }
}
