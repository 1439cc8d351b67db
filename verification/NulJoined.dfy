/** Strings joined by NUL characters, the form in which both ciphers and search hashes bind their context. */
module NulJoined {
  const NUL := '\0'

  predicate NulFree(s: string) {
    NUL !in s
  }

  /** The first NUL is where a NUL-free part ends. */
  lemma SplitAtNul(a: string, b: string, a': string, b': string)
    requires NulFree(a) && NulFree(a') && a + [NUL] + b == a' + [NUL] + b'
    ensures a == a' && b == b'
  {
    var s := a + [NUL] + b;
    assert s[|a|] == NUL && s[|a'|] == NUL;
    assert s[..|a|] == a && s[..|a'|] == a';
    assert s[|a| + 1..] == b && s[|a'| + 1..] == b';
  }
}
