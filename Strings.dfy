/** Recovering the variable part of a string built by `format!` from a fixed
    prefix and suffix; the inverse of the URL and path compositions. */
module Strings {
  import opened Wrappers

  /** The middle of `s` when `s` starts with `prefix` and ends with `suffix`
      (without overlap), and None otherwise. */
  function StripAffixes(s: string, prefix: string, suffix: string): (r: Option<string>)
    ensures r.Some? ==> prefix + r.value + suffix == s
    ensures r.None? <==> !(|prefix| + |suffix| <= |s| && prefix <= s && s[|s| - |suffix|..] == suffix)
  {
    if |prefix| + |suffix| <= |s| && s[..|prefix|] == prefix && s[|s| - |suffix|..] == suffix then
      var m := s[|prefix|..|s| - |suffix|];
      assert s == s[..|prefix|] + m + s[|s| - |suffix|..];
      Some(m)
    else
      None
  }

  /** Stripping is the inverse of composing: the middle is recovered exactly. */
  lemma StripComposed(prefix: string, middle: string, suffix: string)
    ensures StripAffixes(prefix + middle + suffix, prefix, suffix) == Some(middle)
  {
    var s := prefix + middle + suffix;
    assert s[..|prefix|] == prefix;
    assert s[|s| - |suffix|..] == suffix;
    assert s[|prefix|..|s| - |suffix|] == middle;
  }

  /** Composition with a fixed prefix and suffix is injective. */
  lemma ComposedInjective(prefix: string, m1: string, m2: string, suffix: string)
    requires prefix + m1 + suffix == prefix + m2 + suffix
    ensures m1 == m2
  {
    StripComposed(prefix, m1, suffix);
    StripComposed(prefix, m2, suffix);
  }
}
