/** Shell-style glob matching as `fnmatch` does it, reduced to `*` (any run of
    characters, `/` included), `?` (any one character) and literal characters. The whole
    name must match. Bracket classes (`[...]`) are not part of this model. */
module Fnmatch {

  /** The pattern has no wildcard character. */
  predicate IsLiteral(pat: string)
  {
    forall i :: 0 <= i < |pat| ==> pat[i] != '*' && pat[i] != '?'
  }

  /** `fnmatch.fnmatch(name, pat)`. */
  predicate GlobMatches(name: string, pat: string)
    decreases |pat| + |name|
  {
    if pat == [] then name == []
    else if pat[0] == '*' then GlobMatches(name, pat[1..]) || (name != [] && GlobMatches(name[1..], pat))
    else name != [] && (pat[0] == '?' || pat[0] == name[0]) && GlobMatches(name[1..], pat[1..])
  }

  /** `fnmatch.filter(names, pat)`: the names that match, in their original order. */
  function Filter(names: seq<string>, pat: string): (r: seq<string>)
    ensures |r| <= |names|
    ensures forall n :: n in r <==> n in names && GlobMatches(n, pat)
  {
    if names == [] then []
    else if GlobMatches(names[0], pat) then [names[0]] + Filter(names[1..], pat)
    else Filter(names[1..], pat)
  }

  /** A pattern without wildcards matches exactly the name it spells. */
  lemma {:induction false} LiteralMatchesItselfOnly(name: string, pat: string)
    requires IsLiteral(pat)
    ensures GlobMatches(name, pat) <==> name == pat
  {
    if pat != [] && name != [] {
      LiteralMatchesItselfOnly(name[1..], pat[1..]);
      if name[0] == pat[0] && name[1..] == pat[1..] {
        assert name == [name[0]] + name[1..] && pat == [pat[0]] + pat[1..];
      }
    }
  }

  /** `*` matches every name. */
  lemma {:induction false} StarMatchesAll(name: string)
    ensures GlobMatches(name, "*")
  {
    if name != [] { StarMatchesAll(name[1..]); }
  }

  /** A literal prefix followed by `*` (a directory pattern, say) matches exactly the names
      that begin with that prefix. */
  lemma {:induction false} PrefixStarMatchesPrefixed(name: string, prefix: string)
    requires IsLiteral(prefix)
    ensures GlobMatches(name, prefix + "*") <==> prefix <= name
  {
    if prefix == [] {
      assert prefix + "*" == "*";
      StarMatchesAll(name);
    } else {
      assert (prefix + "*")[1..] == prefix[1..] + "*";
      if name != [] {
        PrefixStarMatchesPrefixed(name[1..], prefix[1..]);
      }
    }
  }

  /** Each `?` consumes one character and each literal one: a wildcard-free pattern
      apart from `?` matches only names of its own length. */
  lemma {:induction false} NoStarFixesLength(name: string, pat: string)
    requires forall i :: 0 <= i < |pat| ==> pat[i] != '*'
    requires GlobMatches(name, pat)
    ensures |name| == |pat|
  {
    if pat != [] { NoStarFixesLength(name[1..], pat[1..]); }
  }
}
