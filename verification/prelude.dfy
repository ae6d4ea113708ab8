/** Small shared definitions. */
module Prelude {
  datatype Option<+T> = None | Some(value: T)

  /** Each word followed by one space. */
  function Spaced(words: seq<string>): string {
    if words == [] then "" else Spaced(words[..|words| - 1]) + words[|words| - 1] + " "
  }

  function Joined(words: seq<string>): string {
    if words == [] then "" else Spaced(words[..|words| - 1]) + words[|words| - 1]
  }

  lemma Regroup<T>(a: seq<T>, b: seq<T>, c: seq<T>)
    ensures (a + b) + c == a + (b + c)
  {
  }

  lemma DropTwice<T>(s: seq<T>, i: nat, j: nat)
    requires i + j <= |s|
    ensures s[i..][j..] == s[i + j..]
  {
  }

  lemma TakeOfDrop<T>(s: seq<T>, i: nat, n: nat)
    requires i + n <= |s|
    ensures s[i..][..n] == s[i..i + n]
  {
  }

  lemma TakeAll<T>(s: seq<T>)
    ensures s[..|s|] == s
  {
  }

  lemma TakeOneMore<T>(s: seq<T>, i: nat)
    requires i < |s|
    ensures s[..i + 1] == s[..i] + [s[i]]
  {
  }

  lemma HeadAndRest<T>(s: seq<T>, k: nat)
    requires k < |s|
    ensures s[k..] == [s[k]] + s[k + 1..]
  {
  }

  lemma SuffixParts<T>(s: seq<T>, i: nat, a: seq<T>, b: seq<T>)
    requires i <= |s| && s[i..] == a + b
    ensures i + |a| <= |s| && s[i..i + |a|] == a && s[i + |a|..] == b
    ensures forall k: nat :: k < |a| ==> s[i + k] == a[k]
  {
    assert s[i..i + |a|] == s[i..][..|a|];
    assert s[i + |a|..] == s[i..][|a|..];
    assert forall k: nat :: k < |a| ==> s[i + k] == s[i..][k];
  }

  // ----- characters and names -----

  predicate IsBlank(c: char) {
    c == ' ' || c == '\t'
  }

  predicate IsSpace(c: char) {
    IsBlank(c) || c == '\n' || c == '\r' || c == '\U{0B}' || c == '\U{0C}'
  }

  /** The position behind the last slash of the first n characters. */
  function AfterSlash(name: string, n: nat): (i: nat)
    requires n <= |name|
    ensures i <= n
  {
    if n == 0 || name[n - 1] == '/' then n else AfterSlash(name, n - 1)
  }

  lemma {:induction false} NoSlashAfter(name: string, n: nat)
    requires n <= |name|
    ensures forall k :: AfterSlash(name, n) <= k < n ==> name[k] != '/'
    ensures AfterSlash(name, n) > 0 ==> name[AfterSlash(name, n) - 1] == '/'
  {
    if n > 0 && name[n - 1] != '/' { NoSlashAfter(name, n - 1); }
  }
}
