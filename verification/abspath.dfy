/** $(abspath): the walk over a path in one buffer is a fold over its components. */
module AbsolutePaths {
  import opened Prelude

  // ----- components -----

  function SkipSlashes(name: string, i: nat): (j: nat)
    requires i <= |name|
    ensures i <= j <= |name| && (j < |name| ==> name[j] != '/')
    decreases |name| - i
  {
    if i < |name| && name[i] == '/' then SkipSlashes(name, i + 1) else i
  }

  function ComponentEnd(name: string, i: nat): (j: nat)
    requires i <= |name|
    ensures i <= j <= |name| && '/' !in name[i..j] && (j < |name| ==> name[j] == '/')
    decreases |name| - i
  {
    if i < |name| && name[i] != '/' then
      var j := ComponentEnd(name, i + 1);
      assert name[i..j] == [name[i]] + name[i + 1..j];
      j
    else i
  }

  /** What stands between the slashes, from position i on. */
  function Components(name: string, i: nat): seq<string>
    requires i <= |name|
    decreases |name| - i
  {
    var start := SkipSlashes(name, i);
    var end := ComponentEnd(name, start);
    if start == end then [] else [name[start..end]] + Components(name, end)
  }

  predicate IsPlain(c: string) {
    c != "" && c != "." && c != ".." && '/' !in c
  }

  predicate AllPlain(stack: seq<string>) {
    forall c :: c in stack ==> IsPlain(c)
  }

  // ----- the simple thing: a stack of directories -----

  /** One component: stay, go up unless at the root, or go down. */
  function Step(stack: seq<string>, c: string): seq<string> {
    if c == "." then stack
    else if c == ".." then if stack == [] then [] else stack[..|stack| - 1]
    else stack + [c]
  }

  function Walk(stack: seq<string>, components: seq<string>): seq<string>
    decreases |components|
  {
    if components == [] then stack else Walk(Step(stack, components[0]), components[1..])
  }

  /** Every directory on the stack followed by a slash, below the root. */
  function Base(stack: seq<string>): string {
    if stack == [] then "/" else Base(stack[..|stack| - 1]) + stack[|stack| - 1] + "/"
  }

  /** The absolute name of the top of the stack. */
  function Path(stack: seq<string>): string {
    if stack == [] then "/" else Base(stack[..|stack| - 1]) + stack[|stack| - 1]
  }

  /** Every name made on the way down is shorter than the limit. */
  predicate Fits(stack: seq<string>, components: seq<string>, limit: nat)
    decreases |components|
  {
    components == [] ||
    ((components[0] != "." && components[0] != ".." ==> |Path(Step(stack, components[0]))| < limit)
     && Fits(Step(stack, components[0]), components[1..], limit))
  }

  predicate IsAbsolute(name: string) {
    name != "" && name[0] == '/'
  }

  /** What $(abspath) promises for a name, given the directories of the starting directory. */
  function Absolute(name: string, cwd: Option<seq<string>>, limit: nat): Option<string> {
    if name == "" || (!IsAbsolute(name) && cwd == None) then None
    else
      var stack := if IsAbsolute(name) then [] else cwd.value;
      var components := Components(name, if IsAbsolute(name) then 1 else 0);
      if Fits(stack, components, limit) then Some(Path(Walk(stack, components))) else None
  }

  lemma StepIsPlain(stack: seq<string>, c: string)
    requires AllPlain(stack) && c != "" && '/' !in c
    ensures AllPlain(Step(stack, c))
  {
    if c == ".." && stack != [] { assert forall d :: d in stack[..|stack| - 1] ==> d in stack; }
  }

  lemma {:induction false} WalkIsPlain(stack: seq<string>, components: seq<string>)
    requires AllPlain(stack) && forall c :: c in components ==> c != "" && '/' !in c
    ensures AllPlain(Walk(stack, components))
    decreases |components|
  {
    if components != [] {
      assert components[0] in components && forall c :: c in components[1..] ==> c in components;
      StepIsPlain(stack, components[0]);
      WalkIsPlain(Step(stack, components[0]), components[1..]);
    }
  }

  lemma {:induction false} ComponentsHaveNoSlash(name: string, i: nat)
    requires i <= |name|
    ensures forall c :: c in Components(name, i) ==> c != "" && '/' !in c
    decreases |name| - i
  {
    var start := SkipSlashes(name, i);
    var end := ComponentEnd(name, start);
    if start != end { ComponentsHaveNoSlash(name, end); }
  }

  // ----- the path of a stack, read again -----

  lemma BaseOfPath(stack: seq<string>, c: string)
    ensures Path(stack + [c]) == Base(stack) + c && Base(stack + [c]) == Base(stack) + c + "/"
  {
    assert (stack + [c])[..|stack|] == stack;
  }

  /** Slashes and components of a prefix are not affected by what follows a slash. */
  lemma {:induction false} ReadOne(name: string, c: string, i: nat, rest: string)
    requires c != "" && '/' !in c && i <= |name| && name[i..] == c + rest && (rest == "" || rest[0] == '/')
    ensures SkipSlashes(name, i) == i && ComponentEnd(name, i) == i + |c|
  {
    assert name[i] == c[0] && c[0] in c;
    EndOfComponent(name, i, |c|);
  }

  lemma {:induction false} EndOfComponent(name: string, i: nat, n: nat)
    requires i + n <= |name| && '/' !in name[i..i + n] && (i + n == |name| || name[i + n] == '/')
    ensures ComponentEnd(name, i) == i + n
    decreases n
  {
    if n > 0 {
      assert name[i] in name[i..i + n];
      assert name[i + 1..i + n] == name[i..i + n][1..];
      EndOfComponent(name, i + 1, n - 1);
    }
  }

  /** What follows the first k directories in the path. */
  function Tail(stack: seq<string>, k: nat): string
    requires k < |stack|
    decreases |stack| - k
  {
    stack[k] + if k + 1 < |stack| then "/" + Tail(stack, k + 1) else ""
  }

  lemma {:induction false} PathHasTail(stack: seq<string>, k: nat)
    requires k < |stack|
    ensures Path(stack) == Base(stack[..k]) + Tail(stack, k)
    decreases |stack| - k
  {
    if k + 1 < |stack| {
      PathHasTail(stack, k + 1);
      assert stack[..k + 1] == stack[..k] + [stack[k]];
      BaseOfPath(stack[..k], stack[k]);
      Regroup(Base(stack[..k]) + stack[k], "/", Tail(stack, k + 1));
      Regroup(Base(stack[..k]), stack[k], "/" + Tail(stack, k + 1));
    } else {
      assert stack[..k] == stack[..|stack| - 1];
      assert stack[k] + "" == stack[k];
    }
  }

  lemma SlashesAreSkipped(name: string, i: nat)
    requires i < |name| && name[i] == '/'
    ensures Components(name, i) == Components(name, i + 1)
  {
  }

  /** One component of the path, and the slash behind it if there is one. */
  lemma ReadComponent(name: string, i: nat, c: string, rest: string) returns (end: nat)
    requires c != "" && '/' !in c && i <= |name| && name[i..] == c + rest && (rest == "" || rest[0] == '/')
    ensures end == i + |c| <= |name| && name[end..] == rest && Components(name, i) == [c] + Components(name, end)
  {
    end := i + |c|;
    SuffixParts(name, i, c, rest);
    ReadOne(name, c, i, rest);
  }

  lemma LastComponent(name: string, i: nat, c: string)
    requires c != "" && '/' !in c && i <= |name| && name[i..] == c + ""
    ensures Components(name, i) == [c]
  {
    var end := ReadComponent(name, i, c, "");
    assert end == |name|;
    assert Components(name, end) == [];
  }

  lemma InnerComponent(name: string, i: nat, c: string, rest: string) returns (next: nat)
    requires c != "" && '/' !in c && i <= |name| && name[i..] == c + ("/" + rest)
    ensures i < next <= |name| && name[next..] == rest
    ensures Components(name, i) == [c] + Components(name, next)
  {
    var end := ReadComponent(name, i, c, "/" + rest);
    next := SlashIsPassed(name, end, rest);
  }

  lemma SlashIsPassed(name: string, end: nat, rest: string) returns (next: nat)
    requires end <= |name| && name[end..] == "/" + rest
    ensures end < next <= |name| && name[next..] == rest && Components(name, next) == Components(name, end)
  {
    SuffixParts(name, end, "/", rest);
    SlashesAreSkipped(name, end);
    next := end + 1;
  }

  lemma TailParts(stack: seq<string>, k: nat)
    requires k < |stack| && AllPlain(stack)
    ensures IsPlain(stack[k])
    ensures if k + 1 == |stack| then Tail(stack, k) == stack[k] + "" && stack[k..] == [stack[k]]
            else Tail(stack, k) == stack[k] + ("/" + Tail(stack, k + 1))
  {
    assert stack[k] in stack;
    HeadAndRest(stack, k);
  }

  lemma {:induction false} ReadTail(name: string, i: nat, stack: seq<string>, k: nat)
    requires k < |stack| && i <= |name| && name[i..] == Tail(stack, k) && AllPlain(stack)
    ensures Components(name, i) == stack[k..]
    decreases |stack| - k
  {
    TailParts(stack, k);
    if k + 1 == |stack| {
      LastComponent(name, i, stack[k]);
    } else {
      var next := InnerComponent(name, i, stack[k], Tail(stack, k + 1));
      ReadTail(name, next, stack, k + 1);
      HeadAndRest(stack, k);
    }
  }

  /** The components of a path are the stack it was made from. */
  lemma PathReadsBack(stack: seq<string>)
    requires AllPlain(stack)
    ensures IsAbsolute(Path(stack)) && Components(Path(stack), 1) == stack
  {
    if stack != [] {
      PathHasTail(stack, 0);
      assert stack[..0] == [];
      ReadTail(Path(stack), 1, stack, 0);
    }
  }

  lemma {:induction false} WalkDown(stack: seq<string>, below: seq<string>, limit: nat)
    requires AllPlain(below) && |Path(stack + below)| < limit
    ensures Walk(stack, below) == stack + below && Fits(stack, below, limit)
    decreases |below|
  {
    if below == [] {
      assert stack + below == stack;
    } else {
      assert IsPlain(below[0]);
      assert (stack + [below[0]]) + below[1..] == stack + below;
      PathOfPrefix(stack + [below[0]], below[1..]);
      WalkDown(stack + [below[0]], below[1..], limit);
    }
  }

  lemma {:induction false} PathOfPrefix(stack: seq<string>, below: seq<string>)
    ensures |Path(stack)| <= |Path(stack + below)| && |Base(stack)| <= |Base(stack + below)|
    decreases |below|
  {
    if below == [] {
      assert stack + below == stack;
    } else {
      var n := |below| - 1;
      PathOfPrefix(stack, below[..n]);
      assert stack + below == (stack + below[..n]) + [below[n]];
      BaseOfPath(stack + below[..n], below[n]);
    }
  }

  lemma StepFits(stack: seq<string>, c: string, limit: nat)
    requires |Path(stack)| < limit
    requires c != "." && c != ".." ==> |Path(Step(stack, c))| < limit
    ensures |Path(Step(stack, c))| < limit
  {
    if c == ".." && stack != [] {
      var n := |stack| - 1;
      TakeOneMore(stack, n);
      TakeAll(stack);
      PathOfPrefix(stack[..n], [stack[n]]);
    }
  }

  lemma {:induction false} WalkFits(stack: seq<string>, components: seq<string>, limit: nat)
    requires |Path(stack)| < limit && Fits(stack, components, limit)
    ensures |Path(Walk(stack, components))| < limit
    decreases |components|
  {
    if components != [] {
      StepFits(stack, components[0], limit);
      WalkFits(Step(stack, components[0]), components[1..], limit);
    }
  }

  /** The result is absolute, none of its components is empty, . or .., and making it absolute
      again, from wherever, changes nothing. */
  lemma AbsoluteIsCanonical(name: string, cwd: Option<seq<string>>, limit: nat, elsewhere: Option<seq<string>>)
    requires cwd.Some? ==> AllPlain(cwd.value) && |Path(cwd.value)| < limit
    requires limit > 1 && Absolute(name, cwd, limit).Some?
    ensures var path := Absolute(name, cwd, limit).value;
      && IsAbsolute(path) && AllPlain(Components(path, 1)) && path == Path(Components(path, 1))
      && Absolute(path, elsewhere, limit) == Some(path)
  {
    var stack := if IsAbsolute(name) then [] else cwd.value;
    var i := if IsAbsolute(name) then 1 else 0;
    var components := Components(name, i);
    var top := Walk(stack, components);
    ComponentsHaveNoSlash(name, i);
    WalkIsPlain(stack, components);
    PathReadsBack(top);
    WalkFits(stack, components, limit);
    assert [] + top == top;
    WalkDown([], top, limit);
  }

  // ----- the walk in the buffer -----

  /** The buffer holds the path of the stack, perhaps with a slash after it. */
  predicate Holds(buffer: seq<char>, stack: seq<string>) {
    buffer == Path(stack) || buffer == Base(stack)
  }

  lemma AboveInBuffer(stack: seq<string>)
    requires AllPlain(stack) && stack != []
    ensures var above, last := stack[..|stack| - 1], stack[|stack| - 1];
      Path(stack) == Base(above) + last && Base(stack) == Base(above) + last + "/" && last != "" && '/' !in last
        && AllPlain(above)
  {
    assert IsPlain(stack[|stack| - 1]);
    assert forall c :: c in stack[..|stack| - 1] ==> c in stack;
  }

  lemma {:induction false} BaseEndsInSlash(stack: seq<string>)
    ensures Base(stack) != "" && Base(stack)[|Base(stack)| - 1] == '/'
  {
  }

  /** Where the slashes are in a path with something below the root. */
  lemma LastSlashOf(buffer: seq<char>, stack: seq<string>)
    requires Holds(buffer, stack) && AllPlain(stack) && stack != []
    ensures var above, last := stack[..|stack| - 1], stack[|stack| - 1];
      && 0 < |Base(above)| < |buffer| <= |Base(above)| + |last| + 1
      && buffer[..|Base(above)|] == Base(above) && buffer[|Base(above)| - 1] == '/'
      && forall k: nat :: |Base(above)| <= k < |buffer| - 1 ==> buffer[k] != '/'
  {
    var above, last := stack[..|stack| - 1], stack[|stack| - 1];
    AboveInBuffer(stack);
    BaseEndsInSlash(above);
    assert forall k: nat :: k < |last| ==> (Base(above) + last)[|Base(above)| + k] == last[k] && last[k] in last;
  }

  /** Back up to the previous component. */
  method BackUp(apath: array<char>, at: nat, ghost stack: seq<string>) returns (dest: nat)
    requires at <= apath.Length && Holds(apath[..at], stack) && AllPlain(stack) && stack != []
    ensures dest < at && apath[..dest] == Base(stack[..|stack| - 1])
  {
    LastSlashOf(apath[..at], stack);
    ghost var n := |Base(stack[..|stack| - 1])|;
    dest := at - 1;
    while apath[dest - 1] != '/'
      invariant n <= dest < at
      decreases dest
    {
      assert apath[n - 1] == apath[..at][n - 1];
      dest := dest - 1;
    }
    assert apath[dest - 1] == apath[..at][dest - 1];
    assert apath[..n] == apath[..at][..n];
  }

  /** Put a slash after the path unless there is one. */
  method Separate(apath: array<char>, at: nat, ghost stack: seq<string>) returns (dest: nat)
    requires 0 < at < apath.Length && Holds(apath[..at], stack) && AllPlain(stack)
    modifies apath
    ensures dest <= at + 1 && apath[..dest] == Base(stack)
  {
    BaseEndsInSlash(stack);
    if stack != [] {
      AboveInBuffer(stack);
      assert Path(stack)[|Path(stack)| - 1] in stack[|stack| - 1];
    }
    dest := at;
    assert apath[at - 1] == apath[..at][at - 1];
    if apath[dest - 1] != '/' {
      apath[dest] := '/';
      dest := dest + 1;
    }
  }

  method Copy(apath: array<char>, at: nat, c: string) returns (dest: nat)
    requires at + |c| <= apath.Length
    modifies apath
    ensures dest == at + |c| && apath[..dest] == old(apath[..at]) + c
  {
    for k := 0 to |c|
      invariant apath[..at + k] == old(apath[..at]) + c[..k]
    {
      apath[at + k] := c[k];
    }
    dest := at + |c|;
  }

  /** Append a component, if the name does not become too long. */
  method GoDown(apath: array<char>, at: nat, limit: nat, c: string, ghost stack: seq<string>)
    returns (dest: nat, ok: bool)
    requires limit < apath.Length && 0 < at < limit && Holds(apath[..at], stack) && AllPlain(stack) && IsPlain(c)
    modifies apath
    ensures ok <==> |Path(stack + [c])| < limit
    ensures ok ==> 0 < dest < limit && apath[..dest] == Path(stack + [c])
  {
    BaseOfPath(stack, c);
    dest := Separate(apath, at, stack);
    ok := limit > dest + |c|;
    if ok { dest := Copy(apath, dest, c); }
  }

  lemma RootOrBelow(buffer: seq<char>, stack: seq<string>)
    requires Holds(buffer, stack) && AllPlain(stack)
    ensures |buffer| > 1 <==> stack != []
  {
    if stack != [] { LastSlashOf(buffer, stack); }
  }

  /** One round of the walk. */
  method Advance(apath: array<char>, at: nat, limit: nat, c: string, ghost stack: seq<string>)
    returns (dest: nat, ok: bool)
    requires limit < apath.Length && 0 < at < limit && Holds(apath[..at], stack) && AllPlain(stack)
    requires c != "" && '/' !in c
    modifies apath
    ensures ok <==> (c != "." && c != ".." ==> |Path(stack + [c])| < limit)
    ensures ok ==> 0 < dest < limit && Holds(apath[..dest], Step(stack, c))
  {
    dest, ok := at, true;
    RootOrBelow(apath[..at], stack);
    if |c| == 1 && c[0] == '.' {
      assert c == ".";
    } else if |c| == 2 && c[0] == '.' && c[1] == '.' {
      assert c == "..";
      if at > 1 {
        dest := BackUp(apath, at, stack);
        BaseEndsInSlash(stack[..|stack| - 1]);
      }
    } else {
      dest, ok := GoDown(apath, at, limit, c, stack);
    }
  }

  method ComponentAt(name: string, i: nat) returns (start: nat, end: nat)
    requires i <= |name|
    ensures start == SkipSlashes(name, i) && end == ComponentEnd(name, start)
  {
    start := i;
    while start < |name| && name[start] == '/'
      invariant start <= |name| && SkipSlashes(name, i) == SkipSlashes(name, start)
    {
      start := start + 1;
    }
    end := start;
    while end < |name| && name[end] != '/'
      invariant end <= |name| && ComponentEnd(name, start) == ComponentEnd(name, end)
    {
      end := end + 1;
    }
  }

  /** The loop over the components. */
  method WalkBuffer(apath: array<char>, at: nat, limit: nat, name: string, from: nat, ghost stack: seq<string>)
    returns (dest: nat, ok: bool)
    requires limit < apath.Length && 0 < at < limit && Holds(apath[..at], stack) && AllPlain(stack)
    requires from <= |name|
    modifies apath
    ensures ok <==> Fits(stack, Components(name, from), limit)
    ensures ok ==> 0 < dest < limit && Holds(apath[..dest], Walk(stack, Components(name, from)))
    ensures ok ==> AllPlain(Walk(stack, Components(name, from)))
  {
    dest, ok := at, true;
    var start, end := from, from;
    ghost var now := stack;
    while start < |name|
      invariant start == end <= |name| && 0 < dest < limit && ok
      invariant Holds(apath[..dest], now) && AllPlain(now)
      invariant Fits(stack, Components(name, from), limit) <==> Fits(now, Components(name, end), limit)
      invariant Walk(stack, Components(name, from)) == Walk(now, Components(name, end))
      decreases |name| - end
    {
      start, end := ComponentAt(name, start);
      if start == end {
        start := |name|;
        assert Components(name, |name|) == [];
        break;
      }
      var c := name[start..end];
      dest, ok := Advance(apath, dest, limit, c, now);
      if !ok { return; }
      StepIsPlain(now, c);
      now := Step(now, c);
      start := end;
    }
  }

  /** abspath. The starting directory is the name of some directories. */
  method Abspath(name: string, startingDirectory: Option<string>, limit: nat, ghost cwd: Option<seq<string>>)
    returns (path: Option<string>)
    requires limit > 1
    requires startingDirectory.Some? <==> cwd.Some?
    requires cwd.Some? ==>
      AllPlain(cwd.value) && startingDirectory.value == Path(cwd.value) && |Path(cwd.value)| < limit
    ensures path == Absolute(name, cwd, limit)
  {
    if name == "" { return None; }
    var apath := new char[limit + 1];
    var dest, from := 1, 1;
    if name[0] != '/' {
      if startingDirectory == None { return None; }
      dest := Copy(apath, 0, startingDirectory.value);
      from := 0;
    } else {
      apath[0] := '/';
    }
    ghost var stack := if IsAbsolute(name) then [] else cwd.value;
    var ok;
    dest, ok := WalkBuffer(apath, dest, limit, name, from, stack);
    if !ok { return None; }
    dest := Strip(apath, dest, Walk(stack, Components(name, from)));
    path := Some(apath[..dest]);
  }

  /** Unless it is root strip trailing separator. */
  method Strip(apath: array<char>, at: nat, ghost stack: seq<string>) returns (dest: nat)
    requires 0 < at <= apath.Length && Holds(apath[..at], stack) && AllPlain(stack)
    ensures 0 < dest <= at && apath[..dest] == Path(stack)
  {
    dest := at;
    assert apath[at - 1] == apath[..at][at - 1];
    BaseEndsInSlash(stack);
    if stack != [] {
      AboveInBuffer(stack);
      BaseEndsInSlash(stack[..|stack| - 1]);
      assert Path(stack)[|Path(stack)| - 1] in stack[|stack| - 1];
    }
    if dest > 1 && apath[dest - 1] == '/' {
      dest := dest - 1;
    }
  }
}
