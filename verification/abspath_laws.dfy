/** Names that have the same absolute name. */
module AbsolutePathLaws {
  import opened Prelude
  import opened AbsolutePaths

  /** Where the components of a name begin. */
  function Start(name: string): (i: nat)
    ensures i <= |name|
  {
    if IsAbsolute(name) then 1 else 0
  }

  // ----- components of a longer name -----

  lemma {:induction false} SlashesBehind(name: string, n: nat, b: string, i: nat)
    requires n <= |name| && name[n..] == b && i <= |b|
    ensures SkipSlashes(name, n + i) == n + SkipSlashes(b, i)
    decreases |b| - i
  {
    if i < |b| && b[i] == '/' { SlashesBehind(name, n, b, i + 1); }
  }

  lemma {:induction false} EndBehind(name: string, n: nat, b: string, i: nat)
    requires n <= |name| && name[n..] == b && i <= |b|
    ensures ComponentEnd(name, n + i) == n + ComponentEnd(b, i)
    decreases |b| - i
  {
    if i < |b| && b[i] != '/' { EndBehind(name, n, b, i + 1); }
  }

  /** The first component ends where the same components follow. */
  lemma SameFirst(name: string, i: nat, start: nat, end: nat, b: string, j: nat, start': nat, end': nat)
    requires i <= |name| && j <= |b|
    requires start == SkipSlashes(name, i) && end == ComponentEnd(name, start)
    requires start' == SkipSlashes(b, j) && end' == ComponentEnd(b, start')
    requires (start == end <==> start' == end') && name[start..end] == b[start'..end']
    requires start != end ==> Components(name, end) == Components(b, end')
    ensures Components(name, i) == Components(b, j)
  {
    FirstComponent(name, i, start, end);
    FirstComponent(b, j, start', end');
  }

  lemma FirstComponent(name: string, i: nat, start: nat, end: nat)
    requires i <= |name| && start == SkipSlashes(name, i) && end == ComponentEnd(name, start)
    ensures Components(name, i) == if start == end then [] else [name[start..end]] + Components(name, end)
  {
  }

  lemma SliceBehind(name: string, n: nat, b: string, i: nat, j: nat)
    requires n <= |name| && name[n..] == b && i <= j <= |b|
    ensures name[n + i..n + j] == b[i..j]
  {
    forall k: nat | k < j - i
      ensures name[n + i..n + j][k] == b[i..j][k]
    {
      assert name[n..][i + k] == name[n + (i + k)];
    }
  }

  /** The components from somewhere on are those of what is there. */
  lemma {:induction false} ComponentsBehind(name: string, n: nat, b: string, i: nat)
    requires n <= |name| && name[n..] == b && i <= |b|
    ensures Components(name, n + i) == Components(b, i)
    decreases |b| - i
  {
    var start := SkipSlashes(b, i);
    var end := ComponentEnd(b, start);
    SlashesBehind(name, n, b, i);
    EndBehind(name, n, b, start);
    SliceBehind(name, n, b, start, end);
    if start != end { ComponentsBehind(name, n, b, end); }
    SameFirst(name, n + i, n + start, n + end, b, i, start, end);
  }

  lemma {:induction false} SlashesInFront(a: string, b: string, i: nat)
    requires i <= |a|
    ensures SkipSlashes(a, i) < |a| ==> SkipSlashes(a + b, i) == SkipSlashes(a, i)
    ensures SkipSlashes(a, i) == |a| ==> SkipSlashes(a + b, i) == SkipSlashes(a + b, |a|)
    decreases |a| - i
  {
    if i < |a| && a[i] == '/' { SlashesInFront(a, b, i + 1); }
  }

  lemma {:induction false} EndInFront(a: string, b: string, i: nat)
    requires i <= |a| && b != "" && b[0] == '/'
    ensures ComponentEnd(a + b, i) == ComponentEnd(a, i)
    decreases |a| - i
  {
    if i < |a| && a[i] != '/' { EndInFront(a, b, i + 1); }
  }

  /** A slash separates the components before it from those behind. */
  lemma {:induction false} ComponentsInFront(a: string, b: string, i: nat)
    requires i <= |a| && b != "" && b[0] == '/'
    ensures Components(a + b, i) == Components(a, i) + Components(a + b, |a|)
    decreases |a| - i
  {
    var start := SkipSlashes(a, i);
    SlashesInFront(a, b, i);
    if start < |a| {
      var end := ComponentEnd(a, start);
      EndInFront(a, b, start);
      ComponentsInFront(a, b, end);
      assert (a + b)[start..end] == a[start..end];
      Regroup([a[start..end]], Components(a, end), Components(a + b, |a|));
    } else {
      SameFromThere(a + b, i, |a|);
    }
  }

  lemma SameFromThere(name: string, i: nat, j: nat)
    requires i <= |name| && j <= |name| && SkipSlashes(name, i) == SkipSlashes(name, j)
    ensures Components(name, i) == Components(name, j)
  {
  }

  lemma NothingInFront<T>(s: seq<T>)
    ensures [] + s == s
  {
  }

  lemma BehindSlash(a: string, b: string)
    ensures Components(a + ("/" + b), |a|) == Components(b, 0)
  {
    ComponentsBehind(a + ("/" + b), |a|, "/" + b, 0);
    SlashesAreSkipped("/" + b, 0);
    ComponentsBehind("/" + b, 1, b, 0);
  }

  /** The components of a name up to a slash, and those of the rest. */
  lemma ComponentsOfBoth(a: string, b: string)
    ensures var name := a + ("/" + b);
      && Components(name, Start(name)) == Components(a, Start(a)) + Components(b, 0)
      && IsAbsolute(name) == (a == "" || IsAbsolute(a))
  {
    var name := a + ("/" + b);
    BehindSlash(a, b);
    if a == "" {
      NothingInFront("/" + b);
      ComponentsBehind("/" + b, 1, b, 0);
      NothingInFront(Components(b, 0));
    } else {
      assert name[0] == a[0];
      ComponentsInFront(a, "/" + b, Start(a));
    }
  }

  // ----- walks one after the other -----

  lemma {:induction false} WalkBoth(stack: seq<string>, x: seq<string>, y: seq<string>, limit: nat)
    ensures Walk(stack, x + y) == Walk(Walk(stack, x), y)
    ensures Fits(stack, x + y, limit) <==> Fits(stack, x, limit) && Fits(Walk(stack, x), y, limit)
    decreases |x|
  {
    if x == [] {
      assert x + y == y;
    } else {
      assert (x + y)[1..] == x[1..] + y;
      WalkBoth(Step(stack, x[0]), x[1..], y, limit);
    }
  }

  /** The absolute name that components lead to. */
  function Made(stack: seq<string>, components: seq<string>, limit: nat): Option<string> {
    if Fits(stack, components, limit) then Some(Path(Walk(stack, components))) else None
  }

  /** A name up to a slash, and then the rest. */
  function MadeOfBoth(a: string, b: seq<string>, cwd: Option<seq<string>>, limit: nat): Option<string> {
    if a == "" then Made([], b, limit)
    else if IsAbsolute(a) then Made([], Components(a, 1) + b, limit)
    else if cwd == None then None
    else Made(cwd.value, Components(a, 0) + b, limit)
  }

  lemma AbsoluteOfBoth(a: string, b: string, cwd: Option<seq<string>>, limit: nat)
    ensures Absolute(a + ("/" + b), cwd, limit) == MadeOfBoth(a, Components(b, 0), cwd, limit)
  {
    ComponentsOfBoth(a, b);
    if a == "" { assert [] + Components(b, 0) == Components(b, 0); }
  }

  /** What is behind the slash can be replaced by what leads from everywhere to the same place by
      names that are no longer. */
  lemma SameBehind(a: string, x: seq<string>, y: seq<string>, cwd: Option<seq<string>>, limit: nat)
    requires forall stack :: Walk(stack, x) == Walk(stack, y)
    requires forall stack :: Fits(stack, x, limit) == Fits(stack, y, limit)
    ensures MadeOfBoth(a, x, cwd, limit) == MadeOfBoth(a, y, cwd, limit)
  {
    forall stack, front
      ensures Made(stack, front + x, limit) == Made(stack, front + y, limit)
    {
      WalkBoth(stack, front, x, limit);
      WalkBoth(stack, front, y, limit);
    }
    assert [] + x == x && [] + y == y;
  }

  lemma OneThenRest(c: string, rest: string)
    requires c != "" && '/' !in c
    ensures Components(c + ("/" + rest), 0) == [c] + Components(rest, 0)
  {
    assert c[0] in c;
    ComponentsOfBoth(c, rest);
    assert c[0..] == c + "";
    LastComponent(c, 0, c);
  }

  // ----- the laws -----

  /** A slash more is no different. */
  lemma DoubledSlash(a: string, b: string, cwd: Option<seq<string>>, limit: nat)
    ensures Absolute(a + ("/" + ("/" + b)), cwd, limit) == Absolute(a + ("/" + b), cwd, limit)
  {
    AbsoluteOfBoth(a, "/" + b, cwd, limit);
    AbsoluteOfBoth(a, b, cwd, limit);
    SlashesAreSkipped("/" + b, 0);
    ComponentsBehind("/" + b, 1, b, 0);
  }

  lemma TrailingSlash(a: string, cwd: Option<seq<string>>, limit: nat)
    requires a != ""
    ensures Absolute(a + "/", cwd, limit) == Absolute(a, cwd, limit)
  {
    assert "/" + "" == "/";
    AbsoluteOfBoth(a, "", cwd, limit);
    var front := Components(a, Start(a));
    assert Components("", 0) == [] && front + [] == front;
  }

  /** "." means to stay. */
  lemma DotStays(a: string, b: string, cwd: Option<seq<string>>, limit: nat)
    ensures Absolute(a + ("/" + ("." + ("/" + b))), cwd, limit) == Absolute(a + ("/" + b), cwd, limit)
  {
    AbsoluteOfBoth(a, "." + ("/" + b), cwd, limit);
    AbsoluteOfBoth(a, b, cwd, limit);
    OneThenRest(".", b);
    var rest := Components(b, 0);
    assert (["."] + rest)[1..] == rest;
    SameBehind(a, ["."] + rest, rest, cwd, limit);
  }

  /** At the root ".." means to stay. */
  lemma UpAtRoot(b: string, cwd: Option<seq<string>>, limit: nat)
    ensures Absolute("/" + (".." + ("/" + b)), cwd, limit) == Absolute("/" + b, cwd, limit)
  {
    AbsoluteOfBoth("", ".." + ("/" + b), cwd, limit);
    AbsoluteOfBoth("", b, cwd, limit);
    OneThenRest("..", b);
    var rest := Components(b, 0);
    assert ([".."] + rest)[1..] == rest;
    NothingInFront("/" + (".." + ("/" + b)));
    NothingInFront("/" + b);
  }

  /** A directory and ".." behind it cancel, but the name of the directory must not be too long. */
  lemma UpCancels(a: string, c: string, b: string, cwd: Option<seq<string>>, limit: nat)
    requires IsPlain(c)
    ensures Absolute(a + ("/" + (c + ("/" + (".." + ("/" + b))))), cwd, limit)
      == if Absolute(a + ("/" + c), cwd, limit).Some? then Absolute(a + ("/" + b), cwd, limit) else None
  {
    var rest := Components(b, 0);
    AbsoluteOfBoth(a, c + ("/" + (".." + ("/" + b))), cwd, limit);
    OneThenRest(c, ".." + ("/" + b));
    OneThenRest("..", b);
    AbsoluteOfBoth(a, c, cwd, limit);
    assert c[0..] == c + "";
    LastComponent(c, 0, c);
    AbsoluteOfBoth(a, b, cwd, limit);
    DownAndUpBehind(a, c, rest, cwd, limit);
  }

  lemma DownAndUpBehind(a: string, c: string, rest: seq<string>, cwd: Option<seq<string>>, limit: nat)
    requires IsPlain(c)
    ensures MadeOfBoth(a, [c] + ([".."] + rest), cwd, limit)
      == if MadeOfBoth(a, [c], cwd, limit).Some? then MadeOfBoth(a, rest, cwd, limit) else None
  {
    if a == "" {
      DownAndUp([], [], c, rest, limit);
      NothingInFront([c] + ([".."] + rest));
      NothingInFront([c]);
      NothingInFront(rest);
    } else if IsAbsolute(a) {
      DownAndUp([], Components(a, 1), c, rest, limit);
    } else if cwd.Some? {
      DownAndUp(cwd.value, Components(a, 0), c, rest, limit);
    }
  }

  lemma DownAndUp(stack: seq<string>, front: seq<string>, c: string, rest: seq<string>, limit: nat)
    requires IsPlain(c)
    ensures Made(stack, front + ([c] + ([".."] + rest)), limit)
      == if Made(stack, front + [c], limit).Some? then Made(stack, front + rest, limit) else None
  {
    var top := Walk(stack, front);
    WalkBoth(stack, front, [c] + ([".."] + rest), limit);
    WalkBoth(stack, front, [c], limit);
    WalkBoth(stack, front, rest, limit);
    WalkBoth(top, [c], [".."] + rest, limit);
    WalkBoth(top + [c], [".."], rest, limit);
    assert [c][1..] == [] && [".."][1..] == [];
    assert (top + [c])[..|top|] == top;
  }

  /** A relative name is one below the starting directory. */
  lemma RelativeIsBelow(name: string, cwd: seq<string>, elsewhere: Option<seq<string>>, limit: nat)
    requires name != "" && !IsAbsolute(name) && AllPlain(cwd) && |Path(cwd)| < limit
    ensures Absolute(name, Some(cwd), limit) == Absolute(Path(cwd) + ("/" + name), elsewhere, limit)
  {
    PathReadsBack(cwd);
    AbsoluteOfBoth(Path(cwd), name, elsewhere, limit);
    assert [] + cwd == cwd;
    WalkDown([], cwd, limit);
    WalkBoth([], cwd, Components(name, 0), limit);
  }
}
