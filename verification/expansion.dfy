/** Expansion of variable references: recursion is cut off by a flag on each variable. */
module Expansion {
  import opened Prelude

  /** A variable: a recursive one has its value expanded when it is referenced. */
  datatype Variable = Variable(value: string, recursive: bool)

  datatype Error = Unterminated | ReferencesItself(name: string)
  datatype Result = Ok(text: string) | Fatal(error: Error)

  // ----- text and references -----

  /** Text, a reference to a variable by its literal name, or a reference without its
      closing parenthesis, beyond which nothing is read. */
  datatype Piece = Text(text: string) | Ref(name: string) | Open

  /** Position of the first c, or the length of the string. */
  function Find(s: string, c: char): (k: nat)
    ensures k <= |s| && c !in s[..k] && (k < |s| ==> s[k] == c)
  {
    if s == "" || s[0] == c then 0 else
      var k := 1 + Find(s[1..], c);
      assert s[..k] == [s[0]] + s[1..][..k - 1];
      k
  }

  /** The reference at the front of the text, which starts after a $, and what follows it. */
  function Reference(s: string): (r: (Piece, string))
    ensures |r.1| <= |s| && (s != "" ==> |r.1| < |s|)
  {
    if s == "" then (Text("$"), "")
    else if s[0] == '$' then (Text("$"), s[1..])
    else if s[0] == '(' || s[0] == '{' then
      var end := Find(s[1..], if s[0] == '(' then ')' else '}');
      if end == |s| - 1 then (Open, "") else (Ref(s[1..][..end]), s[1..][end + 1..])
    else (Ref([s[0]]), s[1..])
  }

  /** The pieces of a text, from left to right. */
  function Pieces(s: string): seq<Piece> {
    var k := Find(s, '$');
    if k == |s| then [Text(s)]
    else
      var (piece, rest) := Reference(s[k + 1..]);
      [Text(s[..k]), piece] + (if piece.Open? then [] else Pieces(rest))
  }

  function Refs(pieces: seq<Piece>): set<string> {
    set p | p in pieces && p.Ref? :: p.name
  }

  // ----- expansion -----

  /** What a reference to a variable stands for: text put in as it is, or text to be expanded. */
  datatype Definition = Copied(text: string) | Expanded(pieces: seq<Piece>)

  type Definitions = map<string, Definition>

  function DefinitionsOf(vars: map<string, Variable>): Definitions {
    map name | name in vars :: Define(vars[name])
  }

  /** An empty value is never expanded. */
  function Define(v: Variable): Definition {
    if v.value == "" || !v.recursive then Copied(v.value) else Expanded(Pieces(v.value))
  }

  predicate Active(defs: Definitions, name: string) {
    name in defs && defs[name].Expanded?
  }

  function Immediate(defs: Definitions, name: string): string
    requires !Active(defs, name)
  {
    if name in defs then defs[name].text else ""
  }

  /** What make computes, with the set of variables being expanded. */
  function Expand(defs: Definitions, expanding: set<string>, pieces: seq<Piece>): Result
    decreases defs.Keys - expanding, |pieces|
  {
    if pieces == [] then Ok("")
    else
      match pieces[0]
      case Open => Fatal(Unterminated)
      case Text(t) => Prepend(t, Expand(defs, expanding, pieces[1..]))
      case Ref(name) =>
        match ExpandVariable(defs, expanding, name)
        case Fatal(e) => Fatal(e)
        case Ok(t) => Prepend(t, Expand(defs, expanding, pieces[1..]))
  }

  function ExpandVariable(defs: Definitions, expanding: set<string>, name: string): Result
    decreases defs.Keys - expanding, 0
  {
    if !Active(defs, name) then Ok(Immediate(defs, name))
    else if name in expanding then Fatal(ReferencesItself(name))
    else
      assert name in defs.Keys - expanding;
      Expand(defs, expanding + {name}, defs[name].pieces)
  }

  function Prepend(t: string, r: Result): Result {
    if r.Ok? then Ok(t + r.text) else r
  }

  /** The plain meaning of a text: every reference replaced by the meaning of the value,
      to at most the given depth, without any flag. */
  function Meaning(defs: Definitions, depth: nat, pieces: seq<Piece>): Option<string>
    decreases depth, |pieces|
  {
    if pieces == [] then Some("")
    else
      var first := match pieces[0]
        case Open => None
        case Text(t) => Some(t)
        case Ref(name) =>
          if !Active(defs, name) then Some(Immediate(defs, name))
          else if depth == 0 then None
          else Meaning(defs, depth - 1, defs[name].pieces);
      var rest := Meaning(defs, depth, pieces[1..]);
      if first.Some? && rest.Some? then Some(first.value + rest.value) else None
  }

  lemma OneFewerLeft(all: set<string>, expanding: set<string>, name: string)
    requires name in all - expanding
    ensures |all - (expanding + {name})| == |all - expanding| - 1
  {
    assert all - (expanding + {name}) == (all - expanding) - {name};
  }

  /** A finished expansion is the plain meaning; there is no use in looking deeper than the
      number of variables. */
  lemma {:induction false} ExpansionIsMeaning(defs: Definitions, expanding: set<string>, pieces: seq<Piece>, depth: nat)
    requires Expand(defs, expanding, pieces).Ok? && |defs.Keys - expanding| <= depth
    ensures Meaning(defs, depth, pieces) == Some(Expand(defs, expanding, pieces).text)
    decreases defs.Keys - expanding, |pieces|
  {
    if pieces != [] {
      if pieces[0].Ref? && Active(defs, pieces[0].name) {
        var name := pieces[0].name;
        OneFewerLeft(defs.Keys, expanding, name);
        ExpansionIsMeaning(defs, expanding + {name}, defs[name].pieces, depth - 1);
      }
      ExpansionIsMeaning(defs, expanding, pieces[1..], depth);
    }
  }

  // ----- the reference graph -----

  /** A chain of references from the text: each name is referenced by the text before it
      and has its value expanded. */
  ghost predicate Chain(defs: Definitions, pieces: seq<Piece>, names: seq<string>)
    decreases |names|
  {
    names == [] ||
    (names[0] in Refs(pieces) && Active(defs, names[0]) && Chain(defs, defs[names[0]].pieces, names[1..]))
  }

  /** The text at the end of a chain. */
  ghost function ChainEnd(defs: Definitions, pieces: seq<Piece>, names: seq<string>): seq<Piece>
    requires Chain(defs, pieces, names)
    decreases |names|
  {
    if names == [] then pieces else ChainEnd(defs, defs[names[0]].pieces, names[1..])
  }

  ghost predicate Repeats(names: seq<string>) {
    exists i, j :: 0 <= i < j < |names| && names[i] == names[j]
  }

  /** A cycle of recursive variables can be reached from the text. */
  ghost predicate ReachesCycle(defs: Definitions, pieces: seq<Piece>) {
    exists names :: Chain(defs, pieces, names) && Repeats(names)
  }

  /** A reference without its closing parenthesis can be reached from the text. */
  ghost predicate ReachesOpen(defs: Definitions, pieces: seq<Piece>) {
    exists names :: Chain(defs, pieces, names) && Open in ChainEnd(defs, pieces, names)
  }

  lemma {:induction false} OkMeansEveryRefOk(defs: Definitions, expanding: set<string>, pieces: seq<Piece>,
                                             name: string)
    requires Expand(defs, expanding, pieces).Ok? && name in Refs(pieces) && Active(defs, name)
    ensures name !in expanding && Expand(defs, expanding + {name}, defs[name].pieces).Ok?
  {
    if pieces[0] != Ref(name) {
      assert pieces == [pieces[0]] + pieces[1..];
      OkMeansEveryRefOk(defs, expanding, pieces[1..], name);
    }
  }

  lemma {:induction false} OkMeansNoOpen(defs: Definitions, expanding: set<string>, pieces: seq<Piece>)
    requires Expand(defs, expanding, pieces).Ok?
    ensures Open !in pieces
  {
    if pieces != [] {
      OkMeansNoOpen(defs, expanding, pieces[1..]);
      assert pieces == [pieces[0]] + pieces[1..];
    }
  }

  /** When expansion succeeds, no chain repeats a name or meets one being expanded. */
  lemma {:induction false} OkMeansGoodChains(defs: Definitions, expanding: set<string>, pieces: seq<Piece>,
                                             names: seq<string>)
    requires Expand(defs, expanding, pieces).Ok? && Chain(defs, pieces, names)
    ensures !Repeats(names) && Open !in ChainEnd(defs, pieces, names)
    ensures forall n :: n in names ==> n !in expanding
    decreases |names|
  {
    if names == [] {
      OkMeansNoOpen(defs, expanding, pieces);
    } else {
      var n := names[0];
      OkMeansEveryRefOk(defs, expanding, pieces, n);
      OkMeansGoodChains(defs, expanding + {n}, defs[n].pieces, names[1..]);
      assert names == [n] + names[1..];
      forall i, j | 0 <= i < j < |names| ensures names[i] != names[j] {
        if i > 0 { assert names[1..][i - 1] == names[i] && names[1..][j - 1] == names[j]; }
        else { assert names[j] in names[1..]; }
      }
    }
  }

  /** When expansion fails, there is a chain to the cause. */
  lemma {:induction false} FatalHasChain(defs: Definitions, expanding: set<string>, pieces: seq<Piece>)
    returns (names: seq<string>)
    requires Expand(defs, expanding, pieces).Fatal?
    ensures Chain(defs, pieces, names)
    ensures match Expand(defs, expanding, pieces).error
      case Unterminated => Open in ChainEnd(defs, pieces, names)
      case ReferencesItself(n) =>
        names != [] && names[|names| - 1] == n && (n in expanding || n in names[..|names| - 1])
    decreases defs.Keys - expanding, |pieces|
  {
    if pieces[0].Open? {
      names := [];
    } else if pieces[0].Ref? && ExpandVariable(defs, expanding, pieces[0].name).Fatal? {
      var n := pieces[0].name;
      if n in expanding {
        names := [n];
      } else {
        assert n in defs.Keys - expanding;
        var rest := FatalHasChain(defs, expanding + {n}, defs[n].pieces);
        names := [n] + rest;
        assert names[1..] == rest;
        if rest != [] { assert names[..|names| - 1] == [n] + rest[..|rest| - 1]; }
      }
    } else {
      names := FatalHasChain(defs, expanding, pieces[1..]);
      ChainFromTail(defs, pieces, names);
    }
  }

  lemma ChainFromTail(defs: Definitions, pieces: seq<Piece>, names: seq<string>)
    requires pieces != [] && Chain(defs, pieces[1..], names)
    ensures Chain(defs, pieces, names)
    ensures Open in ChainEnd(defs, pieces[1..], names) ==> Open in ChainEnd(defs, pieces, names)
  {
    assert pieces == [pieces[0]] + pieces[1..];
  }

  /** Expansion is fatal exactly when a cycle of recursive variables, or a reference without
      its closing parenthesis, can be reached. */
  lemma FatalExactlyWhen(defs: Definitions, pieces: seq<Piece>)
    ensures Expand(defs, {}, pieces).Fatal? <==> ReachesCycle(defs, pieces) || ReachesOpen(defs, pieces)
    ensures Expand(defs, {}, pieces).Fatal? && Expand(defs, {}, pieces).error.ReferencesItself? ==>
      ReachesCycle(defs, pieces)
    ensures Expand(defs, {}, pieces) == Fatal(Unterminated) ==> ReachesOpen(defs, pieces)
  {
    if Expand(defs, {}, pieces).Ok? {
      forall names | Chain(defs, pieces, names)
        ensures !Repeats(names) && Open !in ChainEnd(defs, pieces, names)
      {
        OkMeansGoodChains(defs, {}, pieces, names);
      }
    } else {
      var names := FatalHasChain(defs, {}, pieces);
      if Expand(defs, {}, pieces).error.ReferencesItself? {
        var n, last := Expand(defs, {}, pieces).error.name, |names| - 1;
        var i :| 0 <= i < last && names[..last][i] == n;
        assert names[i] == names[last];
      }
    }
  }

  // ----- the flag against unbounded recursion -----

  lemma {:induction false} MeaningOfRef(defs: Definitions, depth: nat, pieces: seq<Piece>, name: string)
    requires Meaning(defs, depth, pieces).Some? && name in Refs(pieces) && Active(defs, name)
    ensures depth > 0 && Meaning(defs, depth - 1, defs[name].pieces).Some?
  {
    if pieces[0] != Ref(name) {
      assert pieces == [pieces[0]] + pieces[1..];
      MeaningOfRef(defs, depth, pieces[1..], name);
    }
  }

  lemma {:induction false} MeaningHasNoOpen(defs: Definitions, depth: nat, pieces: seq<Piece>)
    requires Meaning(defs, depth, pieces).Some?
    ensures Open !in pieces
  {
    if pieces != [] {
      MeaningHasNoOpen(defs, depth, pieces[1..]);
      assert pieces == [pieces[0]] + pieces[1..];
    }
  }

  /** Every link of a chain uses up one level. */
  lemma {:induction false} ChainUsesDepth(defs: Definitions, depth: nat, pieces: seq<Piece>, names: seq<string>)
    requires Meaning(defs, depth, pieces).Some? && Chain(defs, pieces, names)
    ensures |names| <= depth && Meaning(defs, depth - |names|, ChainEnd(defs, pieces, names)).Some?
    decreases |names|
  {
    if names != [] {
      MeaningOfRef(defs, depth, pieces, names[0]);
      ChainUsesDepth(defs, depth - 1, defs[names[0]].pieces, names[1..]);
    }
  }

  /** A chain can be cut in two. */
  lemma {:induction false} ChainSplits(defs: Definitions, pieces: seq<Piece>, names: seq<string>, k: nat)
    requires Chain(defs, pieces, names) && 0 < k <= |names|
    ensures Active(defs, names[k - 1])
    ensures Chain(defs, pieces, names[..k]) && ChainEnd(defs, pieces, names[..k]) == defs[names[k - 1]].pieces
    ensures Chain(defs, defs[names[k - 1]].pieces, names[k..])
    decreases k
  {
    assert names[..k][1..] == names[1..][..k - 1];
    assert names[1..][k - 1..] == names[k..];
    if k > 1 {
      ChainSplits(defs, defs[names[0]].pieces, names[1..], k - 1);
    }
  }

  /** From a variable that refers to itself through a chain, the plain meaning is never reached. */
  lemma {:induction false} CycleHasNoMeaning(defs: Definitions, name: string, names: seq<string>, depth: nat)
    requires Active(defs, name) && names != [] && names[|names| - 1] == name
    requires Chain(defs, defs[name].pieces, names)
    ensures Meaning(defs, depth, defs[name].pieces) == None
  {
    var pieces := defs[name].pieces;
    if Meaning(defs, depth, pieces).Some? {
      ChainUsesDepth(defs, depth, pieces, names);
      ChainSplits(defs, pieces, names, |names|);
      assert names[..|names|] == names;
      CycleHasNoMeaning(defs, name, names, depth - |names|);
    }
  }

  lemma ChainBegins(defs: Definitions, pieces: seq<Piece>, names: seq<string>, k: nat)
    requires Chain(defs, pieces, names) && 0 < k <= |names|
    ensures Chain(defs, pieces, names[..k])
  {
    ChainSplits(defs, pieces, names, k);
  }

  /** From one name of a chain to another there is the chain of what is in between. */
  lemma ChainBetween(defs: Definitions, pieces: seq<Piece>, names: seq<string>, i: nat, j: nat)
    requires Chain(defs, pieces, names) && i < j < |names|
    ensures Active(defs, names[i]) && Chain(defs, defs[names[i]].pieces, names[i + 1..j + 1])
    ensures Chain(defs, pieces, names[..i + 1]) && ChainEnd(defs, pieces, names[..i + 1]) == defs[names[i]].pieces
  {
    ChainSplits(defs, pieces, names, i + 1);
    TakeOfDrop(names, i + 1, j - i);
    ChainBegins(defs, defs[names[i]].pieces, names[i + 1..], j - i);
  }

  lemma RepeatHasNoMeaning(defs: Definitions, depth: nat, pieces: seq<Piece>, names: seq<string>, i: nat, j: nat)
    requires Chain(defs, pieces, names) && i < j < |names| && names[i] == names[j]
    ensures Meaning(defs, depth, pieces) == None
  {
    ChainBetween(defs, pieces, names, i, j);
    if Meaning(defs, depth, pieces).Some? {
      ChainUsesDepth(defs, depth, pieces, names[..i + 1]);
      CycleHasNoMeaning(defs, names[i], names[i + 1..j + 1], depth - i - 1);
    }
  }

  /** A text with a meaning reaches neither a cycle nor an open reference. */
  lemma MeaningHasGoodChains(defs: Definitions, depth: nat, pieces: seq<Piece>, names: seq<string>)
    requires Meaning(defs, depth, pieces).Some? && Chain(defs, pieces, names)
    ensures !Repeats(names) && Open !in ChainEnd(defs, pieces, names)
  {
    ChainUsesDepth(defs, depth, pieces, names);
    MeaningHasNoOpen(defs, depth - |names|, ChainEnd(defs, pieces, names));
    forall i, j | 0 <= i < j < |names| ensures names[i] != names[j] {
      if names[i] == names[j] { RepeatHasNoMeaning(defs, depth, pieces, names, i, j); }
    }
  }

  lemma {:induction false} DeeperIsSame(defs: Definitions, depth: nat, depth': nat, pieces: seq<Piece>)
    requires depth <= depth' && Meaning(defs, depth, pieces).Some?
    ensures Meaning(defs, depth', pieces) == Meaning(defs, depth, pieces)
    decreases depth, |pieces|
  {
    if pieces != [] {
      if pieces[0].Ref? && Active(defs, pieces[0].name) {
        DeeperIsSame(defs, depth - 1, depth' - 1, defs[pieces[0].name].pieces);
      }
      DeeperIsSame(defs, depth, depth', pieces[1..]);
    }
  }

  /** The flag loses nothing: expansion succeeds with a text exactly when substituting
      references to some finite depth gives that text. */
  lemma ExpansionExactlyMeaning(defs: Definitions, pieces: seq<Piece>, text: string)
    ensures Expand(defs, {}, pieces) == Ok(text) <==> exists depth: nat :: Meaning(defs, depth, pieces) == Some(text)
  {
    var all := |defs.Keys|;
    assert defs.Keys - {} == defs.Keys;
    if Expand(defs, {}, pieces).Ok? {
      ExpansionIsMeaning(defs, {}, pieces, all);
    }
    if depth: nat :| Meaning(defs, depth, pieces) == Some(text) {
      if Expand(defs, {}, pieces).Fatal? {
        FatalExactlyWhen(defs, pieces);
        var names :| Chain(defs, pieces, names) && (Repeats(names) || Open in ChainEnd(defs, pieces, names));
        MeaningHasGoodChains(defs, depth, pieces, names);
      }
      DeeperIsSame(defs, depth, depth + all, pieces);
      DeeperIsSame(defs, all, depth + all, pieces);
    }
  }

  // ----- the output buffer and the expander -----

  const VARIABLE_BUFFER_ZONE := 5

  /** The buffer that expansions are written to. It grows, and always has some room to spare. */
  class VariableBuffer {
    var length: nat
    var data: array<char>

    ghost predicate Valid()
      reads this
    {
      0 < length <= data.Length <= length + 1
    }

    constructor ()
      ensures Valid() && fresh(data)
    {
      length := 200;
      data := new char[200](_ => '\0');
    }

    /** The reallocation when the buffer is too small. */
    method Grow(newLength: nat)
      requires Valid() && newLength >= length
      modifies this
      ensures Valid() && length == newLength && fresh(data)
      ensures data[..old(length)] == old(data[..length])
    {
      var bigger := new char[newLength + 1](_ => '\0');
      for i := 0 to length
        invariant length == old(length) && data == old(data) && length <= bigger.Length
        invariant bigger[..i] == data[..i] && data[..] == old(data[..])
      {
        bigger[i] := data[i];
      }
      length, data := newLength, bigger;
    }

    /** variable_buffer_output: write the string at ptr and return the end of it. */
    method Output(ptr: nat, s: string) returns (end: nat)
      requires Valid() && ptr < length
      modifies this, data
      ensures Valid() && (data == old(data) || fresh(data))
      ensures end == ptr + |s| && end + VARIABLE_BUFFER_ZONE + 1 <= length
      ensures data[..end] == old(data[..ptr]) + s && data[end] == '\0'
    {
      end := ptr + |s|;
      if end + VARIABLE_BUFFER_ZONE + 1 > length {
        ghost var before := data[..length];
        Grow(if end + 100 > 2 * length then end + 100 else 2 * length);
        assert data[..ptr] == before[..ptr];
      }
      Copy(ptr, s);
      data[end] := '\0';
    }

    /** mempcpy into the buffer. */
    method Copy(ptr: nat, s: string)
      requires Valid() && ptr + |s| < length
      modifies data
      ensures data[..ptr + |s|] == old(data[..ptr]) + s
    {
      for i := 0 to |s|
        invariant data[..ptr + i] == old(data[..ptr]) + s[..i]
      {
        data[ptr + i] := s[i];
      }
    }
  }

  lemma WithoutZero(written: string, text: string)
    requires written == "" + (text + ['\0'])
    ensures |written| > 0 && written[..|written| - 1] == text
  {
  }

  /** The expander: the variables, the flags on those being expanded, and the current buffer. */
  class Expander {
    const vars: map<string, Variable>
    var expanding: set<string>
    var buffer: VariableBuffer

    constructor (vars: map<string, Variable>)
      ensures this.vars == vars && expanding == {} && buffer.Valid() && fresh(buffer) && fresh(buffer.data)
    {
      this.vars := vars;
      expanding := {};
      buffer := new VariableBuffer();
    }

    ghost function Defs(): Definitions {
      DefinitionsOf(vars)
    }

    /** The text in the buffer up to `end`. */
    ghost predicate Has(end: nat, text: string)
      reads this, buffer, buffer.data
    {
      buffer.Valid() && end < buffer.length && buffer.data[..end] == text
    }

    /** The buffer is the same one, though it may have been reallocated. */
    twostate predicate SameBuffer()
      reads this, buffer
    {
      buffer == old(buffer) && (buffer.data == old(buffer.data) || fresh(buffer.data))
    }

    /** Expand a text into a buffer of its own. */
    method ExpandAside(text: string) returns (value: string, error: Option<Error>)
      modifies this
      ensures match Expand(Defs(), old(expanding), Pieces(text))
        case Ok(t) => error == None && value == t && expanding == old(expanding) && buffer == old(buffer)
        case Fatal(e) => error == Some(e)
      decreases vars.Keys - expanding, 6
    {
      var saved := buffer;
      buffer := new VariableBuffer();
      var end;
      end, error := ExpandString(0, text, "");
      if error.Some? { return "", error; }
      ghost var written := buffer.data[..end];
      WithoutZero(written, Expand(Defs(), old(expanding), Pieces(text)).text);
      value := buffer.data[..end - 1];
      assert value == written[..end - 1];
      buffer := saved;
    }

    /** recursively_expand_for_file: set the flag, expand the value, and take the flag back. */
    method RecursivelyExpand(name: string) returns (value: string, error: Option<Error>)
      requires Active(Defs(), name)
      modifies this
      ensures match ExpandVariable(Defs(), old(expanding), name)
        case Ok(t) => error == None && value == t && expanding == old(expanding) && buffer == old(buffer)
        case Fatal(e) => error == Some(e)
      decreases vars.Keys - expanding, 0
    {
      if name in expanding { return "", Some(ReferencesItself(name)); }
      expanding := expanding + {name};
      value, error := ExpandAside(vars[name].value);
      if error.Some? { return "", error; }
      expanding := expanding - {name};
    }

    /** expand_variable_output */
    method ExpandVariableOutput(start: nat, name: string, ghost text: string) returns (end: nat, error: Option<Error>)
      requires Has(start, text)
      modifies this, buffer, buffer.data
      ensures match ExpandVariable(Defs(), old(expanding), name)
        case Ok(t) => error == None && expanding == old(expanding) && SameBuffer() && Has(end, text + t)
        case Fatal(e) => error == Some(e)
      decreases vars.Keys - expanding, 1
    {
      if name !in vars || vars[name].value == "" {
        assert text + "" == text;
        return start, None;
      }
      var value := vars[name].value;
      if vars[name].recursive {
        value, error := RecursivelyExpand(name);
        if error.Some? { return start, error; }
      }
      end := buffer.Output(start, value);
      error := None;
    }

    /** The dispatch on what follows a $; p is the text after it. */
    method ExpandReference(start: nat, p: string, ghost text: string)
      returns (end: nat, rest: string, error: Option<Error>)
      requires Has(start, text)
      modifies this, buffer, buffer.data
      ensures var value := ExpandPiece(Defs(), old(expanding), Reference(p).0);
        if value.Fatal? then
          error == Some(value.error)
        else
          && error == None && expanding == old(expanding) && rest == Reference(p).1
          && SameBuffer() && Has(end, text + value.text)
      decreases vars.Keys - expanding, 2
    {
      if p == "" || p[0] == '$' {
        end := buffer.Output(start, "$");
        return end, if p == "" then "" else p[1..], None;
      }
      var name := [p[0]];
      rest := p[1..];
      if p[0] == '(' || p[0] == '{' {
        var close := Find(rest, if p[0] == '(' then ')' else '}');
        if close == |rest| { return start, "", Some(Unterminated); }
        name, rest := rest[..close], rest[close + 1..];
      }
      end, error := ExpandVariableOutput(start, name, text);
    }

    /** One round of the loop of expand_string_buf: copy up to the next $, and expand the
        reference there. */
    method ExpandRound(start: nat, s: string, ghost text: string)
      returns (end: nat, rest: string, error: Option<Error>, ghost more: string)
      requires Has(start, text) && Find(s, '$') < |s|
      modifies this, buffer, buffer.data
      ensures error.Some? ==> Expand(Defs(), old(expanding), Pieces(s)) == Fatal(error.value)
      ensures error == None ==> expanding == old(expanding) && SameBuffer() && Has(end, text + more) && |rest| < |s|
      ensures error == None ==>
        Expand(Defs(), old(expanding), Pieces(s)) == Prepend(more, Expand(Defs(), old(expanding), Pieces(rest)))
      decreases vars.Keys - expanding, 3
    {
      var k := Find(s, '$');
      NextPiece(Defs(), expanding, s, k, Reference(s[k + 1..]));
      end := buffer.Output(start, s[..k]);
      ghost var value := ExpandPiece(Defs(), expanding, Reference(s[k + 1..]).0);
      end, rest, error := ExpandReference(end, s[k + 1..], text + s[..k]);
      more := "";
      if error == None {
        more := s[..k] + value.text;
        Regroup(text, s[..k], value.text);
      }
    }

    /** expand_string_buf. The last piece is written with its terminating zero. */
    method ExpandString(start: nat, str: string, ghost text: string) returns (end: nat, error: Option<Error>)
      requires Has(start, text)
      modifies this, buffer, buffer.data
      ensures match Expand(Defs(), old(expanding), Pieces(str))
        case Ok(t) => error == None && expanding == old(expanding) && SameBuffer() && Has(end, text + (t + ['\0']))
        case Fatal(e) => error == Some(e)
      decreases vars.Keys - expanding, 4
    {
      var rest := str;
      ghost var written, more := "", "";
      end, error := start, None;
      assert text + "" == text;
      while Find(rest, '$') < |rest|
        invariant expanding == old(expanding) && SameBuffer() && Has(end, text + written)
        invariant Expand(Defs(), old(expanding), Pieces(str))
          == Prepend(written, Expand(Defs(), old(expanding), Pieces(rest)))
        decreases |rest|
      {
        end, rest, error, more := ExpandRound(end, rest, text + written);
        if error.Some? { return; }
        PrependTwice(written, more, Expand(Defs(), expanding, Pieces(rest)));
        Regroup(text, written, more);
        written := written + more;
      }
      LastPiece(Defs(), expanding, rest);
      Regroup(text, written, rest + ['\0']);
      Regroup(written, rest, ['\0']);
      end := buffer.Output(end, rest + ['\0']);
      error := None;
    }
  }

  lemma PrependTwice(a: string, b: string, r: Result)
    ensures Prepend(a, Prepend(b, r)) == Prepend(a + b, r)
  {
    if r.Ok? { Regroup(a, b, r.text); }
  }

  /** What one piece expands to. */
  function ExpandPiece(defs: Definitions, expanding: set<string>, piece: Piece): Result {
    match piece
    case Open => Fatal(Unterminated)
    case Text(t) => Ok(t)
    case Ref(name) => ExpandVariable(defs, expanding, name)
  }

  lemma FirstTwo(defs: Definitions, expanding: set<string>, t: string, piece: Piece, tail: seq<Piece>)
    ensures Expand(defs, expanding, [Text(t), piece] + tail) ==
      var value := ExpandPiece(defs, expanding, piece);
      if value.Fatal? then value else Prepend(t + value.text, Expand(defs, expanding, tail))
  {
    assert ([Text(t), piece] + tail)[1..] == [piece] + tail;
    assert ([piece] + tail)[1..] == tail;
    PrependTwice(t, if ExpandPiece(defs, expanding, piece).Ok? then ExpandPiece(defs, expanding, piece).text else "",
                 Expand(defs, expanding, tail));
  }

  lemma TextAlone(defs: Definitions, expanding: set<string>, t: string)
    ensures Expand(defs, expanding, [Text(t)]) == Ok(t)
  {
    assert [Text(t)][1..] == [] && t + "" == t;
  }

  /** Without a reference the text is its own expansion. */
  lemma LastPiece(defs: Definitions, expanding: set<string>, s: string)
    requires Find(s, '$') == |s|
    ensures Expand(defs, expanding, Pieces(s)) == Ok(s)
  {
    TextAlone(defs, expanding, s);
  }

  lemma PiecesFrom(s: string, k: nat, r: (Piece, string))
    requires k == Find(s, '$') < |s| && r == Reference(s[k + 1..])
    ensures Pieces(s) == [Text(s[..k]), r.0] + if r.0.Open? then [] else Pieces(r.1)
  {
  }

  /** Expansion up to and including the first reference, then the rest. */
  lemma NextPiece(defs: Definitions, expanding: set<string>, s: string, k: nat, r: (Piece, string))
    requires k == Find(s, '$') < |s| && r == Reference(s[k + 1..])
    ensures var value := ExpandPiece(defs, expanding, r.0);
      Expand(defs, expanding, Pieces(s)) ==
        if value.Fatal? then value else Prepend(s[..k] + value.text, Expand(defs, expanding, Pieces(r.1)))
  {
    PiecesFrom(s, k, r);
    FirstTwo(defs, expanding, s[..k], r.0, if r.0.Open? then [] else Pieces(r.1));
  }
}
