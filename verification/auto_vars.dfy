/** The lists of prerequisites in the automatic variables $+, $^ and $|. */
module AutomaticVariables {
  import opened HashTables
  import opened Prelude

  /** A prerequisite. It is skipped when it still needs a second expansion or is to be
      ignored in automatic variables. Whether it is order-only is kept apart, since it changes. */
  datatype Dep = Dep(name: string, skipped: bool)

  // ----- members of archives -----

  function OpenParen(name: string, i: nat): (p: nat)
    requires i <= |name|
    ensures i <= p <= |name| && (p < |name| ==> name[p] == '(')
    decreases |name| - i
  {
    if i == |name| || name[i] == '(' then i else OpenParen(name, i + 1)
  }

  /** ar_name */
  predicate IsMember(name: string) {
    var p := OpenParen(name, 0);
    0 < p < |name| - 2 && name[|name| - 1] == ')'
  }

  /** What the lists show: the name, or the member between the parentheses. */
  function Shown(name: string): (text: string)
    ensures |text| <= |name|
  {
    if IsMember(name) then name[OpenParen(name, 0) + 1..|name| - 1] else name
  }

  lemma {:induction false} OpensAt(name: string, i: nat, p: nat)
    requires i <= p <= |name| && '(' !in name[i..p] && (p < |name| ==> name[p] == '(')
    ensures OpenParen(name, i) == p
    decreases p - i
  {
    if i < p {
      assert name[i] == name[i..p][0] && name[i + 1..p] == name[i..p][1..];
      OpensAt(name, i + 1, p);
    }
  }

  /** A member of an archive is shown without the archive. */
  lemma MemberIsShown(archive: string, member: string)
    requires archive != "" && '(' !in archive && member != ""
    ensures Shown(archive + "(" + member + ")") == member
  {
    var name := archive + "(" + member + ")";
    assert name[0..|archive|] == archive;
    OpensAt(name, 0, |archive|);
    assert name[|archive| + 1..|name| - 1] == member;
  }

  /** A name is shown as it is when it has no parenthesis, nothing stands before it, or the last
      character does not close it. */
  lemma NameIsShown(name: string)
    requires '(' !in name || name[0] == '(' || name[|name| - 1] != ')'
    ensures Shown(name) == name
  {
    if '(' !in name {
      assert name[0..|name|] == name;
      OpensAt(name, 0, |name|);
    }
  }

  // ----- which prerequisites are listed -----

  /** Names and order-only flags as the makefile gives them. */
  datatype Deps = Deps(list: seq<Dep>, orderOnly: seq<bool>) {

    predicate Valid() {
      |list| == |orderOnly|
    }

    predicate Counted(i: nat, s: string)
      requires i < |list|
    {
      !list[i].skipped && list[i].name == s
    }

    /** The first mention of a name among the first n. */
    function First(n: nat, s: string): (r: Option<nat>)
      requires n <= |list|
      ensures r.Some? ==> r.value < n && Counted(r.value, s)
    {
      if n == 0 then None
      else if First(n - 1, s).Some? then First(n - 1, s)
      else if Counted(n - 1, s) then Some(n - 1) else None
    }

    lemma {:induction false} FirstIsFirst(n: nat, s: string)
      requires n <= |list|
      ensures forall i: nat :: i < n && Counted(i, s) ==> First(n, s).Some? && First(n, s).value <= i
    {
      if n > 0 { FirstIsFirst(n - 1, s); }
    }

    /** Among the first n mentions of the name, one is not order-only. */
    predicate Normal(n: nat, s: string)
      requires n <= |list| && Valid()
    {
      n > 0 && ((Counted(n - 1, s) && !orderOnly[n - 1]) || Normal(n - 1, s))
    }

    lemma {:induction false} NormalMeans(n: nat, s: string)
      requires n <= |list| && Valid()
      ensures Normal(n, s) <==> exists i: nat :: i < n && Counted(i, s) && !orderOnly[i]
    {
      if n > 0 { NormalMeans(n - 1, s); }
    }

    predicate IsFirst(i: nat)
      requires i < |list|
    {
      !list[i].skipped && First(|list|, list[i].name) == Some(i)
    }

    /** The order-only flag of prerequisite i when the first n have been compared. */
    function FlagAfter(n: nat, i: nat): bool
      requires n <= |list| && i < |list| && Valid()
    {
      if i >= n || list[i].skipped then orderOnly[i]
      else if First(n, list[i].name) == Some(i) then !Normal(n, list[i].name)
      else !Normal(i + 1, list[i].name)
    }

    // ----- the lists -----

    /** $+ lists every mention that is not order-only, $^ the first mentions of names that have
        such a mention, and $| the first mentions of the others. */
    predicate Belongs(v: Variable, i: nat)
      requires i < |list| && Valid()
    {
      match v
      case Plus => !list[i].skipped && !orderOnly[i]
      case Caret => IsFirst(i) && Normal(|list|, list[i].name)
      case Bar => IsFirst(i) && !Normal(|list|, list[i].name)
    }

    function Listed(v: Variable, n: nat): (r: seq<nat>)
      requires n <= |list| && Valid()
      ensures forall k: nat :: k < |r| ==> r[k] < n && Belongs(v, r[k])
    {
      if n == 0 then []
      else if Belongs(v, n - 1) then Listed(v, n - 1) + [n - 1] else Listed(v, n - 1)
    }

    lemma {:induction false} ListedIsComplete(v: Variable, n: nat, i: nat)
      requires i < n <= |list| && Valid() && Belongs(v, i)
      ensures i in Listed(v, n)
    {
      if i < n - 1 { ListedIsComplete(v, n - 1, i); }
    }

    /** The order is that of the makefile. */
    lemma {:induction false} ListedInOrder(v: Variable, n: nat)
      requires n <= |list| && Valid()
      ensures forall a: nat, b: nat :: a < b < |Listed(v, n)| ==> Listed(v, n)[a] < Listed(v, n)[b]
    {
      if n > 0 { ListedInOrder(v, n - 1); }
    }

    /** $+ lists every mention that is not order-only, also those that come again. */
    lemma PlusExactly(i: nat)
      requires Valid()
      ensures i in Listed(Plus, |list|) <==> i < |list| && !list[i].skipped && !orderOnly[i]
    {
      if i < |list| && Belongs(Plus, i) { ListedIsComplete(Plus, |list|, i); }
    }

    /** The variable lists a name, at its first mention. */
    ghost predicate Lists(v: Variable, s: string)
      requires Valid()
    {
      exists i: nat :: i < |list| && list[i].name == s && First(|list|, s) == Some(i) && i in Listed(v, |list|)
    }

    /** $^ lists exactly the names that have a mention which is not order-only, $| exactly
        those that have only order-only mentions, each once and at its first mention. */
    lemma ListedExactly(s: string)
      requires Valid()
      ensures Lists(Caret, s) <==> exists j: nat :: j < |list| && Counted(j, s) && !orderOnly[j]
      ensures Lists(Bar, s) <==>
        (exists j: nat :: j < |list| && Counted(j, s)) && forall j: nat :: j < |list| && Counted(j, s) ==> orderOnly[j]
      ensures forall i: nat ::
        i < |list| && list[i].name == s && (i in Listed(Caret, |list|) || i in Listed(Bar, |list|)) ==>
        First(|list|, s) == Some(i)
    {
      NormalMeans(|list|, s);
      FirstIsFirst(|list|, s);
      if First(|list|, s).Some? {
        var i := First(|list|, s).value;
        assert IsFirst(i);
        ListedIsComplete(if Normal(|list|, s) then Caret else Bar, |list|, i);
      }
    }

    // ----- room in the buffers -----

    /** The length of the names, each with a separator. */
    function Room(v: Variable, n: nat): nat
      requires n <= |list| && Valid()
    {
      if n == 0 then 0 else Room(v, n - 1) + if Belongs(v, n - 1) then |list[n - 1].name| + 1 else 0
    }

    /** The room $^ would take if only the first m mentions were looked at to tell which names
        are normal. */
    function CaretRoom(n: nat, m: nat): nat
      requires n <= |list| && m <= |list| && Valid()
    {
      if n == 0 then 0
      else CaretRoom(n - 1, m) + if IsFirst(n - 1) && Normal(m, list[n - 1].name) then |list[n - 1].name| + 1 else 0
    }

    /** One more mention adds at most its own room, and that at the first mention of its name. */
    lemma {:induction false} CaretRoomGrows(n: nat, m: nat)
      requires n <= |list| && m < |list| && Valid()
      ensures var s := list[m].name;
        CaretRoom(n, m + 1) == CaretRoom(n, m) +
          if Belongs(Plus, m) && !Normal(m, s) && First(|list|, s).Some? && First(|list|, s).value < n
          then |s| + 1 else 0
    {
      if n > 0 { CaretRoomGrows(n - 1, m); }
    }

    lemma {:induction false} CaretRoomFits(m: nat)
      requires m <= |list| && Valid()
      ensures CaretRoom(|list|, m) <= Room(Plus, m)
    {
      if m > 0 {
        CaretRoomFits(m - 1);
        CaretRoomGrows(|list|, m - 1);
      } else {
        NothingNormal(|list|);
      }
    }

    lemma {:induction false} NothingNormal(n: nat)
      requires n <= |list| && Valid()
      ensures CaretRoom(n, 0) == 0
    {
      if n > 0 { NothingNormal(n - 1); }
    }

    lemma {:induction false} CaretRoomIsRoom(n: nat)
      requires n <= |list| && Valid()
      ensures CaretRoom(n, |list|) == Room(Caret, n)
    {
      if n > 0 { CaretRoomIsRoom(n - 1); }
    }

    lemma {:induction false} RoomGrows(v: Variable, n: nat, m: nat)
      requires n <= m <= |list| && Valid()
      ensures Room(v, n) <= Room(v, m)
    {
      if n < m { RoomGrows(v, n, m - 1); }
    }

    /** $^ always fits the buffer that was sized for $+. */
    lemma CaretFitsPlus()
      requires Valid()
      ensures Room(Caret, |list|) <= Room(Plus, |list|)
    {
      CaretRoomIsRoom(|list|);
      CaretRoomFits(|list|);
    }

    /** What is set aside for $|: room for every order-only mention. */
    function BarLength(n: nat): nat
      requires n <= |list| && Valid()
    {
      if n == 0 then 0
      else BarLength(n - 1) + if !list[n - 1].skipped && orderOnly[n - 1] then |list[n - 1].name| + 1 else 0
    }

    lemma {:induction false} BarFits(n: nat)
      requires n <= |list| && Valid()
      ensures Room(Bar, n) <= BarLength(n)
    {
      if n > 0 {
        BarFits(n - 1);
        NormalMeans(|list|, list[n - 1].name);
      }
    }

    // ----- comparing mentions -----

    /** The mention joins those before it: if its flag and that of the first mention differ,
        neither is order-only any more. */
    lemma FlagsMerge(n: nat, i: nat)
      requires n < |list| && i < |list| && Valid() && !list[n].skipped
      ensures var first := First(n, list[n].name);
        FlagAfter(n + 1, i) ==
          if first.Some? && FlagAfter(n, n) != FlagAfter(n, first.value) && (i == n || i == first.value) then false
          else FlagAfter(n, i)
    {
      var first := First(n, list[n].name);
      if i < n && !list[i].skipped { FirstIsFirst(n, list[i].name); }
      if i == n {
        FirstIsFirst(n, list[n].name);
        NormalMeans(n, list[n].name);
      }
      if first.Some? { FirstIsFirst(n, list[n].name); }
    }

    lemma SkippedChangesNothing(n: nat, i: nat)
      requires n < |list| && i < |list| && Valid() && list[n].skipped
      ensures FlagAfter(n + 1, i) == FlagAfter(n, i)
    {
    }

    // ----- values -----

    /** The texts shown by a variable. */
    function Texts(v: Variable, n: nat): seq<string>
      requires n <= |list| && Valid()
    {
      if n == 0 then []
      else if Belongs(v, n - 1) then Texts(v, n - 1) + [Shown(list[n - 1].name)] else Texts(v, n - 1)
    }

    lemma {:induction false} TextsAreListed(v: Variable, n: nat)
      requires n <= |list| && Valid()
      ensures |Texts(v, n)| == |Listed(v, n)|
      ensures forall k: nat :: k < |Texts(v, n)| ==> Texts(v, n)[k] == Shown(list[Listed(v, n)[k]].name)
    {
      if n > 0 { TextsAreListed(v, n - 1); }
    }

    /** What a variable shows: the names of the mentions listed, in order. */
    function Names(v: Variable): seq<string>
      requires Valid()
    {
      var listed := Listed(v, |list|);
      seq(|listed|, k requires 0 <= k < |listed| => Shown(list[listed[k]].name))
    }

    lemma TextsAreNames(v: Variable)
      requires Valid()
      ensures Texts(v, |list|) == Names(v)
    {
      TextsAreListed(v, |list|);
    }
  }

  datatype Variable = Plus | Caret | Bar

  // ----- the loops of set_file_variables -----

  /** The table holds the first mention of each name seen. */
  ghost predicate HoldsFirst(deps: Deps, items: map<string, nat>, n: nat)
    requires n <= |deps.list|
  {
    forall s: string {:trigger s in items} ::
      (s in items <==> deps.First(n, s).Some?) && (s in items ==> items[s] == deps.First(n, s).value)
  }

  ghost predicate FlagsAre(deps: Deps, flags: seq<bool>, n: nat)
    requires n <= |deps.list| && deps.Valid()
  {
    |flags| == |deps.list| && forall i: nat :: i < |flags| ==> flags[i] == deps.FlagAfter(n, i)
  }

  function NameAt(list: seq<Dep>): nat -> string {
    (i: nat) => if i < |list| then list[i].name else ""
  }

  /** Enter a mention in the table, or compare it with the first one of its name. */
  method HashDep(deps: Deps, n: nat, table: HashTable<nat, string>, flags: array<bool>)
    requires n < |deps.list| == flags.Length && deps.Valid() && !deps.list[n].skipped
    requires table.Valid() && table.CanGrow() && table.emptySlots > 0 && table.vec as object != flags as object
    requires table.sc.key == NameAt(deps.list)
    requires HoldsFirst(deps, table.Items(), n) && FlagsAre(deps, flags[..], n)
    modifies table, table.vec, flags
    ensures table.Valid() && (table.vec == old(table.vec) || fresh(table.vec))
    ensures table.size >= 16 ==> table.emptySlots > 0
    ensures table.fill <= old(table.fill) + 1
    ensures table.size == old(table.size) ||
      (table.size == 2 * old(table.size) && table.fill >= old(table.size) - old(table.size) / 16)
    ensures HoldsFirst(deps, table.Items(), n + 1) && FlagsAre(deps, flags[..], n + 1)
  {
    var s := deps.list[n].name;
    ghost var mention, was := deps.First(n, s), flags[..];
    assert s in table.Items() <==> mention.Some?;
    HasEmpty(table.vec[..]);
    var slot := table.FindSlot(s);
    LiveIsContents(table.sc, table.vec[..], s);
    forall i: nat | i < |deps.list| ensures deps.FlagAfter(n + 1, i) ==
      (if mention.Some? && was[n] != was[mention.value] && (i == n || i == mention.value) then false else was[i])
    {
      deps.FlagsMerge(n, i);
    }
    if !table.vec[slot].Full? {
      var _ := table.InsertAt(n, slot);
    } else {
      var first := table.vec[slot].item;
      if flags[n] != flags[first] {
        flags[n] := false;
        flags[first] := false;
      }
    }
  }

  lemma PassSkipped(deps: Deps, n: nat, items: map<string, nat>, flags: seq<bool>)
    requires deps.Valid() && n < |deps.list| && deps.list[n].skipped
    requires HoldsFirst(deps, items, n) && FlagsAre(deps, flags, n)
    ensures HoldsFirst(deps, items, n + 1) && FlagsAre(deps, flags, n + 1)
  {
    forall i: nat | i < |deps.list| ensures deps.FlagAfter(n + 1, i) == deps.FlagAfter(n, i) {
      deps.SkippedChangesNothing(n, i);
    }
  }

  /** The table can take another mention. */
  ghost predicate Ready(deps: Deps, table: HashTable<nat, string>, n: nat)
    reads table, table.vec
  {
    && table.Valid() && table.sc.key == NameAt(deps.list)
    && table.fill <= n && table.emptySlots > 0 && table.size >= 16
  }

  /** The round of the loop for one mention. */
  method HashMention(deps: Deps, n: nat, table: HashTable<nat, string>, flags: array<bool>)
    requires n < |deps.list| == flags.Length < MAX_ITEMS && deps.Valid()
    requires Ready(deps, table, n) && table.vec as object != flags as object
    requires HoldsFirst(deps, table.Items(), n) && FlagsAre(deps, flags[..], n)
    modifies table, table.vec, flags
    ensures Ready(deps, table, n + 1) && (table.vec == old(table.vec) || fresh(table.vec))
    ensures HoldsFirst(deps, table.Items(), n + 1) && FlagsAre(deps, flags[..], n + 1)
  {
    if !deps.list[n].skipped {
      table.FewItemsCanGrow();
      HashDep(deps, n, table, flags);
    } else {
      PassSkipped(deps, n, table.Items(), flags[..]);
    }
  }

  /** Compare all mentions. */
  method HashDeps(deps: Deps, flags: array<bool>, hash1: string -> nat, hash2: string -> nat)
    returns (table: HashTable<nat, string>)
    requires deps.Valid() && |deps.list| == flags.Length < MAX_ITEMS && flags[..] == deps.orderOnly
    modifies flags
    ensures fresh(table) && fresh(table.vec) && table.Valid() && table.emptySlots > 0
    ensures HoldsFirst(deps, table.Items(), |deps.list|) && FlagsAre(deps, flags[..], |deps.list|)
  {
    table := new HashTable<nat, string>(Scheme(NameAt(deps.list), hash1, hash2), 500);
    for n := 0 to |deps.list|
      invariant fresh(table) && fresh(table.vec) && Ready(deps, table, n)
      invariant HoldsFirst(deps, table.Items(), n) && FlagsAre(deps, flags[..], n)
    {
      HashMention(deps, n, table, flags);
    }
  }

  /** Copy a text and a separator to the end of a buffer. */
  method Append(buffer: array<char>, at: nat, text: string) returns (end: nat)
    requires at + |text| < buffer.Length
    modifies buffer
    ensures end == at + |text| + 1
    ensures buffer[..end] == old(buffer[..at]) + text + " "
  {
    for k := 0 to |text|
      invariant buffer[..at + k] == old(buffer[..at]) + text[..k]
    {
      buffer[at + k] := text[k];
    }
    end := at + |text|;
    buffer[end] := ' ';
    end := end + 1;
  }

  /** Kill the last space. */
  function Finished(buffer: seq<char>, end: nat): string
    requires end <= |buffer|
  {
    if end == 0 then "" else buffer[..end - 1]
  }

  lemma SpacedOneMore(words: seq<string>, word: string)
    ensures Spaced(words + [word]) == Spaced(words) + word + " "
  {
    assert (words + [word])[..|words|] == words;
  }

  lemma FinishedIsJoined(buffer: seq<char>, end: nat, words: seq<string>)
    requires end <= |buffer| && buffer[..end] == Spaced(words)
    ensures Finished(buffer, end) == Joined(words)
  {
    if words != [] {
      assert Spaced(words) == Joined(words) + " ";
      assert buffer[..end - 1] == buffer[..end][..end - 1];
    }
  }

  /** The room for $+ and $|, computed from the flags of the makefile. */
  method Lengths(deps: Deps, flags: array<bool>) returns (plus: nat, bar: nat)
    requires deps.Valid() && flags[..] == deps.orderOnly
    ensures plus == deps.Room(Plus, |deps.list|) && bar == deps.BarLength(|deps.list|)
  {
    plus, bar := 0, 0;
    for n := 0 to |deps.list|
      invariant plus == deps.Room(Plus, n) && bar == deps.BarLength(n)
    {
      assert flags[n] == deps.orderOnly[n];
      if !deps.list[n].skipped {
        if flags[n] {
          bar := bar + |deps.list[n].name| + 1;
        } else {
          plus := plus + |deps.list[n].name| + 1;
        }
      }
    }
  }

  /** The loop that writes $+. */
  method WritePlus(deps: Deps, flags: array<bool>, buffer: array<char>) returns (end: nat)
    requires deps.Valid() && flags[..] == deps.orderOnly && buffer.Length >= deps.Room(Plus, |deps.list|)
    modifies buffer
    ensures end <= buffer.Length && buffer[..end] == Spaced(deps.Texts(Plus, |deps.list|))
  {
    end := 0;
    for n := 0 to |deps.list|
      invariant end <= deps.Room(Plus, n) && deps.Room(Plus, n) <= buffer.Length
      invariant buffer[..end] == Spaced(deps.Texts(Plus, n))
    {
      assert flags[n] == deps.orderOnly[n];
      deps.RoomGrows(Plus, n + 1, |deps.list|);
      if !flags[n] && !deps.list[n].skipped {
        SpacedOneMore(deps.Texts(Plus, n), Shown(deps.list[n].name));
        end := Append(buffer, end, Shown(deps.list[n].name));
      }
    }
  }

  /** Write a mention to the list it belongs to, if it is the first of its name. */
  method WriteOther(deps: Deps, n: nat, flag: bool, first: Option<nat>, caret: array<char>, bar: array<char>,
                    caretAt: nat, barAt: nat)
    returns (caretEnd: nat, barEnd: nat)
    requires deps.Valid() && caret != bar && n < |deps.list| && !deps.list[n].skipped
    requires first == deps.First(|deps.list|, deps.list[n].name)
    requires first == Some(n) ==> flag == deps.FlagAfter(|deps.list|, n)
    requires caretAt <= deps.Room(Caret, n) && deps.Room(Caret, n + 1) <= caret.Length
    requires barAt <= deps.Room(Bar, n) && deps.Room(Bar, n + 1) <= bar.Length
    requires caret[..caretAt] == Spaced(deps.Texts(Caret, n)) && bar[..barAt] == Spaced(deps.Texts(Bar, n))
    modifies caret, bar
    ensures caretEnd <= deps.Room(Caret, n + 1) && caret[..caretEnd] == Spaced(deps.Texts(Caret, n + 1))
    ensures barEnd <= deps.Room(Bar, n + 1) && bar[..barEnd] == Spaced(deps.Texts(Bar, n + 1))
  {
    caretEnd, barEnd := caretAt, barAt;
    var text := Shown(deps.list[n].name);
    if first == Some(n) {
      if flag {
        SpacedOneMore(deps.Texts(Bar, n), text);
        barEnd := Append(bar, barEnd, text);
      } else {
        SpacedOneMore(deps.Texts(Caret, n), text);
        caretEnd := Append(caret, caretEnd, text);
      }
    }
  }

  /** The loop that writes $^ over $+, and $|. */
  method WriteOthers(deps: Deps, flags: array<bool>, table: HashTable<nat, string>, caret: array<char>,
                     bar: array<char>)
    returns (caretEnd: nat, barEnd: nat)
    requires deps.Valid() && caret != bar && table.Valid() && table.emptySlots > 0
    requires table.vec as object != caret as object && table.vec as object != bar as object
    requires caret.Length >= deps.Room(Caret, |deps.list|) && bar.Length >= deps.Room(Bar, |deps.list|)
    requires HoldsFirst(deps, table.Items(), |deps.list|) && FlagsAre(deps, flags[..], |deps.list|)
    modifies caret, bar
    ensures caretEnd <= caret.Length && caret[..caretEnd] == Spaced(deps.Texts(Caret, |deps.list|))
    ensures barEnd <= bar.Length && bar[..barEnd] == Spaced(deps.Texts(Bar, |deps.list|))
  {
    caretEnd, barEnd := 0, 0;
    for n := 0 to |deps.list|
      invariant table.Valid() && table.Items() == old(table.Items())
      invariant caretEnd <= deps.Room(Caret, n) <= caret.Length && caret[..caretEnd] == Spaced(deps.Texts(Caret, n))
      invariant barEnd <= deps.Room(Bar, n) <= bar.Length && bar[..barEnd] == Spaced(deps.Texts(Bar, n))
    {
      deps.RoomGrows(Caret, n + 1, |deps.list|);
      deps.RoomGrows(Bar, n + 1, |deps.list|);
      if !deps.list[n].skipped {
        var found := table.FindItem(deps.list[n].name);
        assert flags[..][n] == deps.FlagAfter(|deps.list|, n);
        caretEnd, barEnd := WriteOther(deps, n, flags[n], found, caret, bar, caretEnd, barEnd);
      }
    }
  }

  /** The part of set_file_variables that defines $+, $^ and $|. */
  method SetVariables(deps: Deps, flags: array<bool>, hash1: string -> nat, hash2: string -> nat)
    returns (plus: string, caret: string, bar: string)
    requires deps.Valid() && |deps.list| == flags.Length < MAX_ITEMS && flags[..] == deps.orderOnly
    modifies flags
    ensures plus == Joined(deps.Names(Plus))
    ensures caret == Joined(deps.Names(Caret))
    ensures bar == Joined(deps.Names(Bar))
    ensures FlagsAre(deps, flags[..], |deps.list|)
  {
    var plusLength, barLength := Lengths(deps, flags);
    var plusValue := new char[if plusLength == 0 then 1 else plusLength];
    var barValue := new char[if barLength == 0 then 1 else barLength];
    deps.CaretFitsPlus();
    deps.BarFits(|deps.list|);
    var end := WritePlus(deps, flags, plusValue);
    plus := Finished(plusValue[..], end);
    FinishedIsJoined(plusValue[..], end, deps.Texts(Plus, |deps.list|));
    var table := HashDeps(deps, flags, hash1, hash2);
    var caretEnd, barEnd := WriteOthers(deps, flags, table, plusValue, barValue);
    caret := Finished(plusValue[..], caretEnd);
    bar := Finished(barValue[..], barEnd);
    FinishedIsJoined(plusValue[..], caretEnd, deps.Texts(Caret, |deps.list|));
    FinishedIsJoined(barValue[..], barEnd, deps.Texts(Bar, |deps.list|));
    deps.TextsAreNames(Plus);
    deps.TextsAreNames(Caret);
    deps.TextsAreNames(Bar);
  }
}
