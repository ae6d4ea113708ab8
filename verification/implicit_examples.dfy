/** Searches worked out: which rule is found for a name, and what the file then depends on. */
module ImplicitExamples {
  import opened Prelude
  import opened ImplicitRules
  import opened ImplicitSearch

  const NO_FILES := Database({}, {}, {})

  /** A makefile without wildcards and VPATH. */
  function PlainMakefile(rules: seq<Rule>, fileExists: string -> bool): Makefile {
    Makefile(rules, fileExists, name => false, word => [word], 100)
  }

  function Asked(name: string): Query {
    Query(name, {}, false, {})
  }

  lemma NoDirectory(name: string, p: Pattern)
    requires '/' !in name
    ensures PathLength(name) == 0 && !UsesDirectory(name, p) && Directory(name) == ""
  {
    assert forall k: nat :: k < |name| ==> name[k] != '/';
    DirectoryIs(name);
  }

  lemma PlainMatch(name: string, o: Pattern, stem: string)
    requires '/' !in name && stem != "" && name == o.prefix + stem + o.suffix
    ensures MatchTarget(name, o) == Some(stem) && !UsesDirectory(name, o)
  {
    NoDirectory(name, o);
    assert "" + o.prefix == o.prefix;
    MatchExactly(name, o, stem);
  }

  /** The text of a prerequisite with a %, for a target with the stem. */
  function Named(name: string, o: Pattern, stem: string, a: string, b: string): string {
    (if UsesDirectory(name, o) then Directory(name) else "") + a + stem + b
  }

  /** No wildcards: a word stands for one name. */
  ghost predicate IsPlain(make: Makefile) {
    forall word :: make.parse(word) == [word]
  }

  lemma OnePrerequisite(make: Makefile, name: string, o: Pattern, t: Try, a: string, b: string)
    requires IsPlain(make) && t.rule < |make.rules| && make.rules[t.rule].targets == [o] && t.target == 0
    requires make.rules[t.rule].deps == [a + "%" + b] && t.slash == UsesDirectory(name, o)
    requires '%' !in a && '/' !in a && '/' !in b && t.stem != "" && '/' !in t.stem
    ensures make.AllNames(name, t) == [Named(name, o, t.stem, a, b)]
  {
    StemTakesPlace(make, name, t, a, b);
    assert make.Names(name, t, 0) == [];
  }

  // ----- one rule -----

  lemma OneTry(make: Makefile, o: Pattern, deps: seq<string>, q: Query, stem: string, t: Try)
    requires make.rules == [Rule([o], deps, true, false)] && 0 !in q.used
    requires MatchTarget(q.name, o) == Some(stem) && !MatchesAnything(o)
    ensures q.Eligible(make, t) <==> t == Try(0, 0, UsesDirectory(q.name, o), stem)
  {
    if t.rule == 0 { assert make.rules[0].targets == [o]; }
  }

  /** A file is at hand when it is a target or mentioned, exists, or is found by VPATH. */
  predicate AtHand(make: Makefile, targets: set<string>, mentioned: set<string>, name: string) {
    name in targets || name in mentioned || make.fileExists(name) || make.vpathFinds(name)
  }

  /** The only rule is o: a%b. For a target that matches with the stem, the file made with the stem
      is at hand, or at least known. */
  ghost predicate OneRuleReaches(make: Makefile, known: set<string>, o: Pattern, a: string, b: string, name: string,
                                 stem: string)
  {
    && make.rules == [Rule([o], [a + "%" + b], true, false)] && IsPlain(make)
    && MatchTarget(name, o) == Some(stem) && !MatchesAnything(o)
    && '%' !in a && '/' !in a && '/' !in b && stem != "" && '/' !in stem
    && |name| <= make.maxPath && AtHand(make, {}, known, Named(name, o, stem, a, b))
  }

  /** Then the rule is found, with that file. */
  method SearchOneRule(make: Makefile, known: set<string>, declared: set<string>, mentioned: set<string>, o: Pattern,
                       a: string, b: string, name: string, stem: string)
    returns (found: Option<Recipe>)
    requires declared <= known && mentioned <= known
    requires OneRuleReaches(make, known, o, a, b, name, stem)
    ensures found.Some? && NamesOf(found.value.prereqs) == [Named(name, o, stem, a, b)]
  {
    ghost var q, db := Query(name, mentioned, false, {}), Database(known, declared, {});
    OneRuleApplies(make, db, o, a, b, q, stem);
    var search := new Search(make, known, declared);
    found := search.PatternSearch(name, mentioned, false, false, Query(name, mentioned, false, {}), 0);
    OneTry(make, o, [a + "%" + b], q, stem, found.value.choice);
  }

  lemma StemIsShort(name: string, o: Pattern, stem: string, t: Try)
    requires MatchTarget(name, o) == Some(stem) && t.stem == stem && t.slash == UsesDirectory(name, o)
    ensures |FullStem(name, t)| <= |name|
  {
    MatchExactly(name, o, stem);
  }

  /** %.o: %.c for m.o, when m.c exists. */
  method SearchObject() returns (found: Option<Recipe>)
    ensures found.Some? && NamesOf(found.value.prereqs) == ["m.c"]
  {
    assert "m.o" == "" + "m" + ".o" && "" + "" + "m" + ".c" == "m.c";
    PlainMatch("m.o", Pattern("", ".o"), "m");
    var make := PlainMakefile([Rule([Pattern("", ".o")], ["" + "%" + ".c"], true, false)], name => name == "m.c");
    found := SearchOneRule(make, {}, {}, {}, Pattern("", ".o"), "", ".c", "m.o", "m");
  }

  lemma MatchBehindDirectory(name: string, o: Pattern, d: string, stem: string)
    requires d != "" && d[|d| - 1] == '/' && '/' !in o.prefix && '/' !in o.suffix && stem != "" && '/' !in stem
    requires name == d + (o.prefix + stem + o.suffix)
    ensures MatchTarget(name, o) == Some(stem) && UsesDirectory(name, o) && Directory(name) == d
  {
    DirectoryInFront(d, o.prefix + stem + o.suffix);
    assert name == d + o.prefix + stem + o.suffix;
    MatchExactly(name, o, stem);
  }

  /** lib%.o: l%.c for d/libm.o, when d/lm.c exists. */
  method SearchBehindDirectory() returns (found: Option<Recipe>)
    ensures found.Some? && NamesOf(found.value.prereqs) == ["d/lm.c"]
  {
    var o := Pattern("lib", ".o");
    assert "d/libm.o" == "d/" + ("lib" + "m" + ".o") && "d/" + "l" + "m" + ".c" == "d/lm.c";
    MatchBehindDirectory("d/libm.o", o, "d/", "m");
    var make := PlainMakefile([Rule([o], ["l" + "%" + ".c"], true, false)], name => name == "d/lm.c");
    found := SearchOneRule(make, {}, {}, {}, o, "l", ".c", "d/libm.o", "m");
  }

  lemma OnlyMatch(make: Makefile, o: Pattern, deps: seq<string>, name: string, stem: string, nested: bool,
                  used: set<nat>, t: Try)
    requires make.rules == [Rule([o], deps, true, false)] && MatchTarget(name, o) == Some(stem)
    ensures make.Matching(name, nested, used, t) ==> t == Try(0, 0, UsesDirectory(name, o), stem)
  {
    if t.rule == 0 { assert make.rules[0].targets == [o]; }
  }

  lemma OneRuleApplies(make: Makefile, db: Database, o: Pattern, a: string, b: string, q: Query, stem: string)
    requires OneRuleReaches(make, db.known, o, a, b, q.name, stem)
    requires db.impossible == {} && 0 !in q.used
    ensures var t := Try(0, 0, UsesDirectory(q.name, o), stem);
      && make.AllNames(q.name, t) == [Named(q.name, o, stem, a, b)] && q.Eligible(make, t)
      && make.Applies(db, q.mentioned, true, q.name, t)
      && (AtHand(make, db.targets, q.mentioned, Named(q.name, o, stem, a, b)) ==>
            make.Applies(db, q.mentioned, false, q.name, t))
  {
    var t := Try(0, 0, UsesDirectory(q.name, o), stem);
    OneTry(make, o, [a + "%" + b], q, stem, t);
    OnePrerequisite(make, q.name, o, t, a, b);
    StemIsShort(q.name, o, stem, t);
  }

  /** A file made by that rule gets the prerequisite in front of its own, and the stem with the
      directory. */
  method TryOneRule(make: Makefile, o: Pattern, a: string, b: string, name: string, stem: string, own: seq<string>)
    returns (file: File)
    requires OneRuleReaches(make, (set n | n in own), o, a, b, name, stem)
    ensures file.deps == [Named(name, o, stem, a, b)] + own && file.rule == Some(0)
    ensures file.stem == (if UsesDirectory(name, o) then Directory(name) else "") + stem
  {
    var mentioned := set n | n in own;
    var search := new Search(make, mentioned, {});
    file := new File(name, own);
    ghost var q, t := Query(name, mentioned, false, {}), Try(0, 0, UsesDirectory(name, o), stem);
    OneRuleApplies(make, Database(mentioned, {}, {}), o, a, b, q, stem);
    assert !q.NothingApplies(make, Database(mentioned, {}, {}), true);
    var ok := search.TryImplicitRule(file, 0);
    ghost var recipe := search.made[name].recipe;
    OnlyMatch(make, o, [a + "%" + b], name, stem, search.made[name].nested, search.made[name].used, recipe.choice);
  }

  /** The file d/libm.o, which depends on x, gets d/lm.c in front of that, and the stem d/m. */
  method TryObject() returns (file: File)
    ensures file.deps == ["d/lm.c", "x"] && file.stem == "d/m" && file.rule == Some(0)
  {
    var o := Pattern("lib", ".o");
    assert "d/libm.o" == "d/" + ("lib" + "m" + ".o") && "d/" + "l" + "m" + ".c" == "d/lm.c" && "d/" + "m" == "d/m";
    MatchBehindDirectory("d/libm.o", o, "d/", "m");
    var make := PlainMakefile([Rule([o], ["l" + "%" + ".c"], true, false)], name => name == "d/lm.c");
    file := TryOneRule(make, o, "l", ".c", "d/libm.o", "m", ["x"]);
  }

  // ----- two rules that apply -----

  predicate ByPattern(rule: Rule, o: Pattern, a: string, b: string) {
    rule == Rule([o], [a + "%" + b], true, false) && '%' !in a && '/' !in a && '/' !in b && !MatchesAnything(o)
  }

  /** For a name without a slash that both patterns match. */
  ghost predicate BothMatch(name: string, o: Pattern, x: string, p: Pattern, y: string) {
    && '/' !in name && |name| <= 100
    && x != "" && name == o.prefix + x + o.suffix
    && y != "" && name == p.prefix + y + p.suffix
  }

  lemma BothTries(r: Rule, s: Rule, fileExists: string -> bool, name: string, o: Pattern, x: string, p: Pattern,
                  y: string, t: Try)
    requires r.targets == [o] && s.targets == [p] && r.hasRecipe && s.hasRecipe
    requires !MatchesAnything(o) && !MatchesAnything(p) && BothMatch(name, o, x, p, y)
    ensures Asked(name).Eligible(PlainMakefile([r, s], fileExists), t)
      <==> t == Try(0, 0, false, x) || t == Try(1, 0, false, y)
  {
    PlainMatch(name, o, x);
    PlainMatch(name, p, y);
  }

  lemma BothApply(r: Rule, s: Rule, fileExists: string -> bool, name: string, o: Pattern, x: string, a: string,
                  b: string, t: Try)
    requires t.rule < 2 && ByPattern([r, s][t.rule], o, a, b) && t == Try(t.rule, 0, false, x)
    requires '/' !in name && |x| <= 100 && '/' !in x && x != "" && fileExists(a + x + b)
    ensures PlainMakefile([r, s], fileExists).AllNames(name, t) == [a + x + b]
    ensures forall compat :: PlainMakefile([r, s], fileExists).Applies(NO_FILES, {}, compat, name, t)
  {
    NoDirectory(name, o);
    OnePrerequisite(PlainMakefile([r, s], fileExists), name, o, t, a, b);
    assert "" + a == a && "" + x == x;
  }

  lemma PartHasNoSlash(name: string, o: Pattern, x: string)
    requires '/' !in name && name == o.prefix + x + o.suffix
    ensures '/' !in x
  {
    assert forall i: nat :: i < |x| ==> name[|o.prefix| + i] == x[i];
  }

  lemma BothReach(r: Rule, s: Rule, o: Pattern, a: string, b: string, x: string, p: Pattern, c: string, d: string,
                  y: string, fileExists: string -> bool, name: string)
    requires ByPattern(r, o, a, b) && ByPattern(s, p, c, d) && BothMatch(name, o, x, p, y)
    requires fileExists(a + x + b) && fileExists(c + y + d)
    ensures var make, first, second := PlainMakefile([r, s], fileExists), Try(0, 0, false, x), Try(1, 0, false, y);
      && Asked(name).Eligible(make, first) && Asked(name).Eligible(make, second)
      && make.AllNames(name, first) == [a + x + b] && make.AllNames(name, second) == [c + y + d]
      && forall compat ::
        make.Applies(NO_FILES, {}, compat, name, first) && make.Applies(NO_FILES, {}, compat, name, second)
  {
    PartHasNoSlash(name, o, x);
    PartHasNoSlash(name, p, y);
    BothTries(r, s, fileExists, name, o, x, p, y, Try(0, 0, false, x));
    BothTries(r, s, fileExists, name, o, x, p, y, Try(1, 0, false, y));
    BothApply(r, s, fileExists, name, o, x, a, b, Try(0, 0, false, x));
    BothApply(r, s, fileExists, name, p, y, c, d, Try(1, 0, false, y));
  }

  /** Of two rules that both apply, the one with the shorter stem is found, or else the first. */
  method SearchBetter(r: Rule, s: Rule, o: Pattern, a: string, b: string, x: string,
                      p: Pattern, c: string, d: string, y: string, fileExists: string -> bool, name: string)
    returns (found: Option<Recipe>)
    requires ByPattern(r, o, a, b) && ByPattern(s, p, c, d) && BothMatch(name, o, x, p, y)
    requires fileExists(a + x + b) && fileExists(c + y + d)
    ensures found.Some? && found.value.choice.rule == if |y| < |x| then 1 else 0
    ensures NamesOf(found.value.prereqs) == [if |y| < |x| then c + y + d else a + x + b]
  {
    BothReach(r, s, o, a, b, x, p, c, d, y, fileExists, name);
    var search := new Search(PlainMakefile([r, s], fileExists), {}, {});
    ghost var make := search.make;
    assert forall compat :: make.Applies(NO_FILES, {}, compat, name, Try(0, 0, false, x));
    found := search.PatternSearch(name, {}, false, false, Asked(name), 0);
    BothTries(r, s, fileExists, name, o, x, p, y, found.value.choice);
    assert Asked(name).BestThatApplies(make, NO_FILES, false, found.value.choice);
  }

  /** xm.o by %.o: %.c or x%.o: %.y, when xm.c and m.y exist: the second has the shorter stem. */
  method SearchShorterStem() returns (found: Option<Recipe>)
    ensures found.Some? && found.value.choice.rule == 1 && NamesOf(found.value.prereqs) == ["m.y"]
  {
    var o, p := Pattern("", ".o"), Pattern("x", ".o");
    assert "" + "%" + ".c" == "%.c" && "" + "%" + ".y" == "%.y";
    assert "" + "xm" + ".o" == "xm.o" == "x" + "m" + ".o";
    assert "" + "xm" + ".c" == "xm.c" && "" + "m" + ".y" == "m.y";
    found := SearchBetter(Rule([o], ["%.c"], true, false), Rule([p], ["%.y"], true, false), o, "", ".c", "xm",
                          p, "", ".y", "m", name => name == "xm.c" || name == "m.y", "xm.o");
  }

  /** m.o by %.o: %.c or %.o: %.y, when m.c and m.y exist: the first is defined first. */
  method SearchDefinedFirst() returns (found: Option<Recipe>)
    ensures found.Some? && found.value.choice.rule == 0 && NamesOf(found.value.prereqs) == ["m.c"]
  {
    var o := Pattern("", ".o");
    assert "" + "%" + ".c" == "%.c" && "" + "%" + ".y" == "%.y" && "" + "m" + ".o" == "m.o";
    assert "" + "m" + ".c" == "m.c" && "" + "m" + ".y" == "m.y";
    found := SearchBetter(Rule([o], ["%.c"], true, false), Rule([o], ["%.y"], true, false), o, "", ".c", "m",
                          o, "", ".y", "m", name => name == "m.c" || name == "m.y", "m.o");
  }

  // ----- a chain of rules -----

  const FROM_C := Rule([Pattern("", ".o")], ["%.c"], true, false)
  const FROM_Y := Rule([Pattern("", ".c")], ["%.y"], true, false)

  function Chained(fileExists: string -> bool): Makefile {
    PlainMakefile([FROM_C, FROM_Y], fileExists)
  }

  lemma OnlyFirst(r: Rule, s: Rule, fileExists: string -> bool, name: string, o: Pattern, p: Pattern, stem: string,
                  t: Try)
    requires r.targets == [o] && s.targets == [p] && r.hasRecipe && !MatchesAnything(o) && '/' !in name
    requires MatchTarget(name, o) == Some(stem) && MatchTarget(name, p) == None
    ensures Asked(name).Eligible(PlainMakefile([r, s], fileExists), t) <==> t == Try(0, 0, false, stem)
  {
    NoDirectory(name, o);
  }

  lemma OnlySecond(r: Rule, s: Rule, fileExists: string -> bool, name: string, o: Pattern, p: Pattern, stem: string,
                   t: Try)
    requires r.targets == [o] && s.targets == [p] && s.hasRecipe && !MatchesAnything(p) && '/' !in name
    requires MatchTarget(name, p) == Some(stem)
    ensures Query(name, {}, true, {0}).Eligible(PlainMakefile([r, s], fileExists), t) <==> t == Try(1, 0, false, stem)
  {
    NoDirectory(name, p);
  }

  /** Only %.o: %.c is a rule for a file x.o, and only %.c: %.y for x.c. */
  lemma ChainTries(fileExists: string -> bool, x: string, t: Try)
    requires x != "" && '/' !in x
    ensures Asked(x + ".o").Eligible(Chained(fileExists), t) <==> t == Try(0, 0, false, x)
    ensures Query(x + ".c", {}, true, {0}).Eligible(Chained(fileExists), t) <==> t == Try(1, 0, false, x)
  {
    var o, c := Pattern("", ".o"), Pattern("", ".c");
    assert "" + x + ".o" == x + ".o" && "" + x + ".c" == x + ".c";
    PlainMatch(x + ".o", o, x);
    PlainMatch(x + ".c", c, x);
    assert (x + ".o")[|x| + 1] == 'o' && ".c"[1] == 'c';
    EndsOtherwise(x + ".o", c);
    OnlyFirst(FROM_C, FROM_Y, fileExists, x + ".o", o, c, x, t);
    OnlySecond(FROM_C, FROM_Y, fileExists, x + ".c", o, c, x, t);
  }

  lemma EndsOtherwise(name: string, p: Pattern)
    requires name != "" && p.suffix != "" && name[|name| - 1] != p.suffix[|p.suffix| - 1]
    ensures MatchTarget(name, p) == None
  {
    var m := MatchTarget(name, p);
    if m.Some? {
      MatchExactly(name, p, m.value);
    }
  }

  /** x.c is made directly when x.y exists. */
  lemma SecondLink(fileExists: string -> bool, x: string)
    requires x != "" && '/' !in x && |x| <= 100 && fileExists(x + ".y")
    ensures !Query(x + ".c", {}, true, {0}).NothingApplies(Chained(fileExists), NO_FILES, false)
  {
    var make, u := Chained(fileExists), Try(1, 0, false, x);
    assert "" + "%" + ".y" == "%.y" && "" + "" + x + ".y" == x + ".y" && "" + x == x;
    ChainTries(fileExists, x, u);
    NoDirectory(x + ".c", Pattern("", ".c"));
    OnePrerequisite(make, x + ".c", Pattern("", ".c"), u, "", ".y");
    assert make.Judge(NO_FILES, {}, false, x + ".y") == Available(Exists);
    assert make.Applies(NO_FILES, {}, false, x + ".c", u);
  }

  lemma FirstLink(fileExists: string -> bool, x: string)
    requires x != "" && '/' !in x && |x| <= 100
    ensures Chained(fileExists).AllNames(x + ".o", Try(0, 0, false, x)) == [x + ".c"]
    ensures FirstChained(Chained(fileExists), Asked(x + ".o"), Try(0, 0, false, x))
  {
    var make, q, t := Chained(fileExists), Asked(x + ".o"), Try(0, 0, false, x);
    assert "" + "%" + ".c" == "%.c" && "" + "" + x + ".c" == x + ".c" && "" + x == x;
    NoDirectory(x + ".o", Pattern("", ".o"));
    OnePrerequisite(make, x + ".o", Pattern("", ".o"), t, "", ".c");
    forall v ensures q.Eligible(make, v) <==> v == t { ChainTries(fileExists, x, v); }
  }

  /** x.o is in reach when x.y exists, through x.c. */
  lemma ChainReaches(fileExists: string -> bool, x: string)
    requires x != "" && '/' !in x && |x| <= 100 && fileExists(x + ".y")
    ensures Within(Chained(fileExists), NO_FILES, false, Asked(x + ".o"), 1)
    ensures Chained(fileExists).AllNames(x + ".o", Try(0, 0, false, x)) == [x + ".c"]
  {
    var make := Chained(fileExists);
    FirstLink(fileExists, x);
    SecondLink(fileExists, x);
    assert Reachable(make, NO_FILES, {}, false, {0}, x + ".c", 0);
    assert AllReachable(make, NO_FILES, {}, false, {} + {0}, [x + ".c"], 0) by { assert {} + {0} == {0}; }
  }

  /** m.o by %.o: %.c and %.c: %.y, when only m.y exists. */
  method SearchChain() returns (found: Option<Recipe>)
    ensures found.Some? && NamesOf(found.value.prereqs) == ["m.c"]
  {
    var fileExists := name => name == "m.y";
    assert "m" + ".o" == "m.o" && "m" + ".c" == "m.c" && "m" + ".y" == "m.y";
    ChainReaches(fileExists, "m");
    var search := new Search(Chained(fileExists), {}, {});
    found := search.PatternSearch("m.o", {}, false, false, Asked("m.o"), 1);
    ChainTries(fileExists, "m", found.value.choice);
  }

  // ----- rules that may not be considered -----

  const ANYTHING := Pattern("", "")

  lemma AnythingMatches(name: string)
    requires name != "" && '/' !in name
    ensures MatchTarget(name, ANYTHING) == Some(name) && !UsesDirectory(name, ANYTHING)
  {
    assert "" + name + "" == name;
    PlainMatch(name, ANYTHING, name);
  }

  /** A rule for anything and everything gives way to one that matches something in particular,
      unless it is terminal. */
  lemma AnythingGivesWay(deps: seq<string>, terminal: bool, s: Rule, o: Pattern, fileExists: string -> bool,
                         name: string, stem: string)
    requires name != "" && '/' !in name && MatchTarget(name, o) == Some(stem) && !MatchesAnything(o)
    requires s.targets == [o] && s.hasRecipe
    ensures var make := PlainMakefile([Rule([ANYTHING], deps, true, terminal), s], fileExists);
      Asked(name).Eligible(make, Try(0, 0, false, name)) <==> terminal
  {
    var make := PlainMakefile([Rule([ANYTHING], deps, true, terminal), s], fileExists);
    AnythingMatches(name);
    NoDirectory(name, o);
    assert MatchesAnything(make.rules[0].targets[0]);
    assert make.TargetOf(Try(1, 0, false, stem)) == o;
    assert make.Matching(name, false, {}, Try(1, 0, false, stem));
  }

  /** Alone it may be considered, but for an intermediate file only if it is terminal. */
  lemma AnythingAlone(deps: seq<string>, terminal: bool, nested: bool, fileExists: string -> bool, name: string)
    requires name != "" && '/' !in name
    ensures var make := PlainMakefile([Rule([ANYTHING], deps, true, terminal)], fileExists);
      Query(name, {}, nested, {}).Eligible(make, Try(0, 0, false, name)) <==> terminal || !nested
  {
    var make := PlainMakefile([Rule([ANYTHING], deps, true, terminal)], fileExists);
    AnythingMatches(name);
    forall t | make.Matching(name, nested, {}, t) ensures MatchesAnything(make.TargetOf(t)) {
      assert make.rules[t.rule].targets == [ANYTHING];
    }
  }

  /** A rule with prerequisites but no recipe is cancelled, and one in use is not considered. */
  lemma CancelledOrInUse(o: Pattern, dep: string, hasRecipe: bool, used: set<nat>, fileExists: string -> bool,
                         name: string, stem: string)
    requires '/' !in name && MatchTarget(name, o) == Some(stem) && !MatchesAnything(o)
    ensures var make := PlainMakefile([Rule([o], [dep], hasRecipe, false)], fileExists);
      Query(name, {}, false, used).Eligible(make, Try(0, 0, false, stem)) <==> hasRecipe && 0 !in used
  {
    var make := PlainMakefile([Rule([o], [dep], hasRecipe, false)], fileExists);
    NoDirectory(name, o);
    assert make.TargetOf(Try(0, 0, false, stem)) == o;
    forall j: nat | j < 1 ensures !MatchesAnything(make.rules[0].targets[j]) {
      assert make.rules[0].targets[0] == o;
    }
  }
}
