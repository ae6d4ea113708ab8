/** The search for an implicit rule: backtracking over pattern rules and, when no rule
    applies directly, over rules for their prerequisites. */
module ImplicitSearch {
  import opened Prelude
  import opened ImplicitRules

  /** The rule defined first, and its target listed first, comes first. */
  predicate DefinedBefore(a: Try, b: Try) {
    a.rule < b.rule || (a.rule == b.rule && a.target < b.target)
  }

  /** stemlen_compare: the shorter stem first, then the order of definition. */
  predicate Before(name: string, a: Try, b: Try) {
    var x, y := |FullStem(name, a)|, |FullStem(name, b)|;
    x < y || (x == y && DefinedBefore(a, b))
  }

  predicate Reached(t: Try, rule: nat, target: nat) {
    t.rule < rule || (t.rule == rule && t.target < target)
  }

  /** One match is tried at most once, and of two for the same rule and target only one exists. */
  lemma OneTryForEach(make: Makefile, name: string, nested: bool, used: set<nat>, a: Try, b: Try)
    requires make.Matching(name, nested, used, a) && make.Matching(name, nested, used, b)
    ensures a == b || DefinedBefore(a, b) || DefinedBefore(b, a)
  {
  }

  lemma InOrderWith(tries: seq<Try>, rule: nat, target: nat, t: Try)
    requires InOrder(tries) && t.rule == rule && t.target == target
    requires forall u :: u in tries ==> Reached(u, rule, target)
    ensures InOrder(tries + [t])
  {
    forall i: nat | i < |tries| ensures DefinedBefore(tries[i], t) {
      assert tries[i] in tries;
    }
  }

  // ----- sorting -----

  ghost predicate Sorted(name: string, tries: seq<Try>) {
    forall i: nat, j: nat :: i < j < |tries| ==> Before(name, tries[i], tries[j])
  }

  ghost predicate InOrder(tries: seq<Try>) {
    forall i: nat, j: nat :: i < j < |tries| ==> DefinedBefore(tries[i], tries[j])
  }

  /** Put t in its place. */
  method Place(name: string, sorted: seq<Try>, t: Try) returns (r: seq<Try>)
    requires Sorted(name, sorted)
    requires forall u :: u in sorted ==> DefinedBefore(u, t)
    ensures Sorted(name, r)
    ensures forall u :: u in r <==> u in sorted || u == t
  {
    var i := |sorted|;
    while i > 0 && !Before(name, sorted[i - 1], t)
      invariant 0 <= i <= |sorted|
      invariant i < |sorted| ==> Before(name, t, sorted[i])
    {
      assert DefinedBefore(sorted[i - 1], t);
      i := i - 1;
    }
    Inserted(name, sorted, i, t);
    r := sorted[..i] + [t] + sorted[i..];
  }

  lemma Inserted(name: string, sorted: seq<Try>, i: nat, t: Try)
    requires Sorted(name, sorted) && i <= |sorted|
    requires i > 0 ==> Before(name, sorted[i - 1], t)
    requires i < |sorted| ==> Before(name, t, sorted[i])
    ensures Sorted(name, sorted[..i] + [t] + sorted[i..])
    ensures forall u :: u in sorted[..i] + [t] + sorted[i..] <==> u in sorted || u == t
  {
    InsertedOnes(sorted, i, t);
    var r := sorted[..i] + [t] + sorted[i..];
    forall j: nat, k: nat | j < k < |r| ensures Before(name, r[j], r[k]) {
      assert j != i ==> r[j] == sorted[if j < i then j else j - 1];
      assert k != i ==> r[k] == sorted[if k < i then k else k - 1];
    }
  }

  lemma InsertedOnes(sorted: seq<Try>, i: nat, t: Try)
    requires i <= |sorted|
    ensures forall u :: u in sorted[..i] + [t] + sorted[i..] <==> u in sorted || u == t
  {
    assert sorted == sorted[..i] + sorted[i..];
  }

  /** The order qsort puts the tries in. */
  method SortByStem(name: string, tries: seq<Try>) returns (r: seq<Try>)
    requires InOrder(tries)
    ensures Sorted(name, r)
    ensures forall u :: u in r <==> u in tries
  {
    r := [];
    for i := 0 to |tries|
      invariant Sorted(name, r)
      invariant forall u :: u in r <==> u in tries[..i]
    {
      r := Place(name, r, tries[i]);
      assert tries[..i + 1] == tries[..i] + [tries[i]];
    }
    assert tries[..|tries|] == tries;
  }

  // ----- the search -----

  /** A file made by a rule, and what was known when it was found. */
  datatype Origin = Origin(mentioned: set<string>, nested: bool, used: set<nat>, recipe: Recipe)

  /** Another target of the rule found for a name. */
  datatype Byproduct = Byproduct(name: string, origin: Origin, target: nat)

  ghost predicate OriginSound(make: Makefile, db: Database, name: string, o: Origin) {
    make.Sound(db, o.mentioned, o.used, o.nested, name, o.recipe)
  }

  ghost predicate ByproductSound(make: Makefile, db: Database, name: string, b: Byproduct) {
    && OriginSound(make, db, b.name, b.origin)
    && IsOther(make, name, b.name, b.origin.recipe.choice, b.target)
  }

  predicate IsOther(make: Makefile, other: string, name: string, choice: Try, target: nat)
    requires make.InRange(choice)
  {
    && target < |make.rules[choice.rule].targets| && target != choice.target
    && other == OtherTarget(name, choice, make.rules[choice.rule].targets[target])
  }

  ghost predicate AllSound(make: Makefile, db: Database, made: map<string, Origin>,
                           byproducts: map<string, Byproduct>)
  {
    && (forall n :: n in made ==> OriginSound(make, db, n, made[n]))
    && (forall n :: n in byproducts ==> ByproductSound(make, db, n, byproducts[n]))
  }

  lemma AllSoundStay(make: Makefile, a: Database, b: Database, made: map<string, Origin>,
                     byproducts: map<string, Byproduct>)
    requires a.known <= b.known && a.targets <= b.targets
    requires AllSound(make, a, made, byproducts)
    ensures AllSound(make, b, made, byproducts)
  {
    forall n | n in made ensures OriginSound(make, b, n, made[n]) {
      make.SoundStays(a, b, made[n].mentioned, made[n].used, made[n].nested, n, made[n].recipe);
    }
    forall n | n in byproducts ensures ByproductSound(make, b, n, byproducts[n]) {
      var x := byproducts[n];
      make.SoundStays(a, b, x.origin.mentioned, x.origin.used, x.origin.nested, x.name, x.origin.recipe);
    }
  }

  /** Every target in the database was declared, or has a sound derivation, or is a byproduct
      of a rule that has one. */
  ghost predicate Accounted(make: Makefile, declared: set<string>, db: Database,
      made: map<string, Origin>, byproducts: map<string, Byproduct>)
  {
    && (forall n :: n in db.targets <==> n in declared || n in made || n in byproducts)
    && db.targets <= db.known
    && AllSound(make, db, made, byproducts)
  }

  function WithTarget(db: Database, name: string): Database {
    db.(known := db.known + {name}, targets := db.targets + {name})
  }

  lemma MadeToo(make: Makefile, db: Database, made: map<string, Origin>, byproducts: map<string, Byproduct>,
                name: string, o: Origin)
    requires AllSound(make, db, made, byproducts) && OriginSound(make, db, name, o)
    ensures AllSound(make, db, made[name := o], byproducts)
  {
    var made' := made[name := o];
    forall n | n in made' ensures OriginSound(make, db, n, made'[n]) {
      if n != name { assert made'[n] == made[n]; }
    }
  }

  lemma ByproductToo(make: Makefile, db: Database, made: map<string, Origin>, byproducts: map<string, Byproduct>,
                     name: string, b: Byproduct)
    requires AllSound(make, db, made, byproducts) && ByproductSound(make, db, name, b)
    ensures AllSound(make, db, made, byproducts[name := b])
  {
    var byproducts' := byproducts[name := b];
    forall n | n in byproducts' ensures ByproductSound(make, db, n, byproducts'[n]) {
      if n != name { assert byproducts'[n] == byproducts[n]; }
    }
  }

  lemma TargetAccounted(make: Makefile, declared: set<string>, db: Database,
      made: map<string, Origin>, byproducts: map<string, Byproduct>, name: string, o: Origin)
    requires Accounted(make, declared, db, made, byproducts) && OriginSound(make, db, name, o)
    ensures Accounted(make, declared, WithTarget(db, name), made[name := o], byproducts)
  {
    MadeToo(make, db, made, byproducts, name, o);
    AllSoundStay(make, db, WithTarget(db, name), made[name := o], byproducts);
  }

  lemma ByproductAccounted(make: Makefile, declared: set<string>, db: Database,
      made: map<string, Origin>, byproducts: map<string, Byproduct>, name: string, b: Byproduct)
    requires Accounted(make, declared, db, made, byproducts) && ByproductSound(make, db, name, b)
    ensures Accounted(make, declared, WithTarget(db, name), made, byproducts[name := b])
  {
    ByproductToo(make, db, made, byproducts, name, b);
    AllSoundStay(make, db, WithTarget(db, name), made, byproducts[name := b]);
  }

  lemma PartSound(make: Makefile, a: Database, b: Database, name: string, o: Origin, i: nat)
    requires a.known <= b.known && a.targets <= b.targets
    requires OriginSound(make, a, name, o) && i < |o.recipe.prereqs| && o.recipe.prereqs[i].Made?
    ensures OriginSound(make, b, o.recipe.prereqs[i].name,
      Origin({}, true, o.used + {o.recipe.source.rule}, o.recipe.prereqs[i].recipe))
  {
    var p := o.recipe.prereqs[i];
    assert make.Justified(a, o.mentioned, o.used + {o.recipe.source.rule}, p);
    make.SoundStays(a, b, {}, o.used + {o.recipe.source.rule}, true, p.name, p.recipe);
  }

  lemma OtherSound(make: Makefile, a: Database, b: Database, name: string, o: Origin, j: nat)
    requires a.known <= b.known && a.targets <= b.targets
    requires OriginSound(make, a, name, o)
    requires j < |make.rules[o.recipe.choice.rule].targets| && j != o.recipe.choice.target
    ensures ByproductSound(make, b, OtherTarget(name, o.recipe.choice, make.rules[o.recipe.choice.rule].targets[j]),
      Byproduct(name, o, j))
  {
    make.SoundStays(a, b, o.mentioned, o.used, o.nested, name, o.recipe);
  }

  predicate MadeFrom(prereqs: seq<Prereq>, i: nat, made: map<string, Origin>) {
    forall k: nat :: i <= k < |prereqs| && prereqs[k].Made? ==> prereqs[k].name in made
  }

  predicate KnownFrom(prereqs: seq<Prereq>, i: nat, known: set<string>) {
    forall k: nat :: i <= k < |prereqs| ==> prereqs[k].name in known
  }

  class Search {
    const make: Makefile
    const declared: set<string>
    var inUse: set<nat>
    var db: Database
    var made: map<string, Origin>
    var byproducts: map<string, Byproduct>

    constructor (make: Makefile, known: set<string>, declared: set<string>)
      requires declared <= known
      ensures Valid() && inUse == {} && made == map[] && byproducts == map[]
      ensures this.make == make && this.declared == declared && db == Database(known, declared, {})
    {
      this.make, this.declared := make, declared;
      inUse, made, byproducts := {}, map[], map[];
      db := Database(known, declared, {});
    }

    /** Look at one target of one rule. */
    method Consider(name: string, nested: bool, rule: nat, target: nat) returns (t: Option<Try>)
      requires rule < |make.rules| && target < |make.rules[rule].targets|
      ensures t.Some? ==>
        make.Matching(name, nested, inUse, t.value) && t.value.rule == rule && t.value.target == target
      ensures t == None ==>
        forall u: Try :: u.rule == rule && u.target == target ==> !make.Matching(name, nested, inUse, u)
    {
      var r := make.rules[rule];
      var p := r.targets[target];
      if r.deps != [] && !r.hasRecipe {
        return None;
      }
      if rule in inUse {
        return None;
      }
      if nested && MatchesAnything(p) && !r.terminal {
        return None;
      }
      var stem := MatchTarget(name, p);
      t := if stem.Some? then Some(Try(rule, target, UsesDirectory(name, p), stem.value)) else None;
    }

    ghost predicate SpecificSoFar(name: string, nested: bool, rule: nat, target: nat)
      reads this
    {
      exists t :: make.Matching(name, nested, inUse, t) && Reached(t, rule, target)
        && !MatchesAnything(make.TargetOf(t))
    }

    /** The tries recorded are those that may be considered among the targets looked at. */
    ghost predicate Recorded(name: string, nested: bool, tries: seq<Try>, rule: nat, target: nat)
      reads this
    {
      && InOrder(tries)
      && forall u :: u in tries <==> make.Candidate(name, nested, inUse, u) && Reached(u, rule, target)
    }

    /** The target looked at next is none that may be considered. */
    lemma NothingToRecord(name: string, nested: bool, tries: seq<Try>, rule: nat, target: nat)
      requires forall u: Try :: u.rule == rule && u.target == target ==> !make.Matching(name, nested, inUse, u)
      requires Recorded(name, nested, tries, rule, target)
      ensures Recorded(name, nested, tries, rule, target + 1)
      ensures SpecificSoFar(name, nested, rule, target + 1) <==> SpecificSoFar(name, nested, rule, target)
    {
      forall u | make.Matching(name, nested, inUse, u)
        ensures Reached(u, rule, target + 1) <==> Reached(u, rule, target)
      {
      }
    }

    /** The target looked at next is matched, by one try only. */
    lemma OneReached(name: string, nested: bool, rule: nat, target: nat, t: Try)
      requires make.Matching(name, nested, inUse, t) && t.rule == rule && t.target == target
      ensures forall u :: make.Matching(name, nested, inUse, u) ==>
        (Reached(u, rule, target + 1) <==> Reached(u, rule, target) || u == t)
    {
      forall u | make.Matching(name, nested, inUse, u)
        ensures Reached(u, rule, target + 1) <==> Reached(u, rule, target) || u == t
      {
        if u.rule == rule && u.target == target { OneTryForEach(make, name, nested, inUse, u, t); }
      }
    }

    lemma RecordSpecific(name: string, nested: bool, rule: nat, target: nat, t: Try)
      requires make.Matching(name, nested, inUse, t) && t.rule == rule && t.target == target
      ensures SpecificSoFar(name, nested, rule, target + 1)
        <==> SpecificSoFar(name, nested, rule, target) || !MatchesAnything(make.TargetOf(t))
    {
      OneReached(name, nested, rule, target, t);
    }

    lemma RecordTry(name: string, nested: bool, tries: seq<Try>, rule: nat, target: nat, t: Try)
      requires make.Matching(name, nested, inUse, t) && t.rule == rule && t.target == target
      requires Recorded(name, nested, tries, rule, target)
      ensures Recorded(name, nested, if make.rules[rule].hasRecipe then tries + [t] else tries, rule, target + 1)
    {
      OneReached(name, nested, rule, target, t);
      if make.rules[rule].hasRecipe {
        InOrderWith(tries, rule, target, t);
        forall u
          ensures u in tries + [t] <==> make.Candidate(name, nested, inUse, u) && Reached(u, rule, target + 1)
        {
          assert u in tries + [t] <==> u in tries || u == t;
        }
      }
    }

    method Record(name: string, nested: bool, rule: nat, target: nat, tries: seq<Try>, specific: bool)
      returns (tries': seq<Try>, specific': bool)
      requires rule < |make.rules| && target < |make.rules[rule].targets|
      requires Recorded(name, nested, tries, rule, target) && (specific <==> SpecificSoFar(name, nested, rule, target))
      ensures Recorded(name, nested, tries', rule, target + 1)
      ensures specific' <==> SpecificSoFar(name, nested, rule, target + 1)
    {
      tries', specific' := tries, specific;
      var t := Consider(name, nested, rule, target);
      if t.Some? {
        RecordSpecific(name, nested, rule, target, t.value);
        RecordTry(name, nested, tries, rule, target, t.value);
        if !MatchesAnything(make.TargetOf(t.value)) { specific' := true; }
        if make.rules[rule].hasRecipe { tries' := tries + [t.value]; }
      } else {
        NothingToRecord(name, nested, tries, rule, target);
      }
    }

    /** Which rules match the target and may be considered, and whether one of them does not
        match anything and everything. */
    method Collect(name: string, nested: bool) returns (tries: seq<Try>, specific: bool)
      ensures InOrder(tries)
      ensures forall u :: u in tries <==> make.Candidate(name, nested, inUse, u)
      ensures specific <==> make.Specific(name, nested, inUse)
    {
      tries, specific := [], false;
      for rule := 0 to |make.rules|
        invariant Recorded(name, nested, tries, rule, 0)
        invariant specific <==> SpecificSoFar(name, nested, rule, 0)
      {
        for target := 0 to |make.rules[rule].targets|
          invariant Recorded(name, nested, tries, rule, target)
          invariant specific <==> SpecificSoFar(name, nested, rule, target)
        {
          tries, specific := Record(name, nested, rule, target, tries, specific);
        }
        assert forall u :: make.InRange(u) ==>
          (Reached(u, rule, |make.rules[rule].targets|) <==> Reached(u, rule + 1, 0));
      }
      assert forall u :: make.InRange(u) ==> Reached(u, |make.rules|, 0);
    }

    function Kept(specific: bool, t: Try): Option<Try>
      requires make.InRange(t)
    {
      if specific && make.Rejectable(t) then None else Some(t)
    }

    /** Take back the rules that match anything and everything, unless terminal, if one that
        does not has matched. */
    method Reject(tries: seq<Try>, specific: bool) returns (slots: seq<Option<Try>>)
      requires forall i: nat :: i < |tries| ==> make.InRange(tries[i])
      ensures |slots| == |tries|
      ensures forall i: nat :: i < |tries| ==> slots[i] == Kept(specific, tries[i])
    {
      slots := [];
      for i := 0 to |tries|
        invariant |slots| == i
        invariant forall k: nat :: k < i ==> slots[k] == Kept(specific, tries[k])
      {
        var reject := false;
        var rule := make.rules[tries[i].rule];
        if specific && !rule.terminal {
          for j := 0 to |rule.targets|
            invariant reject <==> exists k: nat :: k < j && MatchesAnything(rule.targets[k])
          {
            if MatchesAnything(rule.targets[j]) { reject := true; }
          }
        }
        slots := slots + [if reject then None else Some(tries[i])];
      }
    }

    method Prepare(name: string, ghost mentioned: set<string>, nested: bool) returns (slots: seq<Option<Try>>)
      ensures Query(name, mentioned, nested, inUse).Slots(make, slots)
    {
      var tries, specific := Collect(name, nested);
      tries := SortByStem(name, tries);
      forall i: nat | i < |tries| ensures make.Candidate(name, nested, inUse, tries[i]) {
        assert tries[i] in tries;
      }
      slots := Reject(tries, specific);
      forall u | make.Eligible(name, nested, inUse, u) ensures Some(u) in slots {
        assert u in tries;
        var i: nat :| i < |tries| && tries[i] == u;
        assert slots[i] == Some(u);
      }
    }

    // ----- the state of the search -----

    ghost predicate Valid()
      reads this
    {
      && (forall r :: r in inUse ==> r < |make.rules|)
      && Accounted(make, declared, db, made, byproducts)
    }

    // ----- entering files -----

    /** enter_file */
    method Enter(names: set<string>)
      requires Valid()
      modifies this`db
      ensures Valid()
      ensures db == old(db).(known := old(db.known) + names)
    {
      ghost var was := db;
      db := db.(known := db.known + names);
      AllSoundStay(make, was, db, made, byproducts);
    }

    /** Rule a name out. */
    method RuleOut(name: string)
      requires Valid()
      modifies this`db
      ensures Valid()
      ensures db == old(db).(impossible := old(db.impossible) + {name})
    {
      ghost var was := db;
      db := db.(impossible := db.impossible + {name});
      AllSoundStay(make, was, db, made, byproducts);
    }

    /** Enter a file as the target of the rule found for it. */
    method EnterTarget(name: string, origin: Origin)
      requires Valid() && OriginSound(make, db, name, origin)
      modifies this`db, this`made
      ensures Valid()
      ensures made == old(made)[name := origin] && db == WithTarget(old(db), name)
    {
      TargetAccounted(make, declared, db, made, byproducts, name, origin);
      made := made[name := origin];
      db := WithTarget(db, name);
    }

    /** Enter another target of the rule found for a file. */
    method EnterByproduct(name: string, byproduct: Byproduct)
      requires Valid() && ByproductSound(make, db, name, byproduct)
      modifies this`db, this`byproducts
      ensures Valid()
      ensures byproducts == old(byproducts)[name := byproduct] && db == WithTarget(old(db), name)
    {
      ByproductAccounted(make, declared, db, made, byproducts, name, byproduct);
      byproducts := byproducts[name := byproduct];
      db := WithTarget(db, name);
    }

    /** Turn an intermediate file into a target, and its prerequisites into files. */
    method AdoptPrereq(p: Prereq, used: set<nat>, nested: bool)
      requires Valid() && (p.Made? ==> OriginSound(make, db, p.name, Origin({}, true, used, p.recipe)))
      modifies this`db, this`made
      ensures Valid() && Grows(old(db), db)
      ensures p.Made? ==> p.name in made && (set n | n in NamesOf(p.recipe.prereqs)) <= db.known
      ensures !nested ==> p.name in db.known
      ensures forall n :: n in old(made) ==> n in made
    {
      if p.Made? {
        EnterTarget(p.name, Origin({}, true, used, p.recipe));
        Enter(set n | n in NamesOf(p.recipe.prereqs));
      }
      if !nested {
        Enter({p.name});
      }
    }

    method AdoptAt(name: string, origin: Origin, i: nat, ghost was: Database)
      requires Valid() && Grows(was, db)
      requires OriginSound(make, was, name, origin) && i < |origin.recipe.prereqs|
      requires MadeFrom(origin.recipe.prereqs, i + 1, made)
      requires !origin.nested ==> KnownFrom(origin.recipe.prereqs, i + 1, db.known)
      modifies this`db, this`made
      ensures Valid() && Grows(was, db)
      ensures MadeFrom(origin.recipe.prereqs, i, made)
      ensures !origin.nested ==> KnownFrom(origin.recipe.prereqs, i, db.known)
    {
      var p := origin.recipe.prereqs[i];
      if p.Made? {
        PartSound(make, was, db, name, origin, i);
      }
      AdoptPrereq(p, origin.used + {origin.recipe.source.rule}, origin.nested);
    }

    /** Convert the prerequisites found into entries of the database, the last one first. */
    method AdoptPrereqs(name: string, origin: Origin, ghost was: Database)
      requires Valid() && was == db && OriginSound(make, was, name, origin)
      modifies this`db, this`made
      ensures Valid() && Grows(was, db)
      ensures MadeFrom(origin.recipe.prereqs, 0, made)
      ensures !origin.nested ==> KnownFrom(origin.recipe.prereqs, 0, db.known)
    {
      var i := |origin.recipe.prereqs|;
      while i > 0
        invariant 0 <= i <= |origin.recipe.prereqs|
        invariant Valid() && Grows(was, db)
        invariant MadeFrom(origin.recipe.prereqs, i, made)
        invariant !origin.nested ==> KnownFrom(origin.recipe.prereqs, i, db.known)
      {
        i := i - 1;
        AdoptAt(name, origin, i, was);
      }
    }

    method EnterOther(name: string, origin: Origin, j: nat, ghost was: Database)
      requires Valid() && Grows(was, db) && OriginSound(make, was, name, origin)
      requires j < |make.rules[origin.recipe.choice.rule].targets| && j != origin.recipe.choice.target
      modifies this`db, this`byproducts
      ensures Valid() && Grows(was, db)
      ensures var t := origin.recipe.choice;
        db == WithTarget(old(db), OtherTarget(name, t, make.rules[t.rule].targets[j]))
    {
      OtherSound(make, was, db, name, origin, j);
      var other := OtherTarget(name, origin.recipe.choice, make.rules[origin.recipe.choice.rule].targets[j]);
      EnterByproduct(other, Byproduct(name, origin, j));
    }

    /** If the rule builds other targets too, enter them. */
    method AdoptByproducts(name: string, origin: Origin, ghost was: Database)
      requires Valid() && Grows(was, db) && OriginSound(make, was, name, origin)
      modifies this`db, this`byproducts
      ensures Valid() && Grows(was, db) && Grows(old(db), db)
      ensures OthersEntered(make, name, origin.recipe.choice, |make.rules[origin.recipe.choice.rule].targets|, db)
    {
      var choice := origin.recipe.choice;
      for j := 0 to |make.rules[choice.rule].targets|
        invariant Valid() && Grows(was, db) && Grows(old(db), db)
        invariant OthersEntered(make, name, choice, j, db)
      {
        if j != choice.target {
          EnterOther(name, origin, j, was);
        }
      }
    }

    /** Record in the database what the rule found for a name means. */
    method Adopt(name: string, origin: Origin)
      requires Valid() && OriginSound(make, db, name, origin)
      modifies this`db, this`made, this`byproducts
      ensures Valid() && Grows(old(db), db) && OriginSound(make, db, name, origin)
      ensures MadeFrom(origin.recipe.prereqs, 0, made)
      ensures !origin.nested ==> name in made && made[name] == origin && KnownFrom(origin.recipe.prereqs, 0, db.known)
      ensures OthersEntered(make, name, origin.recipe.choice, |make.rules[origin.recipe.choice.rule].targets|, db)
    {
      ghost var was := db;
      AdoptPrereqs(name, origin, was);
      if !origin.nested {
        make.SoundStays(was, db, origin.mentioned, origin.used, origin.nested, name, origin.recipe);
        EnterTarget(name, origin);
      }
      AdoptByproducts(name, origin, was);
      make.SoundStays(was, db, origin.mentioned, origin.used, origin.nested, name, origin.recipe);
    }

    // ----- trying rules -----

    /** How many rules are not in use. */
    ghost function Free(): nat
      reads this
    {
      |set r: nat | r < |make.rules| && r !in inUse|
    }

    /** What the first n entries of the rule name is in reach, without the rules in use. */
    ghost predicate InReach(was: Database, name: string, t: Try, n: nat, mentioned: set<string>, compat: bool,
                            depth: nat)
      requires make.InRange(t) && n <= |make.rules[t.rule].deps|
      reads this`inUse
    {
      AllReachable(make, was, mentioned, compat, inUse, make.Names(name, t, n), depth)
    }

    /** All prerequisites of the rule are in reach without it. */
    ghost predicate LeadsOn(was: Database, name: string, t: Try, mentioned: set<string>, compat: bool, depth: nat)
      requires make.InRange(t)
      reads this`inUse
    {
      AllReachable(make, was, mentioned, compat, inUse + {t.rule}, make.AllNames(name, t), depth)
    }

    /** Whether a prerequisite exists or can be created. */
    method TryPrereq(name: string, mentioned: set<string>, compat: bool, intermediate: bool, ghost depth: nat)
      returns (p: Option<Prereq>, impossible: bool, compatible: bool)
      requires Valid() && mentioned <= db.known
      modifies this
      ensures Valid() && inUse == old(inUse) && make.Extends(old(db), db)
      ensures p.Some? ==> p.value.name == name && make.Justified(db, mentioned, inUse, p.value)
      ensures make.Judge(old(db), mentioned, compat, name).Available? ==> p.Some?
      ensures !intermediate ==> db == old(db) && (p.Some? <==> make.Judge(db, mentioned, compat, name).Available?)
      ensures compatible ==> !compat
      ensures p == None && !compat && make.Judge(old(db), mentioned, true, name).Available? ==> compatible
      ensures impossible ==> name in db.impossible
      ensures intermediate && p == None ==> name in old(db.known) || name in db.impossible
      ensures intermediate && Reachable(make, old(db), mentioned, compat, inUse, name, depth) ==>
        p.Some? && db.impossible == old(db.impossible)
      decreases Free() + 1, 0, 1
    {
      p, impossible, compatible := None, false, false;
      if name in db.impossible {
        impossible := true;
        return;
      }
      var known := name in db.known;
      if name in db.targets { return Some(Leaf(name, IsTarget)), false, false; }
      if name in mentioned { return Some(Leaf(name, IsMentioned)), false, false; }
      if make.fileExists(name) { return Some(Leaf(name, Exists)), false, false; }
      if known && compat { return Some(Leaf(name, IsKnown)), false, false; }
      if known { compatible := true; }
      if make.vpathFinds(name) { return Some(Leaf(name, OnVpath)), false, compatible; }
      if intermediate {
        var recipe := PatternSearch(name, {}, true, compat, Query(name, {}, true, inUse), depth);
        if recipe.Some? {
          return Some(Made(name, recipe.value)), false, compatible;
        }
        if !known { RuleOut(name); }
      }
    }

    /** Try the prerequisites named by one entry of the rule, in order. */
    method TryNames(names: seq<string>, mentioned: set<string>, compat: bool, intermediate: bool, ghost depth: nat)
      returns (prereqs: seq<Prereq>, impossible: bool, compatible: bool)
      requires Valid() && mentioned <= db.known
      modifies this
      ensures Valid() && inUse == old(inUse) && make.Extends(old(db), db)
      ensures |prereqs| <= |names| && NamesOf(prereqs) == names[..|prereqs|]
      ensures AllJustified(make, db, mentioned, inUse, prereqs)
      ensures AllAtHand(make, old(db), mentioned, compat, names) ==> |prereqs| == |names|
      ensures !intermediate ==> db == old(db)
      ensures !intermediate ==> AtHandPrefix(make, db, mentioned, compat, NamesOf(prereqs), names)
      ensures compatible ==> !compat
      ensures |prereqs| < |names| && !compat && AllAtHand(make, old(db), mentioned, true, names) ==> compatible
      ensures impossible ==> SomeImpossible(db, names)
      ensures intermediate && AllReachable(make, old(db), mentioned, compat, inUse, names, depth) ==>
        |prereqs| == |names| && db.impossible == old(db.impossible)
      decreases Free() + 1, 0, 2
    {
      prereqs, impossible, compatible := [], false, false;
      for i := 0 to |names|
        invariant Valid() && inUse == old(inUse) && make.Extends(old(db), db)
        invariant |prereqs| == i && NamesOf(prereqs) == names[..i]
        invariant AllJustified(make, db, mentioned, inUse, prereqs)
        invariant !intermediate ==> db == old(db) && AllAtHand(make, db, mentioned, compat, names[..i])
        invariant compatible ==> !compat
        invariant intermediate && AllReachable(make, old(db), mentioned, compat, inUse, names, depth) ==>
          db.impossible == old(db.impossible)
      {
        ghost var was := db;
        ghost var n := names[i];
        if intermediate && AllReachable(make, old(db), mentioned, compat, inUse, names, depth) {
          ReachableStays(make, old(db), was, mentioned, compat, inUse, n, depth);
        }
        var p, dead, c := TryPrereq(names[i], mentioned, compat, intermediate, depth);
        compatible := compatible || c;
        JudgeStays(make, old(db), was, mentioned, compat, n);
        JudgeStays(make, old(db), was, mentioned, true, n);
        AllJustifiedStay(make, was, db, mentioned, inUse, prereqs);
        if p == None {
          impossible := dead;
          assert n in names;
          return;
        }
        prereqs := prereqs + [p.value];
        TakeOneMore(names, i);
      }
      TakeAll(names);
    }

    /** Try what one entry of the rule names, after those before it were found. */
    method TryEntry(name: string, t: Try, k: nat, found: seq<Prereq>, mentioned: set<string>, compat: bool,
                    intermediate: bool, ghost was: Database, ghost depth: nat)
      returns (prereqs: seq<Prereq>, ok: bool, impossible: bool, compatible: bool)
      requires Valid() && mentioned + was.targets <= was.known && make.Extends(was, db)
      requires make.InRange(t) && k < |make.rules[t.rule].deps|
      requires NamesOf(found) == make.Names(name, t, k) && AllJustified(make, db, mentioned, inUse, found)
      modifies this
      ensures Valid() && inUse == old(inUse) && make.Extends(was, db)
      ensures if ok then NamesOf(prereqs) == make.Names(name, t, k + 1)
              else NamesOf(prereqs) < make.Names(name, t, k + 1)
      ensures AllJustified(make, db, mentioned, inUse, prereqs)
      ensures compatible ==> !compat
      ensures !intermediate ==> db == old(db)
      ensures !intermediate && AllAtHand(make, db, mentioned, compat, make.Names(name, t, k)) ==>
        AtHandPrefix(make, db, mentioned, compat, NamesOf(prereqs), make.Names(name, t, k + 1))
      ensures !ok ==> !AllAtHand(make, was, mentioned, compat, make.Names(name, t, k + 1))
      ensures !ok && !compat && AllAtHand(make, was, mentioned, true, make.Names(name, t, k + 1)) ==> compatible
      ensures impossible ==> SomeImpossible(db, make.Names(name, t, k + 1))
      ensures intermediate && old(db.impossible) == was.impossible ==>
        InReach(was, name, t, k + 1, mentioned, compat, depth) ==> ok && db.impossible == was.impossible
      decreases Free() + 1, 0, 3
    {
      var names := make.parse(make.PrereqText(name, t, make.rules[t.rule].deps[k]));
      ghost var before := db;
      if intermediate && db.impossible == was.impossible && InReach(was, name, t, k + 1, mentioned, compat, depth) {
        AllReachableStay(make, was, db, mentioned, compat, inUse, names, depth);
      }
      prereqs, impossible, compatible := TryNames(names, mentioned, compat, intermediate, depth);
      AllJustifiedStay(make, before, db, mentioned, inUse, found);
      AtHandStay(make, was, before, mentioned, compat, names);
      AtHandStay(make, was, before, mentioned, true, names);
      NamesOfBoth(found, prereqs);
      ok := |prereqs| == |names|;
      prereqs := found + prereqs;
    }

    /** Mark the rule as in use and try each of its prerequisites. */
    method TryRule(name: string, t: Try, mentioned: set<string>, compat: bool, intermediate: bool, ghost depth: nat)
      returns (prereqs: seq<Prereq>, ok: bool, impossible: bool, compatible: bool)
      requires Valid() && mentioned <= db.known
      requires make.InRange(t) && t.rule !in inUse
      modifies this
      ensures Valid() && inUse == old(inUse) && make.Extends(old(db), db)
      ensures if ok then NamesOf(prereqs) == make.AllNames(name, t) else NamesOf(prereqs) < make.AllNames(name, t)
      ensures AllJustified(make, db, mentioned, inUse + {t.rule}, prereqs)
      ensures compatible ==> !compat
      ensures !intermediate ==> db == old(db)
      ensures !intermediate ==> AtHandPrefix(make, db, mentioned, compat, NamesOf(prereqs), make.AllNames(name, t))
      ensures !ok ==> !AllAtHand(make, old(db), mentioned, compat, make.AllNames(name, t))
      ensures !ok && !compat && AllAtHand(make, old(db), mentioned, true, make.AllNames(name, t)) ==> compatible
      ensures impossible ==> SomeImpossible(db, make.AllNames(name, t))
      ensures intermediate && LeadsOn(old(db), name, t, mentioned, compat, depth) ==>
        ok && db.impossible == old(db.impossible)
      decreases Free(), if compat then 0 else 1, 4
    {
      prereqs, ok, impossible, compatible := [], true, false, false;
      UseOne(make.rules, inUse, t.rule);
      inUse := inUse + {t.rule};
      var k := 0;
      while k < |make.rules[t.rule].deps| && ok
        invariant k <= |make.rules[t.rule].deps|
        invariant Valid() && inUse == old(inUse) + {t.rule} && make.Extends(old(db), db)
        invariant if ok then NamesOf(prereqs) == make.Names(name, t, k) else NamesOf(prereqs) < make.Names(name, t, k)
        invariant AllJustified(make, db, mentioned, inUse, prereqs)
        invariant compatible ==> !compat
        invariant !intermediate ==> db == old(db)
        invariant !intermediate ==> AtHandPrefix(make, db, mentioned, compat, NamesOf(prereqs), make.Names(name, t, k))
        invariant !ok ==> !AllAtHand(make, old(db), mentioned, compat, make.Names(name, t, k))
        invariant !ok && !compat && AllAtHand(make, old(db), mentioned, true, make.Names(name, t, k)) ==> compatible
        invariant impossible ==> SomeImpossible(db, make.Names(name, t, k))
        invariant intermediate && InReach(old(db), name, t, k, mentioned, compat, depth) ==>
          ok && db.impossible == old(db.impossible)
      {
        var c;
        prereqs, ok, impossible, c := TryEntry(name, t, k, prereqs, mentioned, compat, intermediate, old(db), depth);
        compatible := compatible || c;
        k := k + 1;
      }
      inUse := inUse - {t.rule};
      NamesArePrefix(make, name, t, k);
    }

    /** What is left in deplist: prerequisites found for the last rule that was tried. */
    ghost predicate LeftFrom(name: string, mentioned: set<string>, nested: bool, source: Option<Try>,
                             prereqs: seq<Prereq>)
      reads this
    {
      if source == None then prereqs == []
      else
        && make.Eligible(name, nested, inUse, source.value)
        && NamesOf(prereqs) < make.AllNames(name, source.value)
        && AllJustified(make, db, mentioned, inUse + {source.value.rule}, prereqs)
    }

    /** Try one rule, unless it is passed over. */
    method TrySlot(name: string, t: Try, mentioned: set<string>, nested: bool, compat: bool, intermediate: bool,
        source: Option<Try>, prereqs: seq<Prereq>, ghost depth: nat)
      returns (found: Option<Recipe>, source': Option<Try>, prereqs': seq<Prereq>, impossible: bool, compatible: bool)
      requires Valid() && mentioned <= db.known && make.Eligible(name, nested, inUse, t)
      requires LeftFrom(name, mentioned, nested, source, prereqs)
      modifies this
      ensures Valid() && inUse == old(inUse) && make.Extends(old(db), db)
      ensures found.Some? ==> found.value.choice == t && make.Sound(db, mentioned, inUse, nested, name, found.value)
      ensures found == None ==> LeftFrom(name, mentioned, nested, source', prereqs')
      ensures compatible ==> !compat
      ensures !intermediate ==> db == old(db) && (found.Some? <==> make.Applies(db, mentioned, compat, name, t))
      ensures !intermediate && found == None && !compat && make.Applies(db, mentioned, true, name, t) ==> compatible
      ensures !intermediate && found == None && Collects(make, name, t) ==>
        source' == Some(t) && LeftBy(make, db, mentioned, compat, name, source', NamesOf(prereqs'))
      ensures !intermediate && found == None && !Collects(make, name, t) ==> source' == source && prereqs' == prereqs
      ensures !intermediate && found.Some? && make.rules[t.rule].deps == [] ==>
        found.value.prereqs == prereqs && found.value.source == if source.Some? then source.value else t
      ensures impossible ==> SomeImpossible(db, make.AllNames(name, t))
      ensures intermediate && !Chainable(make, name, t) ==> found == None && db == old(db)
      ensures intermediate && Chainable(make, name, t) && LeadsOn(old(db), name, t, mentioned, compat, depth) ==>
        found.Some? && db.impossible == old(db.impossible)
      decreases Free(), if compat then 0 else 1, 5
    {
      found, source', prereqs', impossible, compatible := None, source, prereqs, false, false;
      var rule := make.rules[t.rule];
      if intermediate && rule.terminal { return; }
      if !make.Short(name, t) { return; }
      if rule.deps == [] {
        found := Some(Recipe(t, if source.Some? then source.value else t, prereqs));
        return;
      }
      var ok;
      source' := Some(t);
      prereqs', ok, impossible, compatible := TryRule(name, t, mentioned, compat, intermediate, depth);
      if ok { found := Some(Recipe(t, t, prereqs')); }
    }

    /** One step of a pass, unless the slot has become empty. */
    method PassSlot(name: string, slot: Option<Try>, mentioned: set<string>, nested: bool, compat: bool,
                    intermediate: bool, source: Option<Try>, prereqs: seq<Prereq>, ghost slots: seq<Option<Try>>,
                    ghost i: nat, ghost before: bool, ghost depth: nat)
      returns (found: Option<Recipe>, source': Option<Try>, prereqs': seq<Prereq>, impossible: bool, compatible: bool)
      requires Valid() && mentioned <= db.known && i < |slots| && slots[i] == slot
      requires slot.Some? ==> make.Eligible(name, nested, inUse, slot.value)
      requires LeftFrom(name, mentioned, nested, source, prereqs)
      requires !intermediate ==>
        DirectlyTried(make, db, mentioned, compat, before, name, slots, i, source, NamesOf(prereqs))
      modifies this
      ensures Valid() && inUse == old(inUse) && make.Extends(old(db), db)
      ensures found.Some? ==> slot.Some? && make.Sound(db, mentioned, inUse, nested, name, found.value)
      ensures found == None ==> LeftFrom(name, mentioned, nested, source', prereqs')
      ensures compatible ==> !compat
      ensures !intermediate ==> db == old(db)
      ensures !intermediate && found.Some? ==> FirstToApply(make, db, mentioned, compat, name, slots, found.value)
      ensures !intermediate && found == None ==>
        DirectlyTried(make, db, mentioned, compat, before || compatible, name, slots, i + 1, source', NamesOf(prereqs'))
      ensures impossible ==> slot.Some? && SomeImpossible(db, make.AllNames(name, slot.value))
      ensures intermediate && (slot.Some? ==> !Chainable(make, name, slot.value)) ==> found == None && db == old(db)
      ensures intermediate && slot.Some? && Chainable(make, name, slot.value) ==>
        LeadsOn(old(db), name, slot.value, mentioned, compat, depth) ==>
          found.Some? && db.impossible == old(db.impossible)
      decreases Free(), if compat then 0 else 1, 6
    {
      found, source', prereqs', impossible, compatible := None, source, prereqs, false, false;
      if slot.Some? {
        found, source', prereqs', impossible, compatible :=
          TrySlot(name, slot.value, mentioned, nested, compat, intermediate, source, prereqs, depth);
      }
      if !intermediate {
        if found.Some? {
          assert make.rules[slot.value.rule].deps == [] ==> Donor(found.value) == source;
          assert FirstAt(make, db, mentioned, compat, name, slots, found.value, i);
        } else {
          if slot.Some? { OneMoreTried(make, db, mentioned, compat, before, before || compatible, name, slots, i); }
          if CollectsAt(make, name, slots, i) {
            IsLastMoves(make, name, slots, i);
          } else {
            IsLastStays(make, name, slots, i, source);
          }
        }
      }
    }

    /** The second pass over slots that start a chain has changed nothing so far. */
    ghost predicate Chaining(was: Database, compat: bool, q: Query, slots: seq<Option<Try>>, i: nat, depth: nat)
      requires i <= |slots|
      reads this`db
    {
      FirstReaches(make, was, compat, q, slots, depth) ==> db == was && NoneChainable(make, q.name, slots, i)
    }

    lemma ChainingEnds(was: Database, compat: bool, q: Query, slots: seq<Option<Try>>, depth: nat)
      requires Chaining(was, compat, q, slots, |slots|, depth)
      ensures !FirstReaches(make, was, compat, q, slots, depth)
    {
      AlwaysComes(make, was, compat, q, slots, depth);
    }

    /** One step of the second pass, on the way to the first rule it does not pass over. */
    method PassChained(q: Query, slots: seq<Option<Try>>, i: nat, left: seq<Option<Try>>, compat: bool,
                       intermediate: bool, source: Option<Try>, prereqs: seq<Prereq>, ghost before: bool,
                       ghost was: Database, ghost depth: nat)
      returns (found: Option<Recipe>, source': Option<Try>, prereqs': seq<Prereq>, left': seq<Option<Try>>,
               compatible: bool)
      requires DroppedForReason(make, q.name, db, slots, left)
      requires Valid() && q.mentioned <= db.known && i < |slots| && q.used == inUse && ToTry(make, q, slots)
      requires LeftFrom(q.name, q.mentioned, q.nested, source, prereqs)
      requires !intermediate ==>
        DirectlyTried(make, db, q.mentioned, compat, before, q.name, slots, i, source, NamesOf(prereqs))
      requires intermediate ==> Chaining(was, compat, q, slots, i, depth)
      modifies this
      ensures Valid() && inUse == old(inUse) && make.Extends(old(db), db)
      ensures found.Some? ==>
        slots[i].Some? && make.Sound(db, q.mentioned, inUse, q.nested, q.name, found.value)
      ensures found == None ==> LeftFrom(q.name, q.mentioned, q.nested, source', prereqs')
      ensures compatible ==> !compat
      ensures !intermediate ==> db == old(db)
      ensures !intermediate && found.Some? ==>
        FirstToApply(make, db, q.mentioned, compat, q.name, slots, found.value)
      ensures !intermediate && found == None ==> DirectlyTried(make, db, q.mentioned, compat, before || compatible,
        q.name, slots, i + 1, source', NamesOf(prereqs'))
      ensures DroppedForReason(make, q.name, db, slots, left')
      ensures intermediate && found == None ==> Chaining(was, compat, q, slots, i + 1, depth)
      ensures intermediate && found.Some? && FirstReaches(make, was, compat, q, slots, depth) ==>
        db.impossible == was.impossible
      decreases Free(), if compat then 0 else 1, 7
    {
      if intermediate && FirstReaches(make, was, compat, q, slots, depth) {
        ComesToFirst(make, was, compat, q, slots, i, depth);
      }
      ghost var started := db;
      var impossible;
      found, source', prereqs', impossible, compatible := PassSlot(q.name, slots[i], q.mentioned, q.nested, compat,
        intermediate, source, prereqs, slots, i, before, depth);
      DropsGrow(make, q.name, started, db, slots, left, i, impossible);
      left' := if impossible then left[i := None] else left;
    }

    /** Try each pattern rule till one applies, with or without intermediate files. */
    method Pass(name: string, mentioned: set<string>, nested: bool, compat: bool, intermediate: bool,
                slots: seq<Option<Try>>, q: Query, ghost depth: nat)
      returns (found: Option<Recipe>, slots': seq<Option<Try>>, compatible: bool)
      requires Valid() && mentioned <= db.known && q == Query(name, mentioned, nested, inUse) && ToTry(make, q, slots)
      modifies this
      ensures Valid() && inUse == old(inUse) && make.Extends(old(db), db)
      ensures found.Some? ==> make.Sound(db, mentioned, inUse, nested, name, found.value)
      ensures compatible ==> !compat
      ensures !intermediate ==> db == old(db)
      ensures !intermediate && found.Some? ==> FirstToApply(make, db, mentioned, compat, name, slots, found.value)
      ensures !intermediate && found == None ==> Tried(make, db, mentioned, compat, compatible, name, slots, |slots|)
      ensures found == None ==> DroppedForReason(make, name, db, slots, slots')
      ensures intermediate && FirstReaches(make, old(db), compat, q, slots, depth) ==>
        found.Some? && db.impossible == old(db.impossible)
      decreases Free(), if compat then 0 else 1, 8
    {
      found, slots', compatible := None, slots, false;
      var prereqs: seq<Prereq>, source: Option<Try> := [], None;
      for i := 0 to |slots|
        invariant Valid() && inUse == old(inUse) && make.Extends(old(db), db)
        invariant found == None && DroppedForReason(make, name, db, slots, slots')
        invariant LeftFrom(name, mentioned, nested, source, prereqs)
        invariant compatible ==> !compat
        invariant !intermediate ==> db == old(db)
        invariant !intermediate ==>
          DirectlyTried(make, db, mentioned, compat, compatible, name, slots, i, source, NamesOf(prereqs))
        invariant intermediate ==> Chaining(old(db), compat, q, slots, i, depth)
      {
        var c;
        found, source, prereqs, slots', c :=
          PassChained(q, slots, i, slots', compat, intermediate, source, prereqs, compatible, old(db), depth);
        if found.Some? { return; }
        compatible := compatible || c;
      }
      if intermediate { ChainingEnds(old(db), compat, q, slots, depth); }
    }

    /** The first pass, without intermediate files. */
    method SearchDirectly(name: string, mentioned: set<string>, nested: bool, compat: bool, q: Query)
      returns (found: Option<Recipe>, left: seq<Option<Try>>, compatible: bool)
      requires Valid() && mentioned <= db.known && q == Query(name, mentioned, nested, inUse)
      modifies this
      ensures Valid() && inUse == old(inUse) && db == old(db)
      ensures found == None ==> ToTry(make, q, left)
      ensures found.Some? ==> make.Sound(db, mentioned, inUse, nested, name, found.value)
      ensures found.Some? ==> q.FoundDirectly(make, db, compat, found.value)
      ensures compatible ==> !compat
      ensures found == None ==> q.NothingApplies(make, db, compat)
      ensures found == None && !compatible ==> q.NothingApplies(make, db, true)
      ensures found == None ==> AllButImpossible(make, db, q, left)
      decreases Free(), if compat then 0 else 1, 9
    {
      var slots := Prepare(name, mentioned, nested);
      found, left, compatible := Pass(name, mentioned, nested, compat, false, slots, q, 0);
      if found.Some? {
        q.FirstIsBest(make, db, compat, slots, found.value);
      } else {
        StillToTry(make, db, q, slots, left);
        StillThere(make, db, q, slots, left);
        q.NoSlotNoTry(make, db, compat, slots);
        if !compat && !compatible { q.NoSlotNoTry(make, db, true, slots); }
      }
    }

    /** Both passes, the second with intermediate files. */
    method SearchBothWays(name: string, mentioned: set<string>, nested: bool, compat: bool, q: Query,
                          ghost depth: nat)
      returns (found: Option<Recipe>, compatible: bool)
      requires Valid() && mentioned <= db.known && q == Query(name, mentioned, nested, inUse)
      modifies this
      ensures Valid() && inUse == old(inUse) && make.Extends(old(db), db)
      ensures found.Some? ==> make.Sound(db, mentioned, inUse, nested, name, found.value)
      ensures found.Some? ==>
        q.NothingApplies(make, old(db), compat) || q.FoundDirectly(make, old(db), compat, found.value)
      ensures compatible ==> !compat
      ensures found == None ==> q.NothingApplies(make, old(db), compat)
      ensures found == None && !compatible ==> q.NothingApplies(make, old(db), true)
      ensures Within(make, old(db), compat, q, depth) ==> found.Some? && db.impossible == old(db.impossible)
      decreases Free(), if compat then 0 else 1, 10
    {
      var left, more;
      found, left, compatible := SearchDirectly(name, mentioned, nested, compat, q);
      if found == None {
        if Within(make, db, compat, q, depth) { BestIsFirst(make, db, compat, q, left, depth); }
        found, left, more :=
          Pass(name, mentioned, nested, compat, true, left, q, if depth > 0 then depth - 1 else 0);
        compatible := compatible || more;
      }
    }

    /** Look for a rule. What is found is a sound derivation, the best rule that applies
        directly if there is one. Nothing is found only when no rule applies directly, even
        counting every name in the database as a file that ought to exist, and no chain of rules
        of any depth leads to the name. */
    method PatternSearch(name: string, mentioned: set<string>, nested: bool, compat: bool, q: Query,
                         ghost depth: nat)
      returns (found: Option<Recipe>)
      requires Valid() && mentioned <= db.known && q == Query(name, mentioned, nested, inUse)
      modifies this
      ensures Valid() && inUse == old(inUse) && make.Extends(old(db), db)
      ensures found.Some? ==> make.Sound(db, mentioned, inUse, nested, name, found.value)
      ensures found.Some? && !nested ==> name in made && made[name] == Origin(mentioned, nested, inUse, found.value)
      ensures found.Some? ==>
        q.NothingApplies(make, old(db), compat) || q.FoundDirectly(make, old(db), compat, found.value)
      ensures found == None ==> q.NothingApplies(make, old(db), true)
      ensures Within(make, old(db), compat, q, depth) ==> found.Some? && db.impossible == old(db.impossible)
      decreases Free(), if compat then 0 else 1, 11
    {
      var compatible;
      found, compatible := SearchBothWays(name, mentioned, nested, compat, q, depth);
      if found.Some? {
        Adopt(name, Origin(mentioned, nested, inUse, found.value));
      } else if compatible {
        ghost var was := db;
        assert !compat;
        found := PatternSearch(name, mentioned, nested, true, q, 0);
        if found == None { q.NothingAppliedBefore(make, old(db), was); }
      }
    }

    /** try_implicit_rule: search, and change the file to be made by the rule found. */
    method TryImplicitRule(file: File, ghost depth: nat) returns (ok: bool)
      requires Valid() && inUse == {} && (set n | n in file.deps) <= db.known
      modifies this, file
      ensures Valid() && inUse == {} && make.Extends(old(db), db)
      ensures !ok ==> file.deps == old(file.deps) && file.stem == old(file.stem) && file.rule == old(file.rule)
      ensures !ok ==> Query(file.name, set n | n in old(file.deps), false, {}).NothingApplies(make, old(db), true)
      ensures Within(make, old(db), false, Query(file.name, set n | n in old(file.deps), false, {}), depth) ==> ok
      ensures ok ==> file.name in made && file.MadeBy(made[file.name].recipe, old(file.deps))
    {
      var mentioned := set n | n in file.deps;
      var found := PatternSearch(file.name, mentioned, false, false, Query(file.name, mentioned, false, inUse), depth);
      ok := found.Some?;
      if ok {
        file.Take(found.value);
      }
    }
  }

  /** The parts of a file that a search fills in. */
  class File {
    const name: string
    var deps: seq<string>
    var stem: string
    var rule: Option<nat>

    constructor (name: string, deps: seq<string>)
      ensures this.name == name && this.deps == deps && rule == None
    {
      this.name, this.deps, stem, rule := name, deps, "", None;
    }

    ghost predicate MadeBy(r: Recipe, before: seq<string>)
      reads this
    {
      deps == NamesOf(r.prereqs) + before && stem == FullStem(name, r.choice) && rule == Some(r.choice.rule)
    }

    /** Chain the prerequisites in front of those the file has, from the last to the first. */
    method Take(r: Recipe)
      modifies this
      ensures MadeBy(r, old(deps))
    {
      var i := |r.prereqs|;
      assert r.prereqs[i..] == [];
      while i > 0
        invariant 0 <= i <= |r.prereqs|
        invariant deps == NamesOf(r.prereqs[i..]) + old(deps)
      {
        i := i - 1;
        NamesFrom(r.prereqs, i);
        deps := [r.prereqs[i].name] + deps;
      }
      assert r.prereqs[0..] == r.prereqs;
      stem, rule := FullStem(name, r.choice), Some(r.choice.rule);
    }
  }

  lemma NamesFrom(prereqs: seq<Prereq>, i: nat)
    requires i < |prereqs|
    ensures NamesOf(prereqs[i..]) == [prereqs[i].name] + NamesOf(prereqs[i + 1..])
  {
    NamesOfBoth([prereqs[i]], prereqs[i + 1..]);
    assert [prereqs[i]] + prereqs[i + 1..] == prereqs[i..];
    assert NamesOf([prereqs[i]]) == NamesOf([]) + [prereqs[i].name];
  }

  // ----- what the first pass finds -----

  /** What is asked of a search: the file, the prerequisites already mentioned for it, and the
      rules in use. */
  datatype Query = Query(name: string, mentioned: set<string>, nested: bool, used: set<nat>) {

    ghost predicate Eligible(make: Makefile, t: Try) {
      make.Eligible(name, nested, used, t)
    }

    /** No rule that may be considered applies directly. */
    ghost predicate NothingApplies(make: Makefile, db: Database, compat: bool) {
      forall t :: Eligible(make, t) ==> !make.Applies(db, mentioned, compat, name, t)
    }

    /** The rule chosen applies directly, and is the best of those that do. */
    ghost predicate BestThatApplies(make: Makefile, db: Database, compat: bool, choice: Try) {
      && Eligible(make, choice) && make.Applies(db, mentioned, compat, name, choice)
      && forall t :: Eligible(make, t) && make.Applies(db, mentioned, compat, name, t) ==>
           t == choice || Before(name, choice, t)
    }

    /** The prerequisites of t were looked at before the choice was. */
    ghost predicate TriedBefore(make: Makefile, choice: Try, t: Try) {
      Eligible(make, t) && Collects(make, name, t) && Before(name, t, choice)
    }

    ghost predicate LastTriedBefore(make: Makefile, choice: Try, t: Try) {
      && TriedBefore(make, choice, t)
      && forall u :: TriedBefore(make, choice, u) ==> u == t || Before(name, u, t)
    }

    /** A rule without prerequisites is given what the last rule with prerequisites found. */
    ghost predicate LeftFromLast(make: Makefile, db: Database, compat: bool, r: Recipe)
      requires make.InRange(r.choice)
    {
      make.rules[r.choice.rule].deps == [] ==>
        && LeftBy(make, db, mentioned, compat, name, Donor(r), NamesOf(r.prereqs))
        && if Donor(r) == None then (forall t :: !TriedBefore(make, r.choice, t))
           else LastTriedBefore(make, r.choice, r.source)
    }

    ghost predicate FoundDirectly(make: Makefile, db: Database, compat: bool, r: Recipe) {
      BestThatApplies(make, db, compat, r.choice) && LeftFromLast(make, db, compat, r)
    }

    /** Not even the first prerequisite of the rule is at hand. */
    ghost predicate FindsNothing(make: Makefile, db: Database, compat: bool, t: Try)
      requires make.InRange(t)
    {
      var names := make.AllNames(name, t);
      names != [] && !make.Judge(db, mentioned, compat, names[0]).Available?
    }

    lemma LeavesNothing(make: Makefile, db: Database, compat: bool, r: Recipe)
      requires make.InRange(r.source) && make.AllNames(name, r.source) != []
      requires AtHandPrefix(make, db, mentioned, compat, NamesOf(r.prereqs), make.AllNames(name, r.source))
      ensures r.prereqs == [] <==> FindsNothing(make, db, compat, r.source)
    {
      if r.prereqs != [] { assert NamesOf(r.prereqs)[0] in NamesOf(r.prereqs); }
    }

    lemma OneBest(make: Makefile, db: Database, compat: bool, a: Try, b: Try)
      requires BestThatApplies(make, db, compat, a) && BestThatApplies(make, db, compat, b)
      ensures a == b
    {
    }

    /** When the best rule that applies has no prerequisites, it is given none exactly when the
        last rule with some that comes before it finds not even the first of them. */
    lemma NothingInheritedExactlyWhen(make: Makefile, db: Database, compat: bool, best: Try, r: Recipe)
      requires BestThatApplies(make, db, compat, best) && make.rules[best.rule].deps == []
      requires FoundDirectly(make, db, compat, r)
      ensures r.choice == best
      ensures r.prereqs == [] <==>
        forall t :: LastTriedBefore(make, best, t) ==> FindsNothing(make, db, compat, t)
    {
      OneBest(make, db, compat, best, r.choice);
      if Donor(r).Some? { LeavesNothing(make, db, compat, r); }
    }

    /** The slots hold the rules that may be considered, best first. */
    ghost predicate Slots(make: Makefile, slots: seq<Option<Try>>) {
      && ToTry(make, this, slots)
      && forall u :: Eligible(make, u) ==> Some(u) in slots
    }

    lemma NoSlotNoTry(make: Makefile, db: Database, compat: bool, slots: seq<Option<Try>>)
      requires Slots(make, slots) && NoneApplies(make, db, mentioned, compat, name, slots, |slots|)
      ensures NothingApplies(make, db, compat)
    {
      forall t | Eligible(make, t) ensures !make.Applies(db, mentioned, compat, name, t) {
        var i: nat :| i < |slots| && slots[i] == Some(t);
      }
    }

    lemma FirstIsBest(make: Makefile, db: Database, compat: bool, slots: seq<Option<Try>>, r: Recipe)
      requires Slots(make, slots) && FirstToApply(make, db, mentioned, compat, name, slots, r)
      ensures FoundDirectly(make, db, compat, r)
    {
      var choice := r.choice;
      var i: nat :| i < |slots| && slots[i] == Some(choice) && FirstAt(make, db, mentioned, compat, name, slots, r, i);
      forall t | Eligible(make, t) && make.Applies(db, mentioned, compat, name, t)
        ensures t == choice || Before(name, choice, t)
      {
        var j: nat :| j < |slots| && slots[j] == Some(t);
      }
      if make.rules[choice.rule].deps == [] {
        if Donor(r) == None {
          NothingLeft(make, choice, slots, i);
        } else {
          LeftOfLast(make, choice, slots, i, r.source);
        }
      }
    }

    lemma LeftOfLast(make: Makefile, choice: Try, slots: seq<Option<Try>>, i: nat, source: Try)
      requires i < |slots| && slots[i] == Some(choice) && Slots(make, slots)
        && IsLast(make, name, slots, i, Some(source))
      ensures LastTriedBefore(make, choice, source)
    {
      var k: nat :| k < i && slots[k] == Some(source) && LastCollecting(make, name, slots, k, i);
      forall u | TriedBefore(make, choice, u) ensures u == source || Before(name, u, source) {
        var j := SlotOf(make, slots, choice, i, u);
        assert CollectsAt(make, name, slots, j);
      }
    }

    lemma NothingLeft(make: Makefile, choice: Try, slots: seq<Option<Try>>, i: nat)
      requires i < |slots| && slots[i] == Some(choice) && Slots(make, slots) && IsLast(make, name, slots, i, None)
      ensures forall t :: !TriedBefore(make, choice, t)
    {
      forall t ensures !TriedBefore(make, choice, t) {
        if TriedBefore(make, choice, t) {
          var j := SlotOf(make, slots, choice, i, t);
          assert CollectsAt(make, name, slots, j);
        }
      }
    }

    lemma SlotOf(make: Makefile, slots: seq<Option<Try>>, choice: Try, i: nat, t: Try) returns (j: nat)
      requires i < |slots| && slots[i] == Some(choice)
      requires Slots(make, slots) && TriedBefore(make, choice, t)
      ensures j < i && slots[j] == Some(t)
    {
      j :| j < |slots| && slots[j] == Some(t);
    }

    lemma NothingAppliedBefore(make: Makefile, was: Database, now: Database)
      requires make.Extends(was, now) && mentioned + was.targets <= was.known
      requires NothingApplies(make, now, true)
      ensures NothingApplies(make, was, true)
    {
      forall t | Eligible(make, t) ensures !make.Applies(was, mentioned, true, name, t) {
        if make.Applies(was, mentioned, true, name, t) {
          make.AppliesStays(was, now, mentioned, true, name, t);
        }
      }
    }
  }

  // ----- chains of rules -----

  /** The second pass passes over terminal rules and those with a stem too long. */
  predicate Chainable(make: Makefile, name: string, t: Try) {
    make.InRange(t) && !make.rules[t.rule].terminal && make.Short(name, t)
  }

  /** The rule the second pass comes to first. */
  ghost predicate FirstChained(make: Makefile, q: Query, t: Try) {
    && q.Eligible(make, t) && Chainable(make, q.name, t)
    && forall u :: q.Eligible(make, u) && Chainable(make, q.name, u) ==> u == t || Before(q.name, t, u)
  }

  /** A rule applies directly, or every prerequisite of the rule the second pass comes to first
      is at hand or has such a chain of its own. */
  ghost predicate Within(make: Makefile, db: Database, compat: bool, q: Query, depth: nat)
    decreases depth, 1
  {
    || !q.NothingApplies(make, db, compat)
    || (depth > 0 && exists t :: FirstChained(make, q, t) && AllReachable(make, db, q.mentioned, compat,
          q.used + {t.rule}, make.AllNames(q.name, t), depth - 1))
  }

  ghost predicate Reachable(make: Makefile, db: Database, mentioned: set<string>, compat: bool, used: set<nat>,
                            name: string, depth: nat)
    decreases depth, 2
  {
    && name !in db.impossible
    && (make.Judge(db, mentioned, compat, name).Available?
        || Within(make, db, compat, Query(name, {}, true, used), depth))
  }

  ghost predicate AllReachable(make: Makefile, db: Database, mentioned: set<string>, compat: bool, used: set<nat>,
                               names: seq<string>, depth: nat)
    decreases depth, 3
  {
    forall n :: n in names ==> Reachable(make, db, mentioned, compat, used, n, depth)
  }

  lemma AppliesLater(make: Makefile, a: Database, b: Database, compat: bool, q: Query)
    requires make.Extends(a, b) && q.mentioned + a.targets <= a.known && !q.NothingApplies(make, a, compat)
    ensures !q.NothingApplies(make, b, compat)
  {
    var t :| q.Eligible(make, t) && make.Applies(a, q.mentioned, compat, q.name, t);
    make.AppliesStays(a, b, q.mentioned, compat, q.name, t);
  }

  lemma {:induction false} WithinStays(make: Makefile, a: Database, b: Database, compat: bool, q: Query, depth: nat)
    requires make.Extends(a, b) && b.impossible == a.impossible && q.mentioned + a.targets <= a.known
    requires Within(make, a, compat, q, depth)
    ensures Within(make, b, compat, q, depth)
    decreases depth, 1
  {
    if !q.NothingApplies(make, a, compat) {
      AppliesLater(make, a, b, compat, q);
    } else {
      var t :| FirstChained(make, q, t) && AllReachable(make, a, q.mentioned, compat,
        q.used + {t.rule}, make.AllNames(q.name, t), depth - 1);
      AllReachableStay(make, a, b, q.mentioned, compat, q.used + {t.rule}, make.AllNames(q.name, t), depth - 1);
    }
  }

  lemma {:induction false} ReachableStays(make: Makefile, a: Database, b: Database, mentioned: set<string>,
                                          compat: bool, used: set<nat>, name: string, depth: nat)
    requires make.Extends(a, b) && b.impossible == a.impossible && mentioned + a.targets <= a.known
    requires Reachable(make, a, mentioned, compat, used, name, depth)
    ensures Reachable(make, b, mentioned, compat, used, name, depth)
    decreases depth, 2
  {
    JudgeStays(make, a, b, mentioned, compat, name);
    if Within(make, a, compat, Query(name, {}, true, used), depth) {
      WithinStays(make, a, b, compat, Query(name, {}, true, used), depth);
    }
  }

  lemma {:induction false} AllReachableStay(make: Makefile, a: Database, b: Database, mentioned: set<string>,
                                            compat: bool, used: set<nat>, names: seq<string>, depth: nat)
    requires make.Extends(a, b) && b.impossible == a.impossible && mentioned + a.targets <= a.known
    requires AllReachable(make, a, mentioned, compat, used, names, depth)
    ensures AllReachable(make, b, mentioned, compat, used, names, depth)
    decreases depth, 3
  {
    forall n | n in names ensures Reachable(make, b, mentioned, compat, used, n, depth) {
      ReachableStays(make, a, b, mentioned, compat, used, n, depth);
    }
  }

  /** Some of the names is ruled out. */
  predicate SomeImpossible(db: Database, names: seq<string>) {
    exists n :: n in names && n in db.impossible
  }

  /** Some slots are empty now, each because of a prerequisite that is ruled out. */
  predicate DroppedForReason(make: Makefile, name: string, db: Database, slots: seq<Option<Try>>,
                             slots': seq<Option<Try>>)
  {
    |slots'| == |slots| && forall i: nat :: i < |slots| && slots'[i] != slots[i] ==>
      && slots'[i] == None && make.InRange(slots[i].value)
      && SomeImpossible(db, make.AllNames(name, slots[i].value))
  }

  /** Of the rules that may be considered only those are missing that have a prerequisite ruled out. */
  ghost predicate AllButImpossible(make: Makefile, db: Database, q: Query, slots: seq<Option<Try>>) {
    forall t :: q.Eligible(make, t) && !SomeImpossible(db, make.AllNames(q.name, t)) ==> Some(t) in slots
  }

  predicate NoneChainable(make: Makefile, name: string, slots: seq<Option<Try>>, n: nat)
    requires n <= |slots|
  {
    forall i: nat :: i < n && slots[i].Some? ==> !Chainable(make, name, slots[i].value)
  }

  /** The first rule the second pass does not pass over has all its prerequisites in reach. */
  ghost predicate FirstReaches(make: Makefile, db: Database, compat: bool, q: Query, slots: seq<Option<Try>>,
                               depth: nat)
  {
    exists t :: Some(t) in slots && FirstChained(make, q, t)
      && AllReachable(make, db, q.mentioned, compat, q.used + {t.rule}, make.AllNames(q.name, t), depth)
  }

  /** The first rule that is not passed over is the one that comes before all others. */
  lemma ComesTo(make: Makefile, q: Query, slots: seq<Option<Try>>, i: nat, j: nat, t: Try)
    requires i < |slots| && ToTry(make, q, slots) && NoneChainable(make, q.name, slots, i)
    requires slots[i].Some? && Chainable(make, q.name, slots[i].value)
    requires j < |slots| && slots[j] == Some(t) && FirstChained(make, q, t)
    ensures slots[i].value == t
  {
    assert q.Eligible(make, slots[i].value);
    if i < j { assert Before(q.name, slots[i].value, slots[j].value); }
  }

  /** So it reaches its prerequisites if that one does. */
  lemma ComesToFirst(make: Makefile, db: Database, compat: bool, q: Query, slots: seq<Option<Try>>, i: nat, depth: nat)
    requires i < |slots| && ToTry(make, q, slots) && NoneChainable(make, q.name, slots, i)
    requires FirstReaches(make, db, compat, q, slots, depth)
    ensures slots[i].Some? && Chainable(make, q.name, slots[i].value) ==> AllReachable(make, db, q.mentioned, compat,
      q.used + {slots[i].value.rule}, make.AllNames(q.name, slots[i].value), depth)
  {
    var t :| Some(t) in slots && FirstChained(make, q, t)
      && AllReachable(make, db, q.mentioned, compat, q.used + {t.rule}, make.AllNames(q.name, t), depth);
    var j: nat :| j < |slots| && slots[j] == Some(t);
    if slots[i].Some? && Chainable(make, q.name, slots[i].value) { ComesTo(make, q, slots, i, j, t); }
  }

  lemma AlwaysComes(make: Makefile, db: Database, compat: bool, q: Query, slots: seq<Option<Try>>, depth: nat)
    ensures FirstReaches(make, db, compat, q, slots, depth) ==> !NoneChainable(make, q.name, slots, |slots|)
  {
    if FirstReaches(make, db, compat, q, slots, depth) {
      var t :| Some(t) in slots && FirstChained(make, q, t)
        && AllReachable(make, db, q.mentioned, compat, q.used + {t.rule}, make.AllNames(q.name, t), depth);
      var j: nat :| j < |slots| && slots[j] == Some(t);
    }
  }

  lemma DropsStay(make: Makefile, name: string, a: Database, b: Database, slots: seq<Option<Try>>,
                  slots': seq<Option<Try>>)
    requires a.impossible <= b.impossible && DroppedForReason(make, name, a, slots, slots')
    ensures DroppedForReason(make, name, b, slots, slots')
  {
    forall i: nat | i < |slots| && slots'[i] != slots[i]
      ensures SomeImpossible(b, make.AllNames(name, slots[i].value))
    {
      var n :| n in make.AllNames(name, slots[i].value) && n in a.impossible;
    }
  }

  lemma OneMoreDrop(make: Makefile, name: string, db: Database, slots: seq<Option<Try>>, slots': seq<Option<Try>>,
                    i: nat)
    requires DroppedForReason(make, name, db, slots, slots') && i < |slots|
    requires slots[i].Some? && make.InRange(slots[i].value) && SomeImpossible(db, make.AllNames(name, slots[i].value))
    ensures DroppedForReason(make, name, db, slots, slots'[i := None])
  {
  }

  lemma DropsGrow(make: Makefile, name: string, a: Database, b: Database, slots: seq<Option<Try>>,
                  slots': seq<Option<Try>>, i: nat, dead: bool)
    requires a.impossible <= b.impossible && DroppedForReason(make, name, a, slots, slots') && i < |slots|
    requires dead ==> slots[i].Some? && make.InRange(slots[i].value)
    requires dead ==> SomeImpossible(b, make.AllNames(name, slots[i].value))
    ensures DroppedForReason(make, name, b, slots, if dead then slots'[i := None] else slots')
  {
    DropsStay(make, name, a, b, slots, slots');
    if dead { OneMoreDrop(make, name, b, slots, slots', i); }
  }

  lemma BestIsFirst(make: Makefile, db: Database, compat: bool, q: Query, slots: seq<Option<Try>>, depth: nat)
    requires Within(make, db, compat, q, depth) && q.NothingApplies(make, db, compat)
    requires AllButImpossible(make, db, q, slots)
    ensures depth > 0 && FirstReaches(make, db, compat, q, slots, depth - 1)
  {
    var t :| FirstChained(make, q, t) && AllReachable(make, db, q.mentioned, compat,
      q.used + {t.rule}, make.AllNames(q.name, t), depth - 1);
    forall n | n in make.AllNames(q.name, t) ensures n !in db.impossible {
      assert Reachable(make, db, q.mentioned, compat, q.used + {t.rule}, n, depth - 1);
    }
  }

  lemma StillThere(make: Makefile, db: Database, q: Query, slots: seq<Option<Try>>, left: seq<Option<Try>>)
    requires q.Slots(make, slots) && DroppedForReason(make, q.name, db, slots, left)
    ensures AllButImpossible(make, db, q, left)
  {
    forall t | q.Eligible(make, t) && !SomeImpossible(db, make.AllNames(q.name, t)) ensures Some(t) in left {
      var i: nat :| i < |slots| && slots[i] == Some(t);
      assert left[i] == Some(t);
    }
  }

  /** The rules to try, best first. */
  ghost predicate ToTry(make: Makefile, q: Query, slots: seq<Option<Try>>) {
    && (forall i: nat :: i < |slots| && slots[i].Some? ==> q.Eligible(make, slots[i].value))
    && (forall i: nat, j: nat :: i < j < |slots| && slots[i].Some? && slots[j].Some? ==>
          Before(q.name, slots[i].value, slots[j].value))
  }

  /** No rule among the first n applies directly. */
  ghost predicate NoneApplies(make: Makefile, db: Database, mentioned: set<string>, compat: bool, name: string,
      slots: seq<Option<Try>>, n: nat)
    requires n <= |slots|
  {
    forall i: nat :: i < n && slots[i].Some? && make.InRange(slots[i].value) ==>
      !make.Applies(db, mentioned, compat, name, slots[i].value)
  }

  /** None of them does, nor would with compatibility if that was not noticed. */
  ghost predicate Tried(make: Makefile, db: Database, mentioned: set<string>, compat: bool, compatible: bool,
                        name: string, slots: seq<Option<Try>>, n: nat)
    requires n <= |slots|
  {
    && NoneApplies(make, db, mentioned, compat, name, slots, n)
    && (!compat && !compatible ==> NoneApplies(make, db, mentioned, true, name, slots, n))
  }

  /** What the first pass knows after n rules. */
  ghost predicate DirectlyTried(make: Makefile, db: Database, mentioned: set<string>, compat: bool, compatible: bool,
                                name: string, slots: seq<Option<Try>>, n: nat, source: Option<Try>, names: seq<string>)
    requires n <= |slots|
  {
    && Tried(make, db, mentioned, compat, compatible, name, slots, n)
    && IsLast(make, name, slots, n, source)
    && LeftBy(make, db, mentioned, compat, name, source, names)
  }

  lemma OneMoreTried(make: Makefile, db: Database, mentioned: set<string>, compat: bool, before: bool, after: bool,
                     name: string, slots: seq<Option<Try>>, n: nat)
    requires n < |slots| && slots[n].Some? && make.InRange(slots[n].value)
    requires Tried(make, db, mentioned, compat, before, name, slots, n) && (before ==> after)
    requires !make.Applies(db, mentioned, compat, name, slots[n].value)
    requires !compat && make.Applies(db, mentioned, true, name, slots[n].value) ==> after
    ensures Tried(make, db, mentioned, compat, after, name, slots, n + 1)
  {
  }

  /** The rule is tried by looking at prerequisites. */
  predicate Collects(make: Makefile, name: string, t: Try)
    requires make.InRange(t)
  {
    make.rules[t.rule].deps != [] && make.Short(name, t)
  }

  predicate CollectsAt(make: Makefile, name: string, slots: seq<Option<Try>>, k: nat)
    requires k < |slots|
  {
    slots[k].Some? && make.InRange(slots[k].value) && Collects(make, name, slots[k].value)
  }

  predicate LastCollecting(make: Makefile, name: string, slots: seq<Option<Try>>, k: nat, n: nat)
    requires k < n <= |slots|
  {
    CollectsAt(make, name, slots, k) && forall j: nat :: k < j < n ==> !CollectsAt(make, name, slots, j)
  }

  /** The last of the first n rules whose prerequisites were looked at, if any was. */
  ghost predicate IsLast(make: Makefile, name: string, slots: seq<Option<Try>>, n: nat, source: Option<Try>)
    requires n <= |slots|
  {
    if source == None then forall k: nat :: k < n ==> !CollectsAt(make, name, slots, k)
    else exists k: nat :: k < n && slots[k] == source && LastCollecting(make, name, slots, k, n)
  }

  lemma IsLastStays(make: Makefile, name: string, slots: seq<Option<Try>>, n: nat, source: Option<Try>)
    requires n < |slots| && IsLast(make, name, slots, n, source) && !CollectsAt(make, name, slots, n)
    ensures IsLast(make, name, slots, n + 1, source)
  {
    if source.Some? {
      var k: nat :| k < n && slots[k] == source && LastCollecting(make, name, slots, k, n);
      assert LastCollecting(make, name, slots, k, n + 1);
    }
  }

  lemma IsLastMoves(make: Makefile, name: string, slots: seq<Option<Try>>, n: nat)
    requires n < |slots| && CollectsAt(make, name, slots, n)
    ensures IsLast(make, name, slots, n + 1, slots[n])
  {
    assert LastCollecting(make, name, slots, n, n + 1);
  }

  /** The names left in deplist are those the last rule found. */
  ghost predicate LeftBy(make: Makefile, db: Database, mentioned: set<string>, compat: bool, name: string,
      source: Option<Try>, names: seq<string>)
  {
    if source == None then names == []
    else
      && make.InRange(source.value)
      && AtHandPrefix(make, db, mentioned, compat, names, make.AllNames(name, source.value))
  }

  /** The rule that a rule without prerequisites got them from. */
  function Donor(r: Recipe): Option<Try> {
    if r.source == r.choice then None else Some(r.source)
  }

  /** The choice is the first rule that applies directly. */
  ghost predicate FirstToApply(make: Makefile, db: Database, mentioned: set<string>, compat: bool, name: string,
      slots: seq<Option<Try>>, r: Recipe)
  {
    exists i: nat :: i < |slots| && slots[i] == Some(r.choice)
      && FirstAt(make, db, mentioned, compat, name, slots, r, i)
  }

  ghost predicate FirstAt(make: Makefile, db: Database, mentioned: set<string>, compat: bool, name: string,
      slots: seq<Option<Try>>, r: Recipe, i: nat)
    requires i < |slots|
  {
    && make.InRange(r.choice) && make.Applies(db, mentioned, compat, name, r.choice)
    && NoneApplies(make, db, mentioned, compat, name, slots, i)
    && (make.rules[r.choice.rule].deps == [] ==>
          IsLast(make, name, slots, i, Donor(r))
            && LeftBy(make, db, mentioned, compat, name, Donor(r), NamesOf(r.prereqs)))
  }

  lemma StillToTry(make: Makefile, db: Database, q: Query, slots: seq<Option<Try>>, slots': seq<Option<Try>>)
    requires ToTry(make, q, slots) && DroppedForReason(make, q.name, db, slots, slots')
    ensures ToTry(make, q, slots')
  {
  }

  lemma UseOne(rules: seq<Rule>, used: set<nat>, rule: nat)
    requires rule < |rules| && rule !in used
    ensures |set r: nat | r < |rules| && r !in used + {rule}| + 1 == |set r: nat | r < |rules| && r !in used|
  {
    var after := set r: nat | r < |rules| && r !in used + {rule};
    assert (set r: nat | r < |rules| && r !in used) == after + {rule};
  }

  lemma {:induction false} NamesArePrefix(make: Makefile, name: string, t: Try, n: nat)
    requires make.InRange(t) && n <= |make.rules[t.rule].deps|
    ensures make.Names(name, t, n) <= make.AllNames(name, t)
    decreases |make.rules[t.rule].deps| - n
  {
    if n < |make.rules[t.rule].deps| { NamesArePrefix(make, name, t, n + 1); }
  }

  lemma {:induction false} NamesOfBoth(a: seq<Prereq>, b: seq<Prereq>)
    ensures NamesOf(a + b) == NamesOf(a) + NamesOf(b)
  {
    if b == [] {
      assert a + b == a;
    } else {
      NamesOfBoth(a, b[..|b| - 1]);
      assert (a + b)[..|a + b| - 1] == a + b[..|b| - 1];
    }
  }

  /** The names up to the first that is not at hand. */
  ghost predicate AtHandPrefix(make: Makefile, db: Database, mentioned: set<string>, compat: bool, found: seq<string>,
                               names: seq<string>)
  {
    && found <= names && AllAtHand(make, db, mentioned, compat, found)
    && (|found| < |names| ==> !make.Judge(db, mentioned, compat, names[|found|]).Available?)
  }

  lemma AtHandStay(make: Makefile, a: Database, b: Database, mentioned: set<string>, compat: bool, names: seq<string>)
    requires make.Extends(a, b) && mentioned + a.targets <= a.known
    ensures AllAtHand(make, a, mentioned, compat, names) ==> AllAtHand(make, b, mentioned, compat, names)
  {
    if AllAtHand(make, a, mentioned, compat, names) {
      forall n | n in names ensures make.Judge(b, mentioned, compat, n).Available? {
        JudgeStays(make, a, b, mentioned, compat, n);
      }
    }
  }

  ghost predicate AllJustified(make: Makefile, db: Database, mentioned: set<string>, used: set<nat>,
                               prereqs: seq<Prereq>)
  {
    forall i: nat :: i < |prereqs| ==> make.Justified(db, mentioned, used, prereqs[i])
  }

  lemma AllJustifiedStay(make: Makefile, a: Database, b: Database, mentioned: set<string>, used: set<nat>,
                         prereqs: seq<Prereq>)
    requires a.known <= b.known && a.targets <= b.targets
    requires AllJustified(make, a, mentioned, used, prereqs)
    ensures AllJustified(make, b, mentioned, used, prereqs)
  {
    forall i: nat | i < |prereqs| ensures make.Justified(b, mentioned, used, prereqs[i]) {
      make.JustifiedStays(a, b, mentioned, used, prereqs[i]);
    }
  }

  ghost predicate AllAtHand(make: Makefile, db: Database, mentioned: set<string>, compat: bool, names: seq<string>) {
    forall n :: n in names ==> make.Judge(db, mentioned, compat, n).Available?
  }

  lemma JudgeStays(make: Makefile, a: Database, b: Database, mentioned: set<string>, compat: bool, name: string)
    requires make.Extends(a, b) && mentioned + a.targets <= a.known
    ensures make.Judge(a, mentioned, compat, name).Available? ==> make.Judge(b, mentioned, compat, name).Available?
  {
    assert name in b.impossible && name !in a.impossible ==> name in b.impossible - a.impossible;
  }

  /** The first n targets of the rule, except the one that matched, are in the database. */
  predicate OthersEntered(make: Makefile, name: string, choice: Try, n: nat, db: Database)
    requires make.InRange(choice) && n <= |make.rules[choice.rule].targets|
  {
    forall j: nat :: j < n && j != choice.target ==>
      OtherTarget(name, choice, make.rules[choice.rule].targets[j]) in db.targets
  }

  /** Names are entered, and none is ruled out. */
  predicate Grows(a: Database, b: Database) {
    a.known <= b.known && a.targets <= b.targets && a.impossible == b.impossible
  }

  // ----- a rule that inherits a prerequisite -----

  /** Two rules for the same target, the second without prerequisites. */
  function TwoRules(o: Pattern, deps: seq<string>, fileExists: string -> bool): Makefile {
    Makefile([Rule([o], deps, true, false), Rule([o], [], true, false)], fileExists, name => false, word => [word], 100)
  }

  lemma TwoTries(o: Pattern, deps: seq<string>, fileExists: string -> bool, name: string, stem: string, t: Try)
    requires MatchTarget(name, o) == Some(stem) && !UsesDirectory(name, o) && !MatchesAnything(o)
    ensures Query(name, {}, false, {}).Eligible(TwoRules(o, deps, fileExists), t)
      <==> t == Try(0, 0, false, stem) || t == Try(1, 0, false, stem)
  {
    var make := TwoRules(o, deps, fileExists);
    if t.rule < 2 { assert make.rules[t.rule].targets == [o] && make.rules[t.rule].hasRecipe; }
  }

  /** If the first rule does not apply, the second is chosen and gets what was found for the first. */
  lemma SecondInherits(o: Pattern, deps: seq<string>, fileExists: string -> bool, name: string, stem: string,
                       db: Database, r: Recipe)
    requires MatchTarget(name, o) == Some(stem) && !UsesDirectory(name, o) && !MatchesAnything(o)
    requires deps != [] && |stem| <= 100
    requires !TwoRules(o, deps, fileExists).Applies(db, {}, false, name, Try(0, 0, false, stem))
    requires Query(name, {}, false, {}).FoundDirectly(TwoRules(o, deps, fileExists), db, false, r)
    ensures r.choice == Try(1, 0, false, stem)
    ensures AtHandPrefix(TwoRules(o, deps, fileExists), db, {}, false, NamesOf(r.prereqs),
      TwoRules(o, deps, fileExists).AllNames(name, Try(0, 0, false, stem)))
  {
    var make, q, first := TwoRules(o, deps, fileExists), Query(name, {}, false, {}), Try(0, 0, false, stem);
    TwoTries(o, deps, fileExists, name, stem, r.choice);
    TwoTries(o, deps, fileExists, name, stem, first);
    assert FullStem(name, first) == stem;
    assert q.TriedBefore(make, r.choice, first);
    assert Donor(r).Some?;
    TwoTries(o, deps, fileExists, name, stem, r.source);
  }

  /** An instance of such a target. */
  lemma TheStem()
    ensures MatchTarget("m.o", Pattern("", ".o")) == Some("m") && !UsesDirectory("m.o", Pattern("", ".o"))
  {
    assert AfterSlash("m.o", 2) == AfterSlash("m.o", 1) == AfterSlash("m.o", 0) == 0;
    assert PathLength("m.o") == 0;
    assert "m.o"[0..0] == "" && "m.o"[1..] == ".o" && "m.o"[0..1] == "m";
  }

  /** Of two prerequisites without % the first exists and the second does not. */
  lemma OneOfTwo(o: Pattern, a: string, b: string, fileExists: string -> bool, name: string, t: Try, names: seq<string>)
    requires '%' !in a && '%' !in b && fileExists(a) && !fileExists(b) && t.rule == t.target == 0
    ensures var make := TwoRules(o, [a, b], fileExists);
      && !make.Applies(Database({}, {}, {}), {}, false, name, t)
      && (AtHandPrefix(make, Database({}, {}, {}), {}, false, names, make.AllNames(name, t)) ==> names == [a])
  {
    var make, db := TwoRules(o, [a, b], fileExists), Database({}, {}, {});
    NoPercent(a);
    NoPercent(b);
    assert make.Names(name, t, 0) == [];
    assert make.Names(name, t, 1) == [] + [a] == [a];
    assert make.AllNames(name, t) == [a] + [b] == [a, b];
    assert make.Judge(db, {}, false, a) == Available(Exists) && make.Judge(db, {}, false, b) == Missing;
    assert b in [a, b];
    if names == [a, b] { assert b in names; }
  }

  /** When a exists and b does not, a target made from a and b or from nothing is made by the
      second rule, and depends on a. */
  lemma SecondRuleInherits(o: Pattern, a: string, b: string, fileExists: string -> bool, name: string, stem: string,
                           r: Recipe)
    requires MatchTarget(name, o) == Some(stem) && !UsesDirectory(name, o) && !MatchesAnything(o) && |stem| <= 100
    requires '%' !in a && '%' !in b && fileExists(a) && !fileExists(b)
    requires Query(name, {}, false, {}).FoundDirectly(TwoRules(o, [a, b], fileExists), Database({}, {}, {}), false, r)
    ensures r.choice.rule == 1 && NamesOf(r.prereqs) == [a]
  {
    OneOfTwo(o, a, b, fileExists, name, Try(0, 0, false, stem), NamesOf(r.prereqs));
    SecondInherits(o, [a, b], fileExists, name, stem, Database({}, {}, {}), r);
  }

  predicate OnlyAExists(name: string) {
    name == "a.x"
  }

  lemma TheFiles()
    ensures '%' !in "a.x" && '%' !in "b.x" && OnlyAExists("a.x") && !OnlyAExists("b.x")
    ensures |"m"| <= 100 && !MatchesAnything(Pattern("", ".o"))
  {
  }

  lemma SecondRuleApplies(o: Pattern, deps: seq<string>, fileExists: string -> bool, name: string, stem: string,
                          compat: bool)
    requires MatchTarget(name, o) == Some(stem) && !UsesDirectory(name, o) && !MatchesAnything(o) && |stem| <= 100
    ensures !Query(name, {}, false, {}).NothingApplies(TwoRules(o, deps, fileExists), Database({}, {}, {}), compat)
  {
    var make, second := TwoRules(o, deps, fileExists), Try(1, 0, false, stem);
    TwoTries(o, deps, fileExists, name, stem, second);
    assert make.AllNames(name, second) == [];
    assert FullStem(name, second) == stem;
    assert make.Applies(Database({}, {}, {}), {}, compat, name, second);
  }

  /** A search with the two rules when a exists and b does not. */
  method SearchTwoRules(o: Pattern, a: string, b: string, fileExists: string -> bool, name: string, ghost stem: string)
    returns (found: Option<Recipe>)
    requires MatchTarget(name, o) == Some(stem) && !UsesDirectory(name, o) && !MatchesAnything(o) && |stem| <= 100
    requires '%' !in a && '%' !in b && fileExists(a) && !fileExists(b)
    ensures found.Some? && found.value.choice.rule == 1 && NamesOf(found.value.prereqs) == [a]
  {
    var search := new Search(TwoRules(o, [a, b], fileExists), {}, {});
    ghost var db := search.db;
    SecondRuleApplies(o, [a, b], fileExists, name, stem, true);
    SecondRuleApplies(o, [a, b], fileExists, name, stem, false);
    found := search.PatternSearch(name, {}, false, false, Query(name, {}, false, {}), 0);
    assert Query(name, {}, false, {}).FoundDirectly(search.make, db, false, found.value);
    SecondRuleInherits(o, a, b, fileExists, name, stem, found.value);
  }

  /** The search for m.o, with rules to make .o files from a.x and b.x or from nothing. */
  method SearchInherits() returns (found: Option<Recipe>)
    ensures found.Some? && found.value.choice.rule == 1 && NamesOf(found.value.prereqs) == ["a.x"]
  {
    TheStem();
    TheFiles();
    found := SearchTwoRules(Pattern("", ".o"), "a.x", "b.x", OnlyAExists, "m.o", "m");
  }
}
