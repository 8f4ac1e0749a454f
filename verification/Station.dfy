/**
 Validation of a modular coupler's station: physical slots fill the slot definitions greedily, in
 order. Compared with every assignment of slots to definitions.
 */
module Station {

  datatype SlotDef = SlotDef(minInstances: int, maxInstances: int, classes: seq<string>, idents: seq<nat>)

  /** A module configured in a 1-based slot; an empty class name is an unknown class. */
  datatype Module = Module(slot: int, ident: nat, className: string)

  datatype Verdict =
    | Ok
    | NoSlotRules
    | NotRising(slot: int)
    | PastRules(slot: int)
    | NotAccepted(def: nat, slot: int)
    | TooFew(def: nat)

  /** What `parse_slot_def` lets through. */
  predicate Parsed(defs: seq<SlotDef>) {
    forall d | 0 <= d < |defs| ::
      0 <= defs[d].minInstances <= defs[d].maxInstances && defs[d].maxInstances >= 1
  }

  /** A slot definition without rules takes any module; a class only counts when it is known. */
  predicate Accepts(def: SlotDef, mod: Module) {
    || (def.classes == [] && def.idents == [])
    || mod.ident in def.idents
    || (mod.className != "" && mod.className in def.classes)
  }

  /** `slot_accepts` */
  method SlotAccepts(def: SlotDef, mod: Module) returns (r: bool)
    ensures r == Accepts(def, mod)
  {
    if |def.classes| == 0 && |def.idents| == 0 {
      return true;
    }
    for i := 0 to |def.idents|
      invariant mod.ident !in def.idents[..i]
    {
      if def.idents[i] == mod.ident {
        return true;
      }
    }
    if mod.className == "" {
      return false;
    }
    for i := 0 to |def.classes|
      invariant mod.className !in def.classes[..i]
    {
      if def.classes[i] == mod.className {
        return true;
      }
    }
    return false;
  }

  // ---------------------------------------------------------------------------------------------
  // Assignments of slots to definitions
  // ---------------------------------------------------------------------------------------------

  /** Listed in rising slot order, one per slot, from slot 1 on. */
  predicate Rising(modules: seq<Module>) {
    forall i | 0 <= i < |modules| :: SlotBefore(modules, i) < modules[i].slot
  }

  /** The slot of the module before module i; 0 before the first. */
  function SlotBefore(modules: seq<Module>, i: nat): int
    requires i <= |modules|
  {
    if i == 0 then 0 else modules[i - 1].slot
  }

  function LastSlot(modules: seq<Module>): int {
    SlotBefore(modules, |modules|)
  }

  /** The definition takes the module in a slot, if there is one. */
  predicate Fits(def: SlotDef, modules: seq<Module>, slot: int) {
    forall j | 0 <= j < |modules| && modules[j].slot == slot :: Accepts(def, modules[j])
  }

  function Count(a: seq<nat>, d: nat): nat {
    if a == [] then 0 else Count(a[..|a| - 1], d) + (if a[|a| - 1] == d then 1 else 0)
  }

  predicate NonDecreasing(a: seq<nat>) {
    forall i, j | 0 <= i < j < |a| :: a[i] <= a[j]
  }

  /** Slots 1.. are given definitions in order that accept their modules, none beyond its maximum. */
  predicate Placed(defs: seq<SlotDef>, modules: seq<Module>, a: seq<nat>) {
    && NonDecreasing(a)
    && (forall i | 0 <= i < |a| :: a[i] < |defs| && Fits(defs[a[i]], modules, i + 1))
    && (forall d | 0 <= d < |defs| :: Count(a, d) <= defs[d].maxInstances)
  }

  /** An assignment of every slot up to the last configured one, minimums aside. */
  predicate Relaxed(defs: seq<SlotDef>, modules: seq<Module>, a: seq<nat>) {
    |a| == LastSlot(modules) && Placed(defs, modules, a)
  }

  predicate MeetsMinimums(defs: seq<SlotDef>, a: seq<nat>) {
    forall d | 0 <= d < |defs| :: defs[d].minInstances <= Count(a, d)
  }

  predicate ValidAssignment(defs: seq<SlotDef>, modules: seq<Module>, a: seq<nat>) {
    Relaxed(defs, modules, a) && MeetsMinimums(defs, a)
  }

  predicate AtMost(a: seq<nat>, b: seq<nat>) {
    |a| <= |b| && forall i | 0 <= i < |a| :: a[i] <= b[i]
  }

  ghost predicate BelowAllRelaxed(defs: seq<SlotDef>, modules: seq<Module>, a: seq<nat>) {
    forall b | Relaxed(defs, modules, b) :: AtMost(a, b)
  }

  /** A valid assignment that uses, at every slot, the earliest definition any assignment may. */
  ghost predicate LeastValid(defs: seq<SlotDef>, modules: seq<Module>, a: seq<nat>) {
    ValidAssignment(defs, modules, a) && BelowAllRelaxed(defs, modules, a)
  }

  // ---------------------------------------------------------------------------------------------
  // Counting
  // ---------------------------------------------------------------------------------------------

  lemma {:induction false} CountConcat(a: seq<nat>, b: seq<nat>, d: nat)
    ensures Count(a + b, d) == Count(a, d) + Count(b, d)
  {
    if b == [] {
      assert a + b == a;
    } else {
      assert (a + b)[..|a + b| - 1] == a + b[..|b| - 1];
      CountConcat(a, b[..|b| - 1], d);
    }
  }

  /** Where every d of a is a d of b, b counts at least as many. */
  lemma {:induction false} CountDominated(a: seq<nat>, b: seq<nat>, d: nat)
    requires |a| == |b| && forall i | 0 <= i < |a| && a[i] == d :: b[i] == d
    ensures Count(a, d) <= Count(b, d)
  {
    if a != [] { CountDominated(a[..|a| - 1], b[..|b| - 1], d); }
  }

  lemma {:induction false} CountPrefix(a: seq<nat>, k: nat, d: nat)
    requires k <= |a|
    ensures Count(a[..k], d) <= Count(a, d)
  {
    if k == |a| {
      assert a[..k] == a;
    } else {
      assert a[..|a| - 1][..k] == a[..k];
      CountPrefix(a[..|a| - 1], k, d);
    }
  }

  lemma {:induction false} CountAbsent(a: seq<nat>, d: nat)
    requires d !in a
    ensures Count(a, d) == 0
  {
    if a != [] { CountAbsent(a[..|a| - 1], d); }
  }

  // ---------------------------------------------------------------------------------------------
  // The greedy fill against every assignment
  // ---------------------------------------------------------------------------------------------

  /** An assignment at or after g that gives its next slot to d has given d one slot more than g has. */
  lemma TakesOneMore(g: seq<nat>, b: seq<nat>, d: nat)
    requires AtMost(g, b) && |g| < |b| && NonDecreasing(b) && b[|g|] == d
    ensures Count(b, d) >= Count(g, d) + 1
  {
    var k := |g|;
    forall i | 0 <= i < k && g[i] == d ensures b[..k][i] == d {
      assert g[i] <= b[i] && b[i] <= b[k];
    }
    CountDominated(g, b[..k], d);
    assert b[..k + 1][..k] == b[..k];
    CountPrefix(b, k + 1, d);
  }

  /** Definition d cannot take the next slot of any assignment that is at or after g so far. */
  lemma AdvanceIsForced(defs: seq<SlotDef>, modules: seq<Module>, g: seq<nat>, b: seq<nat>, d: nat)
    requires Relaxed(defs, modules, b) && AtMost(g, b) && |g| < |b| && d <= b[|g|] && d < |defs|
    requires Count(g, d) >= defs[d].maxInstances || !Fits(defs[d], modules, |g| + 1)
    ensures d < b[|g|]
  {
    var e := b[|g|];
    TakesOneMore(g, b, e);
    assert Count(b, e) <= defs[e].maxInstances && Fits(defs[e], modules, |g| + 1);
  }

  /** The slots filled so far, then the rest of a later assignment, is an assignment. */
  lemma Spliced(defs: seq<SlotDef>, modules: seq<Module>, g: seq<nat>, a: seq<nat>)
    requires Placed(defs, modules, g) && Relaxed(defs, modules, a) && AtMost(g, a) && |g| < |a|
    ensures Relaxed(defs, modules, g + a[|g|..])
  {
    var k := |g|;
    var b := g + a[k..];
    assert a == a[..k] + a[k..];
    forall d | 0 <= d < |defs| ensures Count(b, d) <= defs[d].maxInstances {
      CountConcat(g, a[k..], d);
      CountConcat(a[..k], a[k..], d);
      if d < a[k] {
        CountAbsent(a[k..], d);
      } else {
        CountDominated(g, a[..k], d);
      }
    }
    forall i | 0 <= i < |b| ensures b[i] < |defs| && Fits(defs[b[i]], modules, i + 1) {
      if i >= k { assert b[i] == a[i]; }
    }
  }

  /** A valid assignment below all others begins as the greedy fill does. */
  lemma LeastBeginsGreedily(defs: seq<SlotDef>, modules: seq<Module>, g: seq<nat>, a: seq<nat>)
    requires Placed(defs, modules, g) && LeastValid(defs, modules, a) && AtMost(g, a)
    ensures a[..|g|] == g
  {
    if |g| < |a| {
      Spliced(defs, modules, g, a);
      assert AtMost(a, g + a[|g|..]);
    } else {
      assert Relaxed(defs, modules, g);
      assert AtMost(a, g);
    }
  }

  /** When the fill stops at a module its definition refuses, no valid assignment is least. */
  lemma RefusedHasNoLeast(defs: seq<SlotDef>, modules: seq<Module>, g: seq<nat>, d: nat, a: seq<nat>)
    requires Placed(defs, modules, g) && AtMost(g, a) && |g| < |a| && d < |defs| && d <= a[|g|]
    requires !Fits(defs[d], modules, |g| + 1) && Count(g, d) < defs[d].minInstances
    ensures !LeastValid(defs, modules, a)
  {
    if LeastValid(defs, modules, a) {
      LeastBeginsGreedily(defs, modules, g, a);
      var rest := a[|g|..];
      assert rest[0] > d;
      assert d !in rest;
      CountAbsent(rest, d);
      assert a == g + rest;
      CountConcat(g, rest, d);
      assert Count(a, d) < defs[d].minInstances;
    }
  }

  /** Where the fill stands: g is what it gave the slots so far, def the definition it is at. */
  ghost predicate Filling(defs: seq<SlotDef>, modules: seq<Module>, g: seq<nat>, def: nat, count: int) {
    && Placed(defs, modules, g) && BelowAllRelaxed(defs, modules, g)
    && def <= |defs| && count == Count(g, def)
    && (forall i | 0 <= i < |g| :: g[i] <= def)
    && (forall d | 0 <= d < def :: defs[d].minInstances <= Count(g, d))
  }

  lemma Advanced(defs: seq<SlotDef>, modules: seq<Module>, g: seq<nat>, def: nat, count: int)
    requires Filling(defs, modules, g, def, count) && def < |defs| && count >= defs[def].minInstances
    ensures Filling(defs, modules, g, def + 1, 0)
  {
    CountAbsent(g, def + 1);
  }

  lemma Extended(defs: seq<SlotDef>, modules: seq<Module>, g: seq<nat>, def: nat, count: int)
    requires Filling(defs, modules, g, def, count) && def < |defs|
    requires count < defs[def].maxInstances && Fits(defs[def], modules, |g| + 1)
    requires |g| < LastSlot(modules)
    requires forall b | Relaxed(defs, modules, b) :: def <= b[|g|]
    ensures Filling(defs, modules, g + [def], def, count + 1)
  {
    var g' := g + [def];
    assert g'[..|g|] == g;
    forall d | 0 <= d < |defs| ensures Count(g', d) == Count(g, d) + (if d == def then 1 else 0) {
    }
    forall i | 0 <= i < |g'| ensures g'[i] < |defs| && Fits(defs[g'[i]], modules, i + 1) {
      if i < |g| { assert g'[i] == g[i]; }
    }
  }

  /** Modules before `next` are in slots below `slot`, the others at or above it. */
  predicate UpTo(modules: seq<Module>, next: nat, slot: int) {
    next <= |modules| && forall j | 0 <= j < |modules| :: j < next <==> modules[j].slot < slot
  }

  /** The inner loop: move on while the definition is full or, its minimum met, refuses the module. */
  method FindDefinition(defs: seq<SlotDef>, modules: seq<Module>, here: bool, at: nat, def0: nat, count0: nat,
                        ghost g: seq<nat>)
    returns (def: nat, count: nat, fits: bool)
    requires Parsed(defs) && Filling(defs, modules, g, def0, count0) && def0 < |defs| && |g| < LastSlot(modules)
    requires here ==> at < |modules|
    requires forall j | 0 <= j < |modules| :: modules[j].slot == |g| + 1 <==> here && j == at
    requires forall b | Relaxed(defs, modules, b) :: def0 <= b[|g|]
    ensures Filling(defs, modules, g, def, count)
    ensures forall b | Relaxed(defs, modules, b) :: def <= b[|g|]
    ensures def < |defs| ==>
              && fits == Fits(defs[def], modules, |g| + 1)
              && count < defs[def].maxInstances && (fits || count < defs[def].minInstances)
  {
    def, count, fits := def0, count0, true;
    while def < |defs|
      invariant Filling(defs, modules, g, def, count)
      invariant forall b | Relaxed(defs, modules, b) :: def <= b[|g|]
      decreases |defs| - def
    {
      fits := true;
      if here {
        fits := SlotAccepts(defs[def], modules[at]);
      }
      assert fits == Fits(defs[def], modules, |g| + 1);
      if !(count >= defs[def].maxInstances || (!fits && count >= defs[def].minInstances)) {
        return;
      }
      forall b | Relaxed(defs, modules, b) ensures def + 1 <= b[|g|] {
        AdvanceIsForced(defs, modules, g, b, def);
      }
      Advanced(defs, modules, g, def, count);
      def := def + 1;
      count := 0;
    }
  }

  /** The loop over the slots; g is the assignment it builds. */
  method FillSlots(defs: seq<SlotDef>, modules: seq<Module>)
    returns (r: Verdict, def: nat, count: nat, ghost g: seq<nat>)
    requires Parsed(defs) && defs != [] && Rising(modules)
    ensures r.Ok? || r.PastRules? || r.NotAccepted?
    ensures r.Ok? ==> |g| == LastSlot(modules) && Filling(defs, modules, g, def, count) && def < |defs|
    ensures r.PastRules? ==> forall b: seq<nat> :: !Relaxed(defs, modules, b)
    ensures r.NotAccepted? ==> forall a: seq<nat> :: !LeastValid(defs, modules, a)
  {
    AllPositive(modules);
    var last := LastSlot(modules);
    var next: nat := 0;
    def, count, g := 0, 0, [];
    for slot := 1 to last + 1
      invariant |g| == slot - 1 && Filling(defs, modules, g, def, count) && def < |defs|
      invariant def == if g == [] then 0 else g[|g| - 1]
      invariant UpTo(modules, next, slot)
    {
      var here := next < |modules| && modules[next].slot == slot;
      OnePerSlot(modules, next, slot);
      StartsAtOrBelow(defs, modules, g, def, count);
      var fits;
      def, count, fits := FindDefinition(defs, modules, here, next, def, count, g);
      if here {
        next := next + 1;
      }
      if def >= |defs| {
        forall b: seq<nat> ensures !Relaxed(defs, modules, b) {
          if |g| < |b| && b[|g|] >= |defs| { assert !Relaxed(defs, modules, b); }
        }
        r := PastRules(slot);
        return;
      }
      if !fits {
        forall a: seq<nat> ensures !LeastValid(defs, modules, a) {
          if Relaxed(defs, modules, a) { RefusedHasNoLeast(defs, modules, g, def, a); }
        }
        r := NotAccepted(def, slot);
        return;
      }
      Extended(defs, modules, g, def, count);
      g := g + [def];
      count := count + 1;
    }
    r := Ok;
  }

  lemma StartsAtOrBelow(defs: seq<SlotDef>, modules: seq<Module>, g: seq<nat>, def: nat, count: nat)
    requires Filling(defs, modules, g, def, count) && |g| < LastSlot(modules)
    requires def == if g == [] then 0 else g[|g| - 1]
    ensures forall b | Relaxed(defs, modules, b) :: def <= b[|g|]
  {
  }

  /** The closing loop: the definition reached and those after it have their minimums. */
  method CheckMinimums(defs: seq<SlotDef>, modules: seq<Module>, def: nat, count: nat, ghost g: seq<nat>)
    returns (r: Verdict)
    requires |g| == LastSlot(modules) && Filling(defs, modules, g, def, count) && def < |defs|
    ensures r.Ok? || r.TooFew?
    ensures r.Ok? ==> LeastValid(defs, modules, g)
    ensures r.TooFew? ==> forall a: seq<nat> :: !LeastValid(defs, modules, a)
  {
    for i := def to |defs|
      invariant forall d | def <= d < i :: defs[d].minInstances <= Count(g, d)
    {
      var have := if i == def then count else 0;
      if i > def { CountAbsent(g, i); }
      if have < defs[i].minInstances {
        assert !MeetsMinimums(defs, g);
        forall a: seq<nat> ensures !LeastValid(defs, modules, a) { OnlyGreedyIsLeast(defs, modules, g, a); }
        return TooFew(i);
      }
    }
    return Ok;
  }

  lemma OnlyGreedyIsLeast(defs: seq<SlotDef>, modules: seq<Module>, g: seq<nat>, a: seq<nat>)
    requires Relaxed(defs, modules, g) && BelowAllRelaxed(defs, modules, g)
    ensures LeastValid(defs, modules, a) ==> a == g
  {
  }

  /** The first loop: the last slot, or the module that breaks the order. */
  method CheckOrder(modules: seq<Module>) returns (r: Verdict)
    ensures r.Ok? || r.NotRising?
    ensures r.Ok? <==> Rising(modules)
  {
    var last := 0;
    for i := 0 to |modules|
      invariant last == SlotBefore(modules, i)
      invariant forall k | 0 <= k < i :: SlotBefore(modules, k) < modules[k].slot
    {
      if modules[i].slot <= last {
        return NotRising(modules[i].slot);
      }
      last := modules[i].slot;
    }
    return Ok;
  }

  /**
   `validate_station`. It accepts a station exactly when some assignment meets every minimum while
   using, at every slot, the earliest definition that any assignment could. It finds a slot past the
   rules only when no assignment exists at all, minimums aside.
   */
  method ValidateStation(present: bool, defs: seq<SlotDef>, modules: seq<Module>) returns (r: Verdict)
    requires Parsed(defs)
    ensures r.Ok? <==> (defs == [] && modules == [])
                       || (&& present && defs != [] && Rising(modules)
                           && exists a: seq<nat> :: LeastValid(defs, modules, a))
    ensures r.NotRising? ==> !Rising(modules)
    ensures r.PastRules? ==> Rising(modules) && forall b: seq<nat> :: !Relaxed(defs, modules, b)
    ensures r.NotAccepted? || r.TooFew? ==> Rising(modules) && forall a: seq<nat> :: !LeastValid(defs, modules, a)
  {
    if |defs| == 0 && |modules| == 0 {
      return Ok;
    }
    if !present || |defs| == 0 {
      return NoSlotRules;
    }
    r := CheckOrder(modules);
    if !r.Ok? {
      return;
    }
    var def, count;
    ghost var g;
    r, def, count, g := FillSlots(defs, modules);
    if !r.Ok? {
      return;
    }
    r := CheckMinimums(defs, modules, def, count, g);
  }

  lemma OnePerSlot(modules: seq<Module>, next: nat, slot: int)
    requires Rising(modules) && UpTo(modules, next, slot)
    ensures forall j | 0 <= j < |modules| && modules[j].slot == slot :: j == next
    ensures UpTo(modules, if next < |modules| && modules[next].slot == slot then next + 1 else next, slot + 1)
  {
  }

  lemma AllPositive(modules: seq<Module>)
    requires Rising(modules)
    ensures forall j | 0 <= j < |modules| :: modules[j].slot >= 1
  {
    forall j | 0 <= j < |modules| ensures modules[j].slot >= 1 {
      assert SlotBefore(modules, 0) == 0;
      if j > 0 { RisesBetween(modules, 0, j); }
    }
  }

  lemma {:induction false} RisesBetween(modules: seq<Module>, i: nat, j: nat)
    requires Rising(modules) && i < j < |modules|
    ensures modules[i].slot < modules[j].slot
  {
    assert SlotBefore(modules, j) == modules[j - 1].slot;
    if i + 1 < j { RisesBetween(modules, i, j - 1); }
  }

  /** Rising means that the slots are positive and rise strictly. */
  lemma RisingExactly(modules: seq<Module>)
    ensures Rising(modules) <==>
              && (forall j | 0 <= j < |modules| :: modules[j].slot >= 1)
              && forall i, j | 0 <= i < j < |modules| :: modules[i].slot < modules[j].slot
  {
    if Rising(modules) {
      AllPositive(modules);
      forall i, j | 0 <= i < j < |modules| ensures modules[i].slot < modules[j].slot {
        RisesBetween(modules, i, j);
      }
    }
  }

  // ---------------------------------------------------------------------------------------------
  // When acceptance means that an assignment exists
  // ---------------------------------------------------------------------------------------------

  /** No two definitions accept a common configured module, and no slot up to the last is empty. */
  predicate Unambiguous(defs: seq<SlotDef>, modules: seq<Module>) {
    && |modules| == LastSlot(modules)
    && (forall j | 0 <= j < |modules| :: modules[j].slot == j + 1)
    && (forall d, e, j | 0 <= d < e < |defs| && 0 <= j < |modules| ::
          !(Accepts(defs[d], modules[j]) && Accepts(defs[e], modules[j])))
  }

  /** On an unambiguous station, any valid assignment is the least one, so validation is complete. */
  lemma CompleteWhenUnambiguous(defs: seq<SlotDef>, modules: seq<Module>, a: seq<nat>)
    requires Unambiguous(defs, modules) && ValidAssignment(defs, modules, a)
    ensures LeastValid(defs, modules, a)
  {
    forall b | Relaxed(defs, modules, b) ensures AtMost(a, b) {
      forall i | 0 <= i < |a| ensures a[i] <= b[i] {
        assert Fits(defs[a[i]], modules, i + 1) && Fits(defs[b[i]], modules, i + 1);
        assert modules[i].slot == i + 1;
        assert Accepts(defs[a[i]], modules[i]) && Accepts(defs[b[i]], modules[i]);
      }
    }
  }

  /** What a rule more admits: a definition without rules admits any module, one with rules what one of them names. */
  lemma RulesAdmit(def: SlotDef, mod: Module, ident: nat, className: string)
    ensures def.classes == [] && def.idents == [] ==>
              && Accepts(def, mod)
              && (Accepts(def.(idents := [ident]), mod) <==> mod.ident == ident)
              && (Accepts(def.(classes := [className]), mod) <==> mod.className == className && className != "")
    ensures def.classes != [] || def.idents != [] ==>
              && (Accepts(def.(idents := def.idents + [ident]), mod) <==> Accepts(def, mod) || mod.ident == ident)
              && (Accepts(def.(classes := def.classes + [className]), mod) <==>
                    Accepts(def, mod) || (mod.className == className && className != ""))
  {
  }

  lemma {:induction false} CountAll(a: seq<nat>)
    requires forall i | 0 <= i < |a| :: a[i] == 0
    ensures Count(a, 0) == |a|
  {
    if a != [] { CountAll(a[..|a| - 1]); }
  }

  /** With one definition, a station is in order exactly when its slots are within limits and all modules admitted. */
  lemma OneDefinition(def: SlotDef, modules: seq<Module>)
    requires Rising(modules)
    ensures (exists a: seq<nat> :: LeastValid([def], modules, a)) <==>
              && def.minInstances <= LastSlot(modules) <= def.maxInstances
              && forall j | 0 <= j < |modules| :: Accepts(def, modules[j])
  {
    AllPositive(modules);
    if a: seq<nat> :| LeastValid([def], modules, a) {
      assert forall i | 0 <= i < |a| :: a[i] == 0;
      CountAll(a);
      forall j | 0 <= j < |modules| ensures Accepts(def, modules[j]) {
        SlotInRange(modules, j);
        var i := modules[j].slot - 1;
        assert a[i] == 0 && Fits([def][a[i]], modules, i + 1);
      }
    }
    if def.minInstances <= LastSlot(modules) <= def.maxInstances
       && forall j | 0 <= j < |modules| :: Accepts(def, modules[j]) {
      var a: seq<nat> := seq(LastSlot(modules), _ => 0);
      CountAll(a);
      assert LeastValid([def], modules, a);
    }
  }

  lemma SlotInRange(modules: seq<Module>, j: nat)
    requires Rising(modules) && j < |modules|
    ensures 1 <= modules[j].slot <= LastSlot(modules)
  {
    AllPositive(modules);
    if j < |modules| - 1 { RisesBetween(modules, j, |modules| - 1); }
  }

  lemma PairCounts(x: nat, y: nat, d: nat)
    ensures Count([x, y], d) == (if x == d then 1 else 0) + (if y == d then 1 else 0)
  {
    assert [x, y][..1] == [x];
    assert [x][..0] == [];
    assert Count([x], d) == (if x == d then 1 else 0);
  }

  /**
   Overlapping definitions: "any, 0..2" then "Di, 1..1" with two Di modules has a valid assignment,
   one module each, but the fill gives both to the first definition.
   */
  lemma OverlapIsRefused()
    ensures var defs := [SlotDef(0, 2, [], []), SlotDef(1, 1, ["Di"], [])];
            var modules := [Module(1, 0, "Di"), Module(2, 0, "Di")];
            && Parsed(defs) && Rising(modules)
            && ValidAssignment(defs, modules, [0, 1])
            && forall a: seq<nat> :: !LeastValid(defs, modules, a)
  {
    var defs := [SlotDef(0, 2, [], []), SlotDef(1, 1, ["Di"], [])];
    var modules := [Module(1, 0, "Di"), Module(2, 0, "Di")];
    assert Accepts(defs[1], modules[0]) && Accepts(defs[1], modules[1]);
    forall d: nat ensures Count([0, 1], d) == (if d == 0 || d == 1 then 1 else 0) { PairCounts(0, 1, d); }
    forall d: nat ensures Count([0, 0], d) == (if d == 0 then 2 else 0) { PairCounts(0, 0, d); }
    assert Relaxed(defs, modules, [0, 0]);
    assert !MeetsMinimums(defs, [0, 0]) by { assert defs[1].minInstances > Count([0, 0], 1); }
    forall a: seq<nat> ensures !LeastValid(defs, modules, a) {
      if |a| == 2 && AtMost(a, [0, 0]) { assert a == [0, 0]; }
    }
  }

  lemma TripleCounts(x: nat, y: nat, z: nat, d: nat)
    ensures Count([x, y, z], d) == (if x == d then 1 else 0) + (if y == d then 1 else 0) + (if z == d then 1 else 0)
  {
    assert [x, y, z][..2] == [x, y];
    PairCounts(x, y, d);
  }

  /**
   An empty slot: "Di, 0..2" then "Do, 2..2" with Di, nothing, Do has a valid assignment, the empty
   slot going to the second definition, but the fill gives it to the first.
   */
  lemma EmptySlotIsRefused()
    ensures var defs := [SlotDef(0, 2, ["Di"], []), SlotDef(2, 2, ["Do"], [])];
            var modules := [Module(1, 0, "Di"), Module(3, 0, "Do")];
            && Parsed(defs) && Rising(modules)
            && ValidAssignment(defs, modules, [0, 1, 1])
            && forall a: seq<nat> :: !LeastValid(defs, modules, a)
  {
    var defs := [SlotDef(0, 2, ["Di"], []), SlotDef(2, 2, ["Do"], [])];
    var modules := [Module(1, 0, "Di"), Module(3, 0, "Do")];
    assert Accepts(defs[0], modules[0]) && Accepts(defs[1], modules[1]);
    forall d: nat ensures Count([0, 1, 1], d) == (if d == 0 then 1 else if d == 1 then 2 else 0) {
      TripleCounts(0, 1, 1, d);
    }
    forall d: nat ensures Count([0, 0, 1], d) == (if d == 0 then 2 else if d == 1 then 1 else 0) {
      TripleCounts(0, 0, 1, d);
    }
    assert Relaxed(defs, modules, [0, 0, 1]);
    forall a: seq<nat> ensures !LeastValid(defs, modules, a) {
      if |a| == 3 && AtMost(a, [0, 0, 1]) {
        assert a == [0, 0, a[2]];
        TripleCounts(0, 0, a[2], 1);
        assert defs[1].minInstances > Count(a, 1);
      }
    }
  }
}
