/** Choosing install recipes: a greedy cover of the missing binaries, the host's own package manager first. */
module Recipes {
  import opened Sequences

  datatype Recipe = Recipe(id: string, kind: string, formula: string, package: string, goModule: string,
                           bins: seq<string>)

  datatype Proposal = Proposal(recipeId: string, kind: string, command: string, bins: seq<string>)

  predicate MatchesRecipe(kind: string, preferred: string) {
    || preferred == "" || kind == preferred
    || (kind == "apt" && preferred == "apt-get") || (kind == "apt-get" && preferred == "apt")
  }

  function BinSet(bins: seq<string>): set<string> { set b | b in bins }

  predicate SuppliesMissing(bins: seq<string>, missing: set<string>) {
    exists b :: b in bins && b in missing
  }

  predicate Supported(kind: string) {
    kind in {"brew", "apt", "apt-get", "dnf", "npm", "go", "uv"}
  }

  /** The command line for a recipe; empty for a kind there is no command for. */
  function FormatRecipeCommand(r: Recipe, sudoPrefix: string): (command: string)
    ensures command != "" <==> Supported(r.kind)
  {
    if r.kind == "brew" then "brew install " + r.formula
    else if r.kind == "apt" || r.kind == "apt-get" then sudoPrefix + "apt install " + r.package
    else if r.kind == "dnf" then sudoPrefix + "dnf install " + r.package
    else if r.kind == "npm" then "npm install -g " + r.package
    else if r.kind == "go" then "go install " + r.goModule
    else if r.kind == "uv" then "uv tool install " + r.package
    else ""
  }

  function SudoPrefix(preferred: string): string {
    if preferred == "apt" || preferred == "apt-get" || preferred == "dnf" then "sudo " else ""
  }

  /** What proposing a recipe looks like: with sudo only when it is for the host's package manager. */
  function Offer(r: Recipe, preferred: string): Proposal {
    Proposal(r.id, r.kind,
             FormatRecipeCommand(r, if MatchesRecipe(r.kind, preferred) then SudoPrefix(preferred) else ""), r.bins)
  }

  function Covered(out: seq<Proposal>): set<string> {
    set i, b | 0 <= i < |out| && b in out[i].bins :: b
  }

  /** Proposal `i` supplies a missing binary that no earlier one supplied. */
  ghost predicate AddsOne(out: seq<Proposal>, missing: set<string>, i: nat)
    requires i < |out|
  {
    exists b :: b in missing && b in out[i].bins && b !in Covered(out[..i])
  }

  ghost predicate AllAdd(out: seq<Proposal>, missing: set<string>) {
    forall i :: 0 <= i < |out| ==> AddsOne(out, missing, i)
  }

  /** Every proposal offers a recipe of the list, of a kind there is a command for. */
  ghost predicate FromList(out: seq<Proposal>, recipes: seq<Recipe>, preferred: string) {
    forall i :: 0 <= i < |out| ==> Supported(out[i].kind) && exists r :: r in recipes && out[i] == Offer(r, preferred)
  }

  /** The host's package manager comes first. */
  predicate NativeFirst(out: seq<Proposal>, preferred: string) {
    forall i, j :: 0 <= i < j < |out| && MatchesRecipe(out[j].kind, preferred) ==> MatchesRecipe(out[i].kind, preferred)
  }

  /** Nothing left that this recipe could supply, unless a proposal already carries its id. */
  ghost predicate Settled(r: Recipe, left: set<string>, out: seq<Proposal>) {
    Supported(r.kind) ==> !SuppliesMissing(r.bins, left) || IdTaken(out, r.id)
  }

  ghost predicate IdTaken(out: seq<Proposal>, id: string) {
    exists i :: 0 <= i < |out| && out[i].recipeId == id
  }

  /** Outside the host's package manager an id is proposed only if no earlier proposal carries it. */
  predicate FallbackIdsNew(out: seq<Proposal>, preferred: string) {
    forall i, j :: 0 <= i < j < |out| && !MatchesRecipe(out[j].kind, preferred) ==> out[i].recipeId != out[j].recipeId
  }

  const KINDS: set<string> := {"brew", "apt", "apt-get", "dnf", "npm", "go", "uv"}

  /** The proposal is the recipe's, and its command is written for its kind, with sudo for the host's own manager alone. */
  ghost predicate Says(p: Proposal, r: Recipe, preferred: string) {
    && p.recipeId == r.id && p.kind == r.kind && p.bins == r.bins && r.kind in KINDS
    && (r.kind == "brew" ==> p.command == "brew install " + r.formula)
    && (r.kind == "apt" || r.kind == "apt-get" ==>
          p.command == (if preferred in {"apt", "apt-get"} then "sudo " else "") + "apt install " + r.package)
    && (r.kind == "dnf" ==> p.command == (if preferred == "dnf" then "sudo " else "") + "dnf install " + r.package)
    && (r.kind == "npm" ==> p.command == "npm install -g " + r.package)
    && (r.kind == "go" ==> p.command == "go install " + r.goModule)
    && (r.kind == "uv" ==> p.command == "uv tool install " + r.package)
  }

  ghost predicate Offers(out: seq<Proposal>, recipes: seq<Recipe>, preferred: string) {
    forall i :: 0 <= i < |out| ==> SomeSays(out[i], recipes, preferred)
  }

  ghost predicate SomeSays(p: Proposal, recipes: seq<Recipe>, preferred: string) {
    exists r :: r in recipes && Says(p, r, preferred)
  }

  /** No proposal for the host's manager comes after one for another; apt and apt-get are one manager. */
  ghost predicate HostFirst(out: seq<Proposal>, preferred: string) {
    preferred != "" ==>
      forall i, j :: 0 <= i < j < |out| ==>
        && (preferred in {"apt", "apt-get"} && out[j].kind in {"apt", "apt-get"} ==> out[i].kind in {"apt", "apt-get"})
        && (out[j].kind == preferred && preferred !in {"apt", "apt-get"} ==> out[i].kind == preferred)
  }

  ghost predicate CoversListed(out: seq<Proposal>, recipes: seq<Recipe>, missingBins: seq<string>) {
    forall b :: b in missingBins ==>
      ((exists i :: 0 <= i < |out| && b in out[i].bins) <==> exists r :: r in recipes && b in r.bins && r.kind in KINDS)
  }

  function Ids(recipes: seq<Recipe>): seq<string> {
    seq(|recipes|, i requires 0 <= i < |recipes| => recipes[i].id)
  }

  ghost predicate Choice(out: seq<Proposal>, recipes: seq<Recipe>, missing: set<string>, preferred: string) {
    && AllAdd(out, missing) && FromList(out, recipes, preferred)
    && NativeFirst(out, preferred) && FallbackIdsNew(out, preferred)
  }

  /** The host's own recipes leave nothing missing that they could supply. */
  ghost predicate NativeSettled(recipes: seq<Recipe>, left: set<string>, preferred: string) {
    forall r :: r in recipes && MatchesRecipe(r.kind, preferred) && Supported(r.kind) ==> !SuppliesMissing(r.bins, left)
  }

  ghost predicate AllSettled(recipes: seq<Recipe>, left: set<string>, out: seq<Proposal>) {
    forall r :: r in recipes ==> Settled(r, left, out)
  }

  /**
    At most one proposal per missing binary, each adding one, native ones first; what
    stays missing is what no recipe with a command lists, as long as no recipe's id
    can be used up by one that supplies less.
   */
  method ProposeCommands(recipes: seq<Recipe>, missingBins: seq<string>, preferred: string) returns (out: seq<Proposal>)
    ensures var missing := BinSet(missingBins);
      && Outcome(out, recipes, missing, preferred) && |out| <= |missing|
      && (Compatible(recipes, preferred) ==> forall b :: b in missing ==> (b in Covered(out) <==> Listed(recipes, b)))
    ensures Offers(out, recipes, preferred) && HostFirst(out, preferred)
    ensures Distinct(Ids(recipes)) ==> CoversListed(out, recipes, missingBins)
  {
    hide Choice, Covered, SuppliesMissing, Supported, MatchesRecipe, FormatRecipeCommand, NativeSettled, AllSettled,
      Settled, Compatible, Listed, IdTaken, Offers, HostFirst, CoversListed, Distinct, Ids;
    out := [];
    ghost var missing := BinSet(missingBins);
    Nothing(missing, recipes, preferred);
    if |missingBins| == 0 {
      assert BinSet(missingBins) == {} && missing - Covered(out) == {};
      NothingLeft(recipes, out, preferred);
      Conclude(recipes, missing, preferred, out);
      OfferedCommands(out, recipes, missing, preferred);
      if Distinct(Ids(recipes)) { CoverageSays(out, recipes, missingBins, preferred); }
      return;
    }
    var missingSet := BinSet(missingBins);
    var sudoPrefix := SudoPrefix(preferred);
    for k := 0 to |recipes|
      invariant missingSet == missing - Covered(out)
      invariant Choice(out, recipes, missing, preferred) && AllNative(out, preferred)
      invariant NativeSettled(recipes[..k], missingSet, preferred)
    {
      var recipe := recipes[k];
      assert recipes[..k + 1] == recipes[..k] + [recipe];
      SettleNative(recipes[..k], recipe, missingSet, preferred);
      if !MatchesRecipe(recipe.kind, preferred) { continue; }
      if !SuppliesMissing(recipe.bins, missingSet) { continue; }
      var command := FormatRecipeCommand(recipe, sudoPrefix);
      if command == "" { continue; }
      TakeNative(out, recipes, missing, preferred, recipe);
      out := out + [Proposal(recipe.id, recipe.kind, command, recipe.bins)];
      missingSet := missingSet - BinSet(recipe.bins);
    }
    assert recipes[..|recipes|] == recipes;
    if |missingSet| > 0 {
      StartFallback(missingSet, out);
      assert recipes[..0] == [];
      for k := 0 to |recipes|
        invariant missingSet == missing - Covered(out)
        invariant Choice(out, recipes, missing, preferred)
        invariant NativeSettled(recipes, missingSet, preferred)
        invariant AllSettled(recipes[..k], missingSet, out)
      {
        var recipe := recipes[k];
        assert recipes[..k + 1] == recipes[..k] + [recipe];
        SettleNext(recipes[..k], recipe, missingSet, out);
        if !SuppliesMissing(recipe.bins, missingSet) { continue; }
        var already := AlreadyProposed(out, recipe.id);
        if already { continue; }
        var command := FormatRecipeCommand(recipe, "");
        if command == "" { continue; }
        TakeFallback(out, recipes, k, missing, preferred, recipe);
        out := out + [Proposal(recipe.id, recipe.kind, command, recipe.bins)];
        missingSet := missingSet - BinSet(recipe.bins);
        assert missingSet == missing - Covered(out);
        if |missingSet| == 0 { break; }
      }
      assert recipes[..|recipes|] == recipes;
    }
    if missingSet == {} {
      NothingLeft(recipes, out, preferred);
    }
    Conclude(recipes, missing, preferred, out);
    OfferedCommands(out, recipes, missing, preferred);
    if Distinct(Ids(recipes)) { CoverageSays(out, recipes, missingBins, preferred); }
  }

  predicate AllNative(out: seq<Proposal>, preferred: string) {
    forall i :: 0 <= i < |out| ==> MatchesRecipe(out[i].kind, preferred)
  }

  method AlreadyProposed(out: seq<Proposal>, id: string) returns (already: bool)
    ensures already <==> IdTaken(out, id)
  {
    already := false;
    for i := 0 to |out|
      invariant forall j :: 0 <= j < i ==> out[j].recipeId != id
    {
      if out[i].recipeId == id { return true; }
    }
  }

  lemma Nothing(missing: set<string>, recipes: seq<Recipe>, preferred: string)
    ensures Choice([], recipes, missing, preferred) && Covered([]) == {}
    ensures forall left :: NativeSettled([], left, preferred)
  {
  }

  lemma NothingLeft(recipes: seq<Recipe>, out: seq<Proposal>, preferred: string)
    ensures NativeSettled(recipes, {}, preferred) && AllSettled(recipes, {}, out)
  {
  }

  lemma StartFallback(left: set<string>, out: seq<Proposal>)
    ensures AllSettled([], left, out)
  {
  }

  /** When a recipe of the first pass needs nothing done. */
  lemma SettleNative(done: seq<Recipe>, r: Recipe, left: set<string>, preferred: string)
    requires NativeSettled(done, left, preferred)
    ensures !MatchesRecipe(r.kind, preferred) || !SuppliesMissing(r.bins, left) || !Supported(r.kind) ==>
      NativeSettled(done + [r], left, preferred)
    ensures NativeSettled(done + [r], left - BinSet(r.bins), preferred)
  {
    hide MatchesRecipe, Supported;
    assert forall x :: x in done + [r] ==> x in done || x == r;
  }

  /** When a recipe of the second pass needs nothing done. */
  lemma SettleNext(done: seq<Recipe>, r: Recipe, left: set<string>, out: seq<Proposal>)
    requires AllSettled(done, left, out)
    ensures !SuppliesMissing(r.bins, left) || IdTaken(out, r.id) || !Supported(r.kind) ==>
      AllSettled(done + [r], left, out)
  {
    hide IdTaken, SuppliesMissing, Supported;
    assert forall x :: x in done + [r] ==> x in done || x == r;
  }

  /** Taking a recipe that supplies something still missing. */
  lemma Take(out: seq<Proposal>, recipes: seq<Recipe>, missing: set<string>, preferred: string, r: Recipe)
    requires AllAdd(out, missing) && FromList(out, recipes, preferred)
    requires r in recipes && Supported(r.kind) && SuppliesMissing(r.bins, missing - Covered(out))
    ensures var out' := out + [Offer(r, preferred)];
      && AllAdd(out', missing) && FromList(out', recipes, preferred)
      && Covered(out') == Covered(out) + BinSet(r.bins)
  {
    hide FormatRecipeCommand, MatchesRecipe;
    var out' := out + [Offer(r, preferred)];
    assert out'[..|out|] == out;
    assert forall i :: 0 <= i < |out| ==> out'[i] == out[i];
    forall i | 0 <= i < |out'| ensures AddsOne(out', missing, i) {
      if i < |out| {
        assert AddsOne(out, missing, i);
        assert out'[..i] == out[..i];
      }
    }
    assert Covered(out') == Covered(out) + BinSet(r.bins) by {
      assert out'[|out|].bins == r.bins;
    }
  }

  lemma TakeNative(out: seq<Proposal>, recipes: seq<Recipe>, missing: set<string>, preferred: string, r: Recipe)
    requires Choice(out, recipes, missing, preferred) && AllNative(out, preferred)
    requires r in recipes && Supported(r.kind) && SuppliesMissing(r.bins, missing - Covered(out))
    requires MatchesRecipe(r.kind, preferred)
    ensures var out' := out + [Offer(r, preferred)];
      && Choice(out', recipes, missing, preferred) && AllNative(out', preferred)
      && Covered(out') == Covered(out) + BinSet(r.bins)
  {
    Take(out, recipes, missing, preferred, r);
    hide MatchesRecipe, AllAdd, FromList, FormatRecipeCommand;
  }

  lemma TakeFallback(out: seq<Proposal>, recipes: seq<Recipe>, k: nat, missing: set<string>, preferred: string,
                     r: Recipe)
    requires Choice(out, recipes, missing, preferred)
    requires k < |recipes| && r == recipes[k] && Supported(r.kind)
    requires var left := missing - Covered(out);
      && SuppliesMissing(r.bins, left) && NativeSettled(recipes, left, preferred) && AllSettled(recipes[..k], left, out)
    requires !IdTaken(out, r.id)
    ensures !MatchesRecipe(r.kind, preferred)
    ensures var out', left' := out + [Offer(r, preferred)], missing - Covered(out) - BinSet(r.bins);
      && Choice(out', recipes, missing, preferred) && Covered(out') == Covered(out) + BinSet(r.bins)
      && NativeSettled(recipes, left', preferred) && AllSettled(recipes[..k + 1], left', out')
  {
    Take(out, recipes, missing, preferred, r);
    hide MatchesRecipe, AllAdd, FromList, FormatRecipeCommand, Covered, Supported;
    var out' := out + [Offer(r, preferred)];
    var left := missing - Covered(out);
    var left' := left - BinSet(r.bins);
    forall q | q in recipes[..k + 1] ensures Settled(q, left', out') {
      if q in recipes[..k] {
        assert Settled(q, left, out);
        if i :| 0 <= i < |out| && out[i].recipeId == q.id {
          assert out'[i].recipeId == q.id;
        }
      } else {
        assert q == r;
      }
    }
  }

  lemma Conclude(recipes: seq<Recipe>, missing: set<string>, preferred: string, out: seq<Proposal>)
    requires Outcome(out, recipes, missing, preferred)
    ensures |out| <= |missing|
    ensures Compatible(recipes, preferred) ==> forall b :: b in missing ==> (b in Covered(out) <==> Listed(recipes, b))
  {
    hide FromList, Covered, AllAdd, Listed, Compatible, Settled, NativeFirst, FallbackIdsNew, NativeSettled, AllSettled;
    NoMoreThanMissing(out, missing);
    if Compatible(recipes, preferred) {
      forall b | b in missing ensures b in Covered(out) <==> Listed(recipes, b) {
        CoverageIff(recipes, missing, preferred, out, b);
      }
    }
  }

  // ---------- what follows for any such choice ----------

  lemma OfferSays(r: Recipe, preferred: string)
    requires Supported(r.kind)
    ensures Says(Offer(r, preferred), r, preferred)
  {
  }

  /** So every outcome reads, by kind and host, as written out above. */
  lemma OfferedCommands(out: seq<Proposal>, recipes: seq<Recipe>, missing: set<string>, preferred: string)
    requires Choice(out, recipes, missing, preferred)
    ensures Offers(out, recipes, preferred) && HostFirst(out, preferred)
  {
    hide AllAdd, FallbackIdsNew, FormatRecipeCommand;
    forall i | 0 <= i < |out| ensures SomeSays(out[i], recipes, preferred) {
      var r := OfferLists(out, i, recipes, preferred);
      OfferSays(r, preferred);
    }
  }

  /** With distinct ids a missing binary is covered exactly when some recipe of a kind with a command lists it. */
  lemma CoverageSays(out: seq<Proposal>, recipes: seq<Recipe>, missingBins: seq<string>, preferred: string)
    requires Outcome(out, recipes, BinSet(missingBins), preferred) && Distinct(Ids(recipes))
    ensures CoversListed(out, recipes, missingBins)
  {
    hide Outcome, Compatible, MatchesRecipe;
    assert DistinctIds(recipes) by {
      forall i, j | 0 <= i < j < |recipes| ensures recipes[i].id != recipes[j].id {
        assert Ids(recipes)[i] != Ids(recipes)[j];
      }
    }
    DistinctAreCompatible(recipes, preferred);
    forall b | b in missingBins
      ensures (exists i :: 0 <= i < |out| && b in out[i].bins) <==> exists r :: r in recipes && b in r.bins && r.kind in KINDS
    {
      CoverageIff(recipes, BinSet(missingBins), preferred, out, b);
      assert b in Covered(out) <==> exists i :: 0 <= i < |out| && b in out[i].bins;
      assert forall r :: Lists(r, b) <==> b in r.bins && r.kind in KINDS;
      assert Listed(recipes, b) <==> exists r :: r in recipes && Lists(r, b);
    }
  }

  /** One more missing binary with every proposal: never more proposals than missing binaries. */
  lemma {:induction false} NoMoreThanMissing(out: seq<Proposal>, missing: set<string>)
    requires AllAdd(out, missing)
    ensures |out| <= |missing * Covered(out)| <= |missing|
  {
    if out != [] {
      var n := |out| - 1;
      var init := out[..n];
      forall i | 0 <= i < n ensures AddsOne(init, missing, i) {
        assert AddsOne(out, missing, i);
        assert init[..i] == out[..i];
      }
      NoMoreThanMissing(init, missing);
      assert AddsOne(out, missing, n);
      var b :| b in missing && b in out[n].bins && b !in Covered(out[..n]);
      assert forall i :: 0 <= i < n ==> init[i] == out[i];
      SubsetSize(missing * Covered(init) + {b}, missing * Covered(out));
    }
    SubsetSize(missing * Covered(out), missing);
  }

  /** What both passes together come to. */
  ghost predicate Outcome(out: seq<Proposal>, recipes: seq<Recipe>, missing: set<string>, preferred: string) {
    && Choice(out, recipes, missing, preferred)
    && NativeSettled(recipes, missing - Covered(out), preferred)
    && AllSettled(recipes, missing - Covered(out), out)
  }

  /**
    A recipe outside the host's package manager that shares its id lists nothing its
    namesakes lack. Only those are passed over for an id that is taken.
   */
  ghost predicate Compatible(recipes: seq<Recipe>, preferred: string) {
    forall r, q :: r in recipes && q in recipes && Namesakes(r, q, preferred) ==> BinSet(r.bins) <= BinSet(q.bins)
  }

  predicate Namesakes(r: Recipe, q: Recipe, preferred: string) {
    r.id == q.id && Supported(r.kind) && Supported(q.kind) && !MatchesRecipe(r.kind, preferred) && q.bins != []
  }

  predicate DistinctIds(recipes: seq<Recipe>) {
    forall i, j :: 0 <= i < j < |recipes| ==> recipes[i].id != recipes[j].id
  }

  lemma {:induction false} DistinctAreCompatible(recipes: seq<Recipe>, preferred: string)
    requires DistinctIds(recipes)
    ensures Compatible(recipes, preferred)
  {
    forall r, q | r in recipes && q in recipes && r.id == q.id ensures r == q {
      var i :| 0 <= i < |recipes| && recipes[i] == r;
      var j :| 0 <= j < |recipes| && recipes[j] == q;
    }
  }

  /** Some recipe with a command lists the binary. */
  ghost predicate Listed(recipes: seq<Recipe>, b: string) {
    exists r :: r in recipes && Lists(r, b)
  }

  ghost predicate Lists(r: Recipe, b: string) {
    Supported(r.kind) && b in r.bins
  }

  lemma OfferLists(out: seq<Proposal>, i: nat, recipes: seq<Recipe>, preferred: string) returns (q: Recipe)
    requires FromList(out, recipes, preferred) && i < |out|
    ensures q in recipes && Supported(q.kind) && out[i] == Offer(q, preferred)
    ensures out[i].recipeId == q.id && out[i].bins == q.bins && out[i].kind == q.kind
  {
    hide FormatRecipeCommand, MatchesRecipe;
    assert Supported(out[i].kind) && exists r :: r in recipes && out[i] == Offer(r, preferred);
    q :| q in recipes && out[i] == Offer(q, preferred);
  }

  /** A missing binary is covered exactly when some recipe with a command lists it. */
  lemma {:induction false} CoverageIff(recipes: seq<Recipe>, missing: set<string>, preferred: string,
                                       out: seq<Proposal>, b: string)
    requires Compatible(recipes, preferred) && Outcome(out, recipes, missing, preferred) && b in missing
    ensures b in Covered(out) <==> Listed(recipes, b)
  {
    hide FormatRecipeCommand, MatchesRecipe, Supported;
    if b in Covered(out) {
      var i :| 0 <= i < |out| && b in out[i].bins;
      var r := OfferLists(out, i, recipes, preferred);
      assert Lists(r, b);
    } else if r :| r in recipes && Lists(r, b) {
      assert Settled(r, missing - Covered(out), out) && SuppliesMissing(r.bins, missing - Covered(out));
      var i :| 0 <= i < |out| && out[i].recipeId == r.id;
      var q := OfferLists(out, i, recipes, preferred);
      assert AddsOne(out, missing, i);
      assert b in BinSet(r.bins) && BinSet(r.bins) <= BinSet(q.bins);
      assert b in out[i].bins;
    }
  }

  // ---------- ids that clash ----------

  /** Two binaries whose recipes all carry one id, none listing both and none of the second's being the host's own. */
  ghost predicate Clash(recipes: seq<Recipe>, preferred: string, id: string, a: string, b: string) {
    && Listed(recipes, a) && Listed(recipes, b)
    && (forall r :: r in recipes && (Lists(r, a) || Lists(r, b)) ==> r.id == id && !(Lists(r, a) && Lists(r, b)))
    && (forall r :: r in recipes && Lists(r, b) ==> !MatchesRecipe(r.kind, preferred))
  }

  /** With just these two missing, each listed by some recipe, one of them stays missing. */
  lemma {:induction false} ClashLeavesAGap(recipes: seq<Recipe>, preferred: string, id: string, a: string, b: string,
                                           out: seq<Proposal>)
    requires Clash(recipes, preferred, id, a, b) && Choice(out, recipes, {a, b}, preferred)
    ensures !(a in Covered(out) && b in Covered(out))
  {
    hide FormatRecipeCommand, MatchesRecipe, Supported;
    if a in Covered(out) {
      var i :| 0 <= i < |out| && a in out[i].bins;
      var q := OfferLists(out, i, recipes, preferred);
      assert Lists(q, a);
      forall j | 0 <= j < |out| ensures b !in out[j].bins {
        var r := OfferLists(out, j, recipes, preferred);
        assert b in out[j].bins ==> Lists(r, b);
      }
    }
  }

  /** No binary is listed by two of the recipes that have a command. */
  ghost predicate ListedOnce(recipes: seq<Recipe>) {
    forall r, q, b :: r in recipes && q in recipes && Lists(r, b) && Lists(q, b) ==> r == q
  }

  /** Recipes that are not compatible clash, where no binary has two of them. */
  lemma IncompatibleClash(recipes: seq<Recipe>, preferred: string) returns (q: Recipe, r: Recipe, a: string, b: string)
    requires ListedOnce(recipes) && !Compatible(recipes, preferred)
    ensures q in recipes && r in recipes && q.id == r.id && Lists(q, a) && Lists(r, b)
    ensures Clash(recipes, preferred, q.id, a, b)
  {
    hide MatchesRecipe, Supported;
    r, q :| r in recipes && q in recipes && Namesakes(r, q, preferred) && !(BinSet(r.bins) <= BinSet(q.bins));
    b :| b in BinSet(r.bins) && b !in BinSet(q.bins);
    a := q.bins[0];
    assert Lists(q, a) && Lists(r, b) && q != r;
  }

  /** There is an outcome for the two: propose the one recipe and pass over the other. */
  lemma ClashHasOutcome(recipes: seq<Recipe>, preferred: string, q: Recipe, a: string, b: string)
    requires Clash(recipes, preferred, q.id, a, b) && q in recipes && Lists(q, a)
    ensures Choice([Offer(q, preferred)], recipes, {a, b}, preferred)
    ensures Outcome([Offer(q, preferred)], recipes, {a, b}, preferred)
  {
    hide MatchesRecipe, Supported;
    var out := [Offer(q, preferred)];
    assert Offer(q, preferred).bins == q.bins && Offer(q, preferred).recipeId == q.id && Offer(q, preferred).kind == q.kind;
    assert out[..0] == [];
    assert AddsOne(out, {a, b}, 0) by { assert a in out[0].bins; }
    assert a in out[0].bins;
    assert a in Covered(out);
    assert IdTaken(out, q.id) by { assert out[0].recipeId == q.id; }
    forall r | r in recipes && Supported(r.kind) && SuppliesMissing(r.bins, {a, b} - Covered(out)) ensures Lists(r, b) {
    }
  }

  /**
    Where no binary is listed twice, compatible ids are what it takes: they are if
    and only if, whatever is missing, all of it that is listed gets covered.
   */
  lemma {:induction false} CompatibleIff(recipes: seq<Recipe>, preferred: string)
    requires ListedOnce(recipes)
    ensures Compatible(recipes, preferred) <==>
      forall missing, out, b :: Outcome(out, recipes, missing, preferred) && b in missing ==>
        (b in Covered(out) <==> Listed(recipes, b))
  {
    hide Outcome, Covered, Listed, ListedOnce;
    if Compatible(recipes, preferred) {
      hide Compatible;
      forall missing, out, b | Outcome(out, recipes, missing, preferred) && b in missing
        ensures b in Covered(out) <==> Listed(recipes, b)
      {
        CoverageIff(recipes, missing, preferred, out, b);
      }
    } else {
      hide Compatible;
      var q, r, a, b := IncompatibleClash(recipes, preferred);
      ClashHasOutcome(recipes, preferred, q, a, b);
      var out := [Offer(q, preferred)];
      ClashLeavesAGap(recipes, preferred, q.id, a, b, out);
      assert Outcome(out, recipes, {a, b}, preferred) && a in {a, b} && b in {a, b};
    }
  }

  // ---------- two recipes under one id ----------

  const BREW_A: Recipe := Recipe("x", "brew", "a", "", "", ["a"])
  const NPM_B: Recipe := Recipe("x", "npm", "", "b", "", ["b"])

  /** With the id taken by the host's own recipe, the other one is passed over and its binary stays missing. */
  lemma SharedIdLeavesAGap(out: seq<Proposal>)
    requires Outcome(out, [BREW_A, NPM_B], {"a", "b"}, "brew")
    ensures Listed([BREW_A, NPM_B], "b") && "a" in Covered(out) && "b" !in Covered(out)
  {
    var both := [BREW_A, NPM_B];
    assert both[0] in both && both[1] in both;
    assert Lists(BREW_A, "a") && Lists(NPM_B, "b");
    assert !SuppliesMissing(BREW_A.bins, {"a", "b"} - Covered(out));
    assert "a" in BREW_A.bins;
    ClashLeavesAGap(both, "brew", "x", "a", "b", out);
  }
}
