/** Cross-reference resolution, the search inside both row closures of
    `src/main.rs`: a scraped name is matched against the summary feed, in feed
    order, skipping the placeholder entries whose alias mentions
    "Strawberry". */
module Resolver {
  import opened Errors
  import opened Text
  import opened Search
  import opened Models

  /** The marker of the duplicate-name placeholder entries in the feed. */
  const Strawberry := "Strawberry"

  /** A summary entry the resolver may pick for `name`. */
  predicate Eligible(s: ChampionSummary, name: string) {
    s.name == name && !Contains(s.alias, Strawberry)
  }

  /** `i` is the first eligible position of the feed. */
  ghost predicate FirstEligibleAt(summaries: seq<ChampionSummary>, name: string, i: int) {
    && 0 <= i < |summaries|
    && Eligible(summaries[i], name)
    && forall j :: 0 <= j < i ==> !Eligible(summaries[j], name)
  }

  /** The summary entry a scraped name resolves to; a miss aborts the run. */
  function Resolve(summaries: seq<ChampionSummary>, name: string): (r: Result<ChampionSummary>)
    ensures r.Err? <==> forall s :: s in summaries ==> !Eligible(s, name)
    ensures r.Err? ==> r.error == Unresolved(name)
    ensures r.Ok? ==> exists i :: FirstEligibleAt(summaries, name, i) && summaries[i] == r.value
  {
    match First(summaries, (s: ChampionSummary) => Eligible(s, name))
    case None => Err(Unresolved(name))
    case Some(i) =>
      assert FirstEligibleAt(summaries, name, i);
      Ok(summaries[i])
  }

  /** The picked entry is in the feed, carries the name, and its alias does
      not mention "Strawberry". */
  lemma ResolvedIsEligible(summaries: seq<ChampionSummary>, name: string)
    ensures Resolve(summaries, name).Ok? ==>
      var s := Resolve(summaries, name).value;
      s in summaries && s.name == name && !Contains(s.alias, Strawberry)
  {
  }

  /** When every entry carrying the name is a placeholder, resolution fails
      rather than fall back on one of them. */
  lemma OnlyPlaceholdersFail(summaries: seq<ChampionSummary>, name: string)
    requires forall s :: s in summaries && s.name == name ==> Contains(s.alias, Strawberry)
    ensures Resolve(summaries, name) == Err(Unresolved(name))
  {
  }

  lemma FirstEligibleUnique(summaries: seq<ChampionSummary>, name: string, i: int, k: int)
    requires FirstEligibleAt(summaries, name, i) && FirstEligibleAt(summaries, name, k)
    ensures i == k
  {
    if i < k || k < i {
      assert false;
    }
  }

  /** Entries after the first eligible one never matter: appending to the
      feed cannot change a successful resolution. */
  lemma {:induction false} ResolveStableUnderAppend(summaries: seq<ChampionSummary>, more: seq<ChampionSummary>, name: string)
    ensures Resolve(summaries, name).Ok? ==> Resolve(summaries + more, name) == Resolve(summaries, name)
  {
    if Resolve(summaries, name).Err? {
      return;
    }
    var all := summaries + more;
    var i :| FirstEligibleAt(summaries, name, i) && summaries[i] == Resolve(summaries, name).value;
    assert all[i] == summaries[i];
    assert forall j :: 0 <= j < i ==> all[j] == summaries[j];
    assert FirstEligibleAt(all, name, i);
    assert all[i] in all;
    assert Resolve(all, name).Ok?;
    var k :| FirstEligibleAt(all, name, k) && all[k] == Resolve(all, name).value;
    FirstEligibleUnique(all, name, i, k);
  }

  /** The duplicate-name case: with the canonical entry and a Strawberry
      placeholder of the same name in the feed, in either order, the
      canonical entry is picked. */
  lemma PlaceholderNeverPicked(name: string, canonical: string, placeholder: string, id1: int, id2: int)
    requires !Contains(canonical, Strawberry) && Contains(placeholder, Strawberry)
    ensures Resolve([ChampionSummary(name, id1, canonical), ChampionSummary(name, id2, placeholder)], name)
         == Ok(ChampionSummary(name, id1, canonical))
    ensures Resolve([ChampionSummary(name, id2, placeholder), ChampionSummary(name, id1, canonical)], name)
         == Ok(ChampionSummary(name, id1, canonical))
  {
    var a := ChampionSummary(name, id1, canonical);
    var b := ChampionSummary(name, id2, placeholder);
    var r1 := Resolve([a, b], name);
    var i1 :| FirstEligibleAt([a, b], name, i1) && [a, b][i1] == r1.value;
    assert i1 == 0;
    var r2 := Resolve([b, a], name);
    assert Eligible([b, a][1], name);
    var i2 :| FirstEligibleAt([b, a], name, i2) && [b, a][i2] == r2.value;
    assert i2 == 1;
  }

  /** The placeholder test is a substring test: "Strawberry" anywhere in the
      alias excludes the entry. */
  lemma StrawberrySubstring(prefix: string, suffix: string)
    ensures Contains(prefix + Strawberry + suffix, Strawberry)
  {
    var s := prefix + Strawberry + suffix;
    assert OccursAt(s, Strawberry, |prefix|) by {
      assert s[|prefix|..|prefix| + |Strawberry|] == Strawberry;
    }
    ContainsIffOccurs(s, Strawberry);
  }
}
