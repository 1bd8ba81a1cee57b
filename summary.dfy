/**
 * The summary at the end of `importLVPositionen`: the number of positions
 * per main group (`hauptgruppe`), a missing or empty group counted under
 * "Unbekannt".
 */
module Summary {
  import opened Wrappers
  import opened Positions

  /** The group of positions without a main group. */
  const UnknownGroup: string := "Unbekannt"

  /** `pos.hauptgruppe || 'Unbekannt'`. */
  function GroupKey(pos: Position): string
  {
    OrText(pos.hauptgruppe, UnknownGroup)
  }

  /** The key is the main group when there is one, and "Unbekannt" exactly when there is none. */
  lemma GroupKeyCases(pos: Position)
    ensures pos.hauptgruppe.Some? && pos.hauptgruppe.value != "" ==> GroupKey(pos) == pos.hauptgruppe.value
    ensures pos.hauptgruppe.None? || pos.hauptgruppe.value == "" ==> GroupKey(pos) == UnknownGroup
    ensures GroupKey(pos) != ""
  {
  }

  /** Reference count: how many of `ps` fall into group `g`. */
  function Count(ps: seq<Position>, g: string): (n: nat)
    ensures n <= |ps|
  {
    if ps == [] then 0
    else Count(ps[..|ps| - 1], g) + (if GroupKey(ps[|ps| - 1]) == g then 1 else 0)
  }

  /** The object `gruppen` after the summary loop has read `ps`: `gruppen[hg] = (gruppen[hg] || 0) + 1`. */
  function Tally(ps: seq<Position>): map<string, nat>
  {
    if ps == [] then map[]
    else
      var m := Tally(ps[..|ps| - 1]);
      var g := GroupKey(ps[|ps| - 1]);
      m[g := (if g in m then m[g] else 0) + 1]
  }

  /**
   * The tally holds exactly the groups that occur, each with its number of
   * positions; no group has a count of zero.
   */
  lemma {:induction false} TallyCounts(ps: seq<Position>)
    ensures forall g :: g in Tally(ps) <==> Count(ps, g) > 0
    ensures forall g :: g in Tally(ps) ==> Tally(ps)[g] == Count(ps, g)
  {
    if ps != [] {
      TallyCounts(ps[..|ps| - 1]);
    }
  }

  /** A group is in the tally exactly when some position has that key. */
  lemma {:induction false} TallyKeys(ps: seq<Position>)
    ensures forall g :: g in Tally(ps) <==> exists i :: 0 <= i < |ps| && GroupKey(ps[i]) == g
  {
    if ps != [] {
      var front := ps[..|ps| - 1];
      TallyKeys(front);
      forall g | g in Tally(ps)
        ensures exists i :: 0 <= i < |ps| && GroupKey(ps[i]) == g
      {
        if g != GroupKey(ps[|ps| - 1]) {
          assert g in Tally(front);
          var i :| 0 <= i < |front| && GroupKey(front[i]) == g;
          assert ps[i] == front[i];
        }
      }
      forall g | exists i :: 0 <= i < |ps| && GroupKey(ps[i]) == g
        ensures g in Tally(ps)
      {
        var i :| 0 <= i < |ps| && GroupKey(ps[i]) == g;
        if i < |front| {
          assert front[i] == ps[i];
        }
      }
    }
  }

  /** Sum of the values of a map. */
  ghost function SumValues(m: map<string, nat>): nat
    decreases |m|
  {
    if m == map[] then 0
    else
      var k :| k in m;
      m[k] + SumValues(m - {k})
  }

  /** Any key can be taken out first. */
  lemma SumValuesRemove(m: map<string, nat>, k: string)
    requires k in m
    ensures SumValues(m) == m[k] + SumValues(m - {k})
    decreases |m|
  {
    var j :| j in m && SumValues(m) == m[j] + SumValues(m - {j});
    if j != k {
      SumValuesRemove(m - {j}, k);
      SumValuesRemove(m - {k}, j);
      assert m - {j} - {k} == m - {k} - {j};
    }
  }

  /** Updating one value changes the sum by the difference. */
  lemma SumValuesUpdate(m: map<string, nat>, k: string, v: nat)
    ensures SumValues(m[k := v]) + (if k in m then m[k] else 0) == SumValues(m) + v
  {
    SumValuesRemove(m[k := v], k);
    if k in m {
      SumValuesRemove(m, k);
      assert m[k := v] - {k} == m - {k};
    } else {
      assert m[k := v] - {k} == m;
    }
  }

  /** Every position is counted once: the counts add up to the number of positions. */
  lemma {:induction false} TallyTotal(ps: seq<Position>)
    ensures SumValues(Tally(ps)) == |ps|
  {
    if ps != [] {
      var m := Tally(ps[..|ps| - 1]);
      var g := GroupKey(ps[|ps| - 1]);
      TallyTotal(ps[..|ps| - 1]);
      SumValuesUpdate(m, g, (if g in m then m[g] else 0) + 1);
    }
  }

  /** The summary loop over all positions. */
  method Summarize(positionen: seq<Position>) returns (gruppen: map<string, nat>)
    ensures gruppen == Tally(positionen)
    ensures forall g :: g in gruppen <==> Count(positionen, g) > 0
    ensures forall g :: g in gruppen ==> gruppen[g] == Count(positionen, g)
  {
    gruppen := map[];
    for i := 0 to |positionen|
      invariant gruppen == Tally(positionen[..i])
    {
      var hg := GroupKey(positionen[i]);
      gruppen := gruppen[hg := (if hg in gruppen then gruppen[hg] else 0) + 1];
      assert positionen[..i + 1][..i] == positionen[..i];
    }
    assert positionen[..|positionen|] == positionen;
    TallyCounts(positionen);
  }

  /** Two positions of one group and one without a group. */
  lemma TallyExample(a: Position, b: Position, c: Position)
    requires a.hauptgruppe == Some("Heizung") && b.hauptgruppe == Some("Heizung")
    requires c.hauptgruppe.None?
    ensures Tally([a, b, c]) == map["Heizung" := 2, UnknownGroup := 1]
  {
    assert [a, b, c][..2] == [a, b];
    assert [a, b][..1] == [a];
    assert [a][..0] == [];
    assert Tally([a]) == map["Heizung" := 1];
    assert Tally([a, b]) == map["Heizung" := 2];
    assert GroupKey(c) == UnknownGroup;
  }
}
