/**
 The rule table: mined association rules grouped by their antecedent.

 Each mined rule carries an antecedent set, a consequent set and its
 support, confidence and lift. The table maps the antecedent, written as an
 ascending tuple, to the list of rules sharing that antecedent, in the order
 the rules were mined.
 */
module RuleLookup {
  import opened Indices

  /** One row of the mined rule table. */
  datatype MinedRule = MinedRule(
    antecedent: set<nat>,
    consequent: set<nat>,
    support: real,
    confidence: real,
    lift: real)

  /** A rule as stored under its antecedent key. */
  datatype Rule = Rule(consequents: seq<nat>, support: real, confidence: real, lift: real)

  type Lookup = map<seq<nat>, seq<Rule>>

  /** The canonical key a mined rule is stored under. */
  function KeyOf(row: MinedRule): (k: seq<nat>)
    ensures Ascending(k)
    ensures forall x :: x in k <==> x in row.antecedent
  {
    SortSet(row.antecedent)
  }

  /** The stored form of a mined rule: its consequent as an ascending tuple and
      its three statistics unchanged. */
  function Stored(row: MinedRule): (r: Rule)
    ensures Ascending(r.consequents)
    ensures forall x :: x in r.consequents <==> x in row.consequent
    ensures r.support == row.support && r.confidence == row.confidence && r.lift == row.lift
  {
    Rule(SortSet(row.consequent), row.support, row.confidence, row.lift)
  }

  /** Appends one mined rule to the list under its key, creating the list on
      first use. */
  function AddRow(lookup: Lookup, row: MinedRule): (r: Lookup)
    ensures r.Keys == lookup.Keys + {KeyOf(row)}
    ensures r[KeyOf(row)] == (if KeyOf(row) in lookup then lookup[KeyOf(row)] else []) + [Stored(row)]
    ensures forall k :: k in lookup && k != KeyOf(row) ==> r[k] == lookup[k]
  {
    var key := KeyOf(row);
    var prior := if key in lookup then lookup[key] else [];
    lookup[key := prior + [Stored(row)]]
  }

  /** The rule table built from the mined rules, one row at a time in order:
      every key is canonical and holds a non-empty list of rules, each with
      canonical consequents. */
  function BuildLookup(rows: seq<MinedRule>): (lookup: Lookup)
    ensures forall k :: k in lookup ==> Ascending(k) && lookup[k] != []
    ensures forall k, r :: k in lookup && r in lookup[k] ==> Ascending(r.consequents)
    decreases |rows|
  {
    if rows == [] then map[]
    else AddRow(BuildLookup(rows[..|rows| - 1]), rows[|rows| - 1])
  }

  /** Reference grouping: the stored forms of the rows whose antecedent is
      exactly `a`, in input order. */
  function Group(rows: seq<MinedRule>, a: set<nat>): seq<Rule>
    decreases |rows|
  {
    if rows == [] then []
    else (if rows[0].antecedent == a then [Stored(rows[0])] else []) + Group(rows[1..], a)
  }

  lemma GroupCons(r: MinedRule, rest: seq<MinedRule>, a: set<nat>)
    ensures Group([r] + rest, a) == (if r.antecedent == a then [Stored(r)] else []) + Group(rest, a)
  {
    assert ([r] + rest)[1..] == rest;
  }

  lemma {:induction false} GroupSnoc(rows: seq<MinedRule>, row: MinedRule, a: set<nat>)
    ensures Group(rows + [row], a) == Group(rows, a) + (if row.antecedent == a then [Stored(row)] else [])
    decreases |rows|
  {
    var last := if row.antecedent == a then [Stored(row)] else [];
    if rows == [] {
      GroupCons(row, [], a);
      assert rows + [row] == [row] + [];
    } else {
      var head := if rows[0].antecedent == a then [Stored(rows[0])] else [];
      assert rows == [rows[0]] + rows[1..];
      assert rows + [row] == [rows[0]] + (rows[1..] + [row]);
      GroupCons(rows[0], rows[1..] + [row], a);
      GroupCons(rows[0], rows[1..], a);
      GroupSnoc(rows[1..], row, a);
      assert head + (Group(rows[1..], a) + last) == (head + Group(rows[1..], a)) + last;
    }
  }

  /** Keys are canonical and every stored list is non-empty with canonical
      consequents; the keys are exactly the sorted antecedents of the rows. */
  lemma BuildLookupWellFormed(rows: seq<MinedRule>)
    ensures forall k :: k in BuildLookup(rows) ==> Ascending(k) && BuildLookup(rows)[k] != []
    ensures forall k, r :: k in BuildLookup(rows) && r in BuildLookup(rows)[k] ==> Ascending(r.consequents)
    ensures BuildLookup(rows).Keys == set r | r in rows :: KeyOf(r)
  {
    BuildLookupKeys(rows);
  }

  lemma {:induction false} BuildLookupKeys(rows: seq<MinedRule>)
    ensures BuildLookup(rows).Keys == set r | r in rows :: KeyOf(r)
    decreases |rows|
  {
    if rows != [] {
      BuildLookupKeys(rows[..|rows| - 1]);
      assert BuildLookup(rows) == AddRow(BuildLookup(rows[..|rows| - 1]), rows[|rows| - 1]);
      KeysSnoc(rows);
    }
  }

  lemma KeysSnoc(rows: seq<MinedRule>)
    requires rows != []
    ensures (set r | r in rows :: KeyOf(r))
         == (set r | r in rows[..|rows| - 1] :: KeyOf(r)) + {KeyOf(rows[|rows| - 1])}
  {
    var init := rows[..|rows| - 1];
    var all := set r | r in rows :: KeyOf(r);
    var before := set r | r in init :: KeyOf(r);
    assert rows == init + [rows[|rows| - 1]];
    forall k | k in all
      ensures k in before + {KeyOf(rows[|rows| - 1])}
    {
      var r :| r in rows && KeyOf(r) == k;
    }
    assert rows[|rows| - 1] in rows;
  }

  /** Grouping by sorted antecedent: the list stored under the sorted form of
      `a` holds exactly the rows whose antecedent set is `a`, each once, in
      input order; the key is present exactly when there is such a row. */
  lemma {:induction false} BuildLookupGroups(rows: seq<MinedRule>, a: set<nat>)
    ensures SortSet(a) in BuildLookup(rows) <==> Group(rows, a) != []
    ensures SortSet(a) in BuildLookup(rows) ==> BuildLookup(rows)[SortSet(a)] == Group(rows, a)
    decreases |rows|
  {
    if rows != [] {
      var init := rows[..|rows| - 1];
      var last := rows[|rows| - 1];
      assert rows == init + [last];
      BuildLookupGroups(init, a);
      GroupSnoc(init, last, a);
      assert KeyOf(last) == SortSet(a) <==> last.antecedent == a by {
        SortSetCanonical(a, KeyOf(last));
      }
    }
  }

  /** Rules mined with non-empty antecedents never store anything under the
      empty tuple, the key an empty cart looks up. */
  lemma NoEmptyKey(rows: seq<MinedRule>)
    requires forall i :: 0 <= i < |rows| ==> rows[i].antecedent != {}
    ensures [] !in BuildLookup(rows)
  {
    BuildLookupWellFormed(rows);
    forall i | 0 <= i < |rows|
      ensures KeyOf(rows[i]) != []
    {
      assert |SortSet(rows[i].antecedent)| == |rows[i].antecedent| > 0;
    }
  }
}
