/** The weather-description table of the dashboard: the `weathercode` field that
    Open-Meteo reports (a WMO weather-interpretation code) becomes a Spanish
    description. `get_weather_arica` in app.py writes it as a chain of `if code in [...]`
    statements, each overwriting the description chosen so far, starting from
    "Despejado". Here that chain is a table of rules folded left to right. */
module Weather {

  /** The `weathercode` read with `dict.get`: `None` when the reply lacks it. */
  datatype Option<T> = None | Some(value: T)

  /** The six descriptions the page can show for live weather. */
  datatype Sky = Clear | PartlyCloudy | Fog | Rain | Snow | Storm

  /** The Spanish text shown for each description. */
  function Text(sky: Sky): string {
    match sky
    case Clear => "Despejado"
    case PartlyCloudy => "Parcialmente nublado"
    case Fog => "Niebla"
    case Rain => "Lluvia"
    case Snow => "Nieve"
    case Storm => "Tormenta"
  }

  /** Different descriptions never share a text, so the text identifies it. */
  lemma TextInjective(a: Sky, b: Sky)
    ensures Text(a) == Text(b) ==> a == b
  {
  }

  /** One `if code in codes: desc = ...` statement of the chain. */
  datatype Rule = Rule(codes: set<int>, sky: Sky)

  /** The chain, in the order `get_weather_arica` checks it. */
  const Rules: seq<Rule> := [
    Rule({1, 2, 3}, PartlyCloudy),
    Rule({45, 48}, Fog),
    Rule({51, 53, 55, 61, 63, 65}, Rain),
    Rule({71, 73, 75, 77}, Snow),
    Rule({95, 96, 99}, Storm)
  ]

  /** `code in [...]`; a missing code is in no list. */
  predicate Matches(rule: Rule, code: Option<int>) {
    code.Some? && code.value in rule.codes
  }

  /** No code is claimed by two different rules of the table. */
  predicate Disjoint(rules: seq<Rule>) {
    forall i, j :: 0 <= i < j < |rules| ==> rules[i].codes !! rules[j].codes
  }

  /** Rule `i` matches the code and no later rule does, so it is the last
      one to overwrite the description. */
  predicate LastMatch(rules: seq<Rule>, code: Option<int>, i: int) {
    0 <= i < |rules| && Matches(rules[i], code) &&
    forall j :: i < j < |rules| ==> !Matches(rules[j], code)
  }

  /** Runs the chain: every matching rule replaces the description so far.
      The result is the starting description when nothing matches, and
      otherwise the description of the last matching rule. */
  function Overwrite(rules: seq<Rule>, code: Option<int>, desc: Sky): (r: Sky)
    ensures (forall i :: 0 <= i < |rules| ==> !Matches(rules[i], code)) ==> r == desc
    ensures forall i :: LastMatch(rules, code, i) ==> r == rules[i].sky
    decreases |rules|
  {
    if |rules| == 0 then desc
    else
      var tail := rules[1..];
      var next := if Matches(rules[0], code) then rules[0].sky else desc;
      var r := Overwrite(tail, code, next);
      assert forall i :: LastMatch(rules, code, i) ==> r == rules[i].sky by {
        forall i | LastMatch(rules, code, i)
          ensures r == rules[i].sky
        {
          if i == 0 {
            forall j | 0 <= j < |tail|
              ensures !Matches(tail[j], code)
            {
              assert tail[j] == rules[j + 1];
            }
          } else {
            assert tail[i - 1] == rules[i];
            assert LastMatch(tail, code, i - 1);
          }
        }
      }
      r
  }

  /** When some rule matches, some rule is the last one to match. */
  lemma {:induction false} LastMatchExists(rules: seq<Rule>, code: Option<int>, i: int)
    requires 0 <= i < |rules| && Matches(rules[i], code)
    ensures exists m :: LastMatch(rules, code, m)
    decreases |rules| - i
  {
    if j :| i < j < |rules| && Matches(rules[j], code) {
      LastMatchExists(rules, code, j);
    } else {
      assert LastMatch(rules, code, i);
    }
  }

  /** A chain in which some rule matches ends on the description of the last
      matching rule, never on the starting one. */
  lemma OverwriteDecidedByLastMatch(rules: seq<Rule>, code: Option<int>, desc: Sky)
    ensures (exists i :: 0 <= i < |rules| && Matches(rules[i], code)) ==>
      exists i :: 0 <= i < |rules| && Matches(rules[i], code) &&
        Overwrite(rules, code, desc) == rules[i].sky &&
        forall j :: i < j < |rules| ==> !Matches(rules[j], code)
  {
    if i :| 0 <= i < |rules| && Matches(rules[i], code) {
      LastMatchExists(rules, code, i);
      var m :| LastMatch(rules, code, m);
    }
  }

  /** The same table as one lookup that stops at the first list containing
      the code, rather than a chain that lets later matches overwrite. */
  function Lookup(code: Option<int>): Sky {
    if code.None? then Clear
    else if code.value in {1, 2, 3} then PartlyCloudy
    else if code.value in {45, 48} then Fog
    else if code.value in {51, 53, 55, 61, 63, 65} then Rain
    else if code.value in {71, 73, 75, 77} then Snow
    else if code.value in {95, 96, 99} then Storm
    else Clear
  }

  /** The overwrite chain of `get_weather_arica` and the first-match lookup
      agree on every code, a missing one included. */
  lemma ChainIsLookup(code: Option<int>)
    ensures Overwrite(Rules, code, Clear) == Lookup(code)
  {
    if code.Some? && code.value in {1, 2, 3} {
      RulesDisjoint();
      OverwriteDisjoint(Rules, code, Clear, 0);
    } else if code.Some? && code.value in {45, 48} {
      RulesDisjoint();
      OverwriteDisjoint(Rules, code, Clear, 1);
    } else if code.Some? && code.value in {51, 53, 55, 61, 63, 65} {
      RulesDisjoint();
      OverwriteDisjoint(Rules, code, Clear, 2);
    } else if code.Some? && code.value in {71, 73, 75, 77} {
      RulesDisjoint();
      OverwriteDisjoint(Rules, code, Clear, 3);
    } else if code.Some? && code.value in {95, 96, 99} {
      RulesDisjoint();
      OverwriteDisjoint(Rules, code, Clear, 4);
    } else {
      forall i | 0 <= i < |Rules|
        ensures !Matches(Rules[i], code)
      {
        assert i in {0, 1, 2, 3, 4};
      }
    }
  }

  /** The description `get_weather_arica` settles on for a code: the one
      the first-match lookup gives. */
  function Classify(code: Option<int>): (r: Sky)
    ensures r == Lookup(code)
  {
    ChainIsLookup(code);
    Overwrite(Rules, code, Clear)
  }

  /** The `descripcion` text `get_weather_arica` reports for a code. */
  function Describe(code: Option<int>): (r: string)
    ensures r in {"Despejado", "Parcialmente nublado", "Niebla", "Lluvia", "Nieve", "Tormenta"}
    ensures code.None? ==> r == "Despejado"
  {
    Text(Classify(code))
  }

  /** The five code lists of `get_weather_arica` share no code. */
  lemma RulesDisjoint()
    ensures Disjoint(Rules)
  {
  }

  /** In a disjoint table, the one rule that matches decides the result,
      wherever it stands in the chain. */
  lemma OverwriteDisjoint(rules: seq<Rule>, code: Option<int>, desc: Sky, i: nat)
    requires Disjoint(rules)
    requires i < |rules| && Matches(rules[i], code)
    ensures Overwrite(rules, code, desc) == rules[i].sky
  {
    assert LastMatch(rules, code, i);
  }

  /** Because the code sets are pairwise disjoint, the order in which the
      chain checks them does not matter: any reordering of the same rules
      gives the same description for every code. The reordering need not be
      assumed disjoint; that follows. */
  lemma OrderIrrelevant(rules: seq<Rule>, other: seq<Rule>, code: Option<int>, desc: Sky)
    requires Disjoint(rules)
    requires multiset(rules) == multiset(other)
    ensures Overwrite(rules, code, desc) == Overwrite(other, code, desc)
  {
    if i :| 0 <= i < |rules| && Matches(rules[i], code) {
      OverwriteDisjoint(rules, code, desc, i);
      assert rules[i] in multiset(other);
      var j :| 0 <= j < |other| && other[j] == rules[i];
      LastMatchExists(other, code, j);
      var m :| LastMatch(other, code, m);
      assert other[m] in multiset(rules);
      var k :| 0 <= k < |rules| && rules[k] == other[m];
      assert k == i;
    } else {
      forall j | 0 <= j < |other|
        ensures !Matches(other[j], code)
      {
        assert other[j] in multiset(rules);
      }
    }
  }


  /** Each class of codes, both ways: a code gets a description exactly when
      it is in that description's list. */
  lemma ClassifyPartlyCloudy(c: int)
    ensures Classify(Some(c)) == PartlyCloudy <==> c in {1, 2, 3}
  {
  }

  lemma ClassifyFog(c: int)
    ensures Classify(Some(c)) == Fog <==> c in {45, 48}
  {
  }

  lemma ClassifyRain(c: int)
    ensures Classify(Some(c)) == Rain <==> c in {51, 53, 55, 61, 63, 65}
  {
  }

  lemma ClassifySnow(c: int)
    ensures Classify(Some(c)) == Snow <==> c in {71, 73, 75, 77}
  {
  }

  lemma ClassifyStorm(c: int)
    ensures Classify(Some(c)) == Storm <==> c in {95, 96, 99}
  {
  }

  /** Every code in none of the lists, and only those, keeps "Despejado". */
  lemma ClassifyClear(c: int)
    ensures Classify(Some(c)) == Clear <==>
      c !in {1, 2, 3, 45, 48, 51, 53, 55, 61, 63, 65, 71, 73, 75, 77, 95, 96, 99}
  {
  }

  /** The texts themselves: a code is reported with a given text exactly
      when it is in that text's list, and a missing code or one in no list is
      reported as "Despejado". */
  lemma DescribeTexts(code: Option<int>)
    ensures Describe(code) == "Parcialmente nublado" <==> code.Some? && code.value in {1, 2, 3}
    ensures Describe(code) == "Niebla" <==> code.Some? && code.value in {45, 48}
    ensures Describe(code) == "Lluvia" <==> code.Some? && code.value in {51, 53, 55, 61, 63, 65}
    ensures Describe(code) == "Nieve" <==> code.Some? && code.value in {71, 73, 75, 77}
    ensures Describe(code) == "Tormenta" <==> code.Some? && code.value in {95, 96, 99}
    ensures Describe(code) == "Despejado" <==>
      code.None? || code.value !in {1, 2, 3, 45, 48, 51, 53, 55, 61, 63, 65, 71, 73, 75, 77, 95, 96, 99}
  {
    var sky := Classify(code);
    TextInjective(sky, PartlyCloudy);
    TextInjective(sky, Fog);
    TextInjective(sky, Rain);
    TextInjective(sky, Snow);
    TextInjective(sky, Storm);
    TextInjective(sky, Clear);
  }

  /** Codes the table does not list, such as freezing drizzle (56, 57) and
      rain showers (80 to 82), fall through to "Despejado". */
  lemma UnlistedCodesAreClear(c: int)
    requires c in {0, 56, 57, 80, 81, 82}
    ensures Classify(Some(c)) == Clear
  {
    ClassifyClear(c);
  }
}
