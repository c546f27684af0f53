/**
 * The rule registry of core/matcher.js: rule names in insertion order
 * (`order`) and the rules by name (`index`). Adding a rule under a name that
 * is already registered moves the name to the end and replaces its rule.
 * The Rule class is not part of this model: a rule is its source string and
 * data, and testing a rule against a URL is a function the caller supplies.
 * The generated id is a parameter.
 */
module Registry {
  import opened Wrappers

  /** A registered rule: the string it was made from and its `data` object. */
  datatype Rule = Rule(source: string, data: map<string, string>)

  /** One entry of `match`'s result. */
  datatype Hit<A> = Hit(args: A, name: string)

  /** `s` with every occurrence of `x` removed, the rest in order. */
  function Without(s: seq<string>, x: string): (r: seq<string>)
    ensures |r| <= |s|
  {
    if s == [] then []
    else (if s[0] == x then [] else [s[0]]) + Without(s[1..], x)
  }

  /** Removing `x` removes it and nothing else; without `x` there is nothing to remove. */
  lemma {:induction false} WithoutMembers(s: seq<string>, x: string)
    ensures forall y :: y in Without(s, x) <==> y in s && y != x
    ensures x !in s ==> Without(s, x) == s
  {
    if s != [] {
      WithoutMembers(s[1..], x);
      assert s == [s[0]] + s[1..];
    }
  }

  /** `a` is `b` with some elements left out. */
  predicate Subsequence(a: seq<string>, b: seq<string>)
    decreases |b|
  {
    if a == [] then true
    else if b == [] then false
    else (a[0] == b[0] && Subsequence(a[1..], b[1..])) || Subsequence(a, b[1..])
  }

  predicate NoDuplicates(s: seq<string>) {
    forall i, j | 0 <= i < j < |s| :: s[i] != s[j]
  }

  /** Removing a name keeps every other name, in the same relative order. */
  lemma {:induction false} WithoutIsSubsequence(s: seq<string>, x: string)
    ensures Subsequence(Without(s, x), s)
    decreases |s|
  {
    if s != [] {
      WithoutIsSubsequence(s[1..], x);
      var r := Without(s, x);
      if s[0] != x {
        assert r[0] == s[0] && r[1..] == Without(s[1..], x);
      } else {
        assert r == Without(s[1..], x);
        if r != [] {
          SubsequenceOfTail(r, s);
        }
      }
    }
  }

  lemma SubsequenceOfTail(a: seq<string>, b: seq<string>)
    requires b != [] && Subsequence(a, b[1..])
    ensures Subsequence(a, b)
  {
  }

  lemma {:induction false} WithoutNoDuplicates(s: seq<string>, x: string)
    requires NoDuplicates(s)
    ensures NoDuplicates(Without(s, x))
    decreases |s|
  {
    if s != [] {
      NoDuplicatesTail(s);
      WithoutNoDuplicates(s[1..], x);
      WithoutMembers(s[1..], x);
      if s[0] != x {
        NoDuplicatesCons(s[0], Without(s[1..], x));
      } else {
        assert Without(s, x) == [] + Without(s[1..], x);
      }
    }
  }

  lemma NoDuplicatesTail(s: seq<string>)
    requires s != [] && NoDuplicates(s)
    ensures NoDuplicates(s[1..]) && s[0] !in s[1..]
  {
    forall i, j | 0 <= i < j < |s[1..]| ensures s[1..][i] != s[1..][j] {
      assert s[1..][i] == s[i + 1] && s[1..][j] == s[j + 1];
    }
  }

  lemma NoDuplicatesCons(a: string, rest: seq<string>)
    requires a !in rest && NoDuplicates(rest)
    ensures NoDuplicates([a] + rest)
  {
    var r := [a] + rest;
    forall i, j | 0 <= i < j < |r| ensures r[i] != r[j] {
      assert r[j] == rest[j - 1];
      if i > 0 {
        assert r[i] == rest[i - 1];
      }
    }
  }

  /** Whether a rule matches a URL, with its arguments when it does. */
  type Test<!A> = (Rule, string) -> Option<A>

  /** The hits among the rules named in `names`, in that order. */
  function Hits<A>(names: seq<string>, index: map<string, Rule>, url: string, test: Test<A>): (r: seq<Hit<A>>)
    requires forall n | n in names :: n in index
    ensures |r| <= |names|
    ensures forall h | h in r :: h.name in names
  {
    if names == [] then []
    else
      var rest := Hits(names[1..], index, url, test);
      match test(index[names[0]], url)
      case None => rest
      case Some(args) => [Hit(args, names[0])] + rest
  }

  /** `Hits` unrolled once at position i. */
  lemma HitsStep<A>(names: seq<string>, i: nat, index: map<string, Rule>, url: string, test: Test<A>)
    requires i < |names| && forall n | n in names :: n in index
    ensures forall n | n in names[i..] :: n in index
    ensures forall n | n in names[i + 1..] :: n in index
    ensures Hits(names[i..], index, url, test) ==
      (if test(index[names[i]], url).Some? then [Hit(test(index[names[i]], url).value, names[i])] else [])
      + Hits(names[i + 1..], index, url, test)
  {
    assert names[i..][0] == names[i] && names[i..][1..] == names[i + 1..];
  }

  /** The loop of `match`: each name in turn, its rule tested against the URL. */
  method CollectHits<A>(names: seq<string>, rules: map<string, Rule>, url: string, test: Test<A>) returns (result: seq<Hit<A>>)
    requires forall n | n in names :: n in rules
    ensures result == Hits(names, rules, url, test)
  {
    result := [];
    var i := 0;
    while i < |names|
      invariant i <= |names|
      invariant result + Hits(names[i..], rules, url, test) == Hits(names, rules, url, test)
    {
      HitsStep(names, i, rules, url, test);
      var name := names[i];
      var args := test(rules[name], url);
      if args.Some? {
        result := result + [Hit(args.value, name)];
      }
      i := i + 1;
    }
    assert names[i..] == [];
  }

  function HitNames<A>(hits: seq<Hit<A>>): (r: seq<string>)
    ensures |r| == |hits|
    ensures forall k | 0 <= k < |hits| :: r[k] == hits[k].name
  {
    if hits == [] then [] else [hits[0].name] + HitNames(hits[1..])
  }

  /**
   * `match` collects every rule that matches, not only the first: a hit for
   * each name whose rule matches, with that rule's arguments, and the names
   * in registry order.
   */
  lemma {:induction false} HitsShape<A>(names: seq<string>, index: map<string, Rule>, url: string, test: Test<A>)
    requires forall n | n in names :: n in index
    ensures var hits := Hits(names, index, url, test);
      Subsequence(HitNames(hits), names)
      && (forall k | 0 <= k < |hits| :: test(index[hits[k].name], url) == Some(hits[k].args))
      && (forall n | n in names && test(index[n], url).Some? :: n in HitNames(hits))
  {
    if names != [] {
      HitsShape(names[1..], index, url, test);
      var rest := Hits(names[1..], index, url, test);
      var hits := Hits(names, index, url, test);
      if test(index[names[0]], url).Some? {
        assert HitNames(hits) == [names[0]] + HitNames(rest);
        assert HitNames(hits)[1..] == HitNames(rest);
      } else {
        assert hits == rest;
        if HitNames(rest) != [] {
          SubsequenceOfTail(HitNames(rest), names);
        }
      }
    }
  }

  /** The name a rule is registered under: `ruleData.name`, or the generated id. */
  function RuleName(ruleData: map<string, string>, freshId: string): (r: string)
    ensures "name" in ruleData ==> r == ruleData["name"]
    ensures "name" !in ruleData ==> r == freshId
  {
    (map["name" := freshId] + ruleData)["name"]
  }

  class Matcher {
    var order: seq<string>
    var index: map<string, Rule>

    /** No name is listed twice, and exactly the listed names have rules. */
    ghost predicate Valid()
      reads this
    {
      NoDuplicates(order) && (forall n :: n in order <==> n in index)
    }

    constructor ()
      ensures Valid() && order == [] && index == map[]
    {
      order := [];
      index := map[];
    }

    /**
     * `addRule`: the rule's data is `{name: freshId}` overridden by the own
     * fields of `ruleData`; earlier occurrences of its name leave `order`,
     * the name is appended, and its rule is replaced. Returns the matcher.
     */
    method AddRule(ruleString: string, ruleData: map<string, string>, freshId: string) returns (self: Matcher)
      requires Valid()
      modifies this
      ensures Valid() && self == this
      ensures var name := RuleName(ruleData, freshId);
        order == Without(old(order), name) + [name]
        && index == old(index)[name := Rule(ruleString, map["name" := freshId] + ruleData)]
    {
      var data := map["name" := freshId] + ruleData;
      var rule := Rule(ruleString, data);
      var name := data["name"];
      var before := order;
      var i := |order| - 1;
      while i >= 0
        invariant -1 <= i < |before|
        invariant order == before[..i + 1] + Without(before[i + 1..], name)
        invariant index == old(index) && before == old(order)
      {
        SpliceStep(before, order, i, name);
        if order[i] == name {
          order := order[..i] + order[i + 1..];
        }
        i := i - 1;
      }
      assert before[..0] + Without(before[0..], name) == Without(before, name);
      assert name == RuleName(ruleData, freshId);
      AddedValid(before, index, name, rule);
      index := index[name := rule];
      order := order + [name];
      return this;
    }

    /** `getRule`: the rule registered under `name`, if any. */
    function GetRule(name: string): (r: Option<Rule>)
      reads this
      ensures r.Some? <==> name in index
      ensures r.Some? ==> r.value == index[name]
    {
      if name in index then Some(index[name]) else None
    }

    /** `match`: every rule in registry order is tried, and each one that matches gives a hit. */
    method Match<A>(url: string, test: Test<A>) returns (result: seq<Hit<A>>)
      requires Valid()
      ensures result == Hits(order, index, url, test)
    {
      result := CollectHits(order, index, url, test);
    }
  }

  /** One step of `addRule`'s backward loop, at position i. */
  lemma SpliceStep(s: seq<string>, o: seq<string>, i: int, x: string)
    requires 0 <= i < |s| && o == s[..i + 1] + Without(s[i + 1..], x)
    ensures i < |o| && o[i] == s[i]
    ensures s[i] == x ==> o[..i] + o[i + 1..] == s[..i] + Without(s[i..], x)
    ensures s[i] != x ==> o == s[..i] + Without(s[i..], x)
  {
    var w := Without(s[i + 1..], x);
    WithoutAt(s, i, x);
    assert s[..i + 1] == s[..i] + [s[i]];
    assert o[..i] == s[..i] && o[i] == s[i] && o[i + 1..] == w;
  }

  /** `Without` unrolled once at position i. */
  lemma WithoutAt(s: seq<string>, i: int, x: string)
    requires 0 <= i < |s|
    ensures Without(s[i..], x) == (if s[i] == x then [] else [s[i]]) + Without(s[i + 1..], x)
  {
    assert s[i..][0] == s[i] && s[i..][1..] == s[i + 1..];
  }

  /** Appending a name after removing it keeps the registry valid. */
  lemma AddedValid(before: seq<string>, index: map<string, Rule>, name: string, rule: Rule)
    requires NoDuplicates(before) && forall n :: n in before <==> n in index
    ensures NoDuplicates(Without(before, name) + [name])
    ensures forall n :: n in Without(before, name) + [name] <==> n in index[name := rule]
  {
    WithoutNoDuplicates(before, name);
    WithoutMembers(before, name);
    var w := Without(before, name);
    var after := w + [name];
    forall i, j | 0 <= i < j < |after| ensures after[i] != after[j] {
      if j == |w| {
        assert after[i] == w[i] && after[i] in w;
      } else {
        assert after[i] == w[i] && after[j] == w[j];
      }
    }
  }

  /**
   * After `addRule`, its name is the last one and occurs once, every other
   * name stays registered, and the other names keep their relative order.
   */
  lemma AddRuleOrder(before: seq<string>, name: string)
    ensures var after := Without(before, name) + [name];
      after[|after| - 1] == name
      && (forall i | 0 <= i < |after| - 1 :: after[i] != name)
      && (forall n | n in before :: n in after)
      && Subsequence(Without(before, name), before)
  {
    WithoutIsSubsequence(before, name);
    WithoutMembers(before, name);
  }

  lemma ReAddSteps()
    ensures RuleName(map["name" := "A"], "id1") == "A" && RuleName(map["name" := "B"], "id2") == "B"
    ensures RuleName(map["name" := "A"], "id3") == "A"
    ensures Without([], "A") + ["A"] == ["A"]
    ensures Without(["A"], "B") + ["B"] == ["A", "B"]
    ensures Without(["A", "B"], "A") + ["A"] == ["B", "A"]
    ensures map["name" := "id3"] + map["name" := "A"] == map["name" := "A"]
  {
    assert Without(["A"], "B") == ["A"];
    assert Without(["A", "B"], "A") == ["B"];
  }

  /** Registering A, then B, then A again leaves B first and A last. */
  method ReAddExample() returns (names: seq<string>, rule: Option<Rule>)
    ensures names == ["B", "A"]
    ensures rule == Some(Rule("/a2", map["name" := "A"]))
  {
    ReAddSteps();
    var m := new Matcher();
    var _ := m.AddRule("/a", map["name" := "A"], "id1");
    var _ := m.AddRule("/b", map["name" := "B"], "id2");
    var _ := m.AddRule("/a2", map["name" := "A"], "id3");
    names := m.order;
    rule := m.GetRule("A");
  }
}
