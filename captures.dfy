/**
 * `match` of route/Pattern.js and its accumulator `push2Result`: the groups
 * the compiled expression captured are stored under the names the compiler
 * listed, one capture as a single value and a repeated name as the list of
 * its captures in order. The expression itself is not run here; what it
 * captured is an input.
 */
module Captures {
  import opened Wrappers
  import Percent

  /** What the arguments object holds under a name: one capture, or all of a repeated name's captures. */
  datatype Entry = Single(value: Option<string>) | Multiple(values: seq<Option<string>>)

  /** The arguments object `match` returns. */
  type Args = map<string, Entry>

  /** The captures an entry holds, in order. */
  function Values(e: Entry): seq<Option<string>> {
    match e
    case Single(v) => [v]
    case Multiple(vs) => vs
  }

  /**
   * A captured string containing `%` is decoded; a group that did not take
   * part (None) stays undefined. The outer None is the URIError a malformed
   * escape throws.
   */
  function DecodeCapture(v: Option<string>): (r: Option<Option<string>>)
    ensures r.None? <==> v.Some? && Percent.Decode(v.value).None?
    ensures r.Some? ==> (r.value.Some? <==> v.Some?)
    ensures r.Some? && v.Some? ==> Percent.Decode(v.value) == Some(r.value.value)
  {
    match v
    case None => Some(None)
    case Some(s) =>
      if '%' in s then
        match Percent.Decode(s)
        case None => None
        case Some(t) => Some(Some(t))
      else Percent.DecodeWithoutPercent(s); Some(Some(s))
  }

  /**
   * `push2Result`: the first capture of a name is stored as it is, the
   * second turns the entry into a list of both, later ones are appended.
   * Nothing else changes. None when decoding throws.
   */
  function Push2Result(result: Args, name: string, value: Option<string>): (r: Option<Args>)
    ensures r.None? <==> DecodeCapture(value).None?
  {
    match DecodeCapture(value)
    case None => None
    case Some(v) =>
      if name in result then
        match result[name]
        case Multiple(vs) => Some(result[name := Multiple(vs + [v])])
        case Single(w) => Some(result[name := Multiple([w, v])])
      else Some(result[name := Single(v)])
  }

  /**
   * What `push2Result` stores: the name joins the keys, its captures grow
   * by the decoded value, it is a single value exactly when it is new, and
   * nothing else changes.
   */
  lemma Push2ResultShape(result: Args, name: string, value: Option<string>)
    requires Push2Result(result, name, value).Some?
    ensures var r := Push2Result(result, name, value).value;
      r.Keys == result.Keys + {name}
      && (forall n | n in result && n != name :: r[n] == result[n])
      && Values(r[name]) == (if name in result then Values(result[name]) else []) + [DecodeCapture(value).value]
      && (r[name].Single? <==> name !in result)
  {
  }

  /** `match[i]`: past the end of the array it is undefined. */
  function Group(groups: seq<Option<string>>, i: nat): Option<string> {
    if i < |groups| then groups[i] else None
  }

  /**
   * The arguments after the first k names: `push2Result` of name j with
   * group j + 1, in turn. The keys collected are exactly the names listed.
   */
  function CollectFirst(names: seq<string>, groups: seq<Option<string>>, k: nat): (r: Option<Args>)
    requires k <= |names|
    ensures r.Some? ==> r.value.Keys == Listed(names, k)
  {
    if k == 0 then Some(map[])
    else
      match CollectFirst(names, groups, k - 1)
      case None => None
      case Some(r) => Push2Result(r, names[k - 1], Group(groups, k))
  }

  /** Once a capture has thrown, the collection stays failed. */
  lemma {:induction false} CollectStaysFailed(names: seq<string>, groups: seq<Option<string>>, j: nat, k: nat)
    requires j <= k <= |names| && CollectFirst(names, groups, j).None?
    ensures CollectFirst(names, groups, k).None?
    decreases k
  {
    if k > j {
      CollectStaysFailed(names, groups, j, k - 1);
    }
  }

  /** What `match` returns: null when the expression does not match, or the arguments; or it throws URIError. */
  datatype MatchOutcome = NoMatch | Matched(args: Args) | UriError

  /**
   * `match`, given what the expression captured (`None` when it did not
   * match; element 0 is the whole match, element i + 1 the group of name i).
   */
  method Match(names: seq<string>, exec: Option<seq<Option<string>>>) returns (r: MatchOutcome)
    ensures exec.None? ==> r == NoMatch
    ensures exec.Some? ==> r != NoMatch
    ensures exec.Some? && r.Matched? ==> CollectFirst(names, exec.value, |names|) == Some(r.args)
    ensures exec.Some? && r.UriError? ==> CollectFirst(names, exec.value, |names|).None?
  {
    if exec.None? {
      return NoMatch;
    }
    var groups := exec.value;
    var result: Args := map[];
    var i := 0;
    while i < |names|
      invariant i <= |names|
      invariant CollectFirst(names, groups, i) == Some(result)
    {
      var next := Push2Result(result, names[i], Group(groups, i + 1));
      if next.None? {
        CollectStaysFailed(names, groups, i + 1, |names|);
        return UriError;
      }
      result := next.value;
      i := i + 1;
    }
    return Matched(result);
  }

  /** The decoded captures of the groups named `name` among the first k names, in order. */
  function Picks(names: seq<string>, groups: seq<Option<string>>, k: nat, name: string): seq<Option<string>>
    requires k <= |names|
  {
    if k == 0 then []
    else Picks(names, groups, k - 1, name) + (if names[k - 1] == name then [DecodedOr(Group(groups, k))] else [])
  }

  /** The decoded capture, or the capture itself where decoding throws. */
  function DecodedOr(v: Option<string>): Option<string> {
    match DecodeCapture(v)
    case Some(d) => d
    case None => v
  }

  /** The first k names, as a set. */
  function Listed(names: seq<string>, k: nat): set<string>
    requires k <= |names|
  {
    if k == 0 then {} else Listed(names, k - 1) + {names[k - 1]}
  }

  /** Some capture among the first k names does not decode. */
  predicate SomeUndecodable(groups: seq<Option<string>>, k: nat) {
    exists j | 1 <= j <= k :: DecodeCapture(Group(groups, j)).None?
  }

  /** `match` throws exactly when one of the captures does not decode. */
  lemma {:induction false} CollectFails(names: seq<string>, groups: seq<Option<string>>, k: nat)
    requires k <= |names|
    ensures CollectFirst(names, groups, k).None? <==> SomeUndecodable(groups, k)
  {
    if k > 0 {
      CollectFails(names, groups, k - 1);
      if SomeUndecodable(groups, k - 1) {
        var j :| 1 <= j <= k - 1 && DecodeCapture(Group(groups, j)).None?;
        assert 1 <= j <= k;
      }
      if SomeUndecodable(groups, k) && !SomeUndecodable(groups, k - 1) {
        var j :| 1 <= j <= k && DecodeCapture(Group(groups, j)).None?;
        assert j == k;
      }
    }
  }

  lemma CollectStep(names: seq<string>, groups: seq<Option<string>>, k: nat)
    requires 0 < k <= |names| && CollectFirst(names, groups, k).Some?
    ensures CollectFirst(names, groups, k - 1).Some?
    ensures CollectFirst(names, groups, k) == Push2Result(CollectFirst(names, groups, k - 1).value, names[k - 1], Group(groups, k))
    ensures var r, prev := CollectFirst(names, groups, k).value, CollectFirst(names, groups, k - 1).value;
      r.Keys == prev.Keys + {names[k - 1]}
      && (forall n | n in prev && n != names[k - 1] :: r[n] == prev[n])
      && Values(r[names[k - 1]]) == (if names[k - 1] in prev then Values(prev[names[k - 1]]) else []) + [DecodeCapture(Group(groups, k)).value]
      && (r[names[k - 1]].Single? <==> names[k - 1] !in prev)
  {
    Push2ResultShape(CollectFirst(names, groups, k - 1).value, names[k - 1], Group(groups, k));
  }

  /** Under each collected name: its captures in order, decoded. */
  lemma CollectValues(names: seq<string>, groups: seq<Option<string>>, k: nat)
    requires k <= |names| && CollectFirst(names, groups, k).Some?
    ensures var r := CollectFirst(names, groups, k).value;
      forall n | n in r :: Values(r[n]) == Picks(names, groups, k, n)
  {
    var r := CollectFirst(names, groups, k).value;
    forall n | n in r ensures Values(r[n]) == Picks(names, groups, k, n) {
      CollectValue(names, groups, k, n);
    }
  }

  lemma {:induction false} CollectValue(names: seq<string>, groups: seq<Option<string>>, k: nat, n: string)
    requires k <= |names| && CollectFirst(names, groups, k).Some? && n in CollectFirst(names, groups, k).value
    ensures Values(CollectFirst(names, groups, k).value[n]) == Picks(names, groups, k, n)
  {
    if k > 0 {
      CollectStep(names, groups, k);
      var prev := CollectFirst(names, groups, k - 1).value;
      if n in prev {
        CollectValue(names, groups, k - 1, n);
      } else {
        PicksAbsent(names, groups, k - 1, n);
      }
    }
  }

  /** A collected name holds a single value exactly when it is listed once. */
  lemma {:induction false} CollectSingles(names: seq<string>, groups: seq<Option<string>>, k: nat)
    requires k <= |names| && CollectFirst(names, groups, k).Some?
    ensures var r := CollectFirst(names, groups, k).value;
      forall n | n in r :: r[n].Single? <==> |Picks(names, groups, k, n)| == 1
  {
    CollectValues(names, groups, k);
    var r := CollectFirst(names, groups, k).value;
    forall n | n in r ensures r[n].Single? <==> |Picks(names, groups, k, n)| == 1 {
      EntryShape(names, groups, k, n);
    }
  }

  /** A collected list always holds at least two captures. */
  lemma {:induction false} EntryShape(names: seq<string>, groups: seq<Option<string>>, k: nat, n: string)
    requires k <= |names| && CollectFirst(names, groups, k).Some? && n in CollectFirst(names, groups, k).value
    ensures CollectFirst(names, groups, k).value[n].Multiple? ==> |Values(CollectFirst(names, groups, k).value[n])| >= 2
  {
    if k > 0 {
      CollectStep(names, groups, k);
      var prev := CollectFirst(names, groups, k - 1).value;
      if n in prev {
        EntryShape(names, groups, k - 1, n);
      }
    }
  }

  /** A name that is not among the first k has no captures there. */
  lemma {:induction false} PicksAbsent(names: seq<string>, groups: seq<Option<string>>, k: nat, name: string)
    requires k <= |names| && name !in Listed(names, k)
    ensures Picks(names, groups, k, name) == []
  {
    if k > 0 {
      PicksAbsent(names, groups, k - 1, name);
    }
  }

  lemma {:induction false} ListedAll(names: seq<string>, k: nat)
    requires k <= |names|
    ensures Listed(names, k) == set n | n in names[..k]
  {
    if k > 0 {
      ListedAll(names, k - 1);
      assert names[..k] == names[..k - 1] + [names[k - 1]];
    }
  }

  lemma {:induction false} PicksCount(names: seq<string>, groups: seq<Option<string>>, k: nat, name: string)
    requires k <= |names|
    ensures |Picks(names, groups, k, name)| == multiset(names[..k])[name]
  {
    if k > 0 {
      PicksCount(names, groups, k - 1, name);
      assert names[..k] == names[..k - 1] + [names[k - 1]];
    }
  }

  /**
   * The arguments of a successful `match`: exactly the listed names are
   * keys; under each, its captures in order, decoded; a single value
   * exactly when the name is listed once.
   */
  lemma MatchShape(names: seq<string>, groups: seq<Option<string>>)
    requires CollectFirst(names, groups, |names|).Some?
    ensures var r := CollectFirst(names, groups, |names|).value;
      r.Keys == (set n | n in names)
      && (forall n | n in r :: Values(r[n]) == Picks(names, groups, |names|, n))
      && (forall n | n in r :: r[n].Single? <==> multiset(names)[n] == 1)
  {
    CollectValues(names, groups, |names|);
    CollectSingles(names, groups, |names|);
    ListedAll(names, |names|);
    assert names[..|names|] == names;
    forall n {
      PicksCount(names, groups, |names|, n);
    }
  }
}
