/** Replacing the managed rule in a route list (deploy/add-google-stable-route.py, `is_managed` and `main`). */
module RouteRules {
  import opened Bytes

  /** The keys of a rule the script looks at; `rest` stands for everything else in it. */
  datatype Rule = Rule(
    domainSuffix: Option<seq<string>>, action: Option<string>, outbound: Option<string>,
    network: Option<string>, ipCidr: seq<string>, rest: seq<string>)

  const DOMAINS: seq<string> := ["google.com", "googleapis.com", "gstatic.com", "googleusercontent.com", "ggpht.com"]

  predicate IsManaged(r: Rule) {
    r.domainSuffix == Some(DOMAINS) && r.action == Some("route") && r.outbound == Some("direct")
  }

  predicate IsTcp(r: Rule) { r.network == Some("tcp") }

  function BuildRule(ranges: seq<string>): (r: Rule)
    ensures IsManaged(r) && !IsTcp(r)
  {
    Rule(Some(DOMAINS), Some("route"), Some("direct"), None, ranges, [])
  }

  function Unmanaged(rules: seq<Rule>): seq<Rule> {
    if rules == [] then []
    else Unmanaged(rules[..|rules| - 1]) + (if IsManaged(rules[|rules| - 1]) then [] else [rules[|rules| - 1]])
  }

  /** `rule` is in `rules` at `position`, and that is where the script puts it. */
  ghost predicate PlacedAt(rules: seq<Rule>, rule: Rule, position: nat) {
    && position < |rules| && rules[position] == rule
    && (forall i :: 0 <= i < |rules| && i != position ==> !IsManaged(rules[i]))
    && (forall i :: 0 <= i < position ==> !IsTcp(rules[i]))
    && (position + 1 < |rules| ==> IsTcp(rules[position + 1]))
  }

  method Keep(rules: seq<Rule>) returns (kept: seq<Rule>)
    ensures kept == Unmanaged(rules) && forall j :: 0 <= j < |kept| ==> !IsManaged(kept[j])
  {
    kept := [];
    for i := 0 to |rules|
      invariant kept == Unmanaged(rules[..i])
      invariant forall j :: 0 <= j < |kept| ==> !IsManaged(kept[j])
    {
      assert rules[..i + 1][..i] == rules[..i];
      if !IsManaged(rules[i]) { kept := kept + [rules[i]]; }
    }
    assert rules[..|rules|] == rules;
  }

  method FirstTcp(kept: seq<Rule>) returns (position: nat)
    ensures position <= |kept| && (position < |kept| ==> IsTcp(kept[position]))
    ensures forall j :: 0 <= j < position ==> !IsTcp(kept[j])
  {
    position := 0;
    while position < |kept| && !IsTcp(kept[position])
      invariant position <= |kept|
      invariant forall j :: 0 <= j < position ==> !IsTcp(kept[j])
    {
      position := position + 1;
    }
  }

  lemma UnmanagedOne(rule: Rule)
    requires IsManaged(rule)
    ensures Unmanaged([rule]) == []
  {
    assert Unmanaged([rule]) == Unmanaged([]) + [];
  }

  lemma Inserted(kept: seq<Rule>, position: nat, rule: Rule)
    requires position <= |kept| && IsManaged(rule) && forall j :: 0 <= j < |kept| ==> !IsManaged(kept[j])
    ensures Unmanaged(kept[..position] + [rule] + kept[position..]) == kept
  {
    hide Unmanaged, IsManaged;
    UnmanagedAppend(kept[..position] + [rule], kept[position..]);
    UnmanagedAppend(kept[..position], [rule]);
    UnmanagedSame(kept[..position]);
    UnmanagedSame(kept[position..]);
    UnmanagedOne(rule);
    assert kept == kept[..position] + kept[position..];
  }

  /**
   * The edit of `main`: the managed rule is there once, right before the first TCP rule or at
   * the end, and the other rules are as they were.
   */
  method Replace(rules: seq<Rule>, ranges: seq<string>) returns (updated: seq<Rule>, position: nat)
    ensures PlacedAt(updated, BuildRule(ranges), position)
    ensures Unmanaged(updated) == Unmanaged(rules)
  {
    hide Unmanaged, IsManaged;
    var kept := Keep(rules);
    position := FirstTcp(kept);
    updated := kept[..position] + [BuildRule(ranges)] + kept[position..];
    Inserted(kept, position, BuildRule(ranges));
  }

  lemma {:induction false} UnmanagedAppend(a: seq<Rule>, b: seq<Rule>)
    ensures Unmanaged(a + b) == Unmanaged(a) + Unmanaged(b)
  {
    if b == [] {
      assert a + b == a;
    } else {
      assert (a + b)[..|a| + |b| - 1] == a + b[..|b| - 1];
      UnmanagedAppend(a, b[..|b| - 1]);
    }
  }

  lemma {:induction false} UnmanagedSame(rules: seq<Rule>)
    requires forall i :: 0 <= i < |rules| ==> !IsManaged(rules[i])
    ensures Unmanaged(rules) == rules
  {
    if rules != [] { UnmanagedSame(rules[..|rules| - 1]); }
  }

  /** A list in which a rule is placed is its unmanaged rules with that rule put in. */
  lemma PlacedIs(rules: seq<Rule>, rule: Rule, position: nat)
    requires PlacedAt(rules, rule, position) && IsManaged(rule)
    ensures Unmanaged(rules) == rules[..position] + rules[position + 1..]
  {
    hide Unmanaged, IsManaged, IsTcp;
    assert rules == rules[..position] + [rule] + rules[position + 1..];
    UnmanagedAppend(rules[..position] + [rule], rules[position + 1..]);
    UnmanagedAppend(rules[..position], [rule]);
    UnmanagedSame(rules[..position]);
    UnmanagedSame(rules[position + 1..]);
    UnmanagedOne(rule);
  }

  lemma FirstTcpOf(rest: seq<Rule>, a: seq<Rule>, p: nat)
    requires p < |a| && rest == a[..p] + a[p + 1..]
    requires (forall i :: 0 <= i < p ==> !IsTcp(a[i])) && (p + 1 < |a| ==> IsTcp(a[p + 1]))
    ensures p <= |rest| && (p < |rest| ==> IsTcp(rest[p])) && forall i :: 0 <= i < p ==> !IsTcp(rest[i])
  {
    assert p < |rest| ==> rest[p] == a[p + 1];
  }

  /**
   * The placement and the unmanaged rules determine the list, so running the script again
   * with the same ranges changes nothing, and with new ranges it gives what a single run with
   * the new ranges would have given.
   */
  lemma PlacementUnique(a: seq<Rule>, p: nat, b: seq<Rule>, q: nat, rule: Rule)
    requires IsManaged(rule) && PlacedAt(a, rule, p) && PlacedAt(b, rule, q) && Unmanaged(a) == Unmanaged(b)
    ensures a == b && p == q
  {
    hide Unmanaged;
    PlacedIs(a, rule, p);
    PlacedIs(b, rule, q);
    var rest := Unmanaged(a);
    assert rest[..p] == a[..p] && rest[p..] == a[p + 1..];
    assert rest[..q] == b[..q] && rest[q..] == b[q + 1..];
    FirstTcpOf(rest, a, p);
    FirstTcpOf(rest, b, q);
    assert p == q;
    assert a == a[..p] + [rule] + a[p + 1..] && b == b[..p] + [rule] + b[p + 1..];
  }
}
