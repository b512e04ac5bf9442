/** The wire rule that events carry facts and no reasoning. */
module WireFacts {
  import opened Decimal

  datatype Json = Object(members: seq<Member>) | Array(items: seq<Json>) | Scalar

  datatype Member = Member(key: string, value: Json)

  predicate IsReasoningKey(key: string) {
    key in {"reasoning", "root_cause", "rootCause", "causal_chain", "causalChain", "explanation", "possible_causes",
            "possibleCauses", "suggested_fix", "suggestedFix", "remediation", "recommendation"}
  }

  /** A reasoning term of one or two words. */
  datatype Term = One(word: string) | Two(first: string, second: string)

  /** The terms the wire rules keep out of events. */
  predicate IsReasoningTerm(t: Term) {
    || t in {One("reasoning"), One("explanation"), One("remediation"), One("recommendation")}
    || t in {Two("root", "cause"), Two("causal", "chain"), Two("possible", "causes"), Two("suggested", "fix")}
  }

  function UpperCase(c: char): char { if 'a' <= c <= 'z' then c - 'a' + 'A' else c }

  function Snake(t: Term): string { if t.One? then t.word else t.first + ("_" + t.second) }

  function Camel(t: Term): string {
    if t.One? then t.word
    else if |t.second| == 0 then t.first
    else t.first + ([UpperCase(t.second[0])] + t.second[1..])
  }

  /** The path of the first reasoning field, if the value is rejected. */
  function RejectReasoningFields(path: string, value: Json): Option<string>
    decreases value, 0
  {
    match value
    case Object(members) => RejectMembers(path, members)
    case _ => None
  }

  function RejectMembers(path: string, members: seq<Member>): Option<string>
    decreases members, 1
  {
    if |members| == 0 then None
    else
      var here := path + "." + members[0].key;
      if IsReasoningKey(members[0].key) then Some(here)
      else
        var below := RejectReasoningFields(here, members[0].value);
        if below.Some? then below else RejectMembers(path, members[1..])
  }

  lemma CauseSpelling()
    ensures Snake(Two("root", "cause")) == "root_cause" && Camel(Two("root", "cause")) == "rootCause"
    ensures Snake(Two("causal", "chain")) == "causal_chain" && Camel(Two("causal", "chain")) == "causalChain"
  {
  }

  lemma CausesSpelling()
    ensures Snake(Two("possible", "causes")) == "possible_causes"
    ensures Camel(Two("possible", "causes")) == "possibleCauses"
  {
  }

  lemma FixSpelling()
    ensures Snake(Two("suggested", "fix")) == "suggested_fix" && Camel(Two("suggested", "fix")) == "suggestedFix"
  {
  }

  /** The rejected keys are exactly the reasoning terms, in snake and in camel case. */
  lemma {:induction false} ReasoningKeysAreTheTerms(key: string)
    ensures IsReasoningKey(key) <==> exists t | IsReasoningTerm(t) :: key == Snake(t) || key == Camel(t)
  {
    CauseSpelling();
    CausesSpelling();
    FixSpelling();
    forall t | IsReasoningTerm(t) && (key == Snake(t) || key == Camel(t)) ensures IsReasoningKey(key) { }
    if IsReasoningKey(key) {
      var t :=
        if key in {"root_cause", "rootCause"} then Two("root", "cause")
        else if key in {"causal_chain", "causalChain"} then Two("causal", "chain")
        else if key in {"possible_causes", "possibleCauses"} then Two("possible", "causes")
        else if key in {"suggested_fix", "suggestedFix"} then Two("suggested", "fix")
        else One(key);
      assert IsReasoningTerm(t) && (key == Snake(t) || key == Camel(t));
    }
  }

  /** A way down into a value: the position taken at each level. */
  type Route = seq<nat>

  /** The route goes through objects only and ends at a reasoning key. */
  predicate EndsAtReasoning(value: Json, route: Route)
    decreases |route|
  {
    && |route| > 0 && value.Object? && route[0] < |value.members|
    && (if |route| == 1 then IsReasoningKey(value.members[route[0]].key)
        else EndsAtReasoning(value.members[route[0]].value, route[1..]))
  }

  function PathText(value: Json, route: Route): string
    requires EndsAtReasoning(value, route)
    decreases |route|
  {
    "." + value.members[route[0]].key
    + (if |route| == 1 then "" else PathText(value.members[route[0]].value, route[1..]))
  }

  /** Depth-first order: earlier members first, a member before what it holds. */
  predicate Before(a: Route, b: Route) {
    |b| > 0 && (|a| == 0 || a[0] < b[0] || (a[0] == b[0] && Before(a[1..], b[1..])))
  }

  ghost predicate IsFirst(value: Json, route: Route) {
    && EndsAtReasoning(value, route)
    && forall other | EndsAtReasoning(value, other) :: other == route || Before(route, other)
  }

  ghost predicate NoneInside(value: Json) { forall route :: !EndsAtReasoning(value, route) }

  /** A value is rejected exactly when some route through objects ends at a
      reasoning key, and the error names the first such field. */
  lemma {:induction false} RejectedIff(path: string, value: Json) returns (route: Route)
    ensures match RejectReasoningFields(path, value)
            case None => NoneInside(value)
            case Some(text) => IsFirst(value, route) && text == path + PathText(value, route)
    decreases value, 1, 0
  {
    route := [];
    if value.Object? {
      route := MembersRejectedIff(path, value, 0);
    }
  }

  /** The members from `from` on, when none before them leads to a reasoning key. */
  lemma {:induction false} MembersRejectedIff(path: string, value: Json, from: nat) returns (route: Route)
    requires value.Object? && from <= |value.members|
    requires forall r | EndsAtReasoning(value, r) :: r[0] >= from
    ensures match RejectMembers(path, value.members[from..])
            case None => NoneInside(value)
            case Some(text) => IsFirst(value, route) && text == path + PathText(value, route)
    decreases value, 0, |value.members| - from
  {
    route := [];
    if from == |value.members| { return; }
    var member := value.members[from];
    var here := path + "." + member.key;
    assert value.members[from..][1..] == value.members[from + 1..];
    if IsReasoningKey(member.key) {
      route := [from];
      FirstHere(value, from);
    } else {
      var below := RejectedIff(here, member.value);
      if RejectReasoningFields(here, member.value).Some? {
        route := [from] + below;
        assert route[1..] == below;
        FirstBelow(value, from, below);
      } else {
        NotHere(value, from);
        route := MembersRejectedIff(path, value, from + 1);
      }
    }
  }

  lemma {:induction false} NotHere(value: Json, from: nat)
    requires value.Object? && from < |value.members| && !IsReasoningKey(value.members[from].key)
    requires NoneInside(value.members[from].value)
    requires forall r | EndsAtReasoning(value, r) :: r[0] >= from
    ensures forall r | EndsAtReasoning(value, r) :: r[0] >= from + 1
  {
    forall r | EndsAtReasoning(value, r) ensures r[0] >= from + 1 {
      assert r[0] == from ==> !EndsAtReasoning(value.members[from].value, r[1..]);
    }
  }

  lemma {:induction false} FirstHere(value: Json, from: nat)
    requires value.Object? && from < |value.members| && IsReasoningKey(value.members[from].key)
    requires forall r | EndsAtReasoning(value, r) :: r[0] >= from
    ensures IsFirst(value, [from])
  {
    forall other | EndsAtReasoning(value, other) ensures other == [from] || Before([from], other) {
      if other[0] == from && |other| == 1 { assert other == [from]; }
    }
  }

  lemma {:induction false} FirstBelow(value: Json, from: nat, below: Route)
    requires value.Object? && from < |value.members| && !IsReasoningKey(value.members[from].key)
    requires forall r | EndsAtReasoning(value, r) :: r[0] >= from
    requires IsFirst(value.members[from].value, below)
    ensures IsFirst(value, [from] + below)
  {
    var route := [from] + below;
    assert route[1..] == below;
    forall other | EndsAtReasoning(value, other) ensures other == route || Before(route, other) {
      if other[0] == from {
        assert EndsAtReasoning(value.members[from].value, other[1..]);
        if other[1..] == below { assert other == [other[0]] + other[1..]; }
      }
    }
  }

  /** A reasoning key anywhere, arrays included. */
  predicate MentionsReasoning(value: Json)
    decreases value
  {
    match value
    case Object(members) =>
      exists i | 0 <= i < |members| :: IsReasoningKey(members[i].key) || MentionsReasoning(members[i].value)
    case Array(items) => exists i | 0 <= i < |items| :: MentionsReasoning(items[i])
    case Scalar => false
  }

  /** A reasoning key inside an array passes. */
  lemma ArraysHideReasoning()
    ensures exists value :: MentionsReasoning(value) && RejectReasoningFields("$", value) == None
  {
    var inner := Object([Member("reasoning", Scalar)]);
    assert MentionsReasoning(inner) by { assert IsReasoningKey(inner.members[0].key); }
    var items := Array([inner]);
    assert MentionsReasoning(items.items[0]);
    var value := Object([Member("items", items)]);
    assert MentionsReasoning(value.members[0].value);
    assert RejectMembers("$", value.members[1..]) == None;
  }

  /** Arrays holding reasoning keys, outside which there are none. */
  predicate HiddenInArrays(value: Json)
    decreases value
  {
    match value
    case Object(members) =>
      && (forall i | 0 <= i < |members| :: !IsReasoningKey(members[i].key))
      && (exists i | 0 <= i < |members| :: MentionsReasoning(members[i].value))
      && (forall i | 0 <= i < |members| :: MentionsReasoning(members[i].value) ==> HiddenInArrays(members[i].value))
    case _ => MentionsReasoning(value)
  }

  lemma {:induction false} RouteMentions(value: Json, route: Route)
    requires EndsAtReasoning(value, route)
    ensures MentionsReasoning(value)
    decreases |route|
  {
    if |route| > 1 { RouteMentions(value.members[route[0]].value, route[1..]); }
  }

  /** The rule misses a reasoning key exactly when all of them are inside arrays. */
  lemma {:induction false} MissedIff(path: string, value: Json)
    requires MentionsReasoning(value)
    ensures RejectReasoningFields(path, value) == None <==> HiddenInArrays(value)
    decreases value
  {
    var route := RejectedIff(path, value);
    if value.Object? {
      var members := value.members;
      forall i | 0 <= i < |members|
        ensures NoneInside(members[i].value)
           <==> !MentionsReasoning(members[i].value) || HiddenInArrays(members[i].value)
      {
        if MentionsReasoning(members[i].value) {
          MissedIff(path, members[i].value);
          var inner := RejectedIff(path, members[i].value);
        } else {
          forall r ensures !EndsAtReasoning(members[i].value, r) {
            if EndsAtReasoning(members[i].value, r) { RouteMentions(members[i].value, r); }
          }
        }
      }
      ObjectInside(value);
    }
  }

  lemma {:induction false} ObjectInside(value: Json)
    requires value.Object?
    ensures NoneInside(value) <==>
              forall i | 0 <= i < |value.members| ::
                !IsReasoningKey(value.members[i].key) && NoneInside(value.members[i].value)
  {
    if NoneInside(value) {
      forall i | 0 <= i < |value.members|
        ensures !IsReasoningKey(value.members[i].key) && NoneInside(value.members[i].value)
      {
        assert !EndsAtReasoning(value, [i]);
        forall route ensures !EndsAtReasoning(value.members[i].value, route) {
          assert ([i] + route)[1..] == route;
          assert !EndsAtReasoning(value, [i] + route);
        }
      }
    }
    if forall i | 0 <= i < |value.members| ::
         !IsReasoningKey(value.members[i].key) && NoneInside(value.members[i].value)
    {
      forall route ensures !EndsAtReasoning(value, route) {
        if EndsAtReasoning(value, route) {
          assert !IsReasoningKey(value.members[route[0]].key) && NoneInside(value.members[route[0]].value);
        }
      }
    }
  }
}
