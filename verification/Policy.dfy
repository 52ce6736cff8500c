/**
 * The policy of do_body: which attributes of a request reach the subject of the
 * certificate, and when the request is turned down.
 */
module Policy {
  import opened Options

  /** An ASN1_STRING: equal when type and content are. */
  datatype Value = Value(tag: int, data: string)

  /** An entry of a distinguished name; entries with equal `set` form one RDN. */
  datatype Entry = Entry(obj: nat, value: Value, set_: int)

  type Name = seq<Entry>

  /** A line of the policy section; an unknown attribute name has no object. */
  datatype Rule = Rule(obj: Option<nat>, demand: string)

  datatype PolicyError = UnknownObject | MissingSupplied | MissingMandatory | NotInCa | DiffersFromCa | InvalidDemand

  // ----- the library calls -----

  /** X509_NAME_get_index_by_OBJ: the next entry of the type after `last`, or -1. */
  function IndexByObj(name: Name, obj: nat, last: int): (j: int)
    requires -1 <= last
    ensures j == -1 || last < j < |name|
    ensures j != -1 ==> name[j].obj == obj && forall k :: last < k < j ==> name[k].obj != obj
    ensures j == -1 ==> forall k :: last < k < |name| ==> name[k].obj != obj
    decreases |name| - last
  {
    if last + 1 >= |name| then -1
    else if name[last + 1].obj == obj then last + 1
    else IndexByObj(name, obj, last + 1)
  }

  /** X509_NAME_add_entry(name, entry, -1, 0): appended as an RDN of its own. */
  function AddEntry(name: Name, entry: Entry): Name {
    name + [entry.(set_ := if name == [] then 0 else name[|name| - 1].set_ + 1)]
  }

  // ----- what the policy means -----

  /** The entries of one type, in order. */
  function Occurrences(name: Name, obj: nat): Name {
    if name == [] then [] else
      Occurrences(name[..|name| - 1], obj) +
      if name[|name| - 1].obj == obj then [name[|name| - 1]] else []
  }

  ghost predicate InCa(ca: Name, obj: nat, value: Value) {
    exists e :: e in ca && e.obj == obj && e.value == value
  }

  ghost predicate RuleMet(rule: Rule, name: Name, ca: Name) {
    && rule.obj.Some?
    && DemandMet(rule.demand, Occurrences(name, rule.obj.value), ca)
  }

  /** What a demand asks of the entries of its type. */
  ghost predicate DemandMet(demand: string, found: Name, ca: Name) {
    && demand in {"optional", "supplied", "match"}
    && (demand != "optional" ==> found != [])
    && (demand == "match" ==> forall e <- found :: InCa(ca, e.obj, e.value))
  }

  /** What is wrong with a rule that is not met. */
  ghost predicate WrongBecause(rule: Rule, name: Name, ca: Name, error: PolicyError) {
    match error
    case UnknownObject => rule.obj.None?
    case InvalidDemand => rule.obj.Some? && rule.demand !in {"optional", "supplied", "match"}
    case MissingSupplied => rule.obj.Some? && rule.demand == "supplied" && !HasType(name, rule.obj.value)
    case MissingMandatory => rule.obj.Some? && rule.demand == "match" && !HasType(name, rule.obj.value)
    case NotInCa =>
      && rule.obj.Some? && rule.demand == "match"
      && HasType(name, rule.obj.value) && !HasType(ca, rule.obj.value)
    case DiffersFromCa =>
      && rule.obj.Some? && rule.demand == "match" && HasType(ca, rule.obj.value)
      && exists e :: e in name && e.obj == rule.obj.value && !InCa(ca, e.obj, e.value)
  }

  ghost predicate HasType(name: Name, obj: nat) {
    exists e :: e in name && e.obj == obj
  }

  /** A rule that is not met is wrong in exactly one way. */
  lemma WrongInOneWay(rule: Rule, name: Name, ca: Name)
    ensures RuleMet(rule, name, ca) <==> forall error :: !WrongBecause(rule, name, ca, error)
    ensures forall d, e :: WrongBecause(rule, name, ca, d) && WrongBecause(rule, name, ca, e) ==> d == e
  {
    if rule.obj.Some? {
      var obj := rule.obj.value;
      var occ := Occurrences(name, obj);
      OccurrencesAre(name, obj);
      assert occ != [] ==> occ[0] in occ;
      assert !WrongBecause(rule, name, ca, UnknownObject);
      if RuleMet(rule, name, ca) && HasType(name, obj) && rule.demand == "match" {
        assert InCa(ca, obj, occ[0].value);
      } else if !RuleMet(rule, name, ca) {
        if rule.demand !in {"optional", "supplied", "match"} {
          assert WrongBecause(rule, name, ca, InvalidDemand);
        } else if rule.demand == "supplied" {
          assert WrongBecause(rule, name, ca, MissingSupplied);
        } else if occ == [] {
          assert WrongBecause(rule, name, ca, MissingMandatory);
        } else if !HasType(ca, obj) {
          assert WrongBecause(rule, name, ca, NotInCa);
        } else {
          assert WrongBecause(rule, name, ca, DiffersFromCa);
        }
      }
    } else {
      assert WrongBecause(rule, name, ca, UnknownObject);
    }
  }

  /** The attributes of an entry, whatever RDN it is in. */
  function Attribute(e: Entry): (nat, Value) {
    (e.obj, e.value)
  }

  function Attributes(name: Name): (r: seq<(nat, Value)>)
    ensures |r| == |name| && forall i :: 0 <= i < |name| ==> r[i] == Attribute(name[i])
  {
    seq(|name|, i requires 0 <= i < |name| => Attribute(name[i]))
  }

  /** In policy order, everything the request has of each listed type. */
  function Selected(policy: seq<Rule>, name: Name): seq<(nat, Value)> {
    if policy == [] then [] else
      var rule := policy[|policy| - 1];
      Selected(policy[..|policy| - 1], name) +
      if rule.obj.Some? then Attributes(Occurrences(name, rule.obj.value)) else []
  }

  /** Every entry is an RDN of its own, numbered from 0. */
  predicate SingleValued(name: Name) {
    forall i :: 0 <= i < |name| ==> name[i].set_ == i
  }

  lemma OccurrencesNext(name: Name, obj: nat, last: int)
    requires -1 <= last < |name|
    ensures var j := IndexByObj(name, obj, last);
            if j == -1 then Occurrences(name, obj) == Occurrences(name[..last + 1], obj)
            else Occurrences(name[..j + 1], obj) == Occurrences(name[..last + 1], obj) + [name[j]]
  {
    var j := IndexByObj(name, obj, last);
    if j == -1 {
      OccurrencesSkip(name, obj, last + 1, |name|);
      assert name[..|name|] == name;
    } else {
      OccurrencesSkip(name, obj, last + 1, j);
      assert name[..j + 1][..j] == name[..j];
    }
  }

  lemma {:induction false} OccurrencesSkip(name: Name, obj: nat, lo: nat, hi: nat)
    requires lo <= hi <= |name|
    requires forall k :: lo <= k < hi ==> name[k].obj != obj
    ensures Occurrences(name[..hi], obj) == Occurrences(name[..lo], obj)
    decreases hi
  {
    if lo < hi {
      OccurrencesSkip(name, obj, lo, hi - 1);
      assert name[..hi][..hi - 1] == name[..hi - 1];
    }
  }

  lemma {:induction false} OccurrencesAre(name: Name, obj: nat)
    ensures forall e :: e in Occurrences(name, obj) <==> e in name && e.obj == obj
  {
    if name != [] {
      OccurrencesAre(name[..|name| - 1], obj);
      assert name == name[..|name| - 1] + [name[|name| - 1]];
    }
  }

  lemma AddAttribute(subject: Name, entry: Entry)
    requires SingleValued(subject)
    ensures SingleValued(AddEntry(subject, entry))
    ensures Attributes(AddEntry(subject, entry)) == Attributes(subject) + [Attribute(entry)]
  {
  }

  // ----- the loops -----

  /**
   * The again2 loop: the first entry of the CA of the same type and value. The
   * error tells a type the CA lacks from one whose values all differ.
   */
  method FindInCa(ca: Name, obj: nat, value: Value) returns (push: Option<Entry>, error: PolicyError)
    ensures push.Some? <==> InCa(ca, obj, value)
    ensures push.Some? ==> push.value in ca && push.value.obj == obj && push.value.value == value
    ensures push.None? ==> error == if HasType(ca, obj) then DiffersFromCa else NotInCa
  {
    error := DiffersFromCa;
    var last2 := -1;
    while true
      invariant -1 <= last2 < |ca|
      invariant last2 != -1 ==> ca[last2].obj == obj
      invariant forall k :: 0 <= k <= last2 && ca[k].obj == obj ==> ca[k].value != value
      decreases |ca| - last2
    {
      var j := IndexByObj(ca, obj, last2);
      if j < 0 && last2 == -1 {
        return None, NotInCa;
      }
      if j < 0 {
        assert ca[last2] in ca;
        return None, DiffersFromCa;
      }
      last2 := j;
      if ca[j].value == value {
        return Some(ca[j]), error;
      }
    }
  }

  /** The decision on one entry of the request, or on there being none: what to push, if anything. */
  method Decide(demand: string, obj: nat, tne: Option<Entry>, ca: Name)
    returns (push: Option<Entry>, error: Option<PolicyError>)
    requires tne.Some? ==> tne.value.obj == obj
    ensures error.None? <==>
              && demand in {"optional", "supplied", "match"}
              && (demand != "optional" ==> tne.Some?)
              && (demand == "match" ==> InCa(ca, obj, tne.value.value))
    ensures error.Some? ==>
              match error.value
              case MissingSupplied => demand == "supplied" && tne.None?
              case MissingMandatory => demand == "match" && tne.None?
              case NotInCa => demand == "match" && tne.Some? && !HasType(ca, obj)
              case DiffersFromCa =>
                demand == "match" && tne.Some? && HasType(ca, obj) && !InCa(ca, obj, tne.value.value)
              case InvalidDemand => demand !in {"optional", "supplied", "match"}
              case UnknownObject => false
    ensures error.None? ==> (push.Some? <==> tne.Some?)
    ensures error.None? && push.Some? ==> Attribute(push.value) == Attribute(tne.value)
  {
    push, error := None, None;
    if demand == "optional" {
      push := tne;
    } else if demand == "supplied" {
      if tne.None? {
        return None, Some(MissingSupplied);
      }
      push := tne;
    } else if demand == "match" {
      if tne.None? {
        return None, Some(MissingMandatory);
      }
      var why;
      push, why := FindInCa(ca, obj, tne.value.value);
      if push.None? {
        return None, Some(why);
      }
    } else {
      return None, Some(InvalidDemand);
    }
  }

  /** The inner loop: what one rule adds to the subject. */
  method ApplyRule(rule: Rule, name: Name, ca: Name, subject: Name) returns (r: Name, error: Option<PolicyError>)
    requires SingleValued(subject)
    ensures error.None? <==> RuleMet(rule, name, ca)
    ensures error.Some? ==> WrongBecause(rule, name, ca, error.value)
    ensures error.None? ==> SingleValued(r) && rule.obj.Some?
    ensures error.None? ==> Attributes(r) == Attributes(subject) + Attributes(Occurrences(name, rule.obj.value))
  {
    r := subject;
    if rule.obj.None? {
      return r, Some(UnknownObject);
    }
    var obj := rule.obj.value;
    ghost var seen: Name := [];
    var last := -1;
    while true
      invariant -1 <= last && (last == -1 || last < |name|)
      invariant seen == Occurrences(name[..last + 1], obj)
      invariant last == -1 ==> seen == []
      invariant last != -1 ==> seen != [] && DemandMet(rule.demand, seen, ca)
      invariant SingleValued(r) && Attributes(r) == Attributes(subject) + Attributes(seen)
      decreases |name| - last
    {
      var j := IndexByObj(name, obj, last);
      Seen(name, obj, last);
      if j < 0 && last != -1 {
        return r, None;
      }
      var tne := if j < 0 then None else Some(name[j]);
      var push;
      push, error := Decide(rule.demand, obj, tne, ca);
      if error.Some? {
        assert tne.Some? ==> name[j] in Occurrences(name, obj) && name[j] in name;
        NoneSeen(name, obj, last);
        return;
      }
      if push.Some? {
        AddAttribute(r, push.value);
        r := AddEntry(r, push.value);
      }
      if j < 0 {
        return r, None;
      }
      last := j;
      assert Attributes(seen + [name[j]]) == Attributes(seen) + [Attribute(name[j])];
      seen := seen + [name[j]];
    }
  }

  lemma NoneSeen(name: Name, obj: nat, last: int)
    requires -1 <= last && (last == -1 || last < |name|)
    ensures last == -1 && IndexByObj(name, obj, last) == -1 ==> !HasType(name, obj)
  {
  }

  /** The next entry found extends what was seen; when there is none, all has been seen. */
  lemma Seen(name: Name, obj: nat, last: int)
    requires -1 <= last && (last == -1 || last < |name|)
    ensures var j := IndexByObj(name, obj, last);
            && (j == -1 ==> Occurrences(name, obj) == Occurrences(name[..last + 1], obj))
            && (j != -1 ==> Occurrences(name[..j + 1], obj) == Occurrences(name[..last + 1], obj) + [name[j]])
            && (j != -1 ==> name[j] in Occurrences(name, obj))
  {
    OccurrencesAre(name, obj);
    if name == [] {
      assert name[..last + 1] == [];
    } else {
      OccurrencesNext(name, obj, last);
    }
  }

  /**
   * The policy loop of do_body. It succeeds exactly when every rule is met; the
   * subject then holds, in policy order, what the request has of each type and
   * nothing else. On failure `at` is the first rule that is not met.
   */
  method BuildSubject(policy: seq<Rule>, name: Name, ca: Name)
    returns (subject: Name, error: Option<PolicyError>, at: nat)
    ensures error.None? <==> forall rule <- policy :: RuleMet(rule, name, ca)
    ensures error.None? ==> SingleValued(subject) && Attributes(subject) == Selected(policy, name)
    ensures error.Some? ==>
              && at < |policy| && WrongBecause(policy[at], name, ca, error.value)
              && !RuleMet(policy[at], name, ca)
              && forall k :: 0 <= k < at ==> RuleMet(policy[k], name, ca)
  {
    hide RuleMet, Occurrences, WrongBecause;
    subject, at := [], 0;
    while at < |policy|
      invariant 0 <= at <= |policy|
      invariant forall k :: 0 <= k < at ==> RuleMet(policy[k], name, ca)
      invariant SingleValued(subject) && Attributes(subject) == Selected(policy[..at], name)
    {
      assert policy[..at + 1][..at] == policy[..at] && policy[..at + 1][at] == policy[at];
      subject, error := ApplyRule(policy[at], name, ca, subject);
      if error.Some? {
        assert policy[at] in policy;
        return;
      }
      at := at + 1;
    }
    assert policy[..at] == policy;
    error := None;
  }

  // ----- consequences -----

  /** Every attribute of the subject is one the request has and the policy lists, and the other way round. */
  lemma {:induction false} SelectedAre(policy: seq<Rule>, name: Name, a: (nat, Value))
    ensures a in Selected(policy, name) <==>
              && (exists e <- name :: Attribute(e) == a)
              && (exists rule <- policy :: rule.obj == Some(a.0))
  {
    if policy != [] {
      var front, rule := policy[..|policy| - 1], policy[|policy| - 1];
      SelectedAre(front, name, a);
      assert policy == front + [rule];
      if rule.obj.Some? {
        OccurrencesAre(name, rule.obj.value);
        var occ := Occurrences(name, rule.obj.value);
        if a in Attributes(occ) {
          var i :| 0 <= i < |occ| && Attributes(occ)[i] == a;
          assert occ[i] in name && Attribute(occ[i]) == a;
        }
        if e :| e in name && Attribute(e) == a && rule.obj == Some(a.0) {
          assert e in occ;
          var i :| 0 <= i < |occ| && occ[i] == e;
          assert Attributes(occ)[i] == a;
        }
      }
    }
  }

  /** A request whose name is the CA's own, as in self-signing, is never turned down for a mismatch. */
  lemma SelfSignedMatches(rule: Rule, name: Name)
    requires rule.demand == "match" && rule.obj.Some?
    ensures RuleMet(rule, name, name) <==> exists e <- name :: e.obj == rule.obj.value
  {
    var occ := Occurrences(name, rule.obj.value);
    OccurrencesAre(name, rule.obj.value);
    forall e | e in occ ensures InCa(name, e.obj, e.value) {
      assert e in name;
    }
    if occ != [] {
      assert occ[0] in occ;
    }
  }
}
