/**
 Validation of the opset versions of kernel registrations, following
 tools/ci_build/op_registration_validator.py. The source lines that a registration carries for
 its error messages are not modelled.
 */
module RegistrationValidator {
  import opened Sorting
  import opened Text
  import opened Wrappers

  /** The registration is for the opsets from `start` to `end`, or without end. */
  datatype Registration = Registration(domain: string, operator: string, start: int, end: Option<int>)

  predicate SameOp(r: Registration, q: Registration) {
    r.domain == q.domain && r.operator == q.operator
  }

  predicate SameVersions(r: Registration, q: Registration) {
    r.start == q.start && r.end == q.end
  }

  // ---------------------------------------------------------------- sort order

  predicate VersionsLeq(r: Registration, q: Registration) {
    if r.start != q.start then r.start < q.start
    else if q.end.None? then true
    else if r.end.None? then false
    else r.end.value <= q.end.value
  }

  /** Domain, operator, start, and an absent end after every present one. */
  predicate Leq(r: Registration, q: Registration) {
    if r.domain != q.domain then StringLeq(r.domain, q.domain)
    else if r.operator != q.operator then StringLeq(r.operator, q.operator)
    else VersionsLeq(r, q)
  }

  lemma LeqIsTotalOrder()
    ensures TotalPreorder(Leq) && Antisymmetric(Leq)
  {
    forall r, q ensures Leq(r, q) || Leq(q, r) ensures Leq(r, q) && Leq(q, r) ==> r == q {
      StringLeqTotal(r.domain, q.domain);
      StringLeqTotal(r.operator, q.operator);
    }
    forall r, q, p | Leq(r, q) && Leq(q, p) ensures Leq(r, p) {
      LeqTransitive(r, q, p);
    }
  }

  lemma LeqTransitive(r: Registration, q: Registration, p: Registration)
    requires Leq(r, q) && Leq(q, p)
    ensures Leq(r, p)
  {
    StringLeqTotal(r.domain, q.domain);
    StringLeqTotal(q.domain, p.domain);
    StringLeqTransitive(r.domain, q.domain, p.domain);
    if r.domain == p.domain {
      StringLeqTotal(r.operator, q.operator);
      StringLeqTotal(q.operator, p.operator);
      if r.domain == q.domain { StringLeqTransitive(r.operator, q.operator, p.operator); }
    }
  }

  // ---------------------------------------------------------------- local checks

  function OpName(r: Registration): string { r.domain + ":" + r.operator }

  const Onnx := "kOnnxDomain"

  const DeprecatedOps: map<string, int> := map[
    Onnx + ":" + "Scatter" := 11,
    Onnx + ":" + "Upsample" := 10,
    Onnx + ":" + "LayerNormalization" := 17,
    Onnx + ":" + "MeanVarianceNormalization" := 9,
    Onnx + ":" + "ThresholdedRelu" := 10
  ]

  const OpsWithIncompleteSupport: seq<string> := [Onnx + ":" + "ArgMin", Onnx + ":" + "ArgMax"]

  /** Whether the last registration of an operator may have an end version. */
  predicate MayEnd(r: Registration) {
    (OpName(r) in DeprecatedOps && r.end == Some(DeprecatedOps[OpName(r)] - 1)) || OpName(r) in OpsWithIncompleteSupport
  }

  lemma OnnxHasNoColon()
    ensures Free(Onnx, ':')
  {
  }

  lemma SameName(domain: string, operator: string, other: string)
    requires Free(domain, ':')
    ensures domain + ":" + operator == Onnx + ":" + other <==> domain == Onnx && operator == other
  {
    hide Onnx, Split;
    OnnxHasNoColon();
    var a, b := domain + ":" + operator, Onnx + ":" + other;
    if a == b {
      SplitAppend(domain, operator, ':');
      SplitAppend(Onnx, other, ':');
      SplitOfFree(domain, ':');
      SplitOfFree(Onnx, ':');
      assert Split(a, ':')[0] == domain && Split(b, ':')[0] == Onnx;
      assert a[|domain| + 1..] == operator && b[|domain| + 1..] == other;
    }
  }

  /**
   The exemptions: five operators of the ONNX domain may end right before the opset that deprecates them, two
   may end anywhere, and no other operator of any domain may.
   */
  lemma MayEndExactly(r: Registration)
    requires Free(r.domain, ':')
    ensures MayEnd(r) <==>
            && r.domain == "kOnnxDomain"
            && (r.operator == "ArgMin" || r.operator == "ArgMax"
                || (r.operator == "Scatter" && r.end == Some(10))
                || (r.operator == "Upsample" && r.end == Some(9))
                || (r.operator == "LayerNormalization" && r.end == Some(16))
                || (r.operator == "MeanVarianceNormalization" && r.end == Some(8))
                || (r.operator == "ThresholdedRelu" && r.end == Some(9)))
  {
    hide Split;
    SameName(r.domain, r.operator, "Scatter");
    SameName(r.domain, r.operator, "Upsample");
    SameName(r.domain, r.operator, "LayerNormalization");
    SameName(r.domain, r.operator, "MeanVarianceNormalization");
    SameName(r.domain, r.operator, "ThresholdedRelu");
    SameName(r.domain, r.operator, "ArgMin");
    SameName(r.domain, r.operator, "ArgMax");
  }

  predicate ValidateLast(r: Registration) {
    r.end.None? || MayEnd(r)
  }

  predicate ValidateRegistration(r: Registration, next: Option<Registration>) {
    if r.end.Some? && r.start > r.end.value then false
    else if next.None? then ValidateLast(r)
    else if SameVersions(r, next.value) then true
    else if r.end.None? then false
    else r.end.value == next.value.start - 1
  }

  // ---------------------------------------------------------------- counting

  function Next(s: seq<Registration>): Option<Registration>
    requires s != []
  {
    if |s| > 1 && SameOp(s[0], s[1]) then Some(s[1]) else None
  }

  /** Invalid entries of a list in which equal operators are adjacent. */
  function InvalidCount(s: seq<Registration>): nat {
    if s == [] then 0
    else (if ValidateRegistration(s[0], Next(s)) then 0 else 1) + InvalidCount(s[1..])
  }

  function InvalidRegistrations(all: seq<Registration>): nat {
    InvalidCount(Sort(Leq, all))
  }

  lemma {:induction false} CountSplits(group: seq<Registration>, rest: seq<Registration>)
    requires group != [] && (rest != [] ==> !SameOp(group[|group| - 1], rest[0]))
    ensures InvalidCount(group + rest) == InvalidCount(group) + InvalidCount(rest)
  {
    var s := group + rest;
    if |group| == 1 {
      assert s[1..] == rest;
      assert group[1..] == [];
    } else {
      assert s[1..] == group[1..] + rest;
      CountSplits(group[1..], rest);
    }
  }

  lemma NothingInvalid(s: seq<Registration>)
    ensures s == [] ==> InvalidCount(s) == 0
  {
  }

  method ValidateGroup(group: seq<Registration>) returns (invalid: nat)
    requires forall i :: 0 <= i < |group| ==> SameOp(group[i], group[0])
    ensures invalid == InvalidCount(group)
  {
    invalid := 0;
    var i := 0;
    while i < |group|
      invariant 0 <= i <= |group|
      invariant invalid + InvalidCount(group[i..]) == InvalidCount(group)
    {
      var next := if i + 1 < |group| then Some(group[i + 1]) else None;
      assert group[i..][1..] == group[i + 1..];
      if !ValidateRegistration(group[i], next) {
        invalid := invalid + 1;
      }
      i := i + 1;
    }
  }

  class Validator {
    var allRegistrations: seq<Registration>

    constructor ()
      ensures allRegistrations == []
    {
      allRegistrations := [];
    }

    method ProcessRegistration(domain: string, operator: string, start: int, end: Option<int>)
      modifies this
      ensures allRegistrations == old(allRegistrations) + [Registration(domain, operator, start, end)]
    {
      allRegistrations := allRegistrations + [Registration(domain, operator, start, end)];
    }

    method ValidateAll() returns (invalid: nat)
      ensures invalid == InvalidRegistrations(allRegistrations)
    {
      hide Sort, InvalidCount;
      var sorted := Sort(Leq, allRegistrations);
      assert sorted[0..] == sorted;
      invalid := 0;
      var i := 0;
      while i < |sorted|
        invariant 0 <= i <= |sorted|
        invariant invalid + InvalidCount(sorted[i..]) == InvalidCount(sorted)
      {
        var j := i + 1;
        while j < |sorted| && SameOp(sorted[j], sorted[i])
          invariant i < j <= |sorted|
          invariant forall k :: i <= k < j ==> SameOp(sorted[k], sorted[i])
        {
          j := j + 1;
        }
        var group := sorted[i..j];
        assert sorted[i..] == group + sorted[j..];
        assert group[|group| - 1] == sorted[j - 1] && SameOp(sorted[j - 1], sorted[i]);
        CountSplits(group, sorted[j..]);
        var n := ValidateGroup(group);
        invalid := invalid + n;
        i := j;
      }
      NothingInvalid(sorted[i..]);
    }

    method Ok() returns (ok: bool)
      ensures ok <==> forall domain, operator :: Tiled(allRegistrations, domain, operator)
    {
      var n := ValidateAll();
      AcceptedExactlyWhenTiled(allRegistrations);
      ok := n == 0;
    }
  }

  /** The number of invalid registrations does not depend on the order in which they were processed. */
  lemma CountIgnoresOrder(a: seq<Registration>, b: seq<Registration>)
    requires multiset(a) == multiset(b)
    ensures InvalidRegistrations(a) == InvalidRegistrations(b)
  {
    LeqIsTotalOrder();
    SortIgnoresOrder(Leq, a, b);
  }

  // ---------------------------------------------------------------- what acceptance means

  predicate Covers(r: Registration, version: int) {
    r.start <= version && (r.end.Some? ==> version <= r.end.value)
  }

  ghost predicate For(all: seq<Registration>, domain: string, operator: string, r: Registration) {
    r in all && r.domain == domain && r.operator == operator
  }

  ghost predicate Covered(all: seq<Registration>, domain: string, operator: string, version: int) {
    exists p :: For(all, domain, operator, p) && Covers(p, version)
  }

  ghost predicate NonEmpty(all: seq<Registration>, domain: string, operator: string) {
    forall r :: For(all, domain, operator, r) ==> Covers(r, r.start)
  }

  /** A version lies in at most one of the distinct intervals. */
  ghost predicate NoOverlap(all: seq<Registration>, domain: string, operator: string) {
    forall r, q, v :: For(all, domain, operator, r) && For(all, domain, operator, q) && Covers(r, v) && Covers(q, v)
                      ==> SameVersions(r, q)
  }

  /** Every version between two starts lies in an interval. */
  ghost predicate NoGap(all: seq<Registration>, domain: string, operator: string) {
    forall r, q, v | For(all, domain, operator, r) && For(all, domain, operator, q) && r.start <= v <= q.start
      :: Covered(all, domain, operator, v)
  }

  ghost predicate Latest(all: seq<Registration>, domain: string, operator: string, r: Registration) {
    For(all, domain, operator, r) && forall q :: For(all, domain, operator, q) ==> q.start <= r.start
  }

  ghost predicate LastIsOpen(all: seq<Registration>, domain: string, operator: string) {
    forall r :: Latest(all, domain, operator, r) ==> r.end.None? || MayEnd(r)
  }

  /**
   The registrations of one operator tile the opsets: no interval is empty, no version lies in two
   different intervals, none is left out between the first start and the last one, and the last
   interval is open unless the operator is exempt.
   */
  ghost predicate Tiled(all: seq<Registration>, domain: string, operator: string) {
    && NonEmpty(all, domain, operator)
    && NoOverlap(all, domain, operator)
    && NoGap(all, domain, operator)
    && LastIsOpen(all, domain, operator)
  }

  // ---------------------------------------------------------------- local checks imply the tiling

  function NextAt(s: seq<Registration>, i: nat): Option<Registration>
    requires i < |s|
  {
    if i + 1 < |s| && SameOp(s[i], s[i + 1]) then Some(s[i + 1]) else None
  }

  ghost predicate AllValid(s: seq<Registration>) {
    forall i :: 0 <= i < |s| ==> ValidateRegistration(s[i], NextAt(s, i))
  }

  lemma {:induction false} CountZero(s: seq<Registration>)
    ensures InvalidCount(s) == 0 <==> AllValid(s)
  {
    if s == [] {
    } else {
      var t := s[1..];
      CountZero(t);
      assert Next(s) == NextAt(s, 0);
      assert forall i :: 0 <= i < |t| ==> t[i] == s[i + 1] && NextAt(t, i) == NextAt(s, i + 1);
      if AllValid(s) {
        forall i | 0 <= i < |t| ensures ValidateRegistration(t[i], NextAt(t, i)) {
          assert ValidateRegistration(s[i + 1], NextAt(s, i + 1));
        }
      }
      if AllValid(t) && ValidateRegistration(s[0], Next(s)) {
        forall i | 0 <= i < |s| ensures ValidateRegistration(s[i], NextAt(s, i)) {
          if i > 0 { assert ValidateRegistration(t[i - 1], NextAt(t, i - 1)); }
        }
      }
    }
  }

  /** Registrations of one operator are adjacent, in order of their versions. */
  lemma OperatorsAdjacent(s: seq<Registration>, i: nat, k: nat, j: nat)
    requires Sorted(Leq, s) && i <= k <= j < |s| && SameOp(s[i], s[j])
    ensures SameOp(s[i], s[k]) && VersionsLeq(s[i], s[k]) && s[i].start <= s[k].start
  {
    assert Leq(s[i], s[k]) && Leq(s[k], s[j]);
    StringLeqTotal(s[i].domain, s[k].domain);
    StringLeqTotal(s[i].operator, s[k].operator);
  }

  /** Of two valid entries of an operator, the later one has the same versions or starts after the earlier one ends. */
  lemma {:induction false} Chain(s: seq<Registration>, i: nat, j: nat)
    requires Sorted(Leq, s) && AllValid(s) && i < j < |s| && SameOp(s[i], s[j])
    ensures SameVersions(s[i], s[j]) || (s[i].end.Some? && s[i].end.value < s[j].start)
    decreases j - i
  {
    hide ValidateLast, Leq;
    OperatorsAdjacent(s, i, i + 1, j);
    assert ValidateRegistration(s[i], NextAt(s, i));
    if i + 1 < j {
      Chain(s, i + 1, j);
      OperatorsAdjacent(s, i + 1, j, j);
    }
  }

  lemma {:induction false} CoveredBetween(s: seq<Registration>, i: nat, j: nat, v: int) returns (k: nat)
    requires Sorted(Leq, s) && AllValid(s) && i <= j < |s| && SameOp(s[i], s[j]) && s[i].start <= v <= s[j].start
    ensures k < |s| && SameOp(s[i], s[k]) && Covers(s[k], v)
    decreases j
  {
    hide ValidateLast, Leq;
    assert ValidateRegistration(s[j], NextAt(s, j));
    if v == s[j].start {
      k := j;
    } else {
      OperatorsAdjacent(s, i, j - 1, j);
      assert ValidateRegistration(s[j - 1], NextAt(s, j - 1));
      if v <= s[j - 1].start {
        k := CoveredBetween(s, i, j - 1, v);
      } else {
        k := j - 1;
      }
    }
  }

  lemma ValidImpliesTiled(s: seq<Registration>, domain: string, operator: string)
    requires Sorted(Leq, s) && AllValid(s)
    ensures Tiled(s, domain, operator)
  {
    forall r | For(s, domain, operator, r) ensures Covers(r, r.start) {
      var i :| 0 <= i < |s| && s[i] == r;
      assert ValidateRegistration(s[i], NextAt(s, i));
    }
    forall r, q, v | For(s, domain, operator, r) && For(s, domain, operator, q) && Covers(r, v) && Covers(q, v)
      ensures SameVersions(r, q)
    {
      var i :| 0 <= i < |s| && s[i] == r;
      var j :| 0 <= j < |s| && s[j] == q;
      if i < j { Chain(s, i, j); } else if j < i { Chain(s, j, i); }
    }
    forall r, q, v | For(s, domain, operator, r) && For(s, domain, operator, q) && r.start <= v <= q.start
      ensures Covered(s, domain, operator, v)
    {
      var i :| 0 <= i < |s| && s[i] == r;
      var j :| 0 <= j < |s| && s[j] == q;
      if i <= j {
        var k := CoveredBetween(s, i, j, v);
        assert For(s, domain, operator, s[k]);
      } else {
        OperatorsAdjacent(s, j, i, i);
        assert ValidateRegistration(s[i], NextAt(s, i));
        assert Covers(r, v);
      }
    }
    forall r | Latest(s, domain, operator, r) ensures r.end.None? || MayEnd(r) {
      var i :| 0 <= i < |s| && s[i] == r;
      LatestIsValidated(s, domain, operator, i);
    }
  }

  lemma {:induction false} LatestIsValidated(s: seq<Registration>, domain: string, operator: string, i: nat)
    requires Sorted(Leq, s) && AllValid(s) && i < |s| && Latest(s, domain, operator, s[i])
    ensures s[i].end.None? || MayEnd(s[i])
    decreases |s| - i
  {
    assert ValidateRegistration(s[i], NextAt(s, i));
    if i + 1 < |s| && SameOp(s[i], s[i + 1]) {
      assert For(s, domain, operator, s[i + 1]);
      OperatorsAdjacent(s, i, i + 1, i + 1);
      LatestIsValidated(s, domain, operator, i + 1);
    }
  }

  // ---------------------------------------------------------------- the tiling implies the local checks

  lemma NothingInGap(s: seq<Registration>, i: nat, k: nat)
    requires Sorted(Leq, s) && i + 1 < |s| && k < |s| && SameOp(s[i], s[i + 1]) && SameOp(s[k], s[i])
    requires NonEmpty(s, s[i].domain, s[i].operator) && NoOverlap(s, s[i].domain, s[i].operator)
    requires s[i].end.Some? && s[i].end.value + 1 < s[i + 1].start
    ensures !Covers(s[k], s[i].end.value + 1)
  {
    hide Leq;
    var r, p, d, o := s[i], s[k], s[i].domain, s[i].operator;
    assert For(s, d, o, r) && For(s, d, o, p);
    assert Covers(r, r.end.value);
    if k <= i {
      OperatorsAdjacent(s, k, i, i);
      assert Covers(p, r.end.value + 1) ==> Covers(p, r.end.value);
    } else {
      OperatorsAdjacent(s, i + 1, k, k);
    }
  }

  lemma TiledImpliesValid(s: seq<Registration>, i: nat)
    requires Sorted(Leq, s) && i < |s| && Tiled(s, s[i].domain, s[i].operator)
    ensures ValidateRegistration(s[i], NextAt(s, i))
  {
    var r, d, o := s[i], s[i].domain, s[i].operator;
    assert For(s, d, o, r);
    if NextAt(s, i).None? {
      forall q | For(s, d, o, q) ensures q.start <= r.start {
        var j :| 0 <= j < |s| && s[j] == q;
        if j > i { OperatorsAdjacent(s, i, i + 1, j); } else { OperatorsAdjacent(s, j, i, i); }
      }
      assert Latest(s, d, o, r);
    } else if !SameVersions(r, s[i + 1]) {
      var q := s[i + 1];
      assert For(s, d, o, q);
      OperatorsAdjacent(s, i, i + 1, i + 1);
      assert Covers(q, q.start) && Covers(r, r.start);
      assert r.end.Some? && r.end.value < q.start;
      if r.end.value + 1 < q.start {
        var v := r.end.value + 1;
        assert Covered(s, d, o, v);
        var p :| For(s, d, o, p) && Covers(p, v);
        var k :| 0 <= k < |s| && s[k] == p;
        NothingInGap(s, i, k);
        assert false;
      }
    }
  }

  lemma SameMembers(a: seq<Registration>, b: seq<Registration>, domain: string, operator: string)
    requires multiset(a) == multiset(b)
    ensures Tiled(a, domain, operator) <==> Tiled(b, domain, operator)
  {
    forall r ensures For(a, domain, operator, r) <==> For(b, domain, operator, r) {
      assert r in a <==> r in multiset(a);
      assert r in b <==> r in multiset(b);
    }
    forall v ensures Covered(a, domain, operator, v) <==> Covered(b, domain, operator, v) { }
    forall r ensures Latest(a, domain, operator, r) <==> Latest(b, domain, operator, r) { }
  }

  /** No registration is invalid exactly when the registrations of every operator tile the opsets. */
  lemma AcceptedExactlyWhenTiled(all: seq<Registration>)
    ensures InvalidRegistrations(all) == 0 <==> forall domain, operator :: Tiled(all, domain, operator)
  {
    var s := Sort(Leq, all);
    LeqIsTotalOrder();
    SortSorts(Leq, all);
    CountZero(s);
    if AllValid(s) {
      forall domain, operator ensures Tiled(all, domain, operator) {
        ValidImpliesTiled(s, domain, operator);
        SameMembers(all, s, domain, operator);
      }
    }
    if forall domain, operator :: Tiled(all, domain, operator) {
      forall i | 0 <= i < |s| ensures ValidateRegistration(s[i], NextAt(s, i)) {
        assert Tiled(all, s[i].domain, s[i].operator);
        SameMembers(all, s, s[i].domain, s[i].operator);
        TiledImpliesValid(s, i);
      }
    }
  }

  /** In an accepted list, every version from a start up to an end lies in exactly one distinct interval. */
  lemma AcceptedCoversOnce(all: seq<Registration>, first: Registration, last: Registration, v: int)
    requires InvalidRegistrations(all) == 0
    requires first in all && last in all && SameOp(first, last) && first.start <= v && (last.end.Some? ==> v <= last.end.value)
    ensures exists p :: p in all && SameOp(p, first) && Covers(p, v)
                        && forall q :: q in all && SameOp(q, first) && Covers(q, v) ==> SameVersions(p, q)
  {
    var d, o := first.domain, first.operator;
    AcceptedExactlyWhenTiled(all);
    assert Tiled(all, d, o);
    assert For(all, d, o, first) && For(all, d, o, last);
    var p: Registration;
    if last.start <= v {
      p := last;
    } else {
      assert Covered(all, d, o, v);
      p :| For(all, d, o, p) && Covers(p, v);
    }
    forall q | q in all && SameOp(q, first) && Covers(q, v) ensures SameVersions(p, q) {
      assert For(all, d, o, q) && For(all, d, o, p);
    }
  }
}
