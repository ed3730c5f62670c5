/**
 * The allocation engine: raw per-person shares (equal split, or each line
 * split evenly among the people it is charged to), the proportional overlay of
 * service, tax and discount, per-person rounding, the rounding difference
 * against the rounded grand total, and the single top spender.
 *
 * Python keeps the shares in a dict keyed by name; with distinct names that
 * dict is a sequence aligned with `people`, which is how it is modelled here.
 */
module Allocation {
  import opened Seqs
  import opened Bill
  import opened Wrappers
  import Rounding

  /** The split-mode selector. */
  datatype Mode = PerItem | EqualSplit

  /**
   * What the model assumes about names. Distinct people is an assumption:
   * each name is a free text field. That every line is charged to distinct
   * people drawn from `people` is what the multi-select over the names gives.
   */
  predicate ValidPeople(items: seq<LineItem>, people: seq<string>)
  {
    && Distinct(people)
    && forall k :: 0 <= k < |items| ==>
         Distinct(items[k].chargedTo) && Elems(items[k].chargedTo) <= Elems(people)
  }

  /** Position of a name in `people`; Python's dict lookup `per_person[p]`. */
  function IndexOf(people: seq<string>, p: string): (i: nat)
    requires p in people
    ensures i < |people| && people[i] == p
  {
    if people[0] == p then 0 else 1 + IndexOf(people[1..], p)
  }

  // ---------------------------------------------------------------------------
  // Raw shares

  /** Equal split: everybody owes `subtotal / max(n, 1)`. */
  function EqualShares(subtotal: int, n: nat): seq<real>
  {
    Constant(n, subtotal as real / (if n > 1 then n else 1) as real)
  }

  /** What one line adds to each person: nothing if it is charged to nobody, else an even split. */
  function ItemContribution(x: LineItem, people: seq<string>): seq<real>
  {
    if |x.chargedTo| == 0 then Zeros(|people|)
    else Mask(people, Elems(x.chargedTo), LineTotal(x) as real / |x.chargedTo| as real)
  }

  /** Per-item split: the contributions of all lines, accumulated in order. */
  function PerItemShares(items: seq<LineItem>, people: seq<string>): (shares: seq<real>)
    ensures |shares| == |people|
    decreases |items|
  {
    if |items| == 0 then Zeros(|people|)
    else Add(PerItemShares(items[..|items| - 1], people), ItemContribution(items[|items| - 1], people))
  }

  function RawShares(items: seq<LineItem>, people: seq<string>, mode: Mode): seq<real>
  {
    match mode
    case EqualSplit => EqualShares(Subtotal(items), |people|)
    case PerItem => PerItemShares(items, people)
  }

  /**
   * The program's loops for the raw shares, updating one entry per assignee
   * as the dict update does; they compute the functional definition above.
   */
  method ComputeRawShares(items: seq<LineItem>, people: seq<string>, mode: Mode) returns (perPerson: seq<real>)
    requires ValidPeople(items, people)
    ensures perPerson == RawShares(items, people, mode)
  {
    if mode == EqualSplit {
      perPerson := SplitEqually(Subtotal(items), people);
    } else {
      perPerson := Zeros(|people|);
      for k := 0 to |items|
        invariant perPerson == PerItemShares(items[..k], people)
      {
        assert items[..k + 1][..k] == items[..k];
        perPerson := AddItem(perPerson, items[k], people);
      }
      assert items[..|items|] == items;
    }
  }

  /** The equal-split loop: `per_person[p] += subtotal / max(n, 1)` for every person. */
  method SplitEqually(subtotal: int, people: seq<string>) returns (perPerson: seq<real>)
    ensures perPerson == EqualShares(subtotal, |people|)
  {
    var share := subtotal as real / (if |people| > 1 then |people| else 1) as real;
    perPerson := Zeros(|people|);
    for i := 0 to |people|
      invariant |perPerson| == |people|
      invariant forall j :: 0 <= j < i ==> perPerson[j] == share
      invariant forall j :: i <= j < |people| ==> perPerson[j] == 0.0
    {
      perPerson := perPerson[i := perPerson[i] + share];
    }
  }

  /** One pass of the per-item loop: skip a line charged to nobody, else add its split to each assignee. */
  method AddItem(before: seq<real>, x: LineItem, people: seq<string>) returns (perPerson: seq<real>)
    requires |before| == |people| && Distinct(people)
    requires Distinct(x.chargedTo) && Elems(x.chargedTo) <= Elems(people)
    ensures perPerson == Add(before, ItemContribution(x, people))
  {
    perPerson := before;
    if |x.chargedTo| == 0 {
      assert Add(before, Zeros(|people|)) == before;
      return;
    }
    var split := LineTotal(x) as real / |x.chargedTo| as real;
    for j := 0 to |x.chargedTo|
      invariant |perPerson| == |people|
      invariant forall i :: 0 <= i < |people| ==>
                  perPerson[i] == before[i] + (if people[i] in x.chargedTo[..j] then split else 0.0)
    {
      var p := x.chargedTo[j];
      assert p in Elems(people);
      var idx := IndexOf(people, p);
      assert x.chargedTo[..j + 1] == x.chargedTo[..j] + [p];
      assert p !in x.chargedTo[..j];
      perPerson := perPerson[idx := perPerson[idx] + split];
    }
    assert x.chargedTo[..|x.chargedTo|] == x.chargedTo;
  }

  lemma ValidPeoplePrefix(items: seq<LineItem>, people: seq<string>, n: nat)
    requires ValidPeople(items, people) && n <= |items|
    ensures ValidPeople(items[..n], people)
  {
    forall k | 0 <= k < n
      ensures Distinct(items[..n][k].chargedTo) && Elems(items[..n][k].chargedTo) <= Elems(people)
    {
      assert items[..n][k] == items[k];
    }
  }

  /** A line charged to somebody hands out exactly its total; one charged to nobody hands out nothing. */
  lemma ItemContributionSum(x: LineItem, people: seq<string>)
    requires Distinct(people) && Distinct(x.chargedTo) && Elems(x.chargedTo) <= Elems(people)
    ensures Sum(ItemContribution(x, people)) == (if |x.chargedTo| > 0 then LineTotal(x) else 0) as real
  {
    if |x.chargedTo| == 0 {
      SumZeros(|people|);
    } else {
      var a := Elems(x.chargedTo);
      var n := |x.chargedTo|;
      var split := LineTotal(x) as real / n as real;
      SumMask(people, a, split);
      assert Elems(people) * a == a;
      DistinctCardinality(x.chargedTo);
      assert split * n as real == LineTotal(x) as real;
    }
  }

  /** Per-item raw shares add up to the total of the lines charged to somebody. */
  lemma {:induction false} PerItemSharesSum(items: seq<LineItem>, people: seq<string>)
    requires ValidPeople(items, people)
    ensures Sum(PerItemShares(items, people)) == AssignedTotal(items) as real
    decreases |items|
  {
    if |items| == 0 {
      SumZeros(|people|);
    } else {
      var n := |items| - 1;
      ValidPeoplePrefix(items, people, n);
      PerItemSharesSum(items[..n], people);
      ItemContributionSum(items[n], people);
      SumAdd(PerItemShares(items[..n], people), ItemContribution(items[n], people));
    }
  }

  /** Equal-split raw shares add up to the subtotal when there is at least one person. */
  lemma EqualSharesSum(subtotal: int, n: nat)
    requires n >= 1
    ensures Sum(EqualShares(subtotal, n)) == subtotal as real
  {
    SumConstant(n, subtotal as real / n as real);
  }

  /**
   * Raw shares are conserved: in per-item mode they sum to the total of the
   * lines charged to somebody, in equal mode to the whole subtotal.
   */
  lemma RawSharesSum(items: seq<LineItem>, people: seq<string>, mode: Mode)
    requires ValidPeople(items, people)
    requires mode == EqualSplit ==> |people| >= 1
    ensures Sum(RawShares(items, people, mode)) == match mode
      case PerItem => AssignedTotal(items) as real
      case EqualSplit => Subtotal(items) as real
  {
    match mode
    case PerItem => PerItemSharesSum(items, people);
    case EqualSplit => EqualSharesSum(Subtotal(items), |people|);
  }

  /** With non-negative prices every raw share is non-negative. */
  lemma {:induction false} PerItemSharesNonNegative(items: seq<LineItem>, people: seq<string>)
    requires ValidItems(items)
    ensures forall i :: 0 <= i < |people| ==> PerItemShares(items, people)[i] >= 0.0
    decreases |items|
  {
    if |items| > 0 {
      var n := |items| - 1;
      assert ValidItems(items[..n]) by {
        forall k | 0 <= k < n
          ensures ValidItem(items[..n][k])
        {
          assert items[..n][k] == items[k];
        }
      }
      PerItemSharesNonNegative(items[..n], people);
      assert ValidItem(items[n]);
      assert LineTotal(items[n]) >= 0;
    }
  }

  lemma RawSharesNonNegative(items: seq<LineItem>, people: seq<string>, mode: Mode)
    requires ValidItems(items)
    ensures forall i :: 0 <= i < |people| ==> RawShares(items, people, mode)[i] >= 0.0
  {
    match mode
    case PerItem => PerItemSharesNonNegative(items, people);
    case EqualSplit => SubtotalNonNegative(items);
  }

  // ---------------------------------------------------------------------------
  // Proportional overlay of service, tax and discount

  /** `sum(per_person.values()) or 1`. */
  function PreAllocTotal(raw: seq<real>): real
  {
    if Sum(raw) == 0.0 then 1.0 else Sum(raw)
  }

  /** Each share gains its weight's part of service and tax and loses its part of the discount. */
  function Overlay(raw: seq<real>, service: real, tax: real, discount: real): (adjusted: seq<real>)
    ensures |adjusted| == |raw|
  {
    var pre := PreAllocTotal(raw);
    seq(|raw|, i requires 0 <= i < |raw| =>
      var w := raw[i] / pre;
      raw[i] + w * service + w * tax - w * discount)
  }

  /** The common factor every share is multiplied by. */
  function OverlayFactor(raw: seq<real>, service: real, tax: real, discount: real): real
  {
    1.0 + (service + tax - discount) / PreAllocTotal(raw)
  }

  lemma OverlayEntry(v: real, pre: real, service: real, tax: real, discount: real)
    requires pre != 0.0
    ensures v + (v / pre) * service + (v / pre) * tax - (v / pre) * discount
            == (1.0 + (service + tax - discount) / pre) * v
  {
    var w := v / pre;
    assert w * service + w * tax - w * discount == w * (service + tax - discount);
    assert w * (service + tax - discount) == ((service + tax - discount) / pre) * v;
  }

  /** The overlay scales every raw share by the same factor, so the weights are preserved. */
  lemma OverlayProportional(raw: seq<real>, service: real, tax: real, discount: real)
    ensures Overlay(raw, service, tax, discount) == Scale(OverlayFactor(raw, service, tax, discount), raw)
  {
    var adjusted := Overlay(raw, service, tax, discount);
    var f := OverlayFactor(raw, service, tax, discount);
    forall i | 0 <= i < |raw|
      ensures adjusted[i] == Scale(f, raw)[i]
    {
      OverlayEntry(raw[i], PreAllocTotal(raw), service, tax, discount);
    }
  }

  /**
   * The overlay hands out exactly service plus tax minus discount on top of
   * the raw shares, unless the raw shares sum to zero, in which case the
   * adjusted shares sum to zero too.
   */
  lemma OverlaySum(raw: seq<real>, service: real, tax: real, discount: real)
    ensures Sum(raw) != 0.0 ==>
              Sum(Overlay(raw, service, tax, discount)) == Sum(raw) + service + tax - discount
    ensures Sum(raw) == 0.0 ==> Sum(Overlay(raw, service, tax, discount)) == 0.0
  {
    var f := OverlayFactor(raw, service, tax, discount);
    OverlayProportional(raw, service, tax, discount);
    SumScale(f, raw);
    if Sum(raw) != 0.0 {
      var S := Sum(raw);
      assert f * S == S + (service + tax - discount) / S * S;
    }
  }

  /** Non-negative raw shares that sum to zero stay zero after the overlay. */
  lemma OverlayKeepsZero(raw: seq<real>, service: real, tax: real, discount: real)
    requires forall i :: 0 <= i < |raw| ==> raw[i] >= 0.0
    requires Sum(raw) == 0.0
    ensures forall i :: 0 <= i < |raw| ==> Overlay(raw, service, tax, discount)[i] == 0.0
  {
    SumZeroNonNegative(raw);
  }

  // ---------------------------------------------------------------------------
  // Rounding and the reconciliation difference

  /** `round_rule` applied to every adjusted share. */
  function RoundShares(adjusted: seq<real>, rule: Rounding.Rule): (rounded: seq<int>)
    ensures |rounded| == |adjusted|
    ensures forall i :: 0 <= i < |adjusted| ==>
              && rounded[i] % Rounding.Step(rule) == 0
              && Rounding.Abs(rounded[i] as real - adjusted[i]) <= Rounding.Step(rule) as real / 2.0
  {
    seq(|adjusted|, i requires 0 <= i < |adjusted| => Rounding.RoundRule(adjusted[i], rule))
  }

  /** `int(round(grand_total)) - sum_rounded`. */
  function RoundingDiff(grandTotal: real, rounded: seq<int>): int
  {
    Rounding.RoundHalfEven(grandTotal) - SumInt(rounded)
  }

  /** Half a step for each of `n` shares; `SlackClosed` gives it in closed form. */
  function Slack(n: nat, rule: Rounding.Rule): (s: real)
    ensures s >= 0.0
  {
    if n == 0 then 0.0 else Slack(n - 1, rule) + Rounding.Step(rule) as real / 2.0
  }

  lemma {:induction false} SlackClosed(n: nat, rule: Rounding.Rule)
    ensures Slack(n, rule) * 2.0 == n as real * Rounding.Step(rule) as real
  {
    if n > 0 {
      SlackClosed(n - 1, rule);
      assert n as real * Rounding.Step(rule) as real
          == (n - 1) as real * Rounding.Step(rule) as real + Rounding.Step(rule) as real;
    }
  }

  lemma RoundSharesPrefix(adjusted: seq<real>, rule: Rounding.Rule)
    requires |adjusted| > 0
    ensures RoundShares(adjusted, rule)[..|adjusted| - 1] == RoundShares(adjusted[..|adjusted| - 1], rule)
  {
    var n := |adjusted| - 1;
    forall i | 0 <= i < n
      ensures RoundShares(adjusted, rule)[..n][i] == RoundShares(adjusted[..n], rule)[i]
    {
      assert adjusted[..n][i] == adjusted[i];
    }
  }

  /** Each rounded share is off by at most half a step, so the errors of `n` shares add up to at most `Slack(n)`. */
  lemma {:induction false} RoundedSumNear(adjusted: seq<real>, rule: Rounding.Rule)
    ensures Rounding.Abs(SumInt(RoundShares(adjusted, rule)) as real - Sum(adjusted)) <= Slack(|adjusted|, rule)
    decreases |adjusted|
  {
    if |adjusted| > 0 {
      var n := |adjusted| - 1;
      var rounded := RoundShares(adjusted, rule);
      RoundSharesPrefix(adjusted, rule);
      RoundedSumNear(adjusted[..n], rule);
      var e1 := SumInt(rounded[..n]) as real - Sum(adjusted[..n]);
      var e2 := rounded[n] as real - adjusted[n];
      assert SumInt(rounded) as real - Sum(adjusted) == e1 + e2;
    } else {
      assert SumInt(RoundShares(adjusted, rule)) == 0;
    }
  }

  /**
   * When the adjusted shares add up to the grand total, the reported
   * difference is at most `Slack(n) + 1/2` in size, that is (n * step + 1) / 2:
   * n half-steps from the shares and one half from rounding the grand total.
   */
  lemma RoundingDiffBound(adjusted: seq<real>, rule: Rounding.Rule, grandTotal: real)
    requires Sum(adjusted) == grandTotal
    ensures Rounding.Abs(RoundingDiff(grandTotal, RoundShares(adjusted, rule)) as real)
            <= Slack(|adjusted|, rule) + 0.5
  {
    RoundedSumNear(adjusted, rule);
  }

  // ---------------------------------------------------------------------------
  // The top spender

  function MaxOf(v: seq<int>): (m: int)
    requires |v| > 0
    ensures forall i :: 0 <= i < |v| ==> v[i] <= m
    ensures exists i :: 0 <= i < |v| && v[i] == m
    decreases |v|
  {
    if |v| == 1 then v[0]
    else
      var m := MaxOf(v[..|v| - 1]);
      assert forall i :: 0 <= i < |v| - 1 ==> v[..|v| - 1][i] == v[i];
      if v[|v| - 1] > m then v[|v| - 1] else m
  }

  /** The positions holding `m`, in increasing order (the `leaders` list). */
  function IndicesOf(v: seq<int>, m: int): (r: seq<nat>)
    ensures forall k :: 0 <= k < |r| ==> r[k] < |v| && v[r[k]] == m
    ensures forall i :: 0 <= i < |v| && v[i] == m ==> i in r
    ensures forall a, b :: 0 <= a < b < |r| ==> r[a] < r[b]
    decreases |v|
  {
    if |v| == 0 then []
    else
      var n := |v| - 1;
      var r := IndicesOf(v[..n], m);
      assert forall i :: 0 <= i < n ==> v[..n][i] == v[i];
      r + (if v[n] == m then [n] else [])
  }

  /** Person `i` has a rounded share strictly larger than everybody else's. */
  predicate IsUniqueMax(v: seq<int>, i: nat)
  {
    i < |v| && forall j :: 0 <= j < |v| && j != i ==> v[j] < v[i]
  }

  /** If one person has the unique maximum, the `leaders` list holds just that person. */
  lemma LeadersOfUniqueMax(v: seq<int>)
    requires |v| > 0
    ensures forall i: nat :: IsUniqueMax(v, i) ==> IndicesOf(v, MaxOf(v)) == [i]
  {
    forall i: nat | IsUniqueMax(v, i)
      ensures IndicesOf(v, MaxOf(v)) == [i]
    {
      IndicesOfSingle(v, MaxOf(v), i);
    }
  }

  /** A value held at exactly one position is listed once, at that position. */
  lemma {:induction false} IndicesOfSingle(v: seq<int>, m: int, i: nat)
    requires i < |v| && v[i] == m
    requires forall j :: 0 <= j < |v| && j != i ==> v[j] != m
    ensures IndicesOf(v, m) == [i]
    decreases |v|
  {
    var n := |v| - 1;
    assert forall j :: 0 <= j < n ==> v[..n][j] == v[j];
    if i == n {
      IndicesOfNone(v[..n], m);
    } else {
      IndicesOfSingle(v[..n], m, i);
    }
  }

  /** A value held nowhere has no positions. */
  lemma {:induction false} IndicesOfNone(v: seq<int>, m: int)
    requires forall j :: 0 <= j < |v| ==> v[j] != m
    ensures IndicesOf(v, m) == []
    decreases |v|
  {
    if |v| > 0 {
      var n := |v| - 1;
      assert forall j :: 0 <= j < n ==> v[..n][j] == v[j];
      IndicesOfNone(v[..n], m);
    }
  }

  /** The highlighted person: the only one attaining the maximum, if exactly one does. */
  function TopSpender(v: seq<int>): (top: Option<nat>)
    requires |v| > 0
    ensures top.Some? ==> IsUniqueMax(v, top.value)
    ensures top.None? ==> forall i :: 0 <= i < |v| ==> !IsUniqueMax(v, i)
  {
    var leaders := IndicesOf(v, MaxOf(v));
    LeadersOfUniqueMax(v);
    if |leaders| == 1 then Some(leaders[0]) else None
  }

  /** Two people sharing the maximum suppress the highlight for everybody. */
  lemma TieSuppressesTopSpender(v: seq<int>, i: nat, j: nat)
    requires i < |v| && j < |v| && i != j && v[i] == v[j]
    requires forall k :: 0 <= k < |v| ==> v[k] <= v[i]
    ensures TopSpender(v) == None
  {
  }

  /** `TopSpender` names person `i` exactly when `i` has the unique maximum. */
  lemma TopSpenderIff(v: seq<int>, i: nat)
    requires |v| > 0
    ensures TopSpender(v) == Some(i) <==> IsUniqueMax(v, i)
  {
  }

  // ---------------------------------------------------------------------------
  // The whole computation

  datatype Breakdown = Breakdown(
    raw: seq<real>,
    adjusted: seq<real>,
    rounded: seq<int>,
    diff: int,
    topSpender: Option<nat>)

  datatype Report = Report(totals: Totals, breakdown: Option<Breakdown>)

  /** The per-person result, as computed once the ready gate is open. */
  function Allocate(items: seq<LineItem>, people: seq<string>, cfg: Config, mode: Mode, t: Totals): (b: Breakdown)
    requires |people| > 0
    ensures |b.raw| == |b.adjusted| == |b.rounded| == |people|
    ensures forall i :: 0 <= i < |people| ==> b.rounded[i] % Rounding.Step(cfg.rounding) == 0
    ensures b.topSpender.Some? ==> IsUniqueMax(b.rounded, b.topSpender.value)
    ensures b.topSpender.None? ==> forall i :: 0 <= i < |people| ==> !IsUniqueMax(b.rounded, i)
  {
    var raw := RawShares(items, people, mode);
    var adjusted := Overlay(raw, t.service, t.tax, t.discountAmount);
    var rounded := RoundShares(adjusted, cfg.rounding);
    Breakdown(raw, adjusted, rounded, RoundingDiff(t.grandTotal, rounded), TopSpender(rounded))
  }

  /** With the model's assumptions about people, the ready gate implies there is somebody to pay. */
  lemma ReadyHasPeople(items: seq<LineItem>, people: seq<string>)
    requires ValidPeople(items, people) && Ready(items, people)
    ensures |people| > 0
  {
    var k :| 0 <= k < |items| && LineTotal(items[k]) > 0 && |items[k].chargedTo| > 0;
    assert items[k].chargedTo[0] in Elems(people);
  }

  /** Totals always; the per-person breakdown exactly when the ready gate is open. */
  function SplitBill(items: seq<LineItem>, people: seq<string>, cfg: Config, mode: Mode): (r: Report)
    requires ValidPeople(items, people)
    ensures r.breakdown.Some? <==> Ready(items, people)
    ensures r.breakdown.Some? ==> |r.breakdown.value.rounded| == |people| > 0
  {
    var t := ComputeTotals(items, cfg);
    if Ready(items, people) then
      ReadyHasPeople(items, people);
      Report(t, Some(Allocate(items, people, cfg, mode, t)))
    else
      Report(t, None)
  }

  /**
   * The conservation law of the allocator. Once the gate is open, the
   * adjusted shares fall short of the grand total by exactly the lines
   * charged to nobody (nothing in equal mode).
   */
  lemma AdjustedSharesShortfall(items: seq<LineItem>, people: seq<string>, cfg: Config, mode: Mode)
    requires ValidPeople(items, people) && ValidItems(items) && ValidConfig(cfg)
    requires Ready(items, people)
    ensures var r := SplitBill(items, people, cfg, mode);
            r.totals.grandTotal - Sum(r.breakdown.value.adjusted) == match mode
              case PerItem => UnassignedTotal(items) as real
              case EqualSplit => 0.0
  {
    var t := ComputeTotals(items, cfg);
    ReadyHasPeople(items, people);
    ReadyReduces(items, people);
    SubtotalSplits(items);
    SubtotalNonNegative(items);
    var raw := RawShares(items, people, mode);
    RawSharesSum(items, people, mode);
    assert Sum(raw) > 0.0;
    OverlaySum(raw, t.service, t.tax, t.discountAmount);
  }

  /**
   * When every line is charged to somebody (or the split is equal), the
   * adjusted shares add up to the grand total exactly, and the reported
   * rounding difference is at most `Slack(n) + 1/2`, i.e. (n * step + 1) / 2, in size.
   */
  lemma FullyAssignedBillBalances(items: seq<LineItem>, people: seq<string>, cfg: Config, mode: Mode)
    requires ValidPeople(items, people) && ValidItems(items) && ValidConfig(cfg)
    requires Ready(items, people)
    requires mode == PerItem ==> forall k :: 0 <= k < |items| ==> |items[k].chargedTo| > 0
    ensures var r := SplitBill(items, people, cfg, mode);
            && Sum(r.breakdown.value.adjusted) == r.totals.grandTotal
            && Rounding.Abs(r.breakdown.value.diff as real) <= Slack(|people|, cfg.rounding) + 0.5
  {
    var t := ComputeTotals(items, cfg);
    ReadyHasPeople(items, people);
    var b := Allocate(items, people, cfg, mode, t);
    assert SplitBill(items, people, cfg, mode) == Report(t, Some(b));
    AdjustedSharesShortfall(items, people, cfg, mode);
    if mode == PerItem {
      NoUnassignedLines(items);
    }
    assert Sum(b.adjusted) == t.grandTotal;
    RoundingDiffBound(b.adjusted, cfg.rounding, t.grandTotal);
    assert b.diff == RoundingDiff(t.grandTotal, RoundShares(b.adjusted, cfg.rounding));
  }

  /** A reported difference within half a step per person, plus one half, of `shortfall`. */
  predicate DiffNear(diff: int, shortfall: int, n: nat, rule: Rounding.Rule)
  {
    Rounding.Abs(diff as real - shortfall as real) <= Slack(n, rule) + 0.5
  }

  /**
   * In per-item mode the reported "rounding difference" also carries the
   * total of the lines charged to nobody: it differs from that total by at
   * most `Slack(n) + 1/2`, whatever rounding contributes.
   */
  lemma UnassignedLinesInDiff(items: seq<LineItem>, people: seq<string>, cfg: Config)
    requires ValidPeople(items, people) && ValidItems(items) && ValidConfig(cfg)
    requires Ready(items, people)
    ensures var r := SplitBill(items, people, cfg, PerItem);
            DiffNear(r.breakdown.value.diff, UnassignedTotal(items), |people|, cfg.rounding)
  {
    var r := SplitBill(items, people, cfg, PerItem);
    AdjustedSharesShortfall(items, people, cfg, PerItem);
    ReportedDiff(items, people, cfg, PerItem);
    RoundingDiffNearShortfall(r.breakdown.value.adjusted, cfg.rounding, r.totals.grandTotal,
                              UnassignedTotal(items) as real, r.breakdown.value.diff, |people|);
  }

  /** The reported difference is taken between the grand total and the rounded adjusted shares. */
  lemma ReportedDiff(items: seq<LineItem>, people: seq<string>, cfg: Config, mode: Mode)
    requires ValidPeople(items, people) && Ready(items, people)
    ensures var r := SplitBill(items, people, cfg, mode);
            && |r.breakdown.value.adjusted| == |people|
            && r.breakdown.value.diff
               == RoundingDiff(r.totals.grandTotal, RoundShares(r.breakdown.value.adjusted, cfg.rounding))
  {
    var t := ComputeTotals(items, cfg);
    ReadyHasPeople(items, people);
    var b := Allocate(items, people, cfg, mode, t);
    assert SplitBill(items, people, cfg, mode) == Report(t, Some(b));
  }

  /**
   * `RoundingDiffBound` when the `n` adjusted shares fall short of the grand
   * total by `shortfall`: the difference is then near the shortfall instead of zero.
   */
  lemma RoundingDiffNearShortfall(adjusted: seq<real>, rule: Rounding.Rule, grandTotal: real,
                                  shortfall: real, diff: int, n: nat)
    requires grandTotal - Sum(adjusted) == shortfall
    requires diff == RoundingDiff(grandTotal, RoundShares(adjusted, rule))
    requires |adjusted| == n
    ensures Rounding.Abs(diff as real - shortfall) <= Slack(n, rule) + 0.5
  {
    var roundedSum := SumInt(RoundShares(adjusted, rule));
    RoundedSumNear(adjusted, rule);
    DiffAroundShortfall(grandTotal, Sum(adjusted), shortfall, roundedSum, Slack(n, rule), diff);
  }

  /** Rounding the total and rounding the shares each move the difference a bounded distance. */
  lemma DiffAroundShortfall(grandTotal: real, adjustedSum: real, shortfall: real, roundedSum: int,
                            slack: real, diff: int)
    requires grandTotal - adjustedSum == shortfall
    requires Rounding.Abs(roundedSum as real - adjustedSum) <= slack
    requires diff == Rounding.RoundHalfEven(grandTotal) - roundedSum
    ensures Rounding.Abs(diff as real - shortfall) <= slack + 0.5
  {
  }

  lemma {:induction false} NoUnassignedLines(items: seq<LineItem>)
    requires forall k :: 0 <= k < |items| ==> |items[k].chargedTo| > 0
    ensures UnassignedTotal(items) == 0
    decreases |items|
  {
    if |items| > 0 {
      var n := |items| - 1;
      assert forall k :: 0 <= k < n ==> items[..n][k] == items[k];
      NoUnassignedLines(items[..n]);
    }
  }

  // ---------------------------------------------------------------------------
  // A worked example: one 30000 line bought twice, shared by A and B, with
  // 10% tax on the subtotal, 5% service and no rounding.

  function ExampleItems(): seq<LineItem>
  {
    [LineItem("Item 1", 30000, 2, ["A", "B"])]
  }

  function ExampleConfig(): Config
  {
    Config(10.0, 5.0, 0.0, OnSubtotal, Rounding.NoRounding)
  }

  lemma ExampleTotals()
    ensures ComputeTotals(ExampleItems(), ExampleConfig()) == Totals(60000, 0.0, 60000.0, 3000.0, 6000.0, 69000.0)
  {
    var items := ExampleItems();
    assert items[..0] == [];
    assert Subtotal(items) == 60000;
  }

  lemma ExampleReady()
    ensures Ready(ExampleItems(), ["A", "B"])
  {
    var items := ExampleItems();
    assert items[..0] == [];
    assert Subtotal(items) == 60000;
    ExampleNames();
    assert LineTotal(items[0]) > 0 && |items[0].chargedTo| > 0;
  }

  lemma ExampleNames()
    ensures HasNames(["A", "B"])
  {
    var people := ["A", "B"];
    forall i | 0 <= i < |people|
      ensures Strip(people[i]) != []
    {
      NonBlankName(people[i]);
    }
  }

  lemma NonBlankName(s: string)
    requires |s| > 0 && 'A' <= s[0] <= 'Z'
    ensures Strip(s) != []
  {
    assert !IsSpace(s[0]);
    StripNonBlank(s);
  }

  lemma ExampleRaw()
    ensures RawShares(ExampleItems(), ["A", "B"], PerItem) == [30000.0, 30000.0]
  {
    var items := ExampleItems();
    var people := ["A", "B"];
    assert items[..0] == [];
    var c := ItemContribution(items[0], people);
    assert Elems(items[0].chargedTo) == {"A", "B"};
    assert c == [30000.0, 30000.0];
    assert PerItemShares(items[..0], people) == [0.0, 0.0];
  }

  lemma ExampleOverlay()
    ensures Overlay([30000.0, 30000.0], 3000.0, 6000.0, 0.0) == [34500.0, 34500.0]
  {
    var raw := [30000.0, 30000.0];
    assert Sum(raw) == 60000.0 by {
      assert raw[..1] == [30000.0];
      assert raw[..1][..0] == [];
    }
    var adjusted := Overlay(raw, 3000.0, 6000.0, 0.0);
    assert PreAllocTotal(raw) == 60000.0;
    assert adjusted[0] == 34500.0 && adjusted[1] == 34500.0;
  }

  lemma ExampleRounded()
    ensures RoundShares([34500.0, 34500.0], Rounding.NoRounding) == [34500, 34500]
    ensures SumInt([34500, 34500]) == 69000
    ensures TopSpender([34500, 34500]) == None
  {
    Rounding.RoundHalfAwayUnique(34500.0, 34500);
    var rounded := [34500, 34500];
    assert rounded[..1] == [34500];
    assert rounded[..1][..0] == [];
    TieSuppressesTopSpender(rounded, 0, 1);
  }

  /** Each diner pays 34500, nothing is left to reconcile, and the tie suppresses the highlight. */
  lemma TwoDinersExample()
    ensures var r := SplitBill(ExampleItems(), ["A", "B"], ExampleConfig(), PerItem);
            && r.totals.grandTotal == 69000.0
            && r.breakdown.Some?
            && r.breakdown.value.rounded == [34500, 34500]
            && r.breakdown.value.diff == 0
            && r.breakdown.value.topSpender == None
  {
    ExampleTotals();
    ExampleReady();
    ExampleRaw();
    ExampleOverlay();
    ExampleRounded();
    Rounding.RoundHalfEvenUnique(69000.0, 69000);
  }
}
