/**
 * The bill: line items, the global adjustment settings, the totals computed
 * from them, and the gate that decides whether a per-person breakdown is shown.
 */
module Bill {
  import opened Seqs
  import Rounding

  /**
   * One receipt line. Prices are whole rupiah; the input widgets keep the unit
   * price non-negative and the quantity at least one (see `ValidItem`).
   * `chargedTo` lists the people the line is charged to.
   */
  datatype LineItem = LineItem(name: string, unitPrice: int, qty: int, chargedTo: seq<string>)

  /** Whether tax is charged on the discounted subtotal alone or with the service charge added. */
  datatype TaxBase = OnSubtotal | OnSubtotalPlusService

  /** The sidebar settings; percentages are exact reals. */
  datatype Config = Config(
    taxPct: real,
    servicePct: real,
    discountPct: real,
    taxBase: TaxBase,
    rounding: Rounding.Rule)

  datatype Totals = Totals(
    subtotal: int,
    discountAmount: real,
    discountedSubtotal: real,
    service: real,
    tax: real,
    grandTotal: real)

  /** The bounds the input widgets enforce on an item. */
  predicate ValidItem(x: LineItem)
  {
    x.unitPrice >= 0 && x.qty >= 1
  }

  predicate ValidItems(items: seq<LineItem>)
  {
    forall k :: 0 <= k < |items| ==> ValidItem(items[k])
  }

  /** The bounds the input widgets enforce on the settings. */
  predicate ValidConfig(c: Config)
  {
    c.taxPct >= 0.0 && c.servicePct >= 0.0 && 0.0 <= c.discountPct <= 100.0
  }

  function LineTotal(x: LineItem): int
  {
    x.unitPrice * x.qty
  }

  function Subtotal(items: seq<LineItem>): int
    decreases |items|
  {
    if |items| == 0 then 0 else Subtotal(items[..|items| - 1]) + LineTotal(items[|items| - 1])
  }

  /** Total of the lines charged to at least one person. */
  function AssignedTotal(items: seq<LineItem>): int
    decreases |items|
  {
    if |items| == 0 then 0
    else
      var x := items[|items| - 1];
      AssignedTotal(items[..|items| - 1]) + (if |x.chargedTo| > 0 then LineTotal(x) else 0)
  }

  /** Total of the lines charged to nobody. */
  function UnassignedTotal(items: seq<LineItem>): int
    decreases |items|
  {
    if |items| == 0 then 0
    else
      var x := items[|items| - 1];
      UnassignedTotal(items[..|items| - 1]) + (if |x.chargedTo| == 0 then LineTotal(x) else 0)
  }

  /**
   * The totals, in the program's order: discount on the subtotal (the
   * discounted subtotal clamped at zero), service on the original subtotal,
   * tax on the chosen base, then the grand total.
   */
  function ComputeTotals(items: seq<LineItem>, cfg: Config): (t: Totals)
    ensures t.subtotal == Subtotal(items)
    ensures t.discountedSubtotal >= 0.0
    ensures t.subtotal >= 0 && cfg.discountPct <= 100.0 ==>
              t.discountedSubtotal == t.subtotal as real - t.discountAmount
    ensures t.grandTotal == t.discountedSubtotal + t.service + t.tax
  {
    var subtotal := Subtotal(items);
    var s := subtotal as real;
    var discountAmount := s * (cfg.discountPct / 100.0);
    PercentOf(s, cfg.discountPct);
    var discounted := if s - discountAmount > 0.0 then s - discountAmount else 0.0;
    var service := s * (cfg.servicePct / 100.0);
    var tax := match cfg.taxBase
      case OnSubtotal => discounted * (cfg.taxPct / 100.0)
      case OnSubtotalPlusService => (discounted + service) * (cfg.taxPct / 100.0);
    Totals(subtotal, discountAmount, discounted, service, tax, discounted + service + tax)
  }

  /** The facts about a percentage of an amount that the totals rely on. */
  lemma PercentOf(x: real, pct: real)
    ensures x == 0.0 ==> x * (pct / 100.0) == 0.0
    ensures x >= 0.0 && pct >= 0.0 ==> x * (pct / 100.0) >= 0.0
    ensures x >= 0.0 && pct <= 100.0 ==> x - x * (pct / 100.0) >= 0.0
  {
    if x >= 0.0 && pct <= 100.0 {
      assert x - x * (pct / 100.0) == x * (1.0 - pct / 100.0);
      assert x * (1.0 - pct / 100.0) >= 0.0;
    }
  }

  /** An empty (or all-free) bill has nothing to discount, serve or tax. */
  lemma TotalsOfZeroSubtotal(items: seq<LineItem>, cfg: Config)
    requires Subtotal(items) == 0
    ensures ComputeTotals(items, cfg) == Totals(0, 0.0, 0.0, 0.0, 0.0, 0.0)
  {
    PercentOf(0.0, cfg.discountPct);
    PercentOf(0.0, cfg.servicePct);
    PercentOf(0.0, cfg.taxPct);
  }

  /**
   * Within the widget bounds every component is non-negative, the discount
   * never exceeds the subtotal, and the grand total is at least the
   * discounted subtotal.
   */
  lemma TotalsNonNegative(items: seq<LineItem>, cfg: Config)
    requires ValidItems(items) && ValidConfig(cfg)
    ensures var t := ComputeTotals(items, cfg);
            && t.discountAmount >= 0.0 && t.service >= 0.0 && t.tax >= 0.0
            && t.discountAmount <= t.subtotal as real
            && t.grandTotal >= t.discountedSubtotal
  {
    SubtotalNonNegative(items);
    var t := ComputeTotals(items, cfg);
    var S := Subtotal(items) as real;
    var discount := S * (cfg.discountPct / 100.0);
    var service := S * (cfg.servicePct / 100.0);
    PercentOf(S, cfg.discountPct);
    PercentOf(S, cfg.servicePct);
    var dsub := if S - discount > 0.0 then S - discount else 0.0;
    assert t.discountAmount == discount && t.service == service;
    assert t.discountedSubtotal == dsub;
    assert discount <= S;
    var base := match cfg.taxBase
      case OnSubtotal => dsub
      case OnSubtotalPlusService => dsub + service;
    assert base >= 0.0;
    PercentOf(base, cfg.taxPct);
    assert t.tax == base * (cfg.taxPct / 100.0);
  }

  // ---------------------------------------------------------------------------
  // Sums over the items

  lemma {:induction false} SubtotalSplits(items: seq<LineItem>)
    ensures Subtotal(items) == AssignedTotal(items) + UnassignedTotal(items)
    decreases |items|
  {
    if |items| > 0 {
      SubtotalSplits(items[..|items| - 1]);
    }
  }

  lemma {:induction false} SubtotalNonNegative(items: seq<LineItem>)
    requires ValidItems(items)
    ensures Subtotal(items) >= 0
    ensures AssignedTotal(items) >= 0 && UnassignedTotal(items) >= 0
    decreases |items|
  {
    if |items| > 0 {
      var x := items[|items| - 1];
      assert ValidItem(x);
      assert LineTotal(x) >= 0;
      SubtotalNonNegative(items[..|items| - 1]);
    }
  }

  /** With valid items, a line charged to somebody bounds the assigned total from below. */
  lemma {:induction false} AssignedTotalAtLeastLine(items: seq<LineItem>, k: int)
    requires ValidItems(items)
    requires 0 <= k < |items| && |items[k].chargedTo| > 0
    ensures AssignedTotal(items) >= LineTotal(items[k])
    decreases |items|
  {
    var n := |items| - 1;
    SubtotalNonNegative(items[..n]);
    assert LineTotal(items[n]) >= 0;
    if k < n {
      assert items[..n][k] == items[k];
      AssignedTotalAtLeastLine(items[..n], k);
    }
  }

  // ---------------------------------------------------------------------------
  // Properties of the totals

  /** Service is charged on the original subtotal: neither the discount nor the tax settings change it. */
  lemma ServiceIgnoresDiscount(items: seq<LineItem>, c1: Config, c2: Config)
    requires c1.servicePct == c2.servicePct
    ensures ComputeTotals(items, c1).service == ComputeTotals(items, c2).service
  {
  }

  /** Taxing the service charge as well adds exactly the tax on the service charge. */
  lemma TaxBaseDifference(items: seq<LineItem>, cfg: Config)
    ensures var plus := ComputeTotals(items, cfg.(taxBase := OnSubtotalPlusService));
            var base := ComputeTotals(items, cfg.(taxBase := OnSubtotal));
            plus.tax - base.tax == plus.service * cfg.taxPct / 100.0
  {
    var plus := ComputeTotals(items, cfg.(taxBase := OnSubtotalPlusService));
    var base := ComputeTotals(items, cfg.(taxBase := OnSubtotal));
    var r := cfg.taxPct / 100.0;
    assert plus.discountedSubtotal == base.discountedSubtotal;
    assert plus.tax == (plus.discountedSubtotal + plus.service) * r;
    assert base.tax == base.discountedSubtotal * r;
  }

  /**
   * In closed form, with rates d, s and t (percent over 100) and the
   * discount within its bounds: the grand total is S(1-d)(1+t) + S*s when
   * only the discounted subtotal is taxed, and S(1-d+s)(1+t) when the service
   * charge is taxed too.
   */
  lemma GrandTotalClosedForm(items: seq<LineItem>, cfg: Config)
    requires ValidItems(items) && ValidConfig(cfg)
    ensures var t := ComputeTotals(items, cfg);
            var S := Subtotal(items) as real;
            var d := cfg.discountPct / 100.0;
            var s := cfg.servicePct / 100.0;
            var r := cfg.taxPct / 100.0;
            t.grandTotal == match cfg.taxBase
              case OnSubtotal => S * (1.0 - d) * (1.0 + r) + S * s
              case OnSubtotalPlusService => S * (1.0 - d + s) * (1.0 + r)
  {
    SubtotalNonNegative(items);
    var S := Subtotal(items) as real;
    var d := cfg.discountPct / 100.0;
    var s := cfg.servicePct / 100.0;
    var r := cfg.taxPct / 100.0;
    var dsub := if S - S * d > 0.0 then S - S * d else 0.0;
    PercentOf(S, cfg.discountPct);
    match cfg.taxBase
    case OnSubtotal =>
      ClosedFormOnSubtotal(dsub, S * s, dsub * r, dsub + S * s + dsub * r, S, d, s, r);
    case OnSubtotalPlusService =>
      ClosedFormOnSubtotalPlusService(dsub, S * s, (dsub + S * s) * r, dsub + S * s + (dsub + S * s) * r, S, d, s, r);
  }

  lemma ClosedFormOnSubtotal(dsub: real, service: real, tax: real, grand: real, S: real, d: real, s: real, r: real)
    requires dsub == S - S * d && service == S * s && tax == dsub * r
    requires grand == dsub + service + tax
    ensures grand == S * (1.0 - d) * (1.0 + r) + S * s
  {
  }

  lemma ClosedFormOnSubtotalPlusService(dsub: real, service: real, tax: real, grand: real, S: real, d: real, s: real, r: real)
    requires dsub == S - S * d && service == S * s && tax == (dsub + service) * r
    requires grand == dsub + service + tax
    ensures grand == S * (1.0 - d + s) * (1.0 + r)
  {
  }

  // ---------------------------------------------------------------------------
  // The ready gate

  /** The characters Python's `str.strip()` removes (those `str.isspace()` accepts). */
  predicate IsSpace(c: char)
  {
    || ('\t' <= c <= '\r')
    || ('\U{1C}' <= c <= '\U{1F}')
    || c == ' '
    || c == '\U{85}'
    || c == '\U{A0}'
    || c == '\U{1680}'
    || ('\U{2000}' <= c <= '\U{200A}')
    || c == '\U{2028}'
    || c == '\U{2029}'
    || c == '\U{202F}'
    || c == '\U{205F}'
    || c == '\U{3000}'
  }

  function TrimStart(s: string): (r: string)
    ensures |r| <= |s| && r == s[|s| - |r|..]
    ensures forall i :: 0 <= i < |s| - |r| ==> IsSpace(s[i])
    ensures r == [] || !IsSpace(r[0])
    decreases |s|
  {
    if |s| > 0 && IsSpace(s[0]) then TrimStart(s[1..]) else s
  }

  function TrimEnd(s: string): (r: string)
    ensures |r| <= |s| && r == s[..|r|]
    ensures forall i :: |r| <= i < |s| ==> IsSpace(s[i])
    ensures r == [] || !IsSpace(r[|r| - 1])
    decreases |s|
  {
    if |s| > 0 && IsSpace(s[|s| - 1]) then TrimEnd(s[..|s| - 1]) else s
  }

  /** Python's `str.strip()`. */
  function Strip(s: string): string
  {
    TrimEnd(TrimStart(s))
  }

  /** A name survives stripping exactly when it has a non-whitespace character. */
  lemma StripNonBlank(s: string)
    ensures Strip(s) != [] <==> exists i :: 0 <= i < |s| && !IsSpace(s[i])
  {
    var a := TrimStart(s);
    var b := TrimEnd(a);
    if b == [] {
      assert a == [];
    } else {
      assert !IsSpace(b[0]);
      assert b[0] == a[0] == s[|s| - |a|];
    }
  }

  /** `has_names`: every name is non-blank after stripping. */
  predicate HasNames(people: seq<string>)
  {
    forall i :: 0 <= i < |people| ==> Strip(people[i]) != []
  }

  /** `has_assignments`: some line has a positive total and somebody to pay it. */
  predicate HasAssignments(items: seq<LineItem>)
  {
    exists k :: 0 <= k < |items| && LineTotal(items[k]) > 0 && |items[k].chargedTo| > 0
  }

  /** `ready`: the per-person breakdown is computed and shown only when this holds. */
  predicate Ready(items: seq<LineItem>, people: seq<string>)
  {
    Subtotal(items) > 0 && HasNames(people) && HasAssignments(items)
  }

  /**
   * With the widget bounds on prices and quantities, the subtotal condition is
   * implied by the assignment condition, so the gate reduces to names and assignments.
   */
  lemma ReadyReduces(items: seq<LineItem>, people: seq<string>)
    requires ValidItems(items)
    ensures Ready(items, people) <==> HasNames(people) && HasAssignments(items)
    ensures Ready(items, people) ==> AssignedTotal(items) > 0
  {
    if HasAssignments(items) {
      var k :| 0 <= k < |items| && LineTotal(items[k]) > 0 && |items[k].chargedTo| > 0;
      AssignedTotalAtLeastLine(items, k);
      SubtotalSplits(items);
      SubtotalNonNegative(items);
    }
  }
}
