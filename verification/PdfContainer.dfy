/**
 * A PDF's QR evidence: embedded images, then rendered pages unless they repeat what an
 * item already shows. Leaving the redundant pages out must not change the verdict.
 */
module PdfContainer {
  import opened Wrappers

  datatype Indicator =
    | MultipleQrSymbols | ConflictingQrPayloads | LowQuietZone | ColoredOverlayFrame | PerspectiveDistortion

  /** One analysed image: the decoded payloads in order, the indicators in order, and the score they add up to. */
  datatype Analysis = Analysis(
    decodedPayloads: seq<string>, integrity: string, riskScore: nat, tamperIndicators: seq<Indicator>)

  datatype Item = Item(sourceLabel: string, contentType: string, filename: Option<string>, analysis: Analysis)

  // ----- One image -----

  function Weight(i: Indicator): nat {
    match i
    case MultipleQrSymbols => 35
    case ConflictingQrPayloads => 45
    case LowQuietZone => 15
    case ColoredOverlayFrame => 25
    case PerspectiveDistortion => 20
  }

  const INDICATORS: seq<Indicator> :=
    [MultipleQrSymbols, ConflictingQrPayloads, LowQuietZone, ColoredOverlayFrame, PerspectiveDistortion]

  /** The weights of the indicators that are present. */
  function WeightSum(present: set<Indicator>, order: seq<Indicator>): nat {
    if order == [] then 0
    else (if order[0] in present then Weight(order[0]) else 0) + WeightSum(present, order[1..])
  }

  function RiskOf(present: set<Indicator>): nat {
    WeightSum(present, INDICATORS)
  }

  function ElementsOf<T>(s: seq<T>): set<T> {
    set x | x in s
  }

  /** An analysis the analyser can produce: it decoded something, and score and integrity follow the indicators. */
  predicate Consistent(a: Analysis) {
    && a.decodedPayloads != []
    && a.riskScore == RiskOf(ElementsOf(a.tamperIndicators))
    && (a.integrity == "warn" <==> a.tamperIndicators != []) && (a.integrity == "pass" <==> a.tamperIndicators == [])
  }

  /** What the pixel heuristics of one image found. */
  datatype Findings = Findings(
    payloads: seq<string>, decodedSymbols: nat, lowQuietZone: bool, overlayFrame: bool, distorted: bool)

  /** The analyser's tail: indicators and score accumulate side by side. */
  method AnalyzeFindings(f: Findings) returns (result: Option<Analysis>)
    ensures result.None? <==> f.payloads == []
    ensures result.Some? ==>
              && Consistent(result.value) && result.value.decodedPayloads == f.payloads
              && var present := ElementsOf(result.value.tamperIndicators);
              && (MultipleQrSymbols in present <==> f.decodedSymbols > 1)
              && (ConflictingQrPayloads in present <==> |ElementsOf(f.payloads)| > 1)
              && (LowQuietZone in present <==> f.lowQuietZone)
              && (ColoredOverlayFrame in present <==> f.overlayFrame)
              && (PerspectiveDistortion in present <==> f.distorted)
    ensures result.Some? ==>
              result.value.riskScore ==
              (if f.decodedSymbols > 1 then 35 else 0)
              + (if exists p, q :: p in f.payloads && q in f.payloads && p != q then 45 else 0)
              + (if f.lowQuietZone then 15 else 0) + (if f.overlayFrame then 25 else 0) + (if f.distorted then 20 else 0)
  {
    if f.payloads == [] {
      return None;
    }
    var indicators: seq<Indicator>, riskScore := [], 0;
    if f.decodedSymbols > 1 {
      indicators, riskScore := indicators + [MultipleQrSymbols], riskScore + 35;
    }
    if |ElementsOf(f.payloads)| > 1 {
      indicators, riskScore := indicators + [ConflictingQrPayloads], riskScore + 45;
    }
    if f.lowQuietZone {
      indicators, riskScore := indicators + [LowQuietZone], riskScore + 15;
    }
    if f.overlayFrame {
      indicators, riskScore := indicators + [ColoredOverlayFrame], riskScore + 25;
    }
    if f.distorted {
      indicators, riskScore := indicators + [PerspectiveDistortion], riskScore + 20;
    }
    RiskMeans(ElementsOf(indicators));
    SeveralExactly(f.payloads);
    return Some(Analysis(f.payloads, if indicators != [] then "warn" else "pass", riskScore, indicators));
  }

  lemma SeveralExactly(payloads: seq<string>)
    ensures |ElementsOf(payloads)| > 1 <==> exists p, q :: p in payloads && q in payloads && p != q
  {
    var all := ElementsOf(payloads);
    if p, q :| p in payloads && q in payloads && p != q {
      assert {p, q} <= all;
      CardinalityGrows({p, q}, all);
    }
    if |all| > 1 {
      var p :| p in all;
      assert all == {p} + (all - {p});
      var q :| q in all - {p};
    }
  }

  lemma CardinalityGrows<T>(less: set<T>, more: set<T>)
    requires less <= more
    ensures |less| <= |more|
  {
    assert more == less + (more - less);
  }

  lemma RiskMeans(present: set<Indicator>)
    ensures RiskOf(present) ==
            (if MultipleQrSymbols in present then 35 else 0) + (if ConflictingQrPayloads in present then 45 else 0)
            + (if LowQuietZone in present then 15 else 0) + (if ColoredOverlayFrame in present then 25 else 0)
            + (if PerspectiveDistortion in present then 20 else 0)
  {
    WeightSumStep(present, PerspectiveDistortion, []);
    WeightSumStep(present, ColoredOverlayFrame, [PerspectiveDistortion]);
    WeightSumStep(present, LowQuietZone, [ColoredOverlayFrame, PerspectiveDistortion]);
    WeightSumStep(present, ConflictingQrPayloads, [LowQuietZone, ColoredOverlayFrame, PerspectiveDistortion]);
    WeightSumStep(
      present, MultipleQrSymbols, [ConflictingQrPayloads, LowQuietZone, ColoredOverlayFrame, PerspectiveDistortion]);
  }

  lemma WeightSumStep(present: set<Indicator>, i: Indicator, rest: seq<Indicator>)
    ensures WeightSum(present, [i] + rest) == (if i in present then Weight(i) else 0) + WeightSum(present, rest)
    ensures WeightSum(present, []) == 0
  {
    assert ([i] + rest)[1..] == rest;
  }

  /** More indicators, no less risk. */
  lemma {:induction false} RiskGrows(less: set<Indicator>, more: set<Indicator>, order: seq<Indicator>)
    requires less <= more
    ensures WeightSum(less, order) <= WeightSum(more, order)
  {
    if order != [] {
      RiskGrows(less, more, order[1..]);
    }
  }

  // ----- The container -----

  predicate Covers(existing: Item, candidate: Item) {
    && ElementsOf(candidate.analysis.decodedPayloads) != {}
    && ElementsOf(candidate.analysis.decodedPayloads) <= ElementsOf(existing.analysis.decodedPayloads)
    && ElementsOf(candidate.analysis.tamperIndicators) <= ElementsOf(existing.analysis.tamperIndicators)
  }

  /** `_pdf_rendered_item_adds_evidence` */
  method RenderedItemAddsEvidence(candidate: Item, existing: seq<Item>) returns (adds: bool)
    ensures adds <==> forall i :: 0 <= i < |existing| ==> !Covers(existing[i], candidate)
  {
    var candidatePayloads := ElementsOf(candidate.analysis.decodedPayloads);
    var candidateIndicators := ElementsOf(candidate.analysis.tamperIndicators);
    for i := 0 to |existing|
      invariant forall j :: 0 <= j < i ==> !Covers(existing[j], candidate)
    {
      var existingPayloads := ElementsOf(existing[i].analysis.decodedPayloads);
      if candidatePayloads == {} || !(candidatePayloads <= existingPayloads) {
        continue;
      }
      if candidateIndicators <= ElementsOf(existing[i].analysis.tamperIndicators) {
        return false;
      }
    }
    return true;
  }

  predicate IsCovered(items: seq<Item>, candidate: Item) {
    exists i :: 0 <= i < |items| && Covers(items[i], candidate)
  }

  /** The embedded items, and each rendered page that the items kept so far do not cover. */
  function Kept(embedded: seq<Item>, rendered: seq<Item>): seq<Item> {
    if rendered == [] then embedded
    else
      var before := Kept(embedded, rendered[..|rendered| - 1]);
      var page := rendered[|rendered| - 1];
      if IsCovered(before, page) then before else before + [page]
  }

  method CollectPdfItems(embedded: seq<Item>, rendered: seq<Item>) returns (items: seq<Item>)
    ensures items == Kept(embedded, rendered)
  {
    items := embedded;
    for i := 0 to |rendered|
      invariant items == Kept(embedded, rendered[..i])
    {
      assert rendered[..i + 1][..i] == rendered[..i];
      var adds := RenderedItemAddsEvidence(rendered[i], items);
      if adds {
        items := items + [rendered[i]];
      }
    }
    assert rendered[..|rendered|] == rendered;
  }

  // ----- Aggregates -----

  function Payloads(items: seq<Item>): set<string> {
    set i, payload | 0 <= i < |items| && payload in items[i].analysis.decodedPayloads :: payload
  }

  function Indicators(items: seq<Item>): set<Indicator> {
    set i, indicator | 0 <= i < |items| && indicator in items[i].analysis.tamperIndicators :: indicator
  }

  function Integrity(items: seq<Item>): string {
    if exists i :: 0 <= i < |items| && items[i].analysis.integrity == "warn" then "warn" else "pass"
  }

  function MaxRisk(items: seq<Item>): nat {
    if items == [] then 0
    else
      var rest, last := MaxRisk(items[..|items| - 1]), items[|items| - 1].analysis.riskScore;
      if rest < last then last else rest
  }

  predicate AllConsistent(items: seq<Item>) {
    forall i :: 0 <= i < |items| ==> Consistent(items[i].analysis)
  }

  /** What the container reports. */
  datatype Verdict = Verdict(payloads: set<string>, indicators: set<Indicator>, integrity: string, risk: nat)

  function VerdictOf(items: seq<Item>): Verdict {
    Verdict(Payloads(items), Indicators(items), Integrity(items), MaxRisk(items))
  }

  lemma {:induction false} MaxRiskBounds(items: seq<Item>, i: nat)
    requires i < |items|
    ensures items[i].analysis.riskScore <= MaxRisk(items)
  {
    if i < |items| - 1 {
      MaxRiskBounds(items[..|items| - 1], i);
    }
  }

  lemma RiskIsCovered(existing: Item, candidate: Item)
    requires Covers(existing, candidate) && Consistent(existing.analysis) && Consistent(candidate.analysis)
    ensures candidate.analysis.riskScore <= existing.analysis.riskScore
    ensures candidate.analysis.integrity == "warn" ==> existing.analysis.integrity == "warn"
  {
    var (less, more) := (ElementsOf(candidate.analysis.tamperIndicators), ElementsOf(existing.analysis.tamperIndicators));
    RiskGrows(less, more, INDICATORS);
    if candidate.analysis.tamperIndicators != [] {
      assert candidate.analysis.tamperIndicators[0] in less;
      assert candidate.analysis.tamperIndicators[0] in existing.analysis.tamperIndicators;
    }
  }

  /** The aggregates in terms of the items: a warning exactly if one of them warns, and the largest of their scores. */
  lemma {:induction false} VerdictMeans(items: seq<Item>)
    ensures var v := VerdictOf(items);
            && (forall p :: p in v.payloads <==> exists i :: 0 <= i < |items| && p in items[i].analysis.decodedPayloads)
            && (forall x :: x in v.indicators <==> exists i :: 0 <= i < |items| && x in items[i].analysis.tamperIndicators)
            && v.integrity == (if exists i :: 0 <= i < |items| && items[i].analysis.integrity == "warn" then "warn" else "pass")
            && (forall i :: 0 <= i < |items| ==> items[i].analysis.riskScore <= v.risk)
            && (v.risk == 0 || exists i :: 0 <= i < |items| && items[i].analysis.riskScore == v.risk)
  {
    forall i | 0 <= i < |items| ensures items[i].analysis.riskScore <= MaxRisk(items) {
      MaxRiskBounds(items, i);
    }
    MaxRiskIsReached(items);
  }

  lemma {:induction false} MaxRiskIsReached(items: seq<Item>)
    ensures MaxRisk(items) == 0 || exists i :: 0 <= i < |items| && items[i].analysis.riskScore == MaxRisk(items)
  {
    if items != [] {
      var front := items[..|items| - 1];
      MaxRiskIsReached(front);
      assert forall i :: 0 <= i < |front| ==> front[i] == items[i];
    }
  }

  /** How one more item changes the verdict. */
  lemma VerdictAppends(items: seq<Item>, page: Item)
    ensures VerdictOf(items + [page]) == Verdict(
              Payloads(items) + ElementsOf(page.analysis.decodedPayloads),
              Indicators(items) + ElementsOf(page.analysis.tamperIndicators),
              if page.analysis.integrity == "warn" then "warn" else Integrity(items),
              if MaxRisk(items) < page.analysis.riskScore then page.analysis.riskScore else MaxRisk(items))
  {
    var all := items + [page];
    assert all[..|items|] == items && all[|items|] == page;
    assert forall i :: 0 <= i < |items| ==> all[i] == items[i];
    assert Payloads(all) == Payloads(items) + ElementsOf(page.analysis.decodedPayloads);
    assert Indicators(all) == Indicators(items) + ElementsOf(page.analysis.tamperIndicators);
  }

  /** A covered page adds nothing to the verdict of the items that cover it. */
  lemma CoveredPageAddsNothing(items: seq<Item>, page: Item)
    requires AllConsistent(items) && Consistent(page.analysis) && IsCovered(items, page)
    ensures VerdictOf(items + [page]) == VerdictOf(items)
  {
    VerdictAppends(items, page);
    var i :| 0 <= i < |items| && Covers(items[i], page);
    RiskIsCovered(items[i], page);
    MaxRiskBounds(items, i);
    assert ElementsOf(page.analysis.decodedPayloads) <= ElementsOf(items[i].analysis.decodedPayloads) <= Payloads(items);
    assert ElementsOf(page.analysis.tamperIndicators) <= ElementsOf(items[i].analysis.tamperIndicators) <= Indicators(items);
  }

  /** Equal verdicts stay equal when one page joins both. */
  lemma AppendKeepsEqualVerdicts(a: seq<Item>, b: seq<Item>, page: Item)
    requires VerdictOf(a) == VerdictOf(b)
    ensures VerdictOf(a + [page]) == VerdictOf(b + [page])
  {
    VerdictAppends(a, page);
    VerdictAppends(b, page);
  }

  /**
   * Dropping redundant rendered pages changes no aggregate: payloads, indicators, integrity and risk
   * are those of every embedded and rendered item together.
   */
  lemma {:induction false} DroppingPagesKeepsVerdict(embedded: seq<Item>, rendered: seq<Item>)
    requires AllConsistent(embedded) && AllConsistent(rendered)
    ensures AllConsistent(Kept(embedded, rendered))
    ensures VerdictOf(Kept(embedded, rendered)) == VerdictOf(embedded + rendered)
    decreases |rendered|
  {
    if rendered == [] {
      assert embedded + rendered == embedded;
    } else {
      var init, page := rendered[..|rendered| - 1], rendered[|rendered| - 1];
      DroppingPagesKeepsVerdict(embedded, init);
      var before := Kept(embedded, init);
      assert embedded + rendered == (embedded + init) + [page];
      AppendKeepsEqualVerdicts(before, embedded + init, page);
      if IsCovered(before, page) {
        CoveredPageAddsNothing(before, page);
      }
    }
  }

  /** The page shows a payload or an indicator that the item does not, or shows no payload at all. */
  predicate ShowsMore(page: Item, item: Item) {
    || page.analysis.decodedPayloads == []
    || (exists payload :: payload in page.analysis.decodedPayloads && payload !in item.analysis.decodedPayloads)
    || (exists indicator :: indicator in page.analysis.tamperIndicators && indicator !in item.analysis.tamperIndicators)
  }

  lemma CoversExactly(item: Item, page: Item)
    ensures Covers(item, page) <==> !ShowsMore(page, item)
  {
    var (shown, there) := (page.analysis, item.analysis);
    assert shown.decodedPayloads != [] ==> shown.decodedPayloads[0] in ElementsOf(shown.decodedPayloads);
    assert forall x :: x in ElementsOf(shown.decodedPayloads) <==> x in shown.decodedPayloads;
    assert forall x :: x in ElementsOf(there.decodedPayloads) <==> x in there.decodedPayloads;
    assert forall x :: x in ElementsOf(shown.tamperIndicators) <==> x in shown.tamperIndicators;
    assert forall x :: x in ElementsOf(there.tamperIndicators) <==> x in there.tamperIndicators;
  }

  /** A rendered page is kept, or an item is kept that shows all of it. */
  lemma {:induction false} EveryPageIsShown(embedded: seq<Item>, rendered: seq<Item>, n: nat)
    requires n < |rendered|
    ensures var kept := Kept(embedded, rendered);
            rendered[n] in kept || exists k :: 0 <= k < |kept| && !ShowsMore(rendered[n], kept[k])
    decreases |rendered|
  {
    var (before, page) := (Kept(embedded, rendered[..|rendered| - 1]), rendered[|rendered| - 1]);
    if n < |rendered| - 1 {
      EveryPageIsShown(embedded, rendered[..|rendered| - 1], n);
      assert forall k :: 0 <= k < |before| ==> Kept(embedded, rendered)[k] == before[k];
    } else if IsCovered(before, page) {
      var k :| 0 <= k < |before| && Covers(before[k], page);
      CoversExactly(before[k], page);
    } else {
      assert Kept(embedded, rendered)[|before|] == page;
    }
  }

  /** Nothing kept was redundant when it was added: each kept page shows more than any one item kept before it. */
  lemma {:induction false} KeptPagesAddEvidence(embedded: seq<Item>, rendered: seq<Item>, k: nat, i: nat)
    requires i < k && |embedded| <= k < |Kept(embedded, rendered)|
    ensures ShowsMore(Kept(embedded, rendered)[k], Kept(embedded, rendered)[i])
    decreases |rendered|
  {
    if rendered != [] {
      var before := Kept(embedded, rendered[..|rendered| - 1]);
      if k < |before| {
        KeptPagesAddEvidence(embedded, rendered[..|rendered| - 1], k, i);
        assert Kept(embedded, rendered)[k] == before[k] && Kept(embedded, rendered)[i] == before[i];
      } else {
        assert Kept(embedded, rendered)[i] == before[i];
        CoversExactly(before[i], Kept(embedded, rendered)[k]);
      }
    }
  }
}
