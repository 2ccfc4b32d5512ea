/** The admin dashboard (src/app/admin/page.tsx): stored results grouped by
    style and text type, the average score of each group, and the cells of
    the summary table. */
module Admin {
  import opened Wrappers

  /** One stored submission as the dashboard reads it; `style` is a free
      string here, not the three-valued style of the test page. */
  datatype StoredResult = StoredResult(id: string, testId: string, style: string, isSimplified: bool,
                                       correctWords: nat, totalWords: nat, score: real, timestamp: string)

  datatype TextType = Simplified | Standard

  /** `result.isSimplified ? 'simplified' : 'standard'` */
  function TextTypeOf(r: StoredResult): (tt: TextType)
    ensures tt == Simplified <==> r.isSimplified
  {
    if r.isSimplified then Simplified else Standard
  }

  /** The positions of the results of one style and text type, in
      increasing order. */
  function MatchingIndices(rs: seq<StoredResult>, style: string, tt: TextType): (idx: seq<nat>)
    ensures forall k :: 0 <= k < |idx| ==> idx[k] < |rs| && rs[idx[k]].style == style && TextTypeOf(rs[idx[k]]) == tt
    ensures forall k, l :: 0 <= k < l < |idx| ==> idx[k] < idx[l]
    ensures forall i :: 0 <= i < |rs| && rs[i].style == style && TextTypeOf(rs[i]) == tt ==> i in idx
  {
    if rs == [] then []
    else
      var n := |rs| - 1;
      var init := MatchingIndices(rs[..n], style, tt);
      assert forall k :: 0 <= k < |init| ==> rs[init[k]] == rs[..n][init[k]];
      init + (if rs[n].style == style && TextTypeOf(rs[n]) == tt then [n] else [])
  }

  /** The results of one style and text type, in their original order:
      exactly the results of that style and text type. */
  function Bucket(rs: seq<StoredResult>, style: string, tt: TextType): (b: seq<StoredResult>)
    ensures forall x :: x in b <==> x in rs && x.style == style && TextTypeOf(x) == tt
  {
    if rs == [] then []
    else
      var r := rs[|rs| - 1];
      assert rs == rs[..|rs| - 1] + [r];
      Bucket(rs[..|rs| - 1], style, tt) + (if r.style == style && TextTypeOf(r) == tt then [r] else [])
  }

  /** A group is the results at the matching positions, each once and in
      their original order. */
  lemma {:induction false} BucketInOrder(rs: seq<StoredResult>, style: string, tt: TextType)
    ensures |Bucket(rs, style, tt)| == |MatchingIndices(rs, style, tt)|
    ensures forall k :: 0 <= k < |Bucket(rs, style, tt)| ==>
      Bucket(rs, style, tt)[k] == rs[MatchingIndices(rs, style, tt)[k]]
  {
    if rs != [] {
      var n := |rs| - 1;
      BucketInOrder(rs[..n], style, tt);
      var b, idx := Bucket(rs[..n], style, tt), MatchingIndices(rs[..n], style, tt);
      var hit := rs[n].style == style && TextTypeOf(rs[n]) == tt;
      assert Bucket(rs, style, tt) == b + (if hit then [rs[n]] else []);
      assert MatchingIndices(rs, style, tt) == idx + (if hit then [n] else []);
      forall k | 0 <= k < |Bucket(rs, style, tt)|
        ensures Bucket(rs, style, tt)[k] == rs[MatchingIndices(rs, style, tt)[k]]
      {
        if k < |b| {
          assert rs[..n][idx[k]] == rs[idx[k]];
        }
      }
    }
  }

  lemma BucketOfAbsentStyle(rs: seq<StoredResult>, style: string, tt: TextType)
    ensures style !in StylesOf(rs) ==> Bucket(rs, style, tt) == []
  {
    if rs != [] {
      BucketOfAbsentStyle(rs[..|rs| - 1], style, tt);
    }
  }

  lemma BucketSnoc(rs: seq<StoredResult>, i: nat, style: string, tt: TextType)
    requires i < |rs|
    ensures Bucket(rs[..i + 1], style, tt)
      == Bucket(rs[..i], style, tt) + (if rs[i].style == style && TextTypeOf(rs[i]) == tt then [rs[i]] else [])
  {
    assert rs[..i + 1][..i] == rs[..i];
  }

  /** Every result lands in the bucket of its own style and text type, and
      a bucket holds nothing else. */
  lemma EveryResultInItsBucket(rs: seq<StoredResult>, x: StoredResult)
    ensures x in rs <==> x in Bucket(rs, x.style, TextTypeOf(x))
    ensures forall style, tt :: x in Bucket(rs, style, tt) ==> style == x.style && tt == TextTypeOf(x)
  {
    forall style, tt
      ensures x in Bucket(rs, style, tt) <==> x in rs && x.style == style && TextTypeOf(x) == tt
    {
    }
  }

  /** The two buckets of a style together hold one entry per result of
      that style. */
  lemma {:induction false} BucketsPartitionStyle(rs: seq<StoredResult>, style: string)
    ensures |Bucket(rs, style, Simplified)| + |Bucket(rs, style, Standard)| == |StyleResults(rs, style)|
  {
    if rs != [] {
      BucketsPartitionStyle(rs[..|rs| - 1], style);
    }
  }

  function StyleResults(rs: seq<StoredResult>, style: string): (b: seq<StoredResult>)
    ensures forall x :: x in b <==> x in rs && x.style == style
  {
    if rs == [] then []
    else
      var r := rs[|rs| - 1];
      StyleResults(rs[..|rs| - 1], style) + (if r.style == style then [r] else [])
  }

  /** The styles that occur among the results. */
  function StylesOf(rs: seq<StoredResult>): set<string> {
    if rs == [] then {}
    else StylesOf(rs[..|rs| - 1]) + {rs[|rs| - 1].style}
  }

  lemma StylesMembers(rs: seq<StoredResult>)
    ensures forall x :: x in rs ==> x.style in StylesOf(rs)
    ensures forall style :: style in StylesOf(rs) ==> exists x :: x in rs && x.style == style
  {
    if rs != [] {
      StylesMembers(rs[..|rs| - 1]);
      assert rs == rs[..|rs| - 1] + [rs[|rs| - 1]];
    }
  }

  /** The distinct styles in order of first occurrence: the key order of
      `groupedResults`, hence the row order of the table. */
  function StyleOrder(rs: seq<StoredResult>): (order: seq<string>)
    ensures forall i, j :: 0 <= i < j < |order| ==> order[i] != order[j]
    ensures forall style :: style in order <==> style in StylesOf(rs)
  {
    if rs == [] then []
    else
      var o := StyleOrder(rs[..|rs| - 1]);
      var style := rs[|rs| - 1].style;
      if style in o then o else o + [style]
  }

  /** The index of the first result of `style`, or `|rs|` when there is
      none. */
  function FirstIndex(rs: seq<StoredResult>, style: string): (k: nat)
    ensures k <= |rs|
    ensures forall b :: 0 <= b < k ==> rs[b].style != style
    ensures k < |rs| ==> rs[k].style == style
  {
    if rs == [] then 0
    else if rs[0].style == style then 0
    else 1 + FirstIndex(rs[1..], style)
  }

  /** A result appended after the first result of a style leaves that
      first index where it was. */
  lemma FirstIndexSnoc(rs: seq<StoredResult>, r: StoredResult, style: string)
    requires FirstIndex(rs, style) < |rs|
    ensures FirstIndex(rs + [r], style) == FirstIndex(rs, style)
  {
    var k, k' := FirstIndex(rs, style), FirstIndex(rs + [r], style);
    assert (rs + [r])[k] == rs[k];
  }

  /** A style without a result has no first index. */
  lemma FirstIndexAbsent(rs: seq<StoredResult>, style: string)
    requires style !in StylesOf(rs)
    ensures FirstIndex(rs, style) == |rs|
  {
    StylesMembers(rs);
  }

  /** The rows of the table come in order of the first result of each
      style, which is the insertion order `Object.entries` reports. */
  lemma {:induction false} StyleOrderFirstOccurrence(rs: seq<StoredResult>)
    ensures forall i :: 0 <= i < |StyleOrder(rs)| ==> FirstIndex(rs, StyleOrder(rs)[i]) < |rs|
    ensures forall i, j :: 0 <= i < j < |StyleOrder(rs)| ==>
      FirstIndex(rs, StyleOrder(rs)[i]) < FirstIndex(rs, StyleOrder(rs)[j])
  {
    if rs != [] {
      var init, r := rs[..|rs| - 1], rs[|rs| - 1];
      assert rs == init + [r];
      StyleOrderFirstOccurrence(init);
      var o, o' := StyleOrder(init), StyleOrder(rs);
      assert o' == if r.style in o then o else o + [r.style];
      forall i | 0 <= i < |o|
        ensures FirstIndex(rs, o[i]) == FirstIndex(init, o[i]) < |init|
      {
        FirstIndexSnoc(init, r, o[i]);
      }
      if r.style !in o {
        FirstIndexAbsent(init, r.style);
      }
      forall i | 0 <= i < |o'|
        ensures FirstIndex(rs, o'[i]) < |rs|
      {
        if i < |o| {
          assert o'[i] == o[i];
        }
      }
      forall i, j | 0 <= i < j < |o'|
        ensures FirstIndex(rs, o'[i]) < FirstIndex(rs, o'[j])
      {
        assert o'[i] == o[i];
        if j < |o| {
          assert o'[j] == o[j];
        }
      }
    }
  }

  /** The number of results of one style, over its two buckets. */
  function StyleSize(rs: seq<StoredResult>, style: string): nat {
    |Bucket(rs, style, Simplified)| + |Bucket(rs, style, Standard)|
  }

  /** The bucket sizes of the listed styles added up. */
  function SizeSum(rs: seq<StoredResult>, styles: seq<string>): nat {
    if styles == [] then 0
    else SizeSum(rs, styles[..|styles| - 1]) + StyleSize(rs, styles[|styles| - 1])
  }

  lemma StyleSizeSnoc(rs: seq<StoredResult>, r: StoredResult, style: string)
    ensures StyleSize(rs + [r], style) == StyleSize(rs, style) + (if r.style == style then 1 else 0)
  {
    BucketSnoc(rs + [r], |rs|, style, Simplified);
    BucketSnoc(rs + [r], |rs|, style, Standard);
    assert (rs + [r])[..|rs|] == rs && (rs + [r])[..|rs| + 1] == rs + [r];
  }

  /** One more result adds one to the sum exactly when its style is
      listed (once). */
  lemma {:induction false} SizeSumSnoc(rs: seq<StoredResult>, r: StoredResult, styles: seq<string>)
    requires forall i, j :: 0 <= i < j < |styles| ==> styles[i] != styles[j]
    ensures SizeSum(rs + [r], styles) == SizeSum(rs, styles) + (if r.style in styles then 1 else 0)
  {
    if styles != [] {
      var init := styles[..|styles| - 1];
      SizeSumSnoc(rs, r, init);
      StyleSizeSnoc(rs, r, styles[|styles| - 1]);
      assert r.style in styles <==> r.style in init || r.style == styles[|styles| - 1];
    }
  }

  lemma {:induction false} SizeSumAppend(rs: seq<StoredResult>, styles: seq<string>, style: string)
    ensures SizeSum(rs, styles + [style]) == SizeSum(rs, styles) + StyleSize(rs, style)
  {
    assert (styles + [style])[..|styles|] == styles;
  }

  /** The bucket sizes add up to the number of results. */
  lemma {:induction false} BucketSizesSum(rs: seq<StoredResult>)
    ensures SizeSum(rs, StyleOrder(rs)) == |rs|
  {
    if rs != [] {
      var init, r := rs[..|rs| - 1], rs[|rs| - 1];
      assert rs == init + [r];
      BucketSizesSum(init);
      var o := StyleOrder(init);
      SizeSumSnoc(init, r, o);
      if r.style !in o {
        SizeSumAppend(rs, o, r.style);
        StyleSizeSnoc(init, r, r.style);
        BucketOfAbsentStyle(init, r.style, Simplified);
        BucketOfAbsentStyle(init, r.style, Standard);
      }
    }
  }

  type Grouping = map<string, map<TextType, seq<StoredResult>>>

  /** `g` is `groupedResults` for `rs`: a style is a key exactly when some
      result has it, a text type under it exactly when its bucket is
      non-empty, and each entry is that bucket. */
  ghost predicate GroupedFrom(g: Grouping, rs: seq<StoredResult>) {
    && g.Keys == StylesOf(rs)
    && (forall style, tt :: style in g ==> EntryFrom(g[style], rs, style, tt))
  }

  /** The entry of one text type below one style. */
  ghost predicate EntryFrom(textTypes: map<TextType, seq<StoredResult>>, rs: seq<StoredResult>, style: string, tt: TextType) {
    && (tt in textTypes <==> Bucket(rs, style, tt) != [])
    && (tt in textTypes ==> textTypes[tt] == Bucket(rs, style, tt))
  }

  /** One step of the forEach: create the buckets on demand and push. */
  function AddResult(g: Grouping, r: StoredResult): Grouping {
    var tt := TextTypeOf(r);
    var inner := if r.style in g then g[r.style] else map[];
    var bucket := if tt in inner then inner[tt] else [];
    g[r.style := inner[tt := bucket + [r]]]
  }

  /** One key pair of the grouping after one more result. */
  lemma AddResultEntry(g: Grouping, rs: seq<StoredResult>, r: StoredResult, style: string, tt: TextType)
    requires GroupedFrom(g, rs) && style in AddResult(g, r)
    ensures EntryFrom(AddResult(g, r)[style], rs + [r], style, tt)
  {
    var g' := AddResult(g, r);
    BucketSnoc(rs + [r], |rs|, style, tt);
    assert (rs + [r])[..|rs|] == rs && (rs + [r])[..|rs| + 1] == rs + [r];
    if style == r.style {
      var inner := if style in g then g[style] else map[];
      if style !in g {
        BucketOfAbsentStyle(rs, style, tt);
      }
      assert EntryFrom(inner, rs, style, tt);
      if tt == TextTypeOf(r) {
        assert g'[style][tt] == (if tt in inner then inner[tt] else []) + [r];
      } else {
        assert tt in g'[style] <==> tt in inner;
      }
    } else {
      assert g'[style] == g[style];
      assert EntryFrom(g[style], rs, style, tt);
    }
  }

  lemma AddResultGroups(g: Grouping, g': Grouping, rs: seq<StoredResult>, r: StoredResult)
    requires GroupedFrom(g, rs) && g' == AddResult(g, r)
    ensures GroupedFrom(g', rs + [r])
  {
    assert (rs + [r])[..|rs|] == rs;
    assert StylesOf(rs + [r]) == StylesOf(rs) + {r.style};
    forall style, tt | style in g'
      ensures EntryFrom(g'[style], rs + [r], style, tt)
    {
      AddResultEntry(g, rs, r, style, tt);
    }
  }

  /** One more result extends the key order exactly when its style is not
      yet a key. */
  lemma GroupStep(g: Grouping, o: seq<string>, rs: seq<StoredResult>, i: nat)
    requires i < |rs| && GroupedFrom(g, rs[..i]) && o == StyleOrder(rs[..i])
    ensures GroupedFrom(AddResult(g, rs[i]), rs[..i + 1])
    ensures StyleOrder(rs[..i + 1]) == if rs[i].style in g then o else o + [rs[i].style]
  {
    assert rs[..i + 1][..i] == rs[..i];
    assert rs[..i] + [rs[i]] == rs[..i + 1];
    AddResultGroups(g, AddResult(g, rs[i]), rs[..i], rs[i]);
  }

  /** The `forEach` callback of the grouping (admin/page.tsx:45-58): create
      the style's entry and the text type's list on demand, then push.
      `order` records the style keys in the order they are created. */
  method PushResult(grouped: Grouping, order: seq<string>, result: StoredResult)
      returns (grouped': Grouping, order': seq<string>)
    ensures grouped' == AddResult(grouped, result)
    ensures order' == if result.style in grouped then order else order + [result.style]
  {
    grouped', order' := grouped, order;
    var styleKey := result.style;
    var textType := TextTypeOf(result);
    ghost var inner := if styleKey in grouped then grouped[styleKey] else map[];
    if styleKey !in grouped' {
      grouped' := grouped'[styleKey := map[]];
      order' := order' + [styleKey];
    }
    assert grouped' == grouped[styleKey := inner];
    ghost var bucket := if textType in inner then inner[textType] else [];
    if textType !in grouped'[styleKey] {
      grouped' := grouped'[styleKey := grouped'[styleKey][textType := []]];
    } else {
      assert inner[textType := bucket] == inner;
    }
    assert grouped' == grouped[styleKey := inner[textType := bucket]];
    grouped' := grouped'[styleKey := grouped'[styleKey][textType := grouped'[styleKey][textType] + [result]]];
    assert inner[textType := bucket][textType := bucket + [result]] == inner[textType := bucket + [result]];
  }

  /** The grouping loop of the dashboard (admin/page.tsx:43-58); `order`
      is the order in which the style keys are first created, which is the
      order `Object.entries` later reports them in. */
  method GroupResults(results: seq<StoredResult>) returns (grouped: Grouping, order: seq<string>)
    ensures GroupedFrom(grouped, results)
    ensures order == StyleOrder(results)
  {
    grouped := map[];
    order := [];
    for i := 0 to |results|
      invariant GroupedFrom(grouped, results[..i])
      invariant order == StyleOrder(results[..i])
    {
      GroupStep(grouped, order, results, i);
      grouped, order := PushResult(grouped, order, results[i]);
    }
    assert results[..|results|] == results;
  }

  /** A grouping has no empty entry below a style. */
  lemma GroupsNonEmpty(g: Grouping, rs: seq<StoredResult>, style: string)
    requires GroupedFrom(g, rs) && style in g
    ensures g[style] != map[]
    ensures forall tt :: tt in g[style] ==> g[style][tt] != []
  {
    StylesMembers(rs);
    var x :| x in rs && x.style == style;
    EveryResultInItsBucket(rs, x);
    assert EntryFrom(g[style], rs, style, TextTypeOf(x));
    forall tt | tt in g[style]
      ensures g[style][tt] != []
    {
      assert EntryFrom(g[style], rs, style, tt);
    }
  }

  // ---------------------------------------------------------------------
  // Averages (admin/page.tsx:60-70)

  /** `results.reduce((sum, result) => sum + result.score, 0)` */
  function TotalScore(rs: seq<StoredResult>): real {
    if rs == [] then 0.0 else TotalScore(rs[..|rs| - 1]) + rs[|rs| - 1].score
  }

  /** The scores lie in `[0, 100]`, as the test page computes them. */
  predicate InRange(rs: seq<StoredResult>) {
    forall i :: 0 <= i < |rs| ==> 0.0 <= rs[i].score <= 100.0
  }

  lemma {:induction false} TotalScoreBounds(rs: seq<StoredResult>)
    requires InRange(rs)
    ensures 0.0 <= TotalScore(rs) <= 100.0 * |rs| as real
  {
    if rs != [] {
      assert InRange(rs[..|rs| - 1]);
      TotalScoreBounds(rs[..|rs| - 1]);
    }
  }

  /** `totalScore / results.length`; `None` is the NaN of an empty list. */
  function Mean(rs: seq<StoredResult>): (m: Option<real>)
    ensures m.None? <==> rs == []
    ensures m.Some? ==> m.value * |rs| as real == TotalScore(rs)
  {
    if rs == [] then None else Some(TotalScore(rs) / |rs| as real)
  }

  /** The average of scores in `[0, 100]` is in `[0, 100]`. */
  lemma MeanInRange(rs: seq<StoredResult>)
    requires rs != [] && InRange(rs)
    ensures 0.0 <= Mean(rs).value <= 100.0
  {
    TotalScoreBounds(rs);
  }

  /** All results of a bucket scoring the same gives that score. */
  lemma {:induction false} ConstantMean(rs: seq<StoredResult>, v: real)
    requires rs != [] && forall i :: 0 <= i < |rs| ==> rs[i].score == v
    ensures Mean(rs) == Some(v)
  {
    ConstantTotal(rs, v);
    var n := |rs| as real;
    var m := Mean(rs).value;
    assert m * n == v * n;
    assert (m - v) * n == 0.0;
  }

  lemma {:induction false} ConstantTotal(rs: seq<StoredResult>, v: real)
    requires forall i :: 0 <= i < |rs| ==> rs[i].score == v
    ensures TotalScore(rs) == v * |rs| as real
  {
    if rs != [] {
      ConstantTotal(rs[..|rs| - 1], v);
    }
  }

  type Averages = map<string, map<TextType, Option<real>>>

  /** `avg` holds the mean of every bucket of `g`, under the same keys. */
  ghost predicate AveragesOf(avg: Averages, g: Grouping) {
    && avg.Keys == g.Keys
    && (forall style :: style in avg ==> avg[style].Keys == g[style].Keys)
    && (forall style, tt :: style in avg && tt in avg[style] ==> avg[style][tt] == Mean(g[style][tt]))
  }

  /** The averages of the text types of one style. */
  method StyleAverages(textTypes: map<TextType, seq<StoredResult>>) returns (avg: map<TextType, Option<real>>)
    ensures avg.Keys == textTypes.Keys
    ensures forall tt :: tt in avg ==> avg[tt] == Mean(textTypes[tt])
  {
    avg := map[];
    var todo := textTypes.Keys;
    while todo != {}
      invariant todo <= textTypes.Keys && avg.Keys == textTypes.Keys - todo
      invariant forall tt :: tt in avg ==> avg[tt] == Mean(textTypes[tt])
      decreases todo
    {
      var textType :| textType in todo;
      var results := textTypes[textType];
      var totalScore := 0.0;
      for k := 0 to |results|
        invariant totalScore == TotalScore(results[..k])
      {
        assert results[..k + 1][..k] == results[..k];
        totalScore := totalScore + results[k].score;
      }
      assert results[..|results|] == results;
      avg := avg[textType := if |results| == 0 then None else Some(totalScore / |results| as real)];
      todo := todo - {textType};
    }
  }

  /** The averaging loop of the dashboard (admin/page.tsx:60-70). */
  method ComputeAverages(grouped: Grouping) returns (averages: Averages)
    ensures AveragesOf(averages, grouped)
  {
    averages := map[];
    var todo := grouped.Keys;
    while todo != {}
      invariant todo <= grouped.Keys && averages.Keys == grouped.Keys - todo
      invariant forall style :: style in averages ==> averages[style].Keys == grouped[style].Keys
      invariant forall style, tt :: style in averages && tt in averages[style] ==>
        averages[style][tt] == Mean(grouped[style][tt])
      decreases todo
    {
      var style :| style in todo;
      var inner := StyleAverages(grouped[style]);
      averages := averages[style := inner];
      todo := todo - {style};
    }
  }

  /** Every average of a grouping is a number, and lies in `[0, 100]` when
      the scores do. */
  lemma AveragesDefined(results: seq<StoredResult>, g: Grouping, avg: Averages, style: string, tt: TextType)
    requires GroupedFrom(g, results) && AveragesOf(avg, g)
    requires style in avg && tt in avg[style]
    ensures avg[style][tt].Some?
    ensures InRange(results) ==> 0.0 <= avg[style][tt].value <= 100.0
  {
    GroupsNonEmpty(g, results, style);
    if InRange(results) {
      var b := g[style][tt];
      forall i | 0 <= i < |b|
        ensures 0.0 <= b[i].score <= 100.0
      {
        assert EntryFrom(g[style], results, style, tt);
        assert b[i] in results;
      }
      MeanInRange(b);
    }
  }

  // ---------------------------------------------------------------------
  // The summary table (admin/page.tsx:96-136)

  /** A table cell: "No data" when the style has no result of that text
      type, otherwise the average (NaN when `None`). */
  datatype Cell = NoData | Average(value: Option<real>)

  function CellFor(avg: Averages, style: string, tt: TextType): (c: Cell)
    requires style in avg
    ensures c == NoData <==> tt !in avg[style]
    ensures c.Average? ==> c.value == avg[style][tt]
  {
    if tt in avg[style] then Average(avg[style][tt]) else NoData
  }

  /** The dashboard's figures: the submission count, the averages, and
      the styles of the table's rows in display order. */
  datatype Dashboard = Dashboard(totalSubmissions: nat, averages: Averages, rows: seq<string>)

  method Summarize(results: seq<StoredResult>) returns (d: Dashboard)
    ensures d.totalSubmissions == |results|
    ensures exists g :: GroupedFrom(g, results) && AveragesOf(d.averages, g)
    ensures d.averages == map[] <==> results == []
    ensures forall style :: style in d.rows <==> style in d.averages
    ensures forall i, j :: 0 <= i < j < |d.rows| ==> d.rows[i] != d.rows[j]
    ensures forall i, j :: 0 <= i < j < |d.rows| ==> FirstIndex(results, d.rows[i]) < FirstIndex(results, d.rows[j])
  {
    var grouped, order := GroupResults(results);
    var averages := ComputeAverages(grouped);
    d := Dashboard(|results|, averages, order);
    StyleOrderFirstOccurrence(results);
    if results != [] {
      StylesMembers(results);
      assert results[0].style in grouped;
    }
  }

  /** A style's "No data" cell appears only for the text type it lacks:
      a style shown in the table has a result of at least one text type. */
  lemma SomeCellHasData(results: seq<StoredResult>, g: Grouping, avg: Averages, style: string)
    requires GroupedFrom(g, results) && AveragesOf(avg, g) && style in avg
    ensures CellFor(avg, style, Simplified).Average? || CellFor(avg, style, Standard).Average?
  {
    GroupsNonEmpty(g, results, style);
    var tt :| tt in g[style];
    assert tt == Simplified || tt == Standard;
  }
}
