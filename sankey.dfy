/**
 * The data shaping of `create_sankey_diagram` in draw_charts.py: the node
 * labels and colours and the four parallel link lists (sources, targets,
 * values, link colours) handed to the flow-diagram library.
 *
 * Nodes are numbered by position: the students first, in table order, then
 * the five dimensions, so dimension j is node |students| + j. A link
 * from student i to dimension j exists exactly when that student's value
 * for j is strictly positive.
 */
module Sankey {
  import opened Text
  import opened Colors

  datatype Option<T> = None | Some(value: T)

  /** The five fixed evaluation dimensions, in column order. */
  const Dimensions: seq<string> := ["教学能力", "专业素养", "育人能力", "职业发展", "社会贡献"]

  /**
   * One row of the loaded table: its name column and the values of the
   * five per-dimension flow columns, in the order of Dimensions.
   */
  datatype Record = Record(name: string, flow: seq<real>)

  /** Every row has one flow value per dimension. */
  predicate WellFormed(table: seq<Record>)
  {
    forall i :: 0 <= i < |table| ==> |table[i].flow| == |Dimensions|
  }

  /** The name column as a list, in row order. */
  function Names(table: seq<Record>): (names: seq<string>)
    ensures |names| == |table|
    ensures forall i :: 0 <= i < |table| ==> names[i] == table[i].name
  {
    seq(|table|, i requires 0 <= i < |table| => table[i].name)
  }

  /** The position of the first row whose name equals name, if any. */
  function FirstMatch(table: seq<Record>, name: string): (r: Option<nat>)
    ensures r.Some? ==> r.value < |table| && table[r.value].name == name
    ensures r.Some? ==> forall j :: 0 <= j < r.value ==> table[j].name != name
    ensures r.None? ==> forall j :: 0 <= j < |table| ==> table[j].name != name
  {
    if table == [] then None
    else if table[0].name == name then Some(0)
    else match FirstMatch(table[1..], name)
      case None => None
      case Some(k) => Some(k + 1)
  }

  /**
   * The flow values used for student i: those of the FIRST row carrying
   * student i's name, which is row i itself unless an earlier row has the
   * same name.
   */
  function StudentFlow(table: seq<Record>, i: nat): (flow: seq<real>)
    requires i < |table|
  {
    table[FirstMatch(table, table[i].name).value].flow
  }

  /** The lookup finds row i itself when no earlier row shares its name. */
  lemma StudentFlowOfUniqueName(table: seq<Record>, i: nat)
    requires i < |table|
    requires forall j :: 0 <= j < i ==> table[j].name != table[i].name
    ensures StudentFlow(table, i) == table[i].flow
  {
  }

  /** Students with equal names get the values of the same (first) row. */
  lemma {:induction false} StudentFlowOfDuplicates(table: seq<Record>, i: nat, j: nat)
    requires i < |table| && j < |table| && table[i].name == table[j].name
    ensures StudentFlow(table, i) == StudentFlow(table, j)
    ensures exists k :: 0 <= k <= i && k <= j && StudentFlow(table, i) == table[k].flow
  {
    var k := FirstMatch(table, table[i].name).value;
    assert k <= i && k <= j && StudentFlow(table, i) == table[k].flow;
  }

  lemma StudentFlowLength(table: seq<Record>, i: nat)
    requires WellFormed(table) && i < |table|
    ensures |StudentFlow(table, i)| == |Dimensions|
  {
  }

  /** One link of the flow diagram: node indices and the flow value. */
  datatype Link = Link(source: nat, target: nat, value: real)

  /** Strict student-major, dimension-minor order of links. */
  predicate Precedes(a: Link, b: Link)
  {
    a.source < b.source || (a.source == b.source && a.target < b.target)
  }

  /**
   * The links from node src for the values flow, dimension j going to
   * node base + j: one per strictly positive value, in dimension order.
   */
  function RowLinks(src: nat, base: nat, flow: seq<real>): (r: seq<Link>)
    ensures |r| <= |flow|
    ensures forall k :: 0 <= k < |r| ==>
      && r[k].source == src
      && base <= r[k].target < base + |flow|
      && r[k].value == flow[r[k].target - base]
      && r[k].value > 0.0
    decreases |flow|
  {
    if flow == [] then []
    else
      var last := |flow| - 1;
      RowLinks(src, base, flow[..last]) + (if flow[last] > 0.0 then [Link(src, base + last, flow[last])] else [])
  }

  /** Every strictly positive value has its link, and no other value has one. */
  lemma {:induction false} RowLinksComplete(src: nat, base: nat, flow: seq<real>, j: nat)
    requires j < |flow|
    ensures flow[j] > 0.0 <==> Link(src, base + j, flow[j]) in RowLinks(src, base, flow)
    decreases |flow|
  {
    var last := |flow| - 1;
    if j < last {
      RowLinksComplete(src, base, flow[..last], j);
      if Link(src, base + j, flow[j]) in RowLinks(src, base, flow) {
        assert flow[..last][j] == flow[j];
      }
    }
  }

  /** The flow values used for each student, in student order. */
  function StudentFlows(table: seq<Record>): (flows: seq<seq<real>>)
    ensures |flows| == |table|
    ensures forall i {:trigger StudentFlow(table, i)} :: 0 <= i < |table| ==> flows[i] == StudentFlow(table, i)
  {
    seq(|table|, i requires 0 <= i < |table| => StudentFlow(table, i))
  }

  /**
   * The links of the first m students, student i's values being flows[i]
   * and dimension j being node base + j, in the order the nested loops of
   * create_sankey_diagram append them.
   */
  function Links(flows: seq<seq<real>>, base: nat, m: nat): (r: seq<Link>)
    requires m <= |flows|
    ensures forall k :: 0 <= k < |r| ==>
      && r[k].source < m
      && base <= r[k].target < base + |flows[r[k].source]|
      && r[k].value == flows[r[k].source][r[k].target - base]
      && r[k].value > 0.0
  {
    if m == 0 then []
    else Links(flows, base, m - 1) + RowLinks(m - 1, base, flows[m - 1])
  }

  /** One student's links are in increasing dimension order. */
  lemma {:induction false} RowLinksOrdered(src: nat, base: nat, flow: seq<real>)
    ensures forall k, l :: 0 <= k < l < |RowLinks(src, base, flow)| ==>
      RowLinks(src, base, flow)[k].target < RowLinks(src, base, flow)[l].target
    decreases |flow|
  {
    if flow != [] {
      var last := |flow| - 1;
      RowLinksOrdered(src, base, flow[..last]);
    }
  }

  /** Links come in student-major, dimension-minor order, as the loops append them. */
  lemma {:induction false} LinksOrdered(flows: seq<seq<real>>, base: nat, m: nat)
    requires m <= |flows|
    ensures forall k, l :: 0 <= k < l < |Links(flows, base, m)| ==>
      Precedes(Links(flows, base, m)[k], Links(flows, base, m)[l])
  {
    if m > 0 {
      LinksOrdered(flows, base, m - 1);
      RowLinksOrdered(m - 1, base, flows[m - 1]);
      var prefix, row := Links(flows, base, m - 1), RowLinks(m - 1, base, flows[m - 1]);
      var r := prefix + row;
      forall k, l | 0 <= k < l < |r| ensures Precedes(r[k], r[l]) {
        if l < |prefix| {
          assert r[k] == prefix[k] && r[l] == prefix[l];
        } else if k < |prefix| {
          assert r[k] == prefix[k] && r[l] == row[l - |prefix|];
        } else {
          assert r[k] == row[k - |prefix|] && r[l] == row[l - |prefix|];
        }
      }
    }
  }

  /**
   * For every student and dimension: the pair has a link, carrying the
   * student's value, exactly when that value is strictly positive.
   */
  lemma {:induction false} LinksComplete(flows: seq<seq<real>>, base: nat, m: nat, i: nat, j: nat)
    requires m <= |flows| && i < m && j < |flows[i]|
    ensures flows[i][j] > 0.0 <==> Link(i, base + j, flows[i][j]) in Links(flows, base, m)
  {
    var link := Link(i, base + j, flows[i][j]);
    var prefix, row := Links(flows, base, m - 1), RowLinks(m - 1, base, flows[m - 1]);
    assert Links(flows, base, m) == prefix + row;
    if i == m - 1 {
      assert link !in prefix by {
        forall k | 0 <= k < |prefix| ensures prefix[k].source < i { }
      }
      RowLinksComplete(i, base, flows[i], j);
    } else {
      LinksComplete(flows, base, m - 1, i, j);
      assert link !in row by {
        forall k | 0 <= k < |row| ensures row[k].source == m - 1 { }
      }
    }
  }

  /** The links of the whole table: student i is node i, dimension j node |table| + j. */
  function SankeyLinks(table: seq<Record>): (links: seq<Link>)
  {
    Links(StudentFlows(table), |table|, |table|)
  }

  /**
   * The links of the whole table, stated on the table: each goes from a
   * student to a dimension node with that student's strictly positive
   * value, and a (student, dimension) pair has a link exactly when its
   * value is strictly positive.
   */
  lemma SankeyLinksExact(table: seq<Record>, i: nat, j: nat)
    requires WellFormed(table) && i < |table| && j < |Dimensions|
    ensures |StudentFlow(table, i)| == |Dimensions|
    ensures StudentFlow(table, i)[j] > 0.0 <==>
      Link(i, |table| + j, StudentFlow(table, i)[j]) in SankeyLinks(table)
  {
    StudentFlowLength(table, i);
    if StudentFlow(table, i)[j] > 0.0 {
      StudentPositiveLinked(table, i, j);
    } else {
      StudentNonPositiveNotLinked(table, i, j);
    }
  }

  /** Student i's strictly positive value for dimension j has its link. */
  lemma StudentPositiveLinked(table: seq<Record>, i: nat, j: nat)
    requires i < |table| && j < |StudentFlow(table, i)| && StudentFlow(table, i)[j] > 0.0
    ensures Link(i, |table| + j, StudentFlow(table, i)[j]) in SankeyLinks(table)
  {
    var flows := StudentFlows(table);
    PositiveLinked(flows, SankeyLinks(table), |table|, i, j, StudentFlow(table, i)[j]);
  }

  /** Student i's value for dimension j has no link unless it is strictly positive. */
  lemma StudentNonPositiveNotLinked(table: seq<Record>, i: nat, j: nat)
    requires i < |table| && j < |StudentFlow(table, i)| && StudentFlow(table, i)[j] <= 0.0
    ensures Link(i, |table| + j, StudentFlow(table, i)[j]) !in SankeyLinks(table)
  {
    var flows := StudentFlows(table);
    NonPositiveNotLinked(flows, SankeyLinks(table), |table|, Link(i, |table| + j, StudentFlow(table, i)[j]));
  }

  /** LinksComplete, one direction, for all n students: a positive value has its link. */
  lemma PositiveLinked(flows: seq<seq<real>>, links: seq<Link>, n: nat, i: nat, j: nat, v: real)
    requires n == |flows| && links == Links(flows, n, n)
    requires i < n && j < |flows[i]| && v == flows[i][j] && v > 0.0
    ensures Link(i, n + j, v) in links
  {
    LinksComplete(flows, n, n, i, j);
  }

  /** A link whose value is not strictly positive is not among the links. */
  lemma NonPositiveNotLinked(flows: seq<seq<real>>, links: seq<Link>, n: nat, l: Link)
    requires n == |flows| && links == Links(flows, n, n) && l.value <= 0.0
    ensures l !in links
  {
    forall k | 0 <= k < |links| ensures links[k] != l { }
  }

  /** No (student, dimension) pair has two links. */
  lemma SankeyLinksDistinctPairs(table: seq<Record>, k: nat, l: nat)
    requires k < l < |SankeyLinks(table)|
    ensures SankeyLinks(table)[k].source != SankeyLinks(table)[l].source
      || SankeyLinks(table)[k].target != SankeyLinks(table)[l].target
  {
    LinksOrdered(StudentFlows(table), |table|, |table|);
  }

  /** A student none of whose values is strictly positive has no links. */
  lemma {:induction false} RowLinksNonPositive(src: nat, base: nat, flow: seq<real>)
    requires forall j :: 0 <= j < |flow| ==> flow[j] <= 0.0
    ensures RowLinks(src, base, flow) == []
    decreases |flow|
  {
    if flow != [] {
      RowLinksNonPositive(src, base, flow[..|flow| - 1]);
    }
  }

  lemma {:induction false} LinksNonPositive(flows: seq<seq<real>>, base: nat, m: nat)
    requires m <= |flows|
    requires forall i, j :: 0 <= i < m && 0 <= j < |flows[i]| ==> flows[i][j] <= 0.0
    ensures Links(flows, base, m) == []
  {
    if m > 0 {
      LinksNonPositive(flows, base, m - 1);
      RowLinksNonPositive(m - 1, base, flows[m - 1]);
    }
  }

  /** When no value is strictly positive the diagram has nodes and no links. */
  lemma NoPositiveValueNoLinks(table: seq<Record>)
    requires forall i, j :: 0 <= i < |table| && 0 <= j < |table[i].flow| ==> table[i].flow[j] <= 0.0
    ensures SankeyLinks(table) == []
  {
    var flows := StudentFlows(table);
    forall i, j | 0 <= i < |table| && 0 <= j < |flows[i]| ensures flows[i][j] <= 0.0 {
      var k := FirstMatch(table, table[i].name).value;
      assert flows[i] == table[k].flow;
    }
    LinksNonPositive(flows, |table|, |table|);
  }

  /**
   * Two students, A scoring 3 on the first dimension and B 5 on the
   * second, everything else 0: exactly the links (A, first, 3) and
   * (B, second, 5), the dimensions being nodes 2 to 6.
   */
  lemma TwoStudentExample()
    ensures SankeyLinks([Record("A", [3.0, 0.0, 0.0, 0.0, 0.0]), Record("B", [0.0, 5.0, 0.0, 0.0, 0.0])])
      == [Link(0, 2, 3.0), Link(1, 3, 5.0)]
  {
    var fa, fb := [3.0, 0.0, 0.0, 0.0, 0.0], [0.0, 5.0, 0.0, 0.0, 0.0];
    ExampleFlows(fa, fb);
    ExampleRowA(fa);
    ExampleRowB(fb);
    assert Links([fa, fb], 2, 1) == RowLinks(0, 2, fa);
    assert Links([fa, fb], 2, 2) == RowLinks(0, 2, fa) + RowLinks(1, 2, fb);
  }

  lemma ExampleFlows(fa: seq<real>, fb: seq<real>)
    ensures StudentFlows([Record("A", fa), Record("B", fb)]) == [fa, fb]
  {
    var table := [Record("A", fa), Record("B", fb)];
    assert FirstMatch(table, "A") == Some(0);
    assert FirstMatch(table, "B") == Some(1) by {
      assert table[1..] == [Record("B", fb)];
    }
  }

  lemma ExampleRowA(fa: seq<real>)
    requires fa == [3.0, 0.0, 0.0, 0.0, 0.0]
    ensures RowLinks(0, 2, fa) == [Link(0, 2, 3.0)]
  {
    assert RowLinks(0, 2, fa[..1]) == [Link(0, 2, 3.0)] by {
      assert fa[..1][..0] == [];
    }
    RowLinksAppendZeros(0, 2, fa[..1], fa[1..]);
    assert fa[..1] + fa[1..] == fa;
  }

  lemma ExampleRowB(fb: seq<real>)
    requires fb == [0.0, 5.0, 0.0, 0.0, 0.0]
    ensures RowLinks(1, 2, fb) == [Link(1, 3, 5.0)]
  {
    assert RowLinks(1, 2, fb[..2]) == [Link(1, 3, 5.0)] by {
      assert fb[..2][..1] == [0.0];
      assert fb[..2][..1][..0] == [];
    }
    RowLinksAppendZeros(1, 2, fb[..2], fb[2..]);
    assert fb[..2] + fb[2..] == fb;
  }

  /** Values that are not strictly positive, appended after others, add no link. */
  lemma {:induction false} RowLinksAppendZeros(src: nat, base: nat, flow: seq<real>, rest: seq<real>)
    requires forall j :: 0 <= j < |rest| ==> rest[j] <= 0.0
    ensures RowLinks(src, base, flow + rest) == RowLinks(src, base, flow)
    decreases |rest|
  {
    if rest == [] {
      assert flow + rest == flow;
    } else {
      var last := |rest| - 1;
      assert (flow + rest)[..|flow + rest| - 1] == flow + rest[..last];
      RowLinksAppendZeros(src, base, flow, rest[..last]);
    }
  }

  /** The data create_sankey_diagram hands to the flow-diagram library. */
  datatype SankeyData = SankeyData(
    labels: seq<string>,
    nodeColors: seq<string>,
    sources: seq<nat>,
    targets: seq<nat>,
    values: seq<real>,
    linkColors: seq<string>)

  /**
   * The four link lists have one entry per link of links, in order, and
   * each link colour is its source student's colour, muted.
   */
  predicate ListsMatch(sources: seq<nat>, targets: seq<nat>, values: seq<real>, linkColors: seq<string>,
                       links: seq<Link>, studentColors: seq<string>)
  {
    && |sources| == |links| && |targets| == |links| && |values| == |links| && |linkColors| == |links|
    && forall k :: 0 <= k < |links| ==>
      && sources[k] == links[k].source
      && targets[k] == links[k].target
      && values[k] == links[k].value
      && links[k].source < |studentColors|
      && linkColors[k] == Muted(studentColors[links[k].source])
  }

  /** Appending one link's entries to the four lists keeps them matched. */
  lemma ListsMatchAppend(sources: seq<nat>, targets: seq<nat>, values: seq<real>, linkColors: seq<string>,
                         links: seq<Link>, studentColors: seq<string>, link: Link)
    requires ListsMatch(sources, targets, values, linkColors, links, studentColors)
    requires link.source < |studentColors|
    ensures ListsMatch(sources + [link.source], targets + [link.target], values + [link.value],
                       linkColors + [Muted(studentColors[link.source])], links + [link], studentColors)
  {
  }

  /** RowLinks over one more value adds at most that value's link. */
  lemma RowLinksSnoc(src: nat, base: nat, flow: seq<real>, j: nat)
    requires j < |flow|
    ensures RowLinks(src, base, flow[..j + 1]) == RowLinks(src, base, flow[..j])
      + (if flow[j] > 0.0 then [Link(src, base + j, flow[j])] else [])
  {
    assert flow[..j + 1][..j] == flow[..j];
  }

  /**
   * The inner loop of create_sankey_diagram for student studentIdx, whose
   * values are studentData: for each dimension in order, append an entry
   * to all four lists when the value is strictly positive, targeting node
   * base + dimension and coloured with studentColor muted.
   */
  method AppendStudentLinks(sources: seq<nat>, targets: seq<nat>, values: seq<real>, linkColors: seq<string>,
                            studentIdx: nat, base: nat, studentData: seq<real>, studentColors: seq<string>,
                            ghost done: seq<Link>)
    returns (sources': seq<nat>, targets': seq<nat>, values': seq<real>, linkColors': seq<string>)
    requires studentIdx < |studentColors|
    requires ListsMatch(sources, targets, values, linkColors, done, studentColors)
    ensures ListsMatch(sources', targets', values', linkColors',
                       done + RowLinks(studentIdx, base, studentData), studentColors)
  {
    sources', targets', values', linkColors' := sources, targets, values, linkColors;
    var studentColor := studentColors[studentIdx];
    assert done + RowLinks(studentIdx, base, studentData[..0]) == done by {
      assert studentData[..0] == [];
    }
    for dimIdx := 0 to |studentData|
      invariant ListsMatch(sources', targets', values', linkColors',
                           done + RowLinks(studentIdx, base, studentData[..dimIdx]), studentColors)
    {
      var value := studentData[dimIdx];
      ghost var before := RowLinks(studentIdx, base, studentData[..dimIdx]);
      ghost var after := RowLinks(studentIdx, base, studentData[..dimIdx + 1]);
      RowLinksSnoc(studentIdx, base, studentData, dimIdx);
      if value > 0.0 {
        ghost var link := Link(studentIdx, base + dimIdx, value);
        ListsMatchAppend(sources', targets', values', linkColors', done + before, studentColors, link);
        sources' := sources' + [studentIdx];
        targets' := targets' + [base + dimIdx];
        values' := values' + [value];
        var baseColor := Muted(studentColor);
        linkColors' := linkColors' + [baseColor];
        assert (done + before) + [link] == done + after;
      }
    }
    assert studentData[..|studentData|] == studentData;
  }

  /**
   * The edge-building loops of create_sankey_diagram: for each student in
   * order, look up the first row with that name and append the links of
   * its values.
   */
  method BuildLinks(table: seq<Record>, studentColors: seq<string>)
    returns (sources: seq<nat>, targets: seq<nat>, values: seq<real>, linkColors: seq<string>)
    requires |studentColors| == |table|
    ensures ListsMatch(sources, targets, values, linkColors, SankeyLinks(table), studentColors)
  {
    var students := Names(table);
    sources, targets, values, linkColors := [], [], [], [];
    ghost var flows := StudentFlows(table);
    for studentIdx := 0 to |students|
      invariant ListsMatch(sources, targets, values, linkColors, Links(flows, |students|, studentIdx), studentColors)
    {
      var student := students[studentIdx];
      var studentData := table[FirstMatch(table, student).value].flow;
      assert studentData == flows[studentIdx];
      sources, targets, values, linkColors := AppendStudentLinks(sources, targets, values, linkColors,
        studentIdx, |students|, studentData, studentColors, Links(flows, |students|, studentIdx));
    }
  }

  /**
   * What every link entry of a diagram built from table satisfies: it goes
   * from a student to a dimension node, the labels at its two ends are
   * that student's name and that dimension's name, its value is strictly
   * positive, and its colour is its student's colour at alpha 0.3.
   */
  lemma DiagramLinkFacts(table: seq<Record>, toRgb: HsvToRgb, d: SankeyData)
    requires WellFormed(table)
    requires d.labels == Names(table) + Dimensions
    requires |d.nodeColors| == |d.labels|
    requires forall i :: 0 <= i < |table| ==> d.nodeColors[i] == Rgba(toRgb(Hue(i, |table|), 0.6, 0.9), BaseAlpha)
    requires ListsMatch(d.sources, d.targets, d.values, d.linkColors, SankeyLinks(table), d.nodeColors[..|table|])
    ensures forall k :: 0 <= k < |d.sources| ==>
      && d.sources[k] < |table|
      && |table| <= d.targets[k] < |d.labels|
      && d.labels[d.sources[k]] == table[d.sources[k]].name
      && d.labels[d.targets[k]] == Dimensions[d.targets[k] - |table|]
      && d.values[k] > 0.0
      && d.linkColors[k] == Rgba(toRgb(Hue(d.sources[k], |table|), 0.6, 0.9), MutedAlpha)
  {
    forall k | 0 <= k < |d.sources|
      ensures d.sources[k] < |table|
      ensures |table| <= d.targets[k] < |d.labels|
      ensures d.labels[d.sources[k]] == table[d.sources[k]].name
      ensures d.labels[d.targets[k]] == Dimensions[d.targets[k] - |table|]
      ensures d.values[k] > 0.0
      ensures d.linkColors[k] == Rgba(toRgb(Hue(d.sources[k], |table|), 0.6, 0.9), MutedAlpha)
    {
      LinkEntryFacts(table, toRgb, d, k);
    }
  }

  lemma LinkEntryFacts(table: seq<Record>, toRgb: HsvToRgb, d: SankeyData, k: nat)
    requires WellFormed(table)
    requires d.labels == Names(table) + Dimensions
    requires |d.nodeColors| == |d.labels|
    requires forall i :: 0 <= i < |table| ==> d.nodeColors[i] == Rgba(toRgb(Hue(i, |table|), 0.6, 0.9), BaseAlpha)
    requires ListsMatch(d.sources, d.targets, d.values, d.linkColors, SankeyLinks(table), d.nodeColors[..|table|])
    requires k < |d.sources|
    ensures d.sources[k] < |table|
    ensures |table| <= d.targets[k] < |d.labels|
    ensures d.labels[d.sources[k]] == table[d.sources[k]].name
    ensures d.labels[d.targets[k]] == Dimensions[d.targets[k] - |table|]
    ensures d.values[k] > 0.0
    ensures d.linkColors[k] == Rgba(toRgb(Hue(d.sources[k], |table|), 0.6, 0.9), MutedAlpha)
  {
    var links := SankeyLinks(table);
    var link := links[k];
    assert d.sources[k] == link.source && d.targets[k] == link.target && d.values[k] == link.value;
    assert d.linkColors[k] == Muted(d.nodeColors[..|table|][link.source]);
    assert link.source < |table| && |table| <= link.target < |table| + |Dimensions| && link.value > 0.0 by {
      StudentFlowLength(table, link.source);
    }
    assert d.labels[link.source] == table[link.source].name;
    assert d.labels[link.target] == Dimensions[link.target - |table|];
    assert d.nodeColors[..|table|][link.source] == Rgba(toRgb(Hue(link.source, |table|), 0.6, 0.9), BaseAlpha);
    MutedChangesOnlyAlpha(toRgb(Hue(link.source, |table|), 0.6, 0.9));
  }

  /**
   * create_sankey_diagram, up to the call into the charting library.
   * Students are the table's names in order; their colours use
   * saturation 0.6 and value 0.9, the dimensions' saturation 0.8 and
   * value 0.7.
   */
  method CreateSankeyDiagram(table: seq<Record>, toRgb: HsvToRgb) returns (d: SankeyData)
    requires WellFormed(table)
    ensures d.labels == Names(table) + Dimensions
    ensures |d.nodeColors| == |d.labels|
    ensures forall i :: 0 <= i < |table| ==> d.nodeColors[i] == Rgba(toRgb(Hue(i, |table|), 0.6, 0.9), BaseAlpha)
    ensures forall j :: 0 <= j < |Dimensions| ==>
      d.nodeColors[|table| + j] == Rgba(toRgb(Hue(j, |Dimensions|), 0.8, 0.7), BaseAlpha)
    ensures ListsMatch(d.sources, d.targets, d.values, d.linkColors, SankeyLinks(table), d.nodeColors[..|table|])
    ensures forall k :: 0 <= k < |d.sources| ==>
      && d.sources[k] < |table|
      && |table| <= d.targets[k] < |d.labels|
      && d.labels[d.sources[k]] == table[d.sources[k]].name
      && d.labels[d.targets[k]] == Dimensions[d.targets[k] - |table|]
      && d.values[k] > 0.0
      && d.linkColors[k] == Rgba(toRgb(Hue(d.sources[k], |table|), 0.6, 0.9), MutedAlpha)
  {
    var students := Names(table);
    var studentColors := GenerateColors(|students|, 0.6, 0.9, toRgb);
    var dimensionColors := GenerateColors(|Dimensions|, 0.8, 0.7, toRgb);
    var labels := students + Dimensions;
    var sources, targets, values, linkColors := BuildLinks(table, studentColors);
    var nodeColors := studentColors + dimensionColors;
    d := SankeyData(labels, nodeColors, sources, targets, values, linkColors);
    assert nodeColors[..|table|] == studentColors;
    DiagramLinkFacts(table, toRgb, d);
  }
}
