/**
 * One pass over the children of a `page` element, pulling out its title and revision text
 * and reporting progress. Both parsers share this scan; only the streaming parser turns
 * the progress reports on.
 */
module PageExtractor {
  import opened Wrappers
  import Tags

  /** An XML element as the tree builder delivers it: tag, leading text, children. */
  datatype Element = Element(tag: string, text: Option<string>, children: seq<Element>)

  predicate Tagged(e: Element, name: string) {
    Tags.TagName(e.tag) == name
  }

  predicate IsPage(e: Element) {
    Tagged(e, "page")
  }

  predicate IsTitle(e: Element) {
    Tagged(e, "title")
  }

  /** Python truthiness of an optional string: present and non-empty. */
  predicate Truthy(s: Option<string>) {
    s.Some? && s.value != []
  }

  /** Python's `text or ""`: the text when it is present, `""` otherwise. */
  function OrEmpty(t: Option<string>): (r: string)
    ensures Truthy(t) ==> r == t.value
    ensures !Truthy(t) ==> r == []
  {
    match t case Some(v) => v case None => ""
  }

  /** The `page` elements of a stream of elements, in order. */
  function Pages(es: seq<Element>): (ps: seq<Element>)
    ensures |ps| <= |es|
    ensures forall k :: 0 <= k < |ps| ==> IsPage(ps[k])
    ensures forall k :: 0 <= k < |es| && IsPage(es[k]) ==> es[k] in ps
  {
    if es == [] then []
    else (if IsPage(es[0]) then [es[0]] else []) + Pages(es[1..])
  }

  /** Selecting pages commutes with concatenation, so the pages keep their document order. */
  lemma {:induction false} PagesSplit(a: seq<Element>, b: seq<Element>)
    ensures Pages(a + b) == Pages(a) + Pages(b)
  {
    if a == [] {
      assert a + b == b;
    } else {
      assert (a + b)[0] == a[0];
      assert (a + b)[1..] == a[1..] + b;
      PagesSplit(a[1..], b);
    }
  }

  /** The positions of `xs` whose element satisfies `p`. */
  function Positions<T>(xs: seq<T>, p: T -> bool): set<nat> {
    set k: nat | k < |xs| && p(xs[k])
  }

  /** There are as many selected pages as positions of the stream holding a page. */
  lemma {:induction false} PageCount(es: seq<Element>)
    ensures |Pages(es)| == |Positions(es, IsPage)|
  {
    if es != [] {
      var n := |es| - 1;
      PageCount(es[..n]);
      assert es == es[..n] + [es[n]];
      PagesSplit(es[..n], [es[n]]);
      assert [es[n]][1..] == [];
      PositionsSnoc(es, IsPage);
    }
  }

  lemma PositionsSnoc<T>(xs: seq<T>, p: T -> bool)
    requires xs != []
    ensures var n := |xs| - 1;
      |Positions(xs, p)| == |Positions(xs[..n], p)| + (if p(xs[n]) then 1 else 0)
  {
    var n := |xs| - 1;
    var before, all := Positions(xs[..n], p), Positions(xs, p);
    var last: set<nat> := if p(xs[n]) then {n} else {};
    assert all == before + last by {
      forall k: nat ensures k in all <==> k in before + last {
        if k < n {
          assert xs[..n][k] == xs[k];
        }
      }
    }
    assert before !! last by {
      assert n !in before;
    }
  }

  /** Index of the first element of `cs` whose tag resolves to `name`. */
  function FirstTagged(cs: seq<Element>, name: string): (r: Option<nat>)
    ensures r.Some? ==> r.value < |cs| && Tagged(cs[r.value], name)
    ensures r.Some? ==> forall j :: 0 <= j < r.value ==> !Tagged(cs[j], name)
    ensures r.None? ==> forall j :: 0 <= j < |cs| ==> !Tagged(cs[j], name)
  {
    if cs == [] then None
    else if Tagged(cs[0], name) then Some(0)
    else match FirstTagged(cs[1..], name)
      case None => None
      case Some(k) => Some(k + 1)
  }

  /**
   * The text of a revision's first `text` child (scanning stops there): `None` when the
   * revision has no `text` child, `Some(t)` otherwise, where `t` itself may be `None`.
   */
  function RevisionText(rev: Element): (r: Option<Option<string>>)
    ensures r.Some? <==> exists k :: 0 <= k < |rev.children| && Tagged(rev.children[k], "text")
    ensures r.Some? ==> exists k :: (
      && 0 <= k < |rev.children| && Tagged(rev.children[k], "text")
      && r.value == rev.children[k].text
      && forall j :: 0 <= j < k ==> !Tagged(rev.children[j], "text"))
  {
    match FirstTagged(rev.children, "text")
    case None => None
    case Some(k) => Some(rev.children[k].text)
  }

  /** A `revision` child that sets the page text: one with a `text` child. */
  predicate CarriesText(e: Element) {
    Tagged(e, "revision") && RevisionText(e).Some?
  }

  /** The progress reports, one constructor per stage. */
  datatype Status =
    | Start(title: string)
    | Content(title: string, len: nat)
    | Llm(title: string)
    | Events(title: string)
    | EventsDone(title: string, count: nat)

  /** The scan's variables after some children: `title`, `text_content`, reports so far. */
  datatype Scan = Scan(title: Option<string>, text: Option<string>, trace: seq<Status>)

  /**
   * One child of the page: a `title` overwrites the title, a text-bearing `revision` the
   * text. Reports are only appended, at most one per child, and only with a callback.
   */
  function Step(s: Scan, child: Element, callback: bool): (r: Scan)
    ensures s.trace <= r.trace && |r.trace| <= |s.trace| + 1
    ensures !callback ==> r.trace == s.trace
  {
    if IsTitle(child) then
      var t := child.text;
      Scan(t, s.text, s.trace + (if callback && Truthy(t) then [Start(t.value)] else []))
    else if Tagged(child, "revision") then
      match RevisionText(child)
      case None => s
      case Some(x) =>
        Scan(s.title, x,
             s.trace + (if callback && Truthy(x) && Truthy(s.title) then [Content(s.title.value, |x.value|)] else []))
    else s
  }

  /** The scan over the children `cs`, in order, from no title and no text: at most one report per child. */
  function ScanChildren(cs: seq<Element>, callback: bool): (s: Scan)
    decreases |cs|
    ensures |s.trace| <= |cs|
  {
    if cs == [] then Scan(None, None, [])
    else Step(ScanChildren(cs[..|cs| - 1], callback), cs[|cs| - 1], callback)
  }

  /** Index of the last element of `cs` satisfying `p`. */
  function LastWhere(cs: seq<Element>, p: Element -> bool): (r: Option<nat>)
    ensures r.Some? ==> r.value < |cs| && p(cs[r.value])
    ensures r.Some? ==> forall j :: r.value < j < |cs| ==> !p(cs[j])
    ensures r.None? ==> forall j :: 0 <= j < |cs| ==> !p(cs[j])
    decreases |cs|
  {
    if cs == [] then None
    else if p(cs[|cs| - 1]) then Some(|cs| - 1)
    else LastWhere(cs[..|cs| - 1], p)
  }

  /** The title the scan ends with is the text of the last `title` child, if any. */
  lemma {:induction false} ScanTitleIsLast(cs: seq<Element>, callback: bool)
    ensures ScanChildren(cs, callback).title ==
      match LastWhere(cs, IsTitle) case None => None case Some(i) => cs[i].text
  {
    if cs != [] {
      var n := |cs| - 1;
      var init := cs[..n];
      ScanTitleIsLast(init, callback);
      assert ScanChildren(cs, callback) == Step(ScanChildren(init, callback), cs[n], callback);
      if !IsTitle(cs[n]) {
        assert LastWhere(cs, IsTitle) == LastWhere(init, IsTitle);
        match LastWhere(init, IsTitle) {
          case None =>
          case Some(i) => assert init[i] == cs[i];
        }
      }
    }
  }

  /**
   * The text the scan ends with is the first `text` child of the last revision that has
   * one: within a revision the first `text` wins, across revisions the last one does.
   */
  lemma {:induction false} ScanTextIsLastRevision(cs: seq<Element>, callback: bool)
    ensures ScanChildren(cs, callback).text ==
      match LastWhere(cs, CarriesText) case None => None case Some(i) => RevisionText(cs[i]).value
  {
    if cs != [] {
      var init := cs[..|cs| - 1];
      ScanTextIsLastRevision(init, callback);
      var last := cs[|cs| - 1];
      var s := ScanChildren(init, callback);
      if CarriesText(last) {
        assert LastWhere(cs, CarriesText) == Some(|cs| - 1);
        assert ScanChildren(cs, callback).text == RevisionText(last).value;
      } else {
        assert LastWhere(cs, CarriesText) == LastWhere(init, CarriesText);
        assert ScanChildren(cs, callback).text == s.text;
        assert forall j :: 0 <= j < |init| ==> init[j] == cs[j];
      }
    }
  }

  /** Without a callback nothing is reported. */
  lemma {:induction false} ScanSilent(cs: seq<Element>)
    ensures ScanChildren(cs, false).trace == []
  {
    if cs != [] {
      ScanSilent(cs[..|cs| - 1]);
    }
  }

  /** The title and text a scan ends with are the same with or without a callback. */
  lemma {:induction false} ScanSameFields(cs: seq<Element>)
    ensures ScanChildren(cs, false).title == ScanChildren(cs, true).title
    ensures ScanChildren(cs, false).text == ScanChildren(cs, true).text
  {
    if cs != [] {
      ScanSameFields(cs[..|cs| - 1]);
    }
  }

  /** The titles of the `start` reports in a trace, in order. */
  function Starts(trace: seq<Status>): (ts: seq<string>)
    ensures |ts| <= |trace|
    decreases |trace|
  {
    if trace == [] then []
    else Starts(trace[..|trace| - 1]) + (if trace[|trace| - 1].Start? then [trace[|trace| - 1].title] else [])
  }

  /** The non-empty texts of the `title` children, in order. */
  function TruthyTitles(cs: seq<Element>): (ts: seq<string>)
    ensures |ts| <= |cs|
    ensures forall k :: 0 <= k < |ts| ==> ts[k] != []
    decreases |cs|
  {
    if cs == [] then []
    else
      var last := cs[|cs| - 1];
      TruthyTitles(cs[..|cs| - 1]) + (if IsTitle(last) && Truthy(last.text) then [last.text.value] else [])
  }

  /** One `start` report per `title` child with a non-empty text, in child order. */
  lemma {:induction false} StartsFollowTitles(cs: seq<Element>)
    ensures Starts(ScanChildren(cs, true).trace) == TruthyTitles(cs)
  {
    if cs != [] {
      var n := |cs| - 1;
      var init := cs[..n];
      StartsFollowTitles(init);
      StepStarts(ScanChildren(init, true), cs[n]);
      assert ScanChildren(cs, true) == Step(ScanChildren(init, true), cs[n], true);
    }
  }

  /** One child adds a `start` report exactly when it is a `title` with a non-empty text. */
  lemma StepStarts(s: Scan, child: Element)
    ensures Starts(Step(s, child, true).trace) ==
      Starts(s.trace) + (if IsTitle(child) && Truthy(child.text) then [child.text.value] else [])
  {
    var t := Step(s, child, true).trace;
    StepTrace(s, child);
    if t != s.trace {
      assert t[..|t| - 1] == s.trace;
    }
  }

  /** The title the scan holds after the children `cs`: the text of the last `title` child, if any. */
  function CurrentTitle(cs: seq<Element>): Option<string> {
    match LastWhere(cs, IsTitle) case None => None case Some(i) => cs[i].text
  }

  /**
   * For each revision whose first `text` child has a non-empty text while the current title
   * is non-empty: that title and the length of that text, in child order.
   */
  function TextReports(cs: seq<Element>): (rs: seq<(string, nat)>)
    ensures |rs| <= |cs|
    decreases |cs|
  {
    if cs == [] then []
    else
      var init, last := cs[..|cs| - 1], cs[|cs| - 1];
      var title := CurrentTitle(init);
      TextReports(init)
        + (if Tagged(last, "revision") && RevisionText(last).Some? && Truthy(RevisionText(last).value) && Truthy(title)
           then [(title.value, |RevisionText(last).value.value|)] else [])
  }

  /** The `content` reports of a trace as (title, length) pairs, in order. */
  function Contents(trace: seq<Status>): (cs: seq<(string, nat)>)
    ensures |cs| <= |trace|
    decreases |trace|
  {
    if trace == [] then []
    else
      var last := trace[|trace| - 1];
      Contents(trace[..|trace| - 1]) + (if last.Content? then [(last.title, last.len)] else [])
  }

  /**
   * One `content` report per text-bearing revision whose text and current title are both
   * non-empty, carrying that title and the text's length, in child order.
   */
  lemma {:induction false} ContentReports(cs: seq<Element>)
    ensures Contents(ScanChildren(cs, true).trace) == TextReports(cs)
  {
    if cs != [] {
      var n := |cs| - 1;
      var init := cs[..n];
      ContentReports(init);
      ScanTitleIsLast(init, true);
      StepContents(ScanChildren(init, true), cs[n]);
      assert ScanChildren(cs, true) == Step(ScanChildren(init, true), cs[n], true);
    }
  }

  /**
   * One child adds a `content` report exactly when it is a text-bearing revision whose text
   * and the scan's current title are both non-empty.
   */
  lemma StepContents(s: Scan, child: Element)
    ensures Contents(Step(s, child, true).trace) ==
      Contents(s.trace)
        + (if Tagged(child, "revision") && RevisionText(child).Some? && Truthy(RevisionText(child).value) && Truthy(s.title)
           then [(s.title.value, |RevisionText(child).value.value|)] else [])
  {
    var t := Step(s, child, true).trace;
    StepTrace(s, child);
    if t != s.trace {
      assert t[..|t| - 1] == s.trace;
    }
  }

  /**
   * The reports child `c` makes when the title before it is `title`: a `start` for a `title`
   * child with a non-empty text; a `content` for a revision whose first `text` child has a
   * non-empty text while `title` is non-empty, carrying `title` and the text's length.
   */
  function ChildReport(title: Option<string>, c: Element): (rs: seq<Status>)
    ensures |rs| <= 1
  {
    if IsTitle(c) && Truthy(c.text) then [Start(c.text.value)]
    else if Tagged(c, "revision") && RevisionText(c).Some? && Truthy(RevisionText(c).value) && Truthy(title)
    then [Content(title.value, |RevisionText(c).value.value|)]
    else []
  }

  /**
   * The reports of the children `cs`, in child order, each child's from the title of the
   * last `title` child before it.
   */
  function ChildReports(cs: seq<Element>): (rs: seq<Status>)
    ensures |rs| <= |cs|
    decreases |cs|
  {
    if cs == [] then []
    else ChildReports(cs[..|cs| - 1]) + ChildReport(CurrentTitle(cs[..|cs| - 1]), cs[|cs| - 1])
  }

  /**
   * The whole report sequence of a scan with a callback, `start` and `content` interleaved
   * as the children come: each child's reports, in child order.
   */
  lemma {:induction false} ScanReports(cs: seq<Element>)
    ensures ScanChildren(cs, true).trace == ChildReports(cs)
  {
    if cs != [] {
      var n := |cs| - 1;
      var init := cs[..n];
      ScanReports(init);
      ScanTitleIsLast(init, true);
      StepTrace(ScanChildren(init, true), cs[n]);
      assert ScanChildren(cs, true) == Step(ScanChildren(init, true), cs[n], true);
    }
  }

  /** Two titled revisions in turn report `start`, `content`, `start`, `content`, interleaved. */
  lemma ReportsInterleave(x: string, y: string)
    requires x != [] && y != []
    ensures var title := Element("title", Some("A"), []);
      var rx, ry := Element("revision", None, [Element("text", Some(x), [])]),
                    Element("revision", None, [Element("text", Some(y), [])]);
      ScanChildren([title, rx, title, ry], true).trace == [Start("A"), Content("A", |x|), Start("A"), Content("A", |y|)]
  {
    var title := Element("title", Some("A"), []);
    var rx, ry := Element("revision", None, [Element("text", Some(x), [])]),
                  Element("revision", None, [Element("text", Some(y), [])]);
    var cs := [title, rx, title, ry];
    ScanSnoc(cs[..1]);
    assert cs[..1][..0] == [];
    TitleStep(Scan(None, None, []), "A");
    var s1 := ScanChildren(cs[..1], true);
    ScanSnoc(cs[..2]);
    assert cs[..2][..1] == cs[..1];
    RevisionStep(s1, x);
    var s2 := ScanChildren(cs[..2], true);
    ScanSnoc(cs[..3]);
    assert cs[..3][..2] == cs[..2];
    TitleStep(s2, "A");
    var s3 := ScanChildren(cs[..3], true);
    ScanSnoc(cs);
    assert cs[..3] == cs[..|cs| - 1];
    RevisionStep(s3, y);
  }

  /** A scan over a non-empty sequence is its last step. */
  lemma ScanSnoc(cs: seq<Element>)
    requires cs != []
    ensures ScanChildren(cs, true) == Step(ScanChildren(cs[..|cs| - 1], true), cs[|cs| - 1], true)
  {
  }

  /** A `title` child with a non-empty text sets the title and reports `start`. */
  lemma TitleStep(s: Scan, t: string)
    requires t != []
    ensures Step(s, Element("title", Some(t), []), true) == Scan(Some(t), s.text, s.trace + [Start(t)])
  {
    assert Tags.TagName("title") == "title";
  }

  /** A revision with one non-empty `text` child, under a non-empty title, sets the text and reports `content`. */
  lemma RevisionStep(s: Scan, x: string)
    requires x != [] && Truthy(s.title)
    ensures Step(s, Element("revision", None, [Element("text", Some(x), [])]), true)
         == Scan(s.title, Some(x), s.trace + [Content(s.title.value, |x|)])
  {
    var rev := Element("revision", None, [Element("text", Some(x), [])]);
    assert Tags.TagName("revision") == "revision" && Tags.TagName("text") == "text";
    assert FirstTagged(rev.children, "text") == Some(0);
  }

  /** One child, scanned with a callback, appends exactly its own reports. */
  lemma StepTrace(s: Scan, child: Element)
    ensures Step(s, child, true).trace == s.trace + ChildReport(s.title, child)
  {
  }

  /**
   * What the scan's reports promise: only `start` and `content`, every `content` report
   * with a positive length and after a `start` report for the same title, and a
   * `start` report for the current title whenever it is non-empty.
   */
  ghost predicate WellReported(s: Scan) {
    && (forall k :: 0 <= k < |s.trace| ==>
          && (s.trace[k].Start? || s.trace[k].Content?)
          && (s.trace[k].Content? ==> s.trace[k].len > 0 && Start(s.trace[k].title) in s.trace[..k]))
    && (Truthy(s.title) ==> Start(s.title.value) in s.trace)
  }

  /** One child of the page, scanned with reports on, keeps the reports well formed. */
  lemma StepReports(s: Scan, child: Element)
    requires WellReported(s)
    ensures WellReported(Step(s, child, true))
  {
    var s' := Step(s, child, true);
    assert s'.trace[..|s.trace|] == s.trace;
    forall k | 0 <= k < |s'.trace|
      ensures s'.trace[k].Content? ==> Start(s'.trace[k].title) in s'.trace[..k]
    {
      if k < |s.trace| {
        assert s'.trace[..k] == s.trace[..k];
      } else if s'.trace[k].Content? {
        assert s'.trace[..k] == s.trace;
      }
    }
  }

  /** The reports of a whole scan are well formed. */
  lemma {:induction false} ContentFollowsStart(cs: seq<Element>)
    ensures WellReported(ScanChildren(cs, true))
  {
    if cs != [] {
      ContentFollowsStart(cs[..|cs| - 1]);
      StepReports(ScanChildren(cs[..|cs| - 1], true), cs[|cs| - 1]);
    }
  }

  /** Within one revision the first of several `text` children is the one taken. */
  lemma FirstTextWins(a: Option<string>, b: Option<string>)
    ensures RevisionText(Element("revision", None, [Element("text", a, []), Element("text", b, [])])) == Some(a)
  {
    assert Tags.TagName("text") == "text";
  }
}
