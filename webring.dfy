/**
 * The webring page: accepting the server's payload and `render`, which groups
 * the rows by year, orders the years from the most recent down and emits, for
 * every year, a heading and then that year's rows in their input order.
 *
 * The DOM is replaced by presentation-neutral values: a section per year
 * carrying its heading year and its entries, and per entry the three inline
 * elements the page builds (the link, the separator, the fact).
 */
module Webring {
  import opened Json
  import opened Wrappers

  /** A row of the payload as the renderer reads it (`name`, `website`, `year`, `fact`). */
  datatype Student = Student(name: string, website: string, year: int, fact: string)

  /** The students of one year, in input order. */
  datatype Group = Group(year: int, members: seq<Student>)

  datatype Inline =
    | Link(text: string, href: string, target: string, rel: string)
    | Span(className: string, text: string)

  /** One `div.entry`: its children in the order they are appended. */
  datatype EntryView = EntryView(children: seq<Inline>)

  /** One `section.year-section`: the year in its heading, then its entries. */
  datatype SectionView = SectionView(heading: int, entries: seq<EntryView>)

  /** The rows of a response: an array, or anything else. */
  datatype Rows = RowArray(items: seq<Student>) | NotArray

  /** The parsed response body `{status, rows}`. */
  datatype Payload = Payload(status: Value, rows: Rows)

  /** What the webring container ends up showing. */
  datatype Display = Rendered(sections: seq<SectionView>) | ErrorText(text: string)

  // ---------------------------------------------------------------------------
  // The grouping, as specification functions

  function YearSet(xs: seq<Student>): set<int>
  {
    set s | s in xs :: s.year
  }

  /** The students of `xs` whose year is `y`, in input order (`byYear[y]`). */
  function Bucket(xs: seq<Student>, y: int): (r: seq<Student>)
    ensures |r| <= |xs|
    ensures forall s :: s in r ==> s in xs && s.year == y
  {
    if xs == [] then []
    else Bucket(xs[..|xs| - 1], y) + (if xs[|xs| - 1].year == y then [xs[|xs| - 1]] else [])
  }

  /** The indices of `xs` whose year is `y`, in increasing order. */
  function Positions(xs: seq<Student>, y: int): seq<nat>
  {
    if xs == [] then []
    else Positions(xs[..|xs| - 1], y) + (if xs[|xs| - 1].year == y then [|xs| - 1] else [])
  }

  predicate StrictlyDescending(ys: seq<int>)
  {
    forall i, j :: 0 <= i < j < |ys| ==> ys[i] > ys[j]
  }

  /** Adds `y` to a strictly descending sequence of years, keeping it strictly descending. */
  function InsertDescending(ys: seq<int>, y: int): (r: seq<int>)
    requires StrictlyDescending(ys)
    ensures StrictlyDescending(r)
    ensures forall z :: z in r <==> z in ys || z == y
  {
    if ys == [] then [y]
    else if y > ys[0] then [y] + ys
    else if y == ys[0] then ys
    else
      var r := InsertDescending(ys[1..], y);
      HeadAboveTail(ys);
      assert forall j :: 0 <= j < |r| ==> r[j] in r;
      [ys[0]] + r
  }

  /** In a strictly descending sequence the first element is above everything after it. */
  lemma HeadAboveTail(ys: seq<int>)
    requires StrictlyDescending(ys) && ys != []
    ensures forall z :: z in ys[1..] ==> z < ys[0]
    ensures forall z :: z in ys ==> z <= ys[0]
  {
    assert ys == [ys[0]] + ys[1..];
    forall z | z in ys[1..] ensures z < ys[0] {
      var j :| 0 <= j < |ys[1..]| && ys[1..][j] == z;
      assert ys[j + 1] == z;
    }
  }

  /** The distinct years of `xs`, most recent first (`Object.keys(byYear)` sorted by `b - a`). */
  function DistinctYearsDescending(xs: seq<Student>): (r: seq<int>)
    ensures StrictlyDescending(r)
    ensures forall z :: z in r <==> z in YearSet(xs)
  {
    if xs == [] then []
    else
      var init := xs[..|xs| - 1];
      assert xs == init + [xs[|xs| - 1]];
      assert YearSet(xs) == YearSet(init) + {xs[|xs| - 1].year};
      InsertDescending(DistinctYearsDescending(init), xs[|xs| - 1].year)
  }

  /** One group per year of `ys`, in that order, holding the students of that year. */
  function GroupsFor(ys: seq<int>, xs: seq<Student>): (r: seq<Group>)
    ensures |r| == |ys|
    ensures forall i :: 0 <= i < |ys| ==> r[i] == Group(ys[i], Bucket(xs, ys[i]))
  {
    if ys == [] then [] else [Group(ys[0], Bucket(xs, ys[0]))] + GroupsFor(ys[1..], xs)
  }

  /**
   * The groups `render` emits for `xs`: years strictly descending, each an
   * input year, each holding `Bucket(xs, year)`.
   */
  function GroupByYear(xs: seq<Student>): (r: seq<Group>)
    ensures forall i, j :: 0 <= i < j < |r| ==> r[i].year > r[j].year
    ensures forall i :: 0 <= i < |r| ==> r[i].year in YearSet(xs) && r[i].members == Bucket(xs, r[i].year)
  {
    GroupsFor(DistinctYearsDescending(xs), xs)
  }

  /** All members of `gs`, group after group. */
  function Members(gs: seq<Group>): seq<Student>
  {
    if gs == [] then [] else gs[0].members + Members(gs[1..])
  }

  // ---------------------------------------------------------------------------
  // The layout, as specification functions

  /** The text an inline element shows. */
  function TextOf(x: Inline): string
  {
    match x
    case Link(text, _, _, _) => text
    case Span(_, text) => text
  }

  /** The `textContent` of a sequence of inline elements: their texts one after the other. */
  function TextContent(xs: seq<Inline>): string
  {
    if xs == [] then "" else TextOf(xs[0]) + TextContent(xs[1..])
  }

  /**
   * The element built for one student. It reads as the name, " | ", a space
   * and the fact; its first child, and only that one, is a link, to the
   * student's website, opened in a new tab without opener or referrer.
   */
  function EntryOf(s: Student): (r: EntryView)
    ensures |r.children| == 3
    ensures TextContent(r.children) == s.name + " |  " + s.fact
    ensures forall k :: 0 <= k < |r.children| ==> (r.children[k].Link? <==> k == 0)
    ensures r.children[0].href == s.website && r.children[0].target == "_blank" && r.children[0].rel == "noopener noreferrer"
  {
    var children := [Link(s.name, s.website, "_blank", "noopener noreferrer"), Span("separator", " | "), Span("about", " " + s.fact)];
    assert TextContent(children[2..]) == " " + s.fact by {
      assert children[2..][1..] == [];
    }
    assert children[1..][1..] == children[2..];
    assert TextContent(children) == s.name + (" | " + (" " + s.fact));
    assert " | " + (" " + s.fact) == " |  " + s.fact;
    EntryView(children)
  }

  /** A group's section: headed by its year, one entry per member in order, each reading as that member's line. */
  function SectionOf(g: Group): (r: SectionView)
    ensures r.heading == g.year && |r.entries| == |g.members|
    ensures forall k :: 0 <= k < |g.members| ==>
              TextContent(r.entries[k].children) == g.members[k].name + " |  " + g.members[k].fact &&
              r.entries[k].children[0].Link? && r.entries[k].children[0].href == g.members[k].website
  {
    SectionView(g.year, seq(|g.members|, k requires 0 <= k < |g.members| => EntryOf(g.members[k])))
  }

  /** The page for a sequence of groups: one section per group, in order, headed by its year. */
  function Layout(gs: seq<Group>): (r: seq<SectionView>)
    ensures |r| == |gs|
    ensures forall i :: 0 <= i < |gs| ==> r[i].heading == gs[i].year && |r[i].entries| == |gs[i].members|
  {
    seq(|gs|, i requires 0 <= i < |gs| => SectionOf(gs[i]))
  }

  // ---------------------------------------------------------------------------
  // The imperative renderer

  /**
   * `Object.keys(byYear).map(Number).sort((a, b) => b - a)`: the keys of the
   * dictionary, each once, from the largest down. The library sort is
   * replaced by repeatedly taking the largest key not yet emitted.
   */
  method SortedKeysDescending(keys: set<int>) returns (years: seq<int>)
    ensures StrictlyDescending(years)
    ensures forall y :: y in years <==> y in keys
  {
    years := [];
    var rest := keys;
    while rest != {}
      invariant rest <= keys
      invariant StrictlyDescending(years)
      invariant forall y :: y in years <==> y in keys && y !in rest
      invariant forall y, z :: y in years && z in rest ==> z < y
      decreases |rest|
    {
      MaxExists(rest);
      var m :| m in rest && forall z :: z in rest ==> z <= m;
      assert forall j :: 0 <= j < |years| ==> years[j] in years;
      years := years + [m];
      rest := rest - {m};
    }
  }

  /**
   * The first part of `render`: one pass over the rows that creates
   * `byYear[y]` on the first row of year `y` and pushes every row onto the
   * list of its year.
   */
  method IndexByYear(students: seq<Student>) returns (byYear: map<int, seq<Student>>)
    ensures forall y :: y in byYear <==> y in YearSet(students)
    ensures forall y :: y in byYear ==> byYear[y] == Bucket(students, y)
  {
    byYear := map[];
    var i := 0;
    while i < |students|
      invariant 0 <= i <= |students|
      invariant forall y :: y in byYear <==> y in YearSet(students[..i])
      invariant forall y :: y in byYear ==> byYear[y] == Bucket(students[..i], y)
    {
      var s := students[i];
      var y := s.year;
      assert students[..i + 1][..i] == students[..i];
      assert YearSet(students[..i + 1]) == YearSet(students[..i]) + {y} by {
        assert students[..i + 1] == students[..i] + [s];
      }
      if y !in byYear {
        BucketOutsideYears(students[..i], y);
        byYear := byYear[y := []];
      }
      byYear := byYear[y := byYear[y] + [s]];
      i := i + 1;
    }
    assert students[..i] == students;
  }

  /** The section for one year: its heading, then one entry per student, each link, separator, fact. */
  method BuildSection(year: int, members: seq<Student>) returns (section: SectionView)
    ensures section == SectionOf(Group(year, members))
  {
    var entries: seq<EntryView> := [];
    var m := 0;
    while m < |members|
      invariant 0 <= m <= |members|
      invariant |entries| == m
      invariant forall j :: 0 <= j < m ==> entries[j] == EntryOf(members[j])
    {
      var student := members[m];
      var link := Link(student.name, student.website, "_blank", "noopener noreferrer");
      var separator := Span("separator", " | ");
      var fact := Span("about", " " + student.fact);
      entries := entries + [EntryView([link, separator, fact])];
      m := m + 1;
    }
    section := SectionView(year, entries);
  }

  /**
   * The loop over the sorted years: appends, year after year, the section
   * built from that year's list in the index. `groups` names, for the proof,
   * the group each year stands for.
   */
  method EmitSections(years: seq<int>, byYear: map<int, seq<Student>>, ghost groups: seq<Group>)
    returns (container: seq<SectionView>)
    requires |groups| == |years|
    requires forall k :: 0 <= k < |years| ==> years[k] in byYear && groups[k] == Group(years[k], byYear[years[k]])
    ensures container == Layout(groups)
  {
    container := [];
    var k := 0;
    while k < |years|
      invariant 0 <= k <= |years|
      invariant container == Layout(groups[..k])
    {
      var section := BuildSection(years[k], byYear[years[k]]);
      LayoutSnoc(groups, k);
      container := container + [section];
      k := k + 1;
    }
    assert groups[..k] == groups;
  }

  lemma LayoutSnoc(gs: seq<Group>, k: nat)
    requires k < |gs|
    ensures Layout(gs[..k + 1]) == Layout(gs[..k]) + [SectionOf(gs[k])]
  {
  }

  /**
   * `render(students)`: indexes the rows by year, sorts the years and appends
   * one section per year, in that order, to the (initially empty) container.
   */
  method Render(students: seq<Student>) returns (container: seq<SectionView>)
    ensures container == Layout(GroupByYear(students))
  {
    var byYear := IndexByYear(students);
    var years := SortedKeysDescending(byYear.Keys);
    DescendingUnique(years, DistinctYearsDescending(students));
    assert forall k :: 0 <= k < |years| ==> years[k] in years;
    container := EmitSections(years, byYear, GroupByYear(students));
  }

  /** Accepting the response body: `status` must be the string "ok" and `rows` an array. */
  function AcceptPayload(p: Payload): (r: Option<seq<Student>>)
    ensures r.Some? <==> p.status == Str("ok") && p.rows.RowArray?
    ensures r.Some? ==> r.value == p.rows.items
  {
    if p.status != Str("ok") || !p.rows.RowArray? then None else Some(p.rows.items)
  }

  const ErrorPrefix: string := "Could not load the webring. "
  const HttpFailureMessage: string := "Failed to load webring"
  const InvalidResponseMessage: string := "Invalid response from server"

  /**
   * The promise chain of the page script once the response has arrived:
   * a non-OK HTTP status fails with one message, a body that is not an
   * accepted payload with another, and an accepted payload is rendered in
   * full in place of the loading text.
   */
  method ShowResponse(httpOk: bool, p: Payload) returns (d: Display)
    ensures !httpOk ==> d == ErrorText(ErrorPrefix + HttpFailureMessage)
    ensures httpOk && AcceptPayload(p).None? ==> d == ErrorText(ErrorPrefix + InvalidResponseMessage)
    ensures httpOk && AcceptPayload(p).Some? ==> d == Rendered(Layout(GroupByYear(p.rows.items)))
  {
    if !httpOk {
      return ErrorText(ErrorPrefix + HttpFailureMessage);
    }
    var rows := AcceptPayload(p);
    if rows.None? {
      return ErrorText(ErrorPrefix + InvalidResponseMessage);
    }
    var sections := Render(rows.value);
    d := Rendered(sections);
  }

  // ---------------------------------------------------------------------------
  // Properties

  /** A finite non-empty set of years has a largest element. */
  lemma {:induction false} MaxExists(s: set<int>)
    requires s != {}
    ensures exists m :: m in s && forall z :: z in s ==> z <= m
  {
    assert (forall y :: y !in s) ==> s == {};
    var x :| x in s;
    var rest := s - {x};
    if rest != {} {
      MaxExists(rest);
      var m :| m in rest && forall z :: z in rest ==> z <= m;
      var top := if x > m then x else m;
      forall z | z in s ensures z <= top {
        if z != x {
          assert z in rest;
        }
      }
      assert top in s;
    } else {
      forall z | z in s ensures z <= x {
        assert z !in rest;
      }
    }
  }

  lemma {:induction false} BucketOutsideYears(xs: seq<Student>, y: int)
    requires y !in YearSet(xs)
    ensures Bucket(xs, y) == []
  {
    if xs != [] {
      var init := xs[..|xs| - 1];
      assert xs == init + [xs[|xs| - 1]];
      assert YearSet(xs) == YearSet(init) + {xs[|xs| - 1].year};
      BucketOutsideYears(init, y);
    }
  }

  /** Two strictly descending sequences with the same elements are equal. */
  lemma {:induction false} DescendingUnique(a: seq<int>, b: seq<int>)
    requires StrictlyDescending(a) && StrictlyDescending(b)
    requires forall y :: y in a <==> y in b
    ensures a == b
  {
    assert a != [] ==> b != [] by {
      if a != [] {
        assert a[0] in a;
      }
    }
    assert b != [] ==> a != [] by {
      if b != [] {
        assert b[0] in b;
      }
    }
    if a != [] {
      assert a[0] in a && b[0] in b;
      HeadAboveTail(a);
      HeadAboveTail(b);
      forall y ensures y in a[1..] <==> y in b[1..] {
        assert y in a <==> y == a[0] || y in a[1..] by { assert a == [a[0]] + a[1..]; }
        assert y in b <==> y == b[0] || y in b[1..] by { assert b == [b[0]] + b[1..]; }
      }
      DescendingUnique(a[1..], b[1..]);
      assert a == [a[0]] + a[1..];
      assert b == [b[0]] + b[1..];
    }
  }

  lemma {:induction false} PositionsIndexBucket(xs: seq<Student>, y: int)
    ensures |Positions(xs, y)| == |Bucket(xs, y)|
    ensures forall k :: 0 <= k < |Positions(xs, y)| ==>
              Positions(xs, y)[k] < |xs| && xs[Positions(xs, y)[k]] == Bucket(xs, y)[k]
  {
    if xs != [] {
      var init := xs[..|xs| - 1];
      PositionsIndexBucket(init, y);
      assert forall j :: 0 <= j < |init| ==> xs[j] == init[j];
    }
  }

  lemma {:induction false} PositionsIncreasing(xs: seq<Student>, y: int)
    ensures forall k :: 0 <= k < |Positions(xs, y)| ==> Positions(xs, y)[k] < |xs|
    ensures forall k, l :: 0 <= k < l < |Positions(xs, y)| ==> Positions(xs, y)[k] < Positions(xs, y)[l]
  {
    if xs != [] {
      PositionsIncreasing(xs[..|xs| - 1], y);
    }
  }

  lemma {:induction false} PositionsComplete(xs: seq<Student>, y: int)
    ensures forall j :: 0 <= j < |xs| ==> (xs[j].year == y <==> j in Positions(xs, y))
  {
    if xs != [] {
      var init := xs[..|xs| - 1];
      PositionsComplete(init, y);
      PositionsIncreasing(init, y);
      forall j | 0 <= j < |xs| ensures xs[j].year == y <==> j in Positions(xs, y) {
        if j < |init| {
          assert xs[j] == init[j];
          assert j != |xs| - 1;
        }
      }
    }
  }

  /**
   * Stability: the group of year `y` is `xs` restricted to the strictly
   * increasing indices whose year is `y`, and every such index is used.
   */
  lemma {:induction false} BucketIsOrderedRestriction(xs: seq<Student>, y: int)
    ensures var p := Positions(xs, y);
            var b := Bucket(xs, y);
            |p| == |b| &&
            (forall k :: 0 <= k < |p| ==> p[k] < |xs| && xs[p[k]] == b[k]) &&
            (forall k, l :: 0 <= k < l < |p| ==> p[k] < p[l]) &&
            (forall j :: 0 <= j < |xs| ==> (xs[j].year == y <==> j in p))
  {
    PositionsIndexBucket(xs, y);
    PositionsIncreasing(xs, y);
    PositionsComplete(xs, y);
  }

  /** The group keys are the distinct years of the input, strictly descending, and no group is empty. */
  lemma GroupKeys(xs: seq<Student>)
    ensures var g := GroupByYear(xs);
            (forall i, j :: 0 <= i < j < |g| ==> g[i].year > g[j].year) &&
            (forall y :: y in YearSet(xs) <==> exists i :: 0 <= i < |g| && g[i].year == y) &&
            (forall i :: 0 <= i < |g| ==> g[i].members != [])
  {
    var ys := DistinctYearsDescending(xs);
    var g := GroupByYear(xs);
    forall y | y in YearSet(xs) ensures exists i :: 0 <= i < |g| && g[i].year == y {
      assert y in ys;
      var i :| 0 <= i < |ys| && ys[i] == y;
      assert g[i].year == y;
    }
    forall i | 0 <= i < |g| ensures g[i].members != [] {
      assert ys[i] in YearSet(xs);
      var s :| s in xs && s.year == ys[i];
      var j :| 0 <= j < |xs| && xs[j] == s;
      BucketIsOrderedRestriction(xs, ys[i]);
      assert j in Positions(xs, ys[i]);
    }
  }

  /** Every student lands in exactly one group, the one whose key is its year. */
  lemma EveryStudentInItsGroup(xs: seq<Student>, k: nat)
    requires k < |xs|
    ensures var g := GroupByYear(xs);
            (exists i :: 0 <= i < |g| && g[i].year == xs[k].year && xs[k] in g[i].members) &&
            (forall i :: 0 <= i < |g| && xs[k] in g[i].members ==> g[i].year == xs[k].year) &&
            (forall i, j :: 0 <= i < |g| && 0 <= j < |g| && xs[k] in g[i].members && xs[k] in g[j].members ==> i == j)
  {
    var ys := DistinctYearsDescending(xs);
    var g := GroupByYear(xs);
    var y := xs[k].year;
    assert y in YearSet(xs);
    var i :| 0 <= i < |ys| && ys[i] == y;
    InOwnBucket(xs, k);
    assert g[i].members == Bucket(xs, y);
    forall a | 0 <= a < |g| && xs[k] in g[a].members ensures g[a].year == y {
      assert g[a] == Group(ys[a], Bucket(xs, ys[a]));
    }
    assert forall a, b :: 0 <= a < b < |g| ==> g[a].year > g[b].year;
  }

  lemma {:induction false} InOwnBucket(xs: seq<Student>, k: nat)
    requires k < |xs|
    ensures xs[k] in Bucket(xs, xs[k].year)
  {
    var init := xs[..|xs| - 1];
    if k < |init| {
      assert xs[k] == init[k];
      InOwnBucket(init, k);
    }
  }

  /** The buckets of the years `ys`, one after the other. */
  function Gathered(ys: seq<int>, xs: seq<Student>): seq<Student>
  {
    if ys == [] then [] else Bucket(xs, ys[0]) + Gathered(ys[1..], xs)
  }

  lemma {:induction false} MembersAreGathered(ys: seq<int>, xs: seq<Student>)
    ensures Members(GroupsFor(ys, xs)) == Gathered(ys, xs)
  {
    if ys != [] {
      assert GroupsFor(ys, xs)[1..] == GroupsFor(ys[1..], xs);
      MembersAreGathered(ys[1..], xs);
    }
  }

  lemma {:induction false} GatheredOfNoStudents(ys: seq<int>)
    ensures Gathered(ys, []) == []
  {
    if ys != [] {
      GatheredOfNoStudents(ys[1..]);
    }
  }

  lemma BucketSnoc(xs: seq<Student>, s: Student, y: int)
    ensures s.year == y ==> Bucket(xs + [s], y) == Bucket(xs, y) + [s]
    ensures s.year != y ==> Bucket(xs + [s], y) == Bucket(xs, y)
  {
    assert (xs + [s])[..|xs|] == xs;
  }

  lemma GatheredCons(ys: seq<int>, xs: seq<Student>)
    requires ys != []
    ensures multiset(Gathered(ys, xs)) == multiset(Bucket(xs, ys[0])) + multiset(Gathered(ys[1..], xs))
  {
  }

  /** Without repeated years, the first year does not occur again and the rest has no repeats either. */
  lemma DistinctTail(ys: seq<int>)
    requires ys != []
    requires forall i, j :: 0 <= i < j < |ys| ==> ys[i] != ys[j]
    ensures ys[0] !in ys[1..]
    ensures forall i, j :: 0 <= i < j < |ys[1..]| ==> ys[1..][i] != ys[1..][j]
    ensures forall y :: y in ys <==> y == ys[0] || y in ys[1..]
  {
    forall i | 0 <= i < |ys[1..]| ensures ys[1..][i] != ys[0] {
      assert ys[1..][i] == ys[i + 1];
    }
    assert ys == [ys[0]] + ys[1..];
  }

  lemma AddOneEitherSide<T>(head: multiset<T>, tail: multiset<T>, x: T)
    ensures (head + multiset{x}) + tail == (head + tail) + multiset{x}
    ensures head + (tail + multiset{x}) == (head + tail) + multiset{x}
  {
  }

  lemma {:induction false} GatheredSnoc(ys: seq<int>, xs: seq<Student>, s: Student)
    requires forall i, j :: 0 <= i < j < |ys| ==> ys[i] != ys[j]
    ensures s.year in ys ==> multiset(Gathered(ys, xs + [s])) == multiset(Gathered(ys, xs)) + multiset{s}
    ensures s.year !in ys ==> multiset(Gathered(ys, xs + [s])) == multiset(Gathered(ys, xs))
  {
    if ys != [] {
      var y0, rest := ys[0], ys[1..];
      GatheredCons(ys, xs);
      GatheredCons(ys, xs + [s]);
      BucketSnoc(xs, s, y0);
      DistinctTail(ys);
      GatheredSnoc(rest, xs, s);
      AddOneEitherSide(multiset(Bucket(xs, y0)), multiset(Gathered(rest, xs)), s);
    }
  }

  lemma {:induction false} GatheredAllYears(ys: seq<int>, xs: seq<Student>)
    requires forall i, j :: 0 <= i < j < |ys| ==> ys[i] != ys[j]
    requires forall k :: 0 <= k < |xs| ==> xs[k].year in ys
    ensures multiset(Gathered(ys, xs)) == multiset(xs)
  {
    if xs == [] {
      GatheredOfNoStudents(ys);
    } else {
      var init, last := xs[..|xs| - 1], xs[|xs| - 1];
      assert xs == init + [last];
      assert last.year in ys;
      GatheredAllYears(ys, init);
      GatheredSnoc(ys, init, last);
    }
  }

  /** Nothing is lost or duplicated: the groups hold exactly the input students, as many times as they occur. */
  lemma GroupingNoLoss(xs: seq<Student>)
    ensures multiset(Members(GroupByYear(xs))) == multiset(xs)
    ensures |Members(GroupByYear(xs))| == |xs|
  {
    var ys := DistinctYearsDescending(xs);
    forall k | 0 <= k < |xs| ensures xs[k].year in ys {
      assert xs[k].year in YearSet(xs);
    }
    MembersAreGathered(ys, xs);
    GatheredAllYears(ys, xs);
    assert |multiset(Members(GroupByYear(xs)))| == |multiset(xs)|;
  }

  /** Group `i` lists exactly the students of its year, in input order. */
  lemma GroupingStable(xs: seq<Student>, i: nat)
    requires i < |GroupByYear(xs)|
    ensures var g := GroupByYear(xs)[i];
            var p := Positions(xs, g.year);
            |p| == |g.members| &&
            (forall k :: 0 <= k < |p| ==> p[k] < |xs| && g.members[k] == xs[p[k]]) &&
            (forall k, l :: 0 <= k < l < |p| ==> p[k] < p[l]) &&
            (forall j :: 0 <= j < |xs| ==> (xs[j].year == g.year <==> j in p))
  {
    BucketIsOrderedRestriction(xs, GroupByYear(xs)[i].year);
  }

  /** An empty input yields no groups and an empty page. */
  lemma EmptyInputNoGroups()
    ensures GroupByYear([]) == []
    ensures Layout(GroupByYear([])) == []
  {
  }

  /**
   * Section `i` carries the year of group `i` as its heading and one entry
   * per member, in order; each entry is the link (text the name, target the
   * website, opened in a new tab with `noopener noreferrer`), then the
   * separator " | ", then the fact preceded by a space.
   */
  lemma LayoutShape(gs: seq<Group>, i: nat, k: nat)
    requires i < |gs| && k < |gs[i].members|
    ensures |Layout(gs)| == |gs|
    ensures Layout(gs)[i].heading == gs[i].year
    ensures |Layout(gs)[i].entries| == |gs[i].members|
    ensures var s := gs[i].members[k];
            Layout(gs)[i].entries[k].children ==
              [Link(s.name, s.website, "_blank", "noopener noreferrer"), Span("separator", " | "), Span("about", " " + s.fact)]
  {
  }
}
